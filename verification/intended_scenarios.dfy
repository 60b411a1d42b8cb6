/** The runs of the scenarios of the allocator as written, replayed on the
    allocator that keeps freed blocks on the list. */
module IntendedScenarios {
  import opened Options
  import opened Blocks
  import opened Mem
  import opened Scenarios
  import opened Intended

  /** Allocating all of a fresh region, freeing it and allocating eight
      bytes: the freed block is back on the list, so the second allocation
      reuses it, where mem.c:93-105 never relinks the freed block. */
  lemma FreedBlockIsReused()
    ensures Alloc(Fresh(), 4080) == Done(Some(16), Fresh().(head := None))
    ensures var a := Alloc(Fresh(), 4080).state;
            Free(a, Some(16)) == Done(0, a.(head := Some(0)))
    ensures var f := Free(Alloc(Fresh(), 4080).state, Some(16)).state;
            Alloc(f, 8).value == Some(16)
  {
    var s := Fresh();
    assert AlignSize(4080) == 4080;
    assert AlignSize(8) == 8;
    var a := Alloc(s, 4080);
    assert a == Done(Some(16), s.(head := None));
    var f := Free(a.state, Some(16));
    assert f == Done(0, a.state.(head := Some(0)));
  }

  /** Allocating 32 bytes and freeing them restores the fresh region: the
      freed block merges with the remainder and heads the list again. */
  lemma SplitThenFreeRestores()
    ensures var a := Alloc(Fresh(), 32);
            a.Done? && a.value == Some(16) && Free(a.state, Some(16)) == Done(0, Fresh().(store := map[0 := Header(4080, None), 48 := Header(4032, None)]))
  {
    var s := Fresh();
    assert AlignSize(32) == 32;
    var a := Alloc(s, 32);
    assert a.state.store == map[0 := Header(32, Some(48)), 48 := Header(4032, None)];
    assert a.state.head == Some(48);
    var f := Free(a.state, Some(16));
  }

  /** The same allocation on the allocator that keeps the remainder in its
      block's place: the first block stays at the head and now links to the
      remainder, where mem.c:62-63 moves `free_list` past it. */
  lemma NonHeadSplitKeepsPrefix()
    ensures Alloc(TwoBlocks(), 32)
            == Done(Some(64), TwoBlocks().(store := map[0 := Header(16, Some(96)), 48 := Header(32, Some(96)), 96 := Header(3984, None)]))
  {
    var s := TwoBlocks();
    assert s.store == map[0 := Header(16, Some(48)), 48 := Header(4032, None)] && s.head == Some(0);
    assert AlignSize(32) == 32;
    assert FirstFitScan(s.store, Some(0), Some(48), 32, 1) == Fits(Some(0), 48);
    assert FirstFitScan(s.store, None, s.head, 32, |s.store|) == Fits(Some(0), 48);
    var r := Alloc(s, 32);
    assert r.state.store[0] == Header(16, Some(96)) && r.state.store[48] == Header(32, Some(96)) && r.state.store[96] == Header(3984, None);
    assert r.state.store.Keys == {0, 48, 96};
    assert r.state.store == map[0 := Header(16, Some(96)), 48 := Header(32, Some(96)), 96 := Header(3984, None)];
  }
}
