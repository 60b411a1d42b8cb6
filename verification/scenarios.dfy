/** Concrete runs of the allocator as written, on a 4096-byte page. */
module Scenarios {
  import opened Options
  import opened Blocks
  import opened Mem

  /** mem_init(1024) maps one page and makes it a single free block. */
  lemma InitOnePage()
    ensures MemInit(Initial, 1024, 4096, true)
            == Ret(0, State(map[0 := Header(4080, None)], Some(0), 4096, true, NoFault))
  {
    assert RegionSize(1024, 4096) == 4096 by {
      assert (1024 + 4096 - 1) / 4096 == 1;
    }
  }

  /** The state after mem_init(1024) on a 4096-byte page. */
  function Fresh(): (s: State)
    ensures Wf(s) && ListRepr(s.store, s.head, [0])
  {
    InitOnePage();
    MemInit(Initial, 1024, 4096, true).state
  }

  /** Allocating all of a fresh region, freeing it and allocating eight
      bytes: the second allocation fails, because the freed block was never
      put back on the free list: mem.c:93-105 never relinks it. */
  lemma FreedBlockIsLost()
    ensures var a := MemAlloc(Fresh(), 4080);
            a == Done(Some(16), Fresh().(head := None))
    ensures var a := MemAlloc(Fresh(), 4080).state;
            MemFree(a, Some(16)) == Done(0, a.(store := map[0 := Header(4080, Some(0))]))
    ensures var f := MemFree(MemAlloc(Fresh(), 4080).state, Some(16)).state;
            MemAlloc(f, 8) == Done(None, f.(error := NoSpace))
  {
    var s := Fresh();
    assert AlignSize(4080) == 4080;
    var a := MemAlloc(s, 4080);
    assert a == Done(Some(16), s.(head := None));
    var f := MemFree(a.state, Some(16));
    assert f == Done(0, a.state.(store := map[0 := Header(4080, Some(0))]));
  }

  /** Allocating 32 bytes splits the fresh block and makes the remainder
      at offset 48 the head of the free list. */
  lemma SplitAlloc()
    ensures MemAlloc(Fresh(), 32)
            == Done(Some(16), Fresh().(store := map[0 := Header(32, Some(48)), 48 := Header(4032, None)], head := Some(48)))
  {
    assert AlignSize(32) == 32;
  }

  /** Freeing those 32 bytes merges the freed header with the still-listed
      remainder at offset 48 but leaves `free_list` at that remainder, so
      the freed block (now covering the remainder too) is off the list. */
  lemma SplitThenFree()
    ensures var a := MemAlloc(Fresh(), 32).state;
            MemFree(a, Some(16)) == Done(0, a.(store := map[0 := Header(4080, Some(0)), 48 := Header(4032, None)]))
  {
    SplitAlloc();
    var a := MemAlloc(Fresh(), 32).state;
    assert a.store == map[0 := Header(32, Some(48)), 48 := Header(4032, None)];
    assert InsertionScan(a.store, None, a.head, 0, |a.store|) == Between(None, Some(48));
    var r := Release(a.store, a.head, 0, None, Some(48));
    assert r.0[0] == Header(4080, Some(0)) && r.0[48] == Header(4032, None) && r.0.Keys == {0, 48};
    assert r.0 == map[0 := Header(4080, Some(0)), 48 := Header(4032, None)];
  }

  /** A free list of two blocks whose first is too small for the request. */
  function TwoBlocks(): (s: State)
    ensures Wf(s) && ListRepr(s.store, s.head, [0, 48])
  {
    var s := State(map[0 := Header(16, Some(48)), 48 := Header(4032, None)], Some(0), 4096, true, NoFault);
    assert LinkedAt(s.store, [0, 48], 0);
    s
  }

  /** Allocating 32 bytes from the second block splits it, and the head of
      the free list moves to the remainder: the first block, still free,
      drops off the list, because mem.c:62-63 sets `free_list` to the
      remainder whichever block was split. */
  lemma NonHeadSplitDropsPrefix()
    ensures MemAlloc(TwoBlocks(), 32)
            == Done(Some(64), TwoBlocks().(store := map[0 := Header(16, Some(48)), 48 := Header(32, Some(96)), 96 := Header(3984, None)], head := Some(96)))
  {
    var s := TwoBlocks();
    assert s.store == map[0 := Header(16, Some(48)), 48 := Header(4032, None)] && s.head == Some(0);
    assert AlignSize(32) == 32;
    assert FirstFitScan(s.store, Some(0), Some(48), 32, 1) == Fits(Some(0), 48);
    assert FirstFitScan(s.store, None, s.head, 32, |s.store|) == Fits(Some(0), 48);
    var r := MemAlloc(s, 32);
    assert r.state.store[0] == Header(16, Some(48)) && r.state.store[48] == Header(32, Some(96)) && r.state.store[96] == Header(3984, None);
    assert r.state.store.Keys == {0, 48, 96};
    assert r.state.store == map[0 := Header(16, Some(48)), 48 := Header(32, Some(96)), 96 := Header(3984, None)];
  }
}
