/** Properties of align_size and mem_alloc (mem.c:18-20, 41-74). */
module AllocProofs {
  import opened Options
  import opened Blocks
  import opened Mem

  /** align_size(n) is the least multiple of ALIGNMENT that is at least n. */
  lemma AlignSizeLeast(n: nat, m: nat)
    requires m % ALIGNMENT == 0 && n <= m
    ensures AlignSize(n) <= m
  {
    var a := AlignSize(n);
    assert a == 8 * (a / 8) && m == 8 * (m / 8);
    assert a / 8 <= m / 8;
  }

  /** Aligning twice is aligning once; zero stays zero. */
  lemma AlignSizeIdempotent(n: nat)
    ensures AlignSize(AlignSize(n)) == AlignSize(n)
    ensures AlignSize(0) == 0
  {
    AlignSizeLeast(AlignSize(n), AlignSize(n));
  }

  /** When the first-fit loop chooses a block, that block is the first one
      along the `next` chain from `cur` with enough room, and `prev_block` is
      the block visited just before it. */
  lemma {:induction false} ScanFits(store: Store, prev: Option<nat>, cur: Option<nat>, need: nat, fuel: nat)
    returns (k: nat)
    requires Closed(store)
    requires cur.Some? ==> cur.value in store
    requires prev.Some? ==> prev.value in store && store[prev.value].next == cur && store[prev.value].size < need
    requires FirstFitScan(store, prev, cur, need, fuel).Fits?
    ensures var w, f := Walk(store, cur, fuel + 1), FirstFitScan(store, prev, cur, need, fuel);
            && k < |w|
            && w[k] == f.at
            && (forall j :: 0 <= j < k ==> store[w[j]].size < need)
            && f.prev == (if k == 0 then prev else Some(w[k - 1]))
    decreases fuel
  {
    var c := cur.value;
    var nxt := store[c].next;
    var w := Walk(store, cur, fuel + 1);
    assert w == [c] + Walk(store, nxt, fuel);
    if store[c].size >= need {
      k := 0;
    } else {
      var k' := ScanFits(store, cur, nxt, need, fuel - 1);
      k := k' + 1;
    }
  }

  /** When the first-fit loop finds nothing, the chain from `cur` is a
      NULL-terminated list of at most `fuel` blocks, none with enough room. */
  lemma {:induction false} ScanNoFit(store: Store, prev: Option<nat>, cur: Option<nat>, need: nat, fuel: nat)
    requires Closed(store)
    requires cur.Some? ==> cur.value in store
    requires prev.Some? ==> prev.value in store && store[prev.value].next == cur && store[prev.value].size < need
    requires FirstFitScan(store, prev, cur, need, fuel).NoFit?
    ensures var w := Walk(store, cur, fuel + 1);
            && |w| <= fuel
            && ListRepr(store, cur, w)
            && forall j :: 0 <= j < |w| ==> store[w[j]].size < need
    decreases fuel
  {
    if cur.Some? {
      var c := cur.value;
      var nxt := store[c].next;
      assert Walk(store, cur, fuel + 1) == [c] + Walk(store, nxt, fuel);
      ScanNoFit(store, cur, nxt, need, fuel - 1);
      ListReprCons(store, c, Walk(store, nxt, fuel));
    }
  }

  /** When the first-fit loop runs out of steps, it has passed `fuel + 1`
      blocks, none with enough room. */
  lemma {:induction false} ScanSpins(store: Store, prev: Option<nat>, cur: Option<nat>, need: nat, fuel: nat)
    requires Closed(store)
    requires cur.Some? ==> cur.value in store
    requires prev.Some? ==> prev.value in store && store[prev.value].next == cur && store[prev.value].size < need
    requires FirstFitScan(store, prev, cur, need, fuel).Spins?
    ensures var w := Walk(store, cur, fuel + 1);
            && |w| == fuel + 1
            && forall j :: 0 <= j < |w| ==> store[w[j]].size < need
    decreases fuel
  {
    var c := cur.value;
    var nxt := store[c].next;
    assert Walk(store, cur, fuel + 1) == [c] + Walk(store, nxt, fuel);
    if fuel > 0 {
      ScanSpins(store, cur, nxt, need, fuel - 1);
    }
  }

  lemma ListReprCons(store: Store, c: nat, w: seq<nat>)
    requires c in store
    requires ListRepr(store, store[c].next, w)
    ensures ListRepr(store, Some(c), [c] + w)
  {
    LinkedCons(store, c, w);
  }

  /** On a NULL-terminated list the scan is exactly FirstFit on that list. */
  lemma ScanOnList(s: State, need: nat, xs: seq<nat>)
    requires Wf(s)
    requires ListRepr(s.store, s.head, xs)
    ensures FirstFitScan(s.store, None, s.head, need, |s.store|)
            == match FirstFit(s.store, xs, need)
               case None => NoFit
               case Some(k) => Fits(PrevBlock(xs, k), xs[k])
  {
    ListReprLength(s.store, s.head, xs);
    WalkOfList(s.store, s.head, xs, |s.store| + 1);
    var f := FirstFitScan(s.store, None, s.head, need, |s.store|);
    match f
    case Fits(_, _) =>
      var k := ScanFits(s.store, None, s.head, need, |s.store|);
      var k' := FirstFit(s.store, xs, need);
      assert k' == Some(k) by {
        if k'.None? {
        } else if k'.value < k {
        } else if k'.value > k {
        }
      }
    case NoFit =>
      ScanNoFit(s.store, None, s.head, need, |s.store|);
    case Spins =>
      ScanSpins(s.store, None, s.head, need, |s.store|);
  }

  /** mem_alloc on a NULL-terminated list always returns; it returns the
      payload of the first block in list order with at least align_size(n)
      bytes, and NULL exactly when no block is that large. */
  lemma AllocChoosesFirstFit(s: State, n: nat, xs: seq<nat>)
    requires Wf(s)
    requires ListRepr(s.store, s.head, xs)
    ensures MemAlloc(s, n).Done?
    ensures MemAlloc(s, n).value.None? <==> forall i :: 0 <= i < |xs| ==> s.store[xs[i]].size < AlignSize(n)
    ensures MemAlloc(s, n).value.Some? ==>
              exists k :: && 0 <= k < |xs|
                          && MemAlloc(s, n).value == Some(xs[k] + H)
                          && s.store[xs[k]].size >= AlignSize(n)
                          && forall j :: 0 <= j < k ==> s.store[xs[j]].size < AlignSize(n)
  {
    ScanOnList(s, AlignSize(n), xs);
  }

  /** mem_alloc runs out of scan steps only on a list that revisits a
      header, none of whose blocks fits; the scan is deterministic and only
      reads, so from there it loops forever. */
  lemma AllocHangsOnlyOnCycle(s: State, n: nat)
    requires Wf(s)
    requires MemAlloc(s, n).Hangs?
    ensures var w := Walk(s.store, s.head, |s.store| + 1);
            && |w| == |s.store| + 1
            && !Distinct(w)
            && forall i :: 0 <= i < |w| ==> s.store[w[i]].size < AlignSize(n)
  {
    ScanSpins(s.store, None, s.head, AlignSize(n), |s.store|);
    PigeonHole(s.store, Walk(s.store, s.head, |s.store| + 1));
  }

  /** Removing list element xs[k] by pointing its predecessor (or the head)
      at its successor leaves the other elements as a list, provided no
      other header on the list changed. */
  lemma UnlinkKeepsList(store: Store, head: Option<nat>, xs: seq<nat>, k: nat, store': Store, head': Option<nat>)
    requires ListRepr(store, head, xs) && Distinct(xs)
    requires k < |xs|
    requires forall i :: 0 <= i < |xs| && i != k && i != k - 1 ==> xs[i] in store' && store'[xs[i]] == store[xs[i]]
    requires k > 0 ==> xs[k - 1] in store' && store'[xs[k - 1]].next == store[xs[k]].next && head' == head
    requires k == 0 ==> head' == store[xs[k]].next
    ensures ListRepr(store', head', xs[..k] + xs[k + 1..])
  {
    var ys := xs[..k] + xs[k + 1..];
    assert forall i :: 0 <= i < |ys| ==> ys[i] == (if i < k then xs[i] else xs[i + 1]);
    if k + 1 < |xs| {
      assert LinkedAt(store, xs, k);
    }
    forall i | 0 <= i < |ys| - 1
      ensures LinkedAt(store', ys, i)
    {
      if i < k - 1 {
        assert LinkedAt(store, xs, i);
      } else if i >= k {
        assert LinkedAt(store, xs, i + 1);
      }
    }
  }

  /** Removing list element xs[k] keeps the rest sorted, disjoint and in the
      region when their sizes are unchanged. */
  lemma UnlinkKeepsOrder(store: Store, xs: seq<nat>, limit: nat, k: nat, store': Store)
    requires Ordered(store, xs, limit)
    requires k < |xs|
    requires forall i :: 0 <= i < |xs| && i != k ==> xs[i] in store' && store'[xs[i]].size == store[xs[i]].size
    ensures Ordered(store', xs[..k] + xs[k + 1..], limit)
  {
    var ys := xs[..k] + xs[k + 1..];
    assert forall i :: 0 <= i < |ys| ==> ys[i] == (if i < k then xs[i] else xs[i + 1]);
    assert forall i :: 0 <= i < |ys| ==> End(store', ys[i]) == End(store, ys[i]);
  }

  lemma UnlinkKeepsSizes(store: Store, xs: seq<nat>, k: nat, store': Store)
    requires InStore(store, xs)
    requires k < |xs|
    requires forall i :: 0 <= i < |xs| && i != k ==> xs[i] in store' && store'[xs[i]].size == store[xs[i]].size
    ensures var ys := xs[..k] + xs[k + 1..];
            forall i :: 0 <= i < |ys| ==> store'[ys[i]].size == store[ys[i]].size
  {
    var ys := xs[..k] + xs[k + 1..];
    assert forall i :: 0 <= i < |ys| ==> ys[i] == (if i < k then xs[i] else xs[i + 1]);
  }

  /** The state mem_alloc leaves when it chooses xs[k] and does not split it. */
  lemma AllocWholeBlockState(s: State, n: nat, xs: seq<nat>, k: nat)
    requires Wf(s)
    requires ListRepr(s.store, s.head, xs)
    requires Distinct(xs)
    requires FirstFit(s.store, xs, AlignSize(n)) == Some(k)
    requires s.store[xs[k]].size < AlignSize(n) + H
    ensures var c := xs[k];
            var st2 := s.store[c := s.store[c].(size := AlignSize(n))];
            MemAlloc(s, n)
              == if k == 0 then Done(Some(c + H), s.(store := st2, head := s.store[c].next))
                 else Done(Some(c + H), s.(store := st2[xs[k - 1] := st2[xs[k - 1]].(next := s.store[c].next)]))
  {
    assert FirstFitScan(s.store, None, s.head, AlignSize(n), |s.store|) == Fits(PrevBlock(xs, k), xs[k]) by {
      ScanOnList(s, AlignSize(n), xs);
    }
    if k > 0 {
      assert s.head != Some(xs[k]);
    }
  }

  /** After an unsplit allocation of xs[k], the remaining free blocks lie
      wholly before or wholly after the handed-out block. */
  lemma WholeBlockDisjoint(store: Store, xs: seq<nat>, limit: nat, k: nat, need: nat, store': Store)
    requires Ordered(store, xs, limit)
    requires k < |xs| && need <= store[xs[k]].size
    requires forall i :: 0 <= i < |xs| ==> xs[i] in store' && store'[xs[i]].size == (if i == k then need else store[xs[i]].size)
    ensures var c, ys := xs[k], xs[..k] + xs[k + 1..];
            forall i :: 0 <= i < |ys| ==> End(store', ys[i]) <= c || End(store', c) <= ys[i]
  {
    var ys := xs[..k] + xs[k + 1..];
    assert forall i :: 0 <= i < |ys| ==> ys[i] == (if i < k then xs[i] else xs[i + 1]);
  }

  lemma UnchangedElsewhere(store: Store, xs: seq<nat>, k: nat, need: nat, store': Store)
    requires InStore(store, xs) && Distinct(xs)
    requires k < |xs|
    requires var c := xs[k];
             var st2 := store[c := store[c].(size := need)];
             store' == (if k == 0 then st2 else st2[xs[k - 1] := st2[xs[k - 1]].(next := store[c].next)])
    ensures forall i :: 0 <= i < |xs| && i != k && i != k - 1 ==> store'[xs[i]] == store[xs[i]]
    ensures store'[xs[k]].size == need
    ensures k > 0 ==> store'[xs[k - 1]] == store[xs[k - 1]].(next := store[xs[k]].next)
  {
  }

  /** mem_alloc choosing list element xs[k] without splitting it (its
      surplus is below one header): the block is unlinked, by moving the head
      when it is the head and by relinking its predecessor otherwise.  The
      other blocks keep their order and sizes, the list stays sorted,
      disjoint and inside the region, and the handed-out block overlaps no
      free block. */
  lemma AllocWholeBlock(s: State, n: nat, xs: seq<nat>, k: nat)
    requires Wf(s)
    requires ListRepr(s.store, s.head, xs)
    requires Ordered(s.store, xs, s.memSize)
    requires FirstFit(s.store, xs, AlignSize(n)) == Some(k)
    requires s.store[xs[k]].size < AlignSize(n) + H
    ensures var r, c, ys := MemAlloc(s, n), xs[k], xs[..k] + xs[k + 1..];
            && r.Done?
            && r.value == Some(c + H)
            && ListRepr(r.state.store, r.state.head, ys)
            && Ordered(r.state.store, ys, s.memSize)
            && (forall i :: 0 <= i < |ys| ==> r.state.store[ys[i]].size == s.store[ys[i]].size)
            && (forall i :: 0 <= i < |ys| ==> End(r.state.store, ys[i]) <= c || End(r.state.store, c) <= ys[i])
  {
    OrderedDistinct(s.store, xs, s.memSize);
    AllocWholeBlockState(s, n, xs, k);
    var st := MemAlloc(s, n).state.store;
    UnchangedElsewhere(s.store, xs, k, AlignSize(n), st);
    UnlinkKeepsList(s.store, s.head, xs, k, st, MemAlloc(s, n).state.head);
    UnlinkKeepsOrder(s.store, xs, s.memSize, k, st);
    UnlinkKeepsSizes(s.store, xs, k, st);
    WholeBlockDisjoint(s.store, xs, s.memSize, k, AlignSize(n), st);
  }

  /** The state mem_alloc leaves when it chooses xs[k] and splits it. */
  lemma AllocSplitState(s: State, n: nat, xs: seq<nat>, k: nat)
    requires Wf(s)
    requires ListRepr(s.store, s.head, xs)
    requires FirstFit(s.store, xs, AlignSize(n)) == Some(k)
    requires s.store[xs[k]].size >= AlignSize(n) + H
    ensures var c, need := xs[k], AlignSize(n);
            var orig, rem := s.store[c], c + H + need;
            var st := s.store[rem := Header(orig.size - H - need, orig.next)][c := Header(need, Some(rem))];
            MemAlloc(s, n) == Done(Some(c + H), s.(store := st, head := Some(rem)))
  {
    assert FirstFitScan(s.store, None, s.head, AlignSize(n), |s.store|) == Fits(PrevBlock(xs, k), xs[k]) by {
      ScanOnList(s, AlignSize(n), xs);
    }
  }

  /** The remainder of a split block lies strictly between the block and the
      next free block, so every later header is left as it was. */
  lemma SplitUnchanged(store: Store, xs: seq<nat>, limit: nat, k: nat, need: nat, store': Store)
    requires Ordered(store, xs, limit)
    requires k < |xs| && store[xs[k]].size >= need + H
    requires var c := xs[k];
             var orig, rem := store[c], c + H + need;
             store' == store[rem := Header(orig.size - H - need, orig.next)][c := Header(need, Some(rem))]
    ensures forall i :: k < i < |xs| ==> xs[i] in store' && store'[xs[i]] == store[xs[i]]
    ensures forall i :: k < i < |xs| ==> xs[k] + H + need < xs[i]
  {
    OrderedDistinct(store, xs, limit);
  }

  /** After a split of xs[k], the remainder followed by the blocks after
      xs[k] is the NULL-terminated list from the remainder. */
  lemma SplitList(store: Store, head: Option<nat>, xs: seq<nat>, k: nat, need: nat, store': Store)
    requires ListRepr(store, head, xs)
    requires k < |xs| && store[xs[k]].size >= need + H
    requires var c := xs[k];
             var orig, rem := store[c], c + H + need;
             && rem in store'
             && store'[rem] == Header(orig.size - H - need, orig.next)
             && (forall i :: k < i < |xs| ==> xs[i] in store' && store'[xs[i]] == store[xs[i]])
    ensures ListRepr(store', Some(xs[k] + H + need), [xs[k] + H + need] + xs[k + 1..])
  {
    var rest := xs[k + 1..];
    ListReprSuffix(store, head, xs, k);
    if k + 1 < |xs| {
      assert LinkedAt(store, xs, k);
      ListReprSuffix(store, head, xs, k + 1);
      assert Linked(store, rest);
      forall i | 0 <= i < |rest| - 1
        ensures LinkedAt(store', rest, i)
      {
        assert LinkedAt(store, rest, i);
      }
    }
    LinkedCons(store', xs[k] + H + need, rest);
  }

  /** After a split of xs[k], the remainder list is sorted, disjoint and in
      the region, it starts where the handed-out block ends, and it misses
      every free block before xs[k]. */
  lemma SplitOrder(store: Store, xs: seq<nat>, limit: nat, k: nat, need: nat, store': Store)
    requires Ordered(store, xs, limit)
    requires k < |xs| && store[xs[k]].size >= need + H
    requires var c := xs[k];
             var orig, rem := store[c], c + H + need;
             && rem in store' && c in store'
             && store'[rem] == Header(orig.size - H - need, orig.next)
             && store'[c].size == need
             && (forall i :: k < i < |xs| ==> xs[i] in store' && store'[xs[i]] == store[xs[i]])
    ensures var c := xs[k];
            var rem := c + H + need;
            var ys := [rem] + xs[k + 1..];
            && Ordered(store', ys, limit)
            && End(store', rem) == End(store, c)
            && (forall i :: 0 <= i < |ys| ==> End(store', c) <= ys[i])
            && (forall i :: 0 <= i < k ==> xs[i] !in ys)
  {
    OrderedDistinct(store, xs, limit);
    var c := xs[k];
    var rem := c + H + need;
    var ys := [rem] + xs[k + 1..];
    assert forall i :: 1 <= i < |ys| ==> ys[i] == xs[k + i];
    assert End(store', rem) == End(store, c);
    forall i | 0 <= i < k
      ensures xs[i] !in ys
    {
      assert xs[i] < c;
    }
  }

  /** mem_alloc choosing list element xs[k] and splitting it: the
      remainder becomes the new head, whatever k is.  The reachable list is
      the remainder followed by the blocks after xs[k]; it is sorted,
      disjoint and inside the region, and it misses the handed-out block.
      For k > 0 every free block before xs[k] has dropped out of it
      (mem.c:62-63). */
  lemma AllocSplitBlock(s: State, n: nat, xs: seq<nat>, k: nat)
    requires Wf(s)
    requires ListRepr(s.store, s.head, xs)
    requires Ordered(s.store, xs, s.memSize)
    requires FirstFit(s.store, xs, AlignSize(n)) == Some(k)
    requires s.store[xs[k]].size >= AlignSize(n) + H
    ensures var r, c, need := MemAlloc(s, n), xs[k], AlignSize(n);
            var rem := c + H + need;
            var ys := [rem] + xs[k + 1..];
            && r.Done?
            && r.value == Some(c + H)
            && r.state.head == Some(rem)
            && ListRepr(r.state.store, r.state.head, ys)
            && Ordered(r.state.store, ys, s.memSize)
            && r.state.store[rem].size == s.store[c].size - H - need
            && (forall i :: k < i < |xs| ==> r.state.store[xs[i]] == s.store[xs[i]])
            && (forall i :: 0 <= i < |ys| ==> End(r.state.store, c) <= ys[i])
            && (forall i :: 0 <= i < k ==> xs[i] !in ys)
  {
    var need := AlignSize(n);
    AllocSplitState(s, n, xs, k);
    var st := MemAlloc(s, n).state.store;
    SplitUnchanged(s.store, xs, s.memSize, k, need, st);
    SplitList(s.store, s.head, xs, k, need, st);
    SplitOrder(s.store, xs, s.memSize, k, need, st);
  }
}
