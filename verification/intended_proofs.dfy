/** The invariant the allocator is meant to keep, and proofs that the
    intended mem_alloc and mem_free keep it. */
module IntendedProofs {
  import opened Options
  import opened Blocks
  import opened Mem
  import opened Intended
  import opened AllocProofs
  import opened FreeProofs

  /** Block xs[i] ends strictly before xs[i + 1] starts: in address order,
      disjoint, and not adjacent. */
  predicate GapAt(store: Store, xs: seq<nat>, i: nat)
  {
    i + 1 < |xs| && xs[i] in store && End(store, xs[i]) < xs[i + 1]
  }

  /** The free list the design describes: NULL-terminated from `head`,
      each block ending strictly before the next starts, the last one
      ending inside a region of `limit` bytes. */
  predicate Heap(store: Store, head: Option<nat>, xs: seq<nat>, limit: nat)
  {
    && ListRepr(store, head, xs)
    && (forall i :: 0 <= i < |xs| - 1 ==> GapAt(store, xs, i))
    && (|xs| > 0 ==> End(store, xs[|xs| - 1]) <= limit)
  }

  /** Heap is exactly a sorted, disjoint, in-region and coalesced list. */
  lemma HeapMeans(store: Store, head: Option<nat>, xs: seq<nat>, limit: nat)
    ensures Heap(store, head, xs, limit)
            <==> ListRepr(store, head, xs) && Ordered(store, xs, limit) && Coalesced(store, xs)
  {
    if Heap(store, head, xs, limit) {
      GapsOrdered(store, xs, limit);
      forall i | 0 <= i < |xs| - 1
        ensures End(store, xs[i]) != xs[i + 1]
      {
        assert GapAt(store, xs, i);
      }
    }
    if ListRepr(store, head, xs) && Ordered(store, xs, limit) && Coalesced(store, xs) {
      forall i | 0 <= i < |xs| - 1
        ensures GapAt(store, xs, i)
      {
        assert End(store, xs[i]) <= xs[i + 1];
      }
    }
  }

  /** A chain of gaps orders every pair, not only neighbours. */
  lemma GapsOrdered(store: Store, xs: seq<nat>, limit: nat)
    requires InStore(store, xs)
    requires forall i :: 0 <= i < |xs| - 1 ==> GapAt(store, xs, i)
    requires |xs| > 0 ==> End(store, xs[|xs| - 1]) <= limit
    ensures Ordered(store, xs, limit)
  {
    forall i, j | 0 <= i < j < |xs|
      ensures End(store, xs[i]) <= xs[j]
    {
      GapsReach(store, xs, i, j);
    }
    forall i | 0 <= i < |xs|
      ensures End(store, xs[i]) <= limit
    {
      if i < |xs| - 1 {
        GapsReach(store, xs, i, |xs| - 1);
      }
    }
  }

  lemma {:induction false} GapsReach(store: Store, xs: seq<nat>, i: nat, j: nat)
    requires InStore(store, xs)
    requires forall k :: 0 <= k < |xs| - 1 ==> GapAt(store, xs, k)
    requires i < j < |xs|
    ensures End(store, xs[i]) <= xs[j]
    decreases j - i
  {
    assert GapAt(store, xs, i);
    if i + 1 < j {
      GapsReach(store, xs, i + 1, j);
    }
  }

  function First(xs: seq<nat>): (r: Option<nat>)
    ensures r.None? <==> |xs| == 0
    ensures |xs| > 0 ==> r == Some(xs[0])
  {
    if |xs| == 0 then None else Some(xs[0])
  }

  /** Replacing the middle `M` of a heap list `A + M + C` by at most one
      block `N` gives a heap list `A + N + C`, provided the blocks of `A`
      and `C` keep their headers (the last of `A` pointing on to `N + C`),
      the new block is linked to `C` and sits strictly between its
      neighbours. */
  lemma Splice(store: Store, head: Option<nat>, xs: seq<nat>, limit: nat,
               a: seq<nat>, m: seq<nat>, n: seq<nat>, c: seq<nat>, store': Store, head': Option<nat>)
    requires Heap(store, head, xs, limit)
    requires xs == a + m + c
    requires InStore(store, a) && InStore(store, c)
    requires |n| <= 1
    requires forall i :: 0 <= i < |a| - 1 ==> a[i] in store' && store'[a[i]] == store[a[i]]
    requires forall i :: 0 <= i < |c| ==> c[i] in store' && store'[c[i]] == store[c[i]]
    requires |a| > 0 ==> a[|a| - 1] in store' && store'[a[|a| - 1]] == store[a[|a| - 1]].(next := First(n + c))
    requires |a| == 0 ==> head' == First(n + c)
    requires |a| > 0 ==> head' == head
    requires |n| == 1 ==> n[0] in store' && store'[n[0]].next == First(c)
    requires |n| == 1 && |a| > 0 ==> End(store, a[|a| - 1]) < n[0]
    requires |n| == 1 && |c| > 0 ==> End(store', n[0]) < c[0]
    requires |n| == 1 && |c| == 0 ==> End(store', n[0]) <= limit
    requires |n| == 0 && |a| > 0 && |c| > 0 ==> End(store, a[|a| - 1]) < c[0]
    requires |n| == 0 && |a| > 0 && |c| == 0 ==> End(store, a[|a| - 1]) <= limit
    ensures Heap(store', head', a + n + c, limit)
  {
    var ys := a + n + c;
    SpliceLinked(store, head, xs, a, m, n, c, store', head');
    forall i | 0 <= i < |ys| - 1
      ensures GapAt(store', ys, i)
    {
      if i < |a| - 1 {
        assert GapAt(store, xs, i);
      } else if i == |a| - 1 {
      } else if i == |a| && |n| == 1 {
      } else {
        var i' := i - |a| - |n|;
        assert GapAt(store, xs, |a| + |m| + i');
      }
    }
  }

  /** Splice with the kept blocks named by their positions in `xs`: the
      blocks before position `lo` and from position `hi` on stay, and the
      blocks in between are replaced by the at most one block of `n`. */
  lemma SpliceAt(store: Store, head: Option<nat>, xs: seq<nat>, limit: nat,
                 lo: nat, hi: nat, n: seq<nat>, store': Store, head': Option<nat>)
    requires Heap(store, head, xs, limit)
    requires lo <= hi <= |xs| && |n| <= 1
    requires forall i :: 0 <= i < lo - 1 ==> xs[i] in store' && store'[xs[i]] == store[xs[i]]
    requires forall i :: hi <= i < |xs| ==> xs[i] in store' && store'[xs[i]] == store[xs[i]]
    requires lo > 0 ==> xs[lo - 1] in store' && store'[xs[lo - 1]] == store[xs[lo - 1]].(next := First(n + xs[hi..]))
    requires lo == 0 ==> head' == First(n + xs[hi..])
    requires lo > 0 ==> head' == head
    requires |n| == 1 ==> n[0] in store' && store'[n[0]].next == First(xs[hi..])
    requires |n| == 1 && lo > 0 ==> End(store, xs[lo - 1]) < n[0]
    requires |n| == 1 && hi < |xs| ==> End(store', n[0]) < xs[hi]
    requires |n| == 1 && hi == |xs| ==> End(store', n[0]) <= limit
    requires |n| == 0 && lo > 0 && hi < |xs| ==> End(store, xs[lo - 1]) < xs[hi]
    requires |n| == 0 && lo > 0 && hi == |xs| ==> End(store, xs[lo - 1]) <= limit
    ensures Heap(store', head', xs[..lo] + n + xs[hi..], limit)
  {
    var a: seq<nat>, m: seq<nat>, c: seq<nat> := xs[..lo], xs[lo..hi], xs[hi..];
    assert xs == a + m + c;
    forall i | 0 <= i < |a| - 1
      ensures a[i] in store' && store'[a[i]] == store[a[i]]
    {
      assert a[i] == xs[i];
    }
    forall i | 0 <= i < |c|
      ensures c[i] in store' && store'[c[i]] == store[c[i]]
    {
      assert c[i] == xs[hi + i];
    }
    Splice(store, head, xs, limit, a, m, n, c, store', head');
  }

  lemma SpliceLinked(store: Store, head: Option<nat>, xs: seq<nat>,
                     a: seq<nat>, m: seq<nat>, n: seq<nat>, c: seq<nat>, store': Store, head': Option<nat>)
    requires ListRepr(store, head, xs)
    requires xs == a + m + c
    requires InStore(store, a) && InStore(store, c)
    requires |n| <= 1
    requires forall i :: 0 <= i < |a| - 1 ==> a[i] in store' && store'[a[i]] == store[a[i]]
    requires forall i :: 0 <= i < |c| ==> c[i] in store' && store'[c[i]] == store[c[i]]
    requires |a| > 0 ==> a[|a| - 1] in store' && store'[a[|a| - 1]] == store[a[|a| - 1]].(next := First(n + c))
    requires |a| == 0 ==> head' == First(n + c)
    requires |a| > 0 ==> head' == head
    requires |n| == 1 ==> n[0] in store' && store'[n[0]].next == First(c)
    ensures ListRepr(store', head', a + n + c)
  {
    var ys := a + n + c;
    forall i | 0 <= i < |ys| - 1
      ensures LinkedAt(store', ys, i)
    {
      if i < |a| - 1 {
        assert LinkedAt(store, xs, i);
      } else if i == |a| - 1 {
        assert First(n + c) == Some(ys[i + 1]);
      } else if i == |a| && |n| == 1 {
      } else {
        var i' := i - |a| - |n|;
        assert LinkedAt(store, xs, |a| + |m| + i');
      }
    }
    if |c| > 0 {
      assert xs[|xs| - 1] == c[|c| - 1];
    }
  }

  /** The header after xs[k] in list order, as a pointer. */
  lemma NextIsFirst(store: Store, head: Option<nat>, xs: seq<nat>, k: nat)
    requires ListRepr(store, head, xs)
    requires k < |xs|
    ensures store[xs[k]].next == First(xs[k + 1..])
  {
    if k + 1 < |xs| {
      assert LinkedAt(store, xs, k);
    }
  }

  /** The intended mem_alloc on a NULL-terminated list carves the first
      block that fits, with its predecessor as `prev_block`. */
  lemma IntendedAllocState(s: State, n: nat, xs: seq<nat>, k: nat)
    requires Wf(s)
    requires ListRepr(s.store, s.head, xs)
    requires FirstFit(s.store, xs, AlignSize(n)) == Some(k)
    ensures Alloc(s, n).Done? && Alloc(s, n).value == Some(xs[k] + H)
    ensures (Alloc(s, n).state.store, Alloc(s, n).state.head)
            == Carve(s.store, s.head, PrevBlock(xs, k), xs[k], AlignSize(n))
  {
    var prev := PrevBlock(xs, k);
    assert FirstFitScan(s.store, None, s.head, AlignSize(n), |s.store|) == Fits(prev, xs[k]) by {
      ScanOnList(s, AlignSize(n), xs);
    }
  }

  /** Carve with a split, written out: the remainder header goes in, the
      carved header shrinks and points at it, and `prev_block` (or the head)
      is pointed at the remainder. */
  lemma CarveSplitForm(st: Store, head: Option<nat>, prev: Option<nat>, c: nat, need: nat)
    requires c in st && st[c].size >= need + H
    requires prev.Some? ==> prev.value in st && prev.value != c && prev.value != c + H + need
    ensures var rem := c + H + need;
            var st2 := st[rem := Header(st[c].size - H - need, st[c].next)][c := Header(need, Some(rem))];
            Carve(st, head, prev, c, need)
              == if prev.None? then (st2, Some(rem)) else (st2[prev.value := st[prev.value].(next := Some(rem))], head)
  {
    var rem := c + H + need;
    var orig := st[c];
    var st0 := st[rem := Header(orig.size - H - need, orig.next)];
    var st1 := st0[c := orig.(next := Some(rem))];
    assert st1[c := st1[c].(size := need)] == st0[c := Header(need, Some(rem))];
  }

  /** Carve without a split, written out. */
  lemma CarveWholeForm(st: Store, head: Option<nat>, prev: Option<nat>, c: nat, need: nat)
    requires c in st && st[c].size < need + H
    requires prev.Some? ==> prev.value in st && prev.value != c
    ensures var st2 := st[c := st[c].(size := need)];
            Carve(st, head, prev, c, need)
              == if prev.None? then (st2, st[c].next) else (st2[prev.value := st[prev.value].(next := st[c].next)], head)
  {
  }

  /** Overwriting one element of a sequence is splicing in a singleton. */
  lemma UpdateAsSplice(xs: seq<nat>, k: nat, v: nat)
    requires k < |xs|
    ensures xs[k := v] == xs[..k] + [v] + xs[k + 1..]
  {
    var ys := xs[..k] + [v] + xs[k + 1..];
    forall i | 0 <= i < |xs|
      ensures xs[k := v][i] == ys[i]
    {
    }
  }

  /** Carve writes no header but the carved block's, the remainder's
      after a split, and that of `prev_block`. */
  lemma CarveFrame(st: Store, head: Option<nat>, prev: Option<nat>, c: nat, need: nat)
    requires c in st
    requires prev.Some? ==> prev.value in st
    ensures var r := Carve(st, head, prev, c, need).0;
            forall k :: k in st && k != c && Some(k) != prev && (st[c].size >= need + H ==> k != c + H + need)
              ==> k in r && r[k] == st[k]
  {
  }

  /** The headers a split writes, one by one. */
  lemma CarveSplits(st: Store, head: Option<nat>, prev: Option<nat>, c: nat, need: nat, st': Store, hd': Option<nat>)
    requires c in st && st[c].size >= need + H
    requires prev.Some? ==> prev.value in st && prev.value != c && prev.value != c + H + need
    requires (st', hd') == Carve(st, head, prev, c, need)
    ensures var rem := c + H + need;
            && rem in st' && st'[rem] == Header(st[c].size - H - need, st[c].next)
            && (prev.Some? ==> prev.value in st' && st'[prev.value] == st[prev.value].(next := Some(rem)))
            && hd' == if prev.None? then Some(rem) else head
  {
    CarveSplitForm(st, head, prev, c, need);
  }

  /** The headers an unsplit carve writes, one by one. */
  lemma CarveUnlinks(st: Store, head: Option<nat>, prev: Option<nat>, c: nat, need: nat, st': Store, hd': Option<nat>)
    requires c in st && st[c].size < need + H
    requires prev.Some? ==> prev.value in st && prev.value != c
    requires (st', hd') == Carve(st, head, prev, c, need)
    ensures prev.Some? ==> prev.value in st' && st'[prev.value] == st[prev.value].(next := st[c].next)
    ensures hd' == if prev.None? then st[c].next else head
  {
    CarveWholeForm(st, head, prev, c, need);
  }

  /** Carving xs[k] leaves alone every block of the list but xs[k] and the
      one before it. */
  lemma CarveUntouched(st: Store, head: Option<nat>, xs: seq<nat>, limit: nat, k: nat, need: nat, st': Store, lo: nat, hi: int)
    requires Heap(st, head, xs, limit)
    requires k < |xs|
    requires st' == Carve(st, head, PrevBlock(xs, k), xs[k], need).0
    requires hi <= |xs| && (hi < k || k < lo)
    ensures forall i :: lo <= i < hi ==> xs[i] in st' && st'[xs[i]] == st[xs[i]]
  {
    CarveFrame(st, head, PrevBlock(xs, k), xs[k], need);
    forall i | lo <= i < hi
      ensures xs[i] in st' && st'[xs[i]] == st[xs[i]]
    {
      var c := xs[k];
      if i < k {
        GapsReach(st, xs, i, k);
        GapsReach(st, xs, i, k - 1);
        GapsReach(st, xs, k - 1, k);
      } else {
        GapsReach(st, xs, k, i);
        assert c < xs[i];
        assert k > 0 ==> xs[k - 1] < c by {
          if k > 0 {
            GapsReach(st, xs, k - 1, k);
          }
        }
        assert st[c].size >= need + H ==> xs[i] != c + H + need;
      }
    }
  }

  /** Carving xs[k] with a split puts the remainder in its place and keeps
      the list a heap. */
  lemma CarveSplitHeap(st: Store, head: Option<nat>, xs: seq<nat>, limit: nat, k: nat, need: nat, st': Store, hd': Option<nat>)
    requires Heap(st, head, xs, limit)
    requires k < |xs| && st[xs[k]].size >= need + H
    requires (st', hd') == Carve(st, head, PrevBlock(xs, k), xs[k], need)
    ensures Heap(st', hd', xs[k := xs[k] + H + need], limit)
  {
    var c := xs[k];
    var rem: nat := c + H + need;
    var prev := PrevBlock(xs, k);
    assert k > 0 ==> End(st, xs[k - 1]) < c by {
      if k > 0 {
        assert GapAt(st, xs, k - 1);
      }
    }
    assert rem in st' && st'[rem] == Header(st[c].size - H - need, st[c].next)
           && (k > 0 ==> xs[k - 1] in st' && st'[xs[k - 1]] == st[xs[k - 1]].(next := Some(rem)))
           && hd' == (if k == 0 then Some(rem) else head) by {
      CarveSplits(st, head, prev, c, need, st', hd');
    }
    assert End(st', rem) == End(st, c);
    assert st[c].next == First(xs[k + 1..]) by {
      NextIsFirst(st, head, xs, k);
    }
    assert k + 1 < |xs| ==> End(st, c) < xs[k + 1] by {
      if k + 1 < |xs| {
        assert GapAt(st, xs, k);
      }
    }
    assert First([rem] + xs[k + 1..]) == Some(rem);
    CarveUntouched(st, head, xs, limit, k, need, st', 0, k as int - 1);
    CarveUntouched(st, head, xs, limit, k, need, st', k + 1, |xs|);
    SpliceAt(st, head, xs, limit, k, k + 1, [rem], st', hd');
    UpdateAsSplice(xs, k, rem);
  }

  /** After a split of xs[k] the carved block ends where the remainder
      starts and overlaps no other block of the list. */
  lemma CarveSplitApart(st: Store, head: Option<nat>, xs: seq<nat>, limit: nat, k: nat, need: nat)
    requires Heap(st, head, xs, limit)
    requires k < |xs| && st[xs[k]].size >= need + H
    ensures var c := xs[k];
            var r := Carve(st, head, PrevBlock(xs, k), c, need);
            && End(r.0, c) == c + H + need
            && forall i :: 0 <= i < |xs| && i != k ==>
                 xs[i] in r.0 && (End(r.0, xs[i]) <= c || End(r.0, c) <= xs[i])
  {
    var c := xs[k];
    var prev := PrevBlock(xs, k);
    if k > 0 {
      GapsReach(st, xs, k - 1, k);
    }
    CarveSplitForm(st, head, prev, c, need);
    var r := Carve(st, head, prev, c, need);
    forall i | 0 <= i < |xs| && i != k
      ensures xs[i] in r.0 && (End(r.0, xs[i]) <= c || End(r.0, c) <= xs[i])
    {
      if i < k {
        GapsReach(st, xs, i, k);
      } else {
        GapsReach(st, xs, k, i);
      }
    }
  }

  /** Carving all of xs[k] unlinks it and keeps the rest a heap. */
  lemma CarveWholeHeap(st: Store, head: Option<nat>, xs: seq<nat>, limit: nat, k: nat, need: nat, st': Store, hd': Option<nat>)
    requires Heap(st, head, xs, limit)
    requires k < |xs| && st[xs[k]].size < need + H
    requires (st', hd') == Carve(st, head, PrevBlock(xs, k), xs[k], need)
    ensures Heap(st', hd', xs[..k] + xs[k + 1..], limit)
  {
    var c := xs[k];
    var prev := PrevBlock(xs, k);
    assert k > 0 ==> End(st, xs[k - 1]) < c by {
      if k > 0 {
        assert GapAt(st, xs, k - 1);
      }
    }
    assert st[c].next == First(xs[k + 1..]) by {
      NextIsFirst(st, head, xs, k);
    }
    assert (k > 0 ==> xs[k - 1] in st' && st'[xs[k - 1]] == st[xs[k - 1]].(next := First(xs[k + 1..])))
           && (k == 0 ==> hd' == First(xs[k + 1..]))
           && (k > 0 ==> hd' == head) by {
      CarveUnlinks(st, head, prev, c, need, st', hd');
    }
    assert k + 1 < |xs| ==> End(st, c) < xs[k + 1] by {
      if k + 1 < |xs| {
        assert GapAt(st, xs, k);
      }
    }
    CarveUntouched(st, head, xs, limit, k, need, st', 0, k as int - 1);
    CarveUntouched(st, head, xs, limit, k, need, st', k + 1, |xs|);
    var n: seq<nat> := [];
    SpliceAt(st, head, xs, limit, k, k + 1, n, st', hd');
    assert xs[..k] + n + xs[k + 1..] == xs[..k] + xs[k + 1..];
  }

  /** After an unsplit allocation of xs[k] the carved block overlaps no
      other block of the list. */
  lemma CarveWholeApart(st: Store, head: Option<nat>, xs: seq<nat>, limit: nat, k: nat, need: nat)
    requires Heap(st, head, xs, limit)
    requires k < |xs| && need <= st[xs[k]].size < need + H
    ensures var c := xs[k];
            var r := Carve(st, head, PrevBlock(xs, k), c, need);
            forall i :: 0 <= i < |xs| && i != k ==>
              xs[i] in r.0 && (End(r.0, xs[i]) <= c || End(r.0, c) <= xs[i])
  {
    var c := xs[k];
    var prev := PrevBlock(xs, k);
    if k > 0 {
      GapsReach(st, xs, k - 1, k);
    }
    CarveWholeForm(st, head, prev, c, need);
    var r := Carve(st, head, prev, c, need);
    forall i | 0 <= i < |xs| && i != k
      ensures xs[i] in r.0 && (End(r.0, xs[i]) <= c || End(r.0, c) <= xs[i])
    {
      if i < k {
        GapsReach(st, xs, i, k);
      } else {
        GapsReach(st, xs, k, i);
      }
    }
  }

  /** The intended mem_alloc chooses exactly what mem.c chooses; only the
      relinking differs. */
  lemma AllocSameChoice(s: State, n: nat)
    requires Wf(s)
    ensures Alloc(s, n).Done? <==> MemAlloc(s, n).Done?
    ensures Alloc(s, n).Done? ==> Alloc(s, n).value == MemAlloc(s, n).value
  {
  }

  /** The free list after the intended mem_alloc carves `need` bytes out
      of xs[k]: the remainder takes the block's place when there is room
      for a header, and otherwise the block leaves the list. */
  function CarvedList(store: Store, xs: seq<nat>, k: nat, need: nat): (ys: seq<nat>)
    requires k < |xs| && xs[k] in store
    ensures |ys| == if store[xs[k]].size >= need + H then |xs| else |xs| - 1
  {
    if store[xs[k]].size >= need + H then xs[k := xs[k] + H + need] else xs[..k] + xs[k + 1..]
  }

  /** Carving any block of a heap leaves a heap, namely CarvedList. */
  lemma CarveKeepsHeap(st: Store, head: Option<nat>, xs: seq<nat>, limit: nat, k: nat, need: nat, st': Store, hd': Option<nat>)
    requires Heap(st, head, xs, limit)
    requires k < |xs|
    requires (st', hd') == Carve(st, head, PrevBlock(xs, k), xs[k], need)
    ensures Heap(st', hd', CarvedList(st, xs, k, need), limit)
  {
    if st[xs[k]].size >= need + H {
      CarveSplitHeap(st, head, xs, limit, k, need, st', hd');
    } else {
      CarveWholeHeap(st, head, xs, limit, k, need, st', hd');
    }
  }

  /** The intended mem_alloc keeps the free list a heap. */
  lemma IntendedAllocHeap(s: State, n: nat, xs: seq<nat>, k: nat)
    requires Wf(s)
    requires Heap(s.store, s.head, xs, s.memSize)
    requires FirstFit(s.store, xs, AlignSize(n)) == Some(k)
    ensures Alloc(s, n).Done? && Alloc(s, n).value == Some(xs[k] + H)
    ensures var r := Alloc(s, n);
            Heap(r.state.store, r.state.head, CarvedList(s.store, xs, k, AlignSize(n)), s.memSize)
  {
    IntendedAllocState(s, n, xs, k);
    var r := Alloc(s, n);
    CarveKeepsHeap(s.store, s.head, xs, s.memSize, k, AlignSize(n), r.state.store, r.state.head);
  }

  /** The block the intended mem_alloc hands out overlaps no other block
      of the old list, and a split remainder starts where it ends. */
  lemma IntendedAllocApart(s: State, n: nat, xs: seq<nat>, k: nat)
    requires Wf(s)
    requires Heap(s.store, s.head, xs, s.memSize)
    requires FirstFit(s.store, xs, AlignSize(n)) == Some(k)
    ensures Alloc(s, n).Done?
    ensures var r, c := Alloc(s, n), xs[k];
            forall i :: 0 <= i < |xs| && i != k ==>
              && xs[i] in r.state.store
              && (End(r.state.store, xs[i]) <= c || End(r.state.store, c) <= xs[i])
    ensures var r, c, need := Alloc(s, n), xs[k], AlignSize(n);
            s.store[c].size >= need + H ==> End(r.state.store, c) == c + H + need
  {
    var need := AlignSize(n);
    IntendedAllocState(s, n, xs, k);
    if s.store[xs[k]].size >= need + H {
      CarveSplitApart(s.store, s.head, xs, s.memSize, k, need);
    } else {
      CarveWholeApart(s.store, s.head, xs, s.memSize, k, need);
    }
  }

  /** A split by the intended mem_alloc, as mem.c:52-59 lays it out: the
      carved block keeps exactly the aligned request and points at a
      remainder that keeps the old `next` and ends where the block ended. */
  lemma IntendedAllocSplits(s: State, n: nat, xs: seq<nat>, k: nat)
    requires Wf(s)
    requires Heap(s.store, s.head, xs, s.memSize)
    requires FirstFit(s.store, xs, AlignSize(n)) == Some(k)
    requires s.store[xs[k]].size >= AlignSize(n) + H
    ensures Alloc(s, n).Done?
    ensures var r, c, need := Alloc(s, n), xs[k], AlignSize(n);
            var rem := c + H + need;
            && rem in r.state.store
            && r.state.store[rem] == Header(s.store[c].size - H - need, s.store[c].next)
            && r.state.store[c] == Header(need, Some(rem))
            && End(r.state.store, rem) == End(s.store, c)
  {
    AllocGeometry(s, n, xs, k);
  }

  /** An unsplit allocation by the intended mem_alloc: the block keeps its
      `next`, and fewer than H surplus bytes stop being recorded. */
  lemma IntendedAllocWhole(s: State, n: nat, xs: seq<nat>, k: nat)
    requires Wf(s)
    requires Heap(s.store, s.head, xs, s.memSize)
    requires FirstFit(s.store, xs, AlignSize(n)) == Some(k)
    requires s.store[xs[k]].size < AlignSize(n) + H
    ensures Alloc(s, n).Done?
    ensures var r, c := Alloc(s, n), xs[k];
            && r.state.store[c] == s.store[c].(size := AlignSize(n))
            && End(r.state.store, c) <= End(s.store, c) < End(r.state.store, c) + H
  {
    AllocGeometry(s, n, xs, k);
  }

  /** The intended mem_alloc carves the first fit of the list as a store
      fact about its result. */
  lemma AllocGeometry(s: State, n: nat, xs: seq<nat>, k: nat)
    requires Wf(s)
    requires Heap(s.store, s.head, xs, s.memSize)
    requires FirstFit(s.store, xs, AlignSize(n)) == Some(k)
    ensures Alloc(s, n).Done?
    ensures xs[k] in s.store && s.store[xs[k]].size >= AlignSize(n)
    ensures (Alloc(s, n).state.store, Alloc(s, n).state.head) == Carve(s.store, s.head, PrevBlock(xs, k), xs[k], AlignSize(n))
    ensures k > 0 ==> xs[k - 1] in s.store && xs[k - 1] < xs[k]
  {
    IntendedAllocState(s, n, xs, k);
    if k > 0 {
      assert GapAt(s.store, xs, k - 1);
    }
  }
}
