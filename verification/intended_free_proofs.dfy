/** Proofs that the intended mem_free keeps the free list a heap: the freed
    block goes in at its address and is coalesced with adjacent free
    neighbours, so the list stays sorted, disjoint and coalesced. */
module IntendedFreeProofs {
  import opened Options
  import opened Blocks
  import opened Mem
  import opened Intended
  import opened FreeProofs
  import opened IntendedProofs

  /** Block `b` overlaps no block of `xs`. */
  predicate Apart(store: Store, xs: seq<nat>, b: nat)
    requires InStore(store, xs) && b in store
  {
    forall i :: 0 <= i < |xs| ==> End(store, xs[i]) <= b || End(store, b) <= xs[i]
  }

  /** What a block handed out by mem_alloc looks like next to the free
      list `xs`: the list is a heap, and the block has a header, lies
      inside the region and overlaps no free block. */
  predicate Freeable(store: Store, head: Option<nat>, xs: seq<nat>, limit: nat, b: nat)
  {
    && Heap(store, head, xs, limit)
    && b in store
    && Apart(store, xs, b)
    && End(store, b) <= limit
  }

  /** `prev_block` when the address-order loop stops for `b` on `xs`. */
  function Before(xs: seq<nat>, b: nat): (r: Option<nat>)
    ensures r.Some? <==> InsertionIndex(xs, b) > 0
  {
    var j := InsertionIndex(xs, b);
    PrevBlock(xs, j)
  }

  /** `current_block` when the address-order loop stops for `b` on `xs`. */
  function After(xs: seq<nat>, b: nat): (r: Option<nat>)
    ensures r.Some? <==> InsertionIndex(xs, b) < |xs|
  {
    var j := InsertionIndex(xs, b);
    if j < |xs| then Some(xs[j]) else None
  }

  /** The free list after freeing `b` into `xs`, by address: `b` is
      inserted at its place, except that a left-adjacent predecessor takes
      its bytes in place of it and a right-adjacent successor is absorbed
      into whichever block holds them. */
  function FreedList(store: Store, xs: seq<nat>, b: nat): (ys: seq<nat>)
    requires InStore(store, xs) && b in store
    ensures |ys| == |xs| + 1 - (if LeftAdjacent(store, xs, b) then 1 else 0) - (if RightAdjacent(store, xs, b) then 1 else 0)
  {
    var j := InsertionIndex(xs, b);
    var left, right := LeftAdjacent(store, xs, b), RightAdjacent(store, xs, b);
    if left && right then xs[..j] + xs[j + 1..]
    else if left then xs
    else if right then xs[..j] + [b] + xs[j + 1..]
    else xs[..j] + [b] + xs[j..]
  }

  /** Facts about the insertion point that hold on any heap: the list is
      increasing, `b` is none of its blocks, and `b` sits between the
      block before the insertion point and the one at it. */
  lemma InsertionPoint(store: Store, head: Option<nat>, xs: seq<nat>, limit: nat, b: nat)
    requires Freeable(store, head, xs, limit, b)
    ensures forall i, i' :: 0 <= i < i' < |xs| ==> End(store, xs[i]) <= xs[i']
    ensures forall i :: 0 <= i < |xs| ==> xs[i] != b
    ensures var j := InsertionIndex(xs, b);
            && (j > 0 ==> End(store, xs[j - 1]) <= b)
            && (j < |xs| ==> End(store, b) <= xs[j])
  {
    forall i, i' | 0 <= i < i' < |xs|
      ensures End(store, xs[i]) <= xs[i']
    {
      GapsReach(store, xs, i, i');
    }
  }

  /** Insert writes no header but the freed block's and that of
      `prev_block`. */
  lemma InsertFrame(st: Store, head: Option<nat>, b: nat, prev: Option<nat>, cur: Option<nat>)
    requires b in st
    requires prev.Some? ==> prev.value in st
    requires cur.Some? ==> cur.value in st
    ensures var r := Insert(st, head, b, prev, cur).0;
            forall k :: k in st && k != b && Some(k) != prev ==> k in r && r[k] == st[k]
  {
  }

  /** Insert with no neighbour adjacent: the freed header links to `cur`
      and `prev` (or the head) is pointed at the freed block. */
  lemma InsertLinks(st: Store, head: Option<nat>, b: nat, prev: Option<nat>, cur: Option<nat>, st': Store, hd': Option<nat>)
    requires b in st
    requires prev.Some? ==> prev.value in st && prev.value != b && End(st, prev.value) != b
    requires cur.Some? ==> cur.value in st && End(st, b) != cur.value
    requires (st', hd') == Insert(st, head, b, prev, cur)
    ensures b in st' && st'[b] == st[b].(next := cur)
    ensures prev.Some? ==> prev.value in st' && st'[prev.value] == st[prev.value].(next := Some(b))
    ensures hd' == if prev.None? then Some(b) else head
  {
  }

  /** Insert when only the successor `c` is adjacent: the freed header
      absorbs `c` and takes its link, and `prev` (or the head) is pointed
      at the freed block. */
  lemma InsertAbsorbs(st: Store, head: Option<nat>, b: nat, prev: Option<nat>, c: nat, st': Store, hd': Option<nat>)
    requires b in st && c in st && c != b && End(st, b) == c
    requires prev.Some? ==> prev.value in st && prev.value != b && prev.value != c && End(st, prev.value) != b
    requires (st', hd') == Insert(st, head, b, prev, Some(c))
    ensures b in st' && st'[b] == Header(st[b].size + H + st[c].size, st[c].next)
    ensures prev.Some? ==> prev.value in st' && st'[prev.value] == st[prev.value].(next := Some(b))
    ensures hd' == if prev.None? then Some(b) else head
  {
  }

  /** Insert when only the predecessor `q` is adjacent: q grows over the
      freed block and keeps its link. */
  lemma InsertGrows(st: Store, head: Option<nat>, b: nat, q: nat, cur: Option<nat>, st': Store, hd': Option<nat>)
    requires b in st && q in st && q != b && End(st, q) == b
    requires cur.Some? ==> cur.value in st && End(st, b) != cur.value
    requires (st', hd') == Insert(st, head, b, Some(q), cur)
    ensures q in st' && st'[q] == st[q].(size := st[q].size + H + st[b].size)
    ensures hd' == head
  {
  }

  /** Insert between two adjacent neighbours `q` and `c`: q grows over the
      freed block and over c, and takes c's link. */
  lemma InsertBridges(st: Store, head: Option<nat>, b: nat, q: nat, c: nat, st': Store, hd': Option<nat>)
    requires b in st && q in st && c in st && q != b && c != b && c != q
    requires End(st, q) == b && End(st, b) == c
    requires (st', hd') == Insert(st, head, b, Some(q), Some(c))
    ensures q in st' && st'[q] == Header(st[q].size + H + st[b].size + H + st[c].size, st[c].next)
    ensures hd' == head
  {
  }

  /** Insert leaves alone every block of the list but the one before the
      insertion point. */
  lemma Untouched(st: Store, head: Option<nat>, xs: seq<nat>, limit: nat, b: nat, st': Store, lo: nat, hi: int)
    requires Freeable(st, head, xs, limit, b)
    requires st' == Insert(st, head, b, Before(xs, b), After(xs, b)).0
    requires hi <= |xs|
    requires var j := InsertionIndex(xs, b);
             j > 0 ==> hi < j || j <= lo
    ensures forall i :: lo <= i < hi ==> xs[i] in st' && st'[xs[i]] == st[xs[i]]
  {
    var j := InsertionIndex(xs, b);
    InsertionPoint(st, head, xs, limit, b);
    InsertFrame(st, head, b, Before(xs, b), After(xs, b));
    forall i | lo <= i < hi
      ensures xs[i] in st' && st'[xs[i]] == st[xs[i]]
    {
      if j > 0 && i < j - 1 {
        assert End(st, xs[i]) <= xs[j - 1];
      } else if j > 0 {
        assert End(st, xs[j - 1]) <= xs[i];
      }
    }
  }

  /** Putting xs[j - 1] back between its neighbours. */
  lemma Regroup(xs: seq<nat>, j: nat)
    requires 0 < j <= |xs|
    ensures xs[..j - 1] + [xs[j - 1]] + xs[j..] == xs
    ensures j < |xs| ==> xs[..j - 1] + [xs[j - 1]] + xs[j + 1..] == xs[..j] + xs[j + 1..]
  {
    assert xs[..j] == xs[..j - 1] + [xs[j - 1]];
    assert xs == xs[..j] + xs[j..];
  }

  /** Freeing a block with no free neighbour adjacent links it in between
      them. */
  lemma InsertApartHeap(st: Store, head: Option<nat>, xs: seq<nat>, limit: nat, b: nat, st': Store, hd': Option<nat>)
    requires Freeable(st, head, xs, limit, b)
    requires !LeftAdjacent(st, xs, b) && !RightAdjacent(st, xs, b)
    requires (st', hd') == Insert(st, head, b, Before(xs, b), After(xs, b))
    ensures var j := InsertionIndex(xs, b);
            Heap(st', hd', xs[..j] + [b] + xs[j..], limit)
  {
    var j := InsertionIndex(xs, b);
    InsertionPoint(st, head, xs, limit, b);
    InsertLinks(st, head, b, Before(xs, b), After(xs, b), st', hd');
    assert First([b] + xs[j..]) == Some(b);
    Untouched(st, head, xs, limit, b, st', 0, j as int - 1);
    Untouched(st, head, xs, limit, b, st', j, |xs|);
    SpliceAt(st, head, xs, limit, j, j, [b], st', hd');
  }

  /** Freeing a block whose successor is adjacent: the freed block absorbs
      the successor and takes its place and its link. */
  lemma InsertRightHeap(st: Store, head: Option<nat>, xs: seq<nat>, limit: nat, b: nat, st': Store, hd': Option<nat>)
    requires Freeable(st, head, xs, limit, b)
    requires !LeftAdjacent(st, xs, b) && RightAdjacent(st, xs, b)
    requires (st', hd') == Insert(st, head, b, Before(xs, b), After(xs, b))
    ensures var j := InsertionIndex(xs, b);
            Heap(st', hd', xs[..j] + [b] + xs[j + 1..], limit)
  {
    var j := InsertionIndex(xs, b);
    assert j < |xs| && End(st, b) == xs[j];
    assert After(xs, b) == Some(xs[j]);
    assert j > 0 ==> Before(xs, b) == Some(xs[j - 1]) && End(st, xs[j - 1]) < b by {
      InsertionPoint(st, head, xs, limit, b);
    }
    assert b in st' && st'[b] == Header(st[b].size + H + st[xs[j]].size, st[xs[j]].next)
           && (j > 0 ==> xs[j - 1] in st' && st'[xs[j - 1]] == st[xs[j - 1]].(next := Some(b)))
           && (j == 0 ==> hd' == Some(b))
           && (j > 0 ==> hd' == head) by {
      InsertionPoint(st, head, xs, limit, b);
      InsertAbsorbs(st, head, b, Before(xs, b), xs[j], st', hd');
    }
    assert End(st', b) == End(st, xs[j]);
    assert st'[b].next == First(xs[j + 1..]) by {
      NextIsFirst(st, head, xs, j);
    }
    assert j + 1 < |xs| ==> End(st, xs[j]) < xs[j + 1] by {
      if j + 1 < |xs| {
        assert GapAt(st, xs, j);
      }
    }
    assert First([b] + xs[j + 1..]) == Some(b);
    Untouched(st, head, xs, limit, b, st', 0, j as int - 1);
    Untouched(st, head, xs, limit, b, st', j + 1, |xs|);
    SpliceAt(st, head, xs, limit, j, j + 1, [b], st', hd');
  }

  /** Freeing a block whose predecessor is adjacent: the predecessor grows
      over it and the list keeps its blocks. */
  lemma InsertLeftHeap(st: Store, head: Option<nat>, xs: seq<nat>, limit: nat, b: nat, st': Store, hd': Option<nat>)
    requires Freeable(st, head, xs, limit, b)
    requires LeftAdjacent(st, xs, b) && !RightAdjacent(st, xs, b)
    requires (st', hd') == Insert(st, head, b, Before(xs, b), After(xs, b))
    ensures Heap(st', hd', xs, limit)
  {
    var j := InsertionIndex(xs, b);
    InsertionPoint(st, head, xs, limit, b);
    InsertGrows(st, head, b, xs[j - 1], After(xs, b), st', hd');
    NextIsFirst(st, head, xs, j - 1);
    if j > 1 {
      assert GapAt(st, xs, j - 2);
      assert LinkedAt(st, xs, j - 2);
    }
    Untouched(st, head, xs, limit, b, st', 0, j - 1);
    Untouched(st, head, xs, limit, b, st', j, |xs|);
    SpliceAt(st, head, xs, limit, j - 1, j, [xs[j - 1]], st', hd');
    Regroup(xs, j);
  }

  /** Freeing a block between two adjacent free blocks: the predecessor
      grows over it and over the successor, which leaves the list. */
  lemma InsertBothHeap(st: Store, head: Option<nat>, xs: seq<nat>, limit: nat, b: nat, st': Store, hd': Option<nat>)
    requires Freeable(st, head, xs, limit, b)
    requires LeftAdjacent(st, xs, b) && RightAdjacent(st, xs, b)
    requires (st', hd') == Insert(st, head, b, Before(xs, b), After(xs, b))
    ensures var j := InsertionIndex(xs, b);
            Heap(st', hd', xs[..j] + xs[j + 1..], limit)
  {
    var j := InsertionIndex(xs, b);
    InsertionPoint(st, head, xs, limit, b);
    InsertBridges(st, head, b, xs[j - 1], xs[j], st', hd');
    NextIsFirst(st, head, xs, j);
    if j > 1 {
      assert GapAt(st, xs, j - 2);
      assert LinkedAt(st, xs, j - 2);
    }
    if j + 1 < |xs| {
      assert GapAt(st, xs, j);
    }
    Untouched(st, head, xs, limit, b, st', 0, j - 1);
    Untouched(st, head, xs, limit, b, st', j + 1, |xs|);
    SpliceAt(st, head, xs, limit, j - 1, j + 1, [xs[j - 1]], st', hd');
    Regroup(xs, j);
  }

  /** The intended mem_free on a heap: the list it leaves is a heap and is
      exactly FreedList. */
  lemma InsertKeepsHeap(st: Store, head: Option<nat>, xs: seq<nat>, limit: nat, b: nat, st': Store, hd': Option<nat>)
    requires Freeable(st, head, xs, limit, b)
    requires (st', hd') == Insert(st, head, b, Before(xs, b), After(xs, b))
    ensures Heap(st', hd', FreedList(st, xs, b), limit)
  {
    var left, right := LeftAdjacent(st, xs, b), RightAdjacent(st, xs, b);
    if left && right {
      InsertBothHeap(st, head, xs, limit, b, st', hd');
    } else if left {
      InsertLeftHeap(st, head, xs, limit, b, st', hd');
    } else if right {
      InsertRightHeap(st, head, xs, limit, b, st', hd');
    } else {
      InsertApartHeap(st, head, xs, limit, b, st', hd');
    }
  }

  /** Where the freed bytes end up: the block holding them starts at the
      left-adjacent predecessor, if any, and otherwise at the freed block,
      and ends where the right-adjacent successor ended, if any, and
      otherwise where the freed block ended.  Every other header of the
      old list is unchanged, except that a predecessor the freed block
      was not merged into now points at it. */
  lemma InsertCovers(st: Store, head: Option<nat>, xs: seq<nat>, limit: nat, b: nat, st': Store, hd': Option<nat>)
    requires Freeable(st, head, xs, limit, b)
    requires (st', hd') == Insert(st, head, b, Before(xs, b), After(xs, b))
    ensures var j := InsertionIndex(xs, b);
            var blk := if LeftAdjacent(st, xs, b) then xs[j - 1] else b;
            && blk in st'
            && End(st', blk) == if RightAdjacent(st, xs, b) then End(st, xs[j]) else End(st, b)
    ensures var j := InsertionIndex(xs, b);
            forall i :: 0 <= i < |xs| && i + 1 != j ==> xs[i] in st' && st'[xs[i]] == st[xs[i]]
    ensures var j := InsertionIndex(xs, b);
            j > 0 && !LeftAdjacent(st, xs, b) ==> xs[j - 1] in st' && st'[xs[j - 1]] == st[xs[j - 1]].(next := Some(b))
  {
    var j := InsertionIndex(xs, b);
    InsertionPoint(st, head, xs, limit, b);
    var left, right := LeftAdjacent(st, xs, b), RightAdjacent(st, xs, b);
    if left && right {
      InsertBridges(st, head, b, xs[j - 1], xs[j], st', hd');
    } else if left {
      InsertGrows(st, head, b, xs[j - 1], After(xs, b), st', hd');
    } else if right {
      InsertAbsorbs(st, head, b, Before(xs, b), xs[j], st', hd');
    } else {
      InsertLinks(st, head, b, Before(xs, b), After(xs, b), st', hd');
    }
    Untouched(st, head, xs, limit, b, st', 0, j as int - 1);
    Untouched(st, head, xs, limit, b, st', j, |xs|);
  }

  /** The intended mem_free on a NULL-terminated list inserts the freed
      block with `prev_block` and `current_block` the neighbours of its
      address. */
  lemma IntendedFreeState(s: State, p: nat, xs: seq<nat>)
    requires Wf(s)
    requires p >= H && p - H in s.store
    requires ListRepr(s.store, s.head, xs)
    ensures Free(s, Some(p)).Done? && Free(s, Some(p)).value == 0
    ensures (Free(s, Some(p)).state.store, Free(s, Some(p)).state.head)
            == Insert(s.store, s.head, p - H, Before(xs, p - H), After(xs, p - H))
  {
    var b := p - H;
    assert InsertionScan(s.store, None, s.head, b, |s.store|) == Between(Before(xs, b), After(xs, b)) by {
      ScanStops(s, b, xs);
    }
  }

  /** Freeing a block handed out by the intended mem_alloc keeps the free
      list a heap: sorted, disjoint, coalesced and inside the region. */
  lemma IntendedFreeHeap(s: State, p: nat, xs: seq<nat>)
    requires Wf(s)
    requires p >= H && Freeable(s.store, s.head, xs, s.memSize, p - H)
    ensures Free(s, Some(p)).Done?
    ensures var r := Free(s, Some(p));
            Heap(r.state.store, r.state.head, FreedList(s.store, xs, p - H), s.memSize)
  {
    IntendedFreeState(s, p, xs);
    var r := Free(s, Some(p));
    InsertKeepsHeap(s.store, s.head, xs, s.memSize, p - H, r.state.store, r.state.head);
  }
}
