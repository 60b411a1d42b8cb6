/** Properties of mem_free (mem.c:76-114). */
module FreeProofs {
  import opened Options
  import opened Blocks
  import opened Mem

  /** On a NULL-terminated list the address-order loop stops at the first
      block not below `b`, with `prev_block` the block before it. */
  lemma {:induction false} InsertionScanList(store: Store, prev: Option<nat>, cur: Option<nat>, xs: seq<nat>, b: nat, fuel: nat)
    requires Closed(store)
    requires ListRepr(store, cur, xs)
    requires prev.Some? ==> prev.value in store && store[prev.value].next == cur && prev.value < b
    requires fuel >= |xs|
    ensures var j := InsertionIndex(xs, b);
            InsertionScan(store, prev, cur, b, fuel)
              == Between(if j == 0 then prev else Some(xs[j - 1]), if j < |xs| then Some(xs[j]) else None)
    decreases |xs|
  {
    if |xs| > 0 && xs[0] < b {
      var nxt := store[xs[0]].next;
      ListReprLast(store, cur, xs);
      if |xs| > 1 {
        assert LinkedAt(store, xs, 0);
        ListReprSuffix(store, cur, xs, 1);
      }
      InsertionScanList(store, cur, nxt, xs[1..], b, fuel - 1);
    }
  }

  /** When the address-order loop runs out of steps, it has passed
      `fuel + 1` blocks, all below `b`. */
  lemma {:induction false} InsertionScanLoops(store: Store, prev: Option<nat>, cur: Option<nat>, b: nat, fuel: nat)
    requires Closed(store)
    requires cur.Some? ==> cur.value in store
    requires prev.Some? ==> prev.value in store && store[prev.value].next == cur && prev.value < b
    requires InsertionScan(store, prev, cur, b, fuel).Loops?
    ensures var w := Walk(store, cur, fuel + 1);
            && |w| == fuel + 1
            && forall i :: 0 <= i < |w| ==> w[i] < b
    decreases fuel
  {
    var c := cur.value;
    var nxt := store[c].next;
    assert Walk(store, cur, fuel + 1) == [c] + Walk(store, nxt, fuel);
    if fuel > 0 {
      InsertionScanLoops(store, cur, nxt, b, fuel - 1);
    }
  }

  /** mem_free runs out of scan steps only on a list that revisits a
      header, all of whose blocks lie below the freed one; the loop is
      deterministic and only reads, so from there it loops forever. */
  lemma FreeHangsOnlyOnCycle(s: State, p: nat)
    requires Wf(s)
    requires p >= H && p - H in s.store
    requires MemFree(s, Some(p)).Hangs?
    ensures var w := Walk(s.store, s.head, |s.store| + 1);
            && |w| == |s.store| + 1
            && !Distinct(w)
            && forall i :: 0 <= i < |w| ==> w[i] < p - H
  {
    InsertionScanLoops(s.store, None, s.head, p - H, |s.store|);
    PigeonHole(s.store, Walk(s.store, s.head, |s.store| + 1));
  }

  /** Whether the block before the insertion point ends exactly where the
      freed block `b` starts (the test of mem.c:90). */
  predicate LeftAdjacent(store: Store, xs: seq<nat>, b: nat)
    requires InStore(store, xs)
  {
    var j := InsertionIndex(xs, b);
    j > 0 && End(store, xs[j - 1]) == b
  }

  /** Whether the freed block `b` ends exactly where the block at the
      insertion point starts. */
  predicate RightAdjacent(store: Store, xs: seq<nat>, b: nat)
    requires InStore(store, xs) && b in store
  {
    var j := InsertionIndex(xs, b);
    j < |xs| && End(store, b) == xs[j]
  }

  /** Without a left-adjacent predecessor only the freed block's header is
      written: it absorbs an adjacent successor and ends up pointing at
      itself. */
  lemma ReleaseDetached(st: Store, head: Option<nat>, b: nat, prev: Option<nat>, cur: Option<nat>)
    requires b in st
    requires prev.Some? ==> prev.value in st
    requires cur.Some? ==> cur.value in st
    requires !(prev.Some? && End(st, prev.value) == b)
    ensures var grow := if cur.Some? && End(st, b) == cur.value then H + st[cur.value].size else 0;
            Release(st, head, b, prev, cur).0 == st[b := Header(st[b].size + grow, Some(b))]
  {
  }

  /** With a left-adjacent predecessor `q` only q's header is written: it
      absorbs the freed block and an adjacent successor, and ends up
      pointing at itself. */
  lemma ReleaseMerged(st: Store, head: Option<nat>, b: nat, prev: Option<nat>, cur: Option<nat>)
    requires b in st
    requires prev.Some? && prev.value in st && End(st, prev.value) == b
    requires cur.Some? ==> cur.value in st && cur.value != prev.value
    ensures var q := prev.value;
            var grow := H + st[b].size + (if cur.Some? && End(st, b) == cur.value then H + st[cur.value].size else 0);
            Release(st, head, b, prev, cur).0 == st[q := Header(st[q].size + grow, Some(q))]
  {
  }

  /** On a NULL-terminated list the loop of mem_free, run from the head
      with one step per header, stops around the insertion index. */
  lemma ScanStops(s: State, b: nat, xs: seq<nat>)
    requires Wf(s)
    requires ListRepr(s.store, s.head, xs)
    ensures var j := InsertionIndex(xs, b);
            InsertionScan(s.store, None, s.head, b, |s.store|)
              == Between(PrevBlock(xs, j), if j < |xs| then Some(xs[j]) else None)
  {
    ListReprLength(s.store, s.head, xs);
    InsertionScanList(s.store, None, s.head, xs, b, |s.store|);
  }

  /** The state mem_free leaves when the list from the head is `xs`: exactly
      one header is written, that of the predecessor when it is
      left-adjacent and that of the freed block otherwise; it grows by each
      adjacent neighbour it absorbs and ends up pointing at itself. */
  lemma FreeOnListState(s: State, p: nat, xs: seq<nat>)
    requires Wf(s)
    requires p >= H && p - H in s.store
    requires ListRepr(s.store, s.head, xs)
    ensures var b := p - H;
            var j := InsertionIndex(xs, b);
            var left := LeftAdjacent(s.store, xs, b);
            var blk := if left then xs[j - 1] else b;
            var grow := (if left then H + s.store[b].size else 0)
                        + (if RightAdjacent(s.store, xs, b) then H + s.store[xs[j]].size else 0);
            MemFree(s, Some(p))
              == Done(0, s.(store := s.store[blk := Header(s.store[blk].size + grow, Some(blk))]))
  {
    var b := p - H;
    var j := InsertionIndex(xs, b);
    var prev := PrevBlock(xs, j);
    var cur := if j < |xs| then Some(xs[j]) else None;
    assert InsertionScan(s.store, None, s.head, b, |s.store|) == Between(prev, cur) by {
      ScanStops(s, b, xs);
    }
    if LeftAdjacent(s.store, xs, b) {
      ReleaseMerged(s.store, s.head, b, prev, cur);
    } else {
      ReleaseDetached(s.store, s.head, b, prev, cur);
    }
  }

  /** Freeing a block whose predecessor in address order is not adjacent to
      it: the reachable list is exactly the list before the call, every
      header on it is untouched, and the freed block (absorbing an adjacent
      successor) is left pointing at itself, outside the list.  The freed
      space is therefore never reachable from `free_list` again. */
  lemma FreeDetached(s: State, p: nat, xs: seq<nat>)
    requires Wf(s)
    requires p >= H && p - H in s.store
    requires ListRepr(s.store, s.head, xs)
    requires p - H !in xs
    requires !LeftAdjacent(s.store, xs, p - H)
    ensures var b := p - H;
            var r := MemFree(s, Some(p));
            var grow := if RightAdjacent(s.store, xs, b) then H + s.store[xs[InsertionIndex(xs, b)]].size else 0;
            && r == Done(0, s.(store := s.store[b := Header(s.store[b].size + grow, Some(b))]))
            && ListRepr(r.state.store, s.head, xs)
  {
    var b := p - H;
    FreeOnListState(s, p, xs);
    var st' := MemFree(s, Some(p)).state.store;
    ListReprFrame(s.store, st', s.head, xs);
  }

  /** Freeing a block whose predecessor `q` in address order ends where it
      starts: q grows by the header and payload of the freed block, and by
      those of the successor when that is adjacent too, then points at
      itself.  No other header changes. */
  lemma FreeMerged(s: State, p: nat, xs: seq<nat>)
    requires Wf(s)
    requires p >= H && p - H in s.store
    requires ListRepr(s.store, s.head, xs)
    requires LeftAdjacent(s.store, xs, p - H)
    ensures var b := p - H;
            var j := InsertionIndex(xs, b);
            var q := xs[j - 1];
            var r := MemFree(s, Some(p));
            var grow := H + s.store[b].size
                        + (if RightAdjacent(s.store, xs, b) then H + s.store[xs[j]].size else 0);
            r == Done(0, s.(store := s.store[q := Header(s.store[q].size + grow, Some(q))]))
  {
    FreeOnListState(s, p, xs);
  }

  /** Pointing the `j`-th block of a list at itself turns the walk from the
      head into the first `j` blocks followed by that block forever. */
  lemma SelfLinkWalk(st: Store, head: Option<nat>, xs: seq<nat>, j: nat, size: nat, fuel: nat)
    requires ListRepr(st, head, xs)
    requires 0 < j <= |xs| && fuel >= j
    ensures var q := xs[j - 1];
            Walk(st[q := Header(size, Some(q))], head, fuel) == xs[..j] + Repeat(q, fuel - j)
  {
    var q := xs[j - 1];
    var st' := st[q := Header(size, Some(q))];
    ListReprDistinct(st, head, xs);
    var pre := xs[..j];
    forall i | 0 <= i < |pre| - 1
      ensures LinkedAt(st', pre, i)
    {
      assert LinkedAt(st, xs, i);
    }
    WalkPrefix(st', head, pre, q, fuel);
    WalkSelfLoop(st', q, fuel - j);
  }

  /** After a merge into `q == xs[j - 1]`, following `free_list` visits the
      blocks before the freed one and then `q` forever. */
  lemma FreeMergedWalk(s: State, p: nat, xs: seq<nat>, fuel: nat)
    requires Wf(s)
    requires p >= H && p - H in s.store
    requires ListRepr(s.store, s.head, xs)
    requires LeftAdjacent(s.store, xs, p - H)
    requires fuel >= InsertionIndex(xs, p - H)
    ensures MemFree(s, Some(p)).Done?
    ensures var j := InsertionIndex(xs, p - H);
            Walk(MemFree(s, Some(p)).state.store, s.head, fuel) == xs[..j] + Repeat(xs[j - 1], fuel - j)
  {
    var j := InsertionIndex(xs, p - H);
    FreeMerged(s, p, xs);
    SelfLinkWalk(s.store, s.head, xs, j, MemFree(s, Some(p)).state.store[xs[j - 1]].size, fuel);
  }

  /** After a merge no NULL-terminated list starts at `free_list`: the
      allocator's list is a lasso, and a later mem_alloc that finds no fit
      up to and including the merged block never stops. */
  lemma FreeMergedNoList(s: State, p: nat, xs: seq<nat>, ys: seq<nat>)
    requires Wf(s)
    requires p >= H && p - H in s.store
    requires ListRepr(s.store, s.head, xs)
    requires LeftAdjacent(s.store, xs, p - H)
    ensures MemFree(s, Some(p)).Done?
    ensures !ListRepr(MemFree(s, Some(p)).state.store, s.head, ys)
  {
    var j := InsertionIndex(xs, p - H);
    var fuel := |ys| + 1 + j;
    var r := MemFree(s, Some(p));
    assert r.Done? && |Walk(r.state.store, s.head, fuel)| == fuel by {
      FreeMergedWalk(s, p, xs, fuel);
    }
    LongWalkNoList(r.state.store, s.head, ys, fuel);
  }

  /** A walk that uses up all its fuel never met NULL, so no NULL-terminated
      list shorter than the fuel starts there. */
  lemma LongWalkNoList(st: Store, head: Option<nat>, ys: seq<nat>, fuel: nat)
    requires fuel > |ys| && |Walk(st, head, fuel)| == fuel
    ensures !ListRepr(st, head, ys)
  {
    if ListRepr(st, head, ys) {
      WalkOfList(st, head, ys, fuel);
    }
  }
}
