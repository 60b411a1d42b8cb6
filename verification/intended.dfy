/** The allocator as its comments describe it: mem_alloc puts the
    remainder of a split block where the block was in the list, and
    mem_free links the freed block in at its address and coalesces it with
    adjacent free neighbours.  The scans are those of mem.c. */
module Intended {
  import opened Options
  import opened Blocks
  import opened Mem

  /** mem_alloc with the remainder of a split taking the chosen block's
      place: `prev_block` (or `free_list`) is pointed at whatever follows
      the chosen block once it is carved. */
  function Alloc(s: State, n: nat): (r: Run<Option<nat>>)
    requires Wf(s)
    ensures r.Done? ==>
              && Wf(r.state)
              && r.state.memSize == s.memSize
              && r.state.initialized == s.initialized
              && s.store.Keys <= r.state.store.Keys
    ensures r.Done? && r.value.None? ==> r.state == s.(error := NoSpace)
    ensures r.Done? && r.value.Some? ==>
              && r.value.value >= H
              && r.value.value - H in s.store
              && s.store[r.value.value - H].size >= AlignSize(n)
              && r.state.store[r.value.value - H].size == AlignSize(n)
              && r.state.error == s.error
  {
    var need := AlignSize(n);
    match FirstFitScan(s.store, None, s.head, need, |s.store|)
    case Spins => Hangs
    case NoFit => Done(None, s.(error := NoSpace))
    case Fits(prev, c) =>
      var (store, head) := Carve(s.store, s.head, prev, c, need);
      Done(Some(c + H), s.(store := store, head := head))
  }

  /** The body of the intended mem_alloc once its loop chose block `c` with
      `prev_block == prev`: split off a remainder when there is room for a
      header, and point `prev_block` (or `free_list`) at whatever follows
      the carved block. */
  function Carve(st: Store, head: Option<nat>, prev: Option<nat>, c: nat, need: nat): (r: (Store, Option<nat>))
    requires c in st
    requires prev.Some? ==> prev.value in st
    ensures st.Keys <= r.0.Keys
    ensures r.0[c].size == need
    ensures Closed(st) ==> Closed(r.0)
    ensures Closed(st) && (head.Some? ==> head.value in st) ==> (r.1.Some? ==> r.1.value in r.0)
  {
    var orig := st[c];
    var split := orig.size >= need + H;
    var rem := c + H + need;
    var st1 := if split then st[rem := Header(orig.size - H - need, orig.next)][c := orig.(next := Some(rem))]
               else st;
    var st2 := st1[c := st1[c].(size := need)];
    var succ := st2[c].next;
    if prev.None? then (st2, succ)
    else (st2[prev.value := st2[prev.value].(next := succ)], head)
  }

  /** The body of the intended mem_free once its loop stopped with
      `prev_block == prev` and `current_block == cur`. */
  function Insert(st: Store, head: Option<nat>, b: nat, prev: Option<nat>, cur: Option<nat>): (r: (Store, Option<nat>))
    requires b in st
    requires prev.Some? ==> prev.value in st
    requires cur.Some? ==> cur.value in st
    ensures r.0.Keys == st.Keys
    ensures Closed(st) ==> Closed(r.0)
    ensures r.1 == head || r.1 == Some(b)
  {
    var leftMerge := prev.Some? && End(st, prev.value) == b;
    var blk := if leftMerge then prev.value else b;
    var st1 := if leftMerge then st[blk := st[blk].(size := st[blk].size + H + st[b].size)]
               else if prev.Some? then st[b := st[b].(next := cur)][prev.value := st[prev.value].(next := Some(b))]
               else st[b := st[b].(next := cur)];
    var head' := if !leftMerge && prev.None? then Some(b) else head;
    var rightMerge := cur.Some? && End(st1, blk) == cur.value;
    var st2 := if rightMerge then st1[blk := Header(st1[blk].size + H + st1[cur.value].size, st1[cur.value].next)]
               else st1;
    (st2, head')
  }

  /** mem_free linking the freed block in after `prev_block` (or at the
      head) unless it merges into `prev_block`, then absorbing an adjacent
      successor into whichever block now holds the freed bytes. */
  function Free(s: State, ptr: Option<nat>): (r: Run<int>)
    requires Wf(s)
    requires ptr.Some? ==> ptr.value >= H && ptr.value - H in s.store
    ensures ptr.None? ==> r == Done(-1, s)
    ensures ptr.Some? && r.Done? ==>
              && r.value == 0
              && r.state.memSize == s.memSize
              && r.state.initialized == s.initialized
              && r.state.error == s.error
              && r.state.store.Keys == s.store.Keys
              && Wf(r.state)
  {
    match ptr
    case None => Done(-1, s)
    case Some(p) =>
      var b := p - H;
      match InsertionScan(s.store, None, s.head, b, |s.store|)
      case Loops => Hangs
      case Between(prev, cur) =>
        var (store, head) := Insert(s.store, s.head, b, prev, cur);
        Done(0, s.(store := store, head := head))
  }
}
