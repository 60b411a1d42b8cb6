/** The allocator of mem.c: one region of `memSize` bytes at offsets
    0..memSize, the headers written into it, and the `free_list` head.
    Every operation is a pure step from one state to the next. */
module Mem {
  import opened Options
  import opened Blocks

  /** The values `m_error` takes; `NoFault` stands for whatever it held
      before the first failure. */
  datatype Fault = NoFault | BadArgs | NoSpace

  /** `head` is `free_list`, `initialized` is `mem_region != NULL`,
      `memSize` is `mem_size` and `error` is `m_error`. */
  datatype State = State(store: Store, head: Option<nat>, memSize: nat, initialized: bool, error: Fault)

  /** The state of the static variables before any call. */
  const Initial: State := State(map[], None, 0, false, NoFault)

  /** What a call returns together with the state it leaves. */
  datatype Ret<T> = Ret(value: T, state: State)

  /** A call that either returns, or loops forever in one of the list scans. */
  datatype Run<T> = Done(value: T, state: State) | Hangs

  /** Every pointer the allocator may follow leads to a header it wrote. */
  predicate Wf(s: State)
  {
    && Closed(s.store)
    && (s.head.Some? ==> s.head.value in s.store)
  }

  const ALIGNMENT: nat := 8

  /** align_size: adds ALIGNMENT - 1 and clears the low three bits. */
  function AlignSize(n: nat): (r: nat)
    ensures r % ALIGNMENT == 0
    ensures n <= r < n + ALIGNMENT
  {
    (n + ALIGNMENT - 1) - (n + ALIGNMENT - 1) % ALIGNMENT
  }

  /** The region size mem_init computes: whole pages covering `size`. */
  function RegionSize(size: nat, page: nat): (m: nat)
    requires size > 0 && page > 0
    ensures m % page == 0
    ensures size <= m < size + page
  {
    var t := size + page - 1;
    var pages := t / page;
    assert t == pages * page + t % page;
    MultipleMod(pages, page);
    pages * page
  }

  lemma MultipleMod(q: nat, page: nat)
    requires page > 0
    ensures (q * page) % page == 0
  {
    var x := q * page;
    var k := q - x / page;
    assert page * k == x % page;
    ScaleBounds(page, k);
  }

  lemma ScaleBounds(page: nat, k: int)
    requires page > 0
    ensures k >= 1 ==> page * k >= page
    ensures k <= -1 ==> page * k <= -(page as int)
  {
    if k >= 1 {
      assert page * k == page + page * (k - 1);
    } else if k <= -1 {
      assert page * k == -(page as int) + page * (k + 1);
    }
  }

  /** mem_init.  The page size is a parameter standing for getpagesize(),
      and `mapped` is whether mmap succeeded. */
  function MemInit(s: State, size: int, page: nat, mapped: bool): (r: Ret<int>)
    requires page >= H
    ensures r.value == 0 || r.value == -1
    ensures r.value == 0 <==> size > 0 && !s.initialized && mapped
    ensures size <= 0 || s.initialized ==> r.state == s.(error := BadArgs)
    ensures size > 0 && !s.initialized ==>
              && r.state.initialized
              && r.state.memSize % page == 0
              && size <= r.state.memSize < size + page
    ensures size > 0 && !s.initialized && !mapped ==>
              r.state == s.(memSize := r.state.memSize, initialized := true, error := BadArgs)
    ensures r.value == 0 ==>
              && ListRepr(r.state.store, r.state.head, [0])
              && r.state.store[0] == Header(r.state.memSize - H, None)
              && End(r.state.store, 0) == r.state.memSize
              && Ordered(r.state.store, [0], r.state.memSize)
              && r.state.error == s.error
    ensures Wf(s) ==> Wf(r.state)
  {
    if size <= 0 || s.initialized then
      Ret(-1, s.(error := BadArgs))
    else
      var memSize := RegionSize(size, page);
      if !mapped then
        Ret(-1, s.(memSize := memSize, initialized := true, error := BadArgs))
      else
        Ret(0, s.(store := map[0 := Header(memSize - H, None)], head := Some(0),
                  memSize := memSize, initialized := true))
  }

  /** The least index of a block of `ws` with at least `need` payload bytes. */
  function FirstFit(store: Store, ws: seq<nat>, need: nat): (k: Option<nat>)
    requires InStore(store, ws)
    ensures k.Some? ==> k.value < |ws| && store[ws[k.value]].size >= need
    ensures k.Some? ==> forall j :: 0 <= j < k.value ==> store[ws[j]].size < need
    ensures k.None? ==> forall j :: 0 <= j < |ws| ==> store[ws[j]].size < need
  {
    if |ws| == 0 then None
    else if store[ws[0]].size >= need then Some(0)
    else match FirstFit(store, ws[1..], need)
      case None => None
      case Some(k) => Some(k + 1)
  }

  /** Outcome of the first-fit loop of mem_alloc: the chosen block and
      `prev_block`, no block at all, or a scan that never ends. */
  datatype Fit = Fits(prev: Option<nat>, at: nat) | NoFit | Spins

  /** The loop of mem_alloc from `current_block == cur`, with at most `fuel`
      further steps. */
  function FirstFitScan(store: Store, prev: Option<nat>, cur: Option<nat>, need: nat, fuel: nat): (f: Fit)
    requires Closed(store)
    requires cur.Some? ==> cur.value in store
    requires prev.Some? ==> prev.value in store && store[prev.value].next == cur && store[prev.value].size < need
    ensures f.Fits? ==> f.at in store && store[f.at].size >= need
    ensures f.Fits? && f.prev.Some? ==>
              && f.prev.value in store
              && store[f.prev.value].next == Some(f.at)
              && store[f.prev.value].size < need
    ensures f.Fits? && f.prev.None? ==> prev.None? && cur == Some(f.at)
    decreases fuel
  {
    match cur
    case None => NoFit
    case Some(c) =>
      if store[c].size >= need then Fits(prev, c)
      else if fuel == 0 then Spins
      else FirstFitScan(store, cur, store[c].next, need, fuel - 1)
  }

  /** mem_alloc.  The `style` argument is ignored by the source and left out;
      `n` is the requested size.  The scan is given one step per header, so
      it runs out only when it revisits a header (see AllocHangsOnlyOnCycle). */
  function MemAlloc(s: State, n: nat): (r: Run<Option<nat>>)
    requires Wf(s)
    ensures r.Done? ==>
              && Wf(r.state)
              && r.state.memSize == s.memSize
              && r.state.initialized == s.initialized
              && s.store.Keys <= r.state.store.Keys
    ensures r.Done? && r.value.None? ==> r.state == s.(error := NoSpace)
    ensures r.Done? && r.value.Some? ==>
              && r.value.value >= H
              && r.value.value - H in s.store
              && s.store[r.value.value - H].size >= AlignSize(n)
              && r.state.store[r.value.value - H].size == AlignSize(n)
              && r.state.error == s.error
    ensures r.Done? && r.value.Some? ==>
              var c, need := r.value.value - H, AlignSize(n);
              var orig := s.store[c];
              if orig.size >= need + H then
                var rem := c + H + need;
                && rem in r.state.store
                && r.state.store[rem] == Header(orig.size - H - need, orig.next)
                && End(r.state.store, c) == rem
                && End(r.state.store, rem) == End(s.store, c)
                && r.state.store[c].next == Some(rem)
              else
                && End(r.state.store, c) <= End(s.store, c) < End(r.state.store, c) + H
                && r.state.store[c].next == orig.next
  {
    var need := AlignSize(n);
    match FirstFitScan(s.store, None, s.head, need, |s.store|)
    case Spins => Hangs
    case NoFit => Done(None, s.(error := NoSpace))
    case Fits(prev, c) =>
      var orig := s.store[c];
      var split := orig.size >= need + H;
      var rem := c + H + need;
      // lines 52-57: carve the remainder and link the chosen block to it
      var st1 := if split then s.store[rem := Header(orig.size - H - need, orig.next)][c := orig.(next := Some(rem))]
                 else s.store;
      // line 59: the chosen header records exactly the aligned request
      var st2 := st1[c := st1[c].(size := need)];
      // lines 62-66
      if split || s.head == Some(c) then
        Done(Some(c + H), s.(store := st2, head := if split then Some(rem) else st2[c].next))
      else
        Done(Some(c + H), s.(store := st2[prev.value := st2[prev.value].(next := st2[c].next)]))
  }

  /** The least index of `ws` whose offset is not below `b`, or |ws|. */
  function InsertionIndex(ws: seq<nat>, b: nat): (j: nat)
    ensures j <= |ws|
    ensures forall i :: 0 <= i < j ==> ws[i] < b
    ensures j < |ws| ==> ws[j] >= b
  {
    if |ws| == 0 || ws[0] >= b then 0 else 1 + InsertionIndex(ws[1..], b)
  }

  /** Outcome of the address-order loop of mem_free: `prev_block` and
      `current_block` when it stops, or a scan that never ends. */
  datatype Gap = Between(prev: Option<nat>, cur: Option<nat>) | Loops

  /** The loop of mem_free from `current_block == cur`, looking for the
      first free block at or after `b`, with at most `fuel` further steps. */
  function InsertionScan(store: Store, prev: Option<nat>, cur: Option<nat>, b: nat, fuel: nat): (g: Gap)
    requires Closed(store)
    requires cur.Some? ==> cur.value in store
    requires prev.Some? ==> prev.value in store && store[prev.value].next == cur && prev.value < b
    ensures g.Between? && g.cur.Some? ==> g.cur.value in store && g.cur.value >= b
    ensures g.Between? && g.prev.Some? ==>
              && g.prev.value in store
              && store[g.prev.value].next == g.cur
              && g.prev.value < b
    ensures g.Between? && g.prev.None? ==> prev.None? && g.cur == cur
    decreases fuel
  {
    match cur
    case None => Between(prev, None)
    case Some(c) =>
      if c >= b then Between(prev, cur)
      else if fuel == 0 then Loops
      else InsertionScan(store, cur, store[c].next, b, fuel - 1)
  }

  /** The body of mem_free after its loop stopped with `prev_block == prev`
      and `current_block == cur`: the headers and the `free_list` it leaves.
      `prev_block` is never NULL once line 96 has run, so the head is kept. */
  function Release(st: Store, head: Option<nat>, b: nat, prev: Option<nat>, cur: Option<nat>): (r: (Store, Option<nat>))
    requires b in st
    requires prev.Some? ==> prev.value in st
    requires cur.Some? ==> cur.value in st
    ensures r.1 == head
    ensures r.0.Keys == st.Keys
    ensures Closed(st) ==> Closed(r.0)
    ensures var blk := if prev.Some? && End(st, prev.value) == b then prev.value else b;
            r.0[blk].next == Some(blk)
  {
    // lines 90-96: merge into the predecessor, or point at the successor
    var leftMerge := prev.Some? && End(st, prev.value) == b;
    var blk := if leftMerge then prev.value else b;
    var prevBlock := if leftMerge then prev else Some(b);
    var st1 := if leftMerge then st[blk := st[blk].(size := st[blk].size + H + st[b].size)]
               else st[b := st[b].(next := cur)];
    // lines 99-106: merge the successor, then link prev_block to the block
    var rightMerge := cur.Some? && End(st1, blk) == cur.value;
    var st2 := if rightMerge then st1[blk := Header(st1[blk].size + H + st1[cur.value].size, st1[cur.value].next)]
               else st1;
    var st3 := if rightMerge && prevBlock.None? then st2
               else st2[prevBlock.value := st2[prevBlock.value].(next := Some(blk))];
    // lines 109-111
    (st3, if prevBlock.None? then Some(blk) else head)
  }

  /** mem_free.  `ptr` is the payload offset handed out by MemAlloc, or None
      for NULL; the source does not validate it, so the header below it is
      required to exist. */
  function MemFree(s: State, ptr: Option<nat>): (r: Run<int>)
    requires Wf(s)
    requires ptr.Some? ==> ptr.value >= H && ptr.value - H in s.store
    ensures ptr.None? ==> r == Done(-1, s)
    ensures ptr.Some? && r.Done? ==>
              && r.value == 0
              && r.state.head == s.head
              && r.state.memSize == s.memSize
              && r.state.initialized == s.initialized
              && r.state.error == s.error
              && r.state.store.Keys == s.store.Keys
              && Wf(r.state)
    ensures ptr.Some? && r.Done? ==> exists k :: k in r.state.store && r.state.store[k].next == Some(k)
  {
    match ptr
    case None => Done(-1, s)
    case Some(p) =>
      var b := p - H;
      match InsertionScan(s.store, None, s.head, b, |s.store|)
      case Loops => Hangs
      case Between(prev, cur) =>
        var (store, head) := Release(s.store, s.head, b, prev, cur);
        Done(0, s.(store := store, head := head))
  }
}
