/** The inline `Block` header of mem.c and the free list threaded through
    those headers.  Addresses are byte offsets from the start of the region,
    and the memory holding headers is a map from offset to the header last
    written there. */
module Blocks {
  import opened Options

  /** sizeof(Block) on an LP64 host: one size_t followed by one pointer. */
  const H: nat := 16

  /** `size` counts the payload bytes after the header; `next` is the next
      free block, or None for NULL. */
  datatype Header = Header(size: nat, next: Option<nat>)

  type Store = map<nat, Header>

  /** One past the last payload byte of the block whose header is at `k`. */
  function End(store: Store, k: nat): nat
    requires k in store
  {
    k + H + store[k].size
  }

  /** Every `next` field stored in a header names another header: following
      a pointer never leaves the headers the allocator has written. */
  predicate Closed(store: Store)
  {
    forall k {:trigger store[k]} :: k in store && store[k].next.Some? ==> store[k].next.value in store
  }

  predicate InStore(store: Store, xs: seq<nat>)
  {
    forall i :: 0 <= i < |xs| ==> xs[i] in store
  }

  predicate Distinct(xs: seq<nat>)
  {
    forall i, j :: 0 <= i < j < |xs| ==> xs[i] != xs[j]
  }

  /** The header of xs[i] points at xs[i + 1]. */
  predicate LinkedAt(store: Store, xs: seq<nat>, i: nat)
  {
    i + 1 < |xs| && xs[i] in store && store[xs[i]].next == Some(xs[i + 1])
  }

  /** Each header of `xs` but the last points at the next element. */
  predicate Linked(store: Store, xs: seq<nat>)
  {
    forall i :: 0 <= i < |xs| - 1 ==> LinkedAt(store, xs, i)
  }

  /** `xs` is the whole NULL-terminated list that starts at `head`: the
      first element is `head`, each header points at its successor, and the
      last one points at NULL. */
  predicate ListRepr(store: Store, head: Option<nat>, xs: seq<nat>)
  {
    && InStore(store, xs)
    && (if |xs| == 0 then head.None? else head == Some(xs[0]))
    && Linked(store, xs)
    && (|xs| > 0 ==> store[xs[|xs| - 1]].next.None?)
  }

  /** The blocks of `xs` are in strictly increasing address order, no block
      overlaps a later one (header and payload included), and every block
      ends inside a region of `limit` bytes. */
  predicate Ordered(store: Store, xs: seq<nat>, limit: nat)
  {
    && InStore(store, xs)
    && (forall i, j :: 0 <= i < j < |xs| ==> End(store, xs[i]) <= xs[j])
    && (forall i :: 0 <= i < |xs| ==> End(store, xs[i]) <= limit)
  }

  /** No two blocks of `xs` are byte-adjacent: the coalescing guarantee. */
  predicate Coalesced(store: Store, xs: seq<nat>)
  {
    && InStore(store, xs)
    && (forall i :: 0 <= i < |xs| - 1 ==> End(store, xs[i]) != xs[i + 1])
  }

  /** The headers visited by following `next` from `p`, at most `fuel` of
      them; the walk stops at NULL or at an offset holding no header. */
  function Walk(store: Store, p: Option<nat>, fuel: nat): (w: seq<nat>)
    ensures |w| <= fuel
    ensures InStore(store, w)
    ensures |w| > 0 ==> p == Some(w[0])
    decreases fuel
  {
    if fuel == 0 then []
    else match p
      case None => []
      case Some(k) => if k in store then [k] + Walk(store, store[k].next, fuel - 1) else []
  }

  /** The block before index `k` of `xs`: the `prev_block` of a scan that
      stopped at xs[k], or None when it stopped at the head. */
  function PrevBlock(xs: seq<nat>, k: nat): (r: Option<nat>)
    requires k <= |xs|
    ensures r.None? <==> k == 0
    ensures r.Some? ==> r.value == xs[k - 1]
  {
    if k == 0 then None else Some(xs[k - 1])
  }

  function Repeat(k: nat, n: nat): (r: seq<nat>)
    ensures |r| == n
    ensures forall i :: 0 <= i < n ==> r[i] == k
  {
    seq(n, _ => k)
  }

  lemma ListReprSuffix(store: Store, head: Option<nat>, xs: seq<nat>, k: nat)
    requires ListRepr(store, head, xs)
    requires k < |xs|
    ensures ListRepr(store, Some(xs[k]), xs[k..])
  {
    LinkedSuffix(store, xs, k);
  }

  lemma LinkedSuffix(store: Store, xs: seq<nat>, k: nat)
    requires Linked(store, xs)
    requires k <= |xs|
    ensures Linked(store, xs[k..])
  {
    forall i | 0 <= i < |xs[k..]| - 1
      ensures LinkedAt(store, xs[k..], i)
    {
      assert LinkedAt(store, xs, k + i);
    }
  }

  /** Prepending a header that points at the old first element keeps the
      sequence linked. */
  lemma LinkedCons(store: Store, c: nat, xs: seq<nat>)
    requires Linked(store, xs)
    requires |xs| > 0 ==> c in store && store[c].next == Some(xs[0])
    ensures Linked(store, [c] + xs)
  {
    forall i | 0 <= i < |xs|
      ensures LinkedAt(store, [c] + xs, i)
    {
      if i > 0 {
        assert LinkedAt(store, xs, i - 1);
      }
    }
  }

  /** A non-empty list has one element exactly when its head links to NULL. */
  lemma ListReprLast(store: Store, head: Option<nat>, xs: seq<nat>)
    requires ListRepr(store, head, xs)
    requires |xs| > 0
    ensures |xs| == 1 <==> store[xs[0]].next.None?
  {
    if |xs| > 1 {
      assert LinkedAt(store, xs, 0);
    }
  }

  /** A list survives any store change that leaves its own headers alone. */
  lemma ListReprFrame(store: Store, store': Store, head: Option<nat>, xs: seq<nat>)
    requires ListRepr(store, head, xs)
    requires forall i :: 0 <= i < |xs| ==> xs[i] in store' && store'[xs[i]] == store[xs[i]]
    ensures ListRepr(store', head, xs)
  {
    forall i | 0 <= i < |xs| - 1
      ensures LinkedAt(store', xs, i)
    {
      assert LinkedAt(store, xs, i);
    }
  }

  /** A head determines its list: two NULL-terminated lists from the same
      head are the same list. */
  lemma {:induction false} ListReprUnique(store: Store, head: Option<nat>, xs: seq<nat>, ys: seq<nat>)
    requires ListRepr(store, head, xs)
    requires ListRepr(store, head, ys)
    ensures xs == ys
    decreases |xs|
  {
    if |xs| > 0 && |ys| > 0 {
      ListReprLast(store, head, xs);
      ListReprLast(store, head, ys);
      if |xs| == 1 {
      } else {
        assert LinkedAt(store, xs, 0) && LinkedAt(store, ys, 0);
        ListReprSuffix(store, head, xs, 1);
        ListReprSuffix(store, head, ys, 1);
        ListReprUnique(store, Some(xs[1]), xs[1..], ys[1..]);
        assert xs == [xs[0]] + xs[1..];
        assert ys == [ys[0]] + ys[1..];
      }
    }
  }

  /** A NULL-terminated list never visits a header twice. */
  lemma ListReprDistinct(store: Store, head: Option<nat>, xs: seq<nat>)
    requires ListRepr(store, head, xs)
    ensures Distinct(xs)
  {
    forall i, j | 0 <= i < j < |xs|
      ensures xs[i] != xs[j]
    {
      if xs[i] == xs[j] {
        ListReprSuffix(store, head, xs, i);
        ListReprSuffix(store, head, xs, j);
        ListReprUnique(store, Some(xs[i]), xs[i..], xs[j..]);
        assert false;
      }
    }
  }

  lemma {:induction false} DistinctCard(xs: seq<nat>)
    requires Distinct(xs)
    ensures |set i | 0 <= i < |xs| :: xs[i]| == |xs|
  {
    if |xs| > 0 {
      var t := xs[..|xs| - 1];
      DistinctCard(t);
      var st := set i | 0 <= i < |t| :: t[i];
      var sx := set i | 0 <= i < |xs| :: xs[i];
      assert sx == st + {xs[|xs| - 1]};
      assert xs[|xs| - 1] !in st;
    }
  }

  lemma SubsetCard(a: set<nat>, b: set<nat>)
    requires a <= b
    ensures |a| <= |b|
  {
    assert b == a + (b - a);
  }

  /** A NULL-terminated list is no longer than the number of headers. */
  lemma ListReprLength(store: Store, head: Option<nat>, xs: seq<nat>)
    requires ListRepr(store, head, xs)
    ensures |xs| <= |store|
  {
    ListReprDistinct(store, head, xs);
    DistinctCard(xs);
    var sx := set i | 0 <= i < |xs| :: xs[i];
    SubsetCard(sx, store.Keys);
  }

  /** More offsets than headers: some header is visited twice. */
  lemma PigeonHole(store: Store, w: seq<nat>)
    requires InStore(store, w)
    requires |w| > |store|
    ensures !Distinct(w)
  {
    if Distinct(w) {
      DistinctCard(w);
      var sw := set i | 0 <= i < |w| :: w[i];
      SubsetCard(sw, store.Keys);
    }
  }

  /** A bounded walk of a NULL-terminated list with enough fuel is the list. */
  lemma {:induction false} WalkOfList(store: Store, head: Option<nat>, xs: seq<nat>, fuel: nat)
    requires ListRepr(store, head, xs)
    requires fuel > |xs|
    ensures Walk(store, head, fuel) == xs
    decreases |xs|
  {
    if |xs| > 0 {
      if |xs| == 1 {
        assert Walk(store, store[xs[0]].next, fuel - 1) == [];
      } else {
        assert LinkedAt(store, xs, 0);
        ListReprSuffix(store, head, xs, 1);
        WalkOfList(store, Some(xs[1]), xs[1..], fuel - 1);
        assert xs == [xs[0]] + xs[1..];
      }
    }
  }

  /** A header that points at itself makes the walk through it repeat it. */
  lemma {:induction false} WalkSelfLoop(store: Store, k: nat, fuel: nat)
    requires k in store && store[k].next == Some(k)
    ensures Walk(store, Some(k), fuel) == Repeat(k, fuel)
    decreases fuel
  {
    if fuel > 0 {
      WalkSelfLoop(store, k, fuel - 1);
    }
  }

  /** Following a list prefix `xs` whose last header links to `k` continues
      with the walk from `k`. */
  lemma {:induction false} WalkPrefix(store: Store, head: Option<nat>, xs: seq<nat>, k: nat, fuel: nat)
    requires |xs| > 0 && InStore(store, xs) && head == Some(xs[0])
    requires Linked(store, xs)
    requires store[xs[|xs| - 1]].next == Some(k)
    requires fuel >= |xs|
    ensures Walk(store, head, fuel) == xs + Walk(store, Some(k), fuel - |xs|)
    decreases |xs|
  {
    if |xs| == 1 {
    } else {
      assert LinkedAt(store, xs, 0);
      LinkedSuffix(store, xs, 1);
      WalkPrefix(store, Some(xs[1]), xs[1..], k, fuel - 1);
      assert xs == [xs[0]] + xs[1..];
    }
  }

  /** Ordered lists are strictly increasing, hence free of repeats. */
  lemma OrderedDistinct(store: Store, xs: seq<nat>, limit: nat)
    requires Ordered(store, xs, limit)
    ensures Distinct(xs)
    ensures forall i, j :: 0 <= i < j < |xs| ==> xs[i] < xs[j]
  {
  }
}
