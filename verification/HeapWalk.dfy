/** Walking the heap by address (GetNextRange) and whole runs of the page heap. */
module HeapWalk {
  import opened Wrappers
  import opened Spans
  import opened HeapState
  import opened HeapSteps
  import opened HeapAlloc
  import opened PageHeaps
  import opened PageMaps
  import opened Bits

  /** `k` is not strictly inside a span. */
  ghost predicate Boundary(t: Table, k: nat) {
    forall s :: s in t ==> k <= t[s].start || t[s].End() <= k
  }

  /** `p` is the least mapped page at or above `k`. */
  predicate FirstMapped(m: map<nat, SpanPtr>, k: nat, p: nat) {
    p in m && k <= p && forall q :: q in m && k <= q ==> p <= q
  }

  /** `r` is the value at the first mapped page from `k` on, if there is one. */
  ghost predicate FoundNext(m: map<nat, SpanPtr>, k: nat, r: Option<SpanPtr>) {
    if r == None then forall p :: p in m ==> p < k
    else exists p :: FirstMapped(m, k, p) && m[p] == r.value
  }

  ghost predicate HoldsTwo(pages: PageMap2<SpanPtr>, m: map<nat, SpanPtr>)
    reads pages.root, pages.Leaves()
  {
    pages.Valid() && forall p: nat :: pages.At(p) == if p in m then Some(m[p]) else None
  }

  ghost predicate HoldsThree(pages: PageMap3<SpanPtr>, m: map<nat, SpanPtr>)
    reads pages, pages.repr
  {
    pages.Valid() && forall p: nat :: pages.At(p) == if p in m then Some(m[p]) else None
  }

  /** Next of a page map that holds `m` gives the value at the first mapped page. */
  lemma NextOfTwoLevels(pages: PageMap2<SpanPtr>, m: map<nat, SpanPtr>, k: nat, r: Option<SpanPtr>)
    requires HoldsTwo(pages, m) && pages.IsNext(k, r)
    ensures FoundNext(m, k, r)
  {
    if r.Some? {
      var p: nat :| k <= p && pages.At(p) == r && pages.Vacant(k, p);
      forall q: nat | q in m && k <= q ensures p <= q { assert pages.At(q) == Some(m[q]); }
      assert FirstMapped(m, k, p);
    } else {
      forall p: nat | p in m ensures p < k { assert pages.At(p) == Some(m[p]); }
    }
  }

  lemma NextOfThreeLevels(pages: PageMap3<SpanPtr>, m: map<nat, SpanPtr>, k: nat, r: Option<SpanPtr>)
    requires HoldsThree(pages, m) && pages.IsNext(k, r)
    ensures FoundNext(m, k, r)
  {
    if r.Some? {
      var p: nat :| k <= p && pages.At(p) == r && pages.Vacant(k, p);
      forall q: nat | q in m && k <= q ensures p <= q { assert pages.At(q) == Some(m[q]); }
      assert FirstMapped(m, k, p);
    } else {
      forall p: nat | p in m ensures p < k { assert pages.At(p) == Some(m[p]); }
    }
  }

  /** From a boundary, the first mapped page is the first page of the next live span: stale interior
      entries are never met. */
  lemma FirstIsStart(h: Heap, k: nat, p: nat)
    requires Layout(h) && Boundary(h.spans, k) && FirstMapped(h.pagemap, k, p)
    ensures var s := h.pagemap[p];
            && s in h.spans && h.spans[s].start == p && Boundary(h.spans, h.spans[s].End())
            && forall x :: x in h.spans && x != s && h.spans[x].start >= k ==> h.spans[x].start >= h.spans[s].End()
  {
    var s := PageHolder(h.spans, p);
    assert Anchored(h.pagemap, s, h.spans[s]);
    assert h.spans[s].start == p;
    forall x | x in h.spans && x != s
      ensures h.spans[x].start >= h.spans[s].End() || h.spans[x].End() <= p
      ensures h.spans[x].start >= k ==> h.spans[x].start >= h.spans[s].End()
    {
      assert Apart(h.spans[x], h.spans[s]) && Proper(h.spans[x]) && Anchored(h.pagemap, x, h.spans[x]);
    }
  }

  lemma NoneAbove(h: Heap, k: nat)
    requires Layout(h) && forall p :: p in h.pagemap ==> p < k
    ensures forall x :: x in h.spans ==> h.spans[x].start < k
  {
    forall x | x in h.spans ensures h.spans[x].start < k { assert Anchored(h.pagemap, x, h.spans[x]); }
  }

  /** `r` is the live span that starts first from `k` on, if there is one, and its end is a boundary. */
  ghost predicate FirstSpan(t: Table, k: nat, r: Option<SpanPtr>) {
    if r == None then forall x :: x in t ==> t[x].start < k
    else
      && r.value in t && t[r.value].start >= k && Boundary(t, t[r.value].End())
      && forall x :: x in t && x != r.value && t[x].start >= k ==> t[x].start >= t[r.value].End()
  }

  lemma NextIsFirstSpan(h: Heap, k: nat, r: Option<SpanPtr>)
    requires Layout(h) && Boundary(h.spans, k) && FoundNext(h.pagemap, k, r)
    ensures FirstSpan(h.spans, k, r)
  {
    if r == None {
      NoneAbove(h, k);
    } else {
      var p :| FirstMapped(h.pagemap, k, p) && h.pagemap[p] == r.value;
      FirstIsStart(h, k, p);
    }
  }

  /** The span that GetNextRange describes, found in a page map of two levels. From a page inside a span
      it is what the first mapped page names, which may be stale; from a boundary it is the next span. */
  method GetNextRange(heap: PageHeap, pages: PageMap2<SpanPtr>, k: nat) returns (r: Option<SpanPtr>)
    requires heap.Valid() && HoldsTwo(pages, heap.pagemap)
    ensures FoundNext(heap.pagemap, k, r)
    ensures Boundary(heap.spans, k) ==> FirstSpan(heap.spans, k, r)
  {
    r := pages.Next(k);
    NextOfTwoLevels(pages, heap.pagemap, k, r);
    if Boundary(heap.spans, k) { NextIsFirstSpan(heap.State(), k, r); }
  }

  /** ... and in one of three levels. */
  method GetNextRangeDeep(heap: PageHeap, pages: PageMap3<SpanPtr>, k: nat) returns (r: Option<SpanPtr>)
    requires heap.Valid() && HoldsThree(pages, heap.pagemap)
    ensures FoundNext(heap.pagemap, k, r)
    ensures Boundary(heap.spans, k) ==> FirstSpan(heap.spans, k, r)
  {
    r := pages.Next(k);
    NextOfThreeLevels(pages, heap.pagemap, k, r);
    if Boundary(heap.spans, k) { NextIsFirstSpan(heap.State(), k, r); }
  }

  /** `ranges` are the spans below `k`, in address order; those from `k` on are in `rest`. */
  ghost predicate Walked(t: Table, ranges: seq<SpanPtr>, rest: set<SpanPtr>, k: nat) {
    && (forall i :: 0 <= i < |ranges| ==> ranges[i] in t && t[ranges[i]].End() <= k)
    && (forall i, j {:trigger InOrder(t, ranges[i], ranges[j])} :: 0 <= i < j < |ranges| ==> InOrder(t, ranges[i], ranges[j]))
    && (forall s :: s in t && t[s].start < k ==> s in ranges)
    && (forall s :: s in t && t[s].start >= k ==> s in rest)
  }

  ghost predicate InOrder(t: Table, s: SpanPtr, x: SpanPtr) {
    s in t && x in t && t[s].End() <= t[x].start
  }

  lemma WalkedNext(t: Table, ranges: seq<SpanPtr>, rest: set<SpanPtr>, k: nat, s: SpanPtr)
    requires Disjoint(t) && Walked(t, ranges, rest, k) && s in t && t[s].start >= k
    requires forall x :: x in t && x != s && t[x].start >= k ==> t[x].start >= t[s].End()
    ensures Walked(t, ranges + [s], rest - {s}, t[s].End()) && s in rest
  {
    assert Proper(t[s]);
    var more := ranges + [s];
    forall i, j | 0 <= i < j < |more| ensures InOrder(t, more[i], more[j]) {
      if j < |ranges| { assert InOrder(t, ranges[i], ranges[j]); }
    }
  }

  /** Restarting just past each range lists every live span exactly once, in address order. */
  method Walk(heap: PageHeap, pages: PageMap2<SpanPtr>) returns (ranges: seq<SpanPtr>)
    requires heap.Valid() && HoldsTwo(pages, heap.pagemap)
    ensures forall s :: s in heap.spans <==> s in ranges
    ensures forall i, j :: 0 <= i < j < |ranges| ==> InOrder(heap.spans, ranges[i], ranges[j])
  {
    ranges := [];
    var k := 0;
    ghost var rest := heap.spans.Keys;
    while true
      invariant Boundary(heap.spans, k) && Walked(heap.spans, ranges, rest, k)
      decreases |rest|
    {
      var r := GetNextRange(heap, pages, k);
      if r == None { return; }
      var s := r.value;
      WalkedNext(heap.spans, ranges, rest, k, s);
      ranges := ranges + [s];
      rest := rest - {s};
      k := heap.spans[s].End();
    }
  }

  // ------------------------------------------------------------------ runs

  /** Allocate with a size class is how the central cache gets its spans; class 0 is a large object. */
  datatype Op =
    | Allocate(n: nat, sc: nat)
    | AllocateAligned(n: nat, align: nat)
    | Free(s: SpanPtr)
    | Release(n: nat)
    | SetAggressive(on: bool)

  /** What a client may ask for: lengths are positive 64-bit numbers. */
  predicate Sensible(op: Op) {
    match op
    case Allocate(n, sc) => 0 < n <= LENGTH_MAX
    case AllocateAligned(n, a) => 0 < n <= LENGTH_MAX && 0 < a <= LENGTH_MAX
    case _ => true
  }

  /** What the client holds, and what has passed between the heap and the system. */
  datatype Moment = Moment(held: Table, books: Ledger)

  /** One more span of `n` pages and this class is held; or none, because the system turned down a request
      for `m` pages or its pages were lost, there is a limit, or no system has `m` pages. */
  ghost predicate Took(now: Moment, next: Moment, n: nat, m: nat, sc: nat, align: nat, limit: nat)
    requires 0 < align
  {
    || (exists s :: Added(now.held, next.held, s, n, sc, align))
    || (next.held == now.held && (limit == 0 && m <= K_MAX_VALID_PAGES ==>
          TurnedDown(now.books.asked, next.books.asked, m, now.books.lost, next.books.lost)))
  }

  ghost predicate Added(held: Table, held': Table, s: SpanPtr, n: nat, sc: nat, align: nat)
    requires 0 < align
  {
    && s !in held && s in held' && held' == held[s := held'[s]]
    && held'[s].length == n && held'[s].location == InUse && held'[s].sizeclass == sc && Passes(held'[s].start, align)
  }

  /** What an operation does to what the client holds. */
  ghost predicate HeldAfter(now: Moment, op: Op, next: Moment, smallest: nat, limit: nat)
    requires Sensible(op) && 0 < smallest
  {
    match op
    case Allocate(n, sc) => Took(now, next, RoundUp(n, smallest), RoundUp(n, smallest), sc, 1, limit)
    case AllocateAligned(n, a) =>
      var k := RoundUp(n, smallest) + a;
      if k > LENGTH_MAX then next.held == now.held else Took(now, next, RoundUp(n, smallest), RoundUp(k, smallest), 0, a, limit)
    case Free(s) => next.held == now.held - {s}
    case _ => next.held == now.held
  }

  /** A whole run: the moments at the start, and after each operation. */
  ghost predicate History(ops: seq<Op>, trace: seq<Moment>, smallest: nat, limit: nat)
    requires (forall op :: op in ops ==> Sensible(op)) && 0 < smallest
  {
    && |trace| == |ops| + 1 && trace[0].held == map[]
    && forall i :: 0 <= i < |ops| ==> HeldAfter(trace[i], ops[i], trace[i + 1], smallest, limit)
  }

  /** The spans held share no page; the page map names each at its first and last page, and at every
      page when it has a size class. */
  ghost predicate ClientView(held: Table, pagemap: map<nat, SpanPtr>) {
    && (forall a, b :: a in held && b in held && a != b ==> Apart(held[a], held[b]))
    && (forall s :: s in held ==> Anchored(pagemap, s, held[s]))
  }

  lemma ValidView(h: Heap)
    requires Layout(h)
    ensures ClientView(UsedOf(h.spans), h.pagemap)
  {
    var held := UsedOf(h.spans);
    forall a, b | a in held && b in held && a != b ensures Apart(held[a], held[b]) { assert Apart(h.spans[a], h.spans[b]); }
    forall s | s in held ensures Anchored(h.pagemap, s, held[s]) { assert Anchored(h.pagemap, s, h.spans[s]); }
  }

  /** Any run of client operations in which a span is freed only while held. Without a limit a request fails
      only when the system turns it down or its pages are lost. A held span keeps its pages and its class until
      it is freed; the invariant holds throughout; the spans in use are exactly those held; and unless
      aggressive decommit was switched on no two neighbouring free spans share a location. */
  method Run(smallest: nat, limit: nat, ops: seq<Op>) returns (heap: PageHeap, held: Table, ghost trace: seq<Moment>)
    requires IsPower(smallest) && smallest <= K_MAX_VALID_PAGES
    requires forall op :: op in ops ==> Sensible(op)
    ensures heap.Valid() && History(ops, trace, smallest, limit) && trace[|ops|] == Moment(held, heap.Books())
    ensures held == UsedOf(heap.spans) && ClientView(held, heap.pagemap)
    ensures SetAggressive(true) !in ops ==> Coalesced(heap.spans)
    ensures heap.stats.committed + heap.stats.unmapped == heap.stats.system
  {
    heap := new PageHeap(smallest);
    heap.heapLimit := limit;
    held := map[];
    trace := [Moment(held, heap.Books())];
    assert UsedOf(heap.spans) == held;
    for i := 0 to |ops|
      invariant fresh(heap) && heap.Valid() && heap.smallestSpanSize == smallest && heap.heapLimit == limit
      invariant held == UsedOf(heap.spans)
      invariant |trace| == i + 1 && trace[0].held == map[] && trace[i] == Moment(held, heap.Books())
      invariant forall j :: 0 <= j < i ==> HeldAfter(trace[j], ops[j], trace[j + 1], smallest, limit)
      invariant SetAggressive(true) !in ops ==> !heap.aggressiveDecommit && Coalesced(heap.spans)
    {
      assert ops[i] in ops;
      held := Step(heap, ops[i], held);
      trace := trace + [Moment(held, heap.Books())];
    }
    ValidView(heap.State());
    ByteCounters(heap.State(), heap.system, heap.leaked);
  }

  method Step(heap: PageHeap, op: Op, held: Table) returns (held': Table)
    requires heap.Valid() && Sensible(op) && held == UsedOf(heap.spans)
    modifies heap
    ensures heap.Valid() && held' == UsedOf(heap.spans) && heap.heapLimit == old(heap.heapLimit)
    ensures HeldAfter(Moment(held, old(heap.Books())), op, Moment(held', heap.Books()), heap.smallestSpanSize, heap.heapLimit)
    ensures heap.aggressiveDecommit == (if op.SetAggressive? then op.on else old(heap.aggressiveDecommit))
    ensures !old(heap.aggressiveDecommit) && old(Coalesced(heap.spans)) ==> Coalesced(heap.spans)
  {
    held' := held;
    match op
    case Allocate(n, sc) =>
      held' := StepAllocate(heap, n, sc, held);
    case AllocateAligned(n, a) =>
      held' := StepAligned(heap, n, a, held);
    case Free(s) =>
      if s in held {
        ghost var scavenged := heap.DeleteLocked(s);
        held' := held - {s};
      } else {
        assert held - {s} == held;
      }
    case Release(n) =>
      var released, refused := heap.ReleaseAtLeastNPages(n);
    case SetAggressive(on) =>
      heap.aggressiveDecommit := on;
  }

  method StepAllocate(heap: PageHeap, n: nat, sc: nat, held: Table) returns (held': Table)
    requires heap.Valid() && 0 < n <= LENGTH_MAX && held == UsedOf(heap.spans)
    modifies heap
    ensures heap.Valid() && held' == UsedOf(heap.spans) && heap.heapLimit == old(heap.heapLimit)
    ensures HeldAfter(Moment(held, old(heap.Books())), Allocate(n, sc), Moment(held', heap.Books()), heap.smallestSpanSize, heap.heapLimit)
    ensures heap.aggressiveDecommit == old(heap.aggressiveDecommit)
    ensures !heap.aggressiveDecommit && old(Coalesced(heap.spans)) ==> Coalesced(heap.spans)
  {
    held' := held;
    var r := heap.NewWithSizeClass(n, sc);
    if r.Some? {
      assert heap.spans[r.value] == UsedOf(heap.spans)[r.value];
      held' := held[r.value := heap.spans[r.value]];
      assert Added(held, held', r.value, RoundUp(n, heap.smallestSpanSize), sc, 1);
    }
  }

  method StepAligned(heap: PageHeap, n: nat, align: nat, held: Table) returns (held': Table)
    requires heap.Valid() && 0 < n <= LENGTH_MAX && 0 < align <= LENGTH_MAX && held == UsedOf(heap.spans)
    modifies heap
    ensures heap.Valid() && held' == UsedOf(heap.spans) && heap.heapLimit == old(heap.heapLimit)
    ensures HeldAfter(Moment(held, old(heap.Books())), AllocateAligned(n, align), Moment(held', heap.Books()), heap.smallestSpanSize, heap.heapLimit)
    ensures heap.aggressiveDecommit == old(heap.aggressiveDecommit)
    ensures !heap.aggressiveDecommit && old(Coalesced(heap.spans)) ==> Coalesced(heap.spans)
  {
    held' := held;
    var r := heap.NewAligned(n, align);
    if r.Some? {
      assert heap.spans[r.value] == UsedOf(heap.spans)[r.value];
      held' := held[r.value := heap.spans[r.value]];
      assert Added(held, held', r.value, RoundUp(n, heap.smallestSpanSize), 0, align);
    }
  }
}
