/** Allocation steps: carving a free span, splitting a span in use, growing the heap. */
module HeapAlloc {
  import opened Wrappers
  import opened Spans
  import opened HeapState
  import opened HeapSteps
  import opened Arithmetic
  import opened Bits

  /** The free span `s` off its list, with its first `n` pages in use; a rest becomes the new span `r`,
      listed where `s` was. */
  ghost function Carved(h: Heap, s: SpanPtr, n: nat, r: SpanPtr): Heap
    requires s in h.spans && |h.lists.small| == K_MAX_PAGES && 0 < n <= h.spans[s].length
  {
    var l := h.spans[s].location;
    var u := Unlisted(h, s);
    var c := if n < h.spans[s].length then Listed(Divided(u, s, r, n, InUse, l), r) else Moved(u, s, InUse);
    if l == Returned then c.(stats := Committed(c.stats, n)) else c
  }

  ghost function CarvedTable(t: Table, s: SpanPtr, n: nat, r: SpanPtr): Table
    requires s in t && n <= t[s].length
  {
    var d := t[s];
    if n < d.length
    then t[s := d.(length := n, location := InUse)][r := Span(d.start + n, d.length - n, d.location, 0)]
    else t[s := d.(location := InUse, sizeclass := 0)]
  }

  ghost predicate Carvable(h: Heap, s: SpanPtr, n: nat, r: SpanPtr) {
    && s in h.spans && h.spans[s].location != InUse && 0 < n <= h.spans[s].length
    && |h.lists.small| == K_MAX_PAGES
    && (n < h.spans[s].length ==> r !in h.spans)
  }

  lemma DividedListing(u: Heap, f: Table, f': Table, s: SpanPtr, n: nat, r: SpanPtr, l: Location)
    requires Listing(u, f) && s in u.spans && 0 < n < u.spans[s].length && r !in f && l != InUse
    requires f' == f[r := Divided(u, s, r, n, InUse, l).spans[r]]
    ensures Listing(Listed(Divided(u, s, r, n, InUse, l), r), f')
  {
    ListedListing(Divided(u, s, r, n, InUse, l), f, r);
  }

  lemma CarvedFree(t: Table, s: SpanPtr, n: nat, r: SpanPtr)
    requires s in t && 0 < n <= t[s].length && t[s].location != InUse && (n < t[s].length ==> r !in t)
    ensures n < t[s].length ==>
              FreeOf(CarvedTable(t, s, n, r)) == (FreeOf(t) - {s})[r := Span(t[s].start + n, t[s].length - n, t[s].location, 0)]
    ensures n == t[s].length ==> FreeOf(CarvedTable(t, s, n, r)) == FreeOf(t) - {s}
  {
  }

  lemma CommittedListing(h: Heap, f: Table, n: nat)
    requires Listing(h, f)
    ensures Listing(h.(stats := Committed(h.stats, n)), f)
  {
  }

  lemma CarvedSplitListing(h: Heap, s: SpanPtr, n: nat, r: SpanPtr)
    requires Carvable(h, s, n, r) && Listing(h, FreeOf(h.spans)) && n < h.spans[s].length
    ensures Listing(Listed(Divided(Unlisted(h, s), s, r, n, InUse, h.spans[s].location), r),
                    FreeOf(CarvedTable(h.spans, s, n, r)))
  {
    UnlistedListing(h, FreeOf(h.spans), s);
    CarvedFree(h.spans, s, n, r);
    DividedListing(Unlisted(h, s), FreeOf(h.spans) - {s}, FreeOf(CarvedTable(h.spans, s, n, r)), s, n, r, h.spans[s].location);
  }

  lemma CarvedListing(h: Heap, s: SpanPtr, n: nat, r: SpanPtr)
    requires Carvable(h, s, n, r) && Listing(h, FreeOf(h.spans))
    ensures Listing(Carved(h, s, n, r), FreeOf(CarvedTable(h.spans, s, n, r)))
  {
    var f' := FreeOf(CarvedTable(h.spans, s, n, r));
    if n < h.spans[s].length {
      CarvedSplitListing(h, s, n, r);
      CommittedListing(Listed(Divided(Unlisted(h, s), s, r, n, InUse, h.spans[s].location), r), f', n);
    } else {
      UnlistedListing(h, FreeOf(h.spans), s);
      CarvedFree(h.spans, s, n, r);
      CommittedListing(Unlisted(h, s), f', n);
    }
  }

  lemma CarvedLayout(h: Heap, s: SpanPtr, n: nat, r: SpanPtr)
    requires Carvable(h, s, n, r) && Layout(h)
    ensures Layout(Carved(h, s, n, r)) && Pages(CarvedTable(h.spans, s, n, r)) == Pages(h.spans)
  {
    var u := Unlisted(h, s);
    assert Proper(h.spans[s]);
    if n < h.spans[s].length {
      DividedLayout(u, s, r, n, InUse, h.spans[s].location);
    } else {
      MovedLayout(u, s, InUse);
      MovedTable(h.spans, s, InUse);
    }
  }

  lemma CarvedSums(t: Table, s: SpanPtr, n: nat, r: SpanPtr, l: Location)
    requires s in t && 0 < n <= t[s].length && t[s].location != InUse && (n < t[s].length ==> r !in t)
    ensures Sum(CarvedTable(t, s, n, r), l) ==
            Sum(t, l) + (if l == InUse then n else 0) - (if l == t[s].location then n else 0)
  {
    if n < t[s].length { DividedTable(t, s, r, n, InUse, t[s].location); } else { MovedTable(t, s, InUse); }
  }

  lemma CarvedAccounts(h: Heap, s: SpanPtr, n: nat, r: SpanPtr, leaked: nat)
    requires Carvable(h, s, n, r) && Accounts(h.stats, h.spans, leaked)
    ensures Accounts(Carved(h, s, n, r).stats, CarvedTable(h.spans, s, n, r), leaked)
  {
    CarvedSums(h.spans, s, n, r, InUse);
    CarvedSums(h.spans, s, n, r, Normal);
    CarvedSums(h.spans, s, n, r, Returned);
  }

  /** Carve keeps the invariant. */
  lemma CarvedInv(h: Heap, system: set<nat>, leaked: nat, s: SpanPtr, n: nat, r: SpanPtr)
    requires Inv(h, system, leaked) && Carvable(h, s, n, r)
    ensures Inv(Carved(h, s, n, r), system, leaked) && Carved(h, s, n, r).spans == CarvedTable(h.spans, s, n, r)
  {
    var g := Carved(h, s, n, r);
    assert g.spans == CarvedTable(h.spans, s, n, r) by {
      assert Proper(h.spans[s]);
      CarvedSpans(h, s, n, r);
    }
    assert Listing(g, FreeOf(g.spans)) by { CarvedListing(h, s, n, r); }
    assert Layout(g) && Pages(g.spans) == system by { CarvedLayout(h, s, n, r); }
    assert Accounts(g.stats, g.spans, leaked) by { CarvedAccounts(h, s, n, r, leaked); }
  }

  lemma CarvedSpans(h: Heap, s: SpanPtr, n: nat, r: SpanPtr)
    requires Carvable(h, s, n, r) && h.spans[s].sizeclass == 0
    ensures Carved(h, s, n, r).spans == CarvedTable(h.spans, s, n, r)
  {
  }

  /** Carve hands out exactly the first `n` pages and touches no other span. */
  lemma CarvedParts(t: Table, s: SpanPtr, n: nat, r: SpanPtr)
    requires s in t && 0 < n <= t[s].length && t[s].location != InUse && t[s].sizeclass == 0 && (n < t[s].length ==> r !in t)
    ensures UsedOf(CarvedTable(t, s, n, r)) == UsedOf(t)[s := Span(t[s].start, n, InUse, 0)]
    ensures s !in UsedOf(t)
  {
  }

  /** The rest of a carved span needs no coalescing: its right neighbour was already settled against `s`. */
  lemma CarvedCoalesced(t: Table, s: SpanPtr, n: nat, r: SpanPtr)
    requires Disjoint(t) && s in t && 0 < n <= t[s].length && t[s].location != InUse && (n < t[s].length ==> r !in t)
    requires Coalesced(t)
    ensures Coalesced(CarvedTable(t, s, n, r))
  {
    var t' := CarvedTable(t, s, n, r);
    assert Proper(t[s]);
    forall a, b | a in t' && b in t' ensures Differ(t'[a], t'[b]) {
      if n < t[s].length && a == r {
        if b != r && b != s { assert Differ(t[s], t[b]); }
      } else if n < t[s].length && b == r {
        if a != s { assert Apart(t[a], t[s]) && Proper(t[a]); }
      } else {
        assert Differ(t[a], t[b]);
      }
    }
  }

  // ------------------------------------------------------------------ what allocation and freeing change

  /** Spans in use are untouched; outside aggressive mode maximal coalescing is kept. */
  ghost predicate Kept(t: Table, t': Table, aggressive: bool) {
    UsedOf(t') == UsedOf(t) && (!aggressive && Coalesced(t) ==> Coalesced(t'))
  }

  /** `s` was not in use and now is, with exactly `n` pages; nothing else in use changed. */
  ghost predicate Allocated(t: Table, t': Table, s: SpanPtr, n: nat, aggressive: bool) {
    && s !in UsedOf(t) && s in t'
    && UsedOf(t') == UsedOf(t)[s := Span(t'[s].start, n, InUse, 0)]
    && (!aggressive && Coalesced(t) ==> Coalesced(t'))
  }

  /** `s` was in use and its pages are free now; nothing else in use changed and no returned page
      became normal. */
  ghost predicate Freed(t: Table, t': Table, s: SpanPtr, aggressive: bool) {
    && s in UsedOf(t) && UsedOf(t') == UsedOf(t) - {s}
    && PagesAt(t', Normal) + PagesAt(t', Returned) == PagesAt(t, Normal) + PagesAt(t, Returned) + Range(t[s])
    && PagesAt(t, Returned) <= PagesAt(t', Returned)
    && (exists y :: Covers(t', y, t[s]))
    && (!aggressive && Coalesced(t) ==> Coalesced(t'))
  }

  /** What a growth does to the pages of the system: nothing, the granted run more, or that many lost. */
  ghost predicate GrownBy(system: set<nat>, leaked: nat, system': set<nat>, leaked': nat, n: nat, ok: bool, granted: Option<(nat, nat)>) {
    match granted
    case None => !ok && system' == system && leaked' == leaked
    case Some((p, k)) =>
      && n <= k && Range(Span(p, k, InUse, 0)) !! system
      && (if ok then system' == system + Range(Span(p, k, InUse, 0)) && leaked' == leaked
          else system' == system && leaked' == leaked + k)
  }

  lemma KeptSame(t: Table, aggressive: bool)
    ensures Kept(t, t, aggressive)
  {
  }

  lemma KeptTwice(a: Table, b: Table, c: Table, aggressive: bool)
    requires Kept(a, b, aggressive) && Kept(b, c, aggressive)
    ensures Kept(a, c, aggressive)
  {
  }

  lemma ReleasedKeeps(t: Table, t': Table, n: nat, aggressive: bool)
    requires Released(t, t', n, aggressive)
    ensures Kept(t, t', aggressive)
  {
  }

  lemma KeptThenAllocated(a: Table, b: Table, c: Table, s: SpanPtr, n: nat, aggressive: bool)
    requires Kept(a, b, aggressive) && Allocated(b, c, s, n, aggressive)
    ensures Allocated(a, c, s, n, aggressive)
  {
  }

  lemma CarvedAllocates(t: Table, s: SpanPtr, n: nat, r: SpanPtr, aggressive: bool)
    requires Disjoint(t) && s in t && 0 < n <= t[s].length && t[s].location != InUse && (n < t[s].length ==> r !in t)
    ensures Allocated(t, CarvedTable(t, s, n, r), s, n, aggressive)
  {
    assert Proper(t[s]);
    CarvedParts(t, s, n, r);
    if Coalesced(t) { CarvedCoalesced(t, s, n, r); }
  }

  // ------------------------------------------------------------------ freeing

  lemma MovedFrees(t: Table, s: SpanPtr)
    requires s in t && t[s].location == InUse
    ensures var t' := t[s := t[s].(location := Normal, sizeclass := 0)];
            && UsedOf(t') == UsedOf(t) - {s}
            && PagesAt(t', Normal) == PagesAt(t, Normal) + Range(t[s]) && PagesAt(t', Returned) == PagesAt(t, Returned)
  {
    var t' := t[s := t[s].(location := Normal, sizeclass := 0)];
    assert t' - {s} == t - {s};
    assert PagesAt(t', Normal) == PagesAt(t, Normal) + Range(t[s]) by {
      RangeSame(t[s], t'[s]);
      PagesAtPeel(t, s, Normal);
      PagesAtPeel(t', s, Normal);
    }
    assert PagesAt(t', Returned) == PagesAt(t, Returned) by {
      PagesAtPeel(t, s, Returned);
      PagesAtPeel(t', s, Returned);
    }
  }

  /** DeleteLocked without its scavenging. */
  lemma FreedOne(h: Heap, via: (Heap, Heap, Heap), g: Heap, system: set<nat>, leaked: nat, s: SpanPtr, aggressive: bool)
    requires Inv(h, system, leaked) && s in h.spans && h.spans[s].location == InUse
    requires MergeRun(Moved(h, s, Normal), via, g, s, aggressive)
    ensures Inv(g, system, leaked) && Freed(h.spans, g.spans, s, aggressive)
  {
    var m := Moved(h, s, Normal);
    assert InHand(m, system, leaked, s) by { FreedInHand(h, system, leaked, s); }
    WholeMerge(m, via, g, system, leaked, s, aggressive);
    FreedShape(h.spans, g.spans, s, aggressive);
  }

  lemma FreedShape(t: Table, t': Table, s: SpanPtr, aggressive: bool)
    requires s in t && t[s].location == InUse
    requires var m := t[s := t[s].(location := Normal, sizeclass := 0)];
             Reshaped(m, t', aggressive) && (!aggressive && CoalescedBut(m, s) ==> Coalesced(t'))
    ensures Freed(t, t', s, aggressive)
  {
    var m := t[s := t[s].(location := Normal, sizeclass := 0)];
    MovedFrees(t, s);
    assert IsFree(m, s);
    var y :| Covers(t', y, m[s]);
    assert Covers(t', y, t[s]);
    if Coalesced(t) { CoalescedLeave(t, m, s); }
  }

  /** `s` is free and, when short, first on the list of its length and location. */
  ghost predicate FirstOfList(h: Heap, s: SpanPtr) {
    && s in h.spans && h.spans[s].location != InUse && |h.lists.small| == K_MAX_PAGES
    && (0 < h.spans[s].length <= K_MAX_PAGES ==>
          Shortlist(h.lists, h.spans[s]) != [] && Shortlist(h.lists, h.spans[s])[0] == s)
  }

  predicate Touching(x: Span, y: Span) { x.End() == y.start || y.End() == x.start }

  /** The free spans on either side of `s` are part of it now, and it is returned. */
  ghost predicate SwallowedAll(t: Table, t': Table, s: SpanPtr) {
    && s in t && s in t' && t'[s].location == Returned
    && forall q {:trigger q in t'} :: q in t && q != s && t[q].location != InUse && Touching(t[q], t[s]) ==> q !in t'
  }

  lemma FreedSwallows(h: Heap, via: (Heap, Heap, Heap), g: Heap, system: set<nat>, leaked: nat, s: SpanPtr)
    requires Inv(h, system, leaked) && s in h.spans && h.spans[s].location == InUse
    requires MergeRun(Moved(h, s, Normal), via, g, s, true) && Denials(Moved(h, s, Normal), via, s, true) == 0
    ensures SwallowedAll(h.spans, g.spans, s)
  {
    var m := Moved(h, s, Normal);
    FreedInHand(h, system, leaked, s);
    forall q | q in h.spans && q != s && h.spans[q].location != InUse && Touching(h.spans[q], h.spans[s]) ensures q !in g.spans {
      AggressiveAbsorbs(m, via, g, system, leaked, s, q);
    }
    MergeReturns(m, via, g, s);
  }

  /** A span freed last is the first to go: the best fit is `s` when nothing that fits is shorter. */
  lemma LastFreedFirst(h: Heap, s: SpanPtr, n: nat, r: SpanPtr)
    requires FirstOfList(h, s) && h.spans[s].location == Normal && 0 < n <= h.spans[s].length <= K_MAX_PAGES
    requires forall x :: Fits(h.spans, x, n) ==> h.spans[s].length <= h.spans[x].length
    requires BestFit(h, r, n)
    ensures r == s
  {
    assert Fits(h.spans, s, n);
  }

  lemma FreedThenReleased(a: Table, b: Table, c: Table, s: SpanPtr, n: nat, aggressive: bool)
    requires Freed(a, b, s, aggressive) && Released(b, c, n, aggressive)
    ensures Freed(a, c, s, aggressive)
  {
    var y :| Covers(b, y, a[s]);
    assert IsFree(b, y);
    var z :| Covers(c, z, b[y]);
    assert Covers(c, z, a[s]);
  }

  // ------------------------------------------------------------------ growing

  function Grown(st: Stats, n: nat): Stats {
    var bytes := K_PAGE_SIZE * n;
    st.(system := st.system + bytes, committed := st.committed + bytes,
        totalCommit := st.totalCommit + bytes, totalReserve := st.totalReserve + bytes)
  }

  lemma GrownInv(h: Heap, system: set<nat>, leaked: nat, s: SpanPtr, d: Span)
    requires Inv(h, system, leaked) && s !in h.spans && d.location == InUse && d.sizeclass == 0 && 0 < d.start && 0 < d.length
    requires Range(d) !! system
    ensures Inv(Recorded(h, s, d).(stats := Grown(h.stats, d.length)), system + Range(d), leaked)
  {
    var g := Recorded(h, s, d).(stats := Grown(h.stats, d.length));
    assert Layout(Recorded(h, s, d)) by { RecordedLayout(h, s, d); }
    RecordedDisjoint(h.spans, s, d);
    assert FreeOf(g.spans) == FreeOf(h.spans);
  }

  lemma LostInv(h: Heap, system: set<nat>, leaked: nat, n: nat)
    requires Inv(h, system, leaked)
    ensures Inv(h.(stats := Grown(h.stats, n)), system, leaked + n)
  {
  }

  lemma GrownKeeps(t: Table, s: SpanPtr, d: Span)
    requires s !in t && d.location == InUse
    ensures UsedOf(t[s := d]) == UsedOf(t)[s := d] && s !in UsedOf(t)
    ensures Coalesced(t) ==> Coalesced(t[s := d])
  {
    if Coalesced(t) {
      var t' := t[s := d];
      forall a, b | a in t' && b in t' ensures Differ(t'[a], t'[b]) { if a != s && b != s { assert Differ(t[a], t[b]); } }
    }
  }

  /** Recording a span and freeing it again leaves the spans in use as they were. */
  lemma FreedGrown(t: Table, t': Table, s: SpanPtr, d: Span, aggressive: bool)
    requires s !in t && d.location == InUse && Freed(t[s := d], t', s, aggressive)
    ensures Kept(t, t', aggressive)
  {
    GrownKeeps(t, s, d);
    assert UsedOf(t)[s := d] - {s} == UsedOf(t);
  }

  // ------------------------------------------------------------------ best fit

  /** A free span that can hold `n` pages. */
  ghost predicate Fits(t: Table, x: SpanPtr, n: nat) {
    x in t && t[x].location != InUse && t[x].length >= n
  }

  ghost predicate NoFit(t: Table, n: nat) {
    forall x :: !Fits(t, x, n)
  }

  ghost predicate NoFitAbove(t: Table, n: nat) {
    forall x :: Fits(t, x, n) ==> t[x].length <= K_MAX_PAGES
  }

  /** The first span on the list for its length and location. */
  ghost predicate Front(q: FreeLists, s: SpanPtr, d: Span) {
    && |q.small| == K_MAX_PAGES && 0 < d.length <= K_MAX_PAGES
    && var l := q.small[d.length - 1];
       if d.location == Normal then l.normal != [] && l.normal[0] == s else l.returned != [] && l.returned[0] == s
  }

  /** The span a request for `n` pages is cut from: the shortest that fits; among short ones of equal
      length a normal one before a returned one and the most recently freed first, among large ones of
      equal length the lowest address, whatever its location. */
  ghost predicate BestFit(h: Heap, s: SpanPtr, n: nat) {
    && Fits(h.spans, s, n)
    && (forall x :: Fits(h.spans, x, n) ==> h.spans[s].length <= h.spans[x].length)
    && (h.spans[s].length <= K_MAX_PAGES ==>
          && Front(h.lists, s, h.spans[s])
          && (h.spans[s].location == Normal ||
              forall x :: Fits(h.spans, x, n) && h.spans[x].length == h.spans[s].length ==> h.spans[x].location == Returned))
    && (h.spans[s].length > K_MAX_PAGES ==>
          forall x :: Fits(h.spans, x, n) && h.spans[x].length == h.spans[s].length ==> h.spans[s].start <= h.spans[x].start)
  }

  /** No free span has a length in [n, m). */
  ghost predicate NoneBetween(t: Table, n: nat, m: nat) {
    forall x :: Fits(t, x, n) ==> t[x].length >= m
  }

  lemma EmptyLists(h: Heap, system: set<nat>, leaked: nat, n: nat, m: nat)
    requires Inv(h, system, leaked) && NoneBetween(h.spans, n, m) && 0 < n <= m <= K_MAX_PAGES
    requires |h.lists.small| == K_MAX_PAGES && h.lists.small[m - 1].normal == [] && h.lists.small[m - 1].returned == []
    ensures NoneBetween(h.spans, n, m + 1)
  {
    var f := FreeOf(h.spans);
    forall x | Fits(h.spans, x, n) ensures h.spans[x].length >= m + 1 {
      assert x in f && x !in h.lists.small[m - 1].normal && x !in h.lists.small[m - 1].returned;
    }
  }

  /** The head of a short list, when nothing shorter fits, is the best fit. */
  lemma ShortBest(h: Heap, system: set<nat>, leaked: nat, n: nat, m: nat, s: SpanPtr)
    requires Inv(h, system, leaked) && NoneBetween(h.spans, n, m) && 0 < n <= m <= K_MAX_PAGES && |h.lists.small| == K_MAX_PAGES
    requires var l := h.lists.small[m - 1];
             || (l.normal != [] && s == l.normal[0])
             || (l.normal == [] && l.returned != [] && s == l.returned[0])
    ensures BestFit(h, s, n) && h.spans[s].length == m
  {
    var f := FreeOf(h.spans);
    var l := h.lists.small[m - 1];
    if l.normal != [] {
      assert s in l.normal;
    } else {
      assert s in l.returned;
      forall x | Fits(h.spans, x, n) && h.spans[x].length == m ensures h.spans[x].location == Returned {
        assert x in f && (f[x].location == Normal ==> x in l.normal);
      }
    }
  }

  /** What upper_bound yields on a set of large spans for a bound of `n` pages at address zero. */
  predicate Upper(q: set<SpanPtr>, t: Table, n: nat, s: SpanPtr)
    requires forall x :: x in q ==> x in t
  {
    s in q && t[s].length >= n && forall x :: x in q && t[x].length >= n ==> !BestFitLess(t[x], t[s])
  }

  lemma UpperExists(q: set<SpanPtr>, t: Table, n: nat, x: SpanPtr)
    requires (forall y :: y in q ==> y in t) && x in q && t[x].length >= n
    ensures exists s :: Upper(q, t, n, s)
  {
    var r := set y | y in q && t[y].length >= n;
    assert x in r;
    LeastExists(r, t);
    var s :| Least(r, t, s);
    assert Upper(q, t, n, s);
  }

  lemma LargeKnown(h: Heap, system: set<nat>, leaked: nat)
    requires Inv(h, system, leaked)
    ensures forall x :: x in h.lists.largeNormal ==> x in h.spans && h.spans[x].location == Normal && h.spans[x].length > K_MAX_PAGES
    ensures forall x :: x in h.lists.largeReturned ==> x in h.spans && h.spans[x].location == Returned && h.spans[x].length > K_MAX_PAGES
    ensures forall x :: x in h.spans && h.spans[x].location == Normal && h.spans[x].length > K_MAX_PAGES ==> x in h.lists.largeNormal
    ensures forall x :: x in h.spans && h.spans[x].location == Returned && h.spans[x].length > K_MAX_PAGES ==> x in h.lists.largeReturned
  {
    var f := FreeOf(h.spans);
    assert forall x :: x in h.spans && h.spans[x].location != InUse ==> x in f && f[x] == h.spans[x];
  }

  /** The best large span overall. */
  ghost predicate LargeBest(t: Table, s: SpanPtr, n: nat) {
    && Fits(t, s, n) && t[s].length > K_MAX_PAGES
    && forall x :: Fits(t, x, n) && t[x].length > K_MAX_PAGES ==> !BestFitLess(t[x], t[s])
  }

  lemma OnShortList(h: Heap, system: set<nat>, leaked: nat, m: nat, l: Location, s: SpanPtr)
    requires Inv(h, system, leaked) && 0 < m <= K_MAX_PAGES && |h.lists.small| == K_MAX_PAGES
    requires (l == Normal && s in h.lists.small[m - 1].normal) || (l == Returned && s in h.lists.small[m - 1].returned)
    ensures s in h.spans && h.spans[s].location == l && h.spans[s].length == m
  {
  }

  // ------------------------------------------------------------------ splitting and registering

  /** Split: both parts stay in use. */
  lemma SplitInv(h: Heap, system: set<nat>, leaked: nat, s: SpanPtr, r: SpanPtr, n: nat)
    requires Inv(h, system, leaked) && s in h.spans && r !in h.spans && 0 < n < h.spans[s].length
    requires h.spans[s].location == InUse && h.spans[s].sizeclass == 0
    ensures Inv(Divided(h, s, r, n, InUse, InUse), system, leaked)
  {
    DividedLayout(h, s, r, n, InUse, InUse);
    SplitListing(h, s, r, n);
    SplitAccounts(h, leaked, s, r, n);
  }

  lemma SplitListing(h: Heap, s: SpanPtr, r: SpanPtr, n: nat)
    requires Listing(h, FreeOf(h.spans)) && s in h.spans && r !in h.spans && 0 < n < h.spans[s].length && h.spans[s].location == InUse
    ensures Listing(Divided(h, s, r, n, InUse, InUse), FreeOf(Divided(h, s, r, n, InUse, InUse).spans))
  {
    assert FreeOf(Divided(h, s, r, n, InUse, InUse).spans) == FreeOf(h.spans);
  }

  lemma SplitAccounts(h: Heap, leaked: nat, s: SpanPtr, r: SpanPtr, n: nat)
    requires Accounts(h.stats, h.spans, leaked) && s in h.spans && r !in h.spans && 0 < n < h.spans[s].length && h.spans[s].location == InUse
    ensures Accounts(h.stats, Divided(h, s, r, n, InUse, InUse).spans, leaked)
  {
    DividedTable(h.spans, s, r, n, InUse, InUse);
  }

  /** The table after Split(s, n) with `r` as the new descriptor. */
  ghost function SplitTable(t: Table, s: SpanPtr, r: SpanPtr, n: nat): Table
    requires s in t && 0 < n < t[s].length
  {
    t[s := t[s].(length := n)][r := Span(t[s].start + n, t[s].length - n, InUse, 0)]
  }

  lemma SplitParts(t: Table, s: SpanPtr, r: SpanPtr, n: nat)
    requires s in t && r !in t && 0 < n < t[s].length && t[s].location == InUse
    ensures var t' := SplitTable(t, s, r, n);
            && UsedOf(t') == UsedOf(t)[s := t'[s]][r := t'[r]]
            && (Coalesced(t) ==> Coalesced(t'))
  {
    if Coalesced(t) {
      var t' := SplitTable(t, s, r, n);
      forall a, b | a in t' && b in t' ensures Differ(t'[a], t'[b]) {
        if a != s && a != r && b != s && b != r { assert Differ(t[a], t[b]); }
      }
    }
  }

  /** Of a new entry split in two, one part goes again: the other is the new entry. */
  lemma SplitThenFreed(u: Table, s: SpanPtr, r: SpanPtr, x: Span, y: Span, z: Span)
    requires s !in u && r !in u && s != r
    ensures u[s := z][s := x][r := y] - {s} == u[r := y]
    ensures u[s := z][s := x][r := y] - {r} == u[s := x]
  {
  }

  /** Dropping the first `k` pages of the span just allocated: the rest is what is allocated. */
  lemma TrimmedFront(t0: Table, t1: Table, t2: Table, s: SpanPtr, r: SpanPtr, k: nat, aggressive: bool)
    requires s in t1 && Allocated(t0, t1, s, t1[s].length, aggressive) && r !in t1 && 0 < k < t1[s].length
    requires Freed(SplitTable(t1, s, r, k), t2, s, aggressive)
    ensures r in t2 && t2[r] == Span(t1[s].start + k, t1[s].length - k, InUse, 0)
    ensures Allocated(t0, t2, r, t2[r].length, aggressive)
  {
    AllocatedIs(t0, t1, s, t1[s].length, aggressive);
    var m := SplitTable(t1, s, r, k);
    SplitParts(t1, s, r, k);
    assert r !in UsedOf(t0) by { assert r !in UsedOf(t1); }
    SplitThenFreed(UsedOf(t0), s, r, m[s], m[r], t1[s]);
    assert UsedOf(t2) == UsedOf(t0)[r := m[r]];
    assert r in UsedOf(t2) && UsedOf(t2)[r] == m[r];
  }

  /** Dropping the pages behind the first `k`. */
  lemma TrimmedBack(t0: Table, t1: Table, t2: Table, s: SpanPtr, r: SpanPtr, k: nat, aggressive: bool)
    requires s in t1 && Allocated(t0, t1, s, t1[s].length, aggressive) && r !in t1 && 0 < k < t1[s].length
    requires Freed(SplitTable(t1, s, r, k), t2, r, aggressive)
    ensures s in t2 && t2[s] == Span(t1[s].start, k, InUse, 0)
    ensures Allocated(t0, t2, s, t2[s].length, aggressive)
  {
    AllocatedIs(t0, t1, s, t1[s].length, aggressive);
    var m := SplitTable(t1, s, r, k);
    SplitParts(t1, s, r, k);
    assert r !in UsedOf(t0) by { assert r !in UsedOf(t1); }
    SplitThenFreed(UsedOf(t0), s, r, m[s], m[r], t1[s]);
    assert UsedOf(t2) == UsedOf(t0)[s := m[s]];
    assert s in UsedOf(t2) && UsedOf(t2)[s] == m[s];
  }

  lemma AllocatedIs(t: Table, t': Table, s: SpanPtr, n: nat, aggressive: bool)
    requires Allocated(t, t', s, n, aggressive)
    ensures t'[s] == Span(t'[s].start, n, InUse, 0)
  {
    assert s in UsedOf(t') && UsedOf(t')[s] == t'[s];
  }

  /** The page map `m'` is `m` with every page of `d` naming `s`. */
  ghost predicate Filled(m: map<nat, SpanPtr>, m': map<nat, SpanPtr>, d: Span, s: SpanPtr) {
    && (forall p: nat :: d.Has(p) ==> p in m' && m'[p] == s)
    && (forall p: nat :: !d.Has(p) && p in m ==> p in m' && m'[p] == m[p])
    && (forall p: nat :: !d.Has(p) && p in m' ==> p in m)
  }

  lemma FilledElsewhere(m: map<nat, SpanPtr>, m': map<nat, SpanPtr>, d: Span, s: SpanPtr, x: SpanPtr, e: Span)
    requires Filled(m, m', d, s) && Anchored(m, x, e) && Apart(e, d) && Proper(e)
    ensures Anchored(m', x, e) && Proper(e)
  {
    assert !d.Has(e.start) && !d.Has(e.End() - 1);
    if e.sizeclass > 0 {
      forall p: nat | e.Has(p) ensures p in m' && m'[p] == x { assert !d.Has(p); }
    }
  }

  /** A span in use whose pages all name it can be given a size class. */
  lemma RegisteredLayout(h: Heap, g: Heap, s: SpanPtr, sc: nat)
    requires Layout(h) && s in h.spans && h.spans[s].location == InUse
    requires g.spans == h.spans[s := h.spans[s].(sizeclass := sc)] && Filled(h.pagemap, g.pagemap, h.spans[s], s)
    ensures Layout(g) && Pages(g.spans) == Pages(h.spans)
  {
    var d := h.spans[s];
    assert Proper(d);
    forall x | x in g.spans ensures Proper(g.spans[x]) && Anchored(g.pagemap, x, g.spans[x]) {
      if x != s {
        assert Proper(h.spans[x]) && Anchored(h.pagemap, x, h.spans[x]) && Apart(h.spans[x], d);
        FilledElsewhere(h.pagemap, g.pagemap, d, s, x, h.spans[x]);
      } else {
        forall p: nat | d.Has(p) ensures p in g.pagemap && g.pagemap[p] == s { }
        assert d.Has(d.start) && d.Has(d.End() - 1);
      }
    }
    forall x, y | x in g.spans && y in g.spans && x != y ensures Apart(g.spans[x], g.spans[y]) {
      assert Apart(h.spans[x], h.spans[y]);
    }
    assert g.spans - {s} == h.spans - {s};
    PagesPeel(h.spans, s);
    PagesPeel(g.spans, s);
    RangeSame(h.spans[s], g.spans[s]);
    forall p | p in g.pagemap ensures p in Pages(h.spans) {
      if d.Has(p) { HasPage(h.spans, s, p); }
    }
  }

  lemma RegisteredInv(h: Heap, g: Heap, system: set<nat>, leaked: nat, s: SpanPtr, sc: nat)
    requires Inv(h, system, leaked) && s in h.spans && h.spans[s].location == InUse
    requires g.spans == h.spans[s := h.spans[s].(sizeclass := sc)] && Filled(h.pagemap, g.pagemap, h.spans[s], s)
    requires g.lists == h.lists && g.stats == h.stats
    ensures Inv(g, system, leaked)
  {
    assert Layout(g) && Pages(g.spans) == system by { RegisteredLayout(h, g, s, sc); }
    assert FreeOf(g.spans) == FreeOf(h.spans);
    assert g.spans - {s} == h.spans - {s};
    SumPeel(h.spans, s, InUse);
    SumPeel(g.spans, s, InUse);
    SumPeel(h.spans, s, Normal);
    SumPeel(g.spans, s, Normal);
    SumPeel(h.spans, s, Returned);
    SumPeel(g.spans, s, Returned);
  }

  lemma RegisteredUsed(t: Table, s: SpanPtr, sc: nat)
    requires s in t && t[s].location == InUse
    ensures UsedOf(t[s := t[s].(sizeclass := sc)]) == UsedOf(t)[s := t[s].(sizeclass := sc)]
    ensures Coalesced(t) ==> Coalesced(t[s := t[s].(sizeclass := sc)])
  {
    var t' := t[s := t[s].(sizeclass := sc)];
    if Coalesced(t) {
      forall a, b | a in t' && b in t' ensures Differ(t'[a], t'[b]) { assert Differ(t[a], t[b]); }
    }
  }

  // ------------------------------------------------------------------ rounding

  /** The largest value of Length. */
  const LENGTH_MAX: nat := 0xFFFF_FFFF_FFFF_FFFF

  /** A sum of lengths on 64 bits. */
  function Word64(x: nat): nat { x % (LENGTH_MAX + 1) }

  /** RoundUpSize in 64-bit arithmetic; `k` is the smallest span size. */
  function RoundUp(n: nat, k: nat): nat
    requires 0 < k
  {
    var up := Cleared(Word64(n + k - 1), k - 1);
    if up < n then Cleared(LENGTH_MAX, k - 1) else up
  }

  lemma ClearedBelow(x: nat, k: nat)
    requires IsPower(k)
    ensures x - k < Cleared(x, k - 1) <= x && Cleared(x, k - 1) % k == 0
  {
    MaskIsRemainder(x, k);
    FloorMultiple(x, k);
  }

  /** The least multiple of `k` that is at least `n`, unless 64 bits cannot hold the sum; then the
      largest multiple there is. */
  lemma RoundUpSpec(n: nat, k: nat)
    requires IsPower(k) && k <= LENGTH_MAX && n <= LENGTH_MAX
    ensures RoundUp(n, k) % k == 0 && RoundUp(n, k) <= LENGTH_MAX
    ensures n + k - 1 <= LENGTH_MAX ==> n <= RoundUp(n, k) < n + k
    ensures n + k - 1 > LENGTH_MAX ==> RoundUp(n, k) > LENGTH_MAX - k
    ensures n > 0 ==> RoundUp(n, k) > 0
  {
    if n + k - 1 <= LENGTH_MAX { RoundUpFits(n, k); } else { RoundUpWraps(n, k); }
  }

  lemma RoundUpFits(n: nat, k: nat)
    requires IsPower(k) && n + k - 1 <= LENGTH_MAX
    ensures RoundUp(n, k) % k == 0 && n <= RoundUp(n, k) < n + k && RoundUp(n, k) <= LENGTH_MAX
  {
    Stays(n + k - 1);
    ClearedBelow(n + k - 1, k);
  }

  lemma RoundUpWraps(n: nat, k: nat)
    requires IsPower(k) && k <= LENGTH_MAX && n <= LENGTH_MAX && n + k - 1 > LENGTH_MAX
    ensures RoundUp(n, k) % k == 0 && LENGTH_MAX - k < RoundUp(n, k) <= LENGTH_MAX
  {
    var sum := n + k - 1;
    Wraps(sum);
    ClearedBelow(sum - (LENGTH_MAX + 1), k);
    ClearedBelow(LENGTH_MAX, k);
  }

  lemma Wraps(x: nat)
    requires LENGTH_MAX < x <= 2 * LENGTH_MAX + 1
    ensures Word64(x) == x - (LENGTH_MAX + 1)
  {
  }

  lemma Stays(x: nat)
    requires x <= LENGTH_MAX
    ensures Word64(x) == x
  {
  }

  // ------------------------------------------------------------------ alignment

  /** The page number passes the mask `align - 1`. */
  predicate Passes(p: nat, align: nat)
    requires 0 < align
  {
    And(p, align - 1) == 0
  }

  lemma PassesIsAligned(p: nat, align: nat)
    requires IsPower(align)
    ensures Passes(p, align) <==> p % align == 0
  {
    MaskIsRemainder(p, align);
  }

  /** The test of the original, on addresses. */
  predicate AddressPasses(p: nat, align: nat)
    requires 0 < align
    ensures AddressPasses(p, align) <==> Passes(p, align)
  {
    assert IsPower(K_PAGE_SIZE) by { assert IsPower(8192 / 16 / 16) && IsPower(8192 / 16); }
    ScaledMask(p, align, K_PAGE_SIZE);
    And(p * K_PAGE_SIZE, align * K_PAGE_SIZE - 1) == 0
  }

  /** Pages to skip from `start` to the first page that passes the mask. */
  method SkipTo(start: nat, align: nat) returns (skip: nat)
    requires 0 < align
    ensures skip < align && Passes(start + skip, align)
    ensures forall p :: start <= p < start + skip ==> !Passes(p, align)
  {
    ghost var enough := MaskPasses(start, align - 1);
    assert Passes(start + enough, align);
    skip := 0;
    while !AddressPasses(start + skip, align)
      invariant skip <= enough
      invariant forall p :: start <= p < start + skip ==> !Passes(p, align)
      decreases enough - skip
    {
      skip := skip + 1;
    }
  }
}
