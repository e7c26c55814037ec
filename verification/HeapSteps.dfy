/** One-step lemmas: what each page-heap update does to the invariant. */
module HeapSteps {
  import opened Spans
  import opened HeapState

  /** The invariant while the free span `s` is being worked on and is on no list. */
  ghost predicate InHand(h: Heap, system: set<nat>, leaked: nat, s: SpanPtr) {
    && Layout(h)
    && Pages(h.spans) == system
    && s in h.spans && h.spans[s].location != InUse
    && Listing(h, FreeOf(h.spans) - {s})
    && Accounts(h.stats, h.spans, leaked)
  }

  /** Neighbouring free spans differ in location, leaving pairs with `s` aside. */
  ghost predicate CoalescedBut(t: Table, s: SpanPtr) {
    forall a, b {:trigger Differ(t[a], t[b])} :: a in t && b in t && a != s && b != s ==> Differ(t[a], t[b])
  }

  lemma CoalescedLeave(t: Table, t': Table, s: SpanPtr)
    requires Coalesced(t) && t'.Keys == t.Keys && forall x :: x in t && x != s ==> t'[x] == t[x]
    ensures CoalescedBut(t', s)
  {
    forall a, b | a in t' && b in t' && a != s && b != s ensures Differ(t'[a], t'[b]) { assert Differ(t[a], t[b]); }
  }

  /** Bytes of `n` pages leave the committed count. */
  function Decommitted(st: Stats, n: nat): Stats {
    st.(committed := st.committed - K_PAGE_SIZE * n, totalDecommit := st.totalDecommit + K_PAGE_SIZE * n)
  }

  function Committed(st: Stats, n: nat): Stats {
    st.(committed := st.committed + K_PAGE_SIZE * n, totalCommit := st.totalCommit + K_PAGE_SIZE * n)
  }

  function Moved(h: Heap, s: SpanPtr, l: Location): Heap
    requires s in h.spans
  {
    h.(spans := h.spans[s := h.spans[s].(location := l, sizeclass := 0)])
  }

  lemma MovedTable(t: Table, s: SpanPtr, l: Location)
    requires s in t
    ensures var t' := t[s := t[s].(location := l, sizeclass := 0)];
            && Pages(t') == Pages(t)
            && (forall k :: Sum(t', k) == Sum(t, k) - Part(t[s], k) + Part(t'[s], k))
            && (Disjoint(t) ==> Disjoint(t'))
  {
    var t' := t[s := t[s].(location := l, sizeclass := 0)];
    assert t' - {s} == t - {s};
    PagesPeel(t, s);
    PagesPeel(t', s);
    RangeSame(t[s], t'[s]);
    forall k ensures Sum(t', k) == Sum(t, k) - Part(t[s], k) + Part(t'[s], k) {
      SumPeel(t, s, k);
      SumPeel(t', s, k);
    }
    if Disjoint(t) {
      forall x | x in t' ensures Proper(t'[x]) { assert Proper(t[x]); }
      forall x, y | x in t' && y in t' && x != y ensures Apart(t'[x], t'[y]) { assert Apart(t[x], t[y]); }
    }
  }

  lemma RangeSame(a: Span, b: Span)
    requires a.start == b.start && a.length == b.length
    ensures Range(a) == Range(b)
  {
    forall p: nat ensures p in Range(a) <==> p in Range(b) {
      assert p in Range(a) <==> a.Has(p);
      assert p in Range(b) <==> b.Has(p);
    }
  }

  lemma MovedLayout(h: Heap, s: SpanPtr, l: Location)
    requires Layout(h) && s in h.spans
    ensures Layout(Moved(h, s, l))
  {
    var g := Moved(h, s, l);
    MovedTable(h.spans, s, l);
    forall x | x in g.spans ensures Anchored(g.pagemap, x, g.spans[x]) { assert Anchored(h.pagemap, x, h.spans[x]); }
  }

  /** A span being freed leaves the in-use side and is in hand. */
  lemma FreedInHand(h: Heap, system: set<nat>, leaked: nat, s: SpanPtr)
    requires Inv(h, system, leaked) && s in h.spans && h.spans[s].location == InUse
    ensures InHand(Moved(h, s, Normal), system, leaked, s)
  {
    var g := Moved(h, s, Normal);
    MovedLayout(h, s, Normal);
    MovedTable(h.spans, s, Normal);
    assert FreeOf(g.spans) - {s} == FreeOf(h.spans);
  }

  /** A listed normal span that was decommitted and taken off its list is in hand as returned. */
  lemma ReleasedInHand(h: Heap, system: set<nat>, leaked: nat, s: SpanPtr)
    requires Inv(h, system, leaked) && s in h.spans && h.spans[s].location == Normal
    ensures h.spans[s].length > 0 && |h.lists.small| == K_MAX_PAGES
    ensures var d := h.(stats := Decommitted(h.stats, h.spans[s].length));
            InHand(Moved(Unlisted(d, s), s, Returned), system, leaked, s)
  {
    assert Proper(h.spans[s]);
    var d := h.(stats := Decommitted(h.stats, h.spans[s].length));
    var u := Unlisted(d, s);
    var g := Moved(u, s, Returned);
    assert Listing(u, FreeOf(h.spans) - {s}) by { UnlistedListing(d, FreeOf(h.spans), s); }
    MovedTable(h.spans, s, Returned);
    assert Layout(Moved(h, s, Returned)) by { MovedLayout(h, s, Returned); }
    assert FreeOf(g.spans) - {s} == FreeOf(h.spans) - {s};
    InHandFrom(g, Moved(h, s, Returned), u, system, leaked, s);
  }

  /** A span in hand that gets decommitted. */
  lemma DecommittedInHand(h: Heap, system: set<nat>, leaked: nat, s: SpanPtr)
    requires InHand(h, system, leaked, s) && h.spans[s].location == Normal
    ensures InHand(Moved(h, s, Returned).(stats := Decommitted(h.stats, h.spans[s].length)), system, leaked, s)
  {
    var g := Moved(h, s, Returned).(stats := Decommitted(h.stats, h.spans[s].length));
    MovedLayout(h, s, Returned);
    MovedTable(h.spans, s, Returned);
    assert FreeOf(g.spans) - {s} == FreeOf(h.spans) - {s};
  }

  /** Neighbour `q`, taken off its list (and decommitted when its location differs), joins `s`. */
  ghost function TakenOff(h: Heap, s: SpanPtr, q: SpanPtr): Heap
    requires s in h.spans && q in h.spans && |h.lists.small| == K_MAX_PAGES && h.spans[q].length > 0
  {
    var d := if h.spans[q].location == h.spans[s].location then h
             else h.(stats := Decommitted(h.stats, h.spans[q].length));
    Unlisted(d, q)
  }

  ghost predicate Mergeable(h: Heap, s: SpanPtr, q: SpanPtr) {
    && s in h.spans && q in h.spans && s != q && h.spans[q].location != InUse
    && |h.lists.small| == K_MAX_PAGES && h.spans[q].length > 0
    && (h.spans[q].location == h.spans[s].location || (h.spans[q].location == Normal && h.spans[s].location == Returned))
  }

  lemma TakenOffListing(h: Heap, s: SpanPtr, q: SpanPtr)
    requires Mergeable(h, s, q) && Listing(h, FreeOf(h.spans) - {s})
    ensures Listing(TakenOff(h, s, q), FreeOf(h.spans) - {s} - {q})
  {
    var d := if h.spans[q].location == h.spans[s].location then h
             else h.(stats := Decommitted(h.stats, h.spans[q].length));
    UnlistedListing(d, FreeOf(h.spans) - {s}, q);
  }

  /** The joined table keeps the books: `d` is `s` extended by `q`. */
  lemma JoinedAccounts(h: Heap, s: SpanPtr, q: SpanPtr, d: Span, leaked: nat)
    requires Mergeable(h, s, q) && Accounts(h.stats, h.spans, leaked)
    requires d.location == h.spans[s].location != InUse && d.length == h.spans[s].length + h.spans[q].length
    ensures Accounts(TakenOff(h, s, q).stats, (h.spans - {q})[s := d], leaked)
    ensures FreeOf((h.spans - {q})[s := d]) - {s} == FreeOf(h.spans) - {s} - {q}
  {
    MergedSums(h.spans, s, q, d, InUse);
    MergedSums(h.spans, s, q, d, Normal);
    MergedSums(h.spans, s, q, d, Returned);
  }

  /** Layout looks at the spans and the page map only, Listing at the lists and the counters only. */
  lemma InHandFrom(g: Heap, a: Heap, b: Heap, system: set<nat>, leaked: nat, s: SpanPtr)
    requires Layout(a) && a.spans == g.spans && a.pagemap == g.pagemap
    requires b.lists == g.lists && b.stats == g.stats
    requires Pages(g.spans) == system && s in g.spans && g.spans[s].location != InUse
    requires Listing(b, FreeOf(g.spans) - {s}) && Accounts(g.stats, g.spans, leaked)
    ensures InHand(g, system, leaked, s)
  {
  }

  lemma JoinBefore(h: Heap, system: set<nat>, leaked: nat, s: SpanPtr, q: SpanPtr)
    requires InHand(h, system, leaked, s) && Mergeable(h, s, q) && h.spans[q].End() == h.spans[s].start
    ensures InHand(MergedBefore(TakenOff(h, s, q), s, q), system, leaked, s)
  {
    var u, m := TakenOff(h, s, q), MergedBefore(h, s, q);
    var g := MergedBefore(u, s, q);
    assert Layout(m) && Pages(m.spans) == system by {
      assert Proper(h.spans[s]) && Proper(h.spans[q]);
      MergedBeforeLayout(h, s, q);
    }
    assert Listing(u, FreeOf(h.spans) - {s} - {q}) by { TakenOffListing(h, s, q); }
    JoinedAccounts(h, s, q, g.spans[s], leaked);
    InHandFrom(g, m, u, system, leaked, s);
  }

  lemma JoinAfter(h: Heap, system: set<nat>, leaked: nat, s: SpanPtr, q: SpanPtr)
    requires InHand(h, system, leaked, s) && Mergeable(h, s, q) && h.spans[q].start == h.spans[s].End()
    ensures InHand(MergedAfter(TakenOff(h, s, q), s, q), system, leaked, s)
  {
    var u, m := TakenOff(h, s, q), MergedAfter(h, s, q);
    var g := MergedAfter(u, s, q);
    assert Layout(m) && Pages(m.spans) == system by {
      assert Proper(h.spans[s]) && Proper(h.spans[q]);
      MergedAfterLayout(h, s, q);
    }
    assert Listing(u, FreeOf(h.spans) - {s} - {q}) by { TakenOffListing(h, s, q); }
    JoinedAccounts(h, s, q, g.spans[s], leaked);
    InHandFrom(g, m, u, system, leaked, s);
  }

  /** Putting the span in hand on its list restores the invariant. */
  lemma ListedInv(h: Heap, system: set<nat>, leaked: nat, s: SpanPtr)
    requires InHand(h, system, leaked, s)
    ensures |h.lists.small| == K_MAX_PAGES && h.spans[s].length > 0
    ensures Inv(Listed(h, s), system, leaked)
  {
    assert Proper(h.spans[s]);
    ListedListing(h, FreeOf(h.spans) - {s}, s);
    assert (FreeOf(h.spans) - {s})[s := h.spans[s]] == FreeOf(h.spans);
  }

  // ------------------------------------------------------------------ effects of a merge on the table

  ghost predicate LeftSettled(t: Table, s: SpanPtr) {
    s in t && forall x {:trigger Differ(t[x], t[s])} :: x in t && x != s ==> Differ(t[x], t[s])
  }

  ghost predicate RightSettled(t: Table, s: SpanPtr) {
    s in t && forall x {:trigger Differ(t[s], t[x])} :: x in t && x != s ==> Differ(t[s], t[x])
  }

  /** Joining `q` into `s` touches no span in use and no pair of other neighbours. */
  lemma JoinedKeeps(t: Table, s: SpanPtr, q: SpanPtr, d: Span)
    requires s in t && q in t && s != q && t[q].location != InUse && t[s].location == d.location != InUse
    ensures UsedOf((t - {q})[s := d]) == UsedOf(t)
    ensures CoalescedBut(t, s) ==> CoalescedBut((t - {q})[s := d], s)
    ensures LeftSettled(t, s) && d.start == t[s].start ==> LeftSettled((t - {q})[s := d], s)
  {
    var t' := (t - {q})[s := d];
    if CoalescedBut(t, s) {
      forall a, b | a in t' && b in t' && a != s && b != s ensures Differ(t'[a], t'[b]) { assert Differ(t[a], t[b]); }
    }
    if LeftSettled(t, s) && d.start == t[s].start {
      forall x | x in t' && x != s ensures Differ(t'[x], t'[s]) { assert Differ(t[x], t[s]); }
    }
  }

  /** Having swallowed an equal neighbour, `s` inherits that neighbour's own settled border. */
  lemma JoinedSettles(t: Table, s: SpanPtr, q: SpanPtr, d: Span)
    requires s in t && q in t && s != q && t[q].location == t[s].location == d.location != InUse
    requires CoalescedBut(t, s)
    ensures d.start == t[q].start ==> LeftSettled((t - {q})[s := d], s)
    ensures d.End() == t[q].End() ==> RightSettled((t - {q})[s := d], s)
  {
    var t' := (t - {q})[s := d];
    forall x | x in t' && x != s
      ensures d.start == t[q].start ==> Differ(t'[x], t'[s])
      ensures d.End() == t[q].End() ==> Differ(t'[s], t'[x])
    {
      assert Differ(t[x], t[q]) && Differ(t[q], t[x]);
    }
  }

  lemma Settled(t: Table, s: SpanPtr)
    requires Disjoint(t) && CoalescedBut(t, s) && LeftSettled(t, s) && RightSettled(t, s)
    ensures Coalesced(t)
  {
    assert Proper(t[s]);
    forall a, b | a in t && b in t ensures Differ(t[a], t[b]) {
      if a == s && b == s { assert Differ(t[s], t[s]); }
    }
  }

  /** The free span `y` of `t` covers all pages of `d`. */
  ghost predicate Covers(t: Table, y: SpanPtr, d: Span) {
    y in t && t[y].location != InUse && t[y].start <= d.start && d.End() <= t[y].End()
  }

  ghost predicate IsFree(t: Table, x: SpanPtr) {
    x in t && t[x].location != InUse
  }

  /** Free spans only ever grow together: each is inside one of the later ones. */
  ghost predicate Coarser(t: Table, t': Table) {
    forall x {:trigger IsFree(t, x)} :: IsFree(t, x) ==> exists y :: Covers(t', y, t[x])
  }

  lemma CoarserTwice(a: Table, b: Table, c: Table)
    requires Coarser(a, b) && Coarser(b, c)
    ensures Coarser(a, c)
  {
    forall x | IsFree(a, x) ensures exists y :: Covers(c, y, a[x]) {
      var y :| Covers(b, y, a[x]);
      assert IsFree(b, y);
      var z :| Covers(c, z, b[y]);
      assert Covers(c, z, a[x]);
    }
  }

  lemma CoarserSame(t: Table)
    ensures Coarser(t, t)
  {
    forall x | IsFree(t, x) ensures exists y :: Covers(t, y, t[x]) { assert Covers(t, x, t[x]); }
  }

  lemma JoinedCoarser(t: Table, s: SpanPtr, q: SpanPtr, d: Span)
    requires s in t && q in t && s != q && d.location != InUse
    requires d.start <= t[q].start && t[q].End() <= d.End() && d.start <= t[s].start && t[s].End() <= d.End()
    ensures Coarser(t, (t - {q})[s := d])
  {
    var t' := (t - {q})[s := d];
    forall x | IsFree(t, x) ensures exists y :: Covers(t', y, t[x]) {
      assert Covers(t', if x == q then s else x, t[x]);
    }
  }

  /** What coalescing may do to the table: nothing to spans in use, nothing to the set of free pages,
      and without `decommits` nothing to which free pages are normal and which are returned. */
  ghost predicate Reshaped(t: Table, t': Table, decommits: bool) {
    && UsedOf(t') == UsedOf(t) && Coarser(t, t')
    && Sum(t', Normal) + Sum(t', Returned) == Sum(t, Normal) + Sum(t, Returned)
    && Sum(t, Returned) <= Sum(t', Returned)
    && PagesAt(t, Returned) <= PagesAt(t', Returned)
    && PagesAt(t', Normal) + PagesAt(t', Returned) == PagesAt(t, Normal) + PagesAt(t, Returned)
    && (!decommits ==> Sum(t', Returned) == Sum(t, Returned) && PagesAt(t', Normal) == PagesAt(t, Normal)
                       && PagesAt(t', Returned) == PagesAt(t, Returned))
  }

  lemma JoinedReshapes(t: Table, s: SpanPtr, q: SpanPtr, d: Span)
    requires s in t && q in t && s != q && t[s].location == d.location != InUse
    requires t[q].location == t[s].location || (t[q].location == Normal && t[s].location == Returned)
    requires (t[q].End() == t[s].start && d.start == t[q].start) || (t[s].End() == t[q].start && d.start == t[s].start)
    requires d.length == t[q].length + t[s].length
    ensures Reshaped(t, (t - {q})[s := d], t[q].location != t[s].location)
  {
    var t' := (t - {q})[s := d];
    assert Range(d) == Range(t[q]) + Range(t[s]) by {
      if t[q].End() == t[s].start && d.start == t[q].start { RangeJoin(t[q], t[s], d); } else { RangeJoin(t[s], t[q], d); }
    }
    assert UsedOf(t') == UsedOf(t) by { JoinedKeeps(t, s, q, d); }
    assert Coarser(t, t') by { JoinedCoarser(t, s, q, d); }
    forall l ensures Sum(t', l) == Sum(t, l) - Part(t[s], l) - Part(t[q], l) + Part(d, l)
    {
      MergedSums(t, s, q, d, l);
    }
    JoinedPages(t, s, q, d);
  }

  lemma JoinedPages(t: Table, s: SpanPtr, q: SpanPtr, d: Span)
    requires s in t && q in t && s != q && t[s].location == d.location != InUse && Range(d) == Range(t[q]) + Range(t[s])
    requires t[q].location == t[s].location || (t[q].location == Normal && t[s].location == Returned)
    ensures var t' := (t - {q})[s := d];
            && PagesAt(t, Returned) <= PagesAt(t', Returned)
            && PagesAt(t', Normal) + PagesAt(t', Returned) == PagesAt(t, Normal) + PagesAt(t, Returned)
            && (t[q].location == t[s].location ==>
                  PagesAt(t', Normal) == PagesAt(t, Normal) && PagesAt(t', Returned) == PagesAt(t, Returned))
  {
    var t' := (t - {q})[s := d];
    assert t' - {s} == t - {q} - {s};
    forall l ensures PagesAt(t', l) == PagesAt(t - {q} - {s}, l) + (if d.location == l then Range(d) else {})
             ensures PagesAt(t, l) == PagesAt(t - {q} - {s}, l) + (if t[s].location == l then Range(t[s]) else {})
                                      + (if t[q].location == l then Range(t[q]) else {})
    {
      PagesAtPeel(t, q, l);
      PagesAtPeel(t - {q}, s, l);
      PagesAtPeel(t', s, l);
    }
  }

  lemma ReshapedTwice(a: Table, b: Table, c: Table, x: bool, y: bool)
    requires Reshaped(a, b, x) && Reshaped(b, c, y)
    ensures Reshaped(a, c, x || y)
  {
    CoarserTwice(a, b, c);
  }

  /** One side of a merge: the effect on the table and on the neighbours that are already settled. */
  ghost predicate Absorbed(t: Table, t': Table, s: SpanPtr, decommits: bool) {
    && s in t && s in t' && t'[s].location == t[s].location
    && Reshaped(t, t', decommits)
    && (CoalescedBut(t, s) ==> CoalescedBut(t', s))
  }

  lemma AbsorbedNothing(t: Table, s: SpanPtr, decommits: bool)
    requires s in t
    ensures Absorbed(t, t, s, decommits)
  {
    CoarserSame(t);
  }

  lemma AbsorbedBefore(h: Heap, system: set<nat>, leaked: nat, s: SpanPtr, q: SpanPtr, aggressive: bool)
    requires InHand(h, system, leaked, s) && Mergeable(h, s, q) && h.spans[q].End() == h.spans[s].start
    requires h.spans[q].location != h.spans[s].location ==> aggressive
    ensures var g := MergedBefore(TakenOff(h, s, q), s, q);
            && InHand(g, system, leaked, s) && Absorbed(h.spans, g.spans, s, aggressive)
            && (!aggressive && CoalescedBut(h.spans, s) ==> LeftSettled(g.spans, s))
  {
    var g := MergedBefore(TakenOff(h, s, q), s, q);
    var d := g.spans[s];
    assert InHand(g, system, leaked, s) by { JoinBefore(h, system, leaked, s, q); }
    assert Reshaped(h.spans, g.spans, aggressive) by {
      JoinedReshapes(h.spans, s, q, d);
    }
    JoinedKeeps(h.spans, s, q, d);
    if !aggressive && CoalescedBut(h.spans, s) { JoinedSettles(h.spans, s, q, d); }
  }

  lemma AbsorbedAfter(h: Heap, system: set<nat>, leaked: nat, s: SpanPtr, q: SpanPtr, aggressive: bool)
    requires InHand(h, system, leaked, s) && Mergeable(h, s, q) && h.spans[q].start == h.spans[s].End()
    requires h.spans[q].location != h.spans[s].location ==> aggressive
    ensures var g := MergedAfter(TakenOff(h, s, q), s, q);
            && InHand(g, system, leaked, s) && Absorbed(h.spans, g.spans, s, aggressive)
            && (LeftSettled(h.spans, s) ==> LeftSettled(g.spans, s))
            && (!aggressive && CoalescedBut(h.spans, s) ==> RightSettled(g.spans, s))
  {
    var g := MergedAfter(TakenOff(h, s, q), s, q);
    var d := g.spans[s];
    assert InHand(g, system, leaked, s) by { JoinAfter(h, system, leaked, s, q); }
    assert Reshaped(h.spans, g.spans, aggressive) by {
      JoinedReshapes(h.spans, s, q, d);
    }
    JoinedKeeps(h.spans, s, q, d);
    if !aggressive && CoalescedBut(h.spans, s) { JoinedSettles(h.spans, s, q, d); }
  }

  lemma UnmergedBefore(h: Heap, s: SpanPtr)
    requires Layout(h) && s in h.spans
    requires h.spans[s].start - 1 in h.pagemap && h.pagemap[h.spans[s].start - 1] in h.spans ==>
               h.spans[h.pagemap[h.spans[s].start - 1]].location != h.spans[s].location
    ensures LeftSettled(h.spans, s)
  {
    NeighbourBefore(h, s);
    forall x | x in h.spans && x != s && h.spans[x].End() == h.spans[s].start
      ensures h.spans[x].location != h.spans[s].location
    {
      assert Anchored(h.pagemap, x, h.spans[x]);
    }
  }

  lemma UnmergedAfter(h: Heap, s: SpanPtr)
    requires Layout(h) && s in h.spans
    requires h.spans[s].End() in h.pagemap && h.pagemap[h.spans[s].End()] in h.spans ==>
               h.spans[h.pagemap[h.spans[s].End()]].location != h.spans[s].location
    ensures RightSettled(h.spans, s)
  {
    NeighbourAfter(h, s);
    forall x | x in h.spans && x != s && h.spans[s].End() == h.spans[x].start
      ensures h.spans[x].location != h.spans[s].location
    {
      assert Anchored(h.pagemap, x, h.spans[x]);
    }
  }

  lemma MovedPages(t: Table, s: SpanPtr)
    requires s in t && t[s].location == Normal
    ensures var t' := t[s := t[s].(location := Returned, sizeclass := 0)];
            && PagesAt(t, Returned) <= PagesAt(t', Returned)
            && PagesAt(t', Normal) + PagesAt(t', Returned) == PagesAt(t, Normal) + PagesAt(t, Returned)
  {
    var t' := t[s := t[s].(location := Returned, sizeclass := 0)];
    RangeSame(t[s], t'[s]);
    assert t' - {s} == t - {s};
    PagesAtPeel(t, s, Normal);
    PagesAtPeel(t', s, Normal);
    PagesAtPeel(t, s, Returned);
    PagesAtPeel(t', s, Returned);
  }

  lemma UsedSame(t: Table, t': Table, s: SpanPtr)
    requires s in t && s in t' && t' == t[s := t'[s]] && t[s].location != InUse && t'[s].location != InUse
    ensures UsedOf(t') == UsedOf(t)
  {
  }

  lemma MovedReshapes(t: Table, s: SpanPtr)
    requires s in t && t[s].location == Normal
    ensures Reshaped(t, t[s := t[s].(location := Returned, sizeclass := 0)], true)
  {
    var t' := t[s := t[s].(location := Returned, sizeclass := 0)];
    MovedTable(t, s, Returned);
    MovedPages(t, s);
    assert UsedOf(t') == UsedOf(t) by { UsedSame(t, t', s); }
    assert Coarser(t, t') by {
      forall x | IsFree(t, x) ensures exists y :: Covers(t', y, t[x]) { assert Covers(t', x, t[x]); }
    }
  }

  // ------------------------------------------------------------------ a whole merge

  /** Aggressive mode tries to decommit the span in hand. */
  ghost predicate DecommitStep(h: Heap, g: Heap, s: SpanPtr, aggressive: bool) {
    || g == h
    || (aggressive && s in h.spans && h.spans[s].location == Normal
        && g == Moved(h, s, Returned).(stats := Decommitted(h.stats, h.spans[s].length)))
  }

  /** The page map names a live descriptor, or nothing, at `p`. */
  ghost predicate Readable(h: Heap, s: SpanPtr, p: int) {
    p in h.pagemap ==> h.pagemap[p] in h.spans && h.pagemap[p] != s && h.spans[h.pagemap[p]].length > 0
  }

  /** The left neighbour named by the page map is swallowed, or differs in location. */
  ghost predicate PreviousStep(h: Heap, g: Heap, s: SpanPtr, aggressive: bool) {
    && s in h.spans && Readable(h, s, h.spans[s].start - 1)
    && var p := h.spans[s].start - 1;
    || (g == h && (p in h.pagemap ==> h.spans[h.pagemap[p]].location != h.spans[s].location))
    || (p in h.pagemap && var q := h.pagemap[p];
        Mergeable(h, s, q) && g == MergedBefore(TakenOff(h, s, q), s, q)
        && (h.spans[q].location != h.spans[s].location ==> aggressive))
  }

  ghost predicate NextStep(h: Heap, g: Heap, s: SpanPtr, aggressive: bool) {
    && s in h.spans && Readable(h, s, h.spans[s].End())
    && var p := h.spans[s].End();
    || (g == h && (p in h.pagemap ==> h.spans[h.pagemap[p]].location != h.spans[s].location))
    || (p in h.pagemap && var q := h.pagemap[p];
        Mergeable(h, s, q) && g == MergedAfter(TakenOff(h, s, q), s, q)
        && (h.spans[q].location != h.spans[s].location ==> aggressive))
  }

  lemma AfterDecommit(h: Heap, g: Heap, system: set<nat>, leaked: nat, s: SpanPtr, aggressive: bool)
    requires InHand(h, system, leaked, s) && DecommitStep(h, g, s, aggressive)
    ensures InHand(g, system, leaked, s) && Reshaped(h.spans, g.spans, aggressive)
    ensures !aggressive ==> g == h
    ensures Readable(g, s, g.spans[s].start - 1)
  {
    if g != h {
      assert Proper(h.spans[s]);
      DecommittedInHand(h, system, leaked, s);
      MovedReshapes(h.spans, s);
    } else {
      CoarserSame(h.spans);
    }
    NeighbourBefore(g, s);
    var p := g.spans[s].start - 1;
    assert p in g.pagemap ==> Proper(g.spans[g.pagemap[p]]);
  }

  lemma AfterPrevious(h: Heap, g: Heap, system: set<nat>, leaked: nat, s: SpanPtr, aggressive: bool)
    requires InHand(h, system, leaked, s) && PreviousStep(h, g, s, aggressive)
    ensures InHand(g, system, leaked, s) && Absorbed(h.spans, g.spans, s, aggressive)
    ensures !aggressive && CoalescedBut(h.spans, s) ==> LeftSettled(g.spans, s)
    ensures Readable(g, s, g.spans[s].End())
  {
    NeighbourBefore(h, s);
    if g == h {
      AbsorbedNothing(h.spans, s, aggressive);
      UnmergedBefore(h, s);
    } else {
      AbsorbedBefore(h, system, leaked, s, h.pagemap[h.spans[s].start - 1], aggressive);
    }
    NeighbourAfter(g, s);
    var p := g.spans[s].End();
    assert p in g.pagemap ==> Proper(g.spans[g.pagemap[p]]);
  }

  lemma AfterNext(h: Heap, g: Heap, system: set<nat>, leaked: nat, s: SpanPtr, aggressive: bool)
    requires InHand(h, system, leaked, s) && NextStep(h, g, s, aggressive)
    ensures InHand(g, system, leaked, s) && Absorbed(h.spans, g.spans, s, aggressive)
    ensures LeftSettled(h.spans, s) ==> LeftSettled(g.spans, s)
    ensures !aggressive && CoalescedBut(h.spans, s) ==> RightSettled(g.spans, s)
    ensures |g.lists.small| == K_MAX_PAGES && g.spans[s].length > 0
  {
    NeighbourAfter(h, s);
    if g == h {
      AbsorbedNothing(h.spans, s, aggressive);
      UnmergedAfter(h, s);
    } else {
      AbsorbedAfter(h, system, leaked, s, h.pagemap[h.spans[s].End()], aggressive);
    }
    assert Proper(g.spans[s]);
  }

  /** The first two steps of a merge. */
  lemma HalfMerge(h0: Heap, h1: Heap, h2: Heap, system: set<nat>, leaked: nat, s: SpanPtr, aggressive: bool)
    requires InHand(h0, system, leaked, s)
    requires DecommitStep(h0, h1, s, aggressive) && PreviousStep(h1, h2, s, aggressive)
    ensures InHand(h2, system, leaked, s) && Reshaped(h0.spans, h2.spans, aggressive)
    ensures !aggressive && CoalescedBut(h0.spans, s) ==> CoalescedBut(h2.spans, s) && LeftSettled(h2.spans, s)
    ensures Readable(h2, s, h2.spans[s].End())
  {
    AfterDecommit(h0, h1, system, leaked, s, aggressive);
    AfterPrevious(h1, h2, system, leaked, s, aggressive);
    ReshapedTwice(h0.spans, h1.spans, h2.spans, aggressive, aggressive);
  }

  ghost predicate ReadyFor(h: Heap, s: SpanPtr) {
    s in h.spans && h.spans[s].location != InUse && h.spans[s].length > 0 && |h.lists.small| == K_MAX_PAGES
  }

  lemma ReadyForDecommit(h: Heap, system: set<nat>, leaked: nat, s: SpanPtr)
    requires InHand(h, system, leaked, s)
    ensures ReadyFor(h, s) && h.spans[s].sizeclass == 0
  {
    assert Proper(h.spans[s]);
  }

  lemma ReadyForPrevious(h0: Heap, h1: Heap, system: set<nat>, leaked: nat, s: SpanPtr, aggressive: bool)
    requires InHand(h0, system, leaked, s) && DecommitStep(h0, h1, s, aggressive)
    ensures ReadyFor(h1, s) && Readable(h1, s, h1.spans[s].start - 1)
  {
    AfterDecommit(h0, h1, system, leaked, s, aggressive);
    ReadyForDecommit(h1, system, leaked, s);
  }

  lemma ReadyForNext(h0: Heap, h1: Heap, h2: Heap, system: set<nat>, leaked: nat, s: SpanPtr, aggressive: bool)
    requires InHand(h0, system, leaked, s)
    requires DecommitStep(h0, h1, s, aggressive) && PreviousStep(h1, h2, s, aggressive)
    ensures ReadyFor(h2, s) && Readable(h2, s, h2.spans[s].End())
  {
    HalfMerge(h0, h1, h2, system, leaked, s, aggressive);
    ReadyForDecommit(h2, system, leaked, s);
  }

  lemma ReadyForList(h0: Heap, h1: Heap, h2: Heap, h3: Heap, system: set<nat>, leaked: nat, s: SpanPtr, aggressive: bool)
    requires InHand(h0, system, leaked, s) && DecommitStep(h0, h1, s, aggressive)
    requires PreviousStep(h1, h2, s, aggressive) && NextStep(h2, h3, s, aggressive)
    ensures ReadyFor(h3, s)
  {
    HalfMerge(h0, h1, h2, system, leaked, s, aggressive);
    AfterNext(h2, h3, system, leaked, s, aggressive);
  }

  /** `g` is reached from `h` by the steps of a merge of `s`, through the states of `via`. */
  ghost predicate MergeRun(h: Heap, via: (Heap, Heap, Heap), g: Heap, s: SpanPtr, aggressive: bool) {
    && DecommitStep(h, via.0, s, aggressive)
    && PreviousStep(via.0, via.1, s, aggressive)
    && NextStep(via.1, via.2, s, aggressive)
    && ReadyFor(via.2, s)
    && g == Listed(via.2, s)
  }

  /** One when the decommit of the span in hand was tried and refused. */
  ghost function Undone(h: Heap, g: Heap, s: SpanPtr, aggressive: bool): nat {
    if g == h && aggressive && s in h.spans && h.spans[s].location == Normal then 1 else 0
  }

  /** One when the neighbour at page `p` stays although its decommit would have made it equal. */
  ghost function Spurned(h: Heap, g: Heap, s: SpanPtr, p: int, aggressive: bool): nat {
    if g == h && aggressive && s in h.spans && h.spans[s].location == Returned
       && p in h.pagemap && h.pagemap[p] in h.spans && h.spans[h.pagemap[p]].location == Normal then 1 else 0
  }

  /** How often the system refuses during a merge. */
  ghost function Denials(h: Heap, via: (Heap, Heap, Heap), s: SpanPtr, aggressive: bool): nat {
    Undone(h, via.0, s, aggressive)
    + (if s in via.0.spans then Spurned(via.0, via.1, s, via.0.spans[s].start - 1, aggressive) else 0)
    + (if s in via.1.spans then Spurned(via.1, via.2, s, via.1.spans[s].End(), aggressive) else 0)
  }

  /** No normal span is new: those there are now were there before. */
  ghost predicate NormalsKept(t: Table, t': Table) {
    forall x {:trigger x in t'} :: x in t' && t'[x].location == Normal ==> x in t && t[x] == t'[x]
  }

  lemma NormalsKeptTwice(a: Table, b: Table, c: Table)
    requires NormalsKept(a, b) && NormalsKept(b, c)
    ensures NormalsKept(a, c)
  {
    forall x | x in c && c[x].location == Normal ensures x in a && a[x] == c[x] { assert x in b; }
  }

  /** A merge around a returned span only takes normal spans away, and puts the merged span first on its list. */
  lemma MergeNormals(h: Heap, via: (Heap, Heap, Heap), g: Heap, s: SpanPtr, aggressive: bool)
    requires s in h.spans && MergeRun(h, via, g, s, aggressive)
    ensures s in g.spans
    ensures h.spans[s].location == Returned ==> NormalsKept(h.spans, g.spans) && g.spans[s].location == Returned
  {
    assert via.0.spans.Keys == h.spans.Keys;
  }

  lemma ListedFirst(h: Heap, s: SpanPtr)
    requires s in h.spans && |h.lists.small| == K_MAX_PAGES && h.spans[s].length > 0
    ensures |Listed(h, s).lists.small| == K_MAX_PAGES
    ensures h.spans[s].length <= K_MAX_PAGES ==>
              Shortlist(Listed(h, s).lists, h.spans[s]) == [s] + Shortlist(h.lists, h.spans[s])
  {
  }

  /** Some span of `t` is normal and longer than the pages released beyond what was asked for. */
  ghost predicate Overshoot(t: Table, released: nat, numPages: nat) {
    exists x :: x in t && t[x].location == Normal && released < numPages + t[x].length
  }

  lemma OvershootBefore(t: Table, t': Table, released: nat, numPages: nat)
    requires NormalsKept(t, t') && Overshoot(t', released, numPages)
    ensures Overshoot(t, released, numPages)
  {
    var x :| x in t' && t'[x].location == Normal && released < numPages + t'[x].length;
    assert x in t && t[x] == t'[x];
  }

  /** In aggressive mode, when no decommit is refused, the span in hand ends up returned and has swallowed the
      free span on either side. */
  lemma AggressiveAbsorbs(h: Heap, via: (Heap, Heap, Heap), g: Heap, system: set<nat>, leaked: nat, s: SpanPtr, q: SpanPtr)
    requires InHand(h, system, leaked, s) && MergeRun(h, via, g, s, true) && Denials(h, via, s, true) == 0
    requires q in h.spans && q != s && h.spans[q].location != InUse
    requires h.spans[q].End() == h.spans[s].start || h.spans[s].End() == h.spans[q].start
    ensures q !in g.spans && s in g.spans && g.spans[s].location == Returned
  {
    RunLayouts(h, via, g, system, leaked, s, true);
    if h.spans[q].End() == h.spans[s].start { AbsorbsBefore(h, via, g, s, q); } else { AbsorbsAfter(h, via, g, s, q); }
  }

  lemma MergeReturns(h: Heap, via: (Heap, Heap, Heap), g: Heap, s: SpanPtr)
    requires s in h.spans && h.spans[s].location != InUse && MergeRun(h, via, g, s, true) && Denials(h, via, s, true) == 0
    ensures s in g.spans && g.spans[s].location == Returned
  {
  }

  lemma RunLayouts(h: Heap, via: (Heap, Heap, Heap), g: Heap, system: set<nat>, leaked: nat, s: SpanPtr, aggressive: bool)
    requires InHand(h, system, leaked, s) && MergeRun(h, via, g, s, aggressive)
    ensures Layout(via.0) && Layout(via.1)
  {
    AfterDecommit(h, via.0, system, leaked, s, aggressive);
    AfterPrevious(via.0, via.1, system, leaked, s, aggressive);
  }

  lemma AbsorbsBefore(h: Heap, via: (Heap, Heap, Heap), g: Heap, s: SpanPtr, q: SpanPtr)
    requires Layout(via.0) && MergeRun(h, via, g, s, true) && Denials(h, via, s, true) == 0
    requires s in h.spans && h.spans[s].location != InUse && q in h.spans && q != s && h.spans[q].location != InUse
    requires h.spans[q].End() == h.spans[s].start
    ensures q !in g.spans && s in g.spans && g.spans[s].location == Returned
  {
    SwallowsBefore(via.0, via.1, s, q);
  }

  lemma AbsorbsAfter(h: Heap, via: (Heap, Heap, Heap), g: Heap, s: SpanPtr, q: SpanPtr)
    requires Layout(via.0) && Layout(via.1) && MergeRun(h, via, g, s, true) && Denials(h, via, s, true) == 0
    requires s in h.spans && h.spans[s].location != InUse && q in h.spans && q != s && h.spans[q].location != InUse
    requires h.spans[s].End() == h.spans[q].start
    ensures q !in g.spans && s in g.spans && g.spans[s].location == Returned
  {
    SwallowsAfter(via.0, via.1, via.2, s, q);
  }

  lemma SwallowsBefore(h: Heap, g: Heap, s: SpanPtr, q: SpanPtr)
    requires Layout(h) && PreviousStep(h, g, s, true) && h.spans[s].location == Returned
    requires Spurned(h, g, s, h.spans[s].start - 1, true) == 0
    requires q in h.spans && q != s && h.spans[q].location != InUse && h.spans[q].End() == h.spans[s].start
    ensures s in g.spans && g.spans[s].location == Returned && q !in g.spans
  {
    NeighbourBefore(h, s);
    var x := h.pagemap[h.spans[s].start - 1];
    assert Proper(h.spans[q]) && Proper(h.spans[x]);
    assert x != q ==> Apart(h.spans[q], h.spans[x]);
  }

  lemma SwallowsAfter(h: Heap, g: Heap, g': Heap, s: SpanPtr, q: SpanPtr)
    requires Layout(h) && Layout(g) && PreviousStep(h, g, s, true) && NextStep(g, g', s, true) && h.spans[s].location == Returned
    requires s in g.spans && Spurned(g, g', s, g.spans[s].End(), true) == 0
    requires q in h.spans && q != s && h.spans[q].location != InUse && h.spans[s].End() == h.spans[q].start
    ensures s in g'.spans && g'.spans[s].location == Returned && q !in g'.spans
  {
    NeighbourBefore(h, s);
    assert Proper(h.spans[q]) && Proper(h.spans[s]);
    assert q in g.spans && g.spans[q] == h.spans[q] && g.spans[s].End() == h.spans[s].End() && g.spans[s].location == Returned;
    NeighbourAfter(g, s);
    var x := g.pagemap[g.spans[s].End()];
    assert Proper(g.spans[x]);
    assert x != q ==> Apart(g.spans[q], g.spans[x]);
  }

  /** MergeIntoFreeList as a whole: the invariant is restored, only free spans were reshaped, and
      outside aggressive mode no two equal neighbours remain. */
  lemma WholeMerge(h: Heap, via: (Heap, Heap, Heap), g: Heap, system: set<nat>, leaked: nat, s: SpanPtr, aggressive: bool)
    requires InHand(h, system, leaked, s) && MergeRun(h, via, g, s, aggressive)
    ensures Inv(g, system, leaked)
    ensures Reshaped(h.spans, g.spans, aggressive)
    ensures !aggressive && CoalescedBut(h.spans, s) ==> Coalesced(g.spans)
  {
    HalfMerge(h, via.0, via.1, system, leaked, s, aggressive);
    AfterNext(via.1, via.2, system, leaked, s, aggressive);
    ReshapedTwice(h.spans, via.1.spans, via.2.spans, aggressive, aggressive);
    if !aggressive && CoalescedBut(h.spans, s) { Settled(g.spans, s); }
    ListedInv(via.2, system, leaked, s);
  }

  // ------------------------------------------------------------------ releasing

  /** `n` pages at least went from normal to returned; with `aggressive` off exactly `n` did, and
      maximal coalescing survived. */
  ghost predicate Released(t: Table, t': Table, n: nat, aggressive: bool) {
    && UsedOf(t') == UsedOf(t) && Coarser(t, t')
    && Sum(t', Normal) + Sum(t', Returned) == Sum(t, Normal) + Sum(t, Returned)
    && Sum(t, Returned) + n <= Sum(t', Returned)
    && PagesAt(t, Returned) <= PagesAt(t', Returned)
    && PagesAt(t', Normal) + PagesAt(t', Returned) == PagesAt(t, Normal) + PagesAt(t, Returned)
    && (!aggressive ==> Sum(t', Returned) == Sum(t, Returned) + n && (Coalesced(t) ==> Coalesced(t')))
  }

  lemma ReleasedTwice(a: Table, b: Table, c: Table, m: nat, n: nat, aggressive: bool)
    requires Released(a, b, m, aggressive) && Released(b, c, n, aggressive)
    ensures Released(a, c, m + n, aggressive)
  {
    CoarserTwice(a, b, c);
  }

  /** A normal span, decommitted, off its list and now returned: the start of the merge in ReleaseSpan. */
  ghost function Releasing(h: Heap, s: SpanPtr): Heap
    requires s in h.spans && h.spans[s].length > 0 && |h.lists.small| == K_MAX_PAGES
  {
    Moved(Unlisted(h.(stats := Decommitted(h.stats, h.spans[s].length)), s), s, Returned)
  }

  lemma ReleasedOne(h: Heap, via: (Heap, Heap, Heap), g: Heap, system: set<nat>, leaked: nat, s: SpanPtr, aggressive: bool)
    requires Inv(h, system, leaked) && s in h.spans && h.spans[s].location == Normal
    requires h.spans[s].length > 0 && |h.lists.small| == K_MAX_PAGES
    requires MergeRun(Releasing(h, s), via, g, s, aggressive)
    ensures Inv(g, system, leaked) && Released(h.spans, g.spans, h.spans[s].length, aggressive)
  {
    var m := Releasing(h, s);
    assert InHand(m, system, leaked, s) by { ReleasedInHand(h, system, leaked, s); }
    WholeMerge(m, via, g, system, leaked, s, aggressive);
    MovedReshapes(h.spans, s);
    MovedTable(h.spans, s, Returned);
    ReshapedTwice(h.spans, m.spans, g.spans, true, aggressive);
    assert !aggressive && Coalesced(h.spans) ==> Coalesced(g.spans) by {
      if Coalesced(h.spans) { CoalescedLeave(h.spans, m.spans, s); }
    }
  }

  lemma ReleasedNone(t: Table, aggressive: bool)
    ensures Released(t, t, 0, aggressive)
  {
    CoarserSame(t);
  }

  // ------------------------------------------------------------------ where the normal spans are

  /** Nothing normal on the list a release index stands for; index K_MAX_PAGES is the large set. */
  predicate NormalEmpty(q: FreeLists, i: nat)
    requires |q.small| == K_MAX_PAGES && i <= K_MAX_PAGES
  {
    if i == K_MAX_PAGES then q.largeNormal == {} else q.small[i].normal == []
  }

  lemma {:induction false} SumZero(t: Table, l: Location)
    requires forall s :: s in t ==> t[s].location != l
    ensures Sum(t, l) == 0
    decreases |t|
  {
    if t != map[] {
      var c :| c in t;
      SumPeel(t, c, l);
      SumZero(t - {c}, l);
    }
  }

  /** All normal lists empty means no normal bytes. */
  lemma AllNormalEmpty(h: Heap, system: set<nat>, leaked: nat)
    requires Inv(h, system, leaked) && |h.lists.small| == K_MAX_PAGES
    requires forall i :: 0 <= i <= K_MAX_PAGES ==> NormalEmpty(h.lists, i)
    ensures h.stats.free == 0
  {
    var f := FreeOf(h.spans);
    forall s | s in f ensures f[s].location != Normal {
      assert Proper(h.spans[s]);
      if f[s].length > K_MAX_PAGES {
        assert NormalEmpty(h.lists, K_MAX_PAGES);
        assert s !in h.lists.largeNormal;
      } else {
        assert NormalEmpty(h.lists, f[s].length - 1);
        assert s !in h.lists.small[f[s].length - 1].normal;
      }
    }
    SumZero(f, Normal);
  }

  lemma SumAdd(t: Table, s: SpanPtr, d: Span, l: Location)
    requires s !in t
    ensures Sum(t[s := d], l) == Sum(t, l) + Part(d, l)
  {
    SumPeel(t[s := d], s, l);
    assert t[s := d] - {s} == t;
  }

  /** Spans in use add nothing to the sums of the free locations. */
  lemma {:induction false} SumFree(t: Table, l: Location)
    requires l != InUse
    ensures Sum(FreeOf(t), l) == Sum(t, l)
    decreases |t|
  {
    if t == map[] {
      assert FreeOf(t) == map[];
    } else {
      var c :| c in t;
      var r := t - {c};
      SumFree(r, l);
      assert Sum(t, l) == Sum(r, l) + Part(t[c], l) by { SumPeel(t, c, l); }
      assert Sum(FreeOf(t), l) == Sum(FreeOf(r), l) + Part(t[c], l) by {
        if t[c].location == InUse {
          assert FreeOf(r) == FreeOf(t);
        } else {
          assert FreeOf(t) == FreeOf(r)[c := t[c]];
          SumAdd(FreeOf(r), c, t[c], l);
        }
      }
    }
  }

  /** The byte counters are the byte sums of the free spans, and committed and unmapped bytes make up
      everything obtained from the system. */
  lemma ByteCounters(h: Heap, system: set<nat>, leaked: nat)
    requires Inv(h, system, leaked)
    ensures h.stats.free == K_PAGE_SIZE * Sum(h.spans, Normal)
    ensures h.stats.unmapped == K_PAGE_SIZE * Sum(h.spans, Returned)
    ensures h.stats.committed + h.stats.unmapped == h.stats.system
    ensures h.stats.system == K_PAGE_SIZE * (Total(h.spans) + leaked)
  {
    SumFree(h.spans, Normal);
    SumFree(h.spans, Returned);
  }

  // ------------------------------------------------------------------ best fit

  /** `s` is the least span of `q` in best-fit order. */
  predicate Least(q: set<SpanPtr>, t: Table, s: SpanPtr)
    requires forall x :: x in q ==> x in t
  {
    s in q && forall x :: x in q ==> !BestFitLess(t[x], t[s])
  }

  lemma {:induction false} LeastExists(q: set<SpanPtr>, t: Table)
    requires q != {} && forall x :: x in q ==> x in t
    ensures exists s :: Least(q, t, s)
  {
    var c :| c in q;
    if q == {c} {
      assert Least(q, t, c);
    } else {
      LeastExists(q - {c}, t);
      var s :| Least(q - {c}, t, s);
      var m := if BestFitLess(t[c], t[s]) then c else s;
      assert Least(q, t, m);
    }
  }

  /** The release indices a sweep that began at `first` has passed after `i` steps. */
  predicate Passed(first: nat, i: nat, j: nat) {
    if first + i <= K_MAX_PAGES + 1 then first <= j < first + i else j >= first || j < first + i - (K_MAX_PAGES + 1)
  }

  /** Nothing normal on any list a sweep has passed. */
  ghost predicate Clean(q: FreeLists, first: nat, i: nat) {
    |q.small| == K_MAX_PAGES && forall j {:trigger NormalEmpty(q, j)} :: 0 <= j <= K_MAX_PAGES && Passed(first, i, j) ==> NormalEmpty(q, j)
  }

  ghost function IndexAt(first: nat, i: nat): nat
    requires first <= K_MAX_PAGES && i <= K_MAX_PAGES + 1
  {
    if first + i <= K_MAX_PAGES then first + i else first + i - (K_MAX_PAGES + 1)
  }

  /** release_index_ as the sweep reads it. */
  function Wrapped(index: nat): nat {
    if index > K_MAX_PAGES then 0 else index
  }

  lemma IndexMoves(first: nat, i: nat)
    requires first <= K_MAX_PAGES && i <= K_MAX_PAGES
    ensures Wrapped(IndexAt(first, i) + 1) == IndexAt(first, i + 1)
  {
  }

  lemma CleanMore(q: FreeLists, first: nat, i: nat)
    requires Clean(q, first, i) && first <= K_MAX_PAGES && i <= K_MAX_PAGES && NormalEmpty(q, IndexAt(first, i))
    ensures Clean(q, first, i + 1)
  {
    forall j | 0 <= j <= K_MAX_PAGES && Passed(first, i + 1, j) ensures NormalEmpty(q, j) {
      assert Passed(first, i, j) || j == IndexAt(first, i);
    }
  }

  /** A full sweep that found nothing proves there is nothing. */
  lemma CleanAll(h: Heap, system: set<nat>, leaked: nat, first: nat)
    requires Inv(h, system, leaked) && first <= K_MAX_PAGES && Clean(h.lists, first, K_MAX_PAGES + 1)
    ensures h.stats.free == 0
  {
    forall j | 0 <= j <= K_MAX_PAGES ensures NormalEmpty(h.lists, j) { assert Passed(first, K_MAX_PAGES + 1, j); }
    AllNormalEmpty(h, system, leaked);
  }

  /** Releasing shows in the byte counters. */
  lemma ReleasedBytes(h: Heap, g: Heap, system: set<nat>, leaked: nat, n: nat, aggressive: bool)
    requires Inv(h, system, leaked) && Inv(g, system, leaked) && Released(h.spans, g.spans, n, aggressive)
    ensures 0 <= g.stats.free <= h.stats.free - K_PAGE_SIZE * n
    ensures h.stats.unmapped + K_PAGE_SIZE * n <= g.stats.unmapped
    ensures !aggressive ==> g.stats.free == h.stats.free - K_PAGE_SIZE * n
                            && g.stats.unmapped == h.stats.unmapped + K_PAGE_SIZE * n
  {
    assert h.stats.free == K_PAGE_SIZE * Sum(h.spans, Normal) && h.stats.unmapped == K_PAGE_SIZE * Sum(h.spans, Returned) by {
      ByteCounters(h, system, leaked);
    }
    assert g.stats.free == K_PAGE_SIZE * Sum(g.spans, Normal) && g.stats.unmapped == K_PAGE_SIZE * Sum(g.spans, Returned) by {
      ByteCounters(g, system, leaked);
    }
  }
}
