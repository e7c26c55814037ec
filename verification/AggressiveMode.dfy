/** Aggressive decommit and coalescing: two returned spans can end up side by side, and exactly when. */
module AggressiveMode {

  import opened Spans
  import opened HeapState
  import opened HeapSteps

  // ------------------------------------------------------------------ the condition

  /** No normal span just before `s` has a returned span at its far end. */
  ghost predicate LeftSafe(t: Table, s: SpanPtr) {
    s in t && forall q, x {:trigger BeforeBoth(t, s, q, x)} :: !BeforeBoth(t, s, q, x)
  }

  ghost predicate BeforeBoth(t: Table, s: SpanPtr, q: SpanPtr, x: SpanPtr) {
    && s in t && q in t && x in t && q != s && x != s
    && t[q].location == Normal && t[q].End() == t[s].start
    && t[x].location == Returned && t[x].End() == t[q].start
  }

  ghost predicate RightSafe(t: Table, s: SpanPtr) {
    s in t && forall q, x {:trigger BehindBoth(t, s, q, x)} :: !BehindBoth(t, s, q, x)
  }

  ghost predicate BehindBoth(t: Table, s: SpanPtr, q: SpanPtr, x: SpanPtr) {
    && s in t && q in t && x in t && q != s && x != s
    && t[q].location == Normal && t[s].End() == t[q].start
    && t[x].location == Returned && t[q].End() == t[x].start
  }

  /** No normal neighbour of `s` has a returned span at its far end. */
  ghost predicate Safe(t: Table, s: SpanPtr) { LeftSafe(t, s) && RightSafe(t, s) }

  // ------------------------------------------------------------------ it is enough

  /** Neither the location of `s` nor anything but places and locations of the others matters. */
  lemma SafeElsewhere(t: Table, t': Table, s: SpanPtr)
    requires s in t && s in t' && t' == t[s := t'[s]] && t'[s].start == t[s].start && t'[s].length == t[s].length
    ensures Safe(t, s) <==> Safe(t', s)
    ensures CoalescedBut(t, s) ==> CoalescedBut(t', s)
  {
    forall q, x ensures BeforeBoth(t, s, q, x) <==> BeforeBoth(t', s, q, x) {}
    forall q, x ensures BehindBoth(t, s, q, x) <==> BehindBoth(t', s, q, x) {}
    if CoalescedBut(t, s) {
      forall a, b | a in t' && b in t' && a != s && b != s ensures Differ(t'[a], t'[b]) { assert Differ(t[a], t[b]); }
    }
  }

  lemma LeftJoinSettles(t: Table, s: SpanPtr, q: SpanPtr, d: Span)
    requires Disjoint(t) && s in t && q in t && s != q && t[q].End() == t[s].start && t[s].location == d.location != InUse
    requires d.start == t[q].start && d.length == t[q].length + t[s].length
    requires t[q].location == t[s].location || (t[q].location == Normal && t[s].location == Returned)
    requires CoalescedBut(t, s) && Safe(t, s)
    ensures LeftSettled((t - {q})[s := d], s) && RightSafe((t - {q})[s := d], s)
  {
    var t' := (t - {q})[s := d];
    assert Proper(t[q]) && Proper(t[s]);
    forall x | x in t' && x != s ensures Differ(t'[x], t'[s]) {
      assert Differ(t[x], t[q]) && !BeforeBoth(t, s, q, x);
    }
    forall y, x ensures !BehindBoth(t', s, y, x) { assert !BehindBoth(t, s, y, x); }
  }

  lemma RightJoinSettles(t: Table, s: SpanPtr, q: SpanPtr, d: Span)
    requires Disjoint(t) && s in t && q in t && s != q && t[s].End() == t[q].start && t[s].location == d.location != InUse
    requires d.start == t[s].start && d.length == t[q].length + t[s].length
    requires t[q].location == t[s].location || (t[q].location == Normal && t[s].location == Returned)
    requires CoalescedBut(t, s) && RightSafe(t, s)
    ensures RightSettled((t - {q})[s := d], s)
  {
    var t' := (t - {q})[s := d];
    forall x | x in t' && x != s ensures Differ(t'[s], t'[x]) {
      assert Differ(t[q], t[x]) && !BehindBoth(t, s, q, x);
    }
  }

  lemma PreviousSettles(h: Heap, g: Heap, system: set<nat>, leaked: nat, s: SpanPtr, aggressive: bool)
    requires InHand(h, system, leaked, s) && PreviousStep(h, g, s, aggressive) && CoalescedBut(h.spans, s) && Safe(h.spans, s)
    ensures LeftSettled(g.spans, s) && RightSafe(g.spans, s)
  {
    NeighbourBefore(h, s);
    if g == h { UnmergedBefore(h, s); } else { LeftJoinSettles(h.spans, s, h.pagemap[h.spans[s].start - 1], g.spans[s]); }
  }

  lemma NextSettles(h: Heap, g: Heap, system: set<nat>, leaked: nat, s: SpanPtr, aggressive: bool)
    requires InHand(h, system, leaked, s) && NextStep(h, g, s, aggressive) && CoalescedBut(h.spans, s) && RightSafe(h.spans, s)
    ensures RightSettled(g.spans, s)
  {
    NeighbourAfter(h, s);
    if g == h { UnmergedAfter(h, s); } else { RightJoinSettles(h.spans, s, h.pagemap[h.spans[s].End()], g.spans[s]); }
  }

  /** A merge from a safe place leaves no two equal neighbours, in either mode and whatever is refused. */
  lemma SafeMerge(h: Heap, via: (Heap, Heap, Heap), g: Heap, system: set<nat>, leaked: nat, s: SpanPtr, aggressive: bool)
    requires InHand(h, system, leaked, s) && MergeRun(h, via, g, s, aggressive) && CoalescedBut(h.spans, s) && Safe(h.spans, s)
    ensures Coalesced(g.spans)
  {
    var (a, b, c) := via;
    AfterDecommit(h, a, system, leaked, s, aggressive);
    SafeElsewhere(h.spans, a.spans, s);
    AfterPrevious(a, b, system, leaked, s, aggressive);
    PreviousSettles(a, b, system, leaked, s, aggressive);
    AfterNext(b, c, system, leaked, s, aggressive);
    NextSettles(b, c, system, leaked, s, aggressive);
    Settled(c.spans, s);
  }

  // ------------------------------------------------------------------ it is needed

  /** Spans on the other side stay as they are. */
  ghost predicate KeptAfter(t: Table, t': Table, s: SpanPtr) {
    && s in t && s in t' && t'[s].location == t[s].location && t'[s].End() == t[s].End()
    && forall x :: x in t && x != s && t[s].End() <= t[x].start ==> x in t' && t'[x] == t[x]
  }

  ghost predicate KeptBefore(t: Table, t': Table, s: SpanPtr) {
    && s in t && s in t' && t'[s].location == t[s].location && t'[s].start == t[s].start
    && forall x :: x in t && x != s && t[x].End() <= t[s].start ==> x in t' && t'[x] == t[x]
  }

  /** There is always a way to go on to the left: merge an equal neighbour, leave any other alone. */
  lemma SomePrevious(h: Heap, system: set<nat>, leaked: nat, s: SpanPtr) returns (g: Heap)
    requires InHand(h, system, leaked, s)
    ensures PreviousStep(h, g, s, true) && KeptAfter(h.spans, g.spans, s)
  {
    NeighbourBefore(h, s);
    assert Proper(h.spans[s]);
    var p := h.spans[s].start - 1;
    g := h;
    if p in h.pagemap {
      var q := h.pagemap[p];
      assert Proper(h.spans[q]);
      if h.spans[q].location == h.spans[s].location { g := MergedBefore(TakenOff(h, s, q), s, q); }
    }
  }

  lemma SomeNext(h: Heap, system: set<nat>, leaked: nat, s: SpanPtr) returns (g: Heap)
    requires InHand(h, system, leaked, s)
    ensures NextStep(h, g, s, true) && KeptBefore(h.spans, g.spans, s)
  {
    NeighbourAfter(h, s);
    assert Proper(h.spans[s]);
    var p := h.spans[s].End();
    g := h;
    if p in h.pagemap {
      var q := h.pagemap[p];
      assert Proper(h.spans[q]);
      if h.spans[q].location == h.spans[s].location { g := MergedAfter(TakenOff(h, s, q), s, q); }
    }
  }

  /** The decommit of the span in hand can succeed. */
  lemma SomeDecommit(h: Heap, system: set<nat>, leaked: nat, s: SpanPtr) returns (g: Heap)
    requires InHand(h, system, leaked, s)
    ensures DecommitStep(h, g, s, true) && InHand(g, system, leaked, s) && g.spans[s].location == Returned
    ensures g.spans == h.spans[s := g.spans[s]] && g.spans[s].start == h.spans[s].start && g.spans[s].length == h.spans[s].length
  {
    g := if h.spans[s].location == Normal then Moved(h, s, Returned).(stats := Decommitted(h.stats, h.spans[s].length)) else h;
    AfterDecommit(h, g, system, leaked, s, true);
  }

  /** The map names the span that ends just before `s`, and the one that starts just behind it. */
  lemma NamedBefore(h: Heap, system: set<nat>, leaked: nat, s: SpanPtr, q: SpanPtr)
    requires InHand(h, system, leaked, s) && q in h.spans && q != s && h.spans[q].End() == h.spans[s].start
    ensures h.spans[s].start - 1 in h.pagemap && h.pagemap[h.spans[s].start - 1] == q && h.spans[q].length > 0
    ensures |h.lists.small| == K_MAX_PAGES
  {
    assert Anchored(h.pagemap, q, h.spans[q]) && Proper(h.spans[q]);
  }

  lemma NamedBehind(h: Heap, system: set<nat>, leaked: nat, s: SpanPtr, q: SpanPtr)
    requires InHand(h, system, leaked, s) && q in h.spans && q != s && h.spans[q].start == h.spans[s].End()
    ensures h.spans[s].End() in h.pagemap && h.pagemap[h.spans[s].End()] == q && h.spans[q].length > 0
    ensures |h.lists.small| == K_MAX_PAGES
  {
    assert Anchored(h.pagemap, q, h.spans[q]) && Proper(h.spans[q]);
  }

  lemma LeftUnsafe(h: Heap, system: set<nat>, leaked: nat, s: SpanPtr, q: SpanPtr, x: SpanPtr)
    returns (via: (Heap, Heap, Heap), g: Heap)
    requires InHand(h, system, leaked, s) && BeforeBoth(h.spans, s, q, x)
    ensures MergeRun(h, via, g, s, true) && !Coalesced(g.spans)
  {
    var a := SomeDecommit(h, system, leaked, s);
    NamedBefore(a, system, leaked, s, q);
    var b := MergedBefore(TakenOff(a, s, q), s, q);
    assert PreviousStep(a, b, s, true);
    assert InHand(b, system, leaked, s) by { AfterPrevious(a, b, system, leaked, s, true); }
    var c := SomeNext(b, system, leaked, s);
    assert ReadyFor(c, s) by { AfterNext(b, c, system, leaked, s, true); }
    via := (a, b, c);
    g := Listed(c, s);
    assert Proper(h.spans[q]);
    assert x in b.spans && b.spans[x] == h.spans[x];
    assert !Differ(g.spans[x], g.spans[s]);
  }

  lemma RightUnsafe(h: Heap, system: set<nat>, leaked: nat, s: SpanPtr, q: SpanPtr, x: SpanPtr)
    returns (via: (Heap, Heap, Heap), g: Heap)
    requires InHand(h, system, leaked, s) && BehindBoth(h.spans, s, q, x)
    ensures MergeRun(h, via, g, s, true) && !Coalesced(g.spans)
  {
    var a := SomeDecommit(h, system, leaked, s);
    var b := SomePrevious(a, system, leaked, s);
    assert InHand(b, system, leaked, s) && Readable(b, s, b.spans[s].End()) by { AfterPrevious(a, b, system, leaked, s, true); }
    assert q in b.spans && b.spans[q] == h.spans[q] && x in b.spans && b.spans[x] == h.spans[x] by { assert Proper(h.spans[q]); }
    NamedBehind(b, system, leaked, s, q);
    var c := MergedAfter(TakenOff(b, s, q), s, q);
    assert NextStep(b, c, s, true);
    assert ReadyFor(c, s) by { AfterNext(b, c, system, leaked, s, true); }
    via := (a, b, c);
    g := Listed(c, s);
    assert x != q by { assert Proper(h.spans[q]); }
    assert !Differ(g.spans[s], g.spans[x]);
  }

  /** In aggressive mode a merge is certain to leave no two equal neighbours if and only if no normal
      neighbour of the span has a returned span at its far end. */
  lemma MergeCoalescesExactly(h: Heap, system: set<nat>, leaked: nat, s: SpanPtr)
    requires InHand(h, system, leaked, s) && CoalescedBut(h.spans, s)
    ensures (forall via, g :: MergeRun(h, via, g, s, true) ==> Coalesced(g.spans)) <==> Safe(h.spans, s)
  {
    if Safe(h.spans, s) {
      forall via, g | MergeRun(h, via, g, s, true) ensures Coalesced(g.spans) { SafeMerge(h, via, g, system, leaked, s, true); }
    } else if !LeftSafe(h.spans, s) {
      var q, x :| BeforeBoth(h.spans, s, q, x);
      var via, g := LeftUnsafe(h, system, leaked, s, q, x);
    } else {
      var q, x :| BehindBoth(h.spans, s, q, x);
      var via, g := RightUnsafe(h, system, leaked, s, q, x);
    }
  }

  /** Freeing a span in use: certain to keep maximal coalescing exactly when its place is safe. */
  lemma FreeCoalescesExactly(h: Heap, system: set<nat>, leaked: nat, s: SpanPtr)
    requires Inv(h, system, leaked) && s in h.spans && h.spans[s].location == InUse && Coalesced(h.spans)
    ensures (forall via, g :: MergeRun(Moved(h, s, Normal), via, g, s, true) ==> Coalesced(g.spans)) <==> Safe(h.spans, s)
  {
    var m := Moved(h, s, Normal);
    FreedInHand(h, system, leaked, s);
    CoalescedLeave(h.spans, m.spans, s);
    SafeElsewhere(h.spans, m.spans, s);
    MergeCoalescesExactly(m, system, leaked, s);
  }

  /** The same for releasing a normal free span that the system takes back. */
  lemma ReleaseCoalescesExactly(h: Heap, system: set<nat>, leaked: nat, s: SpanPtr)
    requires Inv(h, system, leaked) && s in h.spans && h.spans[s].location == Normal && Coalesced(h.spans)
    requires h.spans[s].length > 0 && |h.lists.small| == K_MAX_PAGES
    ensures (forall via, g :: MergeRun(Releasing(h, s), via, g, s, true) ==> Coalesced(g.spans)) <==> Safe(h.spans, s)
  {
    var m := Releasing(h, s);
    ReleasedInHand(h, system, leaked, s);
    CoalescedLeave(h.spans, m.spans, s);
    SafeElsewhere(h.spans, m.spans, s);
    MergeCoalescesExactly(m, system, leaked, s);
  }

  lemma SafeFree(h: Heap, via: (Heap, Heap, Heap), g: Heap, system: set<nat>, leaked: nat, s: SpanPtr, aggressive: bool)
    requires Inv(h, system, leaked) && s in h.spans && h.spans[s].location == InUse
    requires MergeRun(Moved(h, s, Normal), via, g, s, aggressive)
    ensures Coalesced(h.spans) && Safe(h.spans, s) ==> Coalesced(g.spans)
  {
    if Coalesced(h.spans) && Safe(h.spans, s) {
      var m := Moved(h, s, Normal);
      FreedInHand(h, system, leaked, s);
      CoalescedLeave(h.spans, m.spans, s);
      SafeElsewhere(h.spans, m.spans, s);
      SafeMerge(m, via, g, system, leaked, s, aggressive);
    }
  }

  lemma SafeRelease(h: Heap, via: (Heap, Heap, Heap), g: Heap, system: set<nat>, leaked: nat, s: SpanPtr, aggressive: bool)
    requires Inv(h, system, leaked) && s in h.spans && h.spans[s].location == Normal
    requires h.spans[s].length > 0 && |h.lists.small| == K_MAX_PAGES
    requires MergeRun(Releasing(h, s), via, g, s, aggressive)
    ensures Coalesced(h.spans) && Safe(h.spans, s) ==> Coalesced(g.spans)
  {
    if Coalesced(h.spans) && Safe(h.spans, s) {
      var m := Releasing(h, s);
      ReleasedInHand(h, system, leaked, s);
      CoalescedLeave(h.spans, m.spans, s);
      SafeElsewhere(h.spans, m.spans, s);
      SafeMerge(m, via, g, system, leaked, s, aggressive);
    }
  }

  // ------------------------------------------------------------------ a heap in which it happens

  const RETURNED_SPAN := Span(1, 1, Returned, 0)
  const NORMAL_SPAN := Span(2, 1, Normal, 0)
  const USED_SPAN := Span(3, 1, InUse, 0)

  /** Three pages: returned, normal, in use. */
  ghost predicate ThreePages(h: Heap) {
    && h.spans.Keys == {1, 2, 3} && h.spans[1] == RETURNED_SPAN && h.spans[2] == NORMAL_SPAN && h.spans[3] == USED_SPAN
    && h.pagemap == map[1 := 1, 2 := 2, 3 := 3]
    && |h.lists.small| == K_MAX_PAGES && h.lists.small[0] == SpanList([2], [1])
    && (forall n :: 0 < n < K_MAX_PAGES ==> h.lists.small[n] == SpanList([], []))
    && h.lists.largeNormal == {} && h.lists.largeReturned == {}
    && h.stats == Stats(24576, 8192, 8192, 16384, 24576, 8192, 24576)
  }

  ghost predicate ThreeSpans(t: Table) {
    t.Keys == {1, 2, 3} && t[1] == RETURNED_SPAN && t[2] == NORMAL_SPAN && t[3] == USED_SPAN
  }

  lemma ThreeSums(t: Table, l: Location)
    requires ThreeSpans(t)
    ensures Sum(t, l) == 1
  {
    SumPeel(t, 1, l);
    SumPeel(t - {1}, 2, l);
    SumPeel(t - {1} - {2}, 3, l);
    assert t - {1} - {2} - {3} == map[];
  }

  lemma TwoSums(t: Table, l: Location)
    requires ThreeSpans(t)
    ensures Sum(FreeOf(t), l) == if l == InUse then 0 else 1
  {
    var f := FreeOf(t);
    SumPeel(f, 1, l);
    SumPeel(f - {1}, 2, l);
    assert f - {1} - {2} == map[];
  }

  lemma OnePage(d: Span)
    requires d.length == 1
    ensures Range(d) == {d.start}
  {
    forall p: nat ensures p in Range(d) <==> p == d.start { assert d.Has(p) <==> p == d.start; }
  }

  lemma ThreeCovered(t: Table)
    requires ThreeSpans(t)
    ensures Pages(t) == {1, 2, 3}
  {
    PagesPeel(t, 1);
    PagesPeel(t - {1}, 2);
    PagesPeel(t - {1} - {2}, 3);
    assert t - {1} - {2} - {3} == map[];
    OnePage(t[1]);
    OnePage(t[2]);
    OnePage(t[3]);
  }

  lemma ThreeListed(h: Heap)
    requires ThreePages(h)
    ensures ListsOk(h.lists, FreeOf(h.spans))
  {
    var q, f := h.lists, FreeOf(h.spans);
    assert f.Keys == {1, 2} && f[1] == RETURNED_SPAN && f[2] == NORMAL_SPAN;
    forall n | 0 <= n < K_MAX_PAGES
      ensures ListOk(q.small[n].normal, f, Normal, n + 1) && ListOk(q.small[n].returned, f, Returned, n + 1)
    {
      if n > 0 { assert q.small[n] == SpanList([], []); }
    }
  }

  lemma ThreeLaidOut(h: Heap)
    requires ThreePages(h)
    ensures Layout(h) && Coalesced(h.spans)
  {
    ThreeCovered(h.spans);
    assert Disjoint(h.spans);
  }

  lemma ThreePagesInv(h: Heap)
    requires ThreePages(h)
    ensures Inv(h, {1, 2, 3}, 0) && Coalesced(h.spans)
  {
    ThreeLaidOut(h);
    ThreeCovered(h.spans);
    assert ListsOk(h.lists, FreeOf(h.spans)) by { ThreeListed(h); }
    TwoSums(h.spans, Normal);
    TwoSums(h.spans, Returned);
    ThreeSums(h.spans, InUse);
    ThreeSums(h.spans, Normal);
    ThreeSums(h.spans, Returned);
  }

  lemma ThreePagesExist() returns (h: Heap)
    ensures ThreePages(h)
  {
    var q := FreeLists(seq(K_MAX_PAGES, n => if n == 0 then SpanList([2], [1]) else SpanList([], [])), {}, {});
    h := Heap(map[1 := RETURNED_SPAN, 2 := NORMAL_SPAN, 3 := USED_SPAN], map[1 := 1, 2 := 2, 3 := 3], q,
              Stats(24576, 8192, 8192, 16384, 24576, 8192, 24576));
  }

  /** Freeing the third page with aggressive decommit on, every decommit succeeding: the heap was maximally
      coalesced, and afterwards two returned spans touch. */
  lemma AggressiveLeavesNeighbours() returns (h: Heap, via: (Heap, Heap, Heap), g: Heap)
    ensures Inv(h, {1, 2, 3}, 0) && Coalesced(h.spans) && 3 in h.spans && h.spans[3].location == InUse
    ensures MergeRun(Moved(h, 3, Normal), via, g, 3, true)
    ensures !Coalesced(g.spans)
  {
    h := ThreePagesExist();
    ThreePagesInv(h);
    var m := Moved(h, 3, Normal);
    var a := Moved(m, 3, Returned).(stats := Decommitted(m.stats, m.spans[3].length));
    var b := MergedBefore(TakenOff(a, 3, 2), 3, 2);
    via := (a, b, b);
    g := Listed(b, 3);
    assert g.spans[1] == RETURNED_SPAN && g.spans[3] == Span(2, 2, Returned, 0);
    assert !Differ(g.spans[1], g.spans[3]);
  }
}
