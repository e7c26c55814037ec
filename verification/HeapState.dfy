/** The page heap's state as a value, its invariant, and the lemmas about one change at a time. */
module HeapState {
  import opened Collections
  import opened Spans

  const K_PAGE_SIZE := 8192
  const K_MAX_PAGES := 128

  /** The free spans of one length (page_heap.h, SpanList). */
  datatype SpanList = SpanList(normal: seq<SpanPtr>, returned: seq<SpanPtr>)

  /** Byte counters (page_heap.h, Stats). */
  datatype Stats = Stats(system: int, free: int, unmapped: int, committed: int,
                         totalCommit: int, totalDecommit: int, totalReserve: int)

  type Table = map<SpanPtr, Span>

  /** free_, large_normal_ and large_returned_; entry i of `small` holds the spans of length i + 1. */
  datatype FreeLists = FreeLists(small: seq<SpanList>, largeNormal: set<SpanPtr>, largeReturned: set<SpanPtr>)

  datatype Heap = Heap(spans: Table, pagemap: map<nat, SpanPtr>, lists: FreeLists, stats: Stats)

  // ------------------------------------------------------------------ tables of spans

  ghost predicate Apart(x: Span, y: Span) {
    x.End() <= y.start || y.End() <= x.start
  }

  ghost predicate Proper(x: Span) {
    0 < x.start && 0 < x.length && (x.location != InUse ==> x.sizeclass == 0)
  }

  /** Non-empty spans, no two of which share a page. */
  ghost predicate Disjoint(t: Table) {
    && (forall s {:trigger Proper(t[s])} :: s in t ==> Proper(t[s]))
    && (forall a, b {:trigger Apart(t[a], t[b])} :: a in t && b in t && a != b ==> Apart(t[a], t[b]))
  }

  ghost function Range(d: Span): set<nat> {
    set p: nat | p < d.End() && d.Has(p)
  }

  /** Every page covered by a span of the table. */
  ghost function Pages(t: Table): set<nat> {
    if t == map[] then {} else
      var s :| s in t;
      Range(t[s]) + Pages(t - {s})
  }

  ghost function OfLocation(t: Table, l: Location): Table {
    t - (set s | s in t && t[s].location != l)
  }

  /** The pages covered by spans with location `l`. */
  ghost function PagesAt(t: Table, l: Location): set<nat> {
    Pages(OfLocation(t, l))
  }

  function Part(d: Span, l: Location): nat {
    if d.location == l then d.length else 0
  }

  /** The summed length of the spans with location `l`. */
  ghost function Sum(t: Table, l: Location): nat {
    if t == map[] then 0 else
      var s :| s in t;
      Part(t[s], l) + Sum(t - {s}, l)
  }

  lemma {:induction false} SumPeel(t: Table, s: SpanPtr, l: Location)
    requires s in t
    ensures Sum(t, l) == Part(t[s], l) + Sum(t - {s}, l)
    decreases |t|
  {
    var c :| c in t && Sum(t, l) == Part(t[c], l) + Sum(t - {c}, l);
    if c != s {
      SumPeel(t - {c}, s, l);
      SumPeel(t - {s}, c, l);
      assert t - {c} - {s} == t - {s} - {c};
    }
  }

  lemma {:induction false} PagesPeel(t: Table, s: SpanPtr)
    requires s in t
    ensures Pages(t) == Pages(t - {s}) + Range(t[s])
    decreases |t|
  {
    var c :| c in t && Pages(t) == Range(t[c]) + Pages(t - {c});
    if c != s {
      PagesPeel(t - {c}, s);
      PagesPeel(t - {s}, c);
      assert t - {c} - {s} == t - {s} - {c};
    }
  }

  lemma PagesAtPeel(t: Table, s: SpanPtr, l: Location)
    requires s in t
    ensures PagesAt(t, l) == PagesAt(t - {s}, l) + (if t[s].location == l then Range(t[s]) else {})
  {
    if t[s].location == l {
      PagesPeel(OfLocation(t, l), s);
      assert OfLocation(t, l) - {s} == OfLocation(t - {s}, l);
    } else {
      assert OfLocation(t, l) == OfLocation(t - {s}, l);
    }
  }

  lemma HasPage(t: Table, s: SpanPtr, p: nat)
    requires s in t && t[s].Has(p)
    ensures p in Pages(t)
  {
    PagesPeel(t, s);
    assert p in Range(t[s]);
  }

  lemma {:induction false} PageHolder(t: Table, p: nat) returns (s: SpanPtr)
    requires p in Pages(t)
    ensures s in t && t[s].Has(p)
    decreases |t|
  {
    s :| s in t && Pages(t) == Range(t[s]) + Pages(t - {s});
    if p !in Range(t[s]) { s := PageHolder(t - {s}, p); }
  }

  /** The spans that are on some free list. */
  ghost function FreeOf(t: Table): Table {
    t - (set s | s in t && t[s].location == InUse)
  }

  /** The spans handed out. */
  ghost function UsedOf(t: Table): Table {
    t - (set s | s in t && t[s].location != InUse)
  }

  /** No two neighbouring free spans share a location. */
  ghost predicate Coalesced(t: Table) {
    forall a, b {:trigger Differ(t[a], t[b])} :: a in t && b in t ==> Differ(t[a], t[b])
  }

  /** `y` does not follow the free span `x` with the same location. */
  ghost predicate Differ(x: Span, y: Span) {
    x.End() == y.start && x.location != InUse ==> x.location != y.location
  }

  // ------------------------------------------------------------------ invariant

  /** The page map entries that matter for span `s`: its first and last page and, for a
      small-object span, every page. */
  ghost predicate Anchored(m: map<nat, SpanPtr>, s: SpanPtr, d: Span) {
    && d.start in m && m[d.start] == s
    && d.End() - 1 in m && m[d.End() - 1] == s
    && (d.sizeclass > 0 ==> forall p: nat {:trigger d.Has(p)} :: d.Has(p) ==> p in m && m[p] == s)
  }

  /** Every span is anchored and nothing is mapped outside the covered pages. Interior entries are
      otherwise free: they may name deleted or unrelated descriptors. */
  ghost predicate MapOk(h: Heap) {
    && (forall s {:trigger Anchored(h.pagemap, s, h.spans[s])} :: s in h.spans ==> Anchored(h.pagemap, s, h.spans[s]))
    && h.pagemap.Keys <= Pages(h.spans)
  }

  ghost predicate Layout(h: Heap) {
    Disjoint(h.spans) && MapOk(h)
  }

  /** `q` lists exactly the spans of `f` with location `l` and length `n`, each once. */
  ghost predicate ListOk(q: seq<SpanPtr>, f: Table, l: Location, n: nat) {
    && Distinct(q)
    && (forall s {:trigger s in q} :: s in q <==> s in f && f[s].location == l && f[s].length == n)
  }

  ghost predicate LargeOk(q: set<SpanPtr>, f: Table, l: Location) {
    forall s {:trigger s in q} :: s in q <==> s in f && f[s].location == l && f[s].length > K_MAX_PAGES
  }

  /** The lists and sets hold exactly the spans of `f`. */
  ghost predicate ListsOk(q: FreeLists, f: Table) {
    && |q.small| == K_MAX_PAGES
    && (forall n {:trigger q.small[n]} :: 0 <= n < K_MAX_PAGES ==>
          ListOk(q.small[n].normal, f, Normal, n + 1) && ListOk(q.small[n].returned, f, Returned, n + 1))
    && LargeOk(q.largeNormal, f, Normal)
    && LargeOk(q.largeReturned, f, Returned)
  }

  /** ... and the byte counters agree. */
  ghost predicate Listing(h: Heap, f: Table) {
    && ListsOk(h.lists, f)
    && h.stats.free == K_PAGE_SIZE * Sum(f, Normal)
    && h.stats.unmapped == K_PAGE_SIZE * Sum(f, Returned)
  }

  ghost function Total(t: Table): nat {
    Sum(t, InUse) + Sum(t, Normal) + Sum(t, Returned)
  }

  /** Bytes obtained and bytes committed; `leaked` counts pages lost when the page map could not grow. */
  ghost predicate Accounts(st: Stats, t: Table, leaked: nat) {
    && st.system == K_PAGE_SIZE * (Total(t) + leaked)
    && st.committed == st.system - K_PAGE_SIZE * Sum(t, Returned)
    && st.committed == st.totalCommit - st.totalDecommit
    && st.totalReserve == st.system
  }

  ghost predicate Inv(h: Heap, system: set<nat>, leaked: nat) {
    && Layout(h)
    && Pages(h.spans) == system
    && Listing(h, FreeOf(h.spans))
    && Accounts(h.stats, h.spans, leaked)
  }

  // ------------------------------------------------------------------ list operations

  function Dropped(q: FreeLists, s: SpanPtr, d: Span): FreeLists
    requires |q.small| == K_MAX_PAGES && d.length > 0
  {
    if d.length > K_MAX_PAGES then
      if d.location == Normal then q.(largeNormal := q.largeNormal - {s})
      else q.(largeReturned := q.largeReturned - {s})
    else
      var l := q.small[d.length - 1];
      q.(small := q.small[d.length - 1 := if d.location == Normal then l.(normal := Without(l.normal, s))
                                          else l.(returned := Without(l.returned, s))])
  }

  function Entered(q: FreeLists, s: SpanPtr, d: Span): FreeLists
    requires |q.small| == K_MAX_PAGES && d.length > 0
  {
    if d.length > K_MAX_PAGES then
      if d.location == Normal then q.(largeNormal := q.largeNormal + {s})
      else q.(largeReturned := q.largeReturned + {s})
    else
      var l := q.small[d.length - 1];
      q.(small := q.small[d.length - 1 := if d.location == Normal then l.(normal := [s] + l.normal)
                                          else l.(returned := [s] + l.returned)])
  }

  /** The list of the free spans with the length and location of `d`. */
  function Shortlist(q: FreeLists, d: Span): seq<SpanPtr>
    requires |q.small| == K_MAX_PAGES && 0 < d.length <= K_MAX_PAGES
  {
    if d.location == Normal then q.small[d.length - 1].normal else q.small[d.length - 1].returned
  }

  /** The byte counter of a location changes by `pages` pages. */
  function Counted(st: Stats, l: Location, pages: int): Stats {
    if l == Normal then st.(free := st.free + K_PAGE_SIZE * pages)
    else st.(unmapped := st.unmapped + K_PAGE_SIZE * pages)
  }

  /** `s` leaves its list. */
  function Unlisted(h: Heap, s: SpanPtr): Heap
    requires s in h.spans && |h.lists.small| == K_MAX_PAGES && h.spans[s].length > 0
  {
    h.(lists := Dropped(h.lists, s, h.spans[s]), stats := Counted(h.stats, h.spans[s].location, -(h.spans[s].length as int)))
  }

  /** `s` goes to the front of the list for its length and location. */
  function Listed(h: Heap, s: SpanPtr): Heap
    requires s in h.spans && |h.lists.small| == K_MAX_PAGES && h.spans[s].length > 0
  {
    h.(lists := Entered(h.lists, s, h.spans[s]), stats := Counted(h.stats, h.spans[s].location, h.spans[s].length))
  }

  lemma ListOkRemove(q: seq<SpanPtr>, f: Table, s: SpanPtr, l: Location, n: nat)
    requires s in f && ListOk(q, f, l, n)
    ensures ListOk(Without(q, s), f - {s}, l, n)
    ensures f[s].location != l || f[s].length != n ==> ListOk(q, f - {s}, l, n)
  {
    WithoutSpec(q, s);
  }

  lemma ListOkAdd(q: seq<SpanPtr>, f: Table, s: SpanPtr, d: Span, l: Location, n: nat)
    requires s !in f && ListOk(q, f, l, n)
    ensures d.location == l && d.length == n ==> ListOk([s] + q, f[s := d], l, n)
    ensures d.location != l || d.length != n ==> ListOk(q, f[s := d], l, n)
  {
    assert s !in q;
  }

  lemma DroppedOk(q: FreeLists, f: Table, s: SpanPtr)
    requires ListsOk(q, f) && s in f && f[s].location != InUse && f[s].length > 0
    ensures ListsOk(Dropped(q, s, f[s]), f - {s})
  {
    var g := Dropped(q, s, f[s]);
    forall n | 0 <= n < K_MAX_PAGES
      ensures ListOk(g.small[n].normal, f - {s}, Normal, n + 1) && ListOk(g.small[n].returned, f - {s}, Returned, n + 1)
    {
      ListOkRemove(q.small[n].normal, f, s, Normal, n + 1);
      ListOkRemove(q.small[n].returned, f, s, Returned, n + 1);
    }
  }

  lemma EnteredOk(q: FreeLists, f: Table, s: SpanPtr, d: Span)
    requires ListsOk(q, f) && s !in f && d.location != InUse && d.length > 0
    ensures ListsOk(Entered(q, s, d), f[s := d])
  {
    var g := Entered(q, s, d);
    forall n | 0 <= n < K_MAX_PAGES
      ensures ListOk(g.small[n].normal, f[s := d], Normal, n + 1) && ListOk(g.small[n].returned, f[s := d], Returned, n + 1)
    {
      ListOkAdd(q.small[n].normal, f, s, d, Normal, n + 1);
      ListOkAdd(q.small[n].returned, f, s, d, Returned, n + 1);
    }
  }

  lemma UnlistedListing(h: Heap, f: Table, s: SpanPtr)
    requires Listing(h, f) && s in f && s in h.spans && f[s] == h.spans[s]
    requires f[s].location != InUse && f[s].length > 0
    ensures Listing(Unlisted(h, s), f - {s})
  {
    DroppedOk(h.lists, f, s);
    SumPeel(f, s, Normal);
    SumPeel(f, s, Returned);
  }

  lemma ListedListing(h: Heap, f: Table, s: SpanPtr)
    requires Listing(h, f) && s !in f && s in h.spans
    requires h.spans[s].location != InUse && h.spans[s].length > 0
    ensures Listing(Listed(h, s), f[s := h.spans[s]])
  {
    var f' := f[s := h.spans[s]];
    EnteredOk(h.lists, f, s, h.spans[s]);
    SumPeel(f', s, Normal);
    SumPeel(f', s, Returned);
    assert f' - {s} == f;
  }

  // ------------------------------------------------------------------ neighbours

  /** What the page map says just before a span: nothing, or the live span that ends there.
      Stale interior entries are never seen. */
  lemma NeighbourBefore(h: Heap, s: SpanPtr)
    requires Layout(h) && s in h.spans
    ensures h.spans[s].start - 1 in h.pagemap ==>
              var q := h.pagemap[h.spans[s].start - 1];
              q in h.spans && q != s && h.spans[q].End() == h.spans[s].start
    ensures h.spans[s].start - 1 !in h.pagemap ==>
              forall q :: q in h.spans ==> h.spans[q].End() != h.spans[s].start
  {
    assert Proper(h.spans[s]);
    var p := h.spans[s].start - 1;
    if p in h.pagemap {
      var q := PageHolder(h.spans, p);
      assert q != s ==> Apart(h.spans[q], h.spans[s]);
      assert Anchored(h.pagemap, q, h.spans[q]);
    } else {
      forall q | q in h.spans ensures h.spans[q].End() != h.spans[s].start {
        assert Anchored(h.pagemap, q, h.spans[q]);
      }
    }
  }

  lemma NeighbourAfter(h: Heap, s: SpanPtr)
    requires Layout(h) && s in h.spans
    ensures h.spans[s].End() in h.pagemap ==>
              var q := h.pagemap[h.spans[s].End()];
              q in h.spans && q != s && h.spans[q].start == h.spans[s].End()
    ensures h.spans[s].End() !in h.pagemap ==>
              forall q :: q in h.spans ==> h.spans[q].start != h.spans[s].End()
  {
    assert Proper(h.spans[s]);
    var p := h.spans[s].End();
    if p in h.pagemap {
      var q := PageHolder(h.spans, p);
      assert q != s ==> Apart(h.spans[q], h.spans[s]);
      assert Anchored(h.pagemap, q, h.spans[q]);
    } else {
      forall q | q in h.spans ensures h.spans[q].start != h.spans[s].End() {
        assert Anchored(h.pagemap, q, h.spans[q]);
      }
    }
  }

  // ------------------------------------------------------------------ layout changes

  /** `s` swallows its left neighbour `q`. */
  function MergedBefore(h: Heap, s: SpanPtr, q: SpanPtr): Heap
    requires s in h.spans && q in h.spans
  {
    var d := h.spans[s].(start := h.spans[q].start, length := h.spans[q].length + h.spans[s].length);
    h.(spans := (h.spans - {q})[s := d], pagemap := h.pagemap[h.spans[q].start := s])
  }

  /** `s` swallows its right neighbour `q`. */
  function MergedAfter(h: Heap, s: SpanPtr, q: SpanPtr): Heap
    requires s in h.spans && q in h.spans && 0 < h.spans[q].length
  {
    var d := h.spans[s].(length := h.spans[s].length + h.spans[q].length);
    h.(spans := (h.spans - {q})[s := d], pagemap := h.pagemap[d.End() - 1 := s])
  }

  lemma RangeJoin(a: Span, b: Span, c: Span)
    requires a.End() == b.start && c.start == a.start && c.length == a.length + b.length
    ensures Range(c) == Range(a) + Range(b)
  {
    forall p: nat ensures p in Range(c) <==> p in Range(a) + Range(b) {
      assert p in Range(c) <==> c.Has(p);
      assert p in Range(a) <==> a.Has(p);
      assert p in Range(b) <==> b.Has(p);
    }
  }

  lemma MergedPages(t: Table, s: SpanPtr, q: SpanPtr, d: Span)
    requires s in t && q in t && s != q && Range(d) == Range(t[q]) + Range(t[s])
    ensures Pages((t - {q})[s := d]) == Pages(t)
    ensures t[q].location == t[s].location == d.location ==>
              forall l :: PagesAt((t - {q})[s := d], l) == PagesAt(t, l)
  {
    var t' := (t - {q})[s := d];
    assert t' - {s} == t - {q} - {s};
    PagesPeel(t, q);
    PagesPeel(t - {q}, s);
    PagesPeel(t', s);
    forall l ensures t[q].location == t[s].location == d.location ==> PagesAt(t', l) == PagesAt(t, l) {
      PagesAtPeel(t, q, l);
      PagesAtPeel(t - {q}, s, l);
      PagesAtPeel(t', s, l);
    }
  }

  lemma MergedSums(t: Table, s: SpanPtr, q: SpanPtr, d: Span, l: Location)
    requires s in t && q in t && s != q
    ensures Sum((t - {q})[s := d], l) == Sum(t, l) - Part(t[s], l) - Part(t[q], l) + Part(d, l)
  {
    var t' := (t - {q})[s := d];
    assert t' - {s} == t - {q} - {s};
    SumPeel(t, q, l);
    SumPeel(t - {q}, s, l);
    SumPeel(t', s, l);
  }

  /** Joining two neighbours keeps the table disjoint. */
  lemma MergedDisjoint(t: Table, s: SpanPtr, q: SpanPtr, d: Span)
    requires Disjoint(t) && s in t && q in t && s != q && Proper(d)
    requires (t[q].End() == t[s].start && d.start == t[q].start) || (t[s].End() == t[q].start && d.start == t[s].start)
    requires d.length == t[s].length + t[q].length
    ensures Disjoint((t - {q})[s := d])
  {
    var t' := (t - {q})[s := d];
    forall x | x in t' ensures Proper(t'[x]) { assert x != s ==> Proper(t[x]); }
    forall x, y | x in t' && y in t' && x != y ensures Apart(t'[x], t'[y]) {
      assert Apart(t[x], t[y]);
      assert Proper(t[s]) && Proper(t[q]) && Proper(t[x]) && Proper(t[y]);
      if x == s { assert Apart(t[q], t[y]); }
      if y == s { assert Apart(t[x], t[q]); }
    }
  }

  lemma MergedBeforeLayout(h: Heap, s: SpanPtr, q: SpanPtr)
    requires Layout(h) && s in h.spans && q in h.spans && s != q
    requires h.spans[q].End() == h.spans[s].start
    requires h.spans[s].sizeclass == h.spans[q].sizeclass == 0
    ensures Layout(MergedBefore(h, s, q))
    ensures Pages(MergedBefore(h, s, q).spans) == Pages(h.spans)
  {
    var g := MergedBefore(h, s, q);
    assert Proper(h.spans[q]) && Proper(h.spans[s]);
    assert Disjoint(g.spans) by { MergedDisjoint(h.spans, s, q, g.spans[s]); }
    assert Pages(g.spans) == Pages(h.spans) by {
      RangeJoin(h.spans[q], h.spans[s], g.spans[s]);
      MergedPages(h.spans, s, q, g.spans[s]);
    }
    assert Anchored(h.pagemap, q, h.spans[q]);
    forall x | x in g.spans ensures Anchored(g.pagemap, x, g.spans[x]) {
      assert Anchored(h.pagemap, x, h.spans[x]) && Proper(h.spans[x]);
      if x != s { AnchorKept(h.pagemap, x, h.spans[x], h.spans[q], h.spans[q].start, s); }
    }
  }

  lemma MergedAfterLayout(h: Heap, s: SpanPtr, q: SpanPtr)
    requires Layout(h) && s in h.spans && q in h.spans && s != q
    requires h.spans[s].End() == h.spans[q].start
    requires h.spans[s].sizeclass == h.spans[q].sizeclass == 0 && 0 < h.spans[q].length
    ensures Layout(MergedAfter(h, s, q))
    ensures Pages(MergedAfter(h, s, q).spans) == Pages(h.spans)
  {
    var g := MergedAfter(h, s, q);
    assert Proper(h.spans[q]) && Proper(h.spans[s]);
    assert Disjoint(g.spans) by { MergedDisjoint(h.spans, s, q, g.spans[s]); }
    assert Pages(g.spans) == Pages(h.spans) by {
      RangeJoin(h.spans[s], h.spans[q], g.spans[s]);
      MergedPages(h.spans, s, q, g.spans[s]);
    }
    assert g.pagemap.Keys <= Pages(h.spans) by { assert Anchored(h.pagemap, q, h.spans[q]); }
    forall x | x in g.spans ensures Anchored(g.pagemap, x, g.spans[x]) { MergedAfterAnchor(h, s, q, x); }
  }

  lemma MergedAfterAnchor(h: Heap, s: SpanPtr, q: SpanPtr, x: SpanPtr)
    requires Layout(h) && s in h.spans && q in h.spans && s != q
    requires h.spans[s].End() == h.spans[q].start
    requires h.spans[s].sizeclass == h.spans[q].sizeclass == 0 && 0 < h.spans[q].length
    requires x in MergedAfter(h, s, q).spans
    ensures Anchored(MergedAfter(h, s, q).pagemap, x, MergedAfter(h, s, q).spans[x])
  {
    assert Anchored(h.pagemap, q, h.spans[q]) && Proper(h.spans[q]);
    assert Anchored(h.pagemap, x, h.spans[x]) && Proper(h.spans[x]);
    if x != s { AnchorKept(h.pagemap, x, h.spans[x], h.spans[q], h.spans[q].End() - 1, s); }
  }

  /** `s` keeps its first `n` pages and the new descriptor `r` takes the others. */
  function Divided(h: Heap, s: SpanPtr, r: SpanPtr, n: nat, ls: Location, lr: Location): Heap
    requires s in h.spans && 0 < n < h.spans[s].length
  {
    var d := h.spans[s];
    h.(spans := h.spans[s := d.(length := n, location := ls)][r := Span(d.start + n, d.length - n, lr, 0)],
       pagemap := h.pagemap[d.start + n := r][d.End() - 1 := r][d.start + n - 1 := s])
  }

  lemma DividedTable(t: Table, s: SpanPtr, r: SpanPtr, n: nat, ls: Location, lr: Location)
    requires s in t && r !in t && 0 < n < t[s].length
    ensures var t' := t[s := t[s].(length := n, location := ls)][r := Span(t[s].start + n, t[s].length - n, lr, 0)];
            && Pages(t') == Pages(t)
            && forall l :: Sum(t', l) == Sum(t, l) - Part(t[s], l) + Part(t'[s], l) + Part(t'[r], l)
  {
    var t' := t[s := t[s].(length := n, location := ls)][r := Span(t[s].start + n, t[s].length - n, lr, 0)];
    assert t' - {r} - {s} == t - {s};
    RangeJoin(t'[s], t'[r], t[s]);
    PagesPeel(t, s);
    PagesPeel(t', r);
    PagesPeel(t' - {r}, s);
    forall l ensures Sum(t', l) == Sum(t, l) - Part(t[s], l) + Part(t'[s], l) + Part(t'[r], l) {
      SumPeel(t, s, l);
      SumPeel(t', r, l);
      SumPeel(t' - {r}, s, l);
    }
  }

  lemma DividedDisjoint(t: Table, s: SpanPtr, r: SpanPtr, x: Span, y: Span)
    requires Disjoint(t) && s in t && r !in t && Proper(x) && Proper(y)
    requires x.start == t[s].start && x.End() == y.start && y.End() == t[s].End()
    ensures Disjoint(t[s := x][r := y])
  {
    var t' := t[s := x][r := y];
    forall a | a in t' ensures Proper(t'[a]) {
      if a != r && a != s { assert Proper(t[a]); }
    }
    forall a, b | a in t' && b in t' && a != b ensures Apart(t'[a], t'[b]) {
      if a in t && b in t { assert Apart(t[a], t[b]); }
      if a in t && a != s { assert Apart(t[a], t[s]); }
      if b in t && b != s { assert Apart(t[s], t[b]); }
    }
  }

  /** Writing pages of one span leaves the anchors of a span apart from it in place. */
  lemma AnchorKept(m: map<nat, SpanPtr>, x: SpanPtr, e: Span, d: Span, p: nat, v: SpanPtr)
    requires Anchored(m, x, e) && Apart(e, d) && d.Has(p) && Proper(e)
    ensures Anchored(m[p := v], x, e)
  {
  }

  lemma DividedAnchors(h: Heap, s: SpanPtr, r: SpanPtr, n: nat, ls: Location, lr: Location, x: SpanPtr)
    requires Layout(h) && s in h.spans && r !in h.spans && 0 < n < h.spans[s].length
    requires h.spans[s].sizeclass == 0 && x in Divided(h, s, r, n, ls, lr).spans
    ensures Anchored(Divided(h, s, r, n, ls, lr).pagemap, x, Divided(h, s, r, n, ls, lr).spans[x])
  {
    var d := h.spans[s];
    assert Anchored(h.pagemap, s, d) && Proper(d);
    if x != r && x != s {
      var e := h.spans[x];
      assert Anchored(h.pagemap, x, e) && Apart(e, d) && Proper(e);
      AnchorKept(h.pagemap, x, e, d, d.start + n, r);
      AnchorKept(h.pagemap[d.start + n := r], x, e, d, d.End() - 1, r);
      AnchorKept(h.pagemap[d.start + n := r][d.End() - 1 := r], x, e, d, d.start + n - 1, s);
    }
  }

  lemma DividedLayout(h: Heap, s: SpanPtr, r: SpanPtr, n: nat, ls: Location, lr: Location)
    requires Layout(h) && s in h.spans && r !in h.spans && 0 < n < h.spans[s].length
    requires h.spans[s].sizeclass == 0
    ensures Layout(Divided(h, s, r, n, ls, lr))
    ensures Pages(Divided(h, s, r, n, ls, lr).spans) == Pages(h.spans)
  {
    var g := Divided(h, s, r, n, ls, lr);
    var d := h.spans[s];
    assert Pages(g.spans) == Pages(h.spans) by { DividedTable(h.spans, s, r, n, ls, lr); }
    assert Proper(d);
    assert Disjoint(g.spans) by { DividedDisjoint(h.spans, s, r, g.spans[s], g.spans[r]); }
    forall x | x in g.spans ensures Anchored(g.pagemap, x, g.spans[x]) {
      DividedAnchors(h, s, r, n, ls, lr, x);
    }
    forall p | p in {d.start + n, d.End() - 1, d.start + n - 1} ensures p in Pages(h.spans) {
      HasPage(h.spans, s, p);
    }
  }

  /** A new span enters the table. */
  function Recorded(h: Heap, s: SpanPtr, d: Span): Heap
    requires 0 < d.length
  {
    h.(spans := h.spans[s := d], pagemap := h.pagemap[d.start := s][d.End() - 1 := s])
  }

  lemma FreshApart(t: Table, x: SpanPtr, d: Span)
    requires x in t && Range(d) !! Pages(t) && Proper(t[x]) && Proper(d)
    ensures Apart(t[x], d)
  {
    var p := if t[x].start >= d.start then t[x].start else d.start;
    if t[x].Has(p) { HasPage(t, x, p); }
    assert p in Range(d) <==> d.Has(p);
  }

  lemma RecordedDisjoint(t: Table, s: SpanPtr, d: Span)
    requires Disjoint(t) && s !in t && Proper(d) && Range(d) !! Pages(t)
    ensures Disjoint(t[s := d])
    ensures Pages(t[s := d]) == Pages(t) + Range(d)
    ensures forall l :: Sum(t[s := d], l) == Sum(t, l) + Part(d, l)
  {
    var t' := t[s := d];
    assert t' - {s} == t;
    PagesPeel(t', s);
    forall l ensures Sum(t', l) == Sum(t, l) + Part(d, l) { SumPeel(t', s, l); }
    forall x | x in t' ensures Proper(t'[x]) { assert x != s ==> Proper(t[x]); }
    forall x, y | x in t' && y in t' && x != y ensures Apart(t'[x], t'[y]) {
      if x != s && y != s { assert Apart(t[x], t[y]); }
      else if x == s { assert Proper(t[y]); FreshApart(t, y, d); }
      else { assert Proper(t[x]); FreshApart(t, x, d); }
    }
  }

  lemma RecordedLayout(h: Heap, s: SpanPtr, d: Span)
    requires Layout(h) && s !in h.spans && Proper(d) && d.sizeclass == 0 && Range(d) !! Pages(h.spans)
    ensures Layout(Recorded(h, s, d)) && Pages(Recorded(h, s, d).spans) == Pages(h.spans) + Range(d)
  {
    var g := Recorded(h, s, d);
    RecordedDisjoint(h.spans, s, d);
    assert d.start in Range(d) && d.End() - 1 in Range(d) by { assert d.Has(d.start) && d.Has(d.End() - 1); }
    forall x | x in g.spans ensures Anchored(g.pagemap, x, g.spans[x]) {
      if x != s {
        assert Anchored(h.pagemap, x, h.spans[x]) && Proper(h.spans[x]);
        FreshApart(h.spans, x, d);
      }
    }
  }
}
