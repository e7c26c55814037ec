/** The page-level allocator (page_heap.cc). */
module PageHeaps {
  import opened Collections
  import opened Spans
  import opened HeapState
  import opened HeapSteps
  import opened HeapAlloc
  import opened AggressiveMode
  import opened Wrappers
  import opened Bits

  /** The largest page number of a 64-bit address space. */
  const K_MAX_VALID_PAGES: nat := 0x7_FFFF_FFFF_FFFF

  /** kMinSystemAlloc and kForcedCoalesceInterval. */
  const K_MIN_SYSTEM_ALLOC: nat := K_MAX_PAGES
  const K_FORCED_COALESCE_INTERVAL: nat := 134217728

  lemma FreshPtr(q: set<nat>)
    ensures exists r: nat :: r !in q
  {
    var b := Above(q);
    assert b !in q;
  }

  lemma Above(q: set<nat>) returns (b: nat)
    ensures forall x :: x in q ==> x < b
  {
    b := 0;
    var rest := q;
    while rest != {}
      invariant rest <= q && forall x :: x in q && x !in rest ==> x < b
    {
      var x :| x in rest;
      b, rest := if b <= x then x + 1 else b, rest - {x};
    }
  }

  lemma EmptyInv(h: Heap)
    requires h.spans.Keys == {} && h.pagemap.Keys == {} && |h.lists.small| == K_MAX_PAGES
    requires forall i :: 0 <= i < K_MAX_PAGES ==> h.lists.small[i] == SpanList([], [])
    requires h.lists.largeNormal == h.lists.largeReturned == {} && h.stats == Stats(0, 0, 0, 0, 0, 0, 0)
    ensures Inv(h, {}, 0)
  {
    assert FreeOf(h.spans) == h.spans;
  }

  method EmptyHeap() returns (h: Heap)
    ensures Inv(h, {}, 0) && h.spans == map[]
  {
    h := Heap(map[], map[], FreeLists(seq(K_MAX_PAGES, _ => SpanList([], [])), {}, {}), Stats(0, 0, 0, 0, 0, 0, 0));
    EmptyInv(h);
  }

  /** A request to the system for that many pages, and whether it was granted. */
  datatype Ask = Ask(pages: nat, granted: bool)

  /** What is asked for when the heap must grow by `n` pages, `given` in the end or not: a generous run first,
      and just `n` pages when that is refused and is more. */
  ghost predicate AskedFor(before: seq<Ask>, after: seq<Ask>, n: nat, given: bool) {
    var most := if n > 128 then n else 128;
    || (given && after == before + [Ask(most, true)])
    || (n < 128 && after == before + [Ask(most, false), Ask(n, given)])
    || (n >= 128 && !given && after == before + [Ask(most, false)])
  }

  /** A request for `n` pages was turned down by the system, or the pages granted for it were lost. */
  ghost predicate TurnedDown(before: seq<Ask>, after: seq<Ask>, n: nat, lost: nat, lost': nat) {
    lost <= lost' <= lost + 1 && AskedFor(before, after, n, lost' > lost)
  }

  /** At least a quarter of the memory obtained is free, in normal and returned spans both, and `n` more pages
      would cross a multiple of 128 MB. */
  ghost predicate Crowded(st: Stats, n: nat) {
    && st.free != 0 && st.unmapped != 0 && st.free + st.unmapped >= st.system / 4
    && st.system / 0x800_0000 != (st.system + n * 8192) / 0x800_0000
  }

  /** What has passed between the heap and the system. */
  datatype Ledger = Ledger(asked: seq<Ask>, grants: nat, lost: nat, refusals: nat)

  /** What a request for `m` pages that no free span holds comes to when there is no limit. It fails only when
      the system turns it down or the pages granted are lost. Free memory is given back first when the heap is
      crowded, and otherwise nothing is; then the system is asked. */
  ghost predicate Missed(h: Heap, b: Ledger, h': Heap, b': Ledger, m: nat, found: bool) {
    && (!found ==> b'.grants == b.grants)
    && (!found && m <= K_MAX_VALID_PAGES ==> TurnedDown(b.asked, b'.asked, m, b.lost, b'.lost))
    && (m > K_MAX_VALID_PAGES ==> b'.asked == b.asked)
    && (if Crowded(h.stats, m) then !found && b'.refusals == b.refusals ==> GaveBack(h.stats, h'.stats)
        else && (!found ==> h'.spans == h.spans)
             && (m <= K_MAX_VALID_PAGES ==> AskedFor(b.asked, b'.asked, m, found || b'.lost > b.lost)))
  }

  /** Growing by `m` pages and searching again, without a limit: the system is asked, and nothing else changes
      when no span comes of it. */
  ghost predicate Grew(h: Heap, b: Ledger, h': Heap, b': Ledger, m: nat, found: bool) {
    && (if m > K_MAX_VALID_PAGES then b'.asked == b.asked else AskedFor(b.asked, b'.asked, m, found || b'.lost > b.lost))
    && b.lost <= b'.lost <= b.lost + (if found then 0 else 1)
    && (!found ==> && b'.grants == b.grants && b'.refusals == b.refusals && h'.spans == h.spans
                   && h'.stats.free == h.stats.free && h'.stats.unmapped == h.stats.unmapped)
  }

  lemma GrewStill(h: Heap, b: Ledger, h': Heap, b': Ledger, h'': Heap, b'': Ledger, m: nat)
    requires Grew(h, b, h', b', m, true) && b''.asked == b'.asked && b''.lost == b'.lost
    ensures Grew(h, b, h'', b'', m, true)
  {
  }

  lemma GrewMissed(h: Heap, b: Ledger, h': Heap, b': Ledger, m: nat, found: bool)
    requires Grew(h, b, h', b', m, found) && !Crowded(h.stats, m)
    ensures Missed(h, b, h', b', m, found)
  {
  }

  lemma ForcedMissed(h: Heap, b: Ledger, h1: Heap, b1: Ledger, h': Heap, b': Ledger, m: nat, found: bool)
    requires Crowded(h.stats, m) && b1 == b.(refusals := b1.refusals) && b.refusals <= b1.refusals
    requires b1.refusals == b.refusals ==> GaveBack(h.stats, h1.stats)
    requires Grew(h1, b1, h', b', m, found)
    ensures Missed(h, b, h', b', m, found)
  {
  }

  lemma FoundMissed(h: Heap, b: Ledger, h': Heap, b': Ledger, m: nat)
    requires Crowded(h.stats, m) && b'.asked == b.asked
    ensures Missed(h, b, h', b', m, true)
  {
  }

  /** No normal page is left, or more than 2^31 - 2 pages were given back. */
  ghost predicate GaveBack(st: Stats, st': Stats) {
    st'.free == 0 || st'.unmapped >= st.unmapped + 8192 * 0x7FFF_FFFF
  }

  /** A request is served from a free span that fits, unless the limit hinders; otherwise by asking the system, when
      there is no limit. */
  ghost predicate Served(limit: nat, unhindered: bool, h: Heap, b: Ledger, h': Heap, b': Ledger, m: nat, found: bool) {
    && (unhindered && !NoFit(h.spans, m) ==> found && b'.asked == b.asked)
    && (limit == 0 && NoFit(h.spans, m) ==> Missed(h, b, h', b', m, found))
  }

  /** What happens to the heap after a span was found does not matter. */
  lemma ServedStill(limit: nat, unhindered: bool, h: Heap, b: Ledger, h': Heap, b': Ledger, h'': Heap, b'': Ledger, m: nat)
    requires Served(limit, unhindered, h, b, h', b', m, true) && b''.asked == b'.asked && b''.lost == b'.lost
    ensures Served(limit, unhindered, h, b, h'', b'', m, true)
  {
  }

  /** Of list `i` of the heap `h` the normal span that was there longest, or the least of the large ones, is returned
      now; it has `n` pages. */
  ghost predicate OldestReturned(h: Heap, t: Table, i: nat, n: nat) {
    exists s :: Oldest(h, i, s) && s in t && h.spans[s].length == n && t[s].location == Returned
  }

  ghost predicate Oldest(h: Heap, i: nat, s: SpanPtr) {
    && s in h.spans && |h.lists.small| == K_MAX_PAGES && i <= K_MAX_PAGES
    && if i == K_MAX_PAGES
       then s in h.lists.largeNormal && forall x :: x in h.lists.largeNormal && x in h.spans ==> !BestFitLess(h.spans[x], h.spans[s])
       else var q := h.lists.small[i].normal; q != [] && s == q[|q| - 1]
  }

  /** The first `n` pages of `s` are in use; the others, if any, are the span `left` with the location they had; no
      other span has changed. */
  ghost predicate CutFrom(t: Table, t': Table, s: SpanPtr, n: nat, left: SpanPtr) {
    && s in t && s in t' && t'[s].start == t[s].start && t'[s].length == n && t'[s].location == InUse && n <= t[s].length
    && (n < t[s].length ==> left in t' && left !in t && t'[left] == Span(t[s].start + n, t[s].length - n, t[s].location, 0))
    && t'.Keys == t.Keys + (if n < t[s].length then {left} else {})
    && forall x :: x in t && x != s ==> t'[x] == t[x]
  }

  lemma CarvedCuts(t: Table, s: SpanPtr, n: nat, left: SpanPtr)
    requires s in t && n <= t[s].length && (n < t[s].length ==> left !in t)
    ensures CutFrom(t, CarvedTable(t, s, n, left), s, n, left)
  {
  }

  class PageHeap {
    const smallestSpanSize: nat

    var spans: Table
    var pagemap: map<nat, SpanPtr>
    var lists: FreeLists
    var stats: Stats
    var releaseIndex: nat
    var aggressiveDecommit: bool
    /** FLAGS_tcmalloc_heap_limit_mb in pages; zero means no limit. */
    var heapLimit: nat
    /** TCMalloc_SystemTaken in pages. */
    var taken: nat

    /** Every page the system has given us and the page map could record. */
    ghost var system: set<nat>
    /** Pages the system gave us that the page map could not record. */
    ghost var leaked: nat
    /** Every request for memory so far; how many grants could be recorded, and how many could not. */
    ghost var asked: seq<Ask>
    ghost var grants: nat
    ghost var lost: nat
    /** How often the system refused to take pages back. */
    ghost var refusals: nat

    ghost function State(): Heap
      reads this
    {
      Heap(spans, pagemap, lists, stats)
    }

    ghost function Books(): Ledger
      reads this
    {
      Ledger(asked, grants, lost, refusals)
    }

    ghost predicate Valid()
      reads this
    {
      && Inv(State(), system, leaked)
      && IsPower(smallestSpanSize) && smallestSpanSize <= K_MAX_VALID_PAGES
      && releaseIndex <= K_MAX_PAGES + 1
      && (forall p :: p in system ==> p <= K_MAX_VALID_PAGES)
    }

    /** The original stops the program when `smallest` is not a power of two. */
    constructor (smallest: nat)
      requires IsPower(smallest) && smallest <= K_MAX_VALID_PAGES
      ensures Valid() && spans == map[] && system == {} && leaked == 0 && asked == [] && grants == 0 && lost == 0 && refusals == 0
      ensures smallestSpanSize == smallest && !aggressiveDecommit && heapLimit == 0
    {
      smallestSpanSize := smallest;
      releaseIndex := K_MAX_PAGES;
      aggressiveDecommit := false;
      heapLimit, taken := 0, 0;
      system, leaked, asked, grants, lost, refusals := {}, 0, [], 0, 0, 0;
      new;
      var h := EmptyHeap();
      spans, pagemap, lists, stats := h.spans, h.pagemap, h.lists, h.stats;
    }

    // ---------------------------------------------------------------- the operating system

    /** TCMalloc_SystemRelease: may refuse. */
    method SystemRelease() returns (ok: bool)
      modifies `refusals
      ensures refusals == old(refusals) + (if ok then 0 else 1)
    {
      ok := *;
      if !ok { refusals := refusals + 1; }
    }

    /** pagemap_.Ensure for pages just granted: may fail. */
    method EnsurePages() returns (ok: bool)
      modifies `lost
      ensures lost == old(lost) + (if ok then 0 else 1)
    {
      ok := *;
      if !ok { lost := lost + 1; }
    }

    /** TCMalloc_SystemAlloc: refuses, or gives at least `ask` pages that overlap nothing we have. */
    method SystemAlloc(ask: nat) returns (r: Option<(nat, nat)>)
      requires 0 < ask
      requires forall p :: p in system ==> exists s :: s in spans && spans[s].Has(p)
      modifies `taken, `asked
      ensures asked == old(asked) + [Ask(ask, r.Some?)]
      ensures r.Some? ==> var (p, n) := r.value;
                          0 < p && ask <= n && p + n <= K_MAX_VALID_PAGES && Range(Span(p, n, InUse, 0)) !! system
    {
      var p: nat, n: nat := *, *;
      taken := *;
      if 0 < p && ask <= n && p + n <= K_MAX_VALID_PAGES
         && forall s :: s in spans ==> spans[s].End() <= p || p + n <= spans[s].start {
        forall x | x in system ensures x !in Range(Span(p, n, InUse, 0)) {
          assert x in Range(Span(p, n, InUse, 0)) <==> Span(p, n, InUse, 0).Has(x);
        }
        asked := asked + [Ask(ask, true)];
        return Some((p, n));
      }
      asked := asked + [Ask(ask, false)];
      return None;
    }

    /** DecommitSpan: the committed count drops exactly when the system released the pages. */
    method DecommitSpan(s: SpanPtr) returns (ok: bool)
      requires s in spans
      modifies `stats, `refusals
      ensures refusals == old(refusals) + (if ok then 0 else 1)
      ensures stats == if ok then Decommitted(old(stats), spans[s].length) else old(stats)
      ensures stats.totalCommit == old(stats.totalCommit)
      ensures stats.totalDecommit == old(stats.totalDecommit) + (if ok then 8192 * spans[s].length else 0)
    {
      ok := SystemRelease();
      if ok {
        stats := Decommitted(stats, spans[s].length);
      }
    }

    /** CommitSpan. */
    method CommitSpan(s: SpanPtr)
      requires s in spans
      modifies `stats
      ensures stats == Committed(old(stats), spans[s].length)
      ensures stats.totalDecommit == old(stats.totalDecommit) && stats.totalCommit == old(stats.totalCommit) + 8192 * spans[s].length
    {
      stats := Committed(stats, spans[s].length);
    }

    // ---------------------------------------------------------------- free lists

    function GetDescriptor(p: int): Option<SpanPtr>
      reads this
    {
      if p in pagemap then Some(pagemap[p]) else None
    }

    method PrependToFreeList(s: SpanPtr)
      requires s in spans && |lists.small| == K_MAX_PAGES && spans[s].length > 0
      modifies `lists, `stats
      ensures State() == Listed(old(State()), s)
      ensures |lists.small| == K_MAX_PAGES
      ensures spans[s].length <= K_MAX_PAGES ==> Shortlist(lists, spans[s]) == [s] + Shortlist(old(lists), spans[s])
    {
      stats := Counted(stats, spans[s].location, spans[s].length);
      lists := Entered(lists, s, spans[s]);
    }

    method RemoveFromFreeList(s: SpanPtr)
      requires s in spans && |lists.small| == K_MAX_PAGES && spans[s].length > 0
      modifies `lists, `stats
      ensures State() == Unlisted(old(State()), s)
      ensures |lists.small| == K_MAX_PAGES
      ensures spans[s].length <= K_MAX_PAGES ==> CutOut(Shortlist(old(lists), spans[s]), Shortlist(lists, spans[s]), s)
    {
      stats := Counted(stats, spans[s].location, -(spans[s].length as int));
      if spans[s].length <= K_MAX_PAGES { WithoutCuts(Shortlist(lists, spans[s]), s); }
      lists := Dropped(lists, s, spans[s]);
    }

    // ---------------------------------------------------------------- coalescing

    /** Takes `other` off its list when it can be merged with `s`. */
    method CheckAndHandlePreMerge(s: SpanPtr, other: Option<SpanPtr>) returns (r: Option<SpanPtr>)
      requires s in spans && spans[s].location != InUse && |lists.small| == K_MAX_PAGES
      requires other.Some? ==> other.value in spans && other.value != s && spans[other.value].length > 0
      modifies `lists, `stats, `refusals
      ensures r == None ==> State() == old(State())
      ensures r.Some? ==> r == other && Mergeable(old(State()), s, r.value) && State() == TakenOff(old(State()), s, r.value)
      ensures r.Some? && spans[r.value].location != spans[s].location ==> aggressiveDecommit
      ensures r == None && other.Some? ==> spans[other.value].location != spans[s].location
      ensures refusals == old(refusals) + (if r == None && other.Some? && aggressiveDecommit && spans[other.value].location == Normal
                                              && spans[s].location == Returned then 1 else 0)
    {
      if other == None { return None; }
      var q := other.value;
      if aggressiveDecommit && spans[q].location == Normal && spans[s].location == Returned {
        var worked := DecommitSpan(q);
        if !worked { return None; }
      } else if spans[q].location != spans[s].location {
        return None;
      }
      RemoveFromFreeList(q);
      return other;
    }

    /** DeleteSpan(prev) and the updates of the surviving descriptor. */
    method ExtendLeft(s: SpanPtr, q: SpanPtr)
      requires s in spans && q in spans
      modifies `spans, `pagemap
      ensures State() == MergedBefore(old(State()), s, q)
    {
      pagemap := pagemap[spans[q].start := s];
      spans := (spans - {q})[s := spans[s].(start := spans[q].start, length := spans[q].length + spans[s].length)];
    }

    method ExtendRight(s: SpanPtr, q: SpanPtr)
      requires s in spans && q in spans && 0 < spans[q].length
      modifies `spans, `pagemap
      ensures State() == MergedAfter(old(State()), s, q)
    {
      var d := spans[s].(length := spans[s].length + spans[q].length);
      spans := (spans - {q})[s := d];
      pagemap := pagemap[d.End() - 1 := s];
    }

    method AbsorbPrevious(s: SpanPtr)
      requires ReadyFor(State(), s) && Readable(State(), s, spans[s].start - 1)
      modifies `spans, `pagemap, `lists, `stats, `refusals
      ensures PreviousStep(old(State()), State(), s, aggressiveDecommit)
      ensures refusals == old(refusals) + Spurned(old(State()), State(), s, old(spans[s].start) - 1, aggressiveDecommit)
    {
      var prev := CheckAndHandlePreMerge(s, GetDescriptor(spans[s].start - 1));
      if prev.Some? {
        ExtendLeft(s, prev.value);
      }
    }

    method AbsorbNext(s: SpanPtr)
      requires ReadyFor(State(), s) && Readable(State(), s, spans[s].End())
      modifies `spans, `pagemap, `lists, `stats, `refusals
      ensures NextStep(old(State()), State(), s, aggressiveDecommit)
      ensures refusals == old(refusals) + Spurned(old(State()), State(), s, old(spans[s].End()), aggressiveDecommit)
    {
      var next := CheckAndHandlePreMerge(s, GetDescriptor(spans[s].End()));
      if next.Some? {
        ExtendRight(s, next.value);
      }
    }

    /** In aggressive mode the span in hand is decommitted first. */
    method DecommitFirst(s: SpanPtr)
      requires s in spans && spans[s].sizeclass == 0
      modifies `spans, `stats, `refusals
      ensures DecommitStep(old(State()), State(), s, aggressiveDecommit)
      ensures refusals == old(refusals) + Undone(old(State()), State(), s, aggressiveDecommit)
    {
      if aggressiveDecommit && spans[s].location == Normal {
        var ok := DecommitSpan(s);
        if ok {
          spans := spans[s := spans[s].(location := Returned)];
        }
      }
    }

    /** Coalesces the span in hand with its neighbours and puts it on its list. */
    method MergeIntoFreeList(s: SpanPtr) returns (ghost via: (Heap, Heap, Heap))
      requires InHand(State(), system, leaked, s)
      modifies `spans, `pagemap, `lists, `stats, `refusals
      ensures MergeRun(old(State()), via, State(), s, aggressiveDecommit)
      ensures refusals == old(refusals) + Denials(old(State()), via, s, aggressiveDecommit)
      ensures old(refusals) <= refusals
    {
      ghost var h0 := State();
      ReadyForDecommit(h0, system, leaked, s);
      DecommitFirst(s);
      ghost var h1 := State();
      ReadyForPrevious(h0, h1, system, leaked, s, aggressiveDecommit);
      AbsorbPrevious(s);
      ghost var h2 := State();
      ReadyForNext(h0, h1, h2, system, leaked, s, aggressiveDecommit);
      AbsorbNext(s);
      ghost var h3 := State();
      ReadyForList(h0, h1, h2, h3, system, leaked, s, aggressiveDecommit);
      PrependToFreeList(s);
      via := (h1, h2, h3);
    }

    // ---------------------------------------------------------------- releasing

    /** Decommits a normal free span; zero when the system refused. */
    method ReleaseSpan(s: SpanPtr) returns (n: nat)
      requires Inv(State(), system, leaked) && s in spans && spans[s].location == Normal
      modifies `spans, `pagemap, `lists, `stats, `refusals
      ensures Inv(State(), system, leaked) && Released(old(spans), spans, n, aggressiveDecommit)
      ensures n == 0 || (n == old(spans)[s].length && s in spans && spans[s].location == Returned)
      ensures n == 0 ==> State() == old(State()) && refusals == old(refusals) + 1
      ensures old(refusals) <= refusals && (n > 0 && !aggressiveDecommit ==> refusals == old(refusals))
      ensures NormalsKept(old(spans), spans)
      ensures Coalesced(old(spans)) && Safe(old(spans), s) ==> Coalesced(spans)
    {
      ghost var h := State();
      assert Proper(spans[s]);
      var ok := DecommitSpan(s);
      if !ok {
        ReleasedNone(spans, aggressiveDecommit);
        return 0;
      }
      n := spans[s].length;
      RemoveFromFreeList(s);
      spans := spans[s := spans[s].(location := Returned)];
      assert State() == Releasing(h, s);
      ReleasedInHand(h, system, leaked, s);
      ghost var via := MergeIntoFreeList(s);
      MergeNormals(Releasing(h, s), via, State(), s, aggressiveDecommit);
      NormalsKeptTwice(h.spans, Releasing(h, s).spans, spans);
      ReleasedOne(h, via, State(), system, leaked, s, aggressiveDecommit);
      SafeRelease(h, via, State(), system, leaked, s, aggressiveDecommit);
    }

    /** The normal span to release for list `i`: the oldest of a small list, the least of the large set. */
    method Candidate(i: nat) returns (s: Option<SpanPtr>)
      requires Inv(State(), system, leaked) && i <= K_MAX_PAGES
      ensures |lists.small| == K_MAX_PAGES
      ensures s == None <==> NormalEmpty(lists, i)
      ensures s.Some? ==> s.value in spans && spans[s.value].location == Normal
      ensures s.Some? ==> if i == K_MAX_PAGES then Least(lists.largeNormal, spans, s.value)
                          else s.value == lists.small[i].normal[|lists.small[i].normal| - 1]
    {
      if i == K_MAX_PAGES {
        if lists.largeNormal == {} { return None; }
        LeastExists(lists.largeNormal, spans);
        var x :| x in lists.largeNormal && Least(lists.largeNormal, spans, x);
        return Some(x);
      }
      var q := lists.small[i].normal;
      if q == [] { return None; }
      assert q[|q| - 1] in q;
      return Some(q[|q| - 1]);
    }

    /** One list of the round: releases its candidate, if any, and moves the index on. */
    method SweepStep() returns (n: nat, refused: bool)
      requires Valid()
      modifies `spans, `pagemap, `lists, `stats, `releaseIndex, `refusals
      ensures Valid() && Released(old(spans), spans, n, aggressiveDecommit)
      ensures (n == 0 ==> lists == old(lists) && State() == old(State())) && (refused ==> n == 0)
      ensures if refused then refusals == old(refusals) + 1
              else old(refusals) <= refusals && (!aggressiveDecommit ==> refusals == old(refusals))
      ensures NormalsKept(old(spans), spans) && (n > 0 ==> exists x :: x in old(spans) && old(spans)[x].location == Normal && old(spans)[x].length == n)
      ensures var i := Wrapped(old(releaseIndex));
              && releaseIndex == (if refused then i else i + 1)
              && (n == 0 && !refused ==> |lists.small| == K_MAX_PAGES && NormalEmpty(lists, i))
              && (n > 0 ==> OldestReturned(old(State()), spans, i, n))
    {
      n, refused := 0, false;
      releaseIndex := Wrapped(releaseIndex);
      var s := Candidate(releaseIndex);
      if s == None {
        ReleasedNone(spans, aggressiveDecommit);
      } else {
        assert Oldest(State(), releaseIndex, s.value);
        n := ReleaseSpan(s.value);
        if n == 0 { refused := true; return; }
      }
      releaseIndex := releaseIndex + 1;
    }

    /** Where a sweep stands after `i` lists: it started at list `first` with `t0` and `q`. */
    ghost predicate Sweeping(t0: Table, q: FreeLists, first: nat, i: nat, before: nat, released: nat)
      reads this
    {
      && first <= K_MAX_PAGES && i <= K_MAX_PAGES + 1 && before <= released
      && Released(t0, spans, released - before, aggressiveDecommit)
      && Wrapped(releaseIndex) == IndexAt(first, i)
      && (released == before ==> spans == t0 && lists == q && Clean(q, first, i))
    }

    method SweepOne(numPages: nat, released: nat, ghost t0: Table, ghost q: FreeLists, ghost first: nat, ghost i: nat, ghost before: nat)
      returns (released': nat, refused: bool)
      requires Valid() && i <= K_MAX_PAGES && Sweeping(t0, q, first, i, before, released) && released < numPages
      modifies `spans, `pagemap, `lists, `stats, `releaseIndex, `refusals
      ensures Valid() && released <= released'
      ensures refused ==> released' == released && Released(t0, spans, released - before, aggressiveDecommit)
      ensures released' == released ==> State() == old(State())
      ensures if refused then refusals == old(refusals) + 1
              else old(refusals) <= refusals && (!aggressiveDecommit ==> refusals == old(refusals))
      ensures !refused ==> Sweeping(t0, q, first, i + 1, before, released')
      ensures NormalsKept(old(spans), spans) && (released' > released ==> Overshoot(old(spans), released', numPages))
    {
      ghost var t := spans;
      var n;
      n, refused := SweepStep();
      released' := released;
      if refused { return; }
      IndexMoves(first, i);
      ReleasedTwice(t0, t, spans, released - before, n, aggressiveDecommit);
      released' := released + n;
      if released' == before { CleanMore(q, first, i); }
    }

    /** One round over all lists, stopping when enough was released or the system refused. */
    method Sweep(numPages: nat, before: nat) returns (released: nat, refused: bool)
      requires Valid() && before < numPages
      modifies `spans, `pagemap, `lists, `stats, `releaseIndex, `refusals
      ensures Valid() && before <= released
      ensures Released(old(spans), spans, released - before, aggressiveDecommit)
      ensures refused || released >= numPages || released > before || stats.free == 0
      ensures released == before ==> State() == old(State())
      ensures if refused then refusals > old(refusals) && (!aggressiveDecommit ==> refusals == old(refusals) + 1)
              else old(refusals) <= refusals && (!aggressiveDecommit ==> refusals == old(refusals))
      ensures NormalsKept(old(spans), spans) && (released > before ==> Overshoot(old(spans), released, numPages))
    {
      released, refused := before, false;
      ReleasedNone(spans, aggressiveDecommit);
      ghost var first := Wrapped(releaseIndex);
      ghost var q := lists;
      var i := 0;
      while i < K_MAX_PAGES + 1 && released < numPages
        invariant Valid() && Sweeping(old(spans), q, first, i, before, released)
        invariant old(refusals) <= refusals && (!aggressiveDecommit ==> refusals == old(refusals)) && !refused
        invariant NormalsKept(old(spans), spans) && (released > before ==> Overshoot(old(spans), released, numPages))
        invariant released == before ==> State() == old(State())
      {
        ghost var t, was := spans, released;
        released, refused := SweepOne(numPages, released, old(spans), q, first, i, before);
        NormalsKeptTwice(old(spans), t, spans);
        if released > was { OvershootBefore(old(spans), t, released, numPages); }
        if refused { return; }
        i := i + 1;
      }
      if released < numPages && released == before { CleanAll(State(), system, leaked, first); }
    }

    /** One round after `released` pages: it releases more, or the system refuses, or nothing normal is left. */
    method ReleaseRound(numPages: nat, released: nat, ghost t0: Table) returns (released': nat, refused: bool)
      requires Valid() && released < numPages && Released(t0, spans, released, aggressiveDecommit) && stats.free > 0
      requires NormalsKept(t0, spans) && (released > 0 ==> Overshoot(t0, released, numPages))
      modifies `spans, `pagemap, `lists, `stats, `releaseIndex, `refusals
      ensures Valid() && Released(t0, spans, released', aggressiveDecommit)
      ensures 0 <= stats.free && (refused || stats.free < old(stats.free))
      ensures released <= released' && (released' == released ==> State() == old(State()))
      ensures if refused then refusals > old(refusals) && (!aggressiveDecommit ==> refusals == old(refusals) + 1)
              else old(refusals) <= refusals && (!aggressiveDecommit ==> refusals == old(refusals))
      ensures NormalsKept(t0, spans) && (released' > 0 ==> Overshoot(t0, released', numPages))
    {
      ghost var g := State();
      released', refused := Sweep(numPages, released);
      NormalsKeptTwice(t0, g.spans, spans);
      if released' > released { OvershootBefore(t0, g.spans, released', numPages); }
      ReleasedTwice(t0, g.spans, spans, released, released' - released, aggressiveDecommit);
      ReleasedBytes(g, State(), system, leaked, released' - released, aggressiveDecommit);
    }

    /** Releases at least `numPages` pages unless nothing normal is left or the system refuses, and stops as
        soon as it has: without the last span released it had too few. */
    method ReleaseAtLeastNPages(numPages: nat) returns (released: nat, refused: bool)
      requires Valid()
      modifies `spans, `pagemap, `lists, `stats, `releaseIndex, `refusals
      ensures Valid()
      ensures Released(old(spans), spans, released, aggressiveDecommit)
      ensures released >= numPages || stats.free == 0 || refused
      ensures if refused then refusals > old(refusals) && (!aggressiveDecommit ==> refusals == old(refusals) + 1)
              else old(refusals) <= refusals && (!aggressiveDecommit ==> refusals == old(refusals))
      ensures refusals == old(refusals) ==> released >= numPages || stats.free == 0
      ensures released == 0 ==> State() == old(State())
      ensures released > 0 ==> Overshoot(old(spans), released, numPages)
      ensures stats.unmapped >= old(stats.unmapped) + K_PAGE_SIZE * released
      ensures !aggressiveDecommit ==> old(stats.free) - stats.free == K_PAGE_SIZE * released == stats.unmapped - old(stats.unmapped)
    {
      ghost var h := State();
      ReleasedNone(spans, aggressiveDecommit);
      ReleasedBytes(h, h, system, leaked, 0, aggressiveDecommit);
      released, refused := ReleaseRounds(numPages);
      ReleasedBytes(h, State(), system, leaked, released, aggressiveDecommit);
    }

    /** The outer loop. */
    method ReleaseRounds(numPages: nat) returns (released: nat, refused: bool)
      requires Valid() && stats.free >= 0
      modifies `spans, `pagemap, `lists, `stats, `releaseIndex, `refusals
      ensures Valid() && Released(old(spans), spans, released, aggressiveDecommit)
      ensures released >= numPages || stats.free == 0 || refused
      ensures if refused then refusals > old(refusals) && (!aggressiveDecommit ==> refusals == old(refusals) + 1)
              else old(refusals) <= refusals && (!aggressiveDecommit ==> refusals == old(refusals))
      ensures released == 0 ==> State() == old(State())
      ensures released > 0 ==> Overshoot(old(spans), released, numPages)
    {
      released, refused := 0, false;
      ReleasedNone(spans, aggressiveDecommit);
      while released < numPages && stats.free > 0
        invariant Valid() && stats.free >= 0
        invariant Released(old(spans), spans, released, aggressiveDecommit) && (released == 0 ==> State() == old(State()))
        invariant old(refusals) <= refusals && (!aggressiveDecommit ==> refusals == old(refusals)) && !refused
        invariant NormalsKept(old(spans), spans) && (released > 0 ==> Overshoot(old(spans), released, numPages))
        decreases stats.free
      {
        released, refused := ReleaseRound(numPages, released, old(spans));
        if refused { break; }
      }
    }

    /** The limit leaves room for `n` more pages. */
    ghost predicate Within(n: nat)
      reads this
    {
      heapLimit == 0 || taken - stats.unmapped / K_PAGE_SIZE + n <= heapLimit
    }

    /** The limit does not stand in the way of `n` pages: there is room, or only normal spans fit. */
    ghost predicate Unhindered(n: nat)
      reads this
    {
      Within(n) || forall x :: Fits(spans, x, n) ==> spans[x].location == Normal
    }

    /** The limit leaves no room for `n` pages, even after every normal page was released, unless the system
        has refused some since `before`. In aggressive mode the limit was tested with fewer pages released
        than there were. */
    ghost predicate NoRoom(n: nat, before: nat)
      reads this
    {
      && (!aggressiveDecommit ==> !Within(n))
      && (refusals == before ==> stats.free == 0)
    }

    /** How a request for `m` pages of the heap `h` was answered. */
    ghost predicate Answered(unhindered: bool, h: Heap, b: Ledger, m: nat, found: bool)
      reads this
    {
      && Served(heapLimit, unhindered, h, b, State(), Books(), m, found)
      && (!found && m <= K_MAX_VALID_PAGES && asked == b.asked ==> NoRoom(m, b.refusals))
    }

    /** May we take `n` more pages? Releases free pages first when asked to. */
    method EnsureLimit(n: nat, withRelease: bool) returns (ok: bool)
      requires Valid()
      modifies `spans, `pagemap, `lists, `stats, `releaseIndex, `refusals
      ensures Valid() && Kept(old(spans), spans, aggressiveDecommit)
      ensures ok ==> Within(n)
      ensures old(Within(n)) ==> ok
      ensures old(Within(n)) || !withRelease ==> State() == old(State()) && ok == Within(n) && refusals == old(refusals)
      ensures !aggressiveDecommit ==> ok == Within(n)
      ensures !ok && withRelease && refusals == old(refusals) ==> stats.free == 0
      ensures old(refusals) <= refusals
    {
      if heapLimit == 0 { return true; }
      ghost var h := State();
      var takenPages: int := taken - stats.unmapped / K_PAGE_SIZE;
      if takenPages + n > heapLimit && withRelease {
        var r, refused := ReleaseAtLeastNPages(takenPages + n - heapLimit);
        ReleasedBytes(h, State(), system, leaked, r, aggressiveDecommit);
        takenPages := takenPages - r;
      }
      return takenPages + n <= heapLimit;
    }

    // ---------------------------------------------------------------- allocating

    /** An address the span allocator can hand out; it may be one that stale page-map entries still name. */
    method NewSpanPtr() returns (r: SpanPtr)
      ensures r !in spans
    {
      FreshPtr(spans.Keys);
      r :| r !in spans;
    }

    /** Turns the free span `s` into one in use with `n` pages. */
    method Carve(s: SpanPtr, n: nat) returns (ghost left: SpanPtr)
      requires s in spans && spans[s].location != InUse && 0 < n <= spans[s].length && |lists.small| == K_MAX_PAGES
      requires spans[s].sizeclass == 0
      modifies `spans, `pagemap, `lists, `stats
      ensures Carvable(old(State()), s, n, left)
      ensures State() == Carved(old(State()), s, n, left)
    {
      var oldLocation := spans[s].location;
      left := 0;
      RemoveFromFreeList(s);
      var d := spans[s];
      if d.length > n {
        var r := NewSpanPtr();
        left := r;
        pagemap := pagemap[d.start + n := r][d.End() - 1 := r][d.start + n - 1 := s];
        spans := spans[s := d.(length := n, location := InUse)][r := Span(d.start + n, d.length - n, oldLocation, 0)];
        PrependToFreeList(r);
      } else {
        spans := spans[s := d.(location := InUse)];
      }
      if oldLocation == Returned {
        CommitSpan(s);
      }
    }

    method UpperBound(q: set<SpanPtr>, n: nat) returns (r: Option<SpanPtr>)
      requires forall x :: x in q ==> x in spans
      ensures r == None ==> forall x :: x in q ==> spans[x].length < n
      ensures r.Some? ==> Upper(q, spans, n, r.value)
    {
      var fit := set x | x in q && spans[x].length >= n;
      if fit == {} {
        forall x | x in q ensures spans[x].length < n { assert x !in fit; }
        return None;
      }
      var y :| y in fit;
      UpperExists(q, spans, n, y);
      var s :| s in q && Upper(q, spans, n, s);
      return Some(s);
    }

    /** The large span AllocLarge prefers, and whether it is a normal one. */
    method BestLarge(n: nat) returns (best: Option<SpanPtr>)
      requires Inv(State(), system, leaked) && n > 0
      ensures best == None ==> NoFitAbove(spans, n)
      ensures best.Some? ==> LargeBest(spans, best.value, n) && spans[best.value].sizeclass == 0
    {
      LargeKnown(State(), system, leaked);
      var normal := UpperBound(lists.largeNormal, n);
      best := normal;
      var returned := UpperBound(lists.largeReturned, n);
      if returned.Some? {
        var c := spans[returned.value];
        if normal == None || c.length < spans[best.value].length
           || (c.length == spans[best.value].length && c.start < spans[best.value].start) {
          best := returned;
        }
      }
      if best.Some? { assert Proper(spans[best.value]); }
    }

    /** Best-fit search among the large spans. */
    method AllocLarge(n: nat) returns (r: Option<SpanPtr>, ghost left: SpanPtr)
      requires Valid() && n > 0
      modifies `spans, `pagemap, `lists, `stats, `releaseIndex, `refusals
      ensures old(refusals) <= refusals && (old(Unhindered(n)) ==> refusals == old(refusals))
      ensures Valid()
      ensures r == None ==> Kept(old(spans), spans, aggressiveDecommit)
      ensures r.Some? ==> Allocated(old(spans), spans, r.value, n, aggressiveDecommit)
      ensures old(Unhindered(n)) && r == None ==> NoFitAbove(old(spans), n) && State() == old(State())
      ensures old(Unhindered(n)) && r.Some? ==> LargeBest(old(spans), r.value, n) && CutFrom(old(spans), spans, r.value, n, left)
      decreases if Within(n) then 0 else 1, 1
    {
      left := 0;
      KeptSame(spans, aggressiveDecommit);
      var best := BestLarge(n);
      if best == None { return None, left; }
      if spans[best.value].location == Returned {
        var ok := EnsureLimit(n, false);
        if !ok {
          assert Fits(spans, best.value, n) && !Unhindered(n);
          r, left := ReleaseThenAllocLarge(n);
          return;
        }
      }
      left := CarveValid(best.value, n);
      return best, left;
    }

    /** AllocLarge again, once there is room. */
    method ReleaseThenAllocLarge(n: nat) returns (r: Option<SpanPtr>, ghost left: SpanPtr)
      requires Valid() && n > 0 && !Within(n)
      modifies `spans, `pagemap, `lists, `stats, `releaseIndex, `refusals
      ensures old(refusals) <= refusals && Valid()
      ensures r == None ==> Kept(old(spans), spans, aggressiveDecommit)
      ensures r.Some? ==> Allocated(old(spans), spans, r.value, n, aggressiveDecommit)
      decreases if Within(n) then 0 else 1, 0
    {
      var ok := EnsureLimit(n, true);
      if !ok { return None, 0; }
      ghost var t := spans;
      r, left := AllocLarge(n);
      if r.Some? { KeptThenAllocated(old(spans), t, spans, r.value, n, aggressiveDecommit); }
      else { KeptTwice(old(spans), t, spans, aggressiveDecommit); }
    }

    method CarveValid(s: SpanPtr, n: nat) returns (ghost left: SpanPtr)
      requires Inv(State(), system, leaked) && s in spans && spans[s].location != InUse && 0 < n <= spans[s].length
      modifies `spans, `pagemap, `lists, `stats
      ensures Inv(State(), system, leaked) && Allocated(old(spans), spans, s, n, aggressiveDecommit)
      ensures CutFrom(old(spans), spans, s, n, left)
    {
      ghost var h := State();
      assert Proper(spans[s]);
      left := Carve(s, n);
      CarvedInv(h, system, leaked, s, n, left);
      CarvedCuts(h.spans, s, n, left);
      CarvedAllocates(h.spans, s, n, left, aggressiveDecommit);
    }

    /** Search for the best fit, shortest list first. */
    method SearchFreeAndLargeLists(n: nat) returns (r: Option<SpanPtr>, ghost left: SpanPtr)
      requires Valid() && n > 0
      modifies `spans, `pagemap, `lists, `stats, `releaseIndex, `refusals
      ensures old(refusals) <= refusals && (old(Unhindered(n)) ==> refusals == old(refusals))
      ensures Valid()
      ensures r == None ==> Kept(old(spans), spans, aggressiveDecommit)
      ensures r.Some? ==> Allocated(old(spans), spans, r.value, n, aggressiveDecommit)
      ensures old(Unhindered(n)) && r == None ==> NoFit(old(spans), n) && State() == old(State())
      ensures old(Unhindered(n)) && r.Some? ==> BestFit(old(State()), r.value, n) && CutFrom(old(spans), spans, r.value, n, left)
    {
      ghost var room := Unhindered(n);
      var found;
      found, r, left := SearchShort(n, room);
      if found { return; }
      ghost var t := spans;
      r, left := AllocLarge(n);
      if r.Some? { KeptThenAllocated(old(spans), t, spans, r.value, n, aggressiveDecommit); }
      else { KeptTwice(old(spans), t, spans, aggressiveDecommit); }
    }

    /** The loop over the short lists. */
    method SearchShort(n: nat, ghost room: bool) returns (found: bool, r: Option<SpanPtr>, ghost left: SpanPtr)
      requires Valid() && n > 0 && (room ==> Unhindered(n))
      modifies `spans, `pagemap, `lists, `stats, `releaseIndex, `refusals
      ensures old(refusals) <= refusals && (room ==> refusals == old(refusals))
      ensures Valid() && found == r.Some?
      ensures !found ==> Kept(old(spans), spans, aggressiveDecommit)
      ensures found ==> Allocated(old(spans), spans, r.value, n, aggressiveDecommit)
      ensures room && !found ==> State() == old(State()) && NoneBetween(spans, n, K_MAX_PAGES + 1)
      ensures room && found ==> BestFit(old(State()), r.value, n) && CutFrom(old(spans), spans, r.value, n, left)
    {
      KeptSame(spans, aggressiveDecommit);
      var s := n;
      while s <= K_MAX_PAGES
        invariant n <= s && old(refusals) <= refusals && (room ==> refusals == old(refusals))
        invariant Valid() && Kept(old(spans), spans, aggressiveDecommit)
        invariant room ==> State() == old(State()) && NoneBetween(spans, n, if s <= K_MAX_PAGES then s else K_MAX_PAGES + 1)
      {
        ghost var t := spans;
        found, r, left := TryLength(n, s, room);
        if found {
          KeptThenAllocated(old(spans), t, spans, r.value, n, aggressiveDecommit);
          return;
        }
        KeptTwice(old(spans), t, spans, aggressiveDecommit);
        s := s + 1;
      }
      return false, None, 0;
    }

    /** The step of the search for the lists of length `m`. */
    method TryLength(n: nat, m: nat, ghost room: bool) returns (found: bool, r: Option<SpanPtr>, ghost left: SpanPtr)
      requires Valid() && 0 < n <= m <= K_MAX_PAGES
      requires room ==> Unhindered(n) && NoneBetween(spans, n, m)
      modifies `spans, `pagemap, `lists, `stats, `releaseIndex, `refusals
      ensures old(refusals) <= refusals && (room ==> refusals == old(refusals))
      ensures Valid() && found == r.Some?
      ensures !found ==> Kept(old(spans), spans, aggressiveDecommit)
      ensures found ==> Allocated(old(spans), spans, r.value, n, aggressiveDecommit)
      ensures room && !found ==> State() == old(State()) && NoneBetween(spans, n, m + 1)
      ensures room && found ==> BestFit(old(State()), r.value, n) && CutFrom(old(spans), spans, r.value, n, left)
    {
      left := 0;
      ghost var h := State();
      var q := lists.small[m - 1].normal;
      if q != [] {
        OnShortList(h, system, leaked, m, Normal, q[0]);
        if room { ShortBest(h, system, leaked, n, m, q[0]); }
        left := CarveValid(q[0], n);
        return true, Some(q[0]), left;
      }
      if lists.small[m - 1].returned != [] {
        OnShortList(h, system, leaked, m, Returned, lists.small[m - 1].returned[0]);
        assert room ==> Within(n) by { assert Fits(spans, lists.small[m - 1].returned[0], n); }
        found, r, left := TryReturned(n, m, room);
        return;
      } else if room {
        EmptyLists(h, system, leaked, n, m);
      }
      return false, None, left;
    }

    /** The returned list of length `m`, when the normal one is empty; making room may empty it. */
    method TryReturned(n: nat, m: nat, ghost room: bool) returns (found: bool, r: Option<SpanPtr>, ghost left: SpanPtr)
      requires Valid() && 0 < n <= m <= K_MAX_PAGES && lists.small[m - 1].normal == [] && lists.small[m - 1].returned != []
      requires room ==> Within(n) && NoneBetween(spans, n, m)
      modifies `spans, `pagemap, `lists, `stats, `releaseIndex, `refusals
      ensures old(refusals) <= refusals && (room ==> refusals == old(refusals))
      ensures Valid() && found == r.Some?
      ensures !found ==> Kept(old(spans), spans, aggressiveDecommit)
      ensures found ==> Allocated(old(spans), spans, r.value, n, aggressiveDecommit)
      ensures room ==> found && BestFit(old(State()), r.value, n) && CutFrom(old(spans), spans, r.value, n, left)
    {
      left := 0;
      ghost var h := State();
      var ok := EnsureLimit(n, true);
      if !ok { return false, None, left; }
      var q := lists.small[m - 1].returned;
      if q == [] { return false, None, left; }
      if room { ShortBest(h, system, leaked, n, m, q[0]); }
      left := CarveHead(q[0], n, m, h.spans);
      return true, Some(q[0]), left;
    }

    /** Carves the head of the returned list of length `m`; spans in use are as in `t0`. */
    method CarveHead(s: SpanPtr, n: nat, m: nat, ghost t0: Table) returns (ghost left: SpanPtr)
      requires Inv(State(), system, leaked) && 0 < n <= m <= K_MAX_PAGES && |lists.small| == K_MAX_PAGES && s in lists.small[m - 1].returned
      requires Kept(t0, spans, aggressiveDecommit)
      modifies `spans, `pagemap, `lists, `stats
      ensures Inv(State(), system, leaked) && Allocated(t0, spans, s, n, aggressiveDecommit)
      ensures CutFrom(old(spans), spans, s, n, left)
    {
      ghost var t := spans;
      OnShortList(State(), system, leaked, m, Returned, s);
      left := CarveValid(s, n);
      KeptThenAllocated(t0, t, spans, s, n, aggressiveDecommit);
    }

    // ---------------------------------------------------------------- freeing

    /** IncrementalScavenge: when its delay has run out, release at least one page. */
    method IncrementalScavenge() returns (released: nat)
      requires Valid()
      modifies `spans, `pagemap, `lists, `stats, `releaseIndex, `refusals
      ensures Valid() && Released(old(spans), spans, released, aggressiveDecommit)
      ensures released == 0 ==> State() == old(State())
      ensures old(refusals) <= refusals
    {
      released := 0;
      var due: bool := *;
      if due {
        var refused;
        released, refused := ReleaseAtLeastNPages(1);
      } else {
        ReleasedNone(spans, aggressiveDecommit);
      }
    }

    /** DeleteLocked up to the scavenging. */
    method FreeSpan(s: SpanPtr)
      requires Inv(State(), system, leaked) && s in spans && spans[s].location == InUse
      modifies `spans, `pagemap, `lists, `stats, `refusals
      ensures Inv(State(), system, leaked) && Freed(old(spans), spans, s, aggressiveDecommit)
      ensures Coalesced(old(spans)) && Safe(old(spans), s) ==> Coalesced(spans)
      ensures FirstOfList(State(), s)
      ensures aggressiveDecommit && refusals == old(refusals) ==> SwallowedAll(old(spans), spans, s)
      ensures old(refusals) <= refusals
    {
      ghost var h := State();
      spans := spans[s := spans[s].(sizeclass := 0, location := Normal)];
      FreedInHand(h, system, leaked, s);
      ghost var via := MergeIntoFreeList(s);
      MergeNormals(Moved(h, s, Normal), via, State(), s, aggressiveDecommit);
      ListedFirst(via.2, s);
      if aggressiveDecommit && refusals == old(refusals) { FreedSwallows(h, via, State(), system, leaked, s); }
      FreedOne(h, via, State(), system, leaked, s, aggressiveDecommit);
      SafeFree(h, via, State(), system, leaked, s, aggressiveDecommit);
    }

    /** Frees a span in use; `scavenged` pages were released on the way. In aggressive mode a span in a safe
        place leaves maximal coalescing alone as long as nothing is scavenged. */
    method DeleteLocked(s: SpanPtr) returns (ghost scavenged: nat)
      requires Valid() && s in spans && spans[s].location == InUse
      modifies `spans, `pagemap, `lists, `stats, `releaseIndex, `refusals
      ensures Valid() && Freed(old(spans), spans, s, aggressiveDecommit)
      ensures scavenged == 0 && Coalesced(old(spans)) && Safe(old(spans), s) ==> Coalesced(spans)
      ensures scavenged == 0 ==> FirstOfList(State(), s)
      ensures old(refusals) <= refusals
    {
      FreeSpan(s);
      ghost var t := spans;
      var released := IncrementalScavenge();
      FreedThenReleased(old(spans), t, spans, s, released, aggressiveDecommit);
      scavenged := released;
    }

    // ---------------------------------------------------------------- growing

    /** What the system gave is counted and recorded as a span in use. */
    method RecordPages(p: nat, n: nat) returns (s: SpanPtr)
      requires Valid() && 0 < p && 0 < n && p + n <= K_MAX_VALID_PAGES && Range(Span(p, n, InUse, 0)) !! system
      modifies `spans, `pagemap, `stats, `system
      ensures Valid() && system == old(system) + Range(Span(p, n, InUse, 0))
      ensures s !in old(spans) && spans == old(spans)[s := Span(p, n, InUse, 0)]
      ensures stats.totalDecommit == old(stats.totalDecommit) && stats.totalCommit == old(stats.totalCommit) + 8192 * n
    {
      var d := Span(p, n, InUse, 0);
      s := NewSpanPtr();
      GrownInv(State(), system, leaked, s, d);
      stats := Grown(stats, n);
      spans := spans[s := d];
      pagemap := pagemap[p := s][p + n - 1 := s];
      system := system + Range(d);
      forall x | x in system ensures x <= K_MAX_VALID_PAGES {
        assert x in Range(d) ==> d.Has(x);
      }
    }

    /** What the system gave becomes a span in use that is freed at once. */
    method AdoptPages(p: nat, n: nat)
      requires Valid() && 0 < p && 0 < n && p + n <= K_MAX_VALID_PAGES && Range(Span(p, n, InUse, 0)) !! system
      modifies `spans, `pagemap, `lists, `stats, `releaseIndex, `system, `grants, `refusals
      ensures Valid() && system == old(system) + Range(Span(p, n, InUse, 0)) && grants == old(grants) + 1
      ensures Kept(old(spans), spans, aggressiveDecommit)
      ensures exists y :: Covers(spans, y, Span(p, n, InUse, 0))
      ensures old(refusals) <= refusals
    {
      var s := RecordPages(p, n);
      grants := grants + 1;
      ghost var t := spans;
      ghost var scavenged := DeleteLocked(s);
      ghost var y :| Covers(spans, y, t[s]);
      assert Covers(spans, y, Span(p, n, InUse, 0));
      FreedGrown(old(spans), spans, s, Span(p, n, InUse, 0), aggressiveDecommit);
    }

    /** Grows by what the system grants: `granted` is the run of pages, at least `n` of them. They become
        part of the heap, or are lost when the page map cannot grow. Without a limit the system is asked for a
        generous run and then, if refused, for `n` pages. With one it may not be asked at all, but then there
        is no room for `n` pages. */
    method GrowHeap(n: nat) returns (ok: bool, ghost granted: Option<(nat, nat)>)
      requires Valid() && 0 < n
      modifies `spans, `pagemap, `lists, `stats, `releaseIndex, `system, `leaked, `taken, `asked, `grants, `lost, `refusals
      ensures Valid() && Kept(old(spans), spans, aggressiveDecommit)
      ensures ok ==> exists y :: Fits(spans, y, n)
      ensures GrownBy(old(system), old(leaked), system, leaked, n, ok, granted)
      ensures grants == old(grants) + (if ok then 1 else 0) && lost == old(lost) + (if granted.Some? && !ok then 1 else 0)
      ensures n > K_MAX_VALID_PAGES ==> granted == None && asked == old(asked)
      ensures heapLimit == 0 ==> Grew(old(State()), old(Books()), State(), Books(), n, ok)
      ensures n <= K_MAX_VALID_PAGES && asked == old(asked) ==> granted == None && NoRoom(n, old(refusals))
      ensures old(refusals) <= refusals
    {
      ok, granted := false, None;
      if n > K_MAX_VALID_PAGES {
        KeptSame(spans, aggressiveDecommit);
        return;
      }
      var r := AskForRoom(n);
      if r == None { return; }
      granted := r;
      ghost var t := spans;
      ok := TakeIn(r.value.0, r.value.1, n);
      KeptTwice(old(spans), t, spans, aggressiveDecommit);
    }

    /** Pages that were granted join the heap, unless the page map cannot grow for them. */
    method TakeIn(p: nat, k: nat, ghost n: nat) returns (ok: bool)
      requires Valid() && 0 < p && 0 < n <= k && p + k <= K_MAX_VALID_PAGES && Range(Span(p, k, InUse, 0)) !! system
      modifies `spans, `pagemap, `lists, `stats, `releaseIndex, `system, `leaked, `grants, `lost, `refusals
      ensures Valid() && Kept(old(spans), spans, aggressiveDecommit)
      ensures ok ==> exists y :: Fits(spans, y, n)
      ensures GrownBy(old(system), old(leaked), system, leaked, n, ok, Some((p, k)))
      ensures grants == old(grants) + (if ok then 1 else 0) && lost == old(lost) + (if ok then 0 else 1)
      ensures !ok ==> spans == old(spans) && stats.free == old(stats.free) && stats.unmapped == old(stats.unmapped) && refusals == old(refusals)
      ensures old(refusals) <= refusals
    {
      ok := EnsurePages();
      if ok {
        AdoptPages(p, k);
        ghost var y :| Covers(spans, y, Span(p, k, InUse, 0));
        assert Fits(spans, y, n);
      } else {
        LostInv(State(), system, leaked, k);
        stats := Grown(stats, k);
        leaked := leaked + k;
        KeptSame(spans, aggressiveDecommit);
      }
    }

    /** Asks for a generous run first and for just `n` pages when that is refused. */
    method AskForRoom(n: nat) returns (r: Option<(nat, nat)>)
      requires Valid() && 0 < n
      modifies `spans, `pagemap, `lists, `stats, `releaseIndex, `taken, `asked, `refusals
      ensures Valid() && Kept(old(spans), spans, aggressiveDecommit)
      ensures r.Some? ==> var (p, k) := r.value;
                          0 < p && n <= k && p + k <= K_MAX_VALID_PAGES && Range(Span(p, k, InUse, 0)) !! system
      ensures heapLimit == 0 ==> AskedFor(old(asked), asked, n, r.Some?) && State() == old(State()) && refusals == old(refusals)
      ensures asked == old(asked) ==> r == None && NoRoom(n, old(refusals))
      ensures old(refusals) <= refusals
    {
      var ask := if n > K_MIN_SYSTEM_ALLOC then n else K_MIN_SYSTEM_ALLOC;
      r := AskWithin(ask);
      if r == None && n < ask {
        ghost var t := spans;
        r := AskWithin(n);
        KeptTwice(old(spans), t, spans, aggressiveDecommit);
      }
    }

    /** Asks the system when the limit allows it. */
    method AskWithin(ask: nat) returns (r: Option<(nat, nat)>)
      requires Valid() && 0 < ask
      modifies `spans, `pagemap, `lists, `stats, `releaseIndex, `taken, `asked, `refusals
      ensures Valid() && Kept(old(spans), spans, aggressiveDecommit)
      ensures r.Some? ==> var (p, n) := r.value;
                          0 < p && ask <= n && p + n <= K_MAX_VALID_PAGES && Range(Span(p, n, InUse, 0)) !! system
      ensures asked == old(asked) + [Ask(ask, r.Some?)] || (asked == old(asked) && r == None && NoRoom(ask, old(refusals)))
      ensures old(Within(ask)) ==> asked != old(asked) && State() == old(State()) && refusals == old(refusals)
      ensures old(refusals) <= refusals
    {
      var ok := EnsureLimit(ask, true);
      if !ok { return None; }
      forall p | p in system ensures exists s :: s in spans && spans[s].Has(p) {
        var s := PageHolder(spans, p);
      }
      r := SystemAlloc(ask);
    }

    /** A lot is free, but scattered, and the heap is about to cross a growth interval. */
    predicate ForcedCoalesce(n: nat)
      reads this
    {
      && stats.free != 0 && stats.unmapped != 0
      && stats.free + stats.unmapped >= stats.system / 4
      && stats.system / K_FORCED_COALESCE_INTERVAL != (stats.system + n * K_PAGE_SIZE) / K_FORCED_COALESCE_INTERVAL
    }

    /** Release everything that can be released, then search again. */
    method CoalesceAndSearch(m: nat) returns (r: Option<SpanPtr>, ghost left: SpanPtr)
      requires Valid() && 0 < m
      modifies `spans, `pagemap, `lists, `stats, `releaseIndex, `refusals
      ensures Valid()
      ensures r == None ==> Kept(old(spans), spans, aggressiveDecommit)
      ensures r.Some? ==> Allocated(old(spans), spans, r.value, m, aggressiveDecommit)
      ensures old(refusals) <= refusals
      ensures heapLimit == 0 && r == None && refusals == old(refusals) ==> GaveBack(old(stats), stats)
    {
      var released, refused := ReleaseAtLeastNPages(0x7FFF_FFFF);
      ghost var t := spans;
      ReleasedKeeps(old(spans), t, released, aggressiveDecommit);
      r, left := SearchFreeAndLargeLists(m);
      if r.Some? { KeptThenAllocated(old(spans), t, spans, r.value, m, aggressiveDecommit); }
      else { KeptTwice(old(spans), t, spans, aggressiveDecommit); }
    }

    /** Grow the heap, then search again. */
    method GrowAndSearch(m: nat) returns (r: Option<SpanPtr>, ghost left: SpanPtr)
      requires Valid() && 0 < m
      modifies `spans, `pagemap, `lists, `stats, `releaseIndex, `system, `leaked, `taken, `asked, `grants, `lost, `refusals
      ensures Valid() && old(system) <= system
      ensures r == None ==> Kept(old(spans), spans, aggressiveDecommit)
      ensures r.Some? ==> Allocated(old(spans), spans, r.value, m, aggressiveDecommit)
      ensures heapLimit == 0 ==> Grew(old(State()), old(Books()), State(), Books(), m, r.Some?)
      ensures m <= K_MAX_VALID_PAGES && asked == old(asked) ==> r == None && NoRoom(m, old(refusals))
      ensures old(refusals) <= refusals
    {
      left := 0;
      ghost var h, b := State(), Books();
      var ok;
      ghost var granted;
      ok, granted := GrowHeap(m);
      if !ok { return None, left; }
      r, left := SearchGrown(m, h, b);
    }

    /** The search after the heap has grown. */
    method SearchGrown(m: nat, ghost h: Heap, ghost b: Ledger) returns (r: Option<SpanPtr>, ghost left: SpanPtr)
      requires Valid() && 0 < m && Kept(h.spans, spans, aggressiveDecommit) && (exists y :: Fits(spans, y, m))
      requires heapLimit == 0 ==> Grew(h, b, State(), Books(), m, true)
      modifies `spans, `pagemap, `lists, `stats, `releaseIndex, `refusals
      ensures Valid()
      ensures r == None ==> Kept(h.spans, spans, aggressiveDecommit)
      ensures r.Some? ==> Allocated(h.spans, spans, r.value, m, aggressiveDecommit)
      ensures heapLimit == 0 ==> r.Some? && Grew(h, b, State(), Books(), m, true)
      ensures old(refusals) <= refusals
    {
      ghost var h', b' := State(), Books();
      r, left := SearchFreeAndLargeLists(m);
      if r.Some? { KeptThenAllocated(h.spans, h'.spans, spans, r.value, m, aggressiveDecommit); }
      else { KeptTwice(h.spans, h'.spans, spans, aggressiveDecommit); }
      if heapLimit == 0 { GrewStill(h, b, h', b', State(), Books(), m); }
    }

    /** Nothing fits: coalesce by force when that may help, and grow. */
    method NewAfterMiss(m: nat) returns (r: Option<SpanPtr>, ghost left: SpanPtr)
      requires Valid() && 0 < m
      modifies `spans, `pagemap, `lists, `stats, `releaseIndex, `system, `leaked, `taken, `asked, `grants, `lost, `refusals
      ensures Valid() && old(system) <= system
      ensures r == None ==> Kept(old(spans), spans, aggressiveDecommit)
      ensures r.Some? ==> Allocated(old(spans), spans, r.value, m, aggressiveDecommit)
      ensures heapLimit == 0 ==> Missed(old(State()), old(Books()), State(), Books(), m, r.Some?)
      ensures m <= K_MAX_VALID_PAGES && asked == old(asked) && r == None ==> NoRoom(m, old(refusals))
      ensures old(refusals) <= refusals
    {
      ghost var h, b := State(), Books();
      if ForcedCoalesce(m) {
        r, left := CoalesceAndSearch(m);
        if r.Some? { FoundMissed(h, b, State(), Books(), m); } else { r, left := GrowAfterRelease(m, h, b); }
      } else {
        r, left := GrowAndSearch(m);
        if heapLimit == 0 { GrewMissed(h, b, State(), Books(), m, r.Some?); }
      }
    }

    method GrowAfterRelease(m: nat, ghost h: Heap, ghost b: Ledger) returns (r: Option<SpanPtr>, ghost left: SpanPtr)
      requires Valid() && 0 < m && Kept(h.spans, spans, aggressiveDecommit) && Crowded(h.stats, m)
      requires Books() == b.(refusals := refusals) && b.refusals <= refusals
      requires heapLimit == 0 && refusals == b.refusals ==> GaveBack(h.stats, stats)
      modifies `spans, `pagemap, `lists, `stats, `releaseIndex, `system, `leaked, `taken, `asked, `grants, `lost, `refusals
      ensures Valid() && old(system) <= system
      ensures r == None ==> Kept(h.spans, spans, aggressiveDecommit)
      ensures r.Some? ==> Allocated(h.spans, spans, r.value, m, aggressiveDecommit)
      ensures heapLimit == 0 ==> Missed(h, b, State(), Books(), m, r.Some?)
      ensures m <= K_MAX_VALID_PAGES && asked == b.asked && r == None ==> NoRoom(m, b.refusals)
      ensures b.refusals <= refusals
    {
      ghost var h1, b1 := State(), Books();
      r, left := GrowAndSearch(m);
      if heapLimit == 0 { ForcedMissed(h, b, h1, b1, State(), Books(), m, r.Some?); }
      if r.Some? { KeptThenAllocated(h.spans, h1.spans, spans, r.value, m, aggressiveDecommit); }
      else { KeptTwice(h.spans, h1.spans, spans, aggressiveDecommit); }
    }

    /** Allocates a run of pages: from the best fitting free span when there is one and the limit does not hinder,
        and otherwise from memory newly obtained. */
    method NewLocked(n: nat) returns (r: Option<SpanPtr>, ghost left: SpanPtr)
      requires Valid() && 0 < n <= LENGTH_MAX
      modifies `spans, `pagemap, `lists, `stats, `releaseIndex, `system, `leaked, `taken, `asked, `grants, `lost, `refusals
      ensures Valid() && old(system) <= system
      ensures r == None ==> Kept(old(spans), spans, aggressiveDecommit)
      ensures r.Some? ==> Allocated(old(spans), spans, r.value, RoundUp(n, smallestSpanSize), aggressiveDecommit)
      ensures var m := RoundUp(n, smallestSpanSize);
              old(Unhindered(m)) && !NoFit(old(spans), m) ==>
                r.Some? && BestFit(old(State()), r.value, m) && CutFrom(old(spans), spans, r.value, m, left)
      ensures var m := RoundUp(n, smallestSpanSize); Answered(old(Unhindered(m)), old(State()), old(Books()), m, r.Some?)
    {
      RoundUpSpec(n, smallestSpanSize);
      r, left := NewRounded(RoundUp(n, smallestSpanSize));
    }

    /** NewLocked after rounding. */
    method NewRounded(m: nat) returns (r: Option<SpanPtr>, ghost left: SpanPtr)
      requires Valid() && 0 < m
      modifies `spans, `pagemap, `lists, `stats, `releaseIndex, `system, `leaked, `taken, `asked, `grants, `lost, `refusals
      ensures Valid() && old(system) <= system
      ensures r == None ==> Kept(old(spans), spans, aggressiveDecommit)
      ensures r.Some? ==> Allocated(old(spans), spans, r.value, m, aggressiveDecommit)
      ensures old(Unhindered(m)) && !NoFit(old(spans), m) ==>
                r.Some? && BestFit(old(State()), r.value, m) && CutFrom(old(spans), spans, r.value, m, left)
      ensures Answered(old(Unhindered(m)), old(State()), old(Books()), m, r.Some?)
    {
      ghost var h, b, free := State(), Books(), Unhindered(m);
      r, left := SearchFreeAndLargeLists(m);
      if r == None { r, left := NewOnMiss(m, h, b, free); }
    }

    /** The rest of NewLocked when the search in the heap `h` found nothing. */
    method NewOnMiss(m: nat, ghost h: Heap, ghost b: Ledger, ghost free: bool) returns (r: Option<SpanPtr>, ghost left: SpanPtr)
      requires Valid() && 0 < m && Kept(h.spans, spans, aggressiveDecommit) && (free ==> NoFit(h.spans, m))
      requires heapLimit == 0 ==> State() == h && Books() == b
      requires asked == b.asked && b.refusals <= refusals
      modifies `spans, `pagemap, `lists, `stats, `releaseIndex, `system, `leaked, `taken, `asked, `grants, `lost, `refusals
      ensures Valid() && old(system) <= system
      ensures r == None ==> Kept(h.spans, spans, aggressiveDecommit)
      ensures r.Some? ==> Allocated(h.spans, spans, r.value, m, aggressiveDecommit)
      ensures Answered(free, h, b, m, r.Some?)
    {
      ghost var t := spans;
      r, left := NewAfterMiss(m);
      if r.Some? { KeptThenAllocated(h.spans, t, spans, r.value, m, aggressiveDecommit); }
      else { KeptTwice(h.spans, t, spans, aggressiveDecommit); }
    }

    /** Splits a span in use; the second part gets a new descriptor. */
    method Split(s: SpanPtr, n: nat) returns (r: SpanPtr)
      requires Valid() && s in spans && spans[s].location == InUse && spans[s].sizeclass == 0 && 0 < n < spans[s].length
      modifies `spans, `pagemap
      ensures Valid() && r !in old(spans)
      ensures spans == SplitTable(old(spans), s, r, n)
    {
      var d := spans[s];
      r := NewSpanPtr();
      SplitInv(State(), system, leaked, s, r, n);
      pagemap := pagemap[d.start + n := r][d.End() - 1 := r][d.start + n - 1 := s];
      spans := spans[s := d.(length := n)][r := Span(d.start + n, d.length - n, InUse, 0)];
    }

    /** No span is longer than the address space. */
    lemma SpanShort(t: Table, s: SpanPtr, n: nat)
      requires Valid() && Allocated(t, spans, s, n, aggressiveDecommit)
      ensures n <= K_MAX_VALID_PAGES
    {
      AllocatedIs(t, spans, s, n, aggressiveDecommit);
      assert Proper(spans[s]);
      HasPage(spans, s, spans[s].End() - 1);
    }

    /** Allocates pages starting where the mask `align - 1` gives 0, a multiple of `align` when that is a
        power of two, and gives back what lies before and behind. */
    method NewAligned(n: nat, align: nat) returns (r: Option<SpanPtr>)
      requires Valid() && 0 < n <= LENGTH_MAX && 0 < align <= LENGTH_MAX
      modifies `spans, `pagemap, `lists, `stats, `releaseIndex, `system, `leaked, `taken, `asked, `grants, `lost, `refusals
      ensures Valid() && old(system) <= system
      ensures r == None ==> Kept(old(spans), spans, aggressiveDecommit)
      ensures r.Some? ==> Allocated(old(spans), spans, r.value, RoundUp(n, smallestSpanSize), aggressiveDecommit)
      ensures var alloc := RoundUp(n, smallestSpanSize) + align;
              if alloc > LENGTH_MAX then r == None
              else var m := RoundUp(alloc, smallestSpanSize); Answered(old(Unhindered(m)), old(State()), old(Books()), m, r.Some?)
      ensures r.Some? ==> Passes(spans[r.value].start, align) && (IsPower(align) ==> spans[r.value].start % align == 0)
    {
      var m := RoundUp(n, smallestSpanSize);
      RoundUpSpec(n, smallestSpanSize);
      if m + align > LENGTH_MAX {
        r := NewTooLong();
        return;
      }
      r := NewAndTrim(m, align);
    }

    /** Extra pages are allocated and an aligned portion is cut out of them. */
    method NewAndTrim(m: nat, align: nat) returns (r: Option<SpanPtr>)
      requires Valid() && 0 < m && 0 < align && m + align <= LENGTH_MAX
      modifies `spans, `pagemap, `lists, `stats, `releaseIndex, `system, `leaked, `taken, `asked, `grants, `lost, `refusals
      ensures Valid() && old(system) <= system
      ensures r == None ==> Kept(old(spans), spans, aggressiveDecommit)
      ensures r.Some? ==> Allocated(old(spans), spans, r.value, m, aggressiveDecommit)
      ensures r.Some? ==> Passes(spans[r.value].start, align) && (IsPower(align) ==> spans[r.value].start % align == 0)
      ensures var got := RoundUp(m + align, smallestSpanSize);
              Answered(old(Unhindered(got)), old(State()), old(Books()), got, r.Some?)
    {
      ghost var h, b, free := State(), Books(), Unhindered(RoundUp(m + align, smallestSpanSize));
      r := NewAnswered(m + align);
      if r.Some? { r := TrimAnswered(r, m, align, h, b, free); }
    }

    /** Trimming what was found leaves the answer as it is. */
    method TrimAnswered(s: Option<SpanPtr>, m: nat, align: nat, ghost h: Heap, ghost b: Ledger, ghost free: bool) returns (r: Option<SpanPtr>)
      requires Valid() && 0 < m && 0 < align && m + align <= LENGTH_MAX && s.Some?
      requires Allocated(h.spans, spans, s.value, RoundUp(m + align, smallestSpanSize), aggressiveDecommit)
      requires Answered(free, h, b, RoundUp(m + align, smallestSpanSize), s.Some?)
      modifies `spans, `pagemap, `lists, `stats, `releaseIndex, `refusals
      ensures Valid() && r.Some? && Allocated(h.spans, spans, r.value, m, aggressiveDecommit)
      ensures Passes(spans[r.value].start, align) && (IsPower(align) ==> spans[r.value].start % align == 0)
      ensures Answered(free, h, b, RoundUp(m + align, smallestSpanSize), r.Some?)
    {
      ghost var h', b' := State(), Books();
      var t := Trim(s.value, m, align, h.spans);
      ServedStill(heapLimit, free, h, b, h', b', State(), Books(), RoundUp(m + align, smallestSpanSize));
      return Some(t);
    }

    /** NewLocked, whichever span it is. */
    method NewAnswered(n: nat) returns (r: Option<SpanPtr>)
      requires Valid() && 0 < n <= LENGTH_MAX
      modifies `spans, `pagemap, `lists, `stats, `releaseIndex, `system, `leaked, `taken, `asked, `grants, `lost, `refusals
      ensures Valid() && old(system) <= system
      ensures r == None ==> Kept(old(spans), spans, aggressiveDecommit)
      ensures r.Some? ==> Allocated(old(spans), spans, r.value, RoundUp(n, smallestSpanSize), aggressiveDecommit)
      ensures var m := RoundUp(n, smallestSpanSize); Answered(old(Unhindered(m)), old(State()), old(Books()), m, r.Some?)
    {
      ghost var left;
      r, left := NewLocked(n);
    }

    /** The pages before the first aligned one and behind the `m` pages asked for go back. */
    method Trim(s: SpanPtr, m: nat, align: nat, ghost t0: Table) returns (r: SpanPtr)
      requires Valid() && 0 < m && 0 < align && m + align <= LENGTH_MAX
      requires Allocated(t0, spans, s, RoundUp(m + align, smallestSpanSize), aggressiveDecommit)
      modifies `spans, `pagemap, `lists, `stats, `releaseIndex, `refusals
      ensures Valid() && Allocated(t0, spans, r, m, aggressiveDecommit)
      ensures Passes(spans[r].start, align) && (IsPower(align) ==> spans[r].start % align == 0)
    {
      var got := RoundUp(m + align, smallestSpanSize);
      RoundUpSpec(m + align, smallestSpanSize);
      SpanShort(t0, s, got);
      AllocatedIs(t0, spans, s, got, aggressiveDecommit);
      r := AlignFront(s, got, align, t0);
      CutBack(r, m, t0);
      if IsPower(align) { PassesIsAligned(spans[r].start, align); }
    }

    /** The overflow path of NewAligned: ask for more than there is, and fail. */
    method NewTooLong() returns (r: Option<SpanPtr>)
      requires Valid()
      modifies `spans, `pagemap, `lists, `stats, `releaseIndex, `system, `leaked, `taken, `asked, `grants, `lost, `refusals
      ensures Valid() && old(system) <= system && r == None && Kept(old(spans), spans, aggressiveDecommit)
    {
      ghost var left;
      r, left := NewLocked(LENGTH_MAX);
      RoundUpSpec(LENGTH_MAX, smallestSpanSize);
      if r.Some? { SpanShort(old(spans), r.value, RoundUp(LENGTH_MAX, smallestSpanSize)); }
    }

    /** Skips to the first aligned page. */
    method AlignFront(s: SpanPtr, n: nat, align: nat, ghost t0: Table) returns (r: SpanPtr)
      requires Valid() && s in spans && spans[s].length == n && Allocated(t0, spans, s, spans[s].length, aggressiveDecommit) && 0 < align <= n
      modifies `spans, `pagemap, `lists, `stats, `releaseIndex, `refusals
      ensures Valid() && r in spans && n - align < spans[r].length <= n
      ensures Allocated(t0, spans, r, spans[r].length, aggressiveDecommit)
      ensures Passes(spans[r].start, align)
    {
      var skip := SkipTo(spans[s].start, align);
      ghost var p := spans[s].start + skip;
      r := DropFront(s, n, skip, t0);
      assert spans[r].start == p;
    }

    /** Gives back the first `skip` pages. */
    method DropFront(s: SpanPtr, n: nat, skip: nat, ghost t0: Table) returns (r: SpanPtr)
      requires Valid() && s in spans && spans[s].length == n && Allocated(t0, spans, s, spans[s].length, aggressiveDecommit) && skip < n
      modifies `spans, `pagemap, `lists, `stats, `releaseIndex, `refusals
      ensures Valid() && r in spans && spans[r].length == n - skip && spans[r].start == old(spans)[s].start + skip
      ensures Allocated(t0, spans, r, spans[r].length, aggressiveDecommit)
    {
      r := s;
      if skip > 0 { r := CutFront(s, skip, t0); }
    }

    method CutFront(s: SpanPtr, skip: nat, ghost t0: Table) returns (r: SpanPtr)
      requires Valid() && s in spans && Allocated(t0, spans, s, spans[s].length, aggressiveDecommit) && 0 < skip < spans[s].length
      modifies `spans, `pagemap, `lists, `stats, `releaseIndex, `refusals
      ensures Valid() && r in spans && spans[r].length == old(spans)[s].length - skip && spans[r].start == old(spans)[s].start + skip
      ensures Allocated(t0, spans, r, spans[r].length, aggressiveDecommit)
    {
      ghost var t1 := spans;
      AllocatedIs(t0, t1, s, t1[s].length, aggressiveDecommit);
      r := Split(s, skip);
      ghost var scavenged := DeleteLocked(s);
      TrimmedFront(t0, t1, spans, s, r, skip, aggressiveDecommit);
    }

    /** Gives back everything behind the first `m` pages. */
    method CutBack(s: SpanPtr, m: nat, ghost t0: Table)
      requires Valid() && s in spans && Allocated(t0, spans, s, spans[s].length, aggressiveDecommit) && 0 < m <= spans[s].length
      modifies `spans, `pagemap, `lists, `stats, `releaseIndex, `refusals
      ensures Valid() && s in spans && spans[s].length == m && spans[s].start == old(spans)[s].start
      ensures Allocated(t0, spans, s, spans[s].length, aggressiveDecommit)
    {
      if spans[s].length > m { DropBack(s, m, t0); }
    }

    method DropBack(s: SpanPtr, m: nat, ghost t0: Table)
      requires Valid() && s in spans && Allocated(t0, spans, s, spans[s].length, aggressiveDecommit) && 0 < m < spans[s].length
      modifies `spans, `pagemap, `lists, `stats, `releaseIndex, `refusals
      ensures Valid() && s in spans && spans[s].length == m && spans[s].start == old(spans)[s].start
      ensures Allocated(t0, spans, s, spans[s].length, aggressiveDecommit)
    {
      AllocatedIs(t0, spans, s, spans[s].length, aggressiveDecommit);
      ghost var t1 := spans;
      var trailer := Split(s, m);
      ghost var scavenged := DeleteLocked(trailer);
      TrimmedBack(t0, t1, spans, s, trailer, m, aggressiveDecommit);
    }

    /** Gives a span in use a size class and makes all its pages name it. */
    method RegisterSizeClass(s: SpanPtr, sc: nat)
      requires Valid() && s in spans && spans[s].location == InUse
      modifies `spans, `pagemap
      ensures Valid() && spans == old(spans)[s := old(spans)[s].(sizeclass := sc)]
      ensures Filled(old(pagemap), pagemap, old(spans)[s], s)
    {
      ghost var h := State();
      var d := spans[s];
      assert Proper(d) && Anchored(pagemap, s, d);
      NamePages(s);
      spans := spans[s := d.(sizeclass := sc)];
      RegisteredInv(h, State(), system, leaked, s, sc);
    }

    /** The loop of RegisterSizeClass over the interior pages. */
    method NamePages(s: SpanPtr)
      requires s in spans && 0 < spans[s].length && Anchored(pagemap, s, spans[s])
      modifies `pagemap
      ensures Filled(old(pagemap), pagemap, spans[s], s)
    {
      var d := spans[s];
      var i := 1;
      while i < d.length - 1
        invariant 1 <= i && (d.length > 1 ==> i <= d.length - 1)
        invariant forall p: nat :: d.Has(p) && (p < d.start + i || p == d.End() - 1) ==> p in pagemap && pagemap[p] == s
        invariant forall p: nat :: !d.Has(p) && p in old(pagemap) ==> p in pagemap && pagemap[p] == old(pagemap)[p]
        invariant forall p: nat :: !d.Has(p) && p in pagemap ==> p in old(pagemap)
      {
        pagemap := pagemap[d.start + i := s];
        i := i + 1;
      }
    }

    /** NewWithSizeClass: allocate and, for small objects, register. */
    method NewWithSizeClass(n: nat, sc: nat) returns (r: Option<SpanPtr>)
      requires Valid() && 0 < n <= LENGTH_MAX
      modifies `spans, `pagemap, `lists, `stats, `releaseIndex, `system, `leaked, `taken, `asked, `grants, `lost, `refusals
      ensures Valid() && old(system) <= system
      ensures r == None ==> Kept(old(spans), spans, aggressiveDecommit)
      ensures r.Some? ==> var s := r.value;
                && s in spans && s !in UsedOf(old(spans))
                && UsedOf(spans) == UsedOf(old(spans))[s := Span(spans[s].start, RoundUp(n, smallestSpanSize), InUse, sc)]
                && (sc > 0 ==> forall p: nat :: spans[s].Has(p) ==> p in pagemap && pagemap[p] == s)
      ensures !aggressiveDecommit && Coalesced(old(spans)) ==> Coalesced(spans)
      ensures var m := RoundUp(n, smallestSpanSize);
              && Answered(old(Unhindered(m)), old(State()), old(Books()), m, r.Some?)
              && (old(Unhindered(m)) && !NoFit(old(spans), m) ==> BestFit(old(State()), r.value, m))
    {
      ghost var left;
      r, left := NewLocked(n);
      if r.Some? {
        AllocatedIs(old(spans), spans, r.value, RoundUp(n, smallestSpanSize), aggressiveDecommit);
        SetSizeClass(r.value, sc);
      }
    }

    /** A span just allocated gets its class, if it is one of small objects. */
    method SetSizeClass(s: SpanPtr, sc: nat)
      requires Valid() && s in spans && spans[s].location == InUse && spans[s].sizeclass == 0
      modifies `spans, `pagemap
      ensures Valid() && s in spans
      ensures UsedOf(spans) == UsedOf(old(spans))[s := old(spans)[s].(sizeclass := sc)] && spans[s].start == old(spans)[s].start
      ensures sc > 0 ==> forall p: nat :: spans[s].Has(p) ==> p in pagemap && pagemap[p] == s
      ensures Coalesced(old(spans)) ==> Coalesced(spans)
    {
      RegisteredUsed(spans, s, sc);
      if sc > 0 {
        RegisterSizeClass(s, sc);
      } else {
        assert spans[s := spans[s].(sizeclass := sc)] == spans;
      }
    }
  }
}
