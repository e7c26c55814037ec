/** Steps in which spans give out objects, take them back, dissolve or arrive. */
module CentralSpans {
  import opened Collections
  import opened Wrappers
  import opened CentralData
  import opened CentralProtocol
  import opened CentralInv
  import opened CentralMoves
  import opened Carving

  // ------------------------------------------------------------------ FetchFromOneSpans

  lemma Fetched(cfg: Config, st: State, st': State, t: Tid, w: Work, s: SpanId, m: nat)
    requires Inv(cfg, st) && t in st.threads && st.threads[t] == Run(w) && w.Fetch? && w.c < |st.data|
    requires st.data[w.c].nonempty != [] && s == st.data[w.c].nonempty[0] && s in st.spans
    requires 0 < m <= |st.spans[s].free| && m <= w.n - |w.got|
    requires st' == Goto(st.(data := st.data[w.c := FetchedClass(st.data[w.c], st.spans, m)],
                             spans := st.spans[s := FetchedSpan(st.spans[s], m)]),
                         t, Fetch(w.c, w.n, st.spans[s].free[..m] + w.got, w.populated))
    ensures Inv(cfg, st')
  {
    var c, x := w.c, st.spans[s];
    var take := x.free[..m];
    assert SpanOk(x) && ThreadOk(cfg, st.spans, |st.locks|, st.threads[t]);
    assert s in st.data[c].nonempty && ClassOk(st.data[c], st.spans, c, Hands(st.threads));
    FetchedOk(x, m);
    assert ClassOk(st'.data[c], st'.spans, c, Hands(st.threads)) by {
      FetchedClassOk(st.data[c], st.spans, c, Hands(st.threads), m);
    }
    Separate(st, InSpan(s), InFlight(t));
    DistinctJoin(take, w.got);
    assert LocksOk(st'.locks, st'.threads) by { LockStep(st.locks, st'.locks, st.threads, t, st'.threads[t]); }
    assert OfClass(st'.spans, take + w.got, c) by { TakenOfClass(st.spans, st'.spans, s, take, w.got, c); }
    SpanStepKeepsInv(cfg, st, st', t, c, s);
  }

  lemma TakenOfClass(t: SpanTable, t': SpanTable, s: SpanId, take: seq<Obj>, got: seq<Obj>, c: nat)
    requires SameObjs(t, t') && s in t && SpanOk(t[s]) && t[s].cls == c && OfClass(t, got, c)
    requires forall o :: o in take ==> o in t[s].free
    ensures OfClass(t', take + got, c)
  {
    OfClassSame(t, t', got, c);
    forall o | o in take + got ensures OwnedIn(t', o, c) {
      if o in take { assert Owns(t', s, o); }
    }
  }

  // ------------------------------------------------------------------ ReleaseToSpans

  /** The span of an object being released is a listed span of the class, and the object is not free. */
  lemma ReleasedObject(cfg: Config, st: State, t: Tid, w: Work, s: SpanId)
    requires Inv(cfg, st) && t in st.threads && st.threads[t] == Run(w) && w.Release? && w.rest != []
    requires s in st.spans && w.rest[0] in st.spans[s].objs
    ensures SpanOk(st.spans[s]) && st.spans[s].cls == w.c && s !in Hands(st.threads)
    ensures w.rest[0] !in st.spans[s].free && st.spans[s].refcount > 0
    ensures OfClass(st.spans, w.rest[1..], w.c) && AfterOk(cfg, st.spans, w.after) && InRange(w, |cfg.move|)
    ensures Distinct(w.rest[1..] + AfterChain(w.after)) && w.rest[0] !in w.rest[1..] + AfterChain(w.after)
  {
    var o := w.rest[0];
    assert ThreadOk(cfg, st.spans, |st.locks|, st.threads[t]);
    assert o in w.rest;
    var x :| Owns(st.spans, x, o) && st.spans[x].cls == w.c;
    assert Owns(st.spans, s, o);
    assert o in Carried(st.threads[t]);
    Separate(st, InSpan(s), InFlight(t));
    if s in Hands(st.threads) { HandIsFree(cfg, st, s); }
    LastOutstanding(st.spans[s], o);
    TailDistinct(w.rest, AfterChain(w.after));
    OfClassPart(st.spans, w.rest, w.rest[1..], w.c);
  }

  /** A span in a thread's hand has all its objects free. */
  lemma HandIsFree(cfg: Config, st: State, s: SpanId)
    requires ThreadsOk(cfg, st) && s in Hands(st.threads)
    ensures s in st.spans && st.spans[s].free == st.spans[s].objs
  {
    var u :| u in st.threads && InHand(st.threads[u]) == Some(s);
    assert ThreadOk(cfg, st.spans, |st.locks|, st.threads[u]);
  }

  lemma TailDistinct(q: seq<Obj>, r: seq<Obj>)
    requires q != [] && Distinct(q + r)
    ensures Distinct(q[1..] + r) && q[0] !in q[1..] + r
  {
    assert (q + r)[0] == q[0];
    assert q[1..] + r == (q + r)[1..];
  }

  lemma ObjectReturned(cfg: Config, st: State, st': State, t: Tid, w: Work, s: SpanId)
    requires Inv(cfg, st) && t in st.threads && st.threads[t] == Run(w) && w.Release? && w.rest != [] && w.c < |st.data|
    requires s in st.spans && w.rest[0] in st.spans[s].objs
    requires st' == Goto(st.(data := st.data[w.c := ReturnedClass(st.data[w.c], st.spans[s], s)],
                             spans := st.spans[s := ReturnedSpan(st.spans[s], w.rest[0])]),
                         t, Release(w.c, w.rest[1..], w.after))
    ensures Inv(cfg, st')
  {
    var c, x, o := w.c, st.spans[s], w.rest[0];
    ReleasedObject(cfg, st, t, w, s);
    ReturnedOk(x, o);
    assert ClassOk(st'.data[c], st'.spans, c, Hands(st.threads)) by {
      ReturnedClassOk(st.data[c], st.spans, c, Hands(st.threads), s, o);
    }
    assert LocksOk(st'.locks, st'.threads) by { LockStep(st.locks, st'.locks, st.threads, t, st'.threads[t]); }
    Separate(st, InSpan(s), InFlight(t));
    CarriedTail(w.rest, AfterChain(w.after));
    assert ThreadOk(cfg, st'.spans, |st'.locks|, st'.threads[t]) by {
      OfClassSame(st.spans, st'.spans, w.rest[1..], c);
      if w.after.DoneShrink? { OfClassSame(st.spans, st'.spans, w.after.chain, w.after.cls); }
    }
    SpanStepKeepsInv(cfg, st, st', t, c, s);
  }

  lemma CarriedTail(q: seq<Obj>, r: seq<Obj>)
    requires q != []
    ensures Elements(q + r) == Elements(q[1..] + r) + {q[0]}
  {
    assert q + r == [q[0]] + (q[1..] + r);
  }

  // ------------------------------------------------------------------ a span dissolves

  lemma OfClassDissolved(t: SpanTable, s: SpanId, q: seq<Obj>, c: nat)
    requires OfClass(t, q, c) && s in t && forall o :: o in q ==> o !in t[s].objs
    ensures OfClass(t - {s}, q, c)
  {
    forall o | o in q ensures OwnedIn(t - {s}, o, c) {
      var x :| Owns(t, x, o) && t[x].cls == c;
      assert Owns(t - {s}, x, o);
    }
  }

  lemma ThreadDissolved(cfg: Config, t: SpanTable, s: SpanId, locks: nat, th: Thread)
    requires ThreadOk(cfg, t, locks, th) && s in t && InHand(th) != Some(s)
    requires forall o :: o in Carried(th) ==> o !in t[s].objs
    ensures ThreadOk(cfg, t - {s}, locks, th)
  {
    forall c, q | OfClass(t, q, c) && (forall o :: o in q ==> o in Carried(th)) ensures OfClass(t - {s}, q, c) {
      OfClassDissolved(t, s, q, c);
    }
    match th
    case Wait(w) => WorkKept(cfg, t, t - {s}, w);
    case Run(w) => WorkKept(cfg, t, t - {s}, w);
    case _ =>
  }

  /** The step that gives a span back: every other object of it is on its own free list. */
  ghost predicate DissolveStep(cfg: Config, st: State, st': State, t: Tid, w: Work, s: SpanId) {
    && t in st.threads && st.threads[t] == Run(w) && w.Release? && w.rest != [] && w.c < |st.data| && Shaped(cfg, st)
    && s in st.spans && w.rest[0] in st.spans[s].objs && st.spans[s].refcount == 1
    && st' == Switch(st.(data := st.data[w.c := DissolvedClass(st.data[w.c], s, Count(st.spans[s].bytes, cfg.size[w.c]))],
                         spans := st.spans - {s}),
                     t, w.c + 1, DeletePages(w.c, w.rest[1..], w.after))
  }

  lemma OthersElsewhere(cfg: Config, st: State, t: Tid, w: Work, s: SpanId, p: Place, o: Obj)
    requires Inv(cfg, st) && t in st.threads && st.threads[t] == Run(w) && w.Release? && w.rest != []
    requires s in st.spans && w.rest[0] in st.spans[s].objs && st.spans[s].refcount == 1
    requires o in At(st, p) && o in st.spans[s].objs
    ensures p == InSpan(s) || (p == InFlight(t) && o == w.rest[0])
  {
    ReleasedObject(cfg, st, t, w, s);
    LastOutstanding(st.spans[s], w.rest[0]);
    assert o in Elements(st.spans[s].objs);
    if o == w.rest[0] {
      assert o in w.rest;
      assert o in At(st, InFlight(t));
    } else {
      assert o in At(st, InSpan(s));
    }
  }

  lemma DissolvedOwner(cfg: Config, st: State, st': State, t: Tid, w: Work, s: SpanId, p: Place, o: Obj)
    requires Inv(cfg, st) && DissolveStep(cfg, st, st', t, w, s)
    requires o in At(st, p) && p != InSpan(s) && (p == InFlight(t) ==> o != w.rest[0])
    ensures Owned(st'.spans, o)
  {
    assert Owned(st.spans, o);
    var x :| Owns(st.spans, x, o);
    if x == s { OthersElsewhere(cfg, st, t, w, s, p, o); }
    assert Owns(st'.spans, x, o);
  }

  /** The free list of the span is gone, the thread carries one object less, nothing else changes. */
  ghost predicate PlacesLeft(st: State, st': State, t: Tid, s: SpanId, o: Obj) {
    && st'.spans == st.spans - {s}
    && At(st', InFlight(t)) == At(st, InFlight(t)) - {o} && At(st', InSpan(s)) == {}
    && forall p :: p != InFlight(t) && p != InSpan(s) ==> At(st', p) == At(st, p)
  }

  lemma DissolvedAt(cfg: Config, st: State, st': State, t: Tid, w: Work, s: SpanId)
    requires Inv(cfg, st) && DissolveStep(cfg, st, st', t, w, s)
    ensures PlacesLeft(st, st', t, s, w.rest[0])
  {
    ReleasedObject(cfg, st, t, w, s);
    CarriedTail(w.rest, AfterChain(w.after));
    assert At(st', InFlight(t)) == At(st, InFlight(t)) - {w.rest[0]};
    forall p | p != InFlight(t) && p != InSpan(s) ensures At(st', p) == At(st, p) {}
  }

  lemma DissolvedPlaces(cfg: Config, st: State, st': State, t: Tid, w: Work, s: SpanId)
    requires Inv(cfg, st) && DissolveStep(cfg, st, st', t, w, s)
    ensures OnePlace(st')
  {
    DissolvedAt(cfg, st, st', t, w, s);
    assert Owns(st.spans, s, w.rest[0]);
    DissolvedUnique(st, st', t, s, w.rest[0]);
    forall p, o | o in At(st', p) ensures Owned(st'.spans, o) {
      DissolvedOwner(cfg, st, st', t, w, s, p, o);
    }
    forall x, o | Owns(st'.spans, x, o) ensures Located(st', o) {
      DissolvedLocated(st, st', t, s, w.rest[0], x, o);
    }
  }

  lemma DissolvedUnique(st: State, st': State, t: Tid, s: SpanId, gone: Obj)
    requires OnePlace(st) && PlacesLeft(st, st', t, s, gone)
    ensures forall p, o :: o in At(st', p) ==> o in At(st, p) && p != InSpan(s) && (p == InFlight(t) ==> o != gone)
    ensures forall p, q, o :: o in At(st', p) && o in At(st', q) ==> p == q
  {
  }

  lemma DissolvedLocated(st: State, st': State, t: Tid, s: SpanId, gone: Obj, x: SpanId, o: Obj)
    requires OnePlace(st) && SpansOk(st.spans) && PlacesLeft(st, st', t, s, gone) && Owns(st.spans, s, gone) && Owns(st'.spans, x, o)
    ensures Located(st', o)
  {
    assert Owns(st.spans, x, o);
    assert Located(st, o);
    var p :| o in At(st, p);
    assert o != gone;
    assert SpanOk(st.spans[s]);
    assert x != s && !Owns(st.spans, s, o);
    assert p != InSpan(s);
    assert o in At(st', p);
  }

  /** No thread carries an object of the dissolved span afterwards. */
  lemma CarriedElsewhere(cfg: Config, st: State, st': State, t: Tid, w: Work, s: SpanId, u: Tid, o: Obj)
    requires Inv(cfg, st) && DissolveStep(cfg, st, st', t, w, s) && u in st'.threads && o in Carried(st'.threads[u])
    ensures o !in st.spans[s].objs
  {
    if o in st.spans[s].objs {
      ReleasedObject(cfg, st, t, w, s);
      CarriedTail(w.rest, AfterChain(w.after));
      assert o in Elements(Carried(st'.threads[u]));
      assert o in At(st, InFlight(u));
      OthersElsewhere(cfg, st, t, w, s, InFlight(u), o);
    }
  }

  lemma DissolvedThreads(cfg: Config, st: State, st': State, t: Tid, w: Work, s: SpanId)
    requires Inv(cfg, st) && DissolveStep(cfg, st, st', t, w, s)
    ensures ThreadsOk(cfg, st')
  {
    forall u | u in st'.threads ensures ThreadOk(cfg, st'.spans, |st'.locks|, st'.threads[u]) {
      DissolvedThread(cfg, st, st', t, w, s, u);
    }
  }

  lemma DissolvedThread(cfg: Config, st: State, st': State, t: Tid, w: Work, s: SpanId, u: Tid)
    requires Inv(cfg, st) && DissolveStep(cfg, st, st', t, w, s) && u in st'.threads
    ensures ThreadOk(cfg, st'.spans, |st'.locks|, st'.threads[u])
  {
    assert ThreadOk(cfg, st.spans, |st.locks|, st'.threads[u]) by {
      assert ThreadOk(cfg, st.spans, |st.locks|, st.threads[u]);
      if u == t { ReleasedObject(cfg, st, t, w, s); }
    }
    assert InHand(st'.threads[u]) != Some(s) by {
      ReleasedObject(cfg, st, t, w, s);
      assert InHand(st.threads[u]).Some? ==> InHand(st.threads[u]).value in Hands(st.threads);
    }
    forall o | o in Carried(st'.threads[u]) ensures o !in st.spans[s].objs {
      CarriedElsewhere(cfg, st, st', t, w, s, u, o);
    }
    ThreadDissolved(cfg, st.spans, s, |st.locks|, st'.threads[u]);
  }

  /** The division by which a span leaves the counter gives the number of objects it was carved into. */
  lemma CountIsLength(cfg: Config, x: ObjSpan)
    requires Cut(cfg, x)
    ensures Count(x.bytes, cfg.size[x.cls]) == |x.objs|
  {
    PiecesCount(x.start, x.start + x.bytes, cfg.size[x.cls]);
  }

  lemma DissolvedLists(cfg: Config, st: State, st': State, t: Tid, w: Work, s: SpanId)
    requires Inv(cfg, st) && DissolveStep(cfg, st, st', t, w, s)
    ensures ListsOk(st')
  {
    assert Cut(cfg, st.spans[s]);
    ReleasedObject(cfg, st, t, w, s);
    HandsSame(st.threads, t, st'.threads[t]);
    CountIsLength(cfg, st.spans[s]);
    forall k | 0 <= k < |st'.data| ensures ClassOk(st'.data[k], st'.spans, k, Hands(st'.threads)) {
      assert ClassOk(st.data[k], st.spans, k, Hands(st.threads));
      if k == w.c { DissolvedClassOk(st.data[k], st.spans, k, Hands(st.threads), s); }
      else { OtherClassOk(st.data[k], st.spans, st'.spans, k, Hands(st.threads)); }
    }
  }

  lemma DissolvedCaches(cfg: Config, st: State, st': State, t: Tid, w: Work, s: SpanId)
    requires Inv(cfg, st) && DissolveStep(cfg, st, st', t, w, s)
    ensures CachesOk(cfg, st')
  {
    forall k | 0 <= k < |st'.data|
      ensures SlotsOk(st'.data[k], cfg.move[k]) && forall i :: 0 <= i < |st'.data[k].slots| ==> OfClass(st'.spans, st'.data[k].slots[i], k)
    {
      assert SlotsOk(st.data[k], cfg.move[k]);
      forall i | 0 <= i < |st'.data[k].slots| ensures OfClass(st'.spans, st'.data[k].slots[i], k) {
        forall o | o in st.data[k].slots[i] ensures o !in st.spans[s].objs {
          assert o in At(st, InSlot(k, i));
          if o in st.spans[s].objs { OthersElsewhere(cfg, st, t, w, s, InSlot(k, i), o); }
        }
        OfClassDissolved(st.spans, s, st.data[k].slots[i], k);
      }
    }
  }

  lemma CutsLess(cfg: Config, t: SpanTable, s: SpanId)
    requires CutsOk(cfg, t)
    ensures CutsOk(cfg, t - {s})
  {
    forall x | x in t - {s} ensures Cut(cfg, (t - {s})[x]) { assert Cut(cfg, t[x]); }
    forall x, y | x in t - {s} && y in t - {s} && x != y ensures Apart((t - {s})[x], (t - {s})[y]) { assert Apart(t[x], t[y]); }
  }

  lemma SpanDissolved(cfg: Config, st: State, st': State, t: Tid, w: Work, s: SpanId)
    requires Inv(cfg, st) && DissolveStep(cfg, st, st', t, w, s)
    ensures Inv(cfg, st')
  {
    assert OnePlace(st') by { DissolvedPlaces(cfg, st, st', t, w, s); }
    assert ThreadsOk(cfg, st') by { DissolvedThreads(cfg, st, st', t, w, s); }
    assert ListsOk(st') by { DissolvedLists(cfg, st, st', t, w, s); }
    assert CachesOk(cfg, st') by { DissolvedCaches(cfg, st, st', t, w, s); }
    assert LocksOk(st'.locks, st'.threads) by { LockStep(st.locks, st'.locks, st.threads, t, st'.threads[t]); }
    assert SpansOk(st'.spans) by {
      forall x, y, o | Owns(st'.spans, x, o) && Owns(st'.spans, y, o) ensures x == y {
        assert Owns(st.spans, x, o) && Owns(st.spans, y, o);
      }
    }
    assert CutsOk(cfg, st'.spans) by { CutsLess(cfg, st.spans, s); }
    CreditStep(st.threads, t, st'.threads[t]);
    CacheSumUpdate(st.data, w.c, st'.data[w.c]);
  }

  // ------------------------------------------------------------------ a span arrives

  /** Populated, with what the page heap and the carving promise. */
  ghost predicate ArriveStep(st: State, st': State, t: Tid, w: Work, s: SpanId, x: ObjSpan) {
    && t in st.threads && st.threads[t] == Run(w) && w.NewPages? && 0 < |st.locks|
    && s !in st.spans && x.cls == w.c && x.free == x.objs && x.refcount == 0 && x.objs != [] && Distinct(x.objs)
    && (forall y :: y in st.spans ==> Elements(x.objs) !! Elements(st.spans[y].objs))
    && st' == Switch(st.(spans := st.spans[s := x]), t, 0, Install(w.c, w.n, Some(s)))
  }

  /** Objects carved from spans that share no byte are different. */
  lemma CutsSeparate(cfg: Config, x: ObjSpan, y: ObjSpan)
    requires Cut(cfg, x) && Cut(cfg, y) && Apart(x, y)
    ensures Elements(x.objs) !! Elements(y.objs)
  {
    forall o | o in x.objs && o in y.objs ensures false {
      PieceInside(x.start, x.start + x.bytes, cfg.size[x.cls], o);
      PieceInside(y.start, y.start + y.bytes, cfg.size[y.cls], o);
    }
  }

  /** No two objects share a byte. */
  lemma CutsApart(cfg: Config, t: SpanTable, s: SpanId, x: SpanId, o: Obj, p: Obj)
    requires CutsOk(cfg, t) && Owns(t, s, o) && Owns(t, x, p) && o != p
    ensures Cut(cfg, t[s]) && Cut(cfg, t[x]) && (o + cfg.size[t[s].cls] <= p || p + cfg.size[t[x].cls] <= o)
  {
    assert Cut(cfg, t[s]) && Cut(cfg, t[x]);
    var size := cfg.size[t[s].cls];
    if s == x {
      var i :| 0 <= i < |t[s].objs| && t[s].objs[i] == o;
      var j :| 0 <= j < |t[s].objs| && t[s].objs[j] == p;
      if i < j { PiecesApart(t[s].start, t[s].start + t[s].bytes, size, i, j); }
      else { PiecesApart(t[s].start, t[s].start + t[s].bytes, size, j, i); }
    } else {
      assert Apart(t[s], t[x]);
      PieceInside(t[s].start, t[s].start + t[s].bytes, size, o);
      PieceInside(t[x].start, t[x].start + t[x].bytes, cfg.size[t[x].cls], p);
    }
  }

  lemma PopulatedArrives(cfg: Config, st: State, st': State, t: Tid, w: Work, s: SpanId, start: nat)
    requires Inv(cfg, st) && t in st.threads && st.threads[t] == Run(w) && w.NewPages? && w.c < |st.data|
    requires NewPagesStep(cfg, st, st', t, w, Some((s, start)))
    ensures Cut(cfg, Populated(cfg, w.c, start)) && ArriveStep(st, st', t, w, s, Populated(cfg, w.c, start))
  {
    var x := Populated(cfg, w.c, start);
    PiecesDistinct(start, start + cfg.room[w.c], cfg.size[w.c]);
    forall y | y in st.spans ensures Elements(x.objs) !! Elements(st.spans[y].objs) {
      assert Cut(cfg, st.spans[y]);
      CutsSeparate(cfg, x, st.spans[y]);
    }
  }

  lemma CutsMore(cfg: Config, t: SpanTable, s: SpanId, x: ObjSpan)
    requires CutsOk(cfg, t) && Cut(cfg, x) && s !in t && forall y :: y in t ==> Apart(x, t[y])
    ensures CutsOk(cfg, t[s := x])
  {
    var t' := t[s := x];
    forall y | y in t' ensures Cut(cfg, t'[y]) { if y != s { assert Cut(cfg, t[y]); } }
    forall y, z | y in t' && z in t' && y != z ensures Apart(t'[y], t'[z]) {
      if y != s && z != s { assert Apart(t[y], t[z]); }
    }
  }

  lemma OfClassArrived(t: SpanTable, s: SpanId, x: ObjSpan, q: seq<Obj>, c: nat)
    requires s !in t && OfClass(t, q, c)
    ensures OfClass(t[s := x], q, c)
  {
    var t' := t[s := x];
    forall o | o in q ensures OwnedIn(t', o, c) {
      var y :| Owns(t, y, o) && t[y].cls == c;
      assert Owns(t', y, o);
    }
  }

  lemma ArrivedPlaces(st: State, st': State, t: Tid, w: Work, s: SpanId, x: ObjSpan)
    requires OnePlace(st) && ArriveStep(st, st', t, w, s, x)
    ensures OnePlace(st')
  {
    assert At(st', InSpan(s)) == Elements(x.objs);
    forall p | p != InSpan(s) ensures At(st', p) == At(st, p) {}
    forall p, o | o in At(st, p) ensures o !in x.objs && Owned(st'.spans, o) {
      assert Owned(st.spans, o);
      var y :| Owns(st.spans, y, o);
      assert Owns(st'.spans, y, o) && o in Elements(st.spans[y].objs);
    }
    forall p, o | o in At(st', p) ensures Owned(st'.spans, o) {
      if p == InSpan(s) { assert Owns(st'.spans, s, o); }
    }
    forall y, o | Owns(st'.spans, y, o) ensures Located(st', o) {
      if y == s { assert o in At(st', InSpan(s)); }
      else {
        assert Owns(st.spans, y, o);
        var p :| o in At(st, p);
        assert p != InSpan(s);
        assert o in At(st', p);
      }
    }
    forall p, q, o | o in At(st', p) && o in At(st', q) ensures p == q {
      if p != InSpan(s) { assert o in At(st, p); }
      if q != InSpan(s) { assert o in At(st, q); }
    }
  }

  lemma ArrivedThreads(cfg: Config, st: State, st': State, t: Tid, w: Work, s: SpanId, x: ObjSpan)
    requires ThreadsOk(cfg, st) && ArriveStep(st, st', t, w, s, x)
    ensures ThreadsOk(cfg, st')
  {
    forall u | u in st'.threads ensures ThreadOk(cfg, st'.spans, |st'.locks|, st'.threads[u]) {
      var th := st.threads[u];
      assert ThreadOk(cfg, st.spans, |st.locks|, th);
      if u != t {
        forall c, q | OfClass(st.spans, q, c) ensures OfClass(st'.spans, q, c) {
          OfClassArrived(st.spans, s, st'.spans[s], q, c);
        }
        match th
        case Wait(work) => WorkKept(cfg, st.spans, st'.spans, work);
        case Run(work) => WorkKept(cfg, st.spans, st'.spans, work);
        case _ =>
      }
    }
  }

  lemma ArrivedLists(cfg: Config, st: State, st': State, t: Tid, w: Work, s: SpanId, x: ObjSpan)
    requires ThreadsOk(cfg, st) && ListsOk(st) && ArriveStep(st, st', t, w, s, x)
    ensures ListsOk(st')
  {
    var hands, hands' := Hands(st.threads), Hands(st'.threads);
    assert hands' == hands + {s} by {
      forall y ensures y in hands' <==> y in hands + {s} {
        if y in hands {
          var u :| u in st.threads && InHand(st.threads[u]) == Some(y);
          assert u in st'.threads && InHand(st'.threads[u]) == Some(y);
        }
        assert t in st'.threads && InHand(st'.threads[t]) == Some(s);
      }
    }
    forall u | u in st.threads && u != t ensures InHand(st.threads[u]) != Some(s) {
      assert ThreadOk(cfg, st.spans, |st.locks|, st.threads[u]);
    }
    forall k | 0 <= k < |st'.data| ensures ClassOk(st'.data[k], st'.spans, k, hands') {
      assert ClassOk(st.data[k], st.spans, k, hands);
      FreeCountSame(st.data[k].nonempty, st.spans, st'.spans);
    }
  }

  lemma SpanArrived(cfg: Config, st: State, st': State, t: Tid, w: Work, s: SpanId, start: nat)
    requires Inv(cfg, st) && t in st.threads && st.threads[t] == Run(w) && w.NewPages? && w.c < |st.data|
    requires NewPagesStep(cfg, st, st', t, w, Some((s, start)))
    ensures Inv(cfg, st')
  {
    var x := Populated(cfg, w.c, start);
    PopulatedArrives(cfg, st, st', t, w, s, start);
    assert OnePlace(st') by { ArrivedPlaces(st, st', t, w, s, x); }
    assert ThreadsOk(cfg, st') by { ArrivedThreads(cfg, st, st', t, w, s, x); }
    assert ListsOk(st') by { ArrivedLists(cfg, st, st', t, w, s, x); }
    assert LocksOk(st'.locks, st'.threads) by { LockStep(st.locks, st'.locks, st.threads, t, st'.threads[t]); }
    assert SpansOk(st'.spans) by { ArrivedSpans(st.spans, s, x); }
    assert CutsOk(cfg, st'.spans) by { CutsMore(cfg, st.spans, s, x); }
    assert CachesOk(cfg, st') by {
      forall k, i | 0 <= k < |st.data| && 0 <= i < |st.data[k].slots| ensures OfClass(st'.spans, st.data[k].slots[i], k) {
        OfClassArrived(st.spans, s, x, st.data[k].slots[i], k);
      }
    }
    CreditStep(st.threads, t, st'.threads[t]);
  }

  lemma ArrivedSpans(t: SpanTable, s: SpanId, x: ObjSpan)
    requires SpansOk(t) && s !in t && SpanOk(x) && forall y :: y in t ==> Elements(x.objs) !! Elements(t[y].objs)
    ensures SpansOk(t[s := x])
  {
    var t' := t[s := x];
    forall y, o | Owns(t, y, o) ensures o !in x.objs {
      assert o in Elements(t[y].objs);
      assert o !in Elements(x.objs);
    }
    forall a, b, o | Owns(t', a, o) && Owns(t', b, o) ensures a == b {
      if a != s { assert Owns(t, a, o); }
      if b != s { assert Owns(t, b, o); }
    }
  }

  // ------------------------------------------------------------------ a span is listed

  ghost predicate ListStep(st: State, st': State, t: Tid, w: Work, s: SpanId) {
    && t in st.threads && st.threads[t] == Run(w) && w.Install? && w.span == Some(s) && w.c < |st.data| && s in st.spans
    && st' == Goto(st.(data := st.data[w.c := InstalledClass(st.data[w.c], st.spans[s], s)]), t, Fetch(w.c, w.n, [], true))
  }

  lemma ListedHands(threads: map<Tid, Thread>, t: Tid, th': Thread, s: SpanId)
    requires t in threads && HandsOk(threads) && InHand(threads[t]) == Some(s) && InHand(th') == None
    ensures Hands(threads[t := th']) == Hands(threads) - {s} && HandsOk(threads[t := th'])
  {
    var threads' := threads[t := th'];
    forall x ensures x in Hands(threads') <==> x in Hands(threads) - {s} {
      if x in Hands(threads) && x != s {
        var u :| u in threads && InHand(threads[u]) == Some(x);
        assert u in threads' && InHand(threads'[u]) == Some(x);
      }
    }
  }

  lemma ListedLists(cfg: Config, st: State, st': State, t: Tid, w: Work, s: SpanId)
    requires ThreadsOk(cfg, st) && SpansOk(st.spans) && ListsOk(st) && ListStep(st, st', t, w, s)
    ensures ListsOk(st')
  {
    assert ThreadOk(cfg, st.spans, |st.locks|, st.threads[t]);
    ListedHands(st.threads, t, st'.threads[t], s);
    assert s in Hands(st.threads) by { assert InHand(st.threads[t]) == Some(s); }
    assert SpanOk(st.spans[s]);
    forall k | 0 <= k < |st'.data| ensures ClassOk(st'.data[k], st'.spans, k, Hands(st'.threads)) {
      assert ClassOk(st.data[k], st.spans, k, Hands(st.threads));
      if k == w.c { InstalledClassOk(st.data[k], st.spans, k, Hands(st.threads), s); }
    }
  }

  lemma SpanListed(cfg: Config, st: State, st': State, t: Tid, w: Work, s: SpanId)
    requires Inv(cfg, st) && ListStep(st, st', t, w, s)
    ensures Inv(cfg, st')
  {
    assert ListsOk(st') by { ListedLists(cfg, st, st', t, w, s); }
    assert LocksOk(st'.locks, st'.threads) by { LockStep(st.locks, st'.locks, st.threads, t, st'.threads[t]); }
    assert ThreadsOk(cfg, st') by { assert ThreadOk(cfg, st.spans, |st.locks|, st.threads[t]); }
    assert OnePlace(st') by {
      forall p ensures At(st', p) == At(st, p) {}
      MoveKeeps(st, st', InFlight(t), WithClient);
    }
    assert CachesOk(cfg, st') by {
      forall k | 0 <= k < |st'.data| ensures SlotsOk(st'.data[k], cfg.move[k]) { assert SlotsOk(st.data[k], cfg.move[k]); }
    }
    CreditStep(st.threads, t, st'.threads[t]);
    CacheSumUpdate(st.data, w.c, st'.data[w.c]);
  }
}
