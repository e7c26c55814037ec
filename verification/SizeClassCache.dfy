/** The size-class cache next to the span table (page_heap.cc, central_freelist.cc, tcmalloc.cc): spans come and
    go, entries are written without a lock, and only the first page of a new span is invalidated. */
module SizeClassCache {

  import opened Wrappers
  import opened PackedCaches

  type SpanId = nat
  type Tid = nat

  /** A span handed out by the page heap: its first page is invalidated before anyone else sees it, then
      Populate caches the class of its pages one after another. */
  datatype Phase = Taken | Ready | Filling(done: nat) | Filled

  datatype SpanInfo = SpanInfo(start: nat, length: nat, cls: nat, phase: Phase)

  /** A thread in free that missed the cache, has read the class of the span and is about to cache it. */
  datatype Pending = Pending(span: SpanId, page: nat, cls: nat)

  datatype State = State(cache: seq<nat>, spans: map<SpanId, SpanInfo>, pending: map<Tid, Pending>)

  predicate Holds(x: SpanInfo, p: nat) { x.start <= p < x.start + x.length }

  ghost predicate Disjoint(x: SpanInfo, y: SpanInfo) {
    forall p :: !(Holds(x, p) && Holds(y, p))
  }

  datatype Label =
    | Allocate(s: SpanId, start: nat, length: nat, cls: nat)
    | Invalidate(s: SpanId)
    | Fill(s: SpanId)
    | FillDone(s: SpanId)
    | Miss(t: Tid, s: SpanId, page: nat)
    | Cache(t: Tid)
    | Release(s: SpanId)

  ghost predicate Step(a: State, l: Label, b: State)
    requires |a.cache| == K_SLOTS
  {
    match l
    case Allocate(s, start, length, cls) =>
      // New under the page-heap lock: pages that no span in use has.
      var x := SpanInfo(start, length, cls, Taken);
      && s !in a.spans && length > 0 && start + length <= K_KEYS && cls < K_VALUES
      && (forall u :: u in a.spans ==> Disjoint(a.spans[u], x))
      && b == a.(spans := a.spans[s := x])
    case Invalidate(s) =>
      && s in a.spans && a.spans[s].phase == Taken
      && b == a.(cache := InvalidateIn(a.cache, a.spans[s].start), spans := a.spans[s := a.spans[s].(phase := Ready)])
    case Fill(s) =>
      // Populate: small-object spans only.
      && s in a.spans && a.spans[s].cls != 0
      && (a.spans[s].phase == Ready || a.spans[s].phase.Filling?)
      && var n := if a.spans[s].phase == Ready then 0 else a.spans[s].phase.done;
      && n < a.spans[s].length
      && b == a.(cache := PutIn(a.cache, a.spans[s].start + n, a.spans[s].cls),
                 spans := a.spans[s := a.spans[s].(phase := Filling(n + 1))])
    case FillDone(s) =>
      && s in a.spans && a.spans[s].phase == Filling(a.spans[s].length)
      && b == a.(spans := a.spans[s := a.spans[s].(phase := Filled)])
    case Miss(t, s, page) =>
      // free of an object of this span: the page is not cached, the class is read from the span.
      && t !in a.pending && s in a.spans && a.spans[s].phase == Filled && Holds(a.spans[s], page)
      && Get(a.cache, page) == None
      && b == a.(pending := a.pending[t := Pending(s, page, a.spans[s].cls)])
    case Cache(t) =>
      && t in a.pending
      && b == a.(cache := PutIn(a.cache, a.pending[t].page, a.pending[t].cls), pending := a.pending - {t})
    case Release(s) =>
      // A span goes back only when all its objects are back; a thread in free still has one.
      && s in a.spans && a.spans[s].phase in {Ready, Filled}
      && (a.spans[s].phase == Ready ==> a.spans[s].cls == 0)
      && (forall t :: t in a.pending ==> a.pending[t].span != s)
      && b == a.(spans := a.spans - {s})
  }

  ghost predicate Init(a: State) {
    && |a.cache| == K_SLOTS && a.spans == map[] && a.pending == map[]
    && forall p: nat :: p < K_KEYS ==> Get(a.cache, p) == None
  }

  ghost predicate Next(a: State, b: State) {
    |a.cache| == K_SLOTS && exists l :: Step(a, l, b)
  }

  ghost predicate Run(run: seq<State>) {
    run != [] && Init(run[0]) && forall i :: 0 < i < |run| ==> Next(run[i - 1], run[i])
  }

  // ------------------------------------------------------------------ the invariant

  /** A lookup of `p` misses or gives the class; class 0 is never cached. */
  ghost predicate Agrees(cache: seq<nat>, p: nat, cls: nat) {
    |cache| == K_SLOTS && (Get(cache, p) == None || (Get(cache, p) == Some(cls) && cls != 0))
  }

  /** The pages of a span on which the cache must agree. */
  predicate Covered(x: SpanInfo, p: nat) {
    && Holds(x, p)
    && match x.phase
       case Taken => false
       case Ready => p == x.start
       case Filling(n) => p == x.start || p < x.start + n
       case Filled => true
  }

  ghost predicate SpanOk(a: State, s: SpanId) {
    s in a.spans ==>
      && 0 < a.spans[s].length && a.spans[s].cls < K_VALUES
      && (a.spans[s].phase == Filled ==> a.spans[s].cls != 0)
      && (a.spans[s].phase.Filling? ==> a.spans[s].cls != 0 && a.spans[s].phase.done <= a.spans[s].length)
      && forall p :: Covered(a.spans[s], p) ==> Agrees(a.cache, p, a.spans[s].cls)
  }

  ghost predicate PendingOk(a: State, t: Tid) {
    t in a.pending ==>
      var q := a.pending[t];
      && q.span in a.spans && a.spans[q.span].phase == Filled && Holds(a.spans[q.span], q.page) && q.cls == a.spans[q.span].cls
  }

  ghost predicate Apart(a: State, s: SpanId, u: SpanId) {
    s in a.spans && u in a.spans && s != u ==> Disjoint(a.spans[s], a.spans[u])
  }

  ghost predicate Inv(a: State) {
    && |a.cache| == K_SLOTS
    && (forall s: SpanId {:trigger SpanOk(a, s)} :: SpanOk(a, s))
    && (forall t: Tid {:trigger PendingOk(a, t)} :: PendingOk(a, t))
    && (forall s: SpanId, u: SpanId {:trigger Apart(a, s, u)} :: Apart(a, s, u))
  }

  /** Caching the class of a page of a span in use keeps agreement for that span. */
  lemma PutKeeps(a: State, s: SpanId, page: nat, b: State, u: SpanId)
    requires Inv(a) && s in a.spans && Holds(a.spans[s], page) && a.spans[s].cls != 0
    requires b.cache == PutIn(a.cache, page, a.spans[s].cls) && b.spans == a.spans
    ensures SpanOk(b, u)
  {
    assert SpanOk(a, s) && SpanOk(a, u) && Apart(a, s, u);
    if u in a.spans {
      assert u == s || !Holds(a.spans[u], page);
      forall p | Covered(b.spans[u], p) ensures Agrees(b.cache, p, b.spans[u].cls) {
        assert Agrees(a.cache, p, a.spans[u].cls);
        PutGet(a.cache, page, a.spans[s].cls, p);
      }
    }
  }

  lemma InvalidateKeeps(a: State, page: nat, b: State, u: SpanId)
    requires Inv(a) && b.cache == InvalidateIn(a.cache, page) && b.spans == a.spans
    ensures SpanOk(b, u)
  {
    assert SpanOk(a, u);
    if u in a.spans {
      forall p | Covered(b.spans[u], p) ensures Agrees(b.cache, p, b.spans[u].cls) {
        assert Agrees(a.cache, p, a.spans[u].cls);
        InvalidateGet(a.cache, page, p);
      }
    }
  }

  lemma StepSpans(a: State, l: Label, b: State, u: SpanId)
    requires Inv(a) && Step(a, l, b)
    ensures SpanOk(b, u)
  {
    assert SpanOk(a, u);
    match l
    case Allocate(s, start, length, cls) =>
    case Invalidate(s) =>
      var m := b.(spans := a.spans);
      InvalidateKeeps(a, a.spans[s].start, m, u);
      InvalidateGet(a.cache, a.spans[s].start, a.spans[s].start);
    case Fill(s) =>
      var n := if a.spans[s].phase == Ready then 0 else a.spans[s].phase.done;
      PutKeeps(a, s, a.spans[s].start + n, b.(spans := a.spans), u);
      FillCovers(a, s, n, b);
    case FillDone(s) =>
    case Miss(t, s, page) =>
    case Cache(t) =>
      assert PendingOk(a, t);
      var q := a.pending[t];
      assert SpanOk(a, q.span);
      PutKeeps(a, q.span, q.page, b, u);
    case Release(s) =>
  }

  /** The page that Populate has just cached agrees. */
  lemma FillCovers(a: State, s: SpanId, n: nat, b: State)
    requires Inv(a) && s in a.spans && a.spans[s].cls != 0 && n < a.spans[s].length
    requires b.cache == PutIn(a.cache, a.spans[s].start + n, a.spans[s].cls)
    ensures Agrees(b.cache, a.spans[s].start + n, a.spans[s].cls)
  {
    assert SpanOk(a, s);
    PutGet(a.cache, a.spans[s].start + n, a.spans[s].cls, a.spans[s].start + n);
  }

  /** What is put in the cache is found there: by Populate, and by a free that missed. */
  lemma StepCaches(a: State, l: Label, b: State)
    requires Inv(a) && Step(a, l, b)
    ensures l.Fill? ==> l.s in b.spans && b.spans[l.s].phase.Filling? && b.spans[l.s].phase.done > 0
                        && Get(b.cache, b.spans[l.s].start + b.spans[l.s].phase.done - 1) == Some(b.spans[l.s].cls)
    ensures l.Cache? ==> && l.t in a.pending && a.pending[l.t].span in a.spans
                         && Get(b.cache, a.pending[l.t].page) == Some(a.spans[a.pending[l.t].span].cls)
  {
    match l
    case Fill(s) =>
      assert SpanOk(a, s);
      var n := b.spans[s].phase.done - 1;
      PutGet(a.cache, a.spans[s].start + n, a.spans[s].cls, a.spans[s].start + n);
    case Cache(t) =>
      assert PendingOk(a, t) && SpanOk(a, a.pending[t].span);
      PutGet(a.cache, a.pending[t].page, a.pending[t].cls, a.pending[t].page);
    case _ =>
  }

  lemma StepInv(a: State, l: Label, b: State)
    requires Inv(a) && Step(a, l, b)
    ensures Inv(b)
  {
    forall u: SpanId ensures SpanOk(b, u) { StepSpans(a, l, b, u); }
    forall t: Tid ensures PendingOk(b, t) {
      assert PendingOk(a, t);
      if l.Miss? { assert SpanOk(a, l.s); }
    }
    forall s: SpanId, u: SpanId ensures Apart(b, s, u) { assert Apart(a, s, u); }
  }

  lemma {:induction false} RunInv(run: seq<State>)
    requires Run(run)
    ensures Inv(run[|run| - 1])
  {
    if |run| > 1 {
      var n := |run| - 1;
      assert Run(run[..n]) by {
        forall i | 0 < i < n ensures Next(run[..n][i - 1], run[..n][i]) { assert Next(run[i - 1], run[i]); }
      }
      RunInv(run[..n]);
      assert Next(run[n - 1], run[n]);
      var l :| Step(run[n - 1], l, run[n]);
      StepInv(run[n - 1], l, run[n]);
    }
  }

  // ------------------------------------------------------------------ what it gives

  /** Once a span is handed out, a lookup of its first page misses or gives its class. */
  lemma FirstPageAgrees(run: seq<State>, s: SpanId)
    requires Run(run)
    requires s in run[|run| - 1].spans && !run[|run| - 1].spans[s].phase.Taken?
    ensures var a := run[|run| - 1]; Agrees(a.cache, a.spans[s].start, a.spans[s].cls)
  {
    RunInv(run);
    var a := run[|run| - 1];
    assert SpanOk(a, s);
    assert Covered(a.spans[s], a.spans[s].start);
  }

  /** Once Populate has filled a span, the same holds for each of its pages. */
  lemma EveryPageAgrees(run: seq<State>, s: SpanId, p: nat)
    requires Run(run)
    requires s in run[|run| - 1].spans && run[|run| - 1].spans[s].phase == Filled && Holds(run[|run| - 1].spans[s], p)
    ensures var a := run[|run| - 1]; Agrees(a.cache, p, a.spans[s].cls)
  {
    RunInv(run);
    var a := run[|run| - 1];
    assert SpanOk(a, s);
    assert Covered(a.spans[s], p);
  }

  /** free finds the right class for an object on any page of a filled span, from the cache or from the span. */
  lemma FreeFindsClass(run: seq<State>, s: SpanId, p: nat)
    requires Run(run)
    requires s in run[|run| - 1].spans && run[|run| - 1].spans[s].phase == Filled && Holds(run[|run| - 1].spans[s], p)
    ensures var a := run[|run| - 1];
            |a.cache| == K_SLOTS && (match Get(a.cache, p) case Some(c) => c case None => a.spans[s].cls) == a.spans[s].cls
  {
    EveryPageAgrees(run, s, p);
  }
}
