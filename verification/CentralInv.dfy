/** What every reachable state of the central cache satisfies. */
module CentralInv {
  import opened Collections
  import opened Wrappers
  import opened CentralData
  import opened CentralProtocol
  import opened Carving

  // ------------------------------------------------------------------ where objects are

  datatype Place = InSpan(s: SpanId) | InSlot(c: nat, i: nat) | InFlight(t: Tid) | WithClient

  function At(st: State, p: Place): set<Obj> {
    match p
    case InSpan(s) => if s in st.spans then Elements(st.spans[s].free) else {}
    case InSlot(c, i) => if c < |st.data| && i < |st.data[c].slots| then Elements(st.data[c].slots[i]) else {}
    case InFlight(t) => if t in st.threads then Elements(Carried(st.threads[t])) else {}
    case WithClient => st.client
  }

  ghost predicate Owns(t: SpanTable, s: SpanId, o: Obj) {
    s in t && o in t[s].objs
  }

  ghost predicate Owned(t: SpanTable, o: Obj) { exists s :: Owns(t, s, o) }

  /** `o` belongs to a span of class `c`. */
  ghost predicate OwnedIn(t: SpanTable, o: Obj, c: nat) { exists s :: Owns(t, s, o) && t[s].cls == c }

  ghost predicate Located(st: State, o: Obj) { exists p :: o in At(st, p) }

  /** Every object of every span is in one place, and in one place only. */
  ghost predicate OnePlace(st: State) {
    && (forall p, q, o :: o in At(st, p) && o in At(st, q) ==> p == q)
    && (forall p, o :: o in At(st, p) ==> Owned(st.spans, o))
    && (forall s, o :: Owns(st.spans, s, o) ==> Located(st, o))
  }

  ghost predicate SpansOk(t: SpanTable) {
    && (forall s {:trigger SpanOk(t[s])} :: s in t ==> SpanOk(t[s]))
    && (forall s, x, o :: Owns(t, s, o) && Owns(t, x, o) ==> s == x)
  }

  /** All objects of `q` belong to spans of class `c`. */
  ghost predicate OfClass(t: SpanTable, q: seq<Obj>, c: nat) {
    forall o :: o in q ==> OwnedIn(t, o, c)
  }

  /** The objects of a span are what its bytes hold of its class's size. */
  ghost predicate Cut(cfg: Config, x: ObjSpan) {
    && x.cls < |cfg.size| && 0 < cfg.size[x.cls] <= x.bytes
    && x.objs == Pieces(x.start, x.start + x.bytes, cfg.size[x.cls])
  }

  ghost predicate CutsOk(cfg: Config, t: SpanTable) {
    && (forall s {:trigger Cut(cfg, t[s])} :: s in t ==> Cut(cfg, t[s]))
    && (forall s, x {:trigger Apart(t[s], t[x])} :: s in t && x in t && s != x ==> Apart(t[s], t[x]))
  }

  // ------------------------------------------------------------------ threads

  ghost predicate WorkOk(cfg: Config, t: SpanTable, w: Work) {
    && InRange(w, |cfg.move|)
    && match w
       case InsertStart(c, chain) => OfClass(t, chain, c)
       case Evict(c, chain, _) => |chain| == cfg.move[c] && OfClass(t, chain, c)
       case Shrink(_, c, chain, _) => |chain| == cfg.move[c] && OfClass(t, chain, c)
       case EvictResult(c, chain, _, _) => |chain| == cfg.move[c] && OfClass(t, chain, c)
       case Release(c, rest, after) => OfClass(t, rest, c) && AfterOk(cfg, t, after)
       case DeletePages(c, rest, after) => OfClass(t, rest, c) && AfterOk(cfg, t, after)
       case RemoveStart(_, n) => n > 0
       case Fetch(c, n, got, _) => |got| <= n && n > 0 && OfClass(t, got, c)
       case NewPages(_, n) => n > 0
       case Install(c, n, span) => n > 0 && (span.Some? ==> Fresh(t, span.value, c))
  }

  ghost predicate AfterOk(cfg: Config, t: SpanTable, a: After) {
    a.DoneShrink? ==> a.cls < |cfg.move| && |a.chain| == cfg.move[a.cls] && OfClass(t, a.chain, a.cls)
  }

  /** A populated span nobody has taken anything from. */
  ghost predicate Fresh(t: SpanTable, s: SpanId, c: nat) {
    s in t && t[s].cls == c && t[s].free == t[s].objs
  }

  ghost predicate ThreadOk(cfg: Config, t: SpanTable, locks: nat, th: Thread) {
    && Distinct(Carried(th))
    && match th
       case Idle => true
       case Wait(w) => WorkOk(cfg, t, w)
       case Run(w) => WorkOk(cfg, t, w)
       case ForkWait(k) => k <= locks
       case ForkRelease(j) => j < locks
  }

  ghost predicate ThreadsOk(cfg: Config, st: State) {
    forall t {:trigger ThreadOk(cfg, st.spans, |st.locks|, st.threads[t])} ::
      t in st.threads ==> ThreadOk(cfg, st.spans, |st.locks|, st.threads[t])
  }

  /** A lock's owner is the thread that is inside, and nobody else is. */
  ghost predicate LocksOk(locks: seq<Option<Tid>>, threads: map<Tid, Thread>) {
    && (forall t, l :: t in threads && 0 <= l < |locks| ==> (Holds(threads[t], l) <==> locks[l] == Some(t)))
    && (forall l :: 0 <= l < |locks| && locks[l].Some? ==> locks[l].value in threads)
  }

  ghost function Hands(threads: map<Tid, Thread>): set<SpanId> {
    set t | t in threads && InHand(threads[t]).Some? :: InHand(threads[t]).value
  }

  ghost predicate HandsOk(threads: map<Tid, Thread>) {
    forall t, u :: t in threads && u in threads && t != u && InHand(threads[t]).Some? ==> InHand(threads[u]) != InHand(threads[t])
  }

  ghost predicate ListsOk(st: State) {
    && (forall c {:trigger ClassOk(st.data[c], st.spans, c, Hands(st.threads))} ::
          0 <= c < |st.data| ==> ClassOk(st.data[c], st.spans, c, Hands(st.threads)))
    && HandsOk(st.threads)
  }

  // ------------------------------------------------------------------ slots

  ghost function CacheSum(data: seq<ClassData>): int {
    if data == [] then 0 else CacheSum(data[..|data| - 1]) + data[|data| - 1].cacheSize
  }

  ghost function Credits(threads: map<Tid, Thread>): set<Tid> {
    set t | t in threads && Credit(threads[t])
  }

  /** Slots stolen but not yet added are still within the budget. */
  ghost predicate BudgetOk(cfg: Config, st: State) {
    CacheSum(st.data) + |Credits(st.threads)| <= cfg.budget
  }

  ghost predicate CachesOk(cfg: Config, st: State)
    requires Shaped(cfg, st)
  {
    forall c :: 0 <= c < |st.data| ==>
      SlotsOk(st.data[c], cfg.move[c]) && forall i :: 0 <= i < |st.data[c].slots| ==> OfClass(st.spans, st.data[c].slots[i], c)
  }

  ghost predicate Inv(cfg: Config, st: State) {
    && Shaped(cfg, st)
    && LocksOk(st.locks, st.threads)
    && SpansOk(st.spans)
    && CutsOk(cfg, st.spans)
    && OnePlace(st)
    && ThreadsOk(cfg, st)
    && ListsOk(st)
    && CachesOk(cfg, st)
    && BudgetOk(cfg, st)
  }

  // ------------------------------------------------------------------ locks

  /** `t` goes from `th` to `th'`; only its own locks change hands. */
  lemma LockStep(locks: seq<Option<Tid>>, locks': seq<Option<Tid>>, threads: map<Tid, Thread>, t: Tid, th': Thread)
    requires LocksOk(locks, threads) && t in threads && |locks'| == |locks|
    requires forall l :: 0 <= l < |locks| ==> (Holds(th', l) <==> locks'[l] == Some(t))
    requires forall l :: 0 <= l < |locks| && locks'[l] != locks[l] ==>
               (locks[l] == None || locks[l] == Some(t)) && (locks'[l] == None || locks'[l] == Some(t))
    ensures LocksOk(locks', threads[t := th'])
  {
    var threads' := threads[t := th'];
    forall u, l | u in threads' && 0 <= l < |locks'| ensures Holds(threads'[u], l) <==> locks'[l] == Some(u) {
      if u != t { assert Holds(threads[u], l) <==> locks[l] == Some(u); }
    }
  }

  // ------------------------------------------------------------------ credits and hands

  lemma CreditStep(threads: map<Tid, Thread>, t: Tid, th': Thread)
    requires t in threads
    ensures |Credits(threads[t := th'])| == |Credits(threads)| - (if Credit(threads[t]) then 1 else 0) + (if Credit(th') then 1 else 0)
  {
    var a, b := Credits(threads), Credits(threads[t := th']);
    assert a - {t} == b - {t};
    assert |a| == |a - {t}| + (if t in a then 1 else 0);
    assert |b| == |b - {t}| + (if t in b then 1 else 0);
  }

  lemma HandsSame(threads: map<Tid, Thread>, t: Tid, th': Thread)
    requires t in threads && InHand(th') == InHand(threads[t]) && HandsOk(threads)
    ensures Hands(threads[t := th']) == Hands(threads) && HandsOk(threads[t := th'])
  {
    var threads' := threads[t := th'];
    forall s ensures s in Hands(threads') <==> s in Hands(threads) {
      if s in Hands(threads) {
        var u :| u in threads && InHand(threads[u]) == Some(s);
        assert u in threads' && InHand(threads'[u]) == Some(s);
      }
    }
  }

  lemma {:induction false} CacheSumUpdate(data: seq<ClassData>, c: nat, d: ClassData)
    requires c < |data|
    ensures CacheSum(data[c := d]) == CacheSum(data) - data[c].cacheSize + d.cacheSize
  {
    var n := |data| - 1;
    if c < n {
      CacheSumUpdate(data[..n], c, d);
      assert data[c := d][..n] == data[..n][c := d];
    } else {
      assert data[c := d][..n] == data[..n];
    }
  }

  // ------------------------------------------------------------------ steps that move no object

  /** Control moved on: same objects, same span in hand, no new credit. */
  ghost predicate ControlStep(cfg: Config, st: State, st': State, t: Tid) {
    && t in st.threads && t in st'.threads && st'.threads == st.threads[t := st'.threads[t]]
    && st'.data == st.data && st'.spans == st.spans && st'.client == st.client && |st'.locks| == |st.locks|
    && Carried(st'.threads[t]) == Carried(st.threads[t])
    && InHand(st'.threads[t]) == InHand(st.threads[t])
    && (Credit(st'.threads[t]) ==> Credit(st.threads[t]))
    && ThreadOk(cfg, st.spans, |st.locks|, st'.threads[t])
    && LocksOk(st'.locks, st'.threads)
  }

  lemma ControlKeepsInv(cfg: Config, st: State, st': State, t: Tid)
    requires Inv(cfg, st) && ControlStep(cfg, st, st', t)
    ensures Inv(cfg, st')
  {
    assert forall p :: At(st', p) == At(st, p);
    HandsSame(st.threads, t, st'.threads[t]);
    CreditStep(st.threads, t, st'.threads[t]);
    assert OnePlace(st') by {
      forall p, o | o in At(st', p) ensures Owned(st'.spans, o) { assert o in At(st, p); }
      forall s, o | Owns(st'.spans, s, o) ensures Located(st', o) {
        assert Owns(st.spans, s, o);
        var p :| o in At(st, p);
        assert o in At(st', p);
      }
    }
  }
}
