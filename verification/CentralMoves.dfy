/** Each kind of step that moves objects, slots or spans keeps the invariant. */
module CentralMoves {
  import opened Collections
  import opened Wrappers
  import opened CentralData
  import opened CentralProtocol
  import opened CentralInv

  // ------------------------------------------------------------------ moving objects between two places

  lemma MoveKeeps(st: State, st': State, a: Place, b: Place)
    requires OnePlace(st) && a != b
    requires forall p :: p != a && p != b ==> At(st', p) == At(st, p)
    requires At(st', a) + At(st', b) == At(st, a) + At(st, b) && At(st', a) !! At(st', b)
    requires forall s, o :: Owns(st'.spans, s, o) <==> Owns(st.spans, s, o)
    ensures OnePlace(st')
  {
    forall p, q, o | o in At(st', p) && o in At(st', q) ensures p == q {
      var p0 := Source(st, st', a, b, p, o);
      var q0 := Source(st, st', a, b, q, o);
    }
    forall p, o | o in At(st', p) ensures Owned(st'.spans, o) {
      var p0 := Source(st, st', a, b, p, o);
      assert Owned(st.spans, o);
      var s :| Owns(st.spans, s, o);
      assert Owns(st'.spans, s, o);
    }
    forall s, o | Owns(st'.spans, s, o) ensures Located(st', o) {
      assert Owns(st.spans, s, o);
      var p :| o in At(st, p);
      assert o in At(st', p) || o in At(st', a) || o in At(st', b);
    }
  }

  /** Where an object was before: where it is, or one of the two places involved. */
  lemma Source(st: State, st': State, a: Place, b: Place, p: Place, o: Obj) returns (q: Place)
    requires forall x :: x != a && x != b ==> At(st', x) == At(st, x)
    requires At(st', a) + At(st', b) == At(st, a) + At(st, b)
    requires o in At(st', p)
    ensures o in At(st, q) && (q == p || (p in {a, b} && q in {a, b}))
  {
    if p != a && p != b {
      assert At(st', p) == At(st, p);
      q := p;
    } else {
      assert o in At(st, a) + At(st, b);
      q := if o in At(st, a) then a else b;
    }
  }

  // ------------------------------------------------------------------ tables with the same objects

  /** Only free lists and refcounts differ. */
  ghost predicate SameObjs(t: SpanTable, t': SpanTable) {
    && t'.Keys == t.Keys
    && (forall s :: s in t ==> t'[s].objs == t[s].objs && t'[s].cls == t[s].cls)
  }

  lemma OfClassSame(t: SpanTable, t': SpanTable, q: seq<Obj>, c: nat)
    requires SameObjs(t, t') && OfClass(t, q, c)
    ensures OfClass(t', q, c)
  {
    forall o | o in q ensures OwnedIn(t', o, c) {
      var s :| Owns(t, s, o) && t[s].cls == c;
      assert Owns(t', s, o) && t'[s].cls == c;
    }
  }

  lemma OfClassPart(t: SpanTable, q: seq<Obj>, r: seq<Obj>, c: nat)
    requires OfClass(t, q, c) && forall o :: o in r ==> o in q
    ensures OfClass(t, r, c)
  {
  }

  /** Work survives a table change that keeps the objects it mentions in their class. */
  lemma WorkKept(cfg: Config, t: SpanTable, t': SpanTable, w: Work)
    requires WorkOk(cfg, t, w)
    requires forall c, q :: OfClass(t, q, c) && (forall o :: o in q ==> o in CarriedBy(w)) ==> OfClass(t', q, c)
    requires w.Install? && w.span.Some? ==> w.span.value in t' && t'[w.span.value] == t[w.span.value]
    ensures WorkOk(cfg, t', w)
  {
  }

  // ------------------------------------------------------------------ client and threads

  lemma CalledInsert(cfg: Config, st: State, st': State, t: Tid, c: nat, chain: seq<Obj>)
    requires Inv(cfg, st) && CallInsert(st, st', t, c, chain)
    ensures Inv(cfg, st')
  {
    var th' := Wait(InsertStart(c, chain));
    LockStep(st.locks, st'.locks, st.threads, t, th');
    HandsSame(st.threads, t, th');
    CreditStep(st.threads, t, th');
    assert OfClass(st.spans, chain, c) by {
      forall o | o in chain ensures OwnedIn(st.spans, o, c) {
        var s :| s in st.spans && st.spans[s].cls == c && o in st.spans[s].objs;
        assert Owns(st.spans, s, o);
      }
    }
    MoveKeeps(st, st', WithClient, InFlight(t));
  }

  /** Objects a call has gathered go to the client. */
  lemma Delivered(cfg: Config, st: State, st': State, t: Tid, l: LockId, got: seq<Obj>)
    requires Inv(cfg, st) && t in st.threads && st.threads[t].Run? && LockOf(st.threads[t].work) == l < |st.locks|
    requires Carried(st.threads[t]) == got && InHand(st.threads[t]) == None
    requires st' == Return(st.(client := st.client + Elements(got)), t, l)
    ensures Inv(cfg, st')
  {
    LockStep(st.locks, st'.locks, st.threads, t, Idle);
    HandsSame(st.threads, t, Idle);
    CreditStep(st.threads, t, Idle);
    MoveKeeps(st, st', InFlight(t), WithClient);
  }

  // ------------------------------------------------------------------ slots

  /** Only the slots and the cache size of class `c` and the state of thread `t` change. */
  ghost predicate SlotStep(st: State, st': State, t: Tid, c: nat) {
    && t in st.threads && t in st'.threads && st'.threads == st.threads[t := st'.threads[t]]
    && c < |st.data| == |st'.data| && |st'.locks| == |st.locks| && st'.spans == st.spans
    && st'.data == st.data[c := st.data[c].(slots := st'.data[c].slots, cacheSize := st'.data[c].cacheSize)]
    && InHand(st'.threads[t]) == InHand(st.threads[t])
  }

  lemma SlotStepLists(st: State, st': State, t: Tid, c: nat)
    requires ListsOk(st) && SlotStep(st, st', t, c)
    ensures ListsOk(st')
  {
    HandsSame(st.threads, t, st'.threads[t]);
    forall k | 0 <= k < |st'.data| ensures ClassOk(st'.data[k], st'.spans, k, Hands(st'.threads)) {
      assert ClassOk(st.data[k], st.spans, k, Hands(st.threads));
    }
  }

  lemma SlotStepCaches(cfg: Config, st: State, st': State, t: Tid, c: nat)
    requires Shaped(cfg, st) && Shaped(cfg, st') && CachesOk(cfg, st) && SlotStep(st, st', t, c)
    requires SlotsOk(st'.data[c], cfg.move[c])
    requires forall i :: 0 <= i < |st'.data[c].slots| ==> OfClass(st.spans, st'.data[c].slots[i], c)
    ensures CachesOk(cfg, st')
  {
    forall k | 0 <= k < |st'.data|
      ensures SlotsOk(st'.data[k], cfg.move[k]) && forall i :: 0 <= i < |st'.data[k].slots| ==> OfClass(st'.spans, st'.data[k].slots[i], k)
    {
      if k != c { assert SlotsOk(st.data[k], cfg.move[k]); }
    }
  }

  lemma SlotStepKeepsInv(cfg: Config, st: State, st': State, t: Tid, c: nat)
    requires Inv(cfg, st) && SlotStep(st, st', t, c) && OnePlace(st') && LocksOk(st'.locks, st'.threads)
    requires ThreadOk(cfg, st.spans, |st.locks|, st'.threads[t])
    requires SlotsOk(st'.data[c], cfg.move[c])
    requires forall i :: 0 <= i < |st'.data[c].slots| ==> OfClass(st.spans, st'.data[c].slots[i], c)
    requires st'.data[c].cacheSize + (if Credit(st'.threads[t]) then 1 else 0)
             <= st.data[c].cacheSize + (if Credit(st.threads[t]) then 1 else 0)
    ensures Inv(cfg, st')
  {
    assert ListsOk(st') by { SlotStepLists(st, st', t, c); }
    assert CachesOk(cfg, st') by { SlotStepCaches(cfg, st, st', t, c); }
    CreditStep(st.threads, t, st'.threads[t]);
    CacheSumUpdate(st.data, c, st'.data[c]);
  }

  lemma PushedPlaces(st: State, st': State, t: Tid, c: nat, chain: seq<Obj>)
    requires OnePlace(st) && SlotStep(st, st', t, c) && st'.client == st.client
    requires st'.data[c].slots == st.data[c].slots + [chain]
    requires Carried(st.threads[t]) == chain && Carried(st'.threads[t]) == []
    ensures OnePlace(st')
  {
    var a, b := InFlight(t), InSlot(c, |st.data[c].slots|);
    forall p | p != a && p != b ensures At(st', p) == At(st, p) {}
    MoveKeeps(st, st', a, b);
  }

  lemma SlotPushed(cfg: Config, st: State, st': State, t: Tid, c: nat, chain: seq<Obj>, grow: nat)
    requires Inv(cfg, st) && t in st.threads && st.threads[t].Run? && c < |st.data| && LockOf(st.threads[t].work) == c + 1
    requires Carried(st.threads[t]) == chain && InHand(st.threads[t]) == None
    requires |chain| == cfg.move[c] && OfClass(st.spans, chain, c)
    requires |st.data[c].slots| < st.data[c].cacheSize + grow <= st.data[c].maxCacheSize
    requires grow <= if Credit(st.threads[t]) then 1 else 0
    requires st' == Return(PushSlot(st, c, chain, grow), t, c + 1)
    ensures Inv(cfg, st')
  {
    assert LocksOk(st'.locks, st'.threads) by { LockStep(st.locks, st'.locks, st.threads, t, Idle); }
    assert OnePlace(st') by { PushedPlaces(st, st', t, c, chain); }
    assert SlotsOk(st.data[c], cfg.move[c]);
    assert Distinct(chain) by { assert ThreadOk(cfg, st.spans, |st.locks|, st.threads[t]); }
    SlotStepKeepsInv(cfg, st, st', t, c);
  }

  lemma PoppedPlaces(st: State, st': State, t: Tid, c: nat, to: Place)
    requires OnePlace(st) && SlotStep(st, st', t, c) && st.data[c].slots != []
    requires st'.data[c].slots == st.data[c].slots[..|st.data[c].slots| - 1]
    requires to == WithClient || to == InFlight(t)
    requires to == WithClient ==> Carried(st'.threads[t]) == Carried(st.threads[t])
    requires to == InFlight(t) ==> st'.client == st.client
    requires At(st', to) == At(st, to) + Elements(st.data[c].slots[|st.data[c].slots| - 1])
    ensures OnePlace(st')
  {
    var a := InSlot(c, |st.data[c].slots| - 1);
    forall p | p != a && p != to ensures At(st', p) == At(st, p) {}
    MoveKeeps(st, st', a, to);
  }

  lemma SlotDelivered(cfg: Config, st: State, st': State, t: Tid, c: nat)
    requires Inv(cfg, st) && t in st.threads && st.threads[t].Run? && c < |st.data| && LockOf(st.threads[t].work) == c + 1
    requires Carried(st.threads[t]) == [] && InHand(st.threads[t]) == None && st.data[c].slots != []
    requires st' == Return(PopSlot(st, c, 0).(client := st.client + Elements(st.data[c].slots[|st.data[c].slots| - 1])), t, c + 1)
    ensures Inv(cfg, st')
  {
    assert LocksOk(st'.locks, st'.threads) by { LockStep(st.locks, st'.locks, st.threads, t, Idle); }
    assert OnePlace(st') by { PoppedPlaces(st, st', t, c, WithClient); }
    assert SlotsOk(st.data[c], cfg.move[c]);
    SlotStepKeepsInv(cfg, st, st', t, c);
  }

  /** A full victim gives up a slot and its chain; the thread now owes the slot to its own class. */
  lemma SlotStolen(cfg: Config, st: State, st': State, t: Tid, w: Work)
    requires Inv(cfg, st) && t in st.threads && st.threads[t] == Run(w) && w.Shrink? && w.victim < |st.data|
    requires st.data[w.victim].slots != [] && |st.data[w.victim].slots| == st.data[w.victim].cacheSize
    requires st' == Goto(PopSlot(st, w.victim, 1), t,
                         Release(w.victim, st.data[w.victim].slots[|st.data[w.victim].slots| - 1], DoneShrink(w.c, w.chain, w.force)))
    ensures Inv(cfg, st')
  {
    var v := w.victim;
    var d := st.data[v];
    var top := d.slots[|d.slots| - 1];
    assert ThreadOk(cfg, st.spans, |st.locks|, st.threads[t]);
    assert SlotsOk(d, cfg.move[v]);
    assert LocksOk(st'.locks, st'.threads) by { LockStep(st.locks, st'.locks, st.threads, t, st'.threads[t]); }
    assert Distinct(top + w.chain) && Elements(top + w.chain) == Elements(top) + Elements(w.chain) by {
      Separate(st, InSlot(v, |d.slots| - 1), InFlight(t));
      DistinctJoin(top, w.chain);
    }
    assert OnePlace(st') by { PoppedPlaces(st, st', t, v, InFlight(t)); }
    SlotStepKeepsInv(cfg, st, st', t, v);
  }

  /** A victim with room gives up a slot. */
  lemma RoomStolen(cfg: Config, st: State, st': State, t: Tid, w: Work)
    requires Inv(cfg, st) && t in st.threads && st.threads[t] == Run(w) && w.Shrink? && w.victim < |st.data|
    requires |st.data[w.victim].slots| < st.data[w.victim].cacheSize
    requires st' == Switch(st.(data := st.data[w.victim := st.data[w.victim].(cacheSize := st.data[w.victim].cacheSize - 1)]), t,
                           w.victim + 1, EvictResult(w.c, w.chain, w.force, true))
    ensures Inv(cfg, st')
  {
    assert ThreadOk(cfg, st.spans, |st.locks|, st.threads[t]);
    assert SlotsOk(st.data[w.victim], cfg.move[w.victim]);
    assert LocksOk(st'.locks, st'.threads) by { LockStep(st.locks, st'.locks, st.threads, t, st'.threads[t]); }
    assert OnePlace(st') by { SamePlaces(st, st', t, w.victim); }
    SlotStepKeepsInv(cfg, st, st', t, w.victim);
  }

  lemma SamePlaces(st: State, st': State, t: Tid, c: nat)
    requires OnePlace(st) && SlotStep(st, st', t, c) && st'.client == st.client
    requires st'.data[c].slots == st.data[c].slots && Carried(st'.threads[t]) == Carried(st.threads[t])
    ensures OnePlace(st')
  {
    forall p ensures At(st', p) == At(st, p) {}
    MoveKeeps(st, st', InFlight(t), WithClient);
  }

  lemma Separate(st: State, a: Place, b: Place)
    requires OnePlace(st) && a != b
    ensures At(st, a) !! At(st, b)
  {
  }

  // ------------------------------------------------------------------ one span gives or takes back objects

  /** Span `s` of class `c` changes its free list, class `c` its lists and counter, thread `t` its state. */
  ghost predicate SpanStep(st: State, st': State, t: Tid, c: nat, s: SpanId) {
    && t in st.threads && t in st'.threads && st'.threads == st.threads[t := st'.threads[t]]
    && c < |st.data| == |st'.data| && |st'.locks| == |st.locks| && st'.client == st.client
    && s in st.spans && s in st'.spans && st.spans[s].cls == c && s !in Hands(st.threads)
    && st'.spans == st.spans[s := st.spans[s].(free := st'.spans[s].free, refcount := st'.spans[s].refcount)]
    && st'.data == st.data[c := st'.data[c]]
    && st'.data[c] == st.data[c].(nonempty := st'.data[c].nonempty, empty := st'.data[c].empty, counter := st'.data[c].counter)
    && InHand(st'.threads[t]) == InHand(st.threads[t]) && Credit(st'.threads[t]) == Credit(st.threads[t])
  }

  lemma SpanStepLists(st: State, st': State, t: Tid, c: nat, s: SpanId)
    requires ListsOk(st) && SpanStep(st, st', t, c, s)
    requires ClassOk(st'.data[c], st'.spans, c, Hands(st.threads))
    ensures ListsOk(st')
  {
    HandsSame(st.threads, t, st'.threads[t]);
    forall k | 0 <= k < |st'.data| ensures ClassOk(st'.data[k], st'.spans, k, Hands(st'.threads)) {
      if k != c { OtherClassOk(st.data[k], st.spans, st'.spans, k, Hands(st.threads)); }
    }
  }

  lemma SpanStepCaches(cfg: Config, st: State, st': State, t: Tid, c: nat, s: SpanId)
    requires Shaped(cfg, st) && Shaped(cfg, st') && CachesOk(cfg, st) && SpanStep(st, st', t, c, s)
    ensures CachesOk(cfg, st')
  {
    forall k | 0 <= k < |st'.data|
      ensures SlotsOk(st'.data[k], cfg.move[k]) && forall i :: 0 <= i < |st'.data[k].slots| ==> OfClass(st'.spans, st'.data[k].slots[i], k)
    {
      assert SlotsOk(st.data[k], cfg.move[k]);
      forall i | 0 <= i < |st'.data[k].slots| ensures OfClass(st'.spans, st'.data[k].slots[i], k) {
        OfClassSame(st.spans, st'.spans, st.data[k].slots[i], k);
      }
    }
  }

  lemma ThreadSame(cfg: Config, t: SpanTable, t': SpanTable, locks: nat, th: Thread)
    requires ThreadOk(cfg, t, locks, th) && SameObjs(t, t')
    requires InHand(th).Some? && InHand(th).value in t ==> t'[InHand(th).value] == t[InHand(th).value]
    ensures ThreadOk(cfg, t', locks, th)
  {
    forall c, q | OfClass(t, q, c) ensures OfClass(t', q, c) { OfClassSame(t, t', q, c); }
    match th
    case Wait(w) => WorkKept(cfg, t, t', w);
    case Run(w) => WorkKept(cfg, t, t', w);
    case _ =>
  }

  lemma SpanStepThreads(cfg: Config, st: State, st': State, t: Tid, c: nat, s: SpanId)
    requires ThreadsOk(cfg, st) && SpanStep(st, st', t, c, s)
    requires ThreadOk(cfg, st'.spans, |st'.locks|, st'.threads[t])
    ensures ThreadsOk(cfg, st')
  {
    forall u | u in st'.threads ensures ThreadOk(cfg, st'.spans, |st'.locks|, st'.threads[u]) {
      if u != t {
        assert ThreadOk(cfg, st.spans, |st.locks|, st.threads[u]);
        assert InHand(st.threads[u]).Some? ==> InHand(st.threads[u]).value in Hands(st.threads);
        ThreadSame(cfg, st.spans, st'.spans, |st.locks|, st.threads[u]);
      }
    }
  }

  lemma SpanStepSpans(st: State, st': State, t: Tid, c: nat, s: SpanId)
    requires SpansOk(st.spans) && SpanStep(st, st', t, c, s) && SpanOk(st'.spans[s])
    ensures SpansOk(st'.spans)
    ensures forall x, o :: Owns(st'.spans, x, o) <==> Owns(st.spans, x, o)
  {
    forall x, y, o | Owns(st'.spans, x, o) && Owns(st'.spans, y, o) ensures x == y {
      assert Owns(st.spans, x, o) && Owns(st.spans, y, o);
    }
  }

  lemma SpanStepCuts(cfg: Config, st: State, st': State, t: Tid, c: nat, s: SpanId)
    requires CutsOk(cfg, st.spans) && SpanStep(st, st', t, c, s)
    ensures CutsOk(cfg, st'.spans)
  {
    forall x | x in st'.spans ensures Cut(cfg, st'.spans[x]) { assert Cut(cfg, st.spans[x]); }
    forall x, y | x in st'.spans && y in st'.spans && x != y ensures Apart(st'.spans[x], st'.spans[y]) {
      assert Apart(st.spans[x], st.spans[y]);
    }
  }

  lemma SpanStepKeepsInv(cfg: Config, st: State, st': State, t: Tid, c: nat, s: SpanId)
    requires Inv(cfg, st) && SpanStep(st, st', t, c, s) && SpanOk(st'.spans[s])
    requires ClassOk(st'.data[c], st'.spans, c, Hands(st.threads))
    requires ThreadOk(cfg, st'.spans, |st'.locks|, st'.threads[t]) && LocksOk(st'.locks, st'.threads)
    requires At(st', InSpan(s)) + At(st', InFlight(t)) == At(st, InSpan(s)) + At(st, InFlight(t))
    requires At(st', InSpan(s)) !! At(st', InFlight(t))
    ensures Inv(cfg, st')
  {
    assert SpansOk(st'.spans) && (forall x, o :: Owns(st'.spans, x, o) <==> Owns(st.spans, x, o)) by {
      SpanStepSpans(st, st', t, c, s);
    }
    assert OnePlace(st') by {
      forall p | p != InSpan(s) && p != InFlight(t) ensures At(st', p) == At(st, p) {}
      MoveKeeps(st, st', InSpan(s), InFlight(t));
    }
    assert CutsOk(cfg, st'.spans) by { SpanStepCuts(cfg, st, st', t, c, s); }
    assert ThreadsOk(cfg, st') by { SpanStepThreads(cfg, st, st', t, c, s); }
    assert ListsOk(st') by { SpanStepLists(st, st', t, c, s); }
    assert CachesOk(cfg, st') by { SpanStepCaches(cfg, st, st', t, c, s); }
    CreditStep(st.threads, t, st'.threads[t]);
    CacheSumUpdate(st.data, c, st'.data[c]);
  }
}
