/** What InsertRange does with the objects handed in: they become a transfer slot, or each goes back to its span. */
module CentralInsert {
  import opened Collections
  import opened Wrappers
  import opened CentralData
  import opened CentralProtocol
  import opened CentralInv
  import opened CentralSpans
  import opened CentralTheorems
  import opened CentralRemove

  /** A thread inside InsertRange, ShrinkCache of another class included. */
  predicate InInsert(th: Thread) {
    match th
    case Wait(w) => InsertWork(w)
    case Run(w) => InsertWork(w)
    case _ => false
  }

  predicate InsertWork(w: Work) {
    w.InsertStart? || w.Evict? || w.Shrink? || w.EvictResult? || w.Release? || w.DeletePages?
  }

  /** The objects of the call that are still to be placed. */
  function Left(th: Thread): seq<Obj> {
    match th
    case Wait(w) => LeftOf(w)
    case Run(w) => LeftOf(w)
    case _ => []
  }

  function LeftOf(w: Work): seq<Obj> {
    match w
    case InsertStart(_, chain) => chain
    case Evict(_, chain, _) => chain
    case Shrink(_, _, chain, _) => chain
    case EvictResult(_, chain, _, _) => chain
    case Release(_, rest, after) => if after.DoneInsert? then rest else after.chain
    case DeletePages(_, rest, after) => if after.DoneInsert? then rest else after.chain
    case _ => []
  }

  /** ReleaseListToSpans on the objects of the call. */
  predicate Releasing(th: Thread) {
    match th
    case Wait(w) => (w.Release? || w.DeletePages?) && w.after.DoneInsert?
    case Run(w) => (w.Release? || w.DeletePages?) && w.after.DoneInsert?
    case _ => false
  }

  // ------------------------------------------------------------------ one step

  /** The object goes to the front of its span's free list, or was the last one out and the span is given up. */
  ghost predicate PutBack(st: State, st': State, o: Obj) {
    exists s :: PutBackIn(st, st', o, s)
  }

  ghost predicate PutBackIn(st: State, st': State, o: Obj, s: SpanId) {
    && Owns(st.spans, s, o) && o !in st.spans[s].free
    && if s in st'.spans then st'.spans[s].free == [o] + st.spans[s].free && st'.spans[s].objs == st.spans[s].objs
       else Elements(st.spans[s].objs) == Elements(st.spans[s].free) + {o}
  }

  /** The chain is the newest transfer slot of a class that all its objects belong to. */
  ghost predicate Stored(cfg: Config, st: State, st': State, chain: seq<Obj>) {
    exists c :: StoredIn(cfg, st, st', chain, c)
  }

  ghost predicate StoredIn(cfg: Config, st: State, st': State, chain: seq<Obj>, c: nat) {
    && c < |st.data| && c < |st'.data| && c < |cfg.move| && |chain| == cfg.move[c] && OfClass(st.spans, chain, c)
    && st'.data[c].slots == st.data[c].slots + [chain]
  }

  /** A step inside InsertRange gives the client nothing. It leaves what is to be placed alone, places one object,
      or returns: with everything placed, or with the whole chain stored. */
  ghost predicate Moved(cfg: Config, st: State, st': State, t: Tid)
    requires t in st.threads && t in st'.threads
  {
    var left, left' := Left(st.threads[t]), Left(st'.threads[t]);
    && st'.client == st.client
    && if InInsert(st'.threads[t])
       then && (left' == left || (left != [] && left' == left[1..] && PutBack(st, st', left[0]) && Releasing(st'.threads[t])))
            && (Releasing(st.threads[t]) ==> Releasing(st'.threads[t]))
       else st'.threads[t] == Idle && (if Releasing(st.threads[t]) then left == [] else Stored(cfg, st, st', left))
  }

  lemma InsertMoves(cfg: Config, st: State, st': State, t: Tid)
    requires Inv(cfg, st) && Next(cfg, st, st', t) && t in st.threads && InInsert(st.threads[t])
    ensures t in st'.threads && Moved(cfg, st, st', t)
  {
    if WorkStep(cfg, st, st', t) {
      var w := st.threads[t].work;
      RunOwns(cfg, st, t, w);
      if w.Release? {
        var s :| ReleaseStep(cfg, st, st', t, w, s);
        ReleaseMoves(cfg, st, st', t, w, s);
      } else if w.InsertStart? || w.EvictResult? {
        StoreMoves(cfg, st, st', t, w);
      }
    }
  }

  lemma StoreMoves(cfg: Config, st: State, st': State, t: Tid, w: Work)
    requires Inv(cfg, st) && WorkStep(cfg, st, st', t) && st.threads[t] == Run(w) && (w.InsertStart? || w.EvictResult?)
    requires WorkOk(cfg, st.spans, w)
    ensures t in st'.threads && Moved(cfg, st, st', t)
  {
    if st'.threads[t] == Idle { assert StoredIn(cfg, st, st', w.chain, w.c); }
  }

  lemma ReleaseMoves(cfg: Config, st: State, st': State, t: Tid, w: Work, s: SpanId)
    requires Inv(cfg, st) && t in st.threads && st.threads[t] == Run(w) && w.Release? && w.c < |st.data|
    requires ReleaseStep(cfg, st, st', t, w, s)
    ensures t in st'.threads && Moved(cfg, st, st', t)
  {
    if w.rest != [] {
      ReleasedObject(cfg, st, t, w, s);
      LastOutstanding(st.spans[s], w.rest[0]);
      assert PutBackIn(st, st', w.rest[0], s);
    }
  }

  // ------------------------------------------------------------------ runs

  /** Thread `t` is inside InsertRange in the states from `j` to `i`. */
  ghost predicate Inserting(states: seq<State>, t: Tid, j: nat, i: nat) {
    j <= i < |states| && forall k :: j <= k <= i ==> t in states[k].threads && InInsert(states[k].threads[t])
  }

  /** Between `j` and `i` the object went back. */
  ghost predicate WentBack(states: seq<State>, who: seq<Tid>, t: Tid, o: Obj, j: nat, i: nat) {
    exists k :: j <= k < i && WentBackAt(states, who, t, o, k)
  }

  ghost predicate WentBackAt(states: seq<State>, who: seq<Tid>, t: Tid, o: Obj, k: nat) {
    k < |who| && k + 1 < |states| && who[k] == t && PutBack(states[k], states[k + 1], o)
  }

  /** After `d` objects of the chain went back, the others are still to be placed. */
  ghost predicate Placed(states: seq<State>, who: seq<Tid>, t: Tid, chain: seq<Obj>, d: nat, j: nat, i: nat)
    requires i < |states| && t in states[i].threads
  {
    && d <= |chain| && Left(states[i].threads[t]) == chain[d..] && (d > 0 ==> Releasing(states[i].threads[t]))
    && forall m :: 0 <= m < d ==> WentBack(states, who, t, chain[m], j, i)
  }

  lemma InsertStep(cfg: Config, states: seq<State>, who: seq<Tid>, t: Tid, i: nat)
    requires Execution(cfg, states, who) && i < |who| && t in states[i].threads && InInsert(states[i].threads[t])
    ensures t in states[i + 1].threads
    ensures who[i] == t ==> Moved(cfg, states[i], states[i + 1], t)
    ensures who[i] != t ==> states[i + 1].threads[t] == states[i].threads[t]
  {
    ExecutionInv(cfg, states, who, i);
    assert StepAt(cfg, states, who, i);
    if who[i] == t { InsertMoves(cfg, states[i], states[i + 1], t); } else { OthersStay(cfg, states[i], states[i + 1], who[i], t); }
  }

  lemma Longer(states: seq<State>, who: seq<Tid>, t: Tid, chain: seq<Obj>, d: nat, j: nat, i: nat)
    requires forall m :: 0 <= m < d <= |chain| ==> WentBack(states, who, t, chain[m], j, i)
    ensures forall m :: 0 <= m < d <= |chain| ==> WentBack(states, who, t, chain[m], j, i + 1)
  {
    forall m | 0 <= m < d <= |chain| ensures WentBack(states, who, t, chain[m], j, i + 1) {
      var k :| j <= k < i && WentBackAt(states, who, t, chain[m], k);
    }
  }

  lemma {:induction false} PlacedSoFar(cfg: Config, states: seq<State>, who: seq<Tid>, t: Tid, c: nat, chain: seq<Obj>, j: nat, i: nat)
      returns (d: nat)
    requires Execution(cfg, states, who) && j < |who| && who[j] == t && CallInsert(states[j], states[j + 1], t, c, chain)
    requires Inserting(states, t, j + 1, i)
    ensures Placed(states, who, t, chain, d, j + 1, i)
    decreases i
  {
    if i == j + 1 {
      d := 0;
    } else {
      d := PlacedSoFar(cfg, states, who, t, c, chain, j, i - 1);
      InsertStep(cfg, states, who, t, i - 1);
      Longer(states, who, t, chain, d, j + 1, i - 1);
      if Left(states[i].threads[t]) != chain[d..] {
        assert WentBackAt(states, who, t, chain[d], i - 1);
        d := d + 1;
      }
    }
  }

  /** In every run: a call of InsertRange(c, chain) takes exactly the chain from the client, gives the client
      nothing while it runs, and when it returns, at step `i`, either the whole chain is a transfer slot or every
      object of it went back to its span during the call. */
  lemma InsertRangeTakes(cfg: Config, states: seq<State>, who: seq<Tid>, t: Tid, c: nat, chain: seq<Obj>, j: nat, i: nat)
    requires Execution(cfg, states, who) && j < |who| && who[j] == t && CallInsert(states[j], states[j + 1], t, c, chain)
    requires j < i < |who| && who[i] == t && Inserting(states, t, j + 1, i)
    requires t in states[i + 1].threads && states[i + 1].threads[t] == Idle
    ensures states[j + 1].client == states[j].client - Elements(chain)
    ensures forall k :: j < k <= i && who[k] == t ==> states[k + 1].client == states[k].client
    ensures Stored(cfg, states[i], states[i + 1], chain) || forall m :: 0 <= m < |chain| ==> WentBack(states, who, t, chain[m], j + 1, i)
  {
    var d := PlacedSoFar(cfg, states, who, t, c, chain, j, i);
    InsertStep(cfg, states, who, t, i);
    forall k | j < k <= i && who[k] == t ensures states[k + 1].client == states[k].client { InsertStep(cfg, states, who, t, k); }
  }

  // ------------------------------------------------------------------ taking a slot from another class

  /** With nobody in the way, an insert into a full class takes an unused slot from class `v` and uses it: one
      class has a slot less, the other one more, and the chain is in it. */
  lemma SlotMoves(cfg: Config, st: State, t: Tid, v: nat) returns (path: seq<State>)
    requires Shaped(cfg, st) && t in st.threads && st.threads[t].Run? && st.threads[t].work.Evict?
    requires var w := st.threads[t].work;
             && v < |st.data| && v != w.c && w.c < |st.data| && st.locks[v + 1] == None
             && |st.data[v].slots| < st.data[v].cacheSize && st.data[w.c].cacheSize < st.data[w.c].maxCacheSize
    ensures Path(cfg, t, path) && path[0] == st
    ensures var w, last := st.threads[t].work, path[|path| - 1];
            && t in last.threads && last.threads[t] == Idle && |last.data| == |st.data|
            && last.data[v].cacheSize == st.data[v].cacheSize - 1 && last.data[v].slots == st.data[v].slots
            && last.data[w.c].cacheSize == st.data[w.c].cacheSize + 1
            && last.data[w.c].slots == st.data[w.c].slots + [w.chain]
  {
    var w := st.threads[t].work;
    var s1 := LeavesFor(cfg, st, t, w, v);
    var s2 := TakesLock(cfg, s1, t, Shrink(v, w.c, w.chain, w.force));
    var s3 := GivesUpSlot(cfg, s2, t, s2.threads[t].work);
    var s4 := TakesLock(cfg, s3, t, EvictResult(w.c, w.chain, w.force, true));
    var s5 := UsesSlot(cfg, s4, t, s4.threads[t].work);
    path := [st, s1, s2, s3, s4, s5];
  }

  /** When the other class is full, a first try leaves it alone and a second, by force, takes its newest slot: its
      chain is on the way back to the spans, and the slot is owed to the inserting class. */
  lemma ForceTakesSlot(cfg: Config, st: State, t: Tid, v: nat) returns (path: seq<State>)
    requires Shaped(cfg, st) && t in st.threads && st.threads[t].Run? && st.threads[t].work.Evict? && !st.threads[t].work.force
    requires var w := st.threads[t].work;
             && v < |st.data| && v != w.c && w.c < |st.data| && st.locks[v + 1] == None
             && 0 < |st.data[v].slots| == st.data[v].cacheSize
    ensures Path(cfg, t, path) && path[0] == st
    ensures var w, last, d := st.threads[t].work, path[|path| - 1], st.data[v];
            && t in last.threads && |last.data| == |st.data| && Credit(last.threads[t])
            && last.threads[t] == Run(Release(v, d.slots[|d.slots| - 1], DoneShrink(w.c, w.chain, true)))
            && last.data[v] == d.(slots := d.slots[..|d.slots| - 1], cacheSize := d.cacheSize - 1)
  {
    var w := st.threads[t].work;
    var s1 := Declines(cfg, st, t, w, v);
    var s2 := TriesByForce(cfg, s1, t, s1.threads[t].work);
    var s3 := LeavesFor(cfg, s2, t, s2.threads[t].work, v);
    var s4 := TakesLock(cfg, s3, t, Shrink(v, w.c, w.chain, true));
    var s5 := PopsSlot(cfg, s4, t, s4.threads[t].work);
    path := [st, s1, s2, s3, s4, s5];
  }

  lemma Declines(cfg: Config, st: State, t: Tid, w: Work, v: nat) returns (st': State)
    requires Shaped(cfg, st) && t in st.threads && st.threads[t] == Run(w) && w.Evict? && w.c < |st.data| && v < |st.data|
    ensures Leads(cfg, st, st', t) && st' == Goto(st, t, EvictResult(w.c, w.chain, w.force, false))
  {
    st' := Goto(st, t, EvictResult(w.c, w.chain, w.force, false));
    assert EvictStep(st, st', t, w, v, false);
    assert WorkStep(cfg, st, st', t);
  }

  lemma TriesByForce(cfg: Config, st: State, t: Tid, w: Work) returns (st': State)
    requires Shaped(cfg, st) && t in st.threads && st.threads[t] == Run(w) && w.EvictResult? && !w.ok && !w.force && w.c < |st.data|
    ensures Leads(cfg, st, st', t) && st' == Goto(st, t, Evict(w.c, w.chain, true))
  {
    st' := Goto(st, t, Evict(w.c, w.chain, true));
    assert EvictResultStep(st, st', t, w);
    assert WorkStep(cfg, st, st', t);
  }

  lemma PopsSlot(cfg: Config, st: State, t: Tid, w: Work) returns (st': State)
    requires Shaped(cfg, st) && t in st.threads && st.threads[t] == Run(w) && w.Shrink? && w.force && InRange(w, |st.data|)
    requires 0 < |st.data[w.victim].slots| == st.data[w.victim].cacheSize
    ensures Leads(cfg, st, st', t)
    ensures var q := st.data[w.victim].slots;
            st' == Goto(PopSlot(st, w.victim, 1), t, Release(w.victim, q[|q| - 1], DoneShrink(w.c, w.chain, true)))
  {
    var q := st.data[w.victim].slots;
    st' := Goto(PopSlot(st, w.victim, 1), t, Release(w.victim, q[|q| - 1], DoneShrink(w.c, w.chain, true)));
    assert ShrinkStep(st, st', t, w);
    assert WorkStep(cfg, st, st', t);
  }

  lemma LeavesFor(cfg: Config, st: State, t: Tid, w: Work, v: nat) returns (st': State)
    requires Shaped(cfg, st) && t in st.threads && st.threads[t] == Run(w) && w.Evict? && w.c < |st.data| && v < |st.data| && v != w.c
    ensures Leads(cfg, st, st', t) && st' == Switch(st, t, w.c + 1, Shrink(v, w.c, w.chain, w.force))
  {
    st' := Switch(st, t, w.c + 1, Shrink(v, w.c, w.chain, w.force));
    assert EvictStep(st, st', t, w, v, true);
    assert WorkStep(cfg, st, st', t);
  }

  lemma GivesUpSlot(cfg: Config, st: State, t: Tid, w: Work) returns (st': State)
    requires Shaped(cfg, st) && t in st.threads && st.threads[t] == Run(w) && w.Shrink? && InRange(w, |st.data|)
    requires |st.data[w.victim].slots| < st.data[w.victim].cacheSize
    ensures Leads(cfg, st, st', t)
    ensures var d := st.data[w.victim];
            st' == Switch(st.(data := st.data[w.victim := d.(cacheSize := d.cacheSize - 1)]), t, w.victim + 1, EvictResult(w.c, w.chain, w.force, true))
  {
    var d := st.data[w.victim];
    st' := Switch(st.(data := st.data[w.victim := d.(cacheSize := d.cacheSize - 1)]), t, w.victim + 1, EvictResult(w.c, w.chain, w.force, true));
    assert ShrinkStep(st, st', t, w);
    assert WorkStep(cfg, st, st', t);
  }

  lemma UsesSlot(cfg: Config, st: State, t: Tid, w: Work) returns (st': State)
    requires Shaped(cfg, st) && t in st.threads && st.threads[t] == Run(w) && w.EvictResult? && w.ok && w.c < |st.data|
    requires st.data[w.c].cacheSize < st.data[w.c].maxCacheSize
    ensures Leads(cfg, st, st', t) && st' == Return(PushSlot(st, w.c, w.chain, 1), t, w.c + 1)
  {
    st' := Return(PushSlot(st, w.c, w.chain, 1), t, w.c + 1);
    assert EvictResultStep(st, st', t, w);
    assert WorkStep(cfg, st, st', t);
  }
}
