/** What RemoveRange gives: exactly as many objects as were asked for, or all there are. */
module CentralRemove {
  import opened Collections
  import opened Wrappers
  import opened CentralData
  import opened CentralProtocol
  import opened CentralInv
  import opened CentralTheorems

  /** A thread inside RemoveRange(c, n). */
  predicate InRemove(th: Thread, c: nat, n: nat) {
    match th
    case Wait(w) => RemoveWork(w, c, n)
    case Run(w) => RemoveWork(w, c, n)
    case _ => false
  }

  predicate RemoveWork(w: Work, c: nat, n: nat) {
    (w.RemoveStart? || w.Fetch? || w.NewPages? || w.Install?) && w.c == c && w.n == n
  }

  /** Populate has been called. */
  predicate AfterPopulate(th: Thread) {
    match th
    case Wait(w) => PopulatedWork(w)
    case Run(w) => PopulatedWork(w)
    case _ => false
  }

  predicate PopulatedWork(w: Work) { w.Install? || (w.Fetch? && w.populated) }

  // ------------------------------------------------------------------ one step

  /** Another thread's step leaves a thread where it is. */
  lemma OthersStay(cfg: Config, st: State, st': State, u: Tid, t: Tid)
    requires Shaped(cfg, st) && Next(cfg, st, st', u) && t in st.threads && t != u
    ensures t in st'.threads && st'.threads[t] == st.threads[t]
  {
    if WorkStep(cfg, st, st', u) { WorkStays(cfg, st, st', u, t); }
  }

  lemma WorkStays(cfg: Config, st: State, st': State, u: Tid, t: Tid)
    requires Shaped(cfg, st) && WorkStep(cfg, st, st', u) && t in st.threads && t != u
    ensures t in st'.threads && st'.threads[t] == st.threads[t]
  {
    var w := st.threads[u].work;
    match w
    case Evict(_, _, _) => var v, promising :| EvictStep(st, st', u, w, v, promising);
    case Release(_, _, _) => var s :| ReleaseStep(cfg, st, st', u, w, s);
    case NewPages(_, _) => var got :| NewPagesStep(cfg, st, st', u, w, got);
    case _ =>
  }

  /** The step of a thread inside RemoveRange: it goes on inside, or returns. */
  lemma RemoveGoesOn(cfg: Config, st: State, st': State, t: Tid, c: nat, n: nat)
    requires Shaped(cfg, st) && Next(cfg, st, st', t) && t in st.threads && InRemove(st.threads[t], c, n)
    ensures t in st'.threads && (InRemove(st'.threads[t], c, n) || st'.threads[t] == Idle)
    ensures AfterPopulate(st'.threads[t]) ==> AfterPopulate(st.threads[t]) || st.threads[t] == Run(NewPages(c, n))
  {
    if WorkStep(cfg, st, st', t) {
      var w := st.threads[t].work;
      if w.NewPages? { var got :| NewPagesStep(cfg, st, st', t, w, got); }
    }
  }

  /** A thread gets inside RemoveRange(c, n) by calling it. */
  lemma RemoveCalled(cfg: Config, st: State, st': State, t: Tid, c: nat, n: nat)
    requires Shaped(cfg, st) && Next(cfg, st, st', t) && t in st.threads && t in st'.threads
    requires InRemove(st'.threads[t], c, n) && !InRemove(st.threads[t], c, n)
    ensures CallRemove(st, st', t, c, n) && !AfterPopulate(st'.threads[t])
  {
    if WorkStep(cfg, st, st', t) { WorkNotInto(cfg, st, st', t, c, n); }
  }

  lemma WorkNotInto(cfg: Config, st: State, st': State, t: Tid, c: nat, n: nat)
    requires Shaped(cfg, st) && WorkStep(cfg, st, st', t) && !InRemove(st.threads[t], c, n)
    ensures t in st'.threads && !InRemove(st'.threads[t], c, n)
  {
  }

  /** Where a thread inside RemoveRange(c, n) was a step before. */
  lemma CameFrom(cfg: Config, states: seq<State>, who: seq<Tid>, i: nat, t: Tid, c: nat, n: nat)
    requires Execution(cfg, states, who) && i < |who| && t in states[i + 1].threads && InRemove(states[i + 1].threads[t], c, n)
    ensures t in states[i].threads
    ensures InRemove(states[i].threads[t], c, n) || (who[i] == t && CallRemove(states[i], states[i + 1], t, c, n))
    ensures AfterPopulate(states[i + 1].threads[t]) ==>
              && InRemove(states[i].threads[t], c, n)
              && (AfterPopulate(states[i].threads[t]) || (who[i] == t && states[i].threads[t] == Run(NewPages(c, n))))
  {
    assert StepAt(cfg, states, who, i);
    SameThreads(cfg, states[i], states[i + 1], who[i], t);
    if who[i] != t { OthersStay(cfg, states[i], states[i + 1], who[i], t); }
    else if InRemove(states[i].threads[t], c, n) { RemoveGoesOn(cfg, states[i], states[i + 1], t, c, n); }
    else { RemoveCalled(cfg, states[i], states[i + 1], t, c, n); }
  }

  lemma NotAtFirst(cfg: Config, states: seq<State>, who: seq<Tid>, t: Tid, c: nat, n: nat)
    requires Execution(cfg, states, who) && t in states[0].threads
    ensures !InRemove(states[0].threads[t], c, n)
  {
  }

  /** What the client has got when RemoveRange returns: `got`, new to it, all of class `c`; `n` of them unless no
      span of the class has a free object; and none at all only after Populate was called. */
  ghost predicate Received(cfg: Config, st: State, st': State, c: nat, n: nat, got: seq<Obj>) {
    && st'.client == st.client + Elements(got) && Elements(got) !! st.client && Distinct(got) && OfClass(st.spans, got, c)
    && c < |st'.data| && (|got| == n || (|got| < n && st'.data[c].nonempty == []))
  }

  lemma RemoveReturns(cfg: Config, st: State, st': State, t: Tid, c: nat, n: nat) returns (got: seq<Obj>)
    requires Inv(cfg, st) && Next(cfg, st, st', t) && t in st.threads && InRemove(st.threads[t], c, n)
    requires t in st'.threads && st'.threads[t] == Idle
    ensures Received(cfg, st, st', c, n, got) && (got == [] ==> AfterPopulate(st.threads[t]))
  {
    assert WorkStep(cfg, st, st', t);
    var w := st.threads[t].work;
    RunOwns(cfg, st, t, w);
    if w.NewPages? { var g :| NewPagesStep(cfg, st, st', t, w, g); }
    var d := st.data[c];
    assert SlotsOk(d, cfg.move[c]);
    if w.RemoveStart? {
      got := d.slots[|d.slots| - 1];
      SlotApart(st, c, |d.slots| - 1);
    } else {
      got := w.got;
      FlightApart(st, t);
    }
  }

  lemma SlotApart(st: State, c: nat, i: nat)
    requires OnePlace(st) && c < |st.data| && i < |st.data[c].slots|
    ensures Elements(st.data[c].slots[i]) !! st.client
  {
    assert At(st, InSlot(c, i)) == Elements(st.data[c].slots[i]) && At(st, WithClient) == st.client;
  }

  lemma FlightApart(st: State, t: Tid)
    requires OnePlace(st) && t in st.threads
    ensures Elements(Carried(st.threads[t])) !! st.client
  {
    assert At(st, InFlight(t)) == Elements(Carried(st.threads[t])) && At(st, WithClient) == st.client;
  }

  // ------------------------------------------------------------------ runs

  /** Thread `t` is inside RemoveRange(c, n) in the states from `j` to `i`. */
  ghost predicate Inside(states: seq<State>, t: Tid, c: nat, n: nat, j: nat, i: nat) {
    j <= i < |states| && forall k :: j <= k <= i ==> t in states[k].threads && InRemove(states[k].threads[t], c, n)
  }

  /** At step `j` the thread asks the page heap for a span, and it is inside the call from there to state `i`. */
  ghost predicate PopulateAt(states: seq<State>, who: seq<Tid>, t: Tid, c: nat, n: nat, j: nat, i: nat) {
    j < |who| && who[j] == t && Inside(states, t, c, n, j, i) && states[j].threads[t] == Run(NewPages(c, n))
  }

  /** The call that `t` is inside began at step `j`. */
  ghost predicate CalledAt(states: seq<State>, who: seq<Tid>, t: Tid, c: nat, n: nat, j: nat, i: nat) {
    j < |who| && who[j] == t && Inside(states, t, c, n, j + 1, i) && CallRemove(states[j], states[j + 1], t, c, n)
  }

  lemma {:induction false} WasCalled(cfg: Config, states: seq<State>, who: seq<Tid>, t: Tid, c: nat, n: nat, i: nat) returns (j: nat)
    requires Execution(cfg, states, who) && i < |states| && t in states[i].threads && InRemove(states[i].threads[t], c, n)
    ensures CalledAt(states, who, t, c, n, j, i)
  {
    if i == 0 {
      NotAtFirst(cfg, states, who, t, c, n);
    } else {
      CameFrom(cfg, states, who, i - 1, t, c, n);
      if InRemove(states[i - 1].threads[t], c, n) { j := WasCalled(cfg, states, who, t, c, n, i - 1); } else { j := i - 1; }
    }
  }

  /** No step makes a thread appear. */
  lemma SameThreads(cfg: Config, st: State, st': State, u: Tid, t: Tid)
    requires Shaped(cfg, st) && Next(cfg, st, st', u) && t in st'.threads
    ensures t in st.threads
  {
    if WorkStep(cfg, st, st', u) {
      var w := st.threads[u].work;
      match w
      case Evict(_, _, _) => var v, promising :| EvictStep(st, st', u, w, v, promising);
      case Release(_, _, _) => var s :| ReleaseStep(cfg, st, st', u, w, s);
      case NewPages(_, _) => var got :| NewPagesStep(cfg, st, st', u, w, got);
      case _ =>
    }
  }

  lemma {:induction false} WasPopulated(cfg: Config, states: seq<State>, who: seq<Tid>, t: Tid, c: nat, n: nat, i: nat) returns (j: nat)
    requires Execution(cfg, states, who) && i < |states| && t in states[i].threads
    requires InRemove(states[i].threads[t], c, n) && AfterPopulate(states[i].threads[t])
    ensures PopulateAt(states, who, t, c, n, j, i)
  {
    if i == 0 {
      NotAtFirst(cfg, states, who, t, c, n);
    } else {
      CameFrom(cfg, states, who, i - 1, t, c, n);
      if AfterPopulate(states[i - 1].threads[t]) { j := WasPopulated(cfg, states, who, t, c, n, i - 1); } else { j := i - 1; }
    }
  }

  /** In every run, whenever a call of RemoveRange(c, n) returns, at step `i`: it was called, the client has gained
      exactly `n` objects of class `c` or there is no free object left on any span of the class, and when it has
      gained none the page heap was asked for a span during the call. */
  lemma RemoveRangeGives(cfg: Config, states: seq<State>, who: seq<Tid>, i: nat, t: Tid, c: nat, n: nat)
      returns (call: nat, got: seq<Obj>, populate: nat)
    requires Execution(cfg, states, who) && i < |who| && who[i] == t
    requires t in states[i].threads && InRemove(states[i].threads[t], c, n)
    requires t in states[i + 1].threads && states[i + 1].threads[t] == Idle
    ensures CalledAt(states, who, t, c, n, call, i)
    ensures Received(cfg, states[i], states[i + 1], c, n, got)
    ensures |states[i + 1].client - states[i].client| == |got|
    ensures got == [] ==> PopulateAt(states, who, t, c, n, populate, i)
  {
    ExecutionInv(cfg, states, who, i);
    assert StepAt(cfg, states, who, i);
    call := WasCalled(cfg, states, who, t, c, n, i);
    got := RemoveReturns(cfg, states[i], states[i + 1], t, c, n);
    CardOfDistinct(got);
    assert states[i + 1].client - states[i].client == Elements(got);
    populate := 0;
    if got == [] { populate := WasPopulated(cfg, states, who, t, c, n, i); }
  }

  // ------------------------------------------------------------------ a class without free objects is populated

  /** A path of steps of thread `t`. */
  ghost predicate Path(cfg: Config, t: Tid, path: seq<State>) {
    path != [] && forall i {:trigger path[i]} :: 0 < i < |path| ==> Leads(cfg, path[i - 1], path[i], t)
  }

  ghost predicate Leads(cfg: Config, st: State, st': State, t: Tid) { Shaped(cfg, st) && Next(cfg, st, st', t) }

  lemma TakesLock(cfg: Config, st: State, t: Tid, w: Work) returns (st': State)
    requires Shaped(cfg, st) && t in st.threads && st.threads[t] == Wait(w) && LockOf(w) < |st.locks| && st.locks[LockOf(w)] == None
    ensures Leads(cfg, st, st', t) && st' == st.(locks := st.locks[LockOf(w) := Some(t)], threads := st.threads[t := Run(w)])
  {
    st' := st.(locks := st.locks[LockOf(w) := Some(t)], threads := st.threads[t := Run(w)]);
    assert Acquire(st, st', t);
  }

  /** The objects of a new span, as many as are wanted and there are. */
  function Wanted(cfg: Config, c: nat, n: nat, start: nat): seq<Obj>
    requires c < |cfg.size| && c < |cfg.room|
  {
    var objs := Populated(cfg, c, start).objs;
    objs[..if n < |objs| then n else |objs|]
  }

  /** With nobody in the way, a call that found nothing and gets a span from the page heap returns with objects of
      that span: `n` of them, or all it has. */
  lemma PopulateServes(cfg: Config, st: State, t: Tid, c: nat, n: nat, s: SpanId, start: nat) returns (path: seq<State>)
    requires Shaped(cfg, st) && t in st.threads && st.threads[t] == Run(NewPages(c, n)) && c < |st.data| && n > 0
    requires s !in st.spans && 0 < cfg.size[c] <= cfg.room[c] && forall x :: x in st.spans ==> Apart(Populated(cfg, c, start), st.spans[x])
    requires st.data[c].nonempty == [] && st.locks[c + 1] == None
    ensures Path(cfg, t, path) && path[0] == st
    ensures var last := path[|path| - 1];
            && t in last.threads && last.threads[t] == Idle
            && last.client == st.client + Elements(Wanted(cfg, c, n, start)) && Wanted(cfg, c, n, start) != []
  {
    var x := Populated(cfg, c, start);
    var s1 := GetsSpan(cfg, st, t, c, n, s, start);
    var s2 := TakesLock(cfg, s1, t, Install(c, n, Some(s)));
    var s3 := ListsSpan(cfg, s2, t, c, n, s);
    var s4 := FetchesFrom(cfg, s3, t, c, n, s, x);
    var s5 := Returns(cfg, s4, t, c, n, Wanted(cfg, c, n, start));
    path := [st, s1, s2, s3, s4, s5];
  }

  lemma GetsSpan(cfg: Config, st: State, t: Tid, c: nat, n: nat, s: SpanId, start: nat) returns (st': State)
    requires Shaped(cfg, st) && t in st.threads && st.threads[t] == Run(NewPages(c, n)) && c < |st.data|
    requires s !in st.spans && 0 < cfg.size[c] <= cfg.room[c] && forall x :: x in st.spans ==> Apart(Populated(cfg, c, start), st.spans[x])
    ensures Leads(cfg, st, st', t)
    ensures st' == Switch(st.(spans := st.spans[s := Populated(cfg, c, start)]), t, 0, Install(c, n, Some(s)))
  {
    st' := Switch(st.(spans := st.spans[s := Populated(cfg, c, start)]), t, 0, Install(c, n, Some(s)));
    assert NewPagesStep(cfg, st, st', t, st.threads[t].work, Some((s, start)));
    assert WorkStep(cfg, st, st', t);
  }

  lemma ListsSpan(cfg: Config, st: State, t: Tid, c: nat, n: nat, s: SpanId) returns (st': State)
    requires Shaped(cfg, st) && t in st.threads && st.threads[t] == Run(Install(c, n, Some(s))) && c < |st.data| && s in st.spans
    ensures Leads(cfg, st, st', t)
    ensures t in st'.threads && st'.threads[t] == Run(Fetch(c, n, [], true)) && c < |st'.data| && Shaped(cfg, st')
    ensures st'.data[c].nonempty == [s] + st.data[c].nonempty && st'.spans == st.spans && st'.client == st.client
  {
    st' := Goto(st.(data := st.data[c := InstalledClass(st.data[c], st.spans[s], s)]), t, Fetch(c, n, [], true));
    assert InstallStep(st, st', t, st.threads[t].work);
    assert WorkStep(cfg, st, st', t);
  }

  lemma FetchesFrom(cfg: Config, st: State, t: Tid, c: nat, n: nat, s: SpanId, x: ObjSpan) returns (st': State)
    requires Shaped(cfg, st) && t in st.threads && st.threads[t] == Run(Fetch(c, n, [], true)) && c < |st.data| && n > 0
    requires st.data[c].nonempty == [s] && s in st.spans && st.spans[s] == x && x.free == x.objs
    ensures Leads(cfg, st, st', t) && t in st'.threads && c < |st'.data| && Shaped(cfg, st') && st'.client == st.client
    ensures st'.threads[t] == Run(Fetch(c, n, x.objs[..if n < |x.objs| then n else |x.objs|], true))
    ensures |x.objs| <= n ==> st'.data[c].nonempty == []
  {
    var m := if n < |x.objs| then n else |x.objs|;
    st' := Goto(st.(data := st.data[c := FetchedClass(st.data[c], st.spans, m)], spans := st.spans[s := FetchedSpan(x, m)]),
                t, Fetch(c, n, x.free[..m] + [], true));
    assert x.free[..m] + [] == x.objs[..m];
    assert FetchStep(st, st', t, st.threads[t].work);
    assert WorkStep(cfg, st, st', t);
  }

  lemma Returns(cfg: Config, st: State, t: Tid, c: nat, n: nat, got: seq<Obj>) returns (st': State)
    requires Shaped(cfg, st) && t in st.threads && st.threads[t] == Run(Fetch(c, n, got, true)) && c < |st.data|
    requires |got| >= n || st.data[c].nonempty == []
    ensures Leads(cfg, st, st', t) && t in st'.threads && st'.threads[t] == Idle && st'.client == st.client + Elements(got)
  {
    st' := Return(st.(client := st.client + Elements(got)), t, c + 1);
    assert FetchStep(st, st', t, st.threads[t].work);
    assert WorkStep(cfg, st, st', t);
  }
}
