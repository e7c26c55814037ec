/** Safety of the central cache over all interleavings. */
module CentralTheorems {
  import opened Collections
  import opened Wrappers
  import opened CentralData
  import opened CentralProtocol
  import opened CentralInv
  import opened CentralMoves
  import opened CentralSpans
  import opened Carving
  import opened Arithmetic

  // ------------------------------------------------------------------ every step keeps the invariant

  /** Steps that only move control. */
  lemma ControlMoved(cfg: Config, st: State, st': State, t: Tid, th': Thread, locks': seq<Option<Tid>>)
    requires Inv(cfg, st) && t in st.threads && |locks'| == |st.locks|
    requires st' == st.(locks := locks', threads := st.threads[t := th'])
    requires Carried(th') == Carried(st.threads[t]) && InHand(th') == InHand(st.threads[t])
    requires Credit(th') ==> Credit(st.threads[t])
    requires ThreadOk(cfg, st.spans, |st.locks|, th')
    requires forall l :: 0 <= l < |st.locks| ==> (Holds(th', l) <==> locks'[l] == Some(t))
    requires forall l :: 0 <= l < |st.locks| && locks'[l] != st.locks[l] ==>
               (st.locks[l] == None || st.locks[l] == Some(t)) && (locks'[l] == None || locks'[l] == Some(t))
    ensures Inv(cfg, st')
  {
    LockStep(st.locks, locks', st.threads, t, th');
    ControlKeepsInv(cfg, st, st', t);
  }

  /** A running thread is the owner of exactly the lock of its work. */
  lemma RunOwns(cfg: Config, st: State, t: Tid, w: Work)
    requires Inv(cfg, st) && t in st.threads && st.threads[t] == Run(w)
    ensures WorkOk(cfg, st.spans, w) && Distinct(CarriedBy(w)) && LockOf(w) < |st.locks|
    ensures forall l :: 0 <= l < |st.locks| ==> (l == LockOf(w) <==> st.locks[l] == Some(t))
  {
    assert ThreadOk(cfg, st.spans, |st.locks|, st.threads[t]);
    forall l | 0 <= l < |st.locks| ensures l == LockOf(w) <==> st.locks[l] == Some(t) {
      assert Holds(st.threads[t], l) <==> st.locks[l] == Some(t);
    }
  }

  lemma WentOn(cfg: Config, st: State, st': State, t: Tid, w: Work, w': Work)
    requires Inv(cfg, st) && t in st.threads && st.threads[t] == Run(w) && st' == Goto(st, t, w')
    requires LockOf(w') == LockOf(w) && WorkOk(cfg, st.spans, w')
    requires CarriedBy(w') == CarriedBy(w) && InHand(Run(w')) == InHand(Run(w)) && (CreditWork(w') ==> CreditWork(w))
    ensures Inv(cfg, st')
  {
    RunOwns(cfg, st, t, w);
    ControlMoved(cfg, st, st', t, Run(w'), st.locks);
  }

  lemma Switched(cfg: Config, st: State, st': State, t: Tid, w: Work, w': Work)
    requires Inv(cfg, st) && t in st.threads && st.threads[t] == Run(w) && LockOf(w) < |st.locks|
    requires st' == Switch(st, t, LockOf(w), w') && WorkOk(cfg, st.spans, w')
    requires CarriedBy(w') == CarriedBy(w) && InHand(Run(w')) == InHand(Run(w)) && (CreditWork(w') ==> CreditWork(w))
    ensures Inv(cfg, st')
  {
    RunOwns(cfg, st, t, w);
    ControlMoved(cfg, st, st', t, Wait(w'), st.locks[LockOf(w) := None]);
  }

  lemma InsertKeepsInv(cfg: Config, st: State, st': State, t: Tid, w: Work)
    requires Inv(cfg, st) && t in st.threads && st.threads[t] == Run(w) && w.InsertStart? && w.c < |st.data|
    requires InsertStep(cfg, st, st', t, w)
    ensures Inv(cfg, st')
  {
    RunOwns(cfg, st, t, w);
    var d := st.data[w.c];
    assert SlotsOk(d, cfg.move[w.c]);
    if |w.chain| == cfg.move[w.c] && |d.slots| < d.cacheSize {
      SlotPushed(cfg, st, st', t, w.c, w.chain, 0);
    } else if |w.chain| == cfg.move[w.c] && d.cacheSize != d.maxCacheSize {
      WentOn(cfg, st, st', t, w, Evict(w.c, w.chain, false));
    } else {
      WentOn(cfg, st, st', t, w, Release(w.c, w.chain, DoneInsert));
    }
  }

  lemma EvictKeepsInv(cfg: Config, st: State, st': State, t: Tid, w: Work, v: nat, promising: bool)
    requires Inv(cfg, st) && t in st.threads && st.threads[t] == Run(w) && w.Evict? && w.c < |st.data|
    requires EvictStep(st, st', t, w, v, promising)
    ensures Inv(cfg, st')
  {
    RunOwns(cfg, st, t, w);
    if v == w.c || !promising {
      WentOn(cfg, st, st', t, w, EvictResult(w.c, w.chain, w.force, false));
    } else {
      Switched(cfg, st, st', t, w, Shrink(v, w.c, w.chain, w.force));
    }
  }

  lemma ShrinkKeepsInv(cfg: Config, st: State, st': State, t: Tid, w: Work)
    requires Inv(cfg, st) && t in st.threads && st.threads[t] == Run(w) && w.Shrink? && w.victim < |st.data|
    requires ShrinkStep(st, st', t, w)
    ensures Inv(cfg, st')
  {
    RunOwns(cfg, st, t, w);
    var d := st.data[w.victim];
    assert SlotsOk(d, cfg.move[w.victim]);
    if d.cacheSize == 0 || (|d.slots| == d.cacheSize && !w.force) {
      Switched(cfg, st, st', t, w, EvictResult(w.c, w.chain, w.force, false));
    } else if |d.slots| == d.cacheSize {
      SlotStolen(cfg, st, st', t, w);
    } else {
      RoomStolen(cfg, st, st', t, w);
    }
  }

  lemma EvictResultKeepsInv(cfg: Config, st: State, st': State, t: Tid, w: Work)
    requires Inv(cfg, st) && t in st.threads && st.threads[t] == Run(w) && w.EvictResult? && w.c < |st.data|
    requires EvictResultStep(st, st', t, w)
    ensures Inv(cfg, st')
  {
    RunOwns(cfg, st, t, w);
    assert SlotsOk(st.data[w.c], cfg.move[w.c]);
    if w.ok && st.data[w.c].cacheSize < st.data[w.c].maxCacheSize {
      SlotPushed(cfg, st, st', t, w.c, w.chain, 1);
    } else if !w.ok && !w.force {
      WentOn(cfg, st, st', t, w, Evict(w.c, w.chain, true));
    } else {
      assert w.chain + AfterChain(DoneInsert) == w.chain;
      WentOn(cfg, st, st', t, w, Release(w.c, w.chain, DoneInsert));
    }
  }

  lemma ReleaseKeepsInv(cfg: Config, st: State, st': State, t: Tid, w: Work, s: SpanId)
    requires Inv(cfg, st) && t in st.threads && st.threads[t] == Run(w) && w.Release? && w.c < |st.data|
    requires ReleaseStep(cfg, st, st', t, w, s)
    ensures Inv(cfg, st')
  {
    RunOwns(cfg, st, t, w);
    if w.rest == [] {
      match w.after
      case DoneInsert =>
        ControlMoved(cfg, st, st', t, Idle, st.locks[w.c + 1 := None]);
      case DoneShrink(c, chain, force) =>
        Switched(cfg, st, st', t, w, EvictResult(c, chain, force, true));
    } else if st.spans[s].refcount == 1 {
      SpanDissolved(cfg, st, st', t, w, s);
    } else {
      ObjectReturned(cfg, st, st', t, w, s);
    }
  }

  lemma RemoveKeepsInv(cfg: Config, st: State, st': State, t: Tid, w: Work)
    requires Inv(cfg, st) && t in st.threads && st.threads[t] == Run(w) && w.RemoveStart? && w.c < |st.data|
    requires RemoveStep(cfg, st, st', t, w)
    ensures Inv(cfg, st')
  {
    RunOwns(cfg, st, t, w);
    if w.n == cfg.move[w.c] && st.data[w.c].slots != [] {
      SlotDelivered(cfg, st, st', t, w.c);
    } else {
      WentOn(cfg, st, st', t, w, Fetch(w.c, w.n, [], false));
    }
  }

  lemma FetchKeepsInv(cfg: Config, st: State, st': State, t: Tid, w: Work)
    requires Inv(cfg, st) && t in st.threads && st.threads[t] == Run(w) && w.Fetch? && w.c < |st.data|
    requires FetchStep(st, st', t, w)
    ensures Inv(cfg, st')
  {
    RunOwns(cfg, st, t, w);
    var d := st.data[w.c];
    if |w.got| >= w.n || (d.nonempty == [] && (w.got != [] || w.populated)) {
      Delivered(cfg, st, st', t, w.c + 1, w.got);
    } else if d.nonempty == [] {
      Switched(cfg, st, st', t, w, NewPages(w.c, w.n));
    } else {
      var s := d.nonempty[0];
      assert s in d.nonempty && ClassOk(d, st.spans, w.c, Hands(st.threads));
      var m := if w.n - |w.got| < |st.spans[s].free| then w.n - |w.got| else |st.spans[s].free|;
      Fetched(cfg, st, st', t, w, s, m);
    }
  }

  lemma PopulateKeepsInv(cfg: Config, st: State, st': State, t: Tid, w: Work, got: Option<(SpanId, nat)>)
    requires Inv(cfg, st) && t in st.threads && st.threads[t] == Run(w) && w.NewPages? && w.c < |st.data|
    requires NewPagesStep(cfg, st, st', t, w, got)
    ensures Inv(cfg, st')
  {
    RunOwns(cfg, st, t, w);
    match got
    case None => Switched(cfg, st, st', t, w, Install(w.c, w.n, None));
    case Some((s, start)) => SpanArrived(cfg, st, st', t, w, s, start);
  }

  lemma InstallKeepsInv(cfg: Config, st: State, st': State, t: Tid, w: Work)
    requires Inv(cfg, st) && t in st.threads && st.threads[t] == Run(w) && w.Install? && w.c < |st.data|
    requires InstallStep(st, st', t, w)
    ensures Inv(cfg, st')
  {
    RunOwns(cfg, st, t, w);
    match w.span
    case None => WentOn(cfg, st, st', t, w, Fetch(w.c, w.n, [], true));
    case Some(s) => SpanListed(cfg, st, st', t, w, s);
  }

  lemma WorkKeepsInv(cfg: Config, st: State, st': State, t: Tid)
    requires Inv(cfg, st) && WorkStep(cfg, st, st', t)
    ensures Inv(cfg, st')
  {
    var w := st.threads[t].work;
    match w
    case InsertStart(_, _) => InsertKeepsInv(cfg, st, st', t, w);
    case Evict(_, _, _) =>
      var v, promising :| EvictStep(st, st', t, w, v, promising);
      EvictKeepsInv(cfg, st, st', t, w, v, promising);
    case Shrink(_, _, _, _) => ShrinkKeepsInv(cfg, st, st', t, w);
    case EvictResult(_, _, _, _) => EvictResultKeepsInv(cfg, st, st', t, w);
    case Release(_, _, _) =>
      var s :| ReleaseStep(cfg, st, st', t, w, s);
      ReleaseKeepsInv(cfg, st, st', t, w, s);
    case DeletePages(_, _, _) =>
      RunOwns(cfg, st, t, w);
      Switched(cfg, st, st', t, w, Release(w.c, w.rest, w.after));
    case RemoveStart(_, _) => RemoveKeepsInv(cfg, st, st', t, w);
    case Fetch(_, _, _, _) => FetchKeepsInv(cfg, st, st', t, w);
    case NewPages(_, _) =>
      var got :| NewPagesStep(cfg, st, st', t, w, got);
      PopulateKeepsInv(cfg, st, st', t, w, got);
    case Install(_, _, _) => InstallKeepsInv(cfg, st, st', t, w);
  }

  lemma ForkKeepsInv(cfg: Config, st: State, st': State, t: Tid)
    requires Inv(cfg, st) && (ForkLock(st, st', t) || ForkTurn(st, st', t) || ForkUnlock(st, st', t))
    ensures Inv(cfg, st')
  {
    assert ThreadOk(cfg, st.spans, |st.locks|, st.threads[t]);
    assert forall l :: 0 <= l < |st.locks| ==> (Holds(st.threads[t], l) <==> st.locks[l] == Some(t));
    ControlMoved(cfg, st, st', t, st'.threads[t], st'.locks);
  }

  /** Every step of every thread keeps the invariant. */
  lemma NextKeepsInv(cfg: Config, st: State, st': State, t: Tid)
    requires Inv(cfg, st) && Next(cfg, st, st', t)
    ensures Inv(cfg, st')
  {
    if c, chain :| CallInsert(st, st', t, c, chain) {
      CalledInsert(cfg, st, st', t, c, chain);
    } else if c, n :| CallRemove(st, st', t, c, n) {
      assert forall l :: 0 <= l < |st.locks| ==> (Holds(st.threads[t], l) <==> st.locks[l] == Some(t));
      ControlMoved(cfg, st, st', t, st'.threads[t], st.locks);
    } else if CallFork(st, st', t) {
      assert forall l :: 0 <= l < |st.locks| ==> (Holds(st.threads[t], l) <==> st.locks[l] == Some(t));
      ControlMoved(cfg, st, st', t, st'.threads[t], st.locks);
    } else if Acquire(st, st', t) {
      assert ThreadOk(cfg, st.spans, |st.locks|, st.threads[t]);
      assert forall l :: 0 <= l < |st.locks| ==> (Holds(st.threads[t], l) <==> st.locks[l] == Some(t));
      ControlMoved(cfg, st, st', t, st'.threads[t], st'.locks);
    } else if WorkStep(cfg, st, st', t) {
      WorkKeepsInv(cfg, st, st', t);
    } else {
      ForkKeepsInv(cfg, st, st', t);
    }
  }

  // ------------------------------------------------------------------ runs

  const K_MAX_TRANSFER_ENTRIES := 64
  const K_MEGABYTE := 1048576

  function Min(a: int, b: int): int { if a < b then a else b }
  function Max(a: int, b: int): int { if a < b then b else a }

  /** CentralFreeList::Init for class `cl` with objects of `size` bytes. */
  function InitialClass(cl: nat, size: nat, move: nat): ClassData
    requires cl > 0 ==> size > 0 && move > 0
  {
    var most := if cl == 0 then K_MAX_TRANSFER_ENTRIES else Min(K_MAX_TRANSFER_ENTRIES, Max(1, K_MEGABYTE / (size * move)));
    ClassData([], [], 0, 0, [], Min(16, most), most)
  }

  /** A class may cache at least one chain, at most 64, and otherwise as many as make up a megabyte; it starts with 16
      slots or what it may have. */
  lemma InitialSlots(cl: nat, size: nat, move: nat)
    requires cl > 0 && size > 0 && move > 0
    ensures var d := InitialClass(cl, size, move);
            && 1 <= d.maxCacheSize <= 64 && d.slots == [] && d.cacheSize == (if d.maxCacheSize < 16 then d.maxCacheSize else 16)
            && (d.maxCacheSize > 1 ==> d.maxCacheSize * (size * move) <= 1048576)
            && (d.maxCacheSize < 64 ==> (d.maxCacheSize + 1) * (size * move) > 1048576)
  {
    var u := size * move;
    assert u > 0;
    var q: nat := 1048576 / u;
    assert q * u <= 1048576 < q * u + u;
    Megabyte(u, q, InitialClass(cl, size, move).maxCacheSize);
  }

  lemma Megabyte(u: nat, q: nat, most: int)
    requires u > 0 && q * u <= 1048576 < q * u + u && most == Min(64, Max(1, q))
    ensures most > 1 ==> most * u <= 1048576
    ensures most < 64 ==> (most + 1) * u > 1048576
  {
    if most > 1 && most != q { Gap(u, q, most); }
    if most < 64 && most != q { assert most == 1 && q == 0; }
  }

  ghost predicate Initial(cfg: Config, st: State) {
    && Shaped(cfg, st)
    && (forall c :: 0 < c < |cfg.size| ==> cfg.size[c] > 0 && cfg.move[c] > 0)
    && (forall c :: 0 <= c < |cfg.size| ==> st.data[c] == InitialClass(c, cfg.size[c], cfg.move[c]))
    && (forall l :: 0 <= l < |st.locks| ==> st.locks[l] == None)
    && st.spans == map[] && st.client == {}
    && (forall t :: t in st.threads ==> st.threads[t] == Idle)
    && cfg.budget == CacheSum(st.data)
  }

  lemma InitialInv(cfg: Config, st: State)
    requires Initial(cfg, st)
    ensures Inv(cfg, st)
  {
    assert Credits(st.threads) == {};
    assert Hands(st.threads) == {};
    forall c | 0 <= c < |st.data| ensures SlotsOk(st.data[c], cfg.move[c]) && st.data[c].slots == [] {
      assert st.data[c] == InitialClass(c, cfg.size[c], cfg.move[c]);
    }
    forall c | 0 <= c < |st.data| ensures ClassOk(st.data[c], st.spans, c, {}) {
      assert st.data[c] == InitialClass(c, cfg.size[c], cfg.move[c]);
    }
    forall p ensures At(st, p) == {} {}
    forall s, o ensures !Owns(st.spans, s, o) {}
  }

  /** A run: states connected by steps of whichever thread the scheduler picks. */
  ghost predicate Execution(cfg: Config, states: seq<State>, who: seq<Tid>) {
    && |states| == |who| + 1 && Initial(cfg, states[0])
    && (forall i: nat {:trigger StepAt(cfg, states, who, i)} :: i < |who| ==> StepAt(cfg, states, who, i))
  }

  ghost predicate StepAt(cfg: Config, states: seq<State>, who: seq<Tid>, i: nat)
    requires i < |who| < |states|
  {
    Shaped(cfg, states[i]) && Next(cfg, states[i], states[i + 1], who[i])
  }

  lemma {:induction false} ExecutionInv(cfg: Config, states: seq<State>, who: seq<Tid>, n: nat)
    requires Execution(cfg, states, who) && n < |states|
    ensures Inv(cfg, states[n])
  {
    if n == 0 {
      InitialInv(cfg, states[0]);
    } else {
      ExecutionInv(cfg, states, who, n - 1);
      assert StepAt(cfg, states, who, n - 1);
      NextKeepsInv(cfg, states[n - 1], states[n], who[n - 1]);
    }
  }

  /** In every state of every run: each object of each span is in exactly one place; free objects and
      refcount make up the span. */
  lemma ObjectsConserved(cfg: Config, states: seq<State>, who: seq<Tid>, n: nat, s: SpanId, o: Obj)
    requires Execution(cfg, states, who) && n < |states| && s in states[n].spans && o in states[n].spans[s].objs
    ensures exists p :: o in At(states[n], p) && forall q :: o in At(states[n], q) ==> q == p
    ensures |states[n].spans[s].free| + states[n].spans[s].refcount == |states[n].spans[s].objs|
  {
    ExecutionInv(cfg, states, who, n);
    assert Owns(states[n].spans, s, o);
    assert Located(states[n], o);
    var p :| o in At(states[n], p);
    assert SpanOk(states[n].spans[s]);
  }

  /** In every state of every run a span holds as many objects as its bytes divided by their size, each
      inside the span, and no two objects anywhere share a byte. */
  lemma ObjectsApart(cfg: Config, states: seq<State>, who: seq<Tid>, n: nat, s: SpanId, x: SpanId, o: Obj, p: Obj)
    requires Execution(cfg, states, who) && n < |states|
    requires Owns(states[n].spans, s, o) && Owns(states[n].spans, x, p)
    ensures var a, b := states[n].spans[s], states[n].spans[x];
            && a.cls < |cfg.size| && b.cls < |cfg.size| && 0 < cfg.size[a.cls]
            && |a.objs| == a.bytes / cfg.size[a.cls]
            && a.start <= o && o + cfg.size[a.cls] <= a.start + a.bytes
            && (o != p ==> o + cfg.size[a.cls] <= p || p + cfg.size[b.cls] <= o)
  {
    ExecutionInv(cfg, states, who, n);
    var t := states[n].spans;
    assert Cut(cfg, t[s]) && Cut(cfg, t[x]);
    CountIsLength(cfg, t[s]);
    PieceInside(t[s].start, t[s].start + t[s].bytes, cfg.size[t[s].cls], o);
    if o != p { CutsApart(cfg, t, s, x, o, p); }
  }

  /** Nothing else is ever handed out or cached: whatever is in a place is an object of a live span. */
  lemma NothingInvented(cfg: Config, states: seq<State>, who: seq<Tid>, n: nat, p: Place, o: Obj)
    requires Execution(cfg, states, who) && n < |states| && o in At(states[n], p)
    ensures exists s :: s in states[n].spans && o in states[n].spans[s].objs
  {
    ExecutionInv(cfg, states, who, n);
    assert Owned(states[n].spans, o);
    var s :| Owns(states[n].spans, s, o);
  }

  /** In every state of every run each class keeps its slot bounds and full chains, counter_ is the
      number of free objects on its spans, a span of the class is on nonempty_ exactly when it has a free
      object (unless Populate still has it in hand), and the cache sizes stay within their initial sum. */
  lemma ClassesConsistent(cfg: Config, states: seq<State>, who: seq<Tid>, n: nat, c: nat)
    requires Execution(cfg, states, who) && n < |states| && c < |cfg.move|
    ensures |states[n].data| == |cfg.move|
    ensures var d := states[n].data[c];
            && 0 <= |d.slots| <= d.cacheSize <= d.maxCacheSize
            && (forall i :: 0 <= i < |d.slots| ==> |d.slots[i]| == cfg.move[c])
            && d.counter == FreeCount(d.nonempty, states[n].spans)
            && (forall s :: s in d.nonempty <==>
                  s in states[n].spans && states[n].spans[s].cls == c && s !in Hands(states[n].threads) && states[n].spans[s].free != [])
            && (forall s :: s in d.empty <==>
                  s in states[n].spans && states[n].spans[s].cls == c && s !in Hands(states[n].threads) && states[n].spans[s].free == [])
    ensures CacheSum(states[n].data) <= CacheSum(states[0].data)
  {
    ExecutionInv(cfg, states, who, n);
    var d := states[n].data[c];
    assert SlotsOk(d, cfg.move[c]) && ClassOk(d, states[n].spans, c, Hands(states[n].threads));
  }

  // ------------------------------------------------------------------ no thread gets stuck

  /** A thread inside always has a step: the span of every released object is found, a full cache that
      is to shrink has a slot, a nonempty span has an object. */
  lemma NeverStuck(cfg: Config, st: State, t: Tid) returns (st': State)
    requires Inv(cfg, st) && t in st.threads && st.threads[t].Run?
    ensures WorkStep(cfg, st, st', t)
  {
    var w := st.threads[t].work;
    RunOwns(cfg, st, t, w);
    assert SlotsOk(st.data[w.c], cfg.move[w.c]);
    match w {
      case InsertStart(c, chain) =>
        var d := st.data[c];
        st' := if |chain| == cfg.move[c] && |d.slots| < d.cacheSize then Return(PushSlot(st, c, chain, 0), t, c + 1)
               else if |chain| == cfg.move[c] && d.cacheSize != d.maxCacheSize then Goto(st, t, Evict(c, chain, false))
               else Goto(st, t, Release(c, chain, DoneInsert));
      case Evict(c, chain, force) =>
        st' := Goto(st, t, EvictResult(c, chain, force, false));
        assert EvictStep(st, st', t, w, c, false);
      case Shrink(v, c, chain, force) => st' := ShrinkNext(cfg, st, t, w);
      case EvictResult(c, chain, force, ok) =>
        st' := if ok && st.data[c].cacheSize < st.data[c].maxCacheSize then Return(PushSlot(st, c, chain, 1), t, c + 1)
               else if !ok && !force then Goto(st, t, Evict(c, chain, true))
               else Goto(st, t, Release(c, chain, DoneInsert));
      case Release(c, rest, after) => st' := ReleaseNext(cfg, st, t, w);
      case DeletePages(c, rest, after) => st' := Switch(st, t, 0, Release(c, rest, after));
      case RemoveStart(c, n) =>
        var d := st.data[c];
        st' := if n == cfg.move[c] && d.slots != []
               then Return(PopSlot(st, c, 0).(client := st.client + Elements(d.slots[|d.slots| - 1])), t, c + 1)
               else Goto(st, t, Fetch(c, n, [], false));
      case Fetch(c, n, got, populated) => st' := FetchNext(cfg, st, t, w);
      case NewPages(c, n) =>
        st' := Switch(st, t, 0, Install(c, n, None));
        assert NewPagesStep(cfg, st, st', t, w, None);
      case Install(c, n, span) =>
        st' := match span
               case None => Goto(st, t, Fetch(c, n, [], true))
               case Some(s) => Goto(st.(data := st.data[c := InstalledClass(st.data[c], st.spans[s], s)]), t, Fetch(c, n, [], true));
    }
  }

  lemma ShrinkNext(cfg: Config, st: State, t: Tid, w: Work) returns (st': State)
    requires Inv(cfg, st) && t in st.threads && st.threads[t] == Run(w) && w.Shrink? && w.victim < |st.data|
    ensures ShrinkStep(st, st', t, w)
  {
    var v := w.victim;
    var d := st.data[v];
    assert SlotsOk(d, cfg.move[v]);
    st' := if d.cacheSize == 0 || (|d.slots| == d.cacheSize && !w.force) then
             Switch(st, t, v + 1, EvictResult(w.c, w.chain, w.force, false))
           else if |d.slots| == d.cacheSize then
             Goto(PopSlot(st, v, 1), t, Release(v, d.slots[|d.slots| - 1], DoneShrink(w.c, w.chain, w.force)))
           else
             Switch(st.(data := st.data[v := d.(cacheSize := d.cacheSize - 1)]), t, v + 1, EvictResult(w.c, w.chain, w.force, true));
  }

  lemma ReleaseNext(cfg: Config, st: State, t: Tid, w: Work) returns (st': State)
    requires Inv(cfg, st) && t in st.threads && st.threads[t] == Run(w) && w.Release? && w.c < |st.data|
    ensures exists s :: ReleaseStep(cfg, st, st', t, w, s)
  {
    if w.rest == [] {
      st' := match w.after
             case DoneInsert => Return(st, t, w.c + 1)
             case DoneShrink(c, chain, force) => Switch(st, t, w.c + 1, EvictResult(c, chain, force, true));
      assert ReleaseStep(cfg, st, st', t, w, 0);
    } else {
      RunOwns(cfg, st, t, w);
      assert w.rest[0] in w.rest;
      var s :| Owns(st.spans, s, w.rest[0]) && st.spans[s].cls == w.c;
      var x := st.spans[s];
      st' := if x.refcount == 1 then
               Switch(st.(data := st.data[w.c := DissolvedClass(st.data[w.c], s, Count(x.bytes, cfg.size[w.c]))], spans := st.spans - {s}),
                      t, w.c + 1, DeletePages(w.c, w.rest[1..], w.after))
             else
               Goto(st.(data := st.data[w.c := ReturnedClass(st.data[w.c], x, s)], spans := st.spans[s := ReturnedSpan(x, w.rest[0])]),
                    t, Release(w.c, w.rest[1..], w.after));
      assert ReleaseStep(cfg, st, st', t, w, s);
    }
  }

  lemma FetchNext(cfg: Config, st: State, t: Tid, w: Work) returns (st': State)
    requires Inv(cfg, st) && t in st.threads && st.threads[t] == Run(w) && w.Fetch? && w.c < |st.data|
    ensures FetchStep(st, st', t, w)
  {
    var d := st.data[w.c];
    if |w.got| >= w.n || (d.nonempty == [] && (w.got != [] || w.populated)) {
      st' := Return(st.(client := st.client + Elements(w.got)), t, w.c + 1);
    } else if d.nonempty == [] {
      st' := Switch(st, t, w.c + 1, NewPages(w.c, w.n));
    } else {
      var s := d.nonempty[0];
      assert s in d.nonempty && ClassOk(d, st.spans, w.c, Hands(st.threads));
      var x := st.spans[s];
      var m := if w.n - |w.got| < |x.free| then w.n - |w.got| else |x.free|;
      st' := Goto(st.(data := st.data[w.c := FetchedClass(d, st.spans, m)], spans := st.spans[s := FetchedSpan(x, m)]),
                  t, Fetch(w.c, w.n, x.free[..m] + w.got, w.populated));
    }
  }

  // ------------------------------------------------------------------ no deadlock

  /** The lock a thread is waiting for. */
  function Wants(th: Thread, locks: nat): Option<LockId> {
    match th
    case Wait(w) => Some(LockOf(w))
    case ForkWait(k) => if k < locks then Some(k) else None
    case _ => None
  }

  ghost predicate WaitsFor(st: State, t: Tid, u: Tid) {
    && t in st.threads && u in st.threads
    && var l := Wants(st.threads[t], |st.locks|);
       l.Some? && l.value < |st.locks| && st.locks[l.value] == Some(u)
  }

  /** Inside InsertRange and RemoveRange a thread waits only while it holds no lock. */
  lemma WaitsEmptyHanded(cfg: Config, st: State, t: Tid, l: LockId)
    requires Inv(cfg, st) && t in st.threads && st.threads[t].Wait? && l < |st.locks|
    ensures st.locks[l] != Some(t)
  {
    assert Holds(st.threads[t], l) <==> st.locks[l] == Some(t);
  }

  /** Whoever holds a lock and waits is a fork handler holding the page-heap lock; what it waits for is
      held by a thread that does not wait. */
  lemma WaitsAreShort(cfg: Config, st: State, t: Tid, u: Tid, v: Tid)
    requires Inv(cfg, st) && WaitsFor(st, t, u) && WaitsFor(st, u, v)
    ensures st.threads[u].ForkWait? && Wants(st.threads[v], |st.locks|) == None && u != t
  {
    var l := Wants(st.threads[t], |st.locks|).value;
    var k := Wants(st.threads[u], |st.locks|).value;
    assert Holds(st.threads[u], l) <==> st.locks[l] == Some(u);
    assert Holds(st.threads[v], k) <==> st.locks[k] == Some(v);
    assert Holds(st.threads[u], 0) <==> st.locks[0] == Some(u);
    assert Holds(st.threads[v], 0) <==> st.locks[0] == Some(v);
    assert Holds(st.threads[u], k) <==> st.locks[k] == Some(u);
  }

  /** The wait-for graph has no cycle in any reachable state. */
  lemma NoDeadlock(cfg: Config, states: seq<State>, who: seq<Tid>, n: nat, path: seq<Tid>)
    requires Execution(cfg, states, who) && n < |states| && |path| >= 2
    requires forall i :: 0 <= i < |path| - 1 ==> WaitsFor(states[n], path[i], path[i + 1])
    ensures path[0] != path[|path| - 1]
    ensures |path| <= 3
  {
    ExecutionInv(cfg, states, who, n);
    var st := states[n];
    assert WaitsFor(st, path[0], path[1]);
    if |path| >= 3 {
      assert WaitsFor(st, path[1], path[2]);
      WaitsAreShort(cfg, st, path[0], path[1], path[2]);
      assert |path| > 3 ==> WaitsFor(st, path[2], path[3]);
    } else if path[0] == path[1] {
      WaitsAreShort(cfg, st, path[0], path[0], path[0]);
    }
  }
}
