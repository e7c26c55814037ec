/** The recursive lock of MemoryRegionMap (memory_region_map.cc), built from two spin locks, once thread ids
    work. Every acquire and release is a step of its own. LockTest, UnlockTest and HeldTest take several
    accesses in one step: all but one of them are to the count and the owner, which nobody else touches while
    the thread has owner_lock_ (lemma OwnerLockGuards), so they can be moved to where the one read of lock_
    happens. */
module RecursiveLocks {

  import opened Wrappers

  type Tid = nat

  const K_MAX_NESTING: nat := 5

  /** Where a thread is; `d` is how deep it is nested inside the lock. */
  datatype Pc =
    | Idle(d: nat)
    // Lock
    | LockCalled(d: nat)        // waits for owner_lock_
    | LockTest(d: nat)          // has owner_lock_, looks at the owner
    | LockNested(d: nat)        // went in again, gives owner_lock_ back
    | LockLeave                 // gives owner_lock_ back to wait for lock_
    | LockWait                  // waits for lock_
    | LockGot                   // has lock_, waits for owner_lock_
    | LockName                  // has both, writes the owner
    | LockCount                 // writes the count
    | LockDone                  // gives owner_lock_ back
    // Unlock
    | UnlockCalled(d: nat)
    | UnlockTest(d: nat)
    | UnlockFree                // the count is 0: frees lock_
    | UnlockDone(d: nat)
    // LockIsHeld
    | HeldCalled(d: nat)
    | HeldTest(d: nat)
    | HeldDone(d: nat, answer: bool)

  datatype State = State(
    lock: Option<Tid>,
    ownerLock: Option<Tid>,
    count: nat,
    owner: Tid,
    threads: map<Tid, Pc>,
    aborted: bool)

  function At(s: State, t: Tid, pc: Pc): State { s.(threads := s.threads[t := pc]) }

  function Take(s: State, t: Tid, pc: Pc): State { At(s.(ownerLock := Some(t)), t, pc) }

  function Give(s: State, t: Tid, pc: Pc): State { At(s.(ownerLock := None), t, pc) }

  /** One step of thread `t`. */
  ghost predicate Step(s: State, t: Tid, s': State) {
    && t in s.threads && !s.aborted
    && match s.threads[t]
       case Idle(d) => s' == At(s, t, LockCalled(d)) || s' == At(s, t, UnlockCalled(d)) || s' == At(s, t, HeldCalled(d))
       case LockCalled(d) => s.ownerLock == None && s' == Take(s, t, LockTest(d))
       case LockTest(d) =>
         if s.count > 0 && s.owner == t then
           if s.lock != None && s.count + 1 <= K_MAX_NESTING then s' == At(s.(count := s.count + 1), t, LockNested(d + 1))
           else s' == s.(aborted := true)
         else s' == At(s, t, LockLeave)
       case LockNested(d) => s' == Give(s, t, Idle(d))
       case LockLeave => s' == Give(s, t, LockWait)
       case LockWait => s.lock == None && s' == At(s.(lock := Some(t)), t, LockGot)
       case LockGot => s.ownerLock == None && s' == Take(s, t, LockName)
       case LockName =>
         if s.count == 0 then s' == At(s.(owner := t), t, LockCount) else s' == s.(aborted := true)
       case LockCount => s' == At(s.(count := 1), t, LockDone)
       case LockDone => s' == Give(s, t, Idle(1))
       case UnlockCalled(d) => s.ownerLock == None && s' == Take(s, t, UnlockTest(d))
       case UnlockTest(d) =>
         if s.count > 0 && s.lock != None && s.owner == t then
           s' == At(s.(count := s.count - 1), t, if s.count == 1 then UnlockFree else UnlockDone(if d > 0 then d - 1 else 0))
         else s' == s.(aborted := true)
       case UnlockFree => s' == At(s.(lock := None), t, UnlockDone(0))
       case UnlockDone(d) => s' == Give(s, t, Idle(d))
       case HeldCalled(d) => s.ownerLock == None && s' == Take(s, t, HeldTest(d))
       case HeldTest(d) => s' == At(s, t, HeldDone(d, s.lock != None && s.owner == t))
       case HeldDone(d, _) => s' == Give(s, t, Idle(d))
  }

  ghost predicate Init(s: State) {
    && s.lock == None && s.ownerLock == None && s.count == 0 && !s.aborted
    && forall t :: t in s.threads ==> s.threads[t] == Idle(0)
  }

  ghost predicate Next(s: State, s': State) { exists t :: Step(s, t, s') }

  /** A run: every state follows from the one before by a step of some thread. */
  ghost predicate Run(run: seq<State>) {
    && run != [] && Init(run[0])
    && forall i :: 0 < i < |run| ==> Next(run[i - 1], run[i])
  }

  ghost predicate Reachable(s: State) {
    exists run :: Run(run) && run[|run| - 1] == s
  }

  // ------------------------------------------------------------------ the invariant

  /** What the count records of a thread's nesting. */
  function Nesting(pc: Pc): nat {
    match pc
    case Idle(d) => d
    case LockCalled(d) => d
    case LockTest(d) => d
    case LockNested(d) => d
    case LockDone => 1
    case UnlockCalled(d) => d
    case UnlockTest(d) => d
    case UnlockDone(d) => d
    case HeldCalled(d) => d
    case HeldTest(d) => d
    case HeldDone(d, _) => d
    case _ => 0
  }

  predicate HasOwnerLock(pc: Pc) {
    pc.LockTest? || pc.LockNested? || pc.LockLeave? || pc.LockName? || pc.LockCount? || pc.LockDone?
    || pc.UnlockTest? || pc.UnlockFree? || pc.UnlockDone? || pc.HeldTest? || pc.HeldDone?
  }

  predicate HasLock(pc: Pc) {
    Nesting(pc) > 0 || pc.LockGot? || pc.LockName? || pc.LockCount? || pc.UnlockFree?
  }

  /** The owner id is that of the thread: it is nested, or has just written it. */
  predicate Named(pc: Pc) { Nesting(pc) > 0 || pc.LockCount? || pc.UnlockFree? }

  ghost predicate ThreadOk(s: State, t: Tid) {
    t in s.threads ==>
      var pc := s.threads[t];
      && (HasOwnerLock(pc) <==> s.ownerLock == Some(t))
      && (HasLock(pc) <==> s.lock == Some(t))
      && (HasLock(pc) ==> s.count == Nesting(pc))
      && (Named(pc) ==> s.owner == t)
      && (pc.HeldDone? && pc.d > 0 ==> pc.answer)
  }

  ghost predicate Inv(s: State) {
    && (forall t: Tid {:trigger ThreadOk(s, t)} :: ThreadOk(s, t))
    && (s.lock == None ==> s.count == 0)
    && (s.lock != None ==> s.lock.value in s.threads)
    && (s.ownerLock != None ==> s.ownerLock.value in s.threads)
    && s.count <= K_MAX_NESTING
  }

  lemma InitInv(s: State)
    requires Init(s)
    ensures Inv(s)
  {
    forall t: Tid ensures ThreadOk(s, t) {}
  }

  lemma StepInv(s: State, t: Tid, s': State)
    requires Inv(s) && Step(s, t, s')
    ensures Inv(s')
  {
    assert ThreadOk(s, t);
    if s.lock != None { assert ThreadOk(s, s.lock.value); }
    forall u: Tid ensures ThreadOk(s', u) {
      if u == t { StepMover(s, t, s'); } else { StepOther(s, t, s', u); }
    }
  }

  predicate InLock(pc: Pc) {
    pc.LockCalled? || pc.LockTest? || pc.LockNested? || pc.LockLeave? || pc.LockWait? || pc.LockGot? || pc.LockName?
    || pc.LockCount? || pc.LockDone?
  }

  lemma StepMover(s: State, t: Tid, s': State)
    requires Inv(s) && Step(s, t, s')
    ensures ThreadOk(s', t)
  {
    if InLock(s.threads[t]) { StepLocker(s, t, s'); } else { StepUnlocker(s, t, s'); }
  }

  lemma StepLocker(s: State, t: Tid, s': State)
    requires Inv(s) && Step(s, t, s') && InLock(s.threads[t])
    ensures ThreadOk(s', t)
  {
    assert ThreadOk(s, t);
    if s.lock != None { assert ThreadOk(s, s.lock.value); }
  }

  lemma StepUnlocker(s: State, t: Tid, s': State)
    requires Inv(s) && Step(s, t, s') && !InLock(s.threads[t])
    ensures ThreadOk(s', t)
  {
    assert ThreadOk(s, t);
    if s.lock != None { assert ThreadOk(s, s.lock.value); }
  }

  lemma StepOther(s: State, t: Tid, s': State, u: Tid)
    requires Inv(s) && Step(s, t, s') && u != t
    ensures ThreadOk(s', u)
  {
    assert ThreadOk(s, t) && ThreadOk(s, u);
  }

  /** While a thread has owner_lock_, no step of another thread changes the count or the owner, or depends
      on them. */
  lemma OwnerLockGuards(s: State, t: Tid, u: Tid, s': State, count: nat, owner: Tid)
    requires Inv(s) && t in s.threads && HasOwnerLock(s.threads[t]) && u != t && Step(s, u, s')
    ensures s'.count == s.count && s'.owner == s.owner
    ensures Step(s.(count := count, owner := owner), u, s'.(count := count, owner := owner))
  {
    assert ThreadOk(s, t) && ThreadOk(s, u);
  }

  lemma {:induction false} RunInv(run: seq<State>)
    requires Run(run)
    ensures Inv(run[|run| - 1])
  {
    if |run| == 1 {
      InitInv(run[0]);
    } else {
      var n := |run| - 1;
      assert Run(run[..n]) by {
        forall i | 0 < i < n ensures Next(run[..n][i - 1], run[..n][i]) { assert Next(run[i - 1], run[i]); }
      }
      RunInv(run[..n]);
      assert Next(run[n - 1], run[n]);
      var t :| Step(run[n - 1], t, run[n]);
      StepInv(run[n - 1], t, run[n]);
    }
  }

  lemma ReachableInv(s: State)
    requires Reachable(s)
    ensures Inv(s)
  {
    var run :| Run(run) && run[|run| - 1] == s;
    RunInv(run);
  }

  // ------------------------------------------------------------------ what it gives

  /** A thread is inside from the return of its outermost Lock to its outermost Unlock. */
  predicate Inside(pc: Pc) { Nesting(pc) > 0 }

  /** No two threads are inside. */
  lemma MutualExclusion(s: State, t: Tid, u: Tid)
    requires Reachable(s) && t in s.threads && u in s.threads && Inside(s.threads[t]) && Inside(s.threads[u])
    ensures t == u
  {
    ReachableInv(s);
    assert ThreadOk(s, t) && ThreadOk(s, u);
  }

  /** Lock takes the nested path exactly when the calling thread is inside. */
  lemma NestedOnlyInside(s: State, t: Tid, s': State)
    requires Reachable(s) && Step(s, t, s') && s.threads[t].LockTest?
    ensures (s'.aborted || s'.threads[t].LockNested?) <==> Inside(s.threads[t])
    ensures s'.aborted <==> Nesting(s.threads[t]) == K_MAX_NESTING
  {
    ReachableInv(s);
    assert ThreadOk(s, t);
    if s.lock != None { assert ThreadOk(s, s.lock.value); }
  }

  /** lock_ is freed by Unlock of the thread inside, when that leaves its last level, and by nothing else. */
  lemma FreedAtOutermost(s: State, t: Tid, s': State)
    requires Reachable(s) && Step(s, t, s')
    ensures s.lock != None && s'.lock == None <==> s.threads[t].UnlockFree?
    ensures s'.threads[t].UnlockFree? && !s.threads[t].UnlockFree? ==> s.threads[t] == UnlockTest(1) && s.lock == Some(t)
    ensures s.threads[t] == UnlockTest(1) ==> s'.threads[t].UnlockFree?
  {
    ReachableInv(s);
    assert ThreadOk(s, t);
    if s.lock != None { assert ThreadOk(s, s.lock.value); }
  }

  /** Unlock aborts exactly for a thread that is not inside, and the other checks never fail. */
  lemma UnlockChecks(s: State, t: Tid, s': State)
    requires Reachable(s) && Step(s, t, s') && !s.threads[t].LockTest?
    ensures s'.aborted <==> s.threads[t] == UnlockTest(0)
  {
    ReachableInv(s);
    assert ThreadOk(s, t);
    if s.lock != None { assert ThreadOk(s, s.lock.value); }
  }

  /** LockIsHeld is true for a thread inside; for one outside it is true exactly while another thread has
      lock_ but has not written its id yet and the old id is that of the asking thread. */
  lemma HeldAnswer(s: State, t: Tid, s': State)
    requires Reachable(s) && Step(s, t, s') && s.threads[t].HeldTest?
    ensures s'.threads[t].answer <==>
              (Inside(s.threads[t]) || (s.owner == t && exists u :: u in s.threads && (s.threads[u].LockGot? || s.threads[u].LockName?)))
  {
    ReachableInv(s);
    assert ThreadOk(s, t);
    if s.lock != None { assert ThreadOk(s, s.lock.value); }
    forall u | u in s.threads && (s.threads[u].LockGot? || s.threads[u].LockName?) ensures s.lock == Some(u) { assert ThreadOk(s, u); }
  }

  /** The holder of owner_lock_ never waits, and a thread that waits for lock_ does not hold owner_lock_. */
  lemma OwnerLockIsShort(s: State, t: Tid)
    requires Reachable(s) && !s.aborted && s.ownerLock == Some(t)
    ensures exists s' :: Step(s, t, s')
  {
    ReachableInv(s);
    assert ThreadOk(s, t);
    match s.threads[t]
    case LockTest(d) =>
      if s.count > 0 && s.owner == t {
        if s.lock != None && s.count + 1 <= K_MAX_NESTING { assert Step(s, t, At(s.(count := s.count + 1), t, LockNested(d + 1))); }
        else { assert Step(s, t, s.(aborted := true)); }
      } else { assert Step(s, t, At(s, t, LockLeave)); }
    case LockNested(d) => assert Step(s, t, Give(s, t, Idle(d)));
    case LockLeave => assert Step(s, t, Give(s, t, LockWait));
    case LockName =>
      assert s.count == 0;
      assert Step(s, t, At(s.(owner := t), t, LockCount));
    case LockCount => assert Step(s, t, At(s.(count := 1), t, LockDone));
    case LockDone => assert Step(s, t, Give(s, t, Idle(1)));
    case UnlockTest(d) =>
      if s.count > 0 && s.lock != None && s.owner == t {
        var pc := if s.count == 1 then UnlockFree else UnlockDone(if d > 0 then d - 1 else 0);
        assert Step(s, t, At(s.(count := s.count - 1), t, pc));
      } else { assert Step(s, t, s.(aborted := true)); }
    case UnlockFree => assert Step(s, t, At(s.(lock := None), t, UnlockDone(0)));
    case UnlockDone(d) => assert Step(s, t, Give(s, t, Idle(d)));
    case HeldTest(d) => assert Step(s, t, At(s, t, HeldDone(d, s.lock != None && s.owner == t)));
    case HeldDone(d, _) => assert Step(s, t, Give(s, t, Idle(d)));
  }

  lemma Extend(s: State, t: Tid, s': State)
    requires Reachable(s) && Step(s, t, s')
    ensures Reachable(s')
  {
    var run :| Run(run) && run[|run| - 1] == s;
    var more := run + [s'];
    forall i | 0 < i < |more| ensures Next(more[i - 1], more[i]) {
      if i < |run| { assert Next(run[i - 1], run[i]); }
    }
    assert Run(more) && more[|more| - 1] == s';
  }

  lemma Start(s: State)
    requires Init(s)
    ensures Reachable(s)
  {
    assert Run([s]) && [s][|[s]| - 1] == s;
  }

  /** Both threads are outside and nobody has a lock. */
  ghost predicate Quiet(s: State, owner: Tid) {
    && Reachable(s) && s.lock == None && s.ownerLock == None && s.count == 0 && s.owner == owner && !s.aborted
    && 0 in s.threads && 1 in s.threads && s.threads[0] == Idle(0) && s.threads[1] == Idle(0)
  }

  lemma Move(s: State, t: Tid, s': State) returns (r: State)
    requires Reachable(s) && Step(s, t, s')
    ensures r == s' && Reachable(r)
  {
    Extend(s, t, s');
    r := s';
  }

  /** Thread `t` gets as far as having lock_. */
  lemma GetsLock(s: State, t: Tid) returns (r: State)
    requires Quiet(s, s.owner) && t in s.threads && s.threads[t] == Idle(0)
    ensures Reachable(r) && r == s.(lock := Some(t), threads := r.threads) && r.threads.Keys == s.threads.Keys
    ensures forall u :: u in s.threads ==> r.threads[u] == if u == t then LockGot else s.threads[u]
  {
    r := Move(s, t, At(s, t, LockCalled(0)));
    r := Move(r, t, Take(r, t, LockTest(0)));
    r := Move(r, t, At(r, t, LockLeave));
    r := Move(r, t, Give(r, t, LockWait));
    r := Move(r, t, At(r.(lock := Some(t)), t, LockGot));
  }

  /** Thread 0 goes in and out and leaves its id behind. */
  lemma InAndOut(s: State) returns (r: State)
    requires Quiet(s, s.owner)
    ensures Quiet(r, 0)
  {
    r := GetsLock(s, 0);
    r := Move(r, 0, Take(r, 0, LockName));
    r := Move(r, 0, At(r.(owner := 0), 0, LockCount));
    r := Move(r, 0, At(r.(count := 1), 0, LockDone));
    r := Move(r, 0, Give(r, 0, Idle(1)));
    r := Move(r, 0, At(r, 0, UnlockCalled(1)));
    r := Move(r, 0, Take(r, 0, UnlockTest(1)));
    r := Move(r, 0, At(r.(count := 0), 0, UnlockFree));
    r := Move(r, 0, At(r.(lock := None), 0, UnlockDone(0)));
    r := Move(r, 0, Give(r, 0, Idle(0)));
  }

  /** LockIsHeld can be true for a thread that is not inside: thread 0 has been in and out, thread 1 has taken
      lock_ and not written its id yet. */
  lemma HeldOutside(start: State) returns (s: State, s': State)
    requires Init(start) && 0 in start.threads && 1 in start.threads
    ensures Reachable(s) && Step(s, 0, s') && s.threads[0].HeldTest? && !Inside(s.threads[0]) && s'.threads[0] == HeldDone(0, true)
  {
    Start(start);
    s := InAndOut(start);
    s := GetsLock(s, 1);
    s := Move(s, 0, At(s, 0, HeldCalled(0)));
    s := Move(s, 0, Take(s, 0, HeldTest(0)));
    s' := At(s, 0, HeldDone(0, true));
  }
}
