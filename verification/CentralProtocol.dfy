/** Threads inside InsertRange, RemoveRange and the fork handler as a state machine: one step per
    stretch of code executed under one lock (central_freelist.cc, static_vars.cc). */
module CentralProtocol {
  import opened Collections
  import opened CentralData
  import opened Wrappers
  import opened Carving

  type Tid = nat

  /** Lock 0 is the page-heap lock, lock c + 1 the lock of size class c. */
  type LockId = nat

  /** What ReleaseListToSpans returns to: InsertRange itself, or ShrinkCache on behalf of an insert. */
  datatype After = DoneInsert | DoneShrink(cls: nat, chain: seq<Obj>, force: bool)

  /** The rest of a call, from a point where one lock is held (or awaited). */
  datatype Work =
    | InsertStart(c: nat, chain: seq<Obj>)
    | Evict(c: nat, chain: seq<Obj>, force: bool)
    | Shrink(victim: nat, c: nat, chain: seq<Obj>, force: bool)
    | EvictResult(c: nat, chain: seq<Obj>, force: bool, ok: bool)
    | Release(c: nat, rest: seq<Obj>, after: After)
    | DeletePages(c: nat, rest: seq<Obj>, after: After)
    | RemoveStart(c: nat, n: nat)
    | Fetch(c: nat, n: nat, got: seq<Obj>, populated: bool)
    | NewPages(c: nat, n: nat)
    | Install(c: nat, n: nat, span: Option<SpanId>)

  /** A fork handler has taken the first `k` locks in order and waits for lock `k`, or is releasing:
      it gave back the class locks up to `j` and still has the page-heap lock. */
  datatype Thread =
    | Idle
    | Wait(work: Work)
    | Run(work: Work)
    | ForkWait(k: nat)
    | ForkRelease(j: nat)

  datatype State = State(locks: seq<Option<Tid>>, data: seq<ClassData>, spans: SpanTable,
                         threads: map<Tid, Thread>, client: set<Obj>)

  /** num_objects_to_move, ByteSizeForClass and class_to_pages in bytes, per class; and the initial sum of
      the cache sizes. */
  datatype Config = Config(move: seq<nat>, size: seq<nat>, room: seq<nat>, budget: nat)

  /** The lock a piece of work runs under. */
  function LockOf(w: Work): LockId {
    match w
    case InsertStart(c, _) => c + 1
    case Evict(c, _, _) => c + 1
    case Shrink(v, _, _, _) => v + 1
    case EvictResult(c, _, _, _) => c + 1
    case Release(c, _, _) => c + 1
    case DeletePages(_, _, _) => 0
    case RemoveStart(c, _) => c + 1
    case Fetch(c, _, _, _) => c + 1
    case NewPages(_, _) => 0
    case Install(c, _, _) => c + 1
  }

  predicate Holds(th: Thread, l: LockId) {
    match th
    case Idle => false
    case Wait(_) => false
    case Run(w) => l == LockOf(w)
    case ForkWait(k) => l < k
    case ForkRelease(j) => l == 0 || l > j
  }

  function AfterChain(a: After): seq<Obj> {
    if a.DoneShrink? then a.chain else []
  }

  /** The objects a thread carries. */
  function Carried(th: Thread): seq<Obj> {
    match th
    case Wait(w) => CarriedBy(w)
    case Run(w) => CarriedBy(w)
    case _ => []
  }

  function CarriedBy(w: Work): seq<Obj> {
    match w
    case InsertStart(_, chain) => chain
    case Evict(_, chain, _) => chain
    case Shrink(_, _, chain, _) => chain
    case EvictResult(_, chain, _, _) => chain
    case Release(_, rest, after) => rest + AfterChain(after)
    case DeletePages(_, rest, after) => rest + AfterChain(after)
    case Fetch(_, _, got, _) => got
    case _ => []
  }

  /** A newly populated span that is on no list yet. */
  function InHand(th: Thread): Option<SpanId> {
    match th
    case Wait(w) => if w.Install? then w.span else None
    case Run(w) => if w.Install? then w.span else None
    case _ => None
  }

  /** A slot taken from another class and not yet added to ours. */
  predicate Credit(th: Thread) {
    match th
    case Wait(w) => CreditWork(w)
    case Run(w) => CreditWork(w)
    case _ => false
  }

  predicate CreditWork(w: Work) {
    match w
    case EvictResult(_, _, _, ok) => ok
    case Release(_, _, after) => after.DoneShrink?
    case DeletePages(_, _, after) => after.DoneShrink?
    case _ => false
  }

  // ------------------------------------------------------------------ steps

  /** What a client may hand in: objects of spans of that class that it holds. */
  predicate ClientChain(st: State, c: nat, chain: seq<Obj>) {
    && c < |st.data| && chain != [] && Distinct(chain)
    && (forall o :: o in chain ==> o in st.client)
    && (forall o :: o in chain ==> exists s :: s in st.spans && st.spans[s].cls == c && o in st.spans[s].objs)
  }

  predicate CallInsert(st: State, st': State, t: Tid, c: nat, chain: seq<Obj>) {
    && t in st.threads && st.threads[t] == Idle && ClientChain(st, c, chain)
    && st' == st.(client := st.client - Elements(chain), threads := st.threads[t := Wait(InsertStart(c, chain))])
  }

  predicate CallRemove(st: State, st': State, t: Tid, c: nat, n: nat) {
    && t in st.threads && st.threads[t] == Idle && c < |st.data| && 0 < n
    && st' == st.(threads := st.threads[t := Wait(RemoveStart(c, n))])
  }

  predicate CallFork(st: State, st': State, t: Tid) {
    && t in st.threads && st.threads[t] == Idle
    && st' == st.(threads := st.threads[t := ForkWait(0)])
  }

  predicate Acquire(st: State, st': State, t: Tid) {
    && t in st.threads && st.threads[t].Wait?
    && var l := LockOf(st.threads[t].work);
       && l < |st.locks| && st.locks[l] == None
       && st' == st.(locks := st.locks[l := Some(t)], threads := st.threads[t := Run(st.threads[t].work)])
  }

  /** Keep the lock and go on with `w`. */
  function Goto(st: State, t: Tid, w: Work): State {
    st.(threads := st.threads[t := Run(w)])
  }

  /** Drop lock `l` and wait for the lock of `w`. */
  function Switch(st: State, t: Tid, l: LockId, w: Work): State
    requires l < |st.locks|
  {
    st.(locks := st.locks[l := None], threads := st.threads[t := Wait(w)])
  }

  /** Drop lock `l` and return. */
  function Return(st: State, t: Tid, l: LockId): State
    requires l < |st.locks|
  {
    st.(locks := st.locks[l := None], threads := st.threads[t := Idle])
  }

  function PushSlot(st: State, c: nat, chain: seq<Obj>, grow: int): State
    requires c < |st.data|
  {
    var d := st.data[c];
    st.(data := st.data[c := d.(slots := d.slots + [chain], cacheSize := d.cacheSize + grow)])
  }

  /** `used` slots become one fewer and the cache shrinks by `shrink`. */
  function PopSlot(st: State, c: nat, shrink: int): State
    requires c < |st.data| && st.data[c].slots != []
  {
    var d := st.data[c];
    st.(data := st.data[c := d.(slots := d.slots[..|d.slots| - 1], cacheSize := d.cacheSize - shrink)])
  }

  /** InsertRange after taking its lock, up to the first eviction attempt. */
  predicate InsertStep(cfg: Config, st: State, st': State, t: Tid, w: Work)
    requires w.InsertStart? && w.c < |st.data| == |cfg.move| && |st.locks| == |st.data| + 1
  {
    var d := st.data[w.c];
    if |w.chain| == cfg.move[w.c] && |d.slots| < d.cacheSize then
      st' == Return(PushSlot(st, w.c, w.chain, 0), t, w.c + 1)
    else if |w.chain| == cfg.move[w.c] && d.cacheSize != d.maxCacheSize then
      st' == Goto(st, t, Evict(w.c, w.chain, false))
    else
      st' == Goto(st, t, Release(w.c, w.chain, DoneInsert))
  }

  /** EvictRandomSizeClass: some class `v`; the unlocked look at it may say no for whatever it read. */
  predicate EvictStep(st: State, st': State, t: Tid, w: Work, v: nat, promising: bool)
    requires w.Evict? && w.c < |st.data| && |st.locks| == |st.data| + 1
  {
    && v < |st.data|
    && if v == w.c || !promising
       then st' == Goto(st, t, EvictResult(w.c, w.chain, w.force, false))
       else st' == Switch(st, t, w.c + 1, Shrink(v, w.c, w.chain, w.force))
  }

  /** ShrinkCache under the victim's lock. */
  predicate ShrinkStep(st: State, st': State, t: Tid, w: Work)
    requires w.Shrink? && w.victim < |st.data| && |st.locks| == |st.data| + 1
  {
    var v := w.victim;
    var d := st.data[v];
    if d.cacheSize == 0 || (|d.slots| == d.cacheSize && !w.force) then
      st' == Switch(st, t, v + 1, EvictResult(w.c, w.chain, w.force, false))
    else if |d.slots| == d.cacheSize then
      && d.slots != []
      && st' == Goto(PopSlot(st, v, 1), t, Release(v, d.slots[|d.slots| - 1], DoneShrink(w.c, w.chain, w.force)))
    else
      st' == Switch(st.(data := st.data[v := d.(cacheSize := d.cacheSize - 1)]), t, v + 1,
                    EvictResult(w.c, w.chain, w.force, true))
  }

  /** MakeCacheSpace after an eviction attempt, with the own lock held again. */
  predicate EvictResultStep(st: State, st': State, t: Tid, w: Work)
    requires w.EvictResult? && w.c < |st.data| && |st.locks| == |st.data| + 1
  {
    if w.ok && st.data[w.c].cacheSize < st.data[w.c].maxCacheSize then
      st' == Return(PushSlot(st, w.c, w.chain, 1), t, w.c + 1)
    else if !w.ok && !w.force then
      st' == Goto(st, t, Evict(w.c, w.chain, true))
    else
      st' == Goto(st, t, Release(w.c, w.chain, DoneInsert))
  }

  /** ReleaseListToSpans: one object, or the return. `s` is the span of the object. */
  predicate ReleaseStep(cfg: Config, st: State, st': State, t: Tid, w: Work, s: SpanId)
    requires w.Release? && w.c < |st.data| && Shaped(cfg, st)
  {
    if w.rest == [] then
      st' == match w.after
             case DoneInsert => Return(st, t, w.c + 1)
             case DoneShrink(c, chain, force) => Switch(st, t, w.c + 1, EvictResult(c, chain, force, true))
    else
      var o := w.rest[0];
      && s in st.spans && o in st.spans[s].objs
      && var x := st.spans[s];
         if x.refcount == 1 then
           st' == Switch(st.(data := st.data[w.c := DissolvedClass(st.data[w.c], s, Count(x.bytes, cfg.size[w.c]))], spans := st.spans - {s}),
                         t, w.c + 1, DeletePages(w.c, w.rest[1..], w.after))
         else
           st' == Goto(st.(data := st.data[w.c := ReturnedClass(st.data[w.c], x, s)],
                           spans := st.spans[s := ReturnedSpan(x, o)]),
                       t, Release(w.c, w.rest[1..], w.after))
  }

  /** PageHeap::Delete under the page-heap lock; then back for the class lock. */
  predicate DeleteStep(st: State, st': State, t: Tid, w: Work)
    requires w.DeletePages? && 0 < |st.locks|
  {
    st' == Switch(st, t, 0, Release(w.c, w.rest, w.after))
  }

  /** RemoveRange after taking its lock. */
  predicate RemoveStep(cfg: Config, st: State, st': State, t: Tid, w: Work)
    requires w.RemoveStart? && w.c < |st.data| == |cfg.move| && |st.locks| == |st.data| + 1
  {
    var d := st.data[w.c];
    if w.n == cfg.move[w.c] && d.slots != [] then
      st' == Return(PopSlot(st, w.c, 0).(client := st.client + Elements(d.slots[|d.slots| - 1])), t, w.c + 1)
    else
      st' == Goto(st, t, Fetch(w.c, w.n, [], false))
  }

  /** One FetchFromOneSpans, or what follows when it finds nothing or enough is there. */
  predicate FetchStep(st: State, st': State, t: Tid, w: Work)
    requires w.Fetch? && w.c < |st.data| && |st.locks| == |st.data| + 1
  {
    var d := st.data[w.c];
    if |w.got| >= w.n || (d.nonempty == [] && (w.got != [] || w.populated)) then
      st' == Return(st.(client := st.client + Elements(w.got)), t, w.c + 1)
    else if d.nonempty == [] then
      st' == Switch(st, t, w.c + 1, NewPages(w.c, w.n))
    else
      && d.nonempty[0] in st.spans
      && var s := d.nonempty[0];
         var x := st.spans[s];
         var m := if w.n - |w.got| < |x.free| then w.n - |w.got| else |x.free|;
         st' == Goto(st.(data := st.data[w.c := FetchedClass(d, st.spans, m)], spans := st.spans[s := FetchedSpan(x, m)]),
                     t, Fetch(w.c, w.n, x.free[..m] + w.got, w.populated))
  }

  /** The two spans share no byte. */
  predicate Apart(x: ObjSpan, y: ObjSpan) {
    x.start + x.bytes <= y.start || y.start + y.bytes <= x.start
  }

  /** A span of class `c` at `start`, carved into objects that are all free. */
  function Populated(cfg: Config, c: nat, start: nat): ObjSpan
    requires c < |cfg.size| && c < |cfg.room|
  {
    var objs := Pieces(start, start + cfg.room[c], cfg.size[c]);
    ObjSpan(c, start, cfg.room[c], objs, objs, 0)
  }

  /** NewWithSizeClass under the page-heap lock and the carving of the span into objects: nothing, or a new
      span that shares no page with a live one. Class 0 has no objects and is never asked for. */
  predicate NewPagesStep(cfg: Config, st: State, st': State, t: Tid, w: Work, got: Option<(SpanId, nat)>)
    requires w.NewPages? && w.c < |st.data| && Shaped(cfg, st)
  {
    match got
    case None => st' == Switch(st, t, 0, Install(w.c, w.n, None))
    case Some((s, start)) =>
      && s !in st.spans && 0 < cfg.size[w.c] <= cfg.room[w.c]
      && (forall x :: x in st.spans ==> Apart(Populated(cfg, w.c, start), st.spans[x]))
      && st' == Switch(st.(spans := st.spans[s := Populated(cfg, w.c, start)]), t, 0, Install(w.c, w.n, Some(s)))
  }

  /** The end of Populate, and the second FetchFromOneSpans. */
  predicate InstallStep(st: State, st': State, t: Tid, w: Work)
    requires w.Install? && w.c < |st.data|
  {
    match w.span
    case None => st' == Goto(st, t, Fetch(w.c, w.n, [], true))
    case Some(s) =>
      && s in st.spans
      && st' == Goto(st.(data := st.data[w.c := InstalledClass(st.data[w.c], st.spans[s], s)]), t, Fetch(w.c, w.n, [], true))
  }

  /** CentralCacheLockAll takes the next lock; with all of them it turns to releasing. */
  predicate ForkLock(st: State, st': State, t: Tid) {
    && t in st.threads && st.threads[t].ForkWait?
    && var k := st.threads[t].k;
       && k < |st.locks| && st.locks[k] == None
       && st' == st.(locks := st.locks[k := Some(t)], threads := st.threads[t := ForkWait(k + 1)])
  }

  predicate ForkTurn(st: State, st': State, t: Tid) {
    && t in st.threads && st.threads[t].ForkWait? && st.threads[t].k == |st.locks|
    && st' == st.(threads := st.threads[t := ForkRelease(0)])
  }

  /** CentralCacheUnlockAll: classes in index order, then the page heap. */
  predicate ForkUnlock(st: State, st': State, t: Tid) {
    && t in st.threads && st.threads[t].ForkRelease?
    && var j := st.threads[t].j;
       if j + 1 < |st.locks|
       then st' == st.(locks := st.locks[j + 1 := None], threads := st.threads[t := ForkRelease(j + 1)])
       else 0 < |st.locks| && st' == st.(locks := st.locks[0 := None], threads := st.threads[t := Idle])
  }

  /** The step of a thread that holds the lock of its work. */
  ghost predicate WorkStep(cfg: Config, st: State, st': State, t: Tid)
    requires Shaped(cfg, st)
  {
    && t in st.threads && st.threads[t].Run?
    && var w := st.threads[t].work;
       && InRange(w, |st.data|)
       && match w
          case InsertStart(_, _) => InsertStep(cfg, st, st', t, w)
          case Evict(_, _, _) => exists v, promising :: EvictStep(st, st', t, w, v, promising)
          case Shrink(_, _, _, _) => ShrinkStep(st, st', t, w)
          case EvictResult(_, _, _, _) => EvictResultStep(st, st', t, w)
          case Release(_, _, _) => exists s :: ReleaseStep(cfg, st, st', t, w, s)
          case DeletePages(_, _, _) => DeleteStep(st, st', t, w)
          case RemoveStart(_, _) => RemoveStep(cfg, st, st', t, w)
          case Fetch(_, _, _, _) => FetchStep(st, st', t, w)
          case NewPages(_, _) => exists got :: NewPagesStep(cfg, st, st', t, w, got)
          case Install(_, _, _) => InstallStep(st, st', t, w)
  }

  predicate Shaped(cfg: Config, st: State) {
    |st.data| == |cfg.move| == |cfg.size| == |cfg.room| && |st.locks| == |st.data| + 1
  }

  predicate InRange(w: Work, classes: nat) {
    && w.c < classes
    && (w.Shrink? ==> w.victim < classes)
    && (w.Release? || w.DeletePages? ==> (w.after.DoneShrink? ==> w.after.cls < classes))
  }

  ghost predicate Next(cfg: Config, st: State, st': State, t: Tid)
    requires Shaped(cfg, st)
  {
    || (exists c, chain :: CallInsert(st, st', t, c, chain))
    || (exists c, n :: CallRemove(st, st', t, c, n))
    || CallFork(st, st', t)
    || Acquire(st, st', t)
    || WorkStep(cfg, st, st', t)
    || ForkLock(st, st', t)
    || ForkTurn(st, st', t)
    || ForkUnlock(st, st', t)
  }
}
