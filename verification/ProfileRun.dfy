/** Whole runs of the CPU profiler's collector: every finished file counts exactly the samples taken between
    its Start and its Stop. */
module ProfileRuns {

  import opened Wrappers
  import opened ProfileFormats
  import opened ProfileDatas

  datatype Op =
    | Start(opens: bool, frequency: nat)
    | Sample(stack: seq<nat>)
    | Flush
    | Stop
    | Reset

  /** Zero frequencies and empty stacks stop the original. */
  predicate Sensible(op: Op) {
    (op.Start? ==> op.frequency != 0) && (op.Sample? ==> op.stack != [])
  }

  /** What the operations mean without any table, buffer or file: a profile is off, or on with the samples
      taken so far. */
  datatype Session = Off | On(period: nat, taken: seq<seq<nat>>)

  function Next(now: Session, op: Op): Session
    requires Sensible(op)
  {
    match op
    case Start(opens, frequency) => if now.Off? && opens then On(1000000 / frequency, []) else now
    case Sample(stack) =>
      if now.On? then now.(taken := now.taken + [if |stack| <= 254 then stack else stack[..254]]) else now
    case Flush => now
    case Stop => Off
    case Reset => Off
  }

  predicate AllSensible(ops: seq<Op>) {
    forall i :: 0 <= i < |ops| ==> Sensible(ops[i])
  }

  function SessionAfter(ops: seq<Op>): Session
    requires AllSensible(ops)
  {
    if ops == [] then Off else Next(SessionAfter(ops[..|ops| - 1]), ops[|ops| - 1])
  }

  /** The profiles that were stopped, in order. */
  function Finished(ops: seq<Op>): seq<Session>
    requires AllSensible(ops)
  {
    if ops == [] then [] else
      var n := |ops| - 1;
      var now := SessionAfter(ops[..n]);
      Finished(ops[..n]) + if ops[n].Stop? && now.On? then [now] else []
  }

  /** The file parses, whatever text follows it, as records that count the samples of the session. */
  ghost predicate ReadsAs(file: seq<nat>, done: Session) {
    done.On? && forall text: seq<nat> {:trigger Counts(file, text, done)} :: Counts(file, text, done)
  }

  ghost predicate Counts(file: seq<nat>, text: seq<nat>, done: Session)
    requires done.On?
  {
    && Parse(file + text).Some?
    && var (period, records, rest) := Parse(file + text).value;
       period == done.period && rest == text && forall stack :: Total(records, stack) == multiset(done.taken)[stack]
  }

  /** The collector stands for the session. */
  ghost predicate StandsFor(data: ProfileData, now: Session)
    reads data, data.hash, data.evict
  {
    && data.Valid() && (data.enabled <==> now.On?)
    && (now.On? ==> data.period == now.period && data.samples == multiset(now.taken))
  }

  lemma StoppedReads(file: seq<nat>, records: seq<Record>, samples: multiset<seq<nat>>, done: Session)
    requires done.On? && file == Profile(done.period, records, []) && AllOk(records) && samples == multiset(done.taken)
    requires forall stack :: Total(records, stack) == samples[stack]
    ensures ReadsAs(file, done)
  {
    forall text: seq<nat> ensures Counts(file, text, done) { StoppedProfileParses(file, done.period, records, samples, text); }
  }

  method StepStart(data: ProfileData, opens: bool, frequency: nat, ghost now: Session)
    requires StandsFor(data, now) && frequency != 0
    modifies data
    ensures StandsFor(data, Next(now, Start(opens, frequency)))
    ensures data.hash == old(data.hash) || fresh(data.hash)
    ensures data.evict == old(data.evict) || fresh(data.evict)
  {
    var ok := data.Start(opens, frequency);
    assert ok ==> data.samples == multiset([]);
  }

  method StepSample(data: ProfileData, stack: seq<nat>, ghost now: Session)
    requires StandsFor(data, now) && stack != []
    modifies data, data.hash, data.evict
    ensures StandsFor(data, Next(now, Sample(stack))) && data.hash == old(data.hash) && data.evict == old(data.evict)
  {
    data.Add(stack);
    ghost var trace := if |stack| <= 254 then stack else stack[..254];
    assert now.On? ==> multiset(now.taken + [trace]) == multiset(now.taken) + multiset{trace};
  }

  method StepStop(data: ProfileData, ghost now: Session) returns (file: Option<seq<nat>>)
    requires StandsFor(data, now)
    modifies data, data.hash, data.evict
    ensures StandsFor(data, Off)
    ensures data.hash == old(data.hash) || fresh(data.hash)
    ensures data.evict == old(data.evict) || fresh(data.evict)
    ensures file.Some? <==> now.On?
    ensures file.Some? ==> ReadsAs(file.value, now)
  {
    if !data.enabled { return None; }
    ghost var samples := data.samples;
    data.Stop();
    StoppedReads(data.file, data.records, samples, now);
    file := Some(data.file);
  }

  /** One operation; a profile that ends leaves its file. */
  method Step(data: ProfileData, op: Op, ghost now: Session) returns (file: Option<seq<nat>>)
    requires Sensible(op) && StandsFor(data, now)
    modifies data, data.hash, data.evict
    ensures StandsFor(data, Next(now, op))
    ensures data.hash == old(data.hash) || fresh(data.hash)
    ensures data.evict == old(data.evict) || fresh(data.evict)
    ensures file.Some? <==> op.Stop? && now.On?
    ensures file.Some? ==> ReadsAs(file.value, now)
  {
    file := None;
    match op
    case Start(opens, frequency) => StepStart(data, opens, frequency, now);
    case Sample(stack) => StepSample(data, stack, now);
    case Flush => data.FlushTable();
    case Stop => file := StepStop(data, now);
    case Reset => data.Reset();
  }

  /** Any run of operations on a new collector: the finished files are those of the finished profiles. */
  method Run(ops: seq<Op>) returns (files: seq<seq<nat>>)
    requires AllSensible(ops)
    ensures |files| == |Finished(ops)| && forall i :: 0 <= i < |files| ==> ReadsAs(files[i], Finished(ops)[i])
  {
    var data := new ProfileData();
    files := [];
    for i := 0 to |ops|
      invariant fresh(data) && fresh(data.hash) && fresh(data.evict)
      invariant StandsFor(data, SessionAfter(ops[..i]))
      invariant |files| == |Finished(ops[..i])| && forall j :: 0 <= j < |files| ==> ReadsAs(files[j], Finished(ops[..i])[j])
    {
      assert ops[..i + 1][..i] == ops[..i];
      var file := Step(data, ops[i], SessionAfter(ops[..i]));
      if file.Some? { files := files + [file.value]; }
    }
    assert ops[..|ops|] == ops;
  }
}
