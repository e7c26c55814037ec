/** The sample table of the CPU profiler and its eviction buffer (profiledata.h, profiledata.cc). */
module ProfileDatas {

  import opened Wrappers
  import opened ProfileFormats

  const K_ASSOCIATIVITY: nat := 4
  const K_BUCKETS: nat := 1024
  const K_BUFFER_LENGTH: nat := 262144
  const EMPTY := Record(0, [])
  const EMPTY_BUCKET: seq<Record> := [EMPTY, EMPTY, EMPTY, EMPTY]

  // ------------------------------------------------------------------ what was sampled

  /** How often `stack` was sampled according to one entry, to a list of them, to a table. */
  function CountIn(r: Record, stack: seq<nat>): nat { if r.stack == stack then r.count else 0 }

  function Total(rs: seq<Record>, stack: seq<nat>): nat {
    if rs == [] then 0 else Total(rs[..|rs| - 1], stack) + CountIn(rs[|rs| - 1], stack)
  }

  function TableTotal(t: seq<seq<Record>>, stack: seq<nat>): nat {
    if t == [] then 0 else TableTotal(t[..|t| - 1], stack) + Total(t[|t| - 1], stack)
  }

  lemma TotalAppend(rs: seq<Record>, r: Record, stack: seq<nat>)
    ensures Total(rs + [r], stack) == Total(rs, stack) + CountIn(r, stack)
  {
    assert (rs + [r])[..|rs|] == rs;
  }

  lemma {:induction false} TotalConcat(rs: seq<Record>, qs: seq<Record>, stack: seq<nat>)
    ensures Total(rs + qs, stack) == Total(rs, stack) + Total(qs, stack)
  {
    if qs == [] {
      assert rs + qs == rs;
    } else {
      var n := |qs| - 1;
      assert rs + qs == (rs + qs[..n]) + [qs[n]];
      TotalAppend(rs + qs[..n], qs[n], stack);
      TotalConcat(rs, qs[..n], stack);
    }
  }

  lemma {:induction false} TotalUpdate(rs: seq<Record>, i: nat, r: Record, stack: seq<nat>)
    requires i < |rs|
    ensures Total(rs[i := r], stack) + CountIn(rs[i], stack) == Total(rs, stack) + CountIn(r, stack)
  {
    var n := |rs| - 1;
    if i == n {
      assert rs[i := r][..n] == rs[..n];
    } else {
      assert rs[i := r][..n] == rs[..n][i := r];
      TotalUpdate(rs[..n], i, r, stack);
    }
  }

  lemma {:induction false} TableUpdate(t: seq<seq<Record>>, i: nat, bucket: seq<Record>, stack: seq<nat>)
    requires i < |t|
    ensures TableTotal(t[i := bucket], stack) + Total(t[i], stack) == TableTotal(t, stack) + Total(bucket, stack)
  {
    var n := |t| - 1;
    if i == n {
      assert t[i := bucket][..n] == t[..n];
    } else {
      assert t[i := bucket][..n] == t[..n][i := bucket];
      TableUpdate(t[..n], i, bucket, stack);
    }
  }

  /** The entries in use, in order. */
  function Live(bucket: seq<Record>): seq<Record> {
    if bucket == [] then [] else
      var n := |bucket| - 1;
      Live(bucket[..n]) + if bucket[n].count > 0 then [bucket[n]] else []
  }

  function AllLive(t: seq<seq<Record>>): seq<Record> {
    if t == [] then [] else AllLive(t[..|t| - 1]) + Live(t[|t| - 1])
  }

  lemma {:induction false} LiveTotal(bucket: seq<Record>, stack: seq<nat>)
    ensures Total(Live(bucket), stack) == Total(bucket, stack)
  {
    if bucket != [] {
      var n := |bucket| - 1;
      LiveTotal(bucket[..n], stack);
      if bucket[n].count > 0 {
        TotalAppend(Live(bucket[..n]), bucket[n], stack);
      } else {
        assert Live(bucket) == Live(bucket[..n]);
      }
    }
  }

  lemma {:induction false} AllLiveTotal(t: seq<seq<Record>>, stack: seq<nat>)
    ensures Total(AllLive(t), stack) == TableTotal(t, stack)
  {
    if t != [] {
      var n := |t| - 1;
      AllLiveTotal(t[..n], stack);
      LiveTotal(t[n], stack);
      TotalConcat(AllLive(t[..n]), Live(t[n]), stack);
    }
  }

  // ------------------------------------------------------------------ the table

  /** The hash of a stack on 64 bits: rotate by a byte, add 41 times the frame. */
  function StackHash(stack: seq<nat>): nat {
    if stack == [] then 0 else
      var h, slot := StackHash(stack[..|stack| - 1]), stack[|stack| - 1];
      (h % 0x100_0000_0000_0000 * 256 + h / 0x100_0000_0000_0000 + slot * 31 + slot * 7 + slot * 3) % 0x1_0000_0000_0000_0000
  }

  function Index(stack: seq<nat>): (i: nat)
    ensures i < K_BUCKETS
  {
    StackHash(stack) % K_BUCKETS
  }

  ghost predicate BucketOk(bucket: seq<Record>, b: nat) {
    && |bucket| == K_ASSOCIATIVITY
    && (forall a :: 0 <= a < |bucket| ==> bucket[a] == EMPTY || (RecordOk(bucket[a]) && Index(bucket[a].stack) == b))
    && (forall a, c :: 0 <= a < c < |bucket| && bucket[a] != EMPTY ==> bucket[a].stack != bucket[c].stack)
  }

  ghost predicate TableOk(t: seq<seq<Record>>) {
    |t| == K_BUCKETS && forall b {:trigger BucketOk(t[b], b)} :: 0 <= b < |t| ==> BucketOk(t[b], b)
  }

  lemma {:induction false} LiveOk(bucket: seq<Record>)
    requires forall a :: 0 <= a < |bucket| ==> bucket[a] == EMPTY || RecordOk(bucket[a])
    ensures AllOk(Live(bucket))
  {
    if bucket != [] { LiveOk(bucket[..|bucket| - 1]); }
  }

  /** Where a sample goes in its bucket: the entry of its stack, or the first of those with the smallest
      count. */
  ghost predicate Chosen(bucket: seq<Record>, stack: seq<nat>, a: nat, hit: bool) {
    && a < |bucket|
    && (hit ==> bucket[a].stack == stack)
    && (!hit ==> && (forall c :: 0 <= c < |bucket| ==> bucket[c].stack != stack)
                 && (forall c :: 0 <= c < |bucket| ==> bucket[a].count <= bucket[c].count)
                 && (forall c :: 0 <= c < a ==> bucket[a].count < bucket[c].count))
  }

  function Sampled(bucket: seq<Record>, stack: seq<nat>, a: nat, hit: bool): seq<Record>
    requires a < |bucket|
  {
    bucket[a := if hit then bucket[a].(count := bucket[a].count + 1) else Record(1, stack)]
  }

  /** One more sample is counted in the bucket, and an entry that makes room leaves with its count. */
  lemma SampledTotal(bucket: seq<Record>, stack: seq<nat>, a: nat, hit: bool, other: seq<nat>)
    requires Chosen(bucket, stack, a, hit)
    ensures Total(Sampled(bucket, stack, a, hit), other) + (if hit then 0 else CountIn(bucket[a], other))
            == Total(bucket, other) + (if other == stack then 1 else 0)
  {
    TotalUpdate(bucket, a, Sampled(bucket, stack, a, hit)[a], other);
  }

  lemma SampledOk(bucket: seq<Record>, b: nat, stack: seq<nat>, a: nat, hit: bool)
    requires BucketOk(bucket, b) && Chosen(bucket, stack, a, hit) && 0 < |stack| <= K_MAX_STACK_DEPTH && Index(stack) == b
    ensures BucketOk(Sampled(bucket, stack, a, hit), b)
  {
  }

  // ------------------------------------------------------------------ file and buffer

  /** The file and the buffer together are the header and whole records; the file alone is empty or ends
      between two records. */
  ghost predicate Written(file: seq<nat>, pending: seq<nat>, period: nat, records: seq<Record>, flushed: nat) {
    && AllOk(records) && flushed <= |records|
    && file + pending == Header(period) + Encode(records)
    && (file == [] || file == Header(period) + Encode(records[..flushed]))
  }

  lemma WrittenFlush(file: seq<nat>, pending: seq<nat>, period: nat, records: seq<Record>, flushed: nat)
    requires Written(file, pending, period, records, flushed)
    ensures Written(file + pending, [], period, records, |records|)
  {
    assert records[..|records|] == records;
    assert file + pending + [] == file + pending;
  }

  lemma WrittenAppend(file: seq<nat>, pending: seq<nat>, period: nat, records: seq<Record>, flushed: nat, r: Record)
    requires Written(file, pending, period, records, flushed) && RecordOk(r)
    ensures Written(file, pending + Slots(r), period, records + [r], flushed)
  {
    EncodeAppend(records, r);
    assert file + (pending + Slots(r)) == file + pending + Slots(r);
    assert Header(period) + Encode(records + [r]) == Header(period) + Encode(records) + Slots(r);
    assert (records + [r])[..flushed] == records[..flushed];
  }

  lemma WrittenStart(period: nat, records: seq<Record>)
    requires |records| == 0
    ensures Written([], Header(period), period, records, 0)
  {
    assert Encode(records) == [];
    assert [] + Header(period) == Header(period) + Encode(records);
  }

  /** Every sample is in a record or in the table. */
  ghost predicate Accounted(records: seq<Record>, table: seq<seq<Record>>, samples: multiset<seq<nat>>) {
    forall stack: seq<nat> {:trigger samples[stack]} :: samples[stack] == Total(records, stack) + TableTotal(table, stack)
  }

  class ProfileData {
    var hash: array<seq<Record>>
    var evict: array<nat>
    var numEvicted: nat
    var enabled: bool
    var file: seq<nat>
    var count: nat
    var evictions: nat
    var totalSlots: nat
    ghost var period: nat
    ghost var records: seq<Record>
    ghost var flushed: nat
    ghost var samples: multiset<seq<nat>>

    ghost function Pending(): seq<nat>
      requires numEvicted <= evict.Length
      reads this, evict
    {
      evict[..numEvicted]
    }

    /** The buffer part. */
    ghost predicate BufferOk()
      reads this, evict
    {
      && evict.Length == K_BUFFER_LENGTH && numEvicted <= K_BUFFER_LENGTH
      && Written(file, Pending(), period, records, flushed)
      && totalSlots == |file|
    }

    ghost predicate Valid()
      reads this, evict, hash
    {
      enabled ==> BufferOk() && TableOk(hash[..]) && Accounted(records, hash[..], samples) && count == |samples|
    }

    constructor ()
      ensures Valid() && !enabled && file == [] && fresh(hash) && fresh(evict)
    {
      hash, evict := new seq<Record>[0], new nat[0];
      numEvicted, enabled, file, count, evictions, totalSlots := 0, false, [], 0, 0, 0;
    }

    /** Writes what is pending to the file. */
    method FlushEvicted()
      requires numEvicted <= evict.Length && totalSlots == |file|
      modifies this`file, this`numEvicted, this`totalSlots
      ensures numEvicted == 0 && file == old(file + Pending()) && totalSlots == |file|
    {
      if numEvicted > 0 {
        totalSlots := totalSlots + numEvicted;
        file := file + evict[..numEvicted];
      } else {
        assert file + Pending() == file;
      }
      numEvicted := 0;
    }

    /** A flush between whole records. */
    method FlushRecords()
      requires BufferOk()
      modifies this`file, this`numEvicted, this`flushed, this`totalSlots
      ensures BufferOk() && numEvicted == 0 && file == old(file + Pending()) && file == Header(period) + Encode(records)
    {
      WrittenFlush(file, Pending(), period, records, flushed);
      FlushEvicted();
      flushed := |records|;
      assert Pending() == [];
    }

    /** The slots of one entry behind what is pending. */
    method Append(e: Record)
      requires evict.Length == K_BUFFER_LENGTH && numEvicted + |e.stack| + 2 <= K_BUFFER_LENGTH
      modifies this`numEvicted, evict
      ensures numEvicted == old(numEvicted) + |e.stack| + 2 && Pending() == old(Pending()) + Slots(e)
    {
      var d := |e.stack|;
      evict[numEvicted] := e.count;
      evict[numEvicted + 1] := d;
      forall i | 0 <= i < d { evict[numEvicted + 2 + i] := e.stack[i]; }
      numEvicted := numEvicted + 2 + d;
    }

    /** Moves one entry to the buffer, after a flush when there is no room for all of it. */
    method Evict(e: Record)
      requires BufferOk() && RecordOk(e)
      modifies this`file, this`numEvicted, this`flushed, this`totalSlots, this`records, evict
      ensures BufferOk() && records == old(records) + [e]
      ensures file == if old(numEvicted) + |e.stack| + 2 > K_BUFFER_LENGTH then old(file + Pending()) else old(file)
    {
      if numEvicted + |e.stack| + 2 > K_BUFFER_LENGTH {
        FlushRecords();
      }
      WrittenAppend(file, Pending(), period, records, flushed, e);
      Append(e);
      records := records + [e];
    }

    /** Starts a profile; `opens` says whether the file can be opened. */
    method Start(opens: bool, frequency: nat) returns (ok: bool)
      requires Valid() && (enabled || !opens || frequency != 0)
      modifies this
      ensures Valid() && ok == (!old(enabled) && opens) && (ok ==> frequency != 0)
      ensures ok ==> enabled && fresh(hash) && fresh(evict) && samples == multiset{} && period == 1000000 / frequency && file == []
      ensures !ok ==> unchanged(this)
    {
      if enabled || !opens { return false; }
      ghost var none: seq<Record> :| |none| == 0;
      var table := NewTable(none);
      var buffer := NewBuffer(1000000 / frequency, none);
      Install(table, buffer, 1000000 / frequency, none);
      return true;
    }

    /** The fields of a profile that starts with an empty table and the header in the buffer. */
    method Install(table: array<seq<Record>>, buffer: array<nat>, every: nat, ghost none: seq<Record>)
      requires |none| == 0 && TableOk(table[..]) && Accounted(none, table[..], multiset{})
      requires buffer.Length == K_BUFFER_LENGTH && Written([], buffer[..5], every, none, 0)
      modifies this
      ensures enabled && Valid() && hash == table && evict == buffer && samples == multiset{} && period == every && file == []
    {
      count, evictions, totalSlots := 0, 0, 0;
      hash, evict, numEvicted := table, buffer, 5;
      file, enabled, period := [], true, every;
      records, flushed, samples := none, 0, multiset{};
    }

    static method NewTable(ghost records: seq<Record>) returns (table: array<seq<Record>>)
      requires |records| == 0
      ensures fresh(table) && TableOk(table[..]) && Accounted(records, table[..], multiset{})
    {
      table := new seq<Record>[K_BUCKETS](_ => EMPTY_BUCKET);
      EmptyTable(table[..], records);
    }

    /** A buffer with the header in it. */
    static method NewBuffer(period: nat, ghost records: seq<Record>) returns (buffer: array<nat>)
      requires |records| == 0
      ensures fresh(buffer) && buffer.Length == K_BUFFER_LENGTH && Written([], buffer[..5], period, records, 0)
    {
      buffer := new nat[K_BUFFER_LENGTH];
      buffer[0], buffer[1], buffer[2], buffer[3], buffer[4] := 0, 3, 0, period, 0;
      assert buffer[..5] == Header(period);
      WrittenStart(period, records);
    }

    /** The entry that a sample goes to: the one with its stack, or the first with the smallest count. */
    static method Choose(bucket: seq<Record>, stack: seq<nat>) returns (a: nat, hit: bool)
      requires |bucket| == K_ASSOCIATIVITY
      ensures Chosen(bucket, stack, a, hit)
    {
      a := 0;
      while a < K_ASSOCIATIVITY
        invariant a <= K_ASSOCIATIVITY && forall c :: 0 <= c < a ==> bucket[c].stack != stack
      {
        if bucket[a].stack == stack { return a, true; }
        a := a + 1;
      }
      a, hit := 0, false;
      var c := 1;
      while c < K_ASSOCIATIVITY
        invariant a < c <= K_ASSOCIATIVITY
        invariant forall x :: 0 <= x < c ==> bucket[a].count <= bucket[x].count
        invariant forall x :: 0 <= x < a ==> bucket[a].count < bucket[x].count
      {
        if bucket[c].count < bucket[a].count { a := c; }
        c := c + 1;
      }
    }

    /** The table and the buffer after one sample. */
    method Place(trace: seq<nat>, b: nat) returns (a: nat, hit: bool)
      requires BufferOk() && TableOk(hash[..]) && b < K_BUCKETS
      modifies this`file, this`numEvicted, this`flushed, this`totalSlots, this`records, this`evictions, evict, hash
      ensures BufferOk() && Chosen(old(hash[b]), trace, a, hit)
      ensures hash[..] == old(hash[..])[b := Sampled(old(hash[b]), trace, a, hit)]
      ensures records == if !hit && old(hash[b])[a].count > 0 then old(records) + [old(hash[b])[a]] else old(records)
    {
      var bucket := hash[b];
      assert BucketOk(hash[..][b], b);
      a, hit := Choose(bucket, trace);
      if !hit && bucket[a].count > 0 {
        evictions := evictions + 1;
        Evict(bucket[a]);
      }
      hash[b] := Sampled(bucket, trace, a, hit);
    }

    /** Records one sample, at most 254 frames of it. While a profile is taken an empty stack stops the
        program. */
    method Add(stack: seq<nat>)
      requires Valid() && (enabled ==> |stack| > 0)
      modifies this`file, this`numEvicted, this`flushed, this`totalSlots, this`records, this`samples, this`count, this`evictions, evict, hash
      ensures Valid()
      ensures enabled ==> samples == old(samples) + multiset{if |stack| <= 254 then stack else stack[..254]}
      ensures !enabled ==> unchanged(this) && unchanged(hash) && unchanged(evict)
    {
      if !enabled { return; }
      var trace := Truncated(stack);
      count := count + 1;
      var a, hit := Place(trace, Index(trace));
      assert TableOk(hash[..]) && Accounted(records, hash[..], samples + multiset{trace}) by {
        AddKeeps(old(records), old(hash[..]), samples, Index(trace), trace, a, hit);
      }
      samples := samples + multiset{trace};
    }

    /** Moves the entries of a bucket that are in use to the buffer. */
    method EvictBucket(bucket: seq<Record>)
      requires BufferOk() && forall a :: 0 <= a < |bucket| ==> bucket[a] == EMPTY || RecordOk(bucket[a])
      modifies this`file, this`numEvicted, this`flushed, this`totalSlots, this`records, evict
      ensures BufferOk() && records == old(records) + Live(bucket)
    {
      var a := 0;
      LiveNone(records, bucket);
      while a < |bucket|
        invariant a <= |bucket| && BufferOk() && records == old(records) + Live(bucket[..a])
      {
        LiveStep(old(records), bucket, a);
        if bucket[a].count > 0 { Evict(bucket[a]); }
        a := a + 1;
      }
      assert bucket[..a] == bucket;
    }

    method EvictAt(b: nat, clear: bool)
      requires BufferOk() && b < hash.Length && BucketOk(hash[b], b)
      modifies this`file, this`numEvicted, this`flushed, this`totalSlots, this`records, evict, hash
      ensures BufferOk() && records == old(records) + Live(old(hash[b]))
      ensures hash[b] == if clear then EMPTY_BUCKET else old(hash[b])
      ensures forall c :: 0 <= c < hash.Length && c != b ==> hash[c] == old(hash[c])
    {
      EvictBucket(hash[b]);
      if clear { hash[b] := EMPTY_BUCKET; }
    }

    /** Moves the whole table to the buffer; empties it when `clear` is set. */
    method EvictTable(clear: bool)
      requires BufferOk() && TableOk(hash[..])
      modifies this`file, this`numEvicted, this`flushed, this`totalSlots, this`records, evict, hash
      ensures BufferOk() && records == old(records) + AllLive(old(hash[..]))
      ensures clear ==> forall b :: 0 <= b < hash.Length ==> hash[b] == EMPTY_BUCKET
      ensures !clear ==> hash[..] == old(hash[..])
    {
      ghost var t, before := hash[..], records;
      var b := 0;
      assert records == before + AllLive(t[..0]);
      while b < K_BUCKETS
        invariant b <= K_BUCKETS && BufferOk() && records == before + AllLive(t[..b])
        invariant forall c :: 0 <= c < b ==> hash[c] == if clear then EMPTY_BUCKET else t[c]
        invariant forall c :: b <= c < K_BUCKETS ==> hash[c] == t[c]
      {
        assert BucketOk(t[b], b);
        EvictAt(b, clear);
        NextLive(before, t, b);
        b := b + 1;
      }
      assert t[..b] == t;
    }

    /** Writes everything out and leaves the table empty. */
    method FlushTable()
      requires Valid()
      modifies this`file, this`numEvicted, this`flushed, this`totalSlots, this`records, evict, hash
      ensures Valid()
      ensures enabled ==> file == Header(period) + Encode(records) && forall stack :: Total(records, stack) == samples[stack]
      ensures !enabled ==> unchanged(this) && unchanged(hash) && unchanged(evict)
    {
      if !enabled { return; }
      EvictTable(true);
      FlushKeeps(old(records), old(hash[..]), samples, hash[..]);
      FlushRecords();
    }

    /** The end marker, in the buffer with what is pending, and the last flush. */
    method WriteTrailer()
      requires BufferOk()
      modifies this`file, this`numEvicted, this`flushed, this`totalSlots, evict
      ensures file == Profile(period, records, []) && totalSlots == |file|
    {
      if numEvicted + 3 > K_BUFFER_LENGTH { FlushRecords(); }
      ghost var pending := Pending();
      evict[numEvicted], evict[numEvicted + 1], evict[numEvicted + 2] := 0, 1, 0;
      numEvicted := numEvicted + 3;
      assert Pending() == pending + Trailer();
      FlushEvicted();
      assert file == Header(period) + Encode(records) + Trailer();
    }

    /** Ends a profile: everything is written, then the end marker. */
    method Stop()
      requires Valid()
      modifies this, evict, hash
      ensures Valid() && !enabled
      ensures old(enabled) ==> && file == Profile(old(period), records, []) && AllOk(records)
                               && forall stack :: Total(records, stack) == old(samples)[stack]
      ensures old(enabled) ==> fresh(hash) && fresh(evict)
      ensures !old(enabled) ==> unchanged(this)
    {
      if !enabled { return; }
      AllWritten(records, hash[..], samples);
      EvictTable(false);
      WriteTrailer();
      Reset();
    }

    /** Gives up table and buffer without writing anything else; the counters stay for Stop to report. */
    method Reset()
      modifies this`enabled, this`numEvicted, this`hash, this`evict
      ensures !enabled
      ensures old(enabled) ==> numEvicted == 0 && hash.Length == 0 && evict.Length == 0 && fresh(hash) && fresh(evict)
      ensures !old(enabled) ==> unchanged(this)
    {
      if !enabled { return; }
      hash, evict := new seq<Record>[0], new nat[0];
      numEvicted, enabled := 0, false;
    }
  }

  function Truncated(stack: seq<nat>): seq<nat> {
    if |stack| > K_MAX_STACK_DEPTH then stack[..K_MAX_STACK_DEPTH] else stack
  }

  /** One more sample of `trace`, in the table or with the evicted entry in the records. */
  lemma AddKeeps(records: seq<Record>, t: seq<seq<Record>>, samples: multiset<seq<nat>>, b: nat, trace: seq<nat>, a: nat, hit: bool)
    requires TableOk(t) && Accounted(records, t, samples) && b == Index(trace) && 0 < |trace| <= K_MAX_STACK_DEPTH
    requires Chosen(t[b], trace, a, hit)
    ensures var t' := t[b := Sampled(t[b], trace, a, hit)];
            && TableOk(t')
            && Accounted(if !hit && t[b][a].count > 0 then records + [t[b][a]] else records, t', samples + multiset{trace})
  {
    var t' := t[b := Sampled(t[b], trace, a, hit)];
    var records' := if !hit && t[b][a].count > 0 then records + [t[b][a]] else records;
    SampledOk(t[b], b, trace, a, hit);
    forall stack: seq<nat> ensures (samples + multiset{trace})[stack] == Total(records', stack) + TableTotal(t', stack) {
      assert samples[stack] == Total(records, stack) + TableTotal(t, stack);
      TotalAppend(records, t[b][a], stack);
      SampledTotal(t[b], trace, a, hit, stack);
      TableUpdate(t, b, Sampled(t[b], trace, a, hit), stack);
    }
  }

  lemma LiveNone(before: seq<Record>, bucket: seq<Record>)
    ensures before == before + Live(bucket[..0])
  {
  }

  lemma LiveStep(before: seq<Record>, bucket: seq<Record>, a: nat)
    requires a < |bucket|
    ensures before + Live(bucket[..a + 1])
            == if bucket[a].count > 0 then before + Live(bucket[..a]) + [bucket[a]] else before + Live(bucket[..a])
  {
    assert bucket[..a + 1][..a] == bucket[..a];
  }

  lemma NextLive(before: seq<Record>, t: seq<seq<Record>>, b: nat)
    requires b < |t|
    ensures before + AllLive(t[..b]) + Live(t[b]) == before + AllLive(t[..b + 1])
  {
    assert t[..b + 1][..b] == t[..b];
  }

  lemma AllWritten(before: seq<Record>, t: seq<seq<Record>>, samples: multiset<seq<nat>>)
    requires Accounted(before, t, samples)
    ensures forall stack :: Total(before + AllLive(t), stack) == samples[stack]
  {
    forall stack ensures Total(before + AllLive(t), stack) == samples[stack] {
      assert samples[stack] == Total(before, stack) + TableTotal(t, stack);
      AllLiveTotal(t, stack);
      TotalConcat(before, AllLive(t), stack);
    }
  }

  lemma FlushKeeps(before: seq<Record>, t: seq<seq<Record>>, samples: multiset<seq<nat>>, t': seq<seq<Record>>)
    requires Accounted(before, t, samples) && |t'| == K_BUCKETS && forall b :: 0 <= b < |t'| ==> t'[b] == EMPTY_BUCKET
    ensures TableOk(t') && Accounted(before + AllLive(t), t', samples)
    ensures forall stack :: Total(before + AllLive(t), stack) == samples[stack]
  {
    AllWritten(before, t, samples);
    forall stack: seq<nat> ensures samples[stack] == Total(before + AllLive(t), stack) + TableTotal(t', stack) { EmptyTotal(t', stack); }
  }

  lemma EmptyTable(t: seq<seq<Record>>, records: seq<Record>)
    requires |t| == K_BUCKETS && |records| == 0 && forall b :: 0 <= b < |t| ==> t[b] == EMPTY_BUCKET
    ensures TableOk(t) && Accounted(records, t, multiset{})
  {
    forall stack: seq<nat> ensures Total(records, stack) + TableTotal(t, stack) == 0 { EmptyTotal(t, stack); }
  }

  lemma {:induction false} EmptyTotal(t: seq<seq<Record>>, stack: seq<nat>)
    requires forall b :: 0 <= b < |t| ==> t[b] == EMPTY_BUCKET
    ensures TableTotal(t, stack) == 0
  {
    if t != [] {
      EmptyTotal(t[..|t| - 1], stack);
      var bucket := t[|t| - 1];
      NoCounts(bucket, stack);
    }
  }

  lemma {:induction false} NoCounts(bucket: seq<Record>, stack: seq<nat>)
    requires forall a :: 0 <= a < |bucket| ==> bucket[a].count == 0
    ensures Total(bucket, stack) == 0
  {
    if bucket != [] { NoCounts(bucket[..|bucket| - 1], stack); }
  }

  /** What Stop leaves in the file parses, whatever text follows it, as records whose counts add up to the
      number of samples of each stack. */
  lemma StoppedProfileParses(file: seq<nat>, period: nat, records: seq<Record>, samples: multiset<seq<nat>>, text: seq<nat>)
    requires file == Profile(period, records, []) && AllOk(records) && forall stack :: Total(records, stack) == samples[stack]
    ensures Parse(file + text).Some?
    ensures var (p, rs, rest) := Parse(file + text).value;
            p == period && rest == text && forall stack :: Total(rs, stack) == samples[stack]
  {
    assert file + text == Profile(period, records, text);
    ParseProfile(period, records, text);
  }
}
