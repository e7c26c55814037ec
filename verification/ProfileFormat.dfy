/** The slots that the CPU profiler writes (profiledata.cc): a header, one record for each evicted entry, and
    an end marker. */
module ProfileFormats {

  import opened Wrappers

  const K_MAX_STACK_DEPTH: nat := 254

  /** A sample with its count; `stack` holds `depth` frames. */
  datatype Record = Record(count: nat, stack: seq<nat>)

  ghost predicate RecordOk(r: Record) {
    r.count > 0 && 0 < |r.stack| <= K_MAX_STACK_DEPTH
  }

  ghost predicate AllOk(rs: seq<Record>) {
    forall i :: 0 <= i < |rs| ==> RecordOk(rs[i])
  }

  function Header(period: nat): seq<nat> { [0, 3, 0, period, 0] }

  function Trailer(): seq<nat> { [0, 1, 0] }

  function Slots(r: Record): seq<nat> { [r.count, |r.stack|] + r.stack }

  function Encode(rs: seq<Record>): seq<nat> {
    if rs == [] then [] else Slots(rs[0]) + Encode(rs[1..])
  }

  /** A whole profile: what comes after the end marker is text that the parse leaves alone. */
  function Profile(period: nat, rs: seq<Record>, text: seq<nat>): seq<nat> {
    Header(period) + Encode(rs) + Trailer() + text
  }

  /** Records up to the end marker, and what is left after it. */
  function ParseRecords(s: seq<nat>): (r: Option<(seq<Record>, seq<nat>)>) {
    if |s| < 2 then None
    else if s[0] == 0 then
      if |s| >= 3 && s[1] == 1 && s[2] == 0 then Some(([], s[3..])) else None
    else if s[1] == 0 || s[1] > K_MAX_STACK_DEPTH || |s| < 2 + s[1] then None
    else
      var rest := ParseRecords(s[2 + s[1]..]);
      if rest == None then None
      else Some(([Record(s[0], s[2..2 + s[1]])] + rest.value.0, rest.value.1))
  }

  function Parse(s: seq<nat>): (r: Option<(nat, seq<Record>, seq<nat>)>) {
    if |s| < 5 || s[0] != 0 || s[1] != 3 || s[2] != 0 || s[4] != 0 then None else
      var rest := ParseRecords(s[5..]);
      if rest == None then None else Some((s[3], rest.value.0, rest.value.1))
  }

  lemma {:induction false} ParseRecordsEncoded(rs: seq<Record>, text: seq<nat>)
    requires AllOk(rs)
    ensures ParseRecords(Encode(rs) + Trailer() + text) == Some((rs, text))
  {
    var s := Encode(rs) + Trailer() + text;
    if rs == [] {
      assert s[3..] == text;
    } else {
      var r, tail := rs[0], Encode(rs[1..]) + Trailer() + text;
      assert RecordOk(r);
      ParseRecordsEncoded(rs[1..], text);
      assert s == Slots(r) + tail;
      assert s[2..2 + s[1]] == r.stack && s[2 + s[1]..] == tail;
      assert [r] + rs[1..] == rs;
    }
  }

  /** Whatever text follows, the slots parse back to the period and the records they were written from. */
  lemma ParseProfile(period: nat, rs: seq<Record>, text: seq<nat>)
    requires AllOk(rs)
    ensures Parse(Profile(period, rs, text)) == Some((period, rs, text))
  {
    var s := Profile(period, rs, text);
    assert s[5..] == Encode(rs) + Trailer() + text;
    ParseRecordsEncoded(rs, text);
  }

  /** No two different contents give the same slots. */
  lemma ProfileUnique(p: nat, rs: seq<Record>, text: seq<nat>, q: nat, qs: seq<Record>, text': seq<nat>)
    requires AllOk(rs) && AllOk(qs) && Profile(p, rs, text) == Profile(q, qs, text')
    ensures p == q && rs == qs && text == text'
  {
    ParseProfile(p, rs, text);
    ParseProfile(q, qs, text');
  }

  /** What a successful parse says about the slots: it accepts nothing but profiles. */
  lemma {:induction false} ParseRecordsSound(s: seq<nat>)
    ensures ParseRecords(s).Some? ==> var (rs, text) := ParseRecords(s).value;
              AllOk(rs) && s == Encode(rs) + Trailer() + text
    decreases |s|
  {
    if ParseRecords(s).Some? {
      var (rs, text) := ParseRecords(s).value;
      if s[0] == 0 {
        assert s == [0, 1, 0] + s[3..];
        assert s == Encode(rs) + Trailer() + text;
      } else {
        ParseRecordsSound(s[2 + s[1]..]);
        ParsedOne(s, rs[0], ParseRecords(s[2 + s[1]..]).value.0, text);
      }
    }
  }

  lemma ParsedOne(s: seq<nat>, r: Record, qs: seq<Record>, text: seq<nat>)
    requires |s| >= 2 && |s| >= 2 + s[1] && r == Record(s[0], s[2..2 + s[1]])
    requires s[2 + s[1]..] == Encode(qs) + Trailer() + text
    ensures s == Encode([r] + qs) + Trailer() + text
  {
    var rest := s[2 + s[1]..];
    assert s == Slots(r) + rest;
    assert ([r] + qs)[1..] == qs;
    assert Slots(r) + (Encode(qs) + Trailer() + text) == Slots(r) + Encode(qs) + Trailer() + text;
  }

  lemma {:induction false} EncodeAppend(rs: seq<Record>, r: Record)
    ensures Encode(rs + [r]) == Encode(rs) + Slots(r)
  {
    if rs == [] {
      assert (rs + [r])[1..] == rs;
    } else {
      assert (rs + [r])[1..] == rs[1..] + [r];
      EncodeAppend(rs[1..], r);
    }
  }
}
