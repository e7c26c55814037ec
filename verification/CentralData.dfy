/** Per-size-class data of the central cache (central_freelist.h) and the operations done under its lock. */
module CentralData {
  import opened Collections

  type Obj = nat
  type SpanId = nat

  /** A span carved into objects: where it lies, all of its objects, the free ones, and how many are
      handed out. */
  datatype ObjSpan = ObjSpan(cls: nat, start: nat, bytes: nat, objs: seq<Obj>, free: seq<Obj>, refcount: int)

  type SpanTable = map<SpanId, ObjSpan>

  /** The fields of CentralFreeList; `slots` is tc_slots_ up to used_slots_. */
  datatype ClassData = ClassData(nonempty: seq<SpanId>, empty: seq<SpanId>, numSpans: int, counter: int,
                                 slots: seq<seq<Obj>>, cacheSize: int, maxCacheSize: int)

  function Elements<T>(q: seq<T>): set<T> {
    set x | x in q
  }

  /** Free objects on the spans of a list. */
  ghost function FreeCount(q: seq<SpanId>, t: SpanTable): nat {
    if q == [] then 0 else (if q[0] in t then |t[q[0]].free| else 0) + FreeCount(q[1..], t)
  }

  lemma {:induction false} FreeCountSame(q: seq<SpanId>, t: SpanTable, t': SpanTable)
    requires forall s :: s in q ==> (s in t <==> s in t') && (s in t ==> t'[s].free == t[s].free)
    ensures FreeCount(q, t') == FreeCount(q, t)
  {
    if q != [] {
      assert q[0] in q;
      FreeCountSame(q[1..], t, t');
    }
  }

  lemma {:induction false} FreeCountUpdate(q: seq<SpanId>, t: SpanTable, s: SpanId, x: ObjSpan)
    requires Distinct(q) && s in q && s in t
    ensures FreeCount(q, t[s := x]) == FreeCount(q, t) - |t[s].free| + |x.free|
  {
    if q[0] == s {
      FreeCountSame(q[1..], t, t[s := x]);
    } else {
      FreeCountUpdate(q[1..], t, s, x);
    }
  }

  lemma {:induction false} FreeCountWithout(q: seq<SpanId>, t: SpanTable, s: SpanId)
    requires Distinct(q) && s in q && s in t
    ensures FreeCount(Without(q, s), t) == FreeCount(q, t) - |t[s].free|
  {
    if q[0] != s {
      FreeCountWithout(q[1..], t, s);
      assert Without(q, s)[1..] == Without(q[1..], s);
    }
  }

  // ------------------------------------------------------------------ invariant of one class

  /** Free and handed-out objects make up the span. */
  ghost predicate SpanOk(x: ObjSpan) {
    && Distinct(x.objs) && Distinct(x.free)
    && (forall o :: o in x.free ==> o in x.objs)
    && |x.free| + x.refcount == |x.objs| && |x.objs| > 0
  }

  /** The lists of class `c` hold exactly its spans, those in `hands` aside: a span is on nonempty_
      exactly when it has a free object, and counter_ counts the free objects. */
  ghost predicate ClassOk(d: ClassData, t: SpanTable, c: nat, hands: set<SpanId>) {
    && Distinct(d.nonempty) && Distinct(d.empty)
    && (forall s :: s in d.nonempty <==> s in t && t[s].cls == c && s !in hands && t[s].free != [])
    && (forall s :: s in d.empty <==> s in t && t[s].cls == c && s !in hands && t[s].free == [])
    && d.counter == FreeCount(d.nonempty, t)
    && d.numSpans == |d.nonempty| + |d.empty|
  }

  /** Transfer slots: bounded, and every used slot holds a chain of exactly `move` objects. */
  ghost predicate SlotsOk(d: ClassData, move: nat) {
    && 0 <= |d.slots| <= d.cacheSize <= d.maxCacheSize
    && (forall i :: 0 <= i < |d.slots| ==> |d.slots[i]| == move && Distinct(d.slots[i]))
  }

  // ------------------------------------------------------------------ FetchFromOneSpans

  /** The first nonempty span gives its first `m` free objects. */
  function FetchedSpan(x: ObjSpan, m: nat): ObjSpan
    requires m <= |x.free|
  {
    x.(free := x.free[m..], refcount := x.refcount + m)
  }

  function FetchedClass(d: ClassData, t: SpanTable, m: nat): ClassData
    requires d.nonempty != [] && d.nonempty[0] in t && m <= |t[d.nonempty[0]].free|
  {
    var s := d.nonempty[0];
    var d' := d.(counter := d.counter - m);
    if m == |t[s].free| then d'.(nonempty := Without(d.nonempty, s), empty := [s] + d.empty) else d'
  }

  lemma FetchedOk(x: ObjSpan, m: nat)
    requires SpanOk(x) && m <= |x.free|
    ensures SpanOk(FetchedSpan(x, m))
    ensures Elements(FetchedSpan(x, m).free) + Elements(x.free[..m]) == Elements(x.free)
    ensures Elements(FetchedSpan(x, m).free) !! Elements(x.free[..m])
    ensures Distinct(x.free[..m])
  {
    assert x.free == x.free[..m] + x.free[m..];
  }

  lemma FetchedClassOk(d: ClassData, t: SpanTable, c: nat, hands: set<SpanId>, m: nat)
    requires ClassOk(d, t, c, hands) && d.nonempty != [] && 0 < m <= |t[d.nonempty[0]].free|
    ensures var s := d.nonempty[0]; ClassOk(FetchedClass(d, t, m), t[s := FetchedSpan(t[s], m)], c, hands)
  {
    var s := d.nonempty[0];
    var t' := t[s := FetchedSpan(t[s], m)];
    FreeCountUpdate(d.nonempty, t, s, t'[s]);
    if m == |t[s].free| {
      WithoutSpec(d.nonempty, s);
      FreeCountWithout(d.nonempty, t', s);
    }
  }

  /** A class is untouched by a change to a span of another class. */
  lemma OtherClassOk(d: ClassData, t: SpanTable, t': SpanTable, c: nat, hands: set<SpanId>)
    requires ClassOk(d, t, c, hands)
    requires forall s :: s in t' && t'[s].cls == c ==> s in t && t[s] == t'[s]
    requires forall s :: s in t && t[s].cls == c ==> s in t'  && t[s] == t'[s]
    ensures ClassOk(d, t', c, hands)
  {
    FreeCountSame(d.nonempty, t, t');
  }

  // ------------------------------------------------------------------ ReleaseToSpans

  /** An object comes back to a span that has others outstanding. */
  function ReturnedSpan(x: ObjSpan, o: Obj): ObjSpan {
    x.(free := [o] + x.free, refcount := x.refcount - 1)
  }

  function ReturnedClass(d: ClassData, x: ObjSpan, s: SpanId): ClassData {
    var d' := d.(counter := d.counter + 1);
    if x.free == [] then d'.(empty := Without(d.empty, s), nonempty := [s] + d.nonempty) else d'
  }

  lemma ReturnedOk(x: ObjSpan, o: Obj)
    requires SpanOk(x) && o in x.objs && o !in x.free
    ensures SpanOk(ReturnedSpan(x, o))
    ensures Elements(ReturnedSpan(x, o).free) == Elements(x.free) + {o}
  {
  }

  /** The object that came back last goes out first, and leaves the span as it was. */
  lemma FetchUndoesReturn(x: ObjSpan, o: Obj)
    ensures ReturnedSpan(x, o).free[..1] == [o] && FetchedSpan(ReturnedSpan(x, o), 1) == x
  {
    assert ([o] + x.free)[1..] == x.free;
  }

  /** A span that has a free object again, and a new span, is the next to be fetched from; the others keep their order. */
  lemma FetchedNext(d: ClassData, x: ObjSpan, s: SpanId)
    ensures InstalledClass(d, x, s).nonempty == [s] + d.nonempty
    ensures ReturnedClass(d, x, s).nonempty == (if x.free == [] then [s] else []) + d.nonempty
  {
    assert [] + d.nonempty == d.nonempty;
  }

  lemma ReturnedClassOk(d: ClassData, t: SpanTable, c: nat, hands: set<SpanId>, s: SpanId, o: Obj)
    requires ClassOk(d, t, c, hands) && s in t && t[s].cls == c && s !in hands
    ensures ClassOk(ReturnedClass(d, t[s], s), t[s := ReturnedSpan(t[s], o)], c, hands)
  {
    var t' := t[s := ReturnedSpan(t[s], o)];
    if t[s].free == [] {
      WithoutSpec(d.empty, s);
      FreeCountSame(d.nonempty, t, t');
      assert ([s] + d.nonempty)[1..] == d.nonempty;
    } else {
      FreeCountUpdate(d.nonempty, t, s, t'[s]);
    }
  }

  /** The last outstanding object came back: the span, with `num` objects by its length, leaves the class. */
  function DissolvedClass(d: ClassData, s: SpanId, num: nat): ClassData {
    d.(counter := d.counter + 1 - num, numSpans := d.numSpans - 1,
       nonempty := Without(d.nonempty, s), empty := Without(d.empty, s))
  }

  lemma DissolvedClassOk(d: ClassData, t: SpanTable, c: nat, hands: set<SpanId>, s: SpanId)
    requires ClassOk(d, t, c, hands) && s in t && t[s].cls == c && s !in hands && SpanOk(t[s]) && t[s].refcount == 1
    ensures ClassOk(DissolvedClass(d, s, |t[s].objs|), t - {s}, c, hands)
  {
    var t' := t - {s};
    WithoutSpec(d.nonempty, s);
    WithoutSpec(d.empty, s);
    if s in d.nonempty {
      FreeCountWithout(d.nonempty, t, s);
      FreeCountSame(Without(d.nonempty, s), t, t');
    } else {
      WithoutAbsent(d.nonempty, s);
      FreeCountSame(d.nonempty, t, t');
    }
  }

  lemma {:induction false} WithoutAbsent(q: seq<SpanId>, s: SpanId)
    requires s !in q
    ensures Without(q, s) == q
  {
    if q != [] { WithoutAbsent(q[1..], s); }
  }

  lemma {:induction false} CardOfDistinct<T>(q: seq<T>)
    requires Distinct(q)
    ensures |Elements(q)| == |q|
  {
    if q != [] {
      CardOfDistinct(q[1..]);
      assert Elements(q) == Elements(q[1..]) + {q[0]};
      assert q[0] !in q[1..];
    }
  }

  /** An object outside the free list means a positive refcount; with refcount one it is the only one. */
  lemma LastOutstanding(x: ObjSpan, o: Obj)
    requires SpanOk(x) && o in x.objs && o !in x.free
    ensures x.refcount > 0
    ensures x.refcount == 1 ==> Elements(x.objs) == Elements(x.free) + {o}
  {
    CardOfDistinct(x.objs);
    CardOfDistinct(x.free);
    assert Elements(x.free) + {o} <= Elements(x.objs);
    assert |Elements(x.free) + {o}| == |x.free| + 1;
    SubsetCard(Elements(x.free) + {o}, Elements(x.objs));
  }

  // ------------------------------------------------------------------ Populate

  function InstalledClass(d: ClassData, x: ObjSpan, s: SpanId): ClassData {
    d.(nonempty := [s] + d.nonempty, numSpans := d.numSpans + 1, counter := d.counter + |x.objs|)
  }

  lemma InstalledClassOk(d: ClassData, t: SpanTable, c: nat, hands: set<SpanId>, s: SpanId)
    requires ClassOk(d, t, c, hands) && s in hands && s in t && t[s].cls == c && t[s].free == t[s].objs && t[s].objs != []
    ensures ClassOk(InstalledClass(d, t[s], s), t, c, hands - {s})
  {
    assert ([s] + d.nonempty)[1..] == d.nonempty;
  }

  lemma DistinctJoin<T>(a: seq<T>, b: seq<T>)
    requires Distinct(a) && Distinct(b) && Elements(a) !! Elements(b)
    ensures Distinct(a + b) && Elements(a + b) == Elements(a) + Elements(b)
  {
    forall i, j | 0 <= i < j < |a + b| ensures (a + b)[i] != (a + b)[j] {
      if i < |a| <= j { assert a[i] in Elements(a) && b[j - |a|] in Elements(b); }
    }
  }
}
