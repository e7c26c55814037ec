/** The accounting of HeapProfileTable (heap-profile-table.h, heap-profile-table.cc) on values. */
module HeapProfiles {

  import opened AddressMaps

  /** The entry kept for an allocation: its bucket's address, its size and two flags. */
  datatype AllocValue = AllocValue(bucket: nat, bytes: nat, live: bool, ignored: bool)

  predicate Aligned(b: nat) { b % 4 == 0 }

  /** The word that holds the bucket address with the flags in its low bits: live in bit 0, ignore in
      bit 1. Masks are written as remainders. */
  function Packed(v: AllocValue): nat {
    v.bucket + (if v.live then 1 else 0) + (if v.ignored then 2 else 0)
  }

  function BucketOf(rep: nat): nat { rep - rep % 4 }
  predicate LiveOf(rep: nat) { rep % 2 == 1 }
  predicate IgnoreOf(rep: nat) { rep / 2 % 2 == 1 }
  function WithLive(rep: nat, l: bool): nat { rep - rep % 2 + (if l then 1 else 0) }
  function WithIgnore(rep: nat, r: bool): nat { rep - rep / 2 % 2 * 2 + (if r then 2 else 0) }

  /** The packed word stands for the record: reading gives its parts, and setting a flag gives the word of
      the record with that flag, so neither flag disturbs the other or the bucket. */
  lemma PackedFaithful(v: AllocValue, f: bool)
    requires Aligned(v.bucket)
    ensures BucketOf(Packed(v)) == v.bucket && LiveOf(Packed(v)) == v.live && IgnoreOf(Packed(v)) == v.ignored
    ensures WithLive(Packed(v), f) == Packed(v.(live := f))
    ensures WithIgnore(Packed(v), f) == Packed(v.(ignored := f))
  {
    LowBits(v.bucket, if v.live then 1 else 0, if v.ignored then 1 else 0);
  }

  lemma LowBits(b: nat, l: nat, r: nat)
    requires Aligned(b) && l <= 1 && r <= 1
    ensures (b + l + 2 * r) % 4 == l + 2 * r && (b + l + 2 * r) % 2 == l && (b + l + 2 * r) / 2 % 2 == r
  {
  }

  function SizeOf(v: AllocValue): nat { v.bytes }

  datatype Stats = Stats(allocs: nat, frees: nat, allocSize: nat, freeSize: nat)
  datatype Bucket = Bucket(hash: nat, stack: seq<nat>, stats: Stats)

  const NO_STATS := Stats(0, 0, 0, 0)

  function Plus(a: Stats, b: Stats): Stats {
    Stats(a.allocs + b.allocs, a.frees + b.frees, a.allocSize + b.allocSize, a.freeSize + b.freeSize)
  }

  function AfterAlloc(s: Stats, bytes: nat): Stats {
    s.(allocs := s.allocs + 1, allocSize := s.allocSize + bytes)
  }

  function AfterFree(s: Stats, bytes: nat): Stats {
    s.(frees := s.frees + 1, freeSize := s.freeSize + bytes)
  }

  /** The table: buckets by address, the totals, the recorded allocations, and the entries that a second
      allocation at the same address has overwritten. */
  datatype Profile = Profile(
    buckets: map<nat, Bucket>,
    total: Stats,
    contents: map<nat, AllocValue>,
    lost: multiset<AllocValue>)

  // ------------------------------------------------------------------ sums

  ghost function SumStats(bs: map<nat, Bucket>): Stats {
    if bs == map[] then NO_STATS else
      var b :| b in bs;
      var x, rest := bs[b].stats, SumStats(bs - {b});
      Stats(x.allocs + rest.allocs, x.frees + rest.frees, x.allocSize + rest.allocSize, x.freeSize + rest.freeSize)
  }

  lemma PlusSwap(a: Stats, b: Stats, c: Stats)
    ensures Plus(a, Plus(b, c)) == Plus(b, Plus(a, c))
  {
  }

  lemma {:induction false} SumStatsPeel(bs: map<nat, Bucket>, b: nat)
    requires b in bs
    ensures SumStats(bs) == Plus(bs[b].stats, SumStats(bs - {b}))
    decreases |bs|
  {
    var c :| c in bs && SumStats(bs) == Plus(bs[c].stats, SumStats(bs - {c}));
    if c != b {
      SumStatsPeel(bs - {c}, b);
      SumStatsPeel(bs - {b}, c);
      var rest := bs - {c} - {b};
      assert rest == bs - {b} - {c};
      assert SumStats(bs - {c}) == Plus(bs[b].stats, SumStats(rest));
      assert SumStats(bs - {b}) == Plus(bs[c].stats, SumStats(rest));
      PlusSwap(bs[b].stats, bs[c].stats, SumStats(rest));
    }
  }

  lemma SumStatsUpdate(bs: map<nat, Bucket>, b: nat, x: Bucket)
    requires b in bs
    ensures SumStats(bs[b := x]) == Plus(x.stats, SumStats(bs - {b}))
  {
    SumStatsPeel(bs[b := x], b);
    assert bs[b := x] - {b} == bs - {b};
  }

  lemma SumStatsAdd(bs: map<nat, Bucket>, b: nat, x: Bucket)
    requires b !in bs
    ensures SumStats(bs[b := x]) == Plus(x.stats, SumStats(bs))
  {
    SumStatsPeel(bs[b := x], b);
    assert bs[b := x] - {b} == bs;
  }

  /** Which entries are counted: every one, or those of one bucket. */
  datatype Selection = All | Only(bucket: nat)

  predicate Selects(sel: Selection, v: AllocValue) { sel.All? || v.bucket == sel.bucket }

  datatype Tally = Tally(count: nat, bytes: nat)

  function Tallied(sel: Selection, v: AllocValue, t: Tally): Tally {
    if Selects(sel, v) then Tally(t.count + 1, t.bytes + v.bytes) else t
  }

  ghost function MapTally(m: map<nat, AllocValue>, sel: Selection): Tally {
    if m == map[] then Tally(0, 0) else
      var k :| k in m;
      Tallied(sel, m[k], MapTally(m - {k}, sel))
  }

  lemma TalliedSwap(sel: Selection, v: AllocValue, w: AllocValue, t: Tally)
    ensures Tallied(sel, v, Tallied(sel, w, t)) == Tallied(sel, w, Tallied(sel, v, t))
  {
  }

  lemma {:induction false} MapTallyPeel(m: map<nat, AllocValue>, sel: Selection, k: nat)
    requires k in m
    ensures MapTally(m, sel) == Tallied(sel, m[k], MapTally(m - {k}, sel))
    decreases |m|
  {
    var c :| c in m && MapTally(m, sel) == Tallied(sel, m[c], MapTally(m - {c}, sel));
    if c != k {
      MapTallyPeel(m - {c}, sel, k);
      MapTallyPeel(m - {k}, sel, c);
      var rest := m - {c} - {k};
      assert rest == m - {k} - {c};
      assert MapTally(m - {c}, sel) == Tallied(sel, m[k], MapTally(rest, sel));
      assert MapTally(m - {k}, sel) == Tallied(sel, m[c], MapTally(rest, sel));
      TalliedSwap(sel, m[k], m[c], MapTally(rest, sel));
    }
  }

  lemma MapTallyAdd(m: map<nat, AllocValue>, sel: Selection, k: nat, v: AllocValue)
    ensures MapTally(m[k := v], sel) == Tallied(sel, v, MapTally(m - {k}, sel))
  {
    MapTallyPeel(m[k := v], sel, k);
    assert m[k := v] - {k} == m - {k};
  }

  /** The tally of everything counts the entries. */
  lemma {:induction false} TallyAll(m: map<nat, AllocValue>)
    ensures MapTally(m, All).count == |m|
    decreases |m|
  {
    if m != map[] {
      var k :| k in m;
      MapTallyPeel(m, All, k);
      TallyAll(m - {k});
    }
  }

  /** The tally depends only on bucket and size. */
  lemma {:induction false} TallySame(m: map<nat, AllocValue>, n: map<nat, AllocValue>, sel: Selection)
    requires m.Keys == n.Keys && forall k :: k in m ==> m[k].bucket == n[k].bucket && m[k].bytes == n[k].bytes
    ensures MapTally(m, sel) == MapTally(n, sel)
    decreases |m|
  {
    if m != map[] {
      var k :| k in m;
      MapTallyPeel(m, sel, k);
      MapTallyPeel(n, sel, k);
      TallySame(m - {k}, n - {k}, sel);
    } else {
      assert n == map[];
    }
  }

  ghost function LostTally(q: multiset<AllocValue>, sel: Selection): Tally {
    if q == multiset{} then Tally(0, 0) else
      var v :| v in q;
      Tallied(sel, v, LostTally(q - multiset{v}, sel))
  }

  lemma {:induction false} LostTallyPeel(q: multiset<AllocValue>, sel: Selection, v: AllocValue)
    requires v in q
    ensures LostTally(q, sel) == Tallied(sel, v, LostTally(q - multiset{v}, sel))
    decreases |q|
  {
    var c :| c in q && LostTally(q, sel) == Tallied(sel, c, LostTally(q - multiset{c}, sel));
    if c != v {
      var rest := q - multiset{c} - multiset{v};
      assert rest == q - multiset{v} - multiset{c};
      assert LostTally(q - multiset{c}, sel) == Tallied(sel, v, LostTally(rest, sel)) by { LostTallyPeel(q - multiset{c}, sel, v); }
      assert LostTally(q - multiset{v}, sel) == Tallied(sel, c, LostTally(rest, sel)) by { LostTallyPeel(q - multiset{v}, sel, c); }
      TalliedSwap(sel, v, c, LostTally(rest, sel));
    }
  }

  lemma LostTallyAdd(q: multiset<AllocValue>, sel: Selection, v: AllocValue)
    ensures LostTally(q + multiset{v}, sel) == Tallied(sel, v, LostTally(q, sel))
  {
    LostTallyPeel(q + multiset{v}, sel, v);
    assert q + multiset{v} - multiset{v} == q;
  }

  lemma {:induction false} LostTallyAll(q: multiset<AllocValue>)
    ensures LostTally(q, All).count == |q|
    decreases |q|
  {
    if q != multiset{} {
      var v :| v in q;
      LostTallyPeel(q, All, v);
      LostTallyAll(q - multiset{v});
    }
  }

  // ------------------------------------------------------------------ the invariant

  function StatsOf(p: Profile, sel: Selection): Stats {
    match sel
    case All => p.total
    case Only(b) => if b in p.buckets then p.buckets[b].stats else NO_STATS
  }

  /** Allocations are either freed, or still recorded, or overwritten. */
  ghost predicate Balanced(p: Profile, sel: Selection) {
    var s := StatsOf(p, sel);
    && s.allocs == s.frees + MapTally(p.contents, sel).count + LostTally(p.lost, sel).count
    && s.allocSize == s.freeSize + MapTally(p.contents, sel).bytes + LostTally(p.lost, sel).bytes
  }

  ghost predicate KnownBuckets(p: Profile) {
    && (forall b :: b in p.buckets ==> Aligned(b))
    && (forall k: nat {:trigger KnownEntry(p, k)} :: KnownEntry(p, k))
    && (forall v :: v in p.lost ==> v.bucket in p.buckets)
  }

  ghost predicate KnownEntry(p: Profile, k: nat) {
    k in p.contents ==> p.contents[k].bucket in p.buckets
  }

  ghost predicate Inv(p: Profile) {
    && KnownBuckets(p)
    && p.total == SumStats(p.buckets)
    && forall sel :: Balanced(p, sel)
  }

  /** In-use counts equal the recorded objects exactly when nothing was recorded twice while live. */
  lemma InUseExact(p: Profile)
    requires Inv(p)
    ensures p.total.allocs - p.total.frees == |p.contents| <==> p.lost == multiset{}
    ensures p.lost == multiset{} ==> p.total.allocSize - p.total.freeSize == MapTally(p.contents, All).bytes
    ensures p.lost == multiset{} ==> forall b :: b in p.buckets ==>
              && p.buckets[b].stats.allocs - p.buckets[b].stats.frees == MapTally(p.contents, Only(b)).count
              && p.buckets[b].stats.allocSize - p.buckets[b].stats.freeSize == MapTally(p.contents, Only(b)).bytes
  {
    assert Balanced(p, All);
    TallyAll(p.contents);
    LostTallyAll(p.lost);
    forall b | b in p.buckets && p.lost == multiset{}
      ensures p.buckets[b].stats.allocs - p.buckets[b].stats.frees == MapTally(p.contents, Only(b)).count
      ensures p.buckets[b].stats.allocSize - p.buckets[b].stats.freeSize == MapTally(p.contents, Only(b)).bytes
    {
      assert Balanced(p, Only(b));
    }
  }

  // ------------------------------------------------------------------ steps

  function AddBucket(p: Profile, b: nat, x: Bucket): Profile { p.(buckets := p.buckets[b := x]) }

  lemma AddBucketBalanced(p: Profile, b: nat, x: Bucket, sel: Selection)
    requires b !in p.buckets && x.stats == NO_STATS && Balanced(p, sel)
    ensures Balanced(AddBucket(p, b, x), sel)
  {
    assert StatsOf(AddBucket(p, b, x), sel) == StatsOf(p, sel);
  }

  lemma AddBucketSum(bs: map<nat, Bucket>, b: nat, x: Bucket)
    requires b !in bs && x.stats == NO_STATS
    ensures SumStats(bs[b := x]) == SumStats(bs)
  {
    SumStatsAdd(bs, b, x);
    PlusNone(SumStats(bs));
  }

  lemma AddBucketInv(p: Profile, b: nat, x: Bucket)
    requires Inv(p) && b !in p.buckets && Aligned(b) && x.stats == NO_STATS
    ensures Inv(AddBucket(p, b, x))
  {
    var q := AddBucket(p, b, x);
    AddBucketSum(p.buckets, b, x);
    forall sel ensures Balanced(q, sel) { AddBucketBalanced(p, b, x, sel); }
    assert KnownBuckets(q) by {
      forall k: nat ensures KnownEntry(q, k) { assert KnownEntry(p, k); }
    }
  }

  lemma PlusNone(s: Stats)
    ensures Plus(NO_STATS, s) == s
  {
  }

  /** RecordAlloc once the bucket is known. */
  function Recorded(p: Profile, b: nat, ptr: nat, bytes: nat): Profile
    requires b in p.buckets
  {
    Profile(p.buckets[b := p.buckets[b].(stats := AfterAlloc(p.buckets[b].stats, bytes))],
            AfterAlloc(p.total, bytes),
            p.contents[ptr := AllocValue(b, bytes, false, false)],
            p.lost + if ptr in p.contents then multiset{p.contents[ptr]} else multiset{})
  }

  /** What one overwritten entry leaves the map with, it adds to the lost ones. */
  lemma RecordedTally(p: Profile, b: nat, ptr: nat, bytes: nat, sel: Selection)
    requires b in p.buckets && Aligned(b)
    ensures var q := Recorded(p, b, ptr, bytes);
            var one := if Selects(sel, AllocValue(b, bytes, false, false)) then Tally(1, bytes) else Tally(0, 0);
            && MapTally(q.contents, sel).count + LostTally(q.lost, sel).count
               == MapTally(p.contents, sel).count + LostTally(p.lost, sel).count + one.count
            && MapTally(q.contents, sel).bytes + LostTally(q.lost, sel).bytes
               == MapTally(p.contents, sel).bytes + LostTally(p.lost, sel).bytes + one.bytes
  {
    var q := Recorded(p, b, ptr, bytes);
    MapTallyAdd(p.contents, sel, ptr, AllocValue(b, bytes, false, false));
    if ptr in p.contents {
      MapTallyPeel(p.contents, sel, ptr);
      LostTallyAdd(p.lost, sel, p.contents[ptr]);
    } else {
      assert p.contents - {ptr} == p.contents;
      assert q.lost == p.lost;
    }
  }

  lemma RecordedInv(p: Profile, b: nat, ptr: nat, bytes: nat)
    requires Inv(p) && b in p.buckets
    ensures Inv(Recorded(p, b, ptr, bytes))
  {
    var q := Recorded(p, b, ptr, bytes);
    SumStatsUpdate(p.buckets, b, q.buckets[b]);
    SumStatsPeel(p.buckets, b);
    forall k: nat ensures KnownEntry(q, k) { assert KnownEntry(p, k); }
    if ptr in p.contents { assert KnownEntry(p, ptr); }
    forall sel ensures Balanced(q, sel) {
      assert Balanced(p, sel);
      RecordedTally(p, b, ptr, bytes, sel);
    }
  }

  function Freed(p: Profile, ptr: nat): Profile {
    if ptr !in p.contents || p.contents[ptr].bucket !in p.buckets then p else
      var v := p.contents[ptr];
      var b := v.bucket;
      p.(buckets := p.buckets[b := p.buckets[b].(stats := AfterFree(p.buckets[b].stats, v.bytes))],
         total := AfterFree(p.total, v.bytes),
         contents := p.contents - {ptr})
  }

  lemma FreedInv(p: Profile, ptr: nat)
    requires Inv(p)
    ensures Inv(Freed(p, ptr))
  {
    assert KnownEntry(p, ptr);
    if ptr in p.contents {
      var q := Freed(p, ptr);
      forall k: nat ensures KnownEntry(q, k) { assert KnownEntry(p, k); }
      var b := p.contents[ptr].bucket;
      SumStatsUpdate(p.buckets, b, q.buckets[b]);
      SumStatsPeel(p.buckets, b);
      forall sel ensures Balanced(q, sel) {
        assert Balanced(p, sel);
        MapTallyPeel(p.contents, sel, ptr);
      }
    }
  }

  /** Changing flags changes no count. */
  lemma ReflaggedInv(p: Profile, contents: map<nat, AllocValue>)
    requires Inv(p) && contents.Keys == p.contents.Keys
    requires forall k :: k in contents ==> contents[k].bucket == p.contents[k].bucket && contents[k].bytes == p.contents[k].bytes
    ensures Inv(p.(contents := contents))
  {
    var q := p.(contents := contents);
    forall k: nat ensures KnownEntry(q, k) { assert KnownEntry(p, k); }
    forall sel ensures Balanced(q, sel) {
      assert Balanced(p, sel);
      TallySame(p.contents, contents, sel);
    }
  }

  // ------------------------------------------------------------------ marks and snapshots

  ghost function LiveSet(m: map<nat, AllocValue>): set<nat> { set k | k in m && m[k].live }

  /** MarkAsLive on a recorded address. */
  function MarkLive(m: map<nat, AllocValue>, k: nat): map<nat, AllocValue> {
    if k in m then m[k := m[k].(live := true)] else m
  }

  lemma MarkLiveSpec(m: map<nat, AllocValue>, k: nat)
    ensures LiveSet(MarkLive(m, k)) == LiveSet(m) + (if k in m then {k} else {})
    ensures SameObjects(m, MarkLive(m, k))
  {
  }

  /** Same recorded objects with the same sizes, buckets and ignore flags. */
  ghost predicate SameObjects(m: map<nat, AllocValue>, n: map<nat, AllocValue>) {
    m.Keys == n.Keys && forall k: nat {:trigger SameObject(m, n, k)} :: SameObject(m, n, k)
  }

  ghost predicate SameObject(m: map<nat, AllocValue>, n: map<nat, AllocValue>, k: nat) {
    k in m && k in n ==> m[k].(live := false) == n[k].(live := false)
  }

  ghost function Visible(m: map<nat, AllocValue>, visited: set<nat>): map<nat, AllocValue> {
    m - (set k | k in m && k !in visited)
  }

  lemma VisitVisible(m: map<nat, AllocValue>, visited: set<nat>, k: nat)
    requires k in m && k !in visited
    ensures k !in Visible(m, visited) && Visible(m, visited + {k}) == Visible(m, visited)[k := m[k]]
    ensures visited + {k} == m.Keys ==> Visible(m, visited + {k}) == m
  {
  }

  /** What NonLiveSnapshot collects among the objects it has visited. */
  ghost function NonLive(m: map<nat, AllocValue>, base: set<nat>, visited: set<nat>): map<nat, AllocValue> {
    m - (set k | k in m && !(k in visited && !m[k].live && k !in base))
  }

  /** What NonLiveSnapshot leaves behind: the live flags of the visited objects cleared. */
  ghost function Unmarked(m: map<nat, AllocValue>, visited: set<nat>): (r: map<nat, AllocValue>)
    ensures r.Keys == m.Keys && forall k :: k in m ==> r[k] == if k in visited then m[k].(live := false) else m[k]
    decreases |m|
  {
    if m == map[] then map[] else
      var k :| k in m;
      Unmarked(m - {k}, visited)[k := if k in visited then m[k].(live := false) else m[k]]
  }

  lemma VisitNone(m: map<nat, AllocValue>, base: set<nat>)
    ensures NonLive(m, base, {}) == map[] && Unmarked(m, {}) == m
  {
  }

  /** One more object visited. */
  lemma VisitNonLive(m: map<nat, AllocValue>, base: set<nat>, visited: set<nat>, k: nat)
    requires k in m && k !in visited
    ensures k !in NonLive(m, base, visited)
    ensures NonLive(m, base, visited + {k}) == if m[k].live || k in base then NonLive(m, base, visited) else NonLive(m, base, visited)[k := m[k]]
  {
  }

  lemma VisitUnmarked(m: map<nat, AllocValue>, visited: set<nat>, k: nat)
    requires k in m && k !in visited
    ensures Unmarked(m, visited)[k] == m[k]
    ensures Unmarked(m, visited + {k}) == Unmarked(m, visited)[k := m[k].(live := false)]
  {
  }

  /** The snapshot holds no ignored object exactly when every ignored object is marked live or in the base. */
  lemma NonLiveSkipsIgnored(m: map<nat, AllocValue>, base: set<nat>)
    ensures (forall k :: k in NonLive(m, base, m.Keys) ==> !m[k].ignored)
            <==> (forall k :: k in m && m[k].ignored ==> m[k].live || k in base)
  {
    forall k | k in m && m[k].ignored && !m[k].live && k !in base ensures k in NonLive(m, base, m.Keys) { }
  }

  /** Nothing else keeps an ignored object out. */
  lemma IgnoredCollected(m: map<nat, AllocValue>, k: nat, bucket: nat, bytes: nat)
    requires m == map[k := AllocValue(bucket, bytes, false, true)]
    ensures k in NonLive(m, {}, m.Keys) && m[k].ignored
  {
  }

  lemma EmptyInv(p: Profile)
    requires p.buckets == map[] && p.total == NO_STATS && p.contents == map[] && p.lost == multiset{}
    ensures Inv(p)
  {
  }
}
