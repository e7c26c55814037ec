/** HeapProfileTable and its snapshots as objects (heap-profile-table.h, heap-profile-table.cc). */
module HeapProfileTables {

  import opened Wrappers
  import opened AddressMaps
  import opened HeapProfiles
  import Bits

  const K_HASH_TABLE_SIZE: nat := 179999

  const WORD: nat := 0x1_0000_0000_0000_0000

  /** One frame mixed into the hash of a stack, on 64 bits. */
  function Mix(h: nat, frame: nat): nat {
    var h1 := (h + frame) % WORD;
    var h2 := (h1 + h1 * 1024) % WORD;
    Bits.Xor(h2, h2 / 64)
  }

  function Frames(stack: seq<nat>): nat {
    if stack == [] then 0 else Mix(Frames(stack[..|stack| - 1]), stack[|stack| - 1])
  }

  function StackHash(stack: seq<nat>): nat {
    var h := Frames(stack);
    var h1 := (h + h * 8) % WORD;
    Bits.Xor(h1, h1 / 2048)
  }

  function Slot(hash: nat): (i: nat)
    ensures i < K_HASH_TABLE_SIZE
  {
    hash % 0x1_0000_0000 % K_HASH_TABLE_SIZE
  }

  /** The chains hold exactly the buckets, each under its hash; no stack has two buckets. */
  ghost predicate ChainsOk(t: seq<seq<nat>>, buckets: map<nat, Bucket>) {
    && |t| == K_HASH_TABLE_SIZE
    && (forall h, i :: 0 <= h < |t| && 0 <= i < |t[h]| ==> t[h][i] in buckets)
    && (forall b: nat {:trigger Filed(t, buckets, b)} :: Filed(t, buckets, b))
    && (forall a: nat, b: nat {:trigger OneBucket(buckets, a, b)} :: OneBucket(buckets, a, b))
  }

  ghost predicate Filed(t: seq<seq<nat>>, buckets: map<nat, Bucket>, b: nat)
    requires |t| == K_HASH_TABLE_SIZE
  {
    b in buckets ==> buckets[b].hash == StackHash(buckets[b].stack) && b in t[Slot(buckets[b].hash)]
  }

  ghost predicate OneBucket(buckets: map<nat, Bucket>, a: nat, b: nat) {
    a in buckets && b in buckets && buckets[a].stack == buckets[b].stack ==> a == b
  }

  lemma ChainsAdd(t: seq<seq<nat>>, buckets: map<nat, Bucket>, b: nat, stack: seq<nat>)
    requires ChainsOk(t, buckets) && b !in buckets && forall a :: a in buckets ==> buckets[a].stack != stack
    ensures var h := Slot(StackHash(stack));
            ChainsOk(t[h := [b] + t[h]], buckets[b := Bucket(StackHash(stack), stack, NO_STATS)])
  {
    var h := Slot(StackHash(stack));
    var t', buckets' := t[h := [b] + t[h]], buckets[b := Bucket(StackHash(stack), stack, NO_STATS)];
    forall g, i | 0 <= g < |t'| && 0 <= i < |t'[g]| ensures t'[g][i] in buckets' {
      if g == h && i > 0 { assert t'[g][i] == t[g][i - 1]; }
    }
    forall a: nat ensures Filed(t', buckets', a) {
      if a != b { assert Filed(t, buckets, a); }
    }
    forall a: nat, c: nat ensures OneBucket(buckets', a, c) { assert OneBucket(buckets, a, c); }
  }

  /** Counters of a bucket do not matter to the chains. */
  lemma ChainsKept(t: seq<seq<nat>>, buckets: map<nat, Bucket>, buckets': map<nat, Bucket>)
    requires ChainsOk(t, buckets) && buckets.Keys == buckets'.Keys
    requires forall b :: b in buckets ==> buckets[b].hash == buckets'[b].hash && buckets[b].stack == buckets'[b].stack
    ensures ChainsOk(t, buckets')
  {
    forall b: nat ensures Filed(t, buckets', b) { assert Filed(t, buckets, b); }
    forall a: nat, b: nat ensures OneBucket(buckets', a, b) { assert OneBucket(buckets, a, b); }
  }

  /** Everything kept about a profile with the hash chains `t`. */
  ghost predicate Sound(p: Profile, t: seq<seq<nat>>, numBuckets: nat) {
    Inv(p) && ChainsOk(t, p.buckets) && numBuckets == |p.buckets|
  }

  lemma EmptySound(p: Profile, t: seq<seq<nat>>)
    requires p.buckets == map[] && p.total == NO_STATS && p.contents == map[] && p.lost == multiset{}
    requires |t| == K_HASH_TABLE_SIZE && forall h :: 0 <= h < |t| ==> t[h] == []
    ensures Sound(p, t, 0)
  {
    EmptyInv(p);
  }

  ghost predicate HasStack(buckets: map<nat, Bucket>, stack: seq<nat>) {
    exists a :: a in buckets && buckets[a].stack == stack
  }

  /** The table after GetBucket. */
  ghost function WithBucket(p: Profile, stack: seq<nat>, room: nat): Profile {
    if HasStack(p.buckets, stack) then p else AddBucket(p, room, Bucket(StackHash(stack), stack, NO_STATS))
  }

  /** A slot's chain with one more bucket in front. */
  ghost function InFront(t: seq<seq<nat>>, i: nat, b: nat): seq<seq<nat>>
    requires i < |t|
  {
    t[i := [b] + t[i]]
  }

  lemma AddBucketSound(p: Profile, t: seq<seq<nat>>, n: nat, b: nat, h: nat, stack: seq<nat>)
    requires Sound(p, t, n) && Aligned(b) && b !in p.buckets && !HasStack(p.buckets, stack) && h == StackHash(stack)
    ensures |t| == K_HASH_TABLE_SIZE && Sound(AddBucket(p, b, Bucket(h, stack, NO_STATS)), InFront(t, Slot(h), b), n + 1)
  {
    ChainsAdd(t, p.buckets, b, stack);
    AddBucketInv(p, b, Bucket(h, stack, NO_STATS));
  }

  lemma RecordedSound(p: Profile, t: seq<seq<nat>>, n: nat, b: nat, ptr: nat, bytes: nat)
    requires Sound(p, t, n) && b in p.buckets
    ensures Sound(Recorded(p, b, ptr, bytes), t, n)
  {
    var q := Recorded(p, b, ptr, bytes);
    RecordedInv(p, b, ptr, bytes);
    ChainsKept(t, p.buckets, q.buckets);
    assert q.buckets.Keys == p.buckets.Keys;
  }

  lemma FreedSound(p: Profile, t: seq<seq<nat>>, n: nat, ptr: nat)
    requires Sound(p, t, n)
    ensures ptr in p.contents ==> p.contents[ptr].bucket in p.buckets
    ensures Sound(Freed(p, ptr), t, n)
  {
    var q := Freed(p, ptr);
    assert KnownEntry(p, ptr);
    FreedInv(p, ptr);
    ChainsKept(t, p.buckets, q.buckets);
    assert q.buckets.Keys == p.buckets.Keys;
  }

  lemma ReflaggedSound(p: Profile, t: seq<seq<nat>>, n: nat, contents: map<nat, AllocValue>)
    requires Sound(p, t, n) && contents.Keys == p.contents.Keys
    requires forall k :: k in contents ==> contents[k].bucket == p.contents[k].bucket && contents[k].bytes == p.contents[k].bytes
    ensures Sound(p.(contents := contents), t, n)
  {
    ReflaggedInv(p, contents);
  }

  /** `visited` holds the keys of the first `i` entries. */
  ghost predicate Visited(all: seq<Entry<AllocValue>>, i: nat, visited: set<nat>) {
    i <= |all| && visited == set j | 0 <= j < i :: all[j].key
  }

  ghost predicate Lists(all: seq<Entry<AllocValue>>, m: map<nat, AllocValue>) {
    && DistinctKeys(all)
    && forall e: Entry<AllocValue> :: e in all <==> e.key in m && m[e.key] == e.value
  }

  lemma VisitNext(all: seq<Entry<AllocValue>>, i: nat, visited: set<nat>, m: map<nat, AllocValue>)
    requires Lists(all, m) && i < |all| && Visited(all, i, visited)
    ensures all[i].key !in visited && Visited(all, i + 1, visited + {all[i].key})
    ensures all[i].key in m && m[all[i].key] == all[i].value
  {
    assert all[i] in all;
  }

  lemma VisitedAll(all: seq<Entry<AllocValue>>, visited: set<nat>, m: map<nat, AllocValue>)
    requires Lists(all, m) && Visited(all, |all|, visited)
    ensures visited == m.Keys
  {
    forall k | k in m ensures k in visited {
      assert Entry(k, m[k]) in all;
    }
    forall j | 0 <= j < |all| ensures all[j].key in m { assert all[j] in all; }
  }

  /** The totals of a snapshot: the number and the bytes of its objects. */
  ghost predicate CountsAll(total: Stats, m: map<nat, AllocValue>) {
    forall sel: Selection :: sel.All? ==> total == Stats(MapTally(m, sel).count, 0, MapTally(m, sel).bytes, 0)
  }

  lemma CountsOneMore(total: Stats, m: map<nat, AllocValue>, k: nat, v: AllocValue)
    requires CountsAll(total, m) && k !in m
    ensures CountsAll(AfterAlloc(total, v.bytes), m[k := v])
  {
    forall sel: Selection | sel.All?
      ensures AfterAlloc(total, v.bytes) == Stats(MapTally(m[k := v], sel).count, 0, MapTally(m[k := v], sel).bytes, 0)
    {
      MapTallyAdd(m, sel, k, v);
      assert m - {k} == m;
    }
  }

  lemma CountsNone(total: Stats, m: map<nat, AllocValue>)
    requires CountsAll(total, m)
    ensures total.allocs == |m| && (total.allocs == 0 && total.allocSize == 0 <==> m == map[])
  {
    TallyAll(m);
    assert MapTally(m, All).count == total.allocs;
    if m == map[] { assert MapTally(m, All).bytes == 0; }
  }

  lemma AddCounts(total: Stats, m: map<nat, AllocValue>, k: nat, v: AllocValue)
    requires CountsAll(total, m)
    ensures CountsAll(AfterAlloc(total, v.bytes), m[k := v]) <==> k !in m
  {
    assert k in m ==> m[k := v].Keys == m.Keys && |m[k := v]| == |m|;
    if k !in m {
      CountsOneMore(total, m, k, v);
    } else if CountsAll(AfterAlloc(total, v.bytes), m[k := v]) {
      CountsNone(total, m);
      CountsNone(AfterAlloc(total, v.bytes), m[k := v]);
    }
  }

  /** A snapshot: objects with their buckets, and their totals. */
  class Snapshot {
    const objects: AddressMap<AllocValue>
    var total: Stats

    ghost predicate Valid()
      reads this, objects, objects.hashtable
    {
      objects.Valid() && CountsAll(total, objects.contents)
    }

    ghost predicate Holds(m: map<nat, AllocValue>)
      reads this, objects, objects.hashtable
    {
      Valid() && objects.contents == m
    }

    constructor ()
      ensures Valid() && objects.contents == map[]
      ensures fresh(objects) && fresh(objects.hashtable)
    {
      objects := new AddressMap();
      total := NO_STATS;
    }

    /** The totals go on counting the objects exactly when the address is new. */
    method Add(ptr: nat, v: AllocValue)
      requires Valid()
      modifies this`total, objects`contents, objects.hashtable
      ensures objects.Valid() && objects.contents == old(objects.contents)[ptr := v] && total == AfterAlloc(old(total), v.bytes)
      ensures Valid() <==> ptr !in old(objects.contents)
    {
      AddCounts(total, objects.contents, ptr, v);
      objects.Insert(ptr, v);
      total := AfterAlloc(total, v.bytes);
    }

    /** The callback of TakeSnapshot on each entry of an allocation map. */
    method AddAll(all: seq<Entry<AllocValue>>, ghost m: map<nat, AllocValue>)
      requires Valid() && objects.contents == map[] && Lists(all, m)
      modifies this`total, objects`contents, objects.hashtable
      ensures Valid() && objects.contents == m
    {
      ghost var visited: set<nat> := {};
      assert objects.contents == Visible(m, visited);
      var i := 0;
      while i < |all|
        invariant i <= |all| && Valid() && Visited(all, i, visited) && objects.contents == Visible(m, visited)
      {
        VisitNext(all, i, visited, m);
        VisitVisible(m, visited, all[i].key);
        Add(all[i].key, all[i].value);
        visited := visited + {all[i].key};
        i := i + 1;
      }
      VisitedAll(all, visited, m);
    }

    /** Whether nothing was collected. */
    method Empty() returns (r: bool)
      requires Valid()
      ensures r <==> objects.contents == map[]
    {
      r := total.allocs == 0 && total.allocSize == 0;
      CountsNone(total, objects.contents);
    }
  }

  ghost predicate Disjoint(a: Snapshot, b: Snapshot) {
    a != b && a.objects != b.objects && a.objects.hashtable != b.objects.hashtable
  }

  /** The objects of the base snapshot; none without a base. */
  ghost function BaseKeys(base: Snapshot?): set<nat>
    reads base, if base == null then {} else {base.objects}
  {
    if base == null then {} else base.objects.contents.Keys
  }

  class HeapProfileTable {
    const addressMap: AddressMap<AllocValue>
    const bucketTable: array<seq<nat>>
    var buckets: map<nat, Bucket>
    var numBuckets: nat
    var total: Stats
    ghost var lost: multiset<AllocValue>

    ghost function View(): Profile
      reads this, addressMap
    {
      Profile(buckets, total, addressMap.contents, lost)
    }

    ghost predicate Valid()
      reads this, bucketTable, addressMap, addressMap.hashtable
    {
      addressMap.Valid() && Sound(View(), bucketTable[..], numBuckets)
    }

    constructor ()
      ensures Valid() && buckets == map[] && addressMap.contents == map[] && lost == multiset{}
      ensures fresh(addressMap) && fresh(addressMap.hashtable) && fresh(bucketTable)
    {
      addressMap := new AddressMap();
      bucketTable := new seq<nat>[K_HASH_TABLE_SIZE](_ => []);
      buckets, numBuckets, total := map[], 0, NO_STATS;
      lost := multiset{};
      new;
      EmptySound(View(), bucketTable[..]);
    }

    /** The walk along one hash chain: the bucket of the stack, if it is there. */
    method FindBucket(stack: seq<nat>) returns (r: Option<nat>)
      requires ChainsOk(bucketTable[..], buckets)
      ensures r.Some? ==> r.value in buckets && buckets[r.value].stack == stack
      ensures r == None ==> !HasStack(buckets, stack)
    {
      ghost var t := bucketTable[..];
      var h := StackHash(stack);
      var chain := bucketTable[Slot(h)];
      assert chain == t[Slot(h)];
      var i := 0;
      while i < |chain|
        invariant i <= |chain|
        invariant forall j :: 0 <= j < i ==> chain[j] in buckets && buckets[chain[j]].stack != stack
      {
        var b := chain[i];
        if buckets[b].hash == h && buckets[b].stack == stack { return Some(b); }
        assert Filed(t, buckets, b);
        i := i + 1;
      }
      forall b | b in buckets ensures buckets[b].stack != stack { assert Filed(t, buckets, b); }
      return None;
    }

    /** The one bucket of a stack, made at the address `room` that the allocator gives when it is new. */
    method GetBucket(stack: seq<nat>, room: nat) returns (b: nat)
      requires Valid() && Aligned(room) && room !in buckets
      modifies this`buckets, this`numBuckets, bucketTable
      ensures Valid() && b in buckets && buckets[b].stack == stack
      ensures View() == WithBucket(old(View()), stack, room)
    {
      var r := FindBucket(stack);
      if r.Some? { return r.value; }
      NewBucket(StackHash(stack), stack, room);
      return room;
    }

    /** The chain of a slot gets one more bucket in front. */
    method PushBucket(i: nat, room: nat)
      requires i < bucketTable.Length
      modifies bucketTable
      ensures bucketTable[..] == InFront(old(bucketTable[..]), i, room)
    {
      bucketTable[i] := [room] + bucketTable[i];
    }

    method NewBucket(h: nat, stack: seq<nat>, room: nat)
      requires Valid() && Aligned(room) && room !in buckets && !HasStack(buckets, stack) && h == StackHash(stack)
      modifies this`buckets, this`numBuckets, bucketTable
      ensures Valid() && View() == AddBucket(old(View()), room, Bucket(h, stack, NO_STATS))
    {
      AddBucketSound(View(), bucketTable[..], numBuckets, room, h, stack);
      PushBucket(Slot(h), room);
      buckets := buckets[room := Bucket(h, stack, NO_STATS)];
      numBuckets := numBuckets + 1;
    }

    /** The counters and the entry, once the bucket is known. */
    method NoteAlloc(b: nat, ptr: nat, bytes: nat)
      requires addressMap.Valid() && b in buckets
      modifies this`buckets, this`total, this`lost, addressMap`contents, addressMap.hashtable
      ensures addressMap.Valid() && View() == Recorded(old(View()), b, ptr, bytes)
    {
      buckets := buckets[b := buckets[b].(stats := AfterAlloc(buckets[b].stats, bytes))];
      total := AfterAlloc(total, bytes);
      lost := lost + if ptr in addressMap.contents then multiset{addressMap.contents[ptr]} else multiset{};
      addressMap.Insert(ptr, AllocValue(b, bytes, false, false));
    }

    method RecordAlloc(ptr: nat, bytes: nat, stack: seq<nat>, room: nat) returns (ghost b: nat)
      requires Valid() && Aligned(room) && room !in buckets
      modifies this`buckets, this`numBuckets, this`total, this`lost, bucketTable, addressMap`contents, addressMap.hashtable
      ensures Valid()
      ensures var p := WithBucket(old(View()), stack, room);
              b in p.buckets && p.buckets[b].stack == stack && View() == Recorded(p, b, ptr, bytes)
      ensures b in buckets && buckets[b].stack == stack
      ensures addressMap.contents == old(addressMap.contents)[ptr := AllocValue(b, bytes, false, false)]
    {
      var c := GetBucket(stack, room);
      b := c;
      RecordedSound(View(), bucketTable[..], numBuckets, b, ptr, bytes);
      NoteAlloc(c, ptr, bytes);
    }

    method NoteFree(ptr: nat)
      requires addressMap.Valid() && (ptr in addressMap.contents ==> addressMap.contents[ptr].bucket in buckets)
      modifies this`buckets, this`total, addressMap`contents, addressMap.hashtable
      ensures addressMap.Valid() && View() == Freed(old(View()), ptr)
    {
      var r := addressMap.FindAndRemove(ptr);
      if r.Some? {
        var v := r.value;
        buckets := buckets[v.bucket := buckets[v.bucket].(stats := AfterFree(buckets[v.bucket].stats, v.bytes))];
        total := AfterFree(total, v.bytes);
      } else {
        assert addressMap.contents == old(addressMap.contents);
      }
    }

    method RecordFree(ptr: nat)
      requires Valid()
      modifies this`buckets, this`total, addressMap`contents, addressMap.hashtable
      ensures Valid() && View() == Freed(old(View()), ptr)
    {
      FreedSound(View(), bucketTable[..], numBuckets, ptr);
      NoteFree(ptr);
    }

    method FindAlloc(ptr: nat) returns (size: Option<nat>)
      requires Valid()
      ensures size == if ptr in addressMap.contents then Some(addressMap.contents[ptr].bytes) else None
    {
      var r := addressMap.Find(ptr);
      return if r.Some? then Some(r.value.bytes) else None;
    }

    /** The recorded object that `ptr` points into, not further than `maxSize` inside it, with its size. */
    method FindInsideAlloc(ptr: nat, maxSize: nat) returns (r: Option<(nat, nat)>)
      requires Valid() && NonOverlapping(addressMap.contents, SizeOf)
      ensures r.Some? ==> && r.value.0 in addressMap.contents && r.value.1 == addressMap.contents[r.value.0].bytes
                          && Inside(r.value.0, r.value.1, ptr) && WithinReach(r.value.0, maxSize, ptr)
      ensures r == None ==> NoneInReach(addressMap.contents, SizeOf, maxSize, ptr)
    {
      var start := addressMap.FindInside(SizeOf, maxSize, ptr);
      if start == None { return None; }
      var v := addressMap.Find(start.value);
      return Some((start.value, v.value.bytes));
    }

    /** An in-place change of the flags of one entry. */
    method Reflag(ptr: nat, v: AllocValue)
      requires Valid() && ptr in addressMap.contents
      requires v.bucket == addressMap.contents[ptr].bucket && v.bytes == addressMap.contents[ptr].bytes
      modifies addressMap`contents, addressMap.hashtable
      ensures Valid() && addressMap.contents == old(addressMap.contents)[ptr := v]
    {
      ReflaggedSound(View(), bucketTable[..], numBuckets, addressMap.contents[ptr := v]);
      addressMap.Insert(ptr, v);
    }

    /** Sets the live flag; true when it was not set. */
    method MarkAsLive(ptr: nat) returns (marked: bool)
      requires Valid()
      modifies addressMap`contents, addressMap.hashtable
      ensures Valid() && addressMap.contents == MarkLive(old(addressMap.contents), ptr)
      ensures marked <==> ptr in old(addressMap.contents) && !old(addressMap.contents)[ptr].live
    {
      var r := addressMap.Find(ptr);
      marked := r.Some? && !r.value.live;
      if marked {
        Reflag(ptr, r.value.(live := true));
      } else if r.Some? {
        assert addressMap.contents[ptr := r.value] == addressMap.contents;
      }
    }

    method MarkAsIgnored(ptr: nat)
      requires Valid()
      modifies addressMap`contents, addressMap.hashtable
      ensures Valid()
      ensures addressMap.contents == var m := old(addressMap.contents); if ptr in m then m[ptr := m[ptr].(ignored := true)] else m
    {
      var r := addressMap.Find(ptr);
      if r.Some? { Reflag(ptr, r.value.(ignored := true)); }
    }

    /** The recorded objects as the iteration sees them. */
    method IterateAllocs() returns (all: seq<Entry<AllocValue>>)
      requires Valid()
      ensures DistinctKeys(all)
      ensures forall e: Entry<AllocValue> :: e in all <==> e.key in addressMap.contents && addressMap.contents[e.key] == e.value
    {
      all := addressMap.Iterate();
    }

    method TakeSnapshot() returns (s: Snapshot)
      requires Valid()
      ensures fresh(s) && fresh(s.objects) && fresh(s.objects.hashtable)
      ensures s.Valid() && s.objects.contents == addressMap.contents
    {
      var all := addressMap.Iterate();
      s := new Snapshot();
      s.AddAll(all, addressMap.contents);
    }

    /** AddIfNonLive: clears the flag of a live object, collects another unless it is in the base. */
    method AddIfNonLive(e: Entry<AllocValue>, base: Snapshot?, dest: Snapshot)
      requires Valid() && dest.Valid() && e.key in addressMap.contents && addressMap.contents[e.key] == e.value
      requires base != null ==> base.Valid() && Disjoint(base, dest) && base.objects != addressMap && base.objects.hashtable != addressMap.hashtable
      requires dest.objects != addressMap && dest.objects.hashtable != addressMap.hashtable
      requires e.key !in dest.objects.contents
      modifies addressMap`contents, addressMap.hashtable, dest`total, dest.objects`contents, dest.objects.hashtable
      ensures Valid() && dest.Valid() && (base != null ==> base.Valid()) && BaseKeys(base) == old(BaseKeys(base))
      ensures addressMap.contents == old(addressMap.contents)[e.key := e.value.(live := false)]
      ensures dest.objects.contents == if e.value.live || e.key in old(BaseKeys(base))
                                       then old(dest.objects.contents) else old(dest.objects.contents)[e.key := e.value]
    {
      if e.value.live {
        Reflag(e.key, e.value.(live := false));
        return;
      }
      assert addressMap.contents[e.key := e.value.(live := false)] == addressMap.contents;
      var inBase := false;
      if base != null {
        var r := base.objects.Find(e.key);
        inBase := r.Some?;
      }
      if !inBase { dest.Add(e.key, e.value); }
    }

    /** Where NonLiveSnapshot stands when it has visited some of the objects of `m`. */
    ghost predicate Visiting(m: map<nat, AllocValue>, keys: set<nat>, visited: set<nat>, dest: Snapshot)
      reads this, addressMap, dest, dest.objects
    {
      dest.objects.contents == NonLive(m, keys, visited) && addressMap.contents == Unmarked(m, visited)
    }

    /** One more entry. */
    method VisitEntry(e: Entry<AllocValue>, base: Snapshot?, dest: Snapshot, ghost m: map<nat, AllocValue>, ghost keys: set<nat>, ghost visited: set<nat>)
      requires Valid() && dest.Valid() && e.key in m && m[e.key] == e.value && e.key !in visited && Visiting(m, keys, visited, dest)
      requires base != null ==> base.Valid() && Disjoint(base, dest) && base.objects != addressMap && base.objects.hashtable != addressMap.hashtable
      requires BaseKeys(base) == keys
      requires dest.objects != addressMap && dest.objects.hashtable != addressMap.hashtable
      modifies addressMap`contents, addressMap.hashtable, dest`total, dest.objects`contents, dest.objects.hashtable
      ensures Valid() && dest.Valid() && (base != null ==> base.Valid()) && BaseKeys(base) == keys
      ensures Visiting(m, keys, visited + {e.key}, dest)
    {
      VisitNonLive(m, keys, visited, e.key);
      VisitUnmarked(m, visited, e.key);
      AddIfNonLive(e, base, dest);
    }

    /** The callback of NonLiveSnapshot on each entry of the allocation map. */
    method AddAllNonLive(all: seq<Entry<AllocValue>>, base: Snapshot?, dest: Snapshot)
      requires Valid() && dest.Valid() && dest.objects.contents == map[] && Lists(all, addressMap.contents)
      requires base != null ==> base.Valid() && Disjoint(base, dest) && base.objects != addressMap && base.objects.hashtable != addressMap.hashtable
      requires dest.objects != addressMap && dest.objects.hashtable != addressMap.hashtable
      modifies addressMap`contents, addressMap.hashtable, dest`total, dest.objects`contents, dest.objects.hashtable
      ensures Valid() && dest.Valid()
      ensures addressMap.contents == Unmarked(old(addressMap.contents), old(addressMap.contents.Keys))
      ensures dest.objects.contents == NonLive(old(addressMap.contents), BaseKeys(base), old(addressMap.contents.Keys))
    {
      ghost var m, visited: set<nat>, keys := addressMap.contents, {}, BaseKeys(base);
      VisitNone(m, keys);
      var i := 0;
      while i < |all|
        invariant i <= |all| && Visited(all, i, visited)
        invariant Valid() && dest.Valid() && (base != null ==> base.Valid()) && BaseKeys(base) == keys
        invariant Visiting(m, keys, visited, dest)
      {
        VisitNext(all, i, visited, m);
        VisitEntry(all[i], base, dest, m, keys, visited);
        visited := visited + {all[i].key};
        i := i + 1;
      }
      VisitedAll(all, visited, m);
    }

    /** The objects without a live flag that `base` does not hold; clears every live flag. */
    method NonLiveSnapshot(base: Snapshot?) returns (s: Snapshot)
      requires Valid() && (base != null ==> base.Valid() && base.objects != addressMap && base.objects.hashtable != addressMap.hashtable)
      modifies addressMap`contents, addressMap.hashtable
      ensures fresh(s) && fresh(s.objects) && fresh(s.objects.hashtable)
      ensures Valid() && s.Valid()
      ensures addressMap.contents == Unmarked(old(addressMap.contents), old(addressMap.contents.Keys))
      ensures s.objects.contents == NonLive(old(addressMap.contents), BaseKeys(base), old(addressMap.contents.Keys))
    {
      var all := addressMap.Iterate();
      s := new Snapshot();
      AddAllNonLive(all, base, s);
    }
  }
}
