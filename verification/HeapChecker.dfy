/** The heap leak checker (heap-checker.cc): the hooks, the flood and the leak check itself. */
module HeapCheckers {

  import opened Collections
  import opened Wrappers
  import opened AddressMaps
  import opened HeapProfiles
  import opened HeapProfileTables
  import opened LiveFloods
  import Arithmetic

  /** The recorded objects with their sizes. */
  ghost function Sizes(m: map<nat, AllocValue>): (r: map<nat, nat>)
    ensures r.Keys == m.Keys && forall k :: k in m ==> r[k] == m[k].bytes
    decreases |m|
  {
    if m == map[] then map[] else
      var k :| k in m;
      Sizes(m - {k})[k := m[k].bytes]
  }

  /** Every recorded object lies between the two addresses and is not larger than the largest size. */
  ghost predicate Bounded(m: map<nat, AllocValue>, lo: nat, hi: nat, largest: nat) {
    forall k: nat {:trigger Fits(m, lo, hi, largest, k)} :: Fits(m, lo, hi, largest, k)
  }

  ghost predicate Fits(m: map<nat, AllocValue>, lo: nat, hi: nat, largest: nat, k: nat) {
    k in m ==> lo <= k && k + m[k].bytes <= hi && m[k].bytes <= largest
  }

  /** A block that overlaps no recorded object, except that it may replace the one at its own address. */
  ghost predicate Clear(m: map<nat, AllocValue>, ptr: nat, size: nat) {
    forall k :: k in m ==> (k < ptr ==> k + m[k].bytes <= ptr) && (ptr < k ==> ptr + size <= k)
  }

  lemma SameObjectsKeep(m: map<nat, AllocValue>, n: map<nat, AllocValue>, lo: nat, hi: nat, largest: nat)
    requires SameObjects(m, n) && Bounded(m, lo, hi, largest) && NonOverlapping(m, SizeOf)
    ensures Bounded(n, lo, hi, largest) && NonOverlapping(n, SizeOf)
  {
    SameSizes(m, n);
    forall k: nat ensures Fits(n, lo, hi, largest, k) { assert Fits(m, lo, hi, largest, k); }
    forall a: nat, b: nat ensures AddressMaps.Apart(n, SizeOf, a, b) { assert AddressMaps.Apart(m, SizeOf, a, b); }
  }

  lemma SameSizes(m: map<nat, AllocValue>, n: map<nat, AllocValue>)
    requires SameObjects(m, n)
    ensures Sizes(n) == Sizes(m) && forall k :: k in m ==> m[k].bytes == n[k].bytes
  {
    forall k | k in m ensures m[k].bytes == n[k].bytes { assert SameObject(m, n, k); }
  }

  lemma SameObjectsTrans(a: map<nat, AllocValue>, b: map<nat, AllocValue>, c: map<nat, AllocValue>)
    requires SameObjects(a, b) && SameObjects(b, c)
    ensures SameObjects(a, c)
  {
    forall k: nat ensures SameObject(a, c, k) { assert SameObject(a, b, k) && SameObject(b, c, k); }
  }

  /** The quick test on addresses lets every pointer into a recorded object through. */
  lemma FilterKeepsEdges(m: map<nat, AllocValue>, lo: nat, hi: nat, largest: nat, maxSize: nat, word: nat, e: nat)
    requires Bounded(m, lo, hi, largest) && PointsTo(Sizes(m), maxSize, word, e)
    ensures lo <= word <= hi
  {
    assert Fits(m, lo, hi, largest, e);
  }

  /** One word looked at: what it points into is live, and goes on the list when it was not live before. */
  ghost predicate Followed(sizes: map<nat, nat>, maxSize: nat, word: nat, live: set<nat>, stack: seq<Region>,
                           live': set<nat>, stack': seq<Region>) {
    || (live' == live && stack' == stack && forall e :: PointsTo(sizes, maxSize, word, e) ==> e in live)
    || exists e :: FollowedTo(sizes, maxSize, word, live, stack, live', stack', e)
  }

  ghost predicate FollowedTo(sizes: map<nat, nat>, maxSize: nat, word: nat, live: set<nat>, stack: seq<Region>,
                             live': set<nat>, stack': seq<Region>, e: nat) {
    && PointsTo(sizes, maxSize, word, e) && (forall x :: PointsTo(sizes, maxSize, word, x) ==> x == e)
    && e !in live && live' == live + {e}
    && stack' == stack + [Region(e, sizes[e], IgnoredOnHeap)]
  }

  /** A region looked at up to `upto`. */
  ghost predicate Swept(w: World, r: Region, upto: nat, live: set<nat>, stack: seq<Region>, live': set<nat>, stack': seq<Region>) {
    && (forall e :: e in live' <==> e in live || HitBelow(w, r, upto, e))
    && (live' == live ==> stack' == stack)
    && (forall q :: q in stack ==> q in stack')
    && (forall q :: q in stack' ==> q in stack || (q.start in w.sizes && q == Body(w, q.start) && q.start in live'))
    && (forall e :: e in live' && e !in live && e in w.sizes ==> Body(w, e) in stack')
    && (forall q :: q in stack' ==> q in stack || HitBelow(w, r, upto, q.start))
  }

  /** The whole region looked at, after marking it when it is a heap object. */
  ghost predicate SweptFrom(w: World, r: Region, live: set<nat>, stack: seq<Region>, live': set<nat>, stack': seq<Region>) {
    Swept(w, r, r.start + r.size, live + (if r.place.MustBeOnHeap? then {r.start} else {}), stack, live', stack')
  }

  lemma SweptStart(w: World, r: Region, first: nat, live: set<nat>, stack: seq<Region>)
    requires FirstLooked(w.align, r, first)
    ensures Swept(w, r, first, live, stack, live, stack)
  {
    ScanStart(w, r, first);
  }

  lemma SweptNext(w: World, r: Region, p: nat, next: nat, live: set<nat>, stack: seq<Region>, live1: set<nat>, stack1: seq<Region>,
                  live2: set<nat>, stack2: seq<Region>)
    requires OnGrid(w.align, r, p) && p + WORD_BYTES <= r.start + r.size && Swept(w, r, p, live, stack, live1, stack1)
    requires Followed(w.sizes, w.maxSize, w.mem(p), live1, stack1, live2, stack2) && next == p + w.align
    ensures OnGrid(w.align, r, next) && Swept(w, r, next, live, stack, live2, stack2)
  {
    ScanNext(w, r, p, 0);
    forall e ensures HitBelow(w, r, next, e) <==> HitBelow(w, r, p, e) || Points(w, p, e) { ScanNext(w, r, p, e); }
    if stack1 != stack2 {
      var e :| FollowedTo(w.sizes, w.maxSize, w.mem(p), live1, stack1, live2, stack2, e);
      assert Points(w, p, e);
      assert Body(w, e) in stack2;
    }
  }

  lemma SweptEnd(w: World, r: Region, p: nat, live: set<nat>, stack: seq<Region>, live': set<nat>, stack': seq<Region>)
    requires p + WORD_BYTES > r.start + r.size && Swept(w, r, p, live, stack, live', stack')
    ensures Swept(w, r, r.start + r.size, live, stack, live', stack')
  {
    forall e ensures HitBelow(w, r, p, e) <==> Hit(w, r, e) { ScanEnd(w, r, p, e); }
  }

  lemma FollowNothing(m: map<nat, AllocValue>, maxSize: nat, word: nat, stack: seq<Region>)
    requires NoneInReach(m, SizeOf, maxSize, word)
    ensures SameObjects(m, m) && Followed(Sizes(m), maxSize, word, LiveSet(m), stack, LiveSet(m), stack)
  {
  }

  lemma FollowObject(m: map<nat, AllocValue>, maxSize: nat, word: nat, ptr: nat, stack: seq<Region>)
    requires NonOverlapping(m, SizeOf) && ptr in m && Inside(ptr, m[ptr].bytes, word) && WithinReach(ptr, maxSize, word)
    ensures SameObjects(m, MarkLive(m, ptr))
    ensures Followed(Sizes(m), maxSize, word, LiveSet(m), stack, LiveSet(MarkLive(m, ptr)),
                     if m[ptr].live then stack else stack + [Region(ptr, m[ptr].bytes, IgnoredOnHeap)])
  {
    forall x | PointsTo(Sizes(m), maxSize, word, x) ensures x == ptr { InsideUnique(m, SizeOf, word, x, ptr); }
    MarkLiveSpec(m, ptr);
    if m[ptr].live {
      assert LiveSet(MarkLive(m, ptr)) == LiveSet(m);
    } else {
      assert FollowedTo(Sizes(m), maxSize, word, LiveSet(m), stack, LiveSet(MarkLive(m, ptr)),
                        stack + [Region(ptr, m[ptr].bytes, IgnoredOnHeap)], ptr);
    }
  }

  /** The recorded objects with their marks, as a world to search. */
  ghost function WorldOf(mem: nat -> nat, align: nat, m: map<nat, AllocValue>, maxSize: nat): World {
    World(mem, align, Sizes(m), maxSize)
  }

  lemma ScannedAt(mem: nat -> nat, w: World, r: Region, at: nat, next: nat,
                  m: map<nat, AllocValue>, live: set<nat>, stack: seq<Region>,
                  m1: map<nat, AllocValue>, live1: set<nat>, stack1: seq<Region>, live2: set<nat>, stack2: seq<Region>)
    requires SameObjects(m, m1) && OnGrid(w.align, r, at) && at + WORD_BYTES <= r.start + r.size && next == at + w.align
    requires w == WorldOf(mem, w.align, m, w.maxSize) && Swept(w, r, at, live, stack, live1, stack1)
    requires Followed(Sizes(m1), w.maxSize, mem(at), live1, stack1, live2, stack2)
    ensures OnGrid(w.align, r, next) && Swept(w, r, next, live, stack, live2, stack2)
  {
    SameSizes(m, m1);
    FollowedIn(w, Sizes(m1), mem, at, live1, stack1, live2, stack2);
    SweptNext(w, r, at, next, live, stack, live1, stack1, live2, stack2);
  }

  lemma FollowedIn(w: World, sizes: map<nat, nat>, mem: nat -> nat, at: nat, live: set<nat>, stack: seq<Region>, live': set<nat>, stack': seq<Region>)
    requires w.sizes == sizes && w.mem == mem && Followed(sizes, w.maxSize, mem(at), live, stack, live', stack')
    ensures Followed(w.sizes, w.maxSize, w.mem(at), live, stack, live', stack')
  {
  }

  lemma WiderBounds(m: map<nat, AllocValue>, lo: nat, hi: nat, largest: nat, lo': nat, hi': nat, largest': nat)
    requires Bounded(m, lo, hi, largest) && lo' <= lo && hi <= hi' && largest <= largest'
    ensures Bounded(m, lo', hi', largest')
  {
    forall k: nat ensures Fits(m, lo', hi', largest', k) { assert Fits(m, lo, hi, largest, k); }
  }

  lemma NewObject(m: map<nat, AllocValue>, lo: nat, hi: nat, largest: nat, lo': nat, hi': nat, largest': nat, ptr: nat, v: AllocValue)
    requires Bounded(m, lo, hi, largest) && NonOverlapping(m, SizeOf) && Clear(m, ptr, v.bytes)
    requires lo' <= lo && hi <= hi' && largest <= largest' && lo' <= ptr && ptr + v.bytes <= hi' && v.bytes <= largest'
    ensures Bounded(m[ptr := v], lo', hi', largest') && NonOverlapping(m[ptr := v], SizeOf)
  {
    var n := m[ptr := v];
    forall k: nat ensures Fits(n, lo', hi', largest', k) { assert Fits(m, lo, hi, largest, k); }
    forall a: nat, b: nat ensures AddressMaps.Apart(n, SizeOf, a, b) { assert AddressMaps.Apart(m, SizeOf, a, b); }
  }

  lemma FewerObjects(m: map<nat, AllocValue>, lo: nat, hi: nat, largest: nat, ptr: nat)
    requires Bounded(m, lo, hi, largest) && NonOverlapping(m, SizeOf)
    ensures Bounded(m - {ptr}, lo, hi, largest) && NonOverlapping(m - {ptr}, SizeOf)
  {
    forall k: nat ensures Fits(m - {ptr}, lo, hi, largest, k) { assert Fits(m, lo, hi, largest, k); }
    forall a: nat, b: nat ensures AddressMaps.Apart(m - {ptr}, SizeOf, a, b) { assert AddressMaps.Apart(m, SizeOf, a, b); }
  }

  function RootOf(e: Entry<AllocValue>): Region { Region(e.key, e.value.bytes, MustBeOnHeap) }

  ghost function IgnoredRegions(m: map<nat, AllocValue>): set<Region> {
    set k | k in m && m[k].ignored :: Region(k, m[k].bytes, MustBeOnHeap)
  }

  lemma AllIgnored(all: seq<Entry<AllocValue>>, m: map<nat, AllocValue>, roots: seq<Region>)
    requires Lists(all, m)
    requires forall r :: r in roots <==> exists j :: 0 <= j < |all| && all[j].value.ignored && r == RootOf(all[j])
    ensures Regions(roots) == IgnoredRegions(m)
  {
    forall r ensures r in roots <==> r in IgnoredRegions(m) {
      if r in roots {
        var j :| 0 <= j < |all| && all[j].value.ignored && r == RootOf(all[j]);
        assert all[j] in all;
      }
      if r in IgnoredRegions(m) {
        assert Entry(r.start, m[r.start]) in all;
        var j :| 0 <= j < |all| && all[j] == Entry(r.start, m[r.start]);
        assert r == RootOf(all[j]);
      }
    }
  }

  ghost function AllRegions(phases: seq<seq<Region>>): set<Region> {
    set i, r | 0 <= i < |phases| && r in phases[i] :: r
  }

  lemma SameObjectsRefl(m: map<nat, AllocValue>)
    ensures SameObjects(m, m)
  {
  }

  lemma NoRegions(w: World, phases: seq<seq<Region>>)
    ensures ReachSet(w, AllRegions(phases[..0])) == {}
  {
  }

  lemma NextPhase(w: World, phases: seq<seq<Region>>, i: nat)
    requires i < |phases| && RootsOk(w, AllRegions(phases))
    ensures RootsOk(w, Regions(phases[i]))
    ensures ReachSet(w, AllRegions(phases[..i + 1])) == ReachSet(w, AllRegions(phases[..i])) + ReachSet(w, Regions(phases[i]))
  {
    assert AllRegions(phases[..i + 1]) == AllRegions(phases[..i]) + Regions(phases[i]) by {
      var a, b, c := AllRegions(phases[..i + 1]), AllRegions(phases[..i]), Regions(phases[i]);
      forall r | r in a ensures r in b + c {
        var j :| 0 <= j < i + 1 && r in phases[..i + 1][j];
        assert j < i ==> r in phases[..i][j];
      }
      forall r | r in b + c ensures r in a {
        if r in c {
          assert r in phases[..i + 1][i];
        } else {
          var j :| 0 <= j < i && r in phases[..i][j];
          assert r in phases[..i + 1][j];
        }
      }
    }
    ReachUnion(w, AllRegions(phases[..i]), Regions(phases[i]));
    forall r | r in Regions(phases[i]) ensures r in AllRegions(phases) { assert r in phases[i]; }
  }

  /** The cap on the offset of a pointer inside an object; no cap beyond the largest object by default. */
  function Cap(offset: Option<nat>, largest: nat): nat {
    if offset.Some? && offset.value < largest then offset.value else largest
  }

  ghost function AllRoots(m: map<nat, AllocValue>, before: seq<seq<Region>>, after: seq<seq<Region>>): set<Region> {
    AllRegions(before) + IgnoredRegions(m) + AllRegions(after)
  }

  /** The recorded objects that are neither reachable nor in the base. */
  ghost function Leaks(w: World, roots: set<Region>, m: map<nat, AllocValue>, base: set<nat>): map<nat, AllocValue> {
    m - (set k | k in m && (k in ReachSet(w, roots) || k in base))
  }

  /** What a check with this alignment and cap reports. */
  ghost function LeaksAt(mem: nat -> nat, align: nat, maxSize: nat, m: map<nat, AllocValue>,
                         before: seq<seq<Region>>, after: seq<seq<Region>>, base: set<nat>): map<nat, AllocValue> {
    Leaks(WorldOf(mem, align, m, maxSize), AllRoots(m, before, after), m, base)
  }

  /** What a leak check must report, said without the cap on sizes and without the flood. Nothing is reported
      that is live by words at most `offset` bytes inside objects. Everything is that is not live even by words a
      block further in. And when no object is larger than the offset, or there is none, exactly the objects that
      no chain of words lying inside objects leads to. Objects of the base are never reported. */
  ghost predicate ReportsLeaks(mem: nat -> nat, align: nat, offset: Option<nat>, m: map<nat, AllocValue>, roots: set<Region>,
                               base: set<nat>, reported: set<nat>) {
    && reported <= m.Keys - base
    && (forall k :: k in reported ==> !Live(mem, align, Sizes(m), offset, roots, k))
    && (offset.Some? ==> forall k :: k in m && k !in base && !Live(mem, align, Sizes(m), Some(offset.value + K_BLOCK), roots, k) ==> k in reported)
    && ((offset.Some? ==> forall k :: k in m ==> m[k].bytes <= offset.value) ==>
          forall k :: k in m ==> (k in reported <==> k !in base && !Live(mem, align, Sizes(m), None, roots, k)))
  }

  lemma LeaksReported(mem: nat -> nat, align: nat, offset: Option<nat>, m: map<nat, AllocValue>, lo: nat, hi: nat, largest: nat,
                      before: seq<seq<Region>>, after: seq<seq<Region>>, base: set<nat>)
    requires Bounded(m, lo, hi, largest)
    ensures ReportsLeaks(mem, align, offset, m, AllRoots(m, before, after), base,
                         LeaksAt(mem, align, Cap(offset, largest), m, before, after, base).Keys)
  {
    var w, roots := WorldOf(mem, align, m, Cap(offset, largest)), AllRoots(m, before, after);
    assert forall k :: k in m ==> m[k].bytes <= largest by {
      forall k | k in m ensures m[k].bytes <= largest { assert Fits(m, lo, hi, largest, k); }
    }
    forall k | k in m && Live(mem, align, Sizes(m), offset, roots, k) ensures k in ReachSet(w, roots) { LiveReached(w, offset, roots, k); }
    if offset.Some? {
      forall k | k in ReachSet(w, roots) ensures Live(mem, align, Sizes(m), Some(offset.value + K_BLOCK), roots, k) {
        ReachedLive(w, Some(offset.value + K_BLOCK), roots, k);
      }
    }
    if offset.Some? ==> forall k :: k in m ==> m[k].bytes <= offset.value {
      forall k | k in m ensures k in ReachSet(w, roots) <==> Live(mem, align, Sizes(m), None, roots, k) {
        if k in ReachSet(w, roots) { ReachedLive(w, None, roots, k); }
        if Live(mem, align, Sizes(m), None, roots, k) { LiveReached(w, None, roots, k); }
      }
    }
  }

  lemma SameIgnored(m: map<nat, AllocValue>, n: map<nat, AllocValue>)
    requires SameObjects(m, n)
    ensures IgnoredRegions(m) == IgnoredRegions(n)
  {
    forall k | k in m ensures m[k].bytes == n[k].bytes && m[k].ignored == n[k].ignored { assert SameObject(m, n, k); }
  }

  lemma ReachThree(w: World, a: set<Region>, b: set<Region>, c: set<Region>)
    ensures ReachSet(w, a + b + c) == {} + ReachSet(w, a) + ReachSet(w, b) + ReachSet(w, c)
  {
    ReachUnion(w, a, b);
    ReachUnion(w, a + b, c);
  }

  /** After a flood from no marks the snapshot holds the leaks, and the marks are as before. */
  lemma Collected(w: World, roots: set<Region>, m: map<nat, AllocValue>, m1: map<nat, AllocValue>, base: set<nat>)
    requires SameObjects(m, m1) && LiveSet(m) == {} && LiveSet(m1) == ReachSet(w, roots)
    ensures Unmarked(m1, m1.Keys) == m
    ensures NonLive(m1, base, m1.Keys) == Leaks(w, roots, m, base)
  {
    var reached := ReachSet(w, roots);
    forall k | k in m ensures !m[k].live && m1[k].(live := false) == m[k] && (k in reached <==> m1[k].live) {
      assert SameObject(m, m1, k);
      assert k !in LiveSet(m);
    }
  }

  /** What was allocated while checking was disabled is never reported. */
  lemma NoIgnoredLeaks(w: World, m: map<nat, AllocValue>, before: seq<seq<Region>>, after: seq<seq<Region>>, base: set<nat>)
    requires w.sizes == Sizes(m)
    ensures forall k :: k in Leaks(w, AllRoots(m, before, after), m, base) ==> !m[k].ignored
  {
    forall k | k in m && m[k].ignored ensures k in ReachSet(w, AllRoots(m, before, after)) {
      assert Region(k, m[k].bytes, MustBeOnHeap) in AllRoots(m, before, after);
      assert Reachable(w, AllRoots(m, before, after), k);
    }
  }

  /** Without alignment no more leaks are reported. */
  lemma FinerLeaks(w: World, roots: set<Region>, m: map<nat, AllocValue>, base: set<nat>)
    ensures Leaks(w.(align := 1), roots, m, base).Keys <= Leaks(w, roots, m, base).Keys
  {
    FinerReaches(w, roots);
  }

  lemma FinerLeaksAt(mem: nat -> nat, align: nat, maxSize: nat, m: map<nat, AllocValue>,
                     before: seq<seq<Region>>, after: seq<seq<Region>>, base: set<nat>)
    ensures LeaksAt(mem, 1, maxSize, m, before, after, base).Keys <= LeaksAt(mem, align, maxSize, m, before, after, base).Keys
  {
    FinerLeaks(WorldOf(mem, align, m, maxSize), AllRoots(m, before, after), m, base);
  }

  lemma NoIgnoredAt(mem: nat -> nat, align: nat, maxSize: nat, m: map<nat, AllocValue>,
                    before: seq<seq<Region>>, after: seq<seq<Region>>, base: set<nat>)
    ensures forall k :: k in LeaksAt(mem, align, maxSize, m, before, after, base) ==> k in m && !m[k].ignored
  {
    NoIgnoredLeaks(WorldOf(mem, align, m, maxSize), m, before, after, base);
  }

  /** The objects in a snapshot; none without one. */
  ghost function Keys(s: Snapshot?): set<nat>
    reads s, if s == null then {} else {s.objects}
  {
    if s == null then {} else s.objects.contents.Keys
  }

  class HeapChecker {
    const profile: HeapProfileTable
    var minAddress: nat
    var maxAddress: nat
    var maxObjectSize: nat
    var on: bool

    ghost function Objects(): map<nat, AllocValue>
      reads profile.addressMap
    {
      profile.addressMap.contents
    }

    ghost predicate Valid()
      reads this, profile, profile.bucketTable, profile.addressMap, profile.addressMap.hashtable
    {
      && profile.Valid()
      && Bounded(Objects(), minAddress, maxAddress, maxObjectSize)
      && NonOverlapping(Objects(), SizeOf)
    }

    constructor ()
      ensures Valid() && on && Objects() == map[]
      ensures fresh(profile) && fresh(profile.bucketTable) && fresh(profile.addressMap) && fresh(profile.addressMap.hashtable)
    {
      profile := new HeapProfileTable();
      minAddress, maxAddress, maxObjectSize, on := 0xffff_ffff_ffff_ffff, 0, 0, true;
    }

    /** HaveOnHeapLocked and MarkAsLive for one word that passed the quick test. */
    method FollowWord(word: nat, maxSize: nat, stack: seq<Region>) returns (stack': seq<Region>)
      requires Valid()
      modifies profile.addressMap`contents, profile.addressMap.hashtable
      ensures profile.Valid() && SameObjects(old(Objects()), Objects())
      ensures Followed(old(Sizes(Objects())), maxSize, word, old(LiveSet(Objects())), stack, LiveSet(Objects()), stack')
    {
      ghost var m := Objects();
      var r := profile.FindInsideAlloc(word, maxSize);
      if r == None {
        FollowNothing(m, maxSize, word, stack);
        return stack;
      }
      var (ptr, size) := r.value;
      FollowObject(m, maxSize, word, ptr, stack);
      var marked := profile.MarkAsLive(ptr);
      stack' := if marked then stack + [Region(ptr, size, IgnoredOnHeap)] else stack;
    }

    /** One word of memory, with the quick test on addresses first. */
    method TryWord(word: nat, maxSize: nat, stack: seq<Region>) returns (stack': seq<Region>)
      requires Valid()
      modifies profile.addressMap`contents, profile.addressMap.hashtable
      ensures Valid() && SameObjects(old(Objects()), Objects())
      ensures Followed(old(Sizes(Objects())), maxSize, word, old(LiveSet(Objects())), stack, LiveSet(Objects()), stack')
    {
      ghost var m := Objects();
      if word <= maxAddress && minAddress <= word {
        stack' := FollowWord(word, maxSize, stack);
        SameObjectsKeep(m, Objects(), minAddress, maxAddress, maxObjectSize);
      } else {
        forall e ensures !PointsTo(Sizes(m), maxSize, word, e) {
          if PointsTo(Sizes(m), maxSize, word, e) { FilterKeepsEdges(m, minAddress, maxAddress, maxObjectSize, maxSize, word, e); }
        }
        stack' := stack;
      }
    }
  
    /** The word at one position; `m` and `stack0` are the state at the start of the scan. */
    method ScanAt(mem: nat -> nat, align: nat, maxSize: nat, r: Region, at: nat, stack: seq<Region>,
                  ghost m: map<nat, AllocValue>, ghost stack0: seq<Region>) returns (stack': seq<Region>, next: nat)
      requires Valid() && SameObjects(m, Objects())
      requires OnGrid(align, r, at) && at + WORD_BYTES <= r.start + r.size
      requires Swept(WorldOf(mem, align, m, maxSize), r, at, LiveSet(m), stack0, LiveSet(Objects()), stack)
      modifies profile.addressMap`contents, profile.addressMap.hashtable
      ensures at < next && Valid() && SameObjects(m, Objects()) && OnGrid(align, r, next)
      ensures Swept(WorldOf(mem, align, m, maxSize), r, next, LiveSet(m), stack0, LiveSet(Objects()), stack')
    {
      assert align > 0;
      next := at + align;
      ghost var m1 := Objects();
      stack' := TryWord(mem(at), maxSize, stack);
      SameObjectsTrans(m, m1, Objects());
      ScannedAt(mem, WorldOf(mem, align, m, maxSize), r, at, next, m, LiveSet(m), stack0, m1, LiveSet(m1), stack, LiveSet(Objects()), stack');
    }

    /** The words of a region from its first aligned position on. */
    method ScanFrom(mem: nat -> nat, align: nat, maxSize: nat, r: Region, first: nat, stack: seq<Region>) returns (stack': seq<Region>)
      requires Valid() && FirstLooked(align, r, first)
      modifies profile.addressMap`contents, profile.addressMap.hashtable
      ensures Valid() && SameObjects(old(Objects()), Objects())
      ensures Swept(WorldOf(mem, align, old(Objects()), maxSize), r, r.start + r.size,
                    old(LiveSet(Objects())), stack, LiveSet(Objects()), stack')
    {
      ghost var m := Objects();
      ghost var w := WorldOf(mem, align, m, maxSize);
      SweptStart(w, r, first, LiveSet(m), stack);
      var at := first;
      stack' := stack;
      while at + WORD_BYTES <= r.start + r.size
        invariant OnGrid(align, r, at) && Valid() && SameObjects(m, Objects())
        invariant Swept(w, r, at, LiveSet(m), stack, LiveSet(Objects()), stack')
      {
        stack', at := ScanAt(mem, align, maxSize, r, at, stack', m, stack);
      }
      SweptEnd(w, r, at, LiveSet(m), stack, LiveSet(Objects()), stack');
    }

    /** The scan of one region: from its first aligned position, one alignment step at a time. */
    method ScanRegion(mem: nat -> nat, align: nat, maxSize: nat, r: Region, stack: seq<Region>) returns (stack': seq<Region>)
      requires Valid() && align > 0
      modifies profile.addressMap`contents, profile.addressMap.hashtable
      ensures Valid() && SameObjects(old(Objects()), Objects())
      ensures Swept(WorldOf(mem, align, old(Objects()), maxSize), r, r.start + r.size,
                    old(LiveSet(Objects())), stack, LiveSet(Objects()), stack')
    {
      var at, size := FirstPosition(align, r);
      if size < WORD_BYTES {
        ghost var w := WorldOf(mem, align, Objects(), maxSize);
        SweptStart(w, r, at, LiveSet(Objects()), stack);
        SweptEnd(w, r, at, LiveSet(Objects()), stack, LiveSet(Objects()), stack);
        stack' := stack;
      } else {
        stack' := ScanFrom(mem, align, maxSize, r, at, stack);
      }
    }

    /** A root that is a heap object is live. */
    method MarkRoot(r: Region)
      requires Valid() && (r.place.MustBeOnHeap? ==> r.start in Objects())
      modifies profile.addressMap`contents, profile.addressMap.hashtable
      ensures Valid() && SameObjects(old(Objects()), Objects())
      ensures LiveSet(Objects()) == old(LiveSet(Objects())) + (if r.place.MustBeOnHeap? then {r.start} else {})
    {
      if r.place.MustBeOnHeap? {
        ghost var m := Objects();
        MarkLiveSpec(m, r.start);
        var marked := profile.MarkAsLive(r.start);
        SameObjectsKeep(m, Objects(), minAddress, maxAddress, maxObjectSize);
      }
    }

    /** Marks a region if it is a heap object, and scans it. */
    method MarkAndScan(mem: nat -> nat, align: nat, maxSize: nat, r: Region, stack: seq<Region>, ghost w: World, ghost live: set<nat>)
      returns (stack': seq<Region>)
      requires Valid() && align > 0 && (r.place.MustBeOnHeap? ==> r.start in Objects())
      requires w == WorldOf(mem, align, Objects(), maxSize) && live == LiveSet(Objects())
      modifies profile.addressMap`contents, profile.addressMap.hashtable
      ensures Valid() && SameObjects(old(Objects()), Objects())
      ensures SweptFrom(w, r, live, stack, LiveSet(Objects()), stack')
    {
      ghost var m := Objects();
      MarkRoot(r);
      ghost var m1 := Objects();
      SameSizes(m, m1);
      stack' := ScanRegion(mem, align, maxSize, r, stack);
      SameObjectsTrans(m, m1, Objects());
    }

    /** Takes the last region from the list. */
    method FloodOne(mem: nat -> nat, align: nat, maxSize: nat, stack: seq<Region>, ghost w: World, ghost before: set<nat>, ghost roots: set<Region>)
      returns (stack': seq<Region>)
      requires Valid() && align > 0 && stack != [] && w == WorldOf(mem, align, Objects(), maxSize) && RootsOk(w, roots)
      requires Flooding(w, before, roots, LiveSet(Objects()), Regions(stack))
      modifies profile.addressMap`contents, profile.addressMap.hashtable
      ensures Valid() && SameObjects(old(Objects()), Objects())
      ensures Flooding(w, before, roots, LiveSet(Objects()), Regions(stack'))
      ensures old(LiveSet(Objects())) <= LiveSet(Objects())
      ensures LiveSet(Objects()) == old(LiveSet(Objects())) ==> |stack'| < |stack|
    {
      ghost var live := LiveSet(Objects());
      var r := stack[|stack| - 1];
      RootRecorded(w, before, roots, live, stack);
      stack' := MarkAndScan(mem, align, maxSize, r, stack[..|stack| - 1], w, live);
      FloodedOne(w, before, roots, stack, live, LiveSet(Objects()), stack');
    }

    /** The flood: from marks that are closed, marks exactly what is reachable from the roots as well. */
    method IgnoreLiveObjects(mem: nat -> nat, align: nat, maxSize: nat, roots: seq<Region>)
      requires Valid() && align > 0
      requires RootsOk(WorldOf(mem, align, Objects(), maxSize), Regions(roots))
      requires Closed(WorldOf(mem, align, Objects(), maxSize), LiveSet(Objects()))
      modifies profile.addressMap`contents, profile.addressMap.hashtable
      ensures Valid() && SameObjects(old(Objects()), Objects())
      ensures var w := WorldOf(mem, align, old(Objects()), maxSize);
              && LiveSet(Objects()) == old(LiveSet(Objects())) + ReachSet(w, Regions(roots))
              && Closed(w, LiveSet(Objects()))
    {
      ghost var m := Objects();
      ghost var w := WorldOf(mem, align, m, maxSize);
      FloodStart(w, LiveSet(m), Regions(roots));
      var stack := roots;
      while stack != []
        invariant Valid() && SameObjects(m, Objects())
        invariant Flooding(w, LiveSet(m), Regions(roots), LiveSet(Objects()), Regions(stack))
        decreases |m| - |LiveSet(Objects())|, |stack|
      {
        ghost var m1 := Objects();
        SameSizes(m, m1);
        stack := FloodOne(mem, align, maxSize, stack, w, LiveSet(m), Regions(roots));
        SameObjectsTrans(m, m1, Objects());
        FloodProgress(m, m1, Objects());
      }
      assert Regions(stack) == {};
      FloodDone(w, LiveSet(m), Regions(roots), LiveSet(Objects()));
    }

    method Record(ptr: nat, size: nat, stack: seq<nat>, room: nat, ignore: bool) returns (ghost b: nat)
      requires profile.Valid() && Aligned(room) && room !in profile.buckets
      modifies profile, profile.bucketTable, profile.addressMap`contents, profile.addressMap.hashtable
      ensures profile.Valid() && b in profile.buckets && profile.buckets[b].stack == stack
      ensures Objects() == old(Objects())[ptr := AllocValue(b, size, false, ignore)]
    {
      b := profile.RecordAlloc(ptr, size, stack, room);
      if ignore { profile.MarkAsIgnored(ptr); }
    }

    /** NewHook: an allocation widens the bounds and is recorded while the checker is on. */
    method NewHook(ptr: nat, size: nat, stack: seq<nat>, room: nat, ignore: bool)
      requires Valid() && Aligned(room) && room !in profile.buckets && Clear(Objects(), ptr, size)
      modifies this`minAddress, this`maxAddress, this`maxObjectSize, profile, profile.bucketTable,
               profile.addressMap`contents, profile.addressMap.hashtable
      ensures Valid() && on == old(on)
      ensures ptr == 0 || !on ==> Objects() == old(Objects())
      ensures ptr != 0 && on ==> exists b :: b in profile.buckets && profile.buckets[b].stack == stack
                                             && Objects() == old(Objects())[ptr := AllocValue(b, size, false, ignore)]
    {
      if ptr == 0 { return; }
      ghost var m, lo, hi, largest := Objects(), minAddress, maxAddress, maxObjectSize;
      if size > maxObjectSize { maxObjectSize := size; }
      if ptr < minAddress { minAddress := ptr; }
      if ptr + size > maxAddress { maxAddress := ptr + size; }
      if on {
        ghost var b := Record(ptr, size, stack, room, ignore);
        NewObject(m, lo, hi, largest, minAddress, maxAddress, maxObjectSize, ptr, Objects()[ptr]);
      } else {
        WiderBounds(m, lo, hi, largest, minAddress, maxAddress, maxObjectSize);
      }
    }

    method DeleteHook(ptr: nat)
      requires Valid()
      modifies profile, profile.addressMap`contents, profile.addressMap.hashtable
      ensures Valid() && Objects() == if ptr == 0 || !on then old(Objects()) else old(Objects()) - {ptr}
    {
      if ptr == 0 || !on { return; }
      ghost var m := Objects();
      assert KnownEntry(profile.View(), ptr);
      profile.RecordFree(ptr);
      assert Objects() == m - {ptr};
      FewerObjects(m, minAddress, maxAddress, maxObjectSize, ptr);
    }

    /** The recorded objects that were allocated while checking was disabled, as roots. */
    method IgnoredRoots() returns (roots: seq<Region>)
      requires Valid()
      ensures Regions(roots) == IgnoredRegions(Objects())
    {
      var all := profile.IterateAllocs();
      roots := [];
      var i := 0;
      while i < |all|
        invariant i <= |all|
        invariant forall r :: r in roots <==> exists j :: 0 <= j < i && all[j].value.ignored && r == RootOf(all[j])
      {
        if all[i].value.ignored { roots := roots + [RootOf(all[i])]; }
        i := i + 1;
      }
      AllIgnored(all, Objects(), roots);
    }

    /** One flood after another. */
    method FloodAll(mem: nat -> nat, align: nat, maxSize: nat, phases: seq<seq<Region>>)
      requires Valid() && align > 0
      requires RootsOk(WorldOf(mem, align, Objects(), maxSize), AllRegions(phases))
      requires Closed(WorldOf(mem, align, Objects(), maxSize), LiveSet(Objects()))
      modifies profile.addressMap`contents, profile.addressMap.hashtable
      ensures Valid() && SameObjects(old(Objects()), Objects())
      ensures var w := WorldOf(mem, align, old(Objects()), maxSize);
              && LiveSet(Objects()) == old(LiveSet(Objects())) + ReachSet(w, AllRegions(phases))
              && Closed(w, LiveSet(Objects()))
    {
      ghost var m := Objects();
      ghost var w := WorldOf(mem, align, m, maxSize);
      SameObjectsRefl(m);
      NoRegions(w, phases);
      var i := 0;
      while i < |phases|
        invariant i <= |phases| && Valid() && SameObjects(m, Objects())
        invariant LiveSet(Objects()) == LiveSet(m) + ReachSet(w, AllRegions(phases[..i])) && Closed(w, LiveSet(Objects()))
      {
        ghost var m1 := Objects();
        NextPhase(w, phases, i);
        SameSizes(m, m1);
        IgnoreLiveObjects(mem, align, maxSize, phases[i]);
        SameObjectsTrans(m, m1, Objects());
        i := i + 1;
      }
      assert phases[..i] == phases;
    }

    /** IgnoreAllLiveObjects: stacks and ignored objects first, then what was allocated while disabled, then
        the rest. */
    method IgnoreAllLiveObjects(mem: nat -> nat, align: nat, maxSize: nat, before: seq<seq<Region>>, after: seq<seq<Region>>)
      requires Valid() && align > 0 && LiveSet(Objects()) == {}
      requires RootsOk(WorldOf(mem, align, Objects(), maxSize), AllRegions(before) + AllRegions(after))
      modifies profile.addressMap`contents, profile.addressMap.hashtable
      ensures Valid() && SameObjects(old(Objects()), Objects())
      ensures LiveSet(Objects()) == ReachSet(WorldOf(mem, align, old(Objects()), maxSize),
                                             AllRegions(before) + IgnoredRegions(old(Objects())) + AllRegions(after))
    {
      ghost var m := Objects();
      ghost var w := WorldOf(mem, align, m, maxSize);
      FloodAll(mem, align, maxSize, before);
      ghost var m1 := Objects();
      SameSizes(m, m1);
      SameIgnored(m, m1);
      var roots := IgnoredRoots();
      IgnoreLiveObjects(mem, align, maxSize, roots);
      ghost var m2 := Objects();
      SameObjectsTrans(m, m1, m2);
      SameSizes(m, m2);
      FloodAll(mem, align, maxSize, after);
      SameObjectsTrans(m, m2, Objects());
      ReachThree(w, AllRegions(before), IgnoredRegions(m), AllRegions(after));
    }

    /** One check: the flood, and a snapshot of what it left unmarked; every mark is gone afterwards. */
    method CheckOnce(mem: nat -> nat, align: nat, maxSize: nat, before: seq<seq<Region>>, after: seq<seq<Region>>, base: Snapshot?)
      returns (leaks: Snapshot)
      requires Valid() && align > 0 && LiveSet(Objects()) == {}
      requires RootsOk(WorldOf(mem, align, Objects(), maxSize), AllRegions(before) + AllRegions(after))
      requires base != null ==> base.Valid() && base.objects != profile.addressMap && base.objects.hashtable != profile.addressMap.hashtable
      modifies profile.addressMap`contents, profile.addressMap.hashtable
      ensures Valid() && Objects() == old(Objects())
      ensures fresh(leaks) && fresh(leaks.objects) && fresh(leaks.objects.hashtable)
      ensures leaks.Holds(LeaksAt(mem, align, maxSize, Objects(), before, after, BaseKeys(base)))
    {
      ghost var m := Objects();
      IgnoreAllLiveObjects(mem, align, maxSize, before, after);
      ghost var m1 := Objects();
      Collected(WorldOf(mem, align, m, maxSize), AllRoots(m, before, after), m, m1, BaseKeys(base));
      leaks := profile.NonLiveSnapshot(base);
    }

    /** The check without alignment: nothing that was reachable before becomes a leak. */
    method CheckUnaligned(mem: nat -> nat, align: nat, maxSize: nat, before: seq<seq<Region>>, after: seq<seq<Region>>, base: Snapshot?)
      returns (leaks: Snapshot)
      requires Valid() && align > 0 && LiveSet(Objects()) == {}
      requires RootsOk(WorldOf(mem, align, Objects(), maxSize), AllRegions(before) + AllRegions(after))
      requires base != null ==> base.Valid() && base.objects != profile.addressMap && base.objects.hashtable != profile.addressMap.hashtable
      modifies profile.addressMap`contents, profile.addressMap.hashtable
      ensures Valid() && Objects() == old(Objects())
      ensures fresh(leaks) && fresh(leaks.objects) && fresh(leaks.objects.hashtable)
      ensures leaks.Holds(LeaksAt(mem, 1, maxSize, Objects(), before, after, BaseKeys(base)))
      ensures leaks.objects.contents.Keys <= LeaksAt(mem, align, maxSize, Objects(), before, after, BaseKeys(base)).Keys
    {
      FinerLeaksAt(mem, align, maxSize, Objects(), before, after, BaseKeys(base));
      leaks := CheckOnce(mem, 1, maxSize, before, after, base);
    }

    /** The leak check, and the second one without alignment when leaks were found and it is asked for.
        `offset` caps how far inside an object a pointer may point. */
    method DoNoLeaks(mem: nat -> nat, align: nat, offset: Option<nat>, before: seq<seq<Region>>, after: seq<seq<Region>>,
                     base: Snapshot?, testAlignment: bool) returns (leaks: Snapshot?, again: Snapshot?)
      requires Valid() && align > 0 && LiveSet(Objects()) == {}
      requires RootsOk(WorldOf(mem, align, Objects(), 0), AllRegions(before) + AllRegions(after))
      requires base != null ==> base.Valid() && base.objects != profile.addressMap && base.objects.hashtable != profile.addressMap.hashtable
      modifies profile.addressMap`contents, profile.addressMap.hashtable
      ensures Valid() && Objects() == old(Objects())
      ensures !on ==> leaks == null && again == null
      ensures on ==> var found := LeaksAt(mem, align, Cap(offset, maxObjectSize), Objects(), before, after, BaseKeys(base));
                     if found == map[] then leaks == null else leaks != null && leaks.Holds(found)
      ensures again != null <==> leaks != null && testAlignment && align != 1
      ensures again != null ==> && again.Holds(LeaksAt(mem, 1, Cap(offset, maxObjectSize), Objects(), before, after, BaseKeys(base)))
                                && again.objects.contents.Keys <= leaks.objects.contents.Keys
      ensures leaks != null ==> forall k :: k in leaks.objects.contents ==> k in Objects() && !Objects()[k].ignored
      ensures on ==> ReportsLeaks(mem, align, offset, Objects(), AllRoots(Objects(), before, after), BaseKeys(base), Keys(leaks))
      ensures again != null ==> ReportsLeaks(mem, 1, offset, Objects(), AllRoots(Objects(), before, after), BaseKeys(base), Keys(again))
    {
      leaks, again := null, null;
      if on {
        leaks, again := CheckReported(mem, align, offset, before, after, base, testAlignment && align != 1);
      }
    }

    /** The enabled check. */
    method CheckReported(mem: nat -> nat, align: nat, offset: Option<nat>, before: seq<seq<Region>>, after: seq<seq<Region>>,
                         base: Snapshot?, twice: bool) returns (leaks: Snapshot?, again: Snapshot?)
      requires Valid() && align > 0 && LiveSet(Objects()) == {}
      requires RootsOk(WorldOf(mem, align, Objects(), 0), AllRegions(before) + AllRegions(after))
      requires base != null ==> base.Valid() && base.objects != profile.addressMap && base.objects.hashtable != profile.addressMap.hashtable
      modifies profile.addressMap`contents, profile.addressMap.hashtable
      ensures Valid() && Objects() == old(Objects())
      ensures leaks == null <==> LeaksAt(mem, align, Cap(offset, maxObjectSize), Objects(), before, after, BaseKeys(base)) == map[]
      ensures leaks != null ==> leaks.Holds(LeaksAt(mem, align, Cap(offset, maxObjectSize), Objects(), before, after, BaseKeys(base)))
      ensures leaks != null ==> forall k :: k in leaks.objects.contents ==> k in Objects() && !Objects()[k].ignored
      ensures again != null <==> leaks != null && twice
      ensures again != null ==> again.Holds(LeaksAt(mem, 1, Cap(offset, maxObjectSize), Objects(), before, after, BaseKeys(base)))
                                && again.objects.contents.Keys <= leaks.objects.contents.Keys
      ensures ReportsLeaks(mem, align, offset, Objects(), AllRoots(Objects(), before, after), BaseKeys(base), Keys(leaks))
      ensures again != null ==> ReportsLeaks(mem, 1, offset, Objects(), AllRoots(Objects(), before, after), BaseKeys(base), Keys(again))
    {
      LeaksReported(mem, align, offset, Objects(), minAddress, maxAddress, maxObjectSize, before, after, BaseKeys(base));
      LeaksReported(mem, 1, offset, Objects(), minAddress, maxAddress, maxObjectSize, before, after, BaseKeys(base));
      leaks, again := CheckTwice(mem, align, Cap(offset, maxObjectSize), before, after, base, twice);
    }

    method CheckTwice(mem: nat -> nat, align: nat, maxSize: nat, before: seq<seq<Region>>, after: seq<seq<Region>>,
                      base: Snapshot?, twice: bool) returns (leaks: Snapshot?, again: Snapshot?)
      requires Valid() && align > 0 && LiveSet(Objects()) == {}
      requires RootsOk(WorldOf(mem, align, Objects(), maxSize), AllRegions(before) + AllRegions(after))
      requires base != null ==> base.Valid() && base.objects != profile.addressMap && base.objects.hashtable != profile.addressMap.hashtable
      modifies profile.addressMap`contents, profile.addressMap.hashtable
      ensures Valid() && Objects() == old(Objects())
      ensures leaks == null <==> LeaksAt(mem, align, maxSize, Objects(), before, after, BaseKeys(base)) == map[]
      ensures leaks != null ==> leaks.Holds(LeaksAt(mem, align, maxSize, Objects(), before, after, BaseKeys(base)))
      ensures leaks != null ==> forall k :: k in leaks.objects.contents ==> k in Objects() && !Objects()[k].ignored
      ensures again != null <==> leaks != null && twice
      ensures again != null ==> again.Holds(LeaksAt(mem, 1, maxSize, Objects(), before, after, BaseKeys(base)))
                                && again.objects.contents.Keys <= leaks.objects.contents.Keys
    {
      leaks := CheckFirst(mem, align, maxSize, before, after, base);
      again := null;
      if leaks != null && twice {
        again := CheckUnaligned(mem, align, maxSize, before, after, base);
      }
    }

    /** The first check; no snapshot when there are no leaks. */
    method CheckFirst(mem: nat -> nat, align: nat, maxSize: nat, before: seq<seq<Region>>, after: seq<seq<Region>>, base: Snapshot?)
      returns (leaks: Snapshot?)
      requires Valid() && align > 0 && LiveSet(Objects()) == {}
      requires RootsOk(WorldOf(mem, align, Objects(), maxSize), AllRegions(before) + AllRegions(after))
      requires base != null ==> base.Valid() && base.objects != profile.addressMap && base.objects.hashtable != profile.addressMap.hashtable
      modifies profile.addressMap`contents, profile.addressMap.hashtable
      ensures Valid() && Objects() == old(Objects())
      ensures leaks == null <==> LeaksAt(mem, align, maxSize, Objects(), before, after, BaseKeys(base)) == map[]
      ensures leaks != null ==> && fresh(leaks) && fresh(leaks.objects) && fresh(leaks.objects.hashtable)
                                && leaks.Holds(LeaksAt(mem, align, maxSize, Objects(), before, after, BaseKeys(base)))
      ensures leaks != null ==> forall k :: k in leaks.objects.contents ==> k in Objects() && !Objects()[k].ignored
    {
      ghost var m := Objects();
      var found := CheckOnce(mem, align, maxSize, before, after, base);
      NoIgnoredAt(mem, align, maxSize, m, before, after, BaseKeys(base));
      var none := found.Empty();
      leaks := if none then null else found;
    }
  }

  /** One object of the flood, as a step of the work list. */
  lemma FloodedOne(w: World, before: set<nat>, roots: set<Region>, stack: seq<Region>, live: set<nat>,
                   live2: set<nat>, stack2: seq<Region>)
    requires RootsOk(w, roots) && stack != [] && Flooding(w, before, roots, live, Regions(stack))
    requires SweptFrom(w, stack[|stack| - 1], live, stack[..|stack| - 1], live2, stack2)
    ensures Flooding(w, before, roots, live2, Regions(stack2))
    ensures live <= live2 && (live2 == live ==> |stack2| < |stack|)
  {
    var r, rest := stack[|stack| - 1], stack[..|stack| - 1];
    assert stack == rest + [r];
    assert r in Regions(stack);
    assert Scanned(w, live, r, live2);
    assert Pushed(w, r, live, Regions(stack), live2, Regions(stack2)) by {
      forall q | q in Regions(stack2) ensures q in Regions(stack) || (q.start in w.sizes && q == Body(w, q.start) && Hit(w, r, q.start)) {
        if q !in rest { assert HitBelow(w, r, r.start + r.size, q.start); }
      }
    }
    FloodStep(w, before, roots, r, live, Regions(stack), live2, Regions(stack2));
    if live2 == live { assert live + (if r.place.MustBeOnHeap? then {r.start} else {}) == live2; }
  }

  lemma RootRecorded(w: World, before: set<nat>, roots: set<Region>, live: set<nat>, stack: seq<Region>)
    requires RootsOk(w, roots) && stack != [] && Flooding(w, before, roots, live, Regions(stack))
    ensures var r := stack[|stack| - 1]; r.place.MustBeOnHeap? ==> r.start in w.sizes
  {
    var r := stack[|stack| - 1];
    assert r in Regions(stack);
    assert Listed(w, roots, r);
  }

  /** Marks only grow, and there are no more of them than objects. */
  lemma FloodProgress(m: map<nat, AllocValue>, m1: map<nat, AllocValue>, m2: map<nat, AllocValue>)
    requires SameObjects(m, m1) && SameObjects(m, m2) && LiveSet(m1) <= LiveSet(m2)
    ensures |LiveSet(m1)| <= |LiveSet(m2)| <= |m|
    ensures LiveSet(m1) != LiveSet(m2) ==> |LiveSet(m1)| < |LiveSet(m2)|
  {
    LiveSubset(m2);
    SubsetCard(LiveSet(m1), LiveSet(m2));
    assert |m| == |m.Keys| && |m2| == |m2.Keys|;
  }

  lemma LiveSubset(m: map<nat, AllocValue>)
    ensures LiveSet(m) <= m.Keys && |LiveSet(m)| <= |m|
  {
    SubsetCard(LiveSet(m), m.Keys);
  }

  ghost predicate OnGrid(align: nat, r: Region, p: nat) {
    Arithmetic.Multiple(p, align) && r.start <= p
  }

  ghost predicate FirstLooked(align: nat, r: Region, p: nat) {
    OnGrid(align, r, p) && p < r.start + align
  }

  /** Moving the start of a region up to a multiple of the alignment, and what is left of its size. */
  method FirstPosition(align: nat, r: Region) returns (at: nat, size: nat)
    requires align > 0
    ensures FirstLooked(align, r, at)
    ensures size == if at <= r.start + r.size then r.start + r.size - at else 0
  {
    at, size := r.start, r.size;
    Arithmetic.SkipAligned(at, align);
    var remainder := at % align;
    if remainder != 0 {
      at := at + (align - remainder);
      size := if size >= align - remainder then size - (align - remainder) else 0;
    }
    Arithmetic.MultipleMod(at, align);
  }
}
