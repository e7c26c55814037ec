/** The liveness flood of the heap leak checker (heap-checker.cc) as a reachability problem. */
module LiveFloods {

  import opened AddressMaps
  import opened Wrappers
  import Arithmetic

  const WORD_BYTES: nat := 8

  datatype Place = MustBeOnHeap | IgnoredOnHeap | LiveData

  /** A piece of memory to look for pointers in. */
  datatype Region = Region(start: nat, size: nat, place: Place)

  /** The word that can be loaded at each address, the alignment of the positions that are looked at, the
      recorded objects with their sizes, and how far inside an object a pointer may point. */
  datatype World = World(mem: nat -> nat, align: nat, sizes: map<nat, nat>, maxSize: nat)

  /** `p` is looked at when `r` is scanned. */
  ghost predicate Looked(w: World, r: Region, p: nat) {
    Arithmetic.Multiple(p, w.align) && r.start <= p && p + WORD_BYTES <= r.start + r.size
  }

  /** `word` is a pointer into object `e`, at or not too far after its start. */
  ghost predicate PointsTo(sizes: map<nat, nat>, maxSize: nat, word: nat, e: nat) {
    e in sizes && Inside(e, sizes[e], word) && WithinReach(e, maxSize, word)
  }

  /** The word at `p` points into object `e`. */
  ghost predicate Points(w: World, p: nat, e: nat) {
    PointsTo(w.sizes, w.maxSize, w.mem(p), e)
  }

  /** A position of `r` before `upto` holds a pointer into `e`. */
  ghost predicate HitBelow(w: World, r: Region, upto: nat, e: nat) {
    exists p: nat :: p < upto && Looked(w, r, p) && Points(w, p, e)
  }

  ghost predicate Hit(w: World, r: Region, e: nat) {
    HitBelow(w, r, r.start + r.size, e)
  }

  /** The region of a recorded object. */
  function Body(w: World, e: nat): Region
    requires e in w.sizes
  {
    Region(e, w.sizes[e], IgnoredOnHeap)
  }

  // ------------------------------------------------------------------ reachability

  /** A chain of objects: the first is hit from `r`, each next one from the object before it. */
  ghost predicate Chain(w: World, r: Region, path: seq<nat>) {
    && path != []
    && Hit(w, r, path[0])
    && (forall i :: 0 <= i < |path| ==> path[i] in w.sizes)
    && (forall i :: 0 < i < |path| ==> Hit(w, Body(w, path[i - 1]), path[i]))
  }

  ghost predicate ReachedFrom(w: World, r: Region, e: nat) {
    exists path :: Chain(w, r, path) && path[|path| - 1] == e
  }

  /** `e` is a root that is a recorded object, or a chain from a root ends at it. */
  ghost predicate Reachable(w: World, roots: set<Region>, e: nat) {
    e in w.sizes && exists r :: r in roots && ((r.place.MustBeOnHeap? && r.start == e) || ReachedFrom(w, r, e))
  }

  ghost function ReachSet(w: World, roots: set<Region>): set<nat> {
    set e | e in w.sizes && Reachable(w, roots, e)
  }

  /** Roots that claim to be heap objects are recorded with their size. */
  ghost predicate RootsOk(w: World, roots: set<Region>) {
    forall r :: r in roots && r.place.MustBeOnHeap? ==> r.start in w.sizes && w.sizes[r.start] == r.size
  }

  lemma HitIsObject(w: World, r: Region, e: nat)
    requires Hit(w, r, e)
    ensures e in w.sizes
  {
  }

  /** The place of a region does not matter to what it hits. */
  lemma SameHits(w: World, r: Region, q: Region, e: nat)
    requires r.start == q.start && r.size == q.size
    ensures Hit(w, r, e) <==> Hit(w, q, e)
  {
    if Hit(w, r, e) {
      var p: nat :| p < r.start + r.size && Looked(w, r, p) && Points(w, p, e);
      assert Looked(w, q, p);
    }
    if Hit(w, q, e) {
      var p: nat :| p < q.start + q.size && Looked(w, q, p) && Points(w, p, e);
      assert Looked(w, r, p);
    }
  }

  /** A hit from a root is reachable. */
  lemma RootHit(w: World, roots: set<Region>, r: Region, e: nat)
    requires r in roots && Hit(w, r, e)
    ensures Reachable(w, roots, e)
  {
    HitIsObject(w, r, e);
    assert Chain(w, r, [e]);
    assert [e][|[e]| - 1] == e;
    assert ReachedFrom(w, r, e);
  }

  /** A hit from a reachable object is reachable. */
  lemma ReachedHit(w: World, roots: set<Region>, o: nat, e: nat)
    requires RootsOk(w, roots) && Reachable(w, roots, o) && Hit(w, Body(w, o), e)
    ensures Reachable(w, roots, e)
  {
    HitIsObject(w, Body(w, o), e);
    var r :| r in roots && ((r.place.MustBeOnHeap? && r.start == o) || ReachedFrom(w, r, o));
    if ReachedFrom(w, r, o) {
      var path :| Chain(w, r, path) && path[|path| - 1] == o;
      var more := path + [e];
      assert forall i :: 0 <= i < |path| ==> more[i] == path[i];
      forall i | 0 < i < |more| ensures Hit(w, Body(w, more[i - 1]), more[i]) {
        if i < |path| { assert Hit(w, Body(w, path[i - 1]), path[i]); }
      }
      assert Chain(w, r, more) && more[|more| - 1] == e;
      assert ReachedFrom(w, r, e);
    } else {
      SameHits(w, r, Body(w, o), e);
      RootHit(w, roots, r, e);
    }
  }

  /** Every object in `marked` has all it points to in `marked`. */
  ghost predicate Closed(w: World, marked: set<nat>) {
    forall o, e :: o in marked && o in w.sizes && Hit(w, Body(w, o), e) ==> e in marked
  }

  /** A closed set that holds what a root hits holds every chain from it. */
  lemma {:induction false} ChainInside(w: World, r: Region, path: seq<nat>, marked: set<nat>)
    requires Chain(w, r, path) && Closed(w, marked) && forall e :: Hit(w, r, e) ==> e in marked
    ensures path[|path| - 1] in marked
    decreases |path|
  {
    if |path| > 1 {
      var n := |path| - 1;
      assert Chain(w, r, path[..n]) by {
        assert forall i :: 0 <= i < n ==> path[..n][i] == path[i];
        forall i | 0 < i < n ensures Hit(w, Body(w, path[..n][i - 1]), path[..n][i]) { assert Hit(w, Body(w, path[i - 1]), path[i]); }
      }
      ChainInside(w, r, path[..n], marked);
      assert Hit(w, Body(w, path[n - 1]), path[n]);
    }
  }

  /** Roots of two floods in a row. */
  lemma ReachUnion(w: World, a: set<Region>, b: set<Region>)
    ensures ReachSet(w, a + b) == ReachSet(w, a) + ReachSet(w, b)
  {
    forall e ensures Reachable(w, a + b, e) <==> Reachable(w, a, e) || Reachable(w, b, e) {
      if Reachable(w, a + b, e) {
        var r :| r in a + b && ((r.place.MustBeOnHeap? && r.start == e) || ReachedFrom(w, r, e));
      }
      if Reachable(w, a, e) {
        var r :| r in a && ((r.place.MustBeOnHeap? && r.start == e) || ReachedFrom(w, r, e));
        assert r in a + b;
      }
      if Reachable(w, b, e) {
        var r :| r in b && ((r.place.MustBeOnHeap? && r.start == e) || ReachedFrom(w, r, e));
        assert r in a + b;
      }
    }
  }

  /** Looking at more positions reaches no fewer objects. */
  lemma FinerHits(w: World, r: Region, e: nat)
    requires Hit(w, r, e)
    ensures Hit(w.(align := 1), r, e)
  {
    var p: nat :| p < r.start + r.size && Looked(w, r, p) && Points(w, p, e);
    Arithmetic.MultipleMod(p, 1);
    assert Looked(w.(align := 1), r, p) && Points(w.(align := 1), p, e);
  }

  lemma FinerReaches(w: World, roots: set<Region>)
    ensures ReachSet(w, roots) <= ReachSet(w.(align := 1), roots)
  {
    var v := w.(align := 1);
    forall e | Reachable(w, roots, e) ensures Reachable(v, roots, e) {
      var r :| r in roots && ((r.place.MustBeOnHeap? && r.start == e) || ReachedFrom(w, r, e));
      if ReachedFrom(w, r, e) {
        var path :| Chain(w, r, path) && path[|path| - 1] == e;
        FinerHits(w, r, path[0]);
        forall i | 0 < i < |path| ensures Hit(v, Body(v, path[i - 1]), path[i]) {
          assert Hit(w, Body(w, path[i - 1]), path[i]);
          FinerHits(w, Body(w, path[i - 1]), path[i]);
        }
        assert Chain(v, r, path);
        assert ReachedFrom(v, r, e);
      }
    }
  }

  /** Without a cap below the largest object every pointer into an object counts, and only those. */
  lemma UncappedPoints(sizes: map<nat, nat>, maxSize: nat, word: nat, e: nat)
    requires e in sizes && sizes[e] <= maxSize
    ensures PointsTo(sizes, maxSize, word, e) <==> Inside(e, sizes[e], word)
  {
    if Inside(e, sizes[e], word) { OffsetInReach(e, maxSize, word); }
  }

  // ------------------------------------------------------------------ reachability without a world

  /** An aligned word inside `r` lies inside object `e`, at most `offset` bytes after its start if that is given. */
  ghost predicate Links(mem: nat -> nat, align: nat, sizes: map<nat, nat>, offset: Option<nat>, r: Region, e: nat) {
    exists p: nat :: LinkAt(mem, align, sizes, offset, r, e, p)
  }

  ghost predicate LinkAt(mem: nat -> nat, align: nat, sizes: map<nat, nat>, offset: Option<nat>, r: Region, e: nat, p: nat) {
    && Arithmetic.Multiple(p, align) && r.start <= p && p + 8 <= r.start + r.size
    && e in sizes && Inside(e, sizes[e], mem(p)) && (offset.Some? ==> mem(p) <= e + offset.value)
  }

  ghost predicate Linked(mem: nat -> nat, align: nat, sizes: map<nat, nat>, offset: Option<nat>, r: Region, path: seq<nat>) {
    && path != [] && Links(mem, align, sizes, offset, r, path[0])
    && (forall i :: 0 <= i < |path| ==> path[i] in sizes)
    && (forall i :: 0 < i < |path| ==> Links(mem, align, sizes, offset, Region(path[i - 1], sizes[path[i - 1]], IgnoredOnHeap), path[i]))
  }

  /** `e` is a root that is a recorded object, or a chain of such words leads to it from a root. */
  ghost predicate Live(mem: nat -> nat, align: nat, sizes: map<nat, nat>, offset: Option<nat>, roots: set<Region>, e: nat) {
    && e in sizes
    && exists r :: r in roots && ((r.place.MustBeOnHeap? && r.start == e)
                                  || exists path :: Linked(mem, align, sizes, offset, r, path) && path[|path| - 1] == e)
  }

  /** No object is larger than the cap, or the cap is no smaller than the offset. */
  ghost predicate Covers(w: World, offset: Option<nat>) {
    (forall e :: e in w.sizes ==> w.sizes[e] <= w.maxSize) || (offset.Some? && offset.value <= w.maxSize)
  }

  lemma LinksHit(w: World, offset: Option<nat>, r: Region, e: nat)
    requires Covers(w, offset) && Links(w.mem, w.align, w.sizes, offset, r, e)
    ensures Hit(w, r, e)
  {
    var p: nat :| LinkAt(w.mem, w.align, w.sizes, offset, r, e, p);
    OffsetInReach(e, w.maxSize, w.mem(p));
    assert Looked(w, r, p) && Points(w, p, e);
  }

  /** `bound` is at least a block beyond the cap, or not there. */
  ghost predicate Beyond(w: World, bound: Option<nat>) { bound.Some? ==> bound.value >= w.maxSize + K_BLOCK }

  lemma ReachBound(e: nat, maxSize: nat, key: nat)
    requires e <= key && WithinReach(e, maxSize, key)
    ensures key <= e + maxSize + K_BLOCK
  {
    assert e == e / K_BLOCK * K_BLOCK + e % K_BLOCK && key == key / K_BLOCK * K_BLOCK + key % K_BLOCK;
  }

  lemma HitLinks(w: World, bound: Option<nat>, r: Region, e: nat)
    requires Hit(w, r, e) && Beyond(w, bound)
    ensures Links(w.mem, w.align, w.sizes, bound, r, e)
  {
    var p: nat :| p < r.start + r.size && Looked(w, r, p) && Points(w, p, e);
    ReachBound(e, w.maxSize, w.mem(p));
    assert LinkAt(w.mem, w.align, w.sizes, bound, r, e, p);
  }

  lemma LinkedChain(w: World, offset: Option<nat>, r: Region, path: seq<nat>)
    requires Covers(w, offset) && Linked(w.mem, w.align, w.sizes, offset, r, path)
    ensures Chain(w, r, path)
  {
    LinksHit(w, offset, r, path[0]);
    forall i | 0 < i < |path| ensures Hit(w, Body(w, path[i - 1]), path[i]) { LinksHit(w, offset, Body(w, path[i - 1]), path[i]); }
  }

  lemma ChainLinked(w: World, bound: Option<nat>, r: Region, path: seq<nat>)
    requires Chain(w, r, path) && Beyond(w, bound)
    ensures Linked(w.mem, w.align, w.sizes, bound, r, path)
  {
    HitLinks(w, bound, r, path[0]);
    forall i | 0 < i < |path| ensures Links(w.mem, w.align, w.sizes, bound, Region(path[i - 1], w.sizes[path[i - 1]], IgnoredOnHeap), path[i]) {
      HitLinks(w, bound, Body(w, path[i - 1]), path[i]);
    }
  }

  /** What is live by words at most `offset` bytes inside objects is reached, when the cap covers that. */
  lemma LiveReached(w: World, offset: Option<nat>, roots: set<Region>, e: nat)
    requires Covers(w, offset) && Live(w.mem, w.align, w.sizes, offset, roots, e)
    ensures Reachable(w, roots, e)
  {
    var r :| r in roots && ((r.place.MustBeOnHeap? && r.start == e)
                            || exists path :: Linked(w.mem, w.align, w.sizes, offset, r, path) && path[|path| - 1] == e);
    if !(r.place.MustBeOnHeap? && r.start == e) {
      var path :| Linked(w.mem, w.align, w.sizes, offset, r, path) && path[|path| - 1] == e;
      LinkedChain(w, offset, r, path);
      assert ReachedFrom(w, r, e);
    }
  }

  /** Nothing is reached but by words inside objects, at most a block further in than the cap. */
  lemma ReachedLive(w: World, bound: Option<nat>, roots: set<Region>, e: nat)
    requires Reachable(w, roots, e) && Beyond(w, bound)
    ensures Live(w.mem, w.align, w.sizes, bound, roots, e)
  {
    var r :| r in roots && ((r.place.MustBeOnHeap? && r.start == e) || ReachedFrom(w, r, e));
    if ReachedFrom(w, r, e) {
      var path :| Chain(w, r, path) && path[|path| - 1] == e;
      ChainLinked(w, bound, r, path);
    }
  }

  // ------------------------------------------------------------------ the work list

  ghost function Regions(stack: seq<Region>): set<Region> { set r | r in stack }

  /** What is on the list came from the roots or was marked. */
  ghost predicate Listed(w: World, roots: set<Region>, r: Region) {
    r in roots || (r.start in w.sizes && r == Body(w, r.start) && Reachable(w, roots, r.start))
  }

  /** Nothing left to do for `r`. */
  ghost predicate Finished(w: World, marked: set<nat>, r: Region) {
    (r.place.MustBeOnHeap? ==> r.start in marked) && forall e :: Hit(w, r, e) ==> e in marked
  }

  /** The state of the flood between two objects. */
  ghost predicate Flooding(w: World, before: set<nat>, roots: set<Region>, marked: set<nat>, todo: set<Region>) {
    && before <= marked
    && (forall e {:trigger Justified(w, before, roots, e)} :: e in marked ==> Justified(w, before, roots, e))
    && (forall r {:trigger Listed(w, roots, r)} :: r in todo ==> Listed(w, roots, r))
    && (forall r {:trigger Finished(w, marked, r)} :: r in roots ==> r in todo || Finished(w, marked, r))
    && (forall o {:trigger Served(w, before, roots, marked, todo, o)} :: Served(w, before, roots, marked, todo, o))
  }

  ghost predicate Justified(w: World, before: set<nat>, roots: set<Region>, e: nat) {
    e in before || Reachable(w, roots, e)
  }

  /** A marked object is still on the list, or was closed before the flood, or all it points to is marked. */
  ghost predicate Served(w: World, before: set<nat>, roots: set<Region>, marked: set<nat>, todo: set<Region>, o: nat) {
    o in marked && o in w.sizes ==>
      Body(w, o) in todo || o in before || Finished(w, marked, Body(w, o)) || Rooted(w, roots, todo, o)
  }

  /** `o` is a root that is still on the list. */
  ghost predicate Rooted(w: World, roots: set<Region>, todo: set<Region>, o: nat) {
    o in w.sizes && Region(o, w.sizes[o], MustBeOnHeap) in todo
  }

  lemma FloodStart(w: World, before: set<nat>, roots: set<Region>)
    ensures Flooding(w, before, roots, before, roots)
  {
  }

  /** The marks after `r` was taken from the list and scanned. */
  ghost predicate Scanned(w: World, marked: set<nat>, r: Region, marked': set<nat>) {
    && (forall e :: e in marked' <==> e in marked || Hit(w, r, e) || (r.place.MustBeOnHeap? && r.start == e))
  }

  ghost predicate Pushed(w: World, r: Region, marked: set<nat>, todo: set<Region>, marked': set<nat>, todo': set<Region>) {
    && (forall q :: q in todo' ==> q in todo || (q.start in w.sizes && q == Body(w, q.start) && Hit(w, r, q.start)))
    && (forall q :: q in todo && q != r ==> q in todo')
    && (forall e :: e in marked' && e !in marked && e in w.sizes ==> Body(w, e) in todo' || (r.place.MustBeOnHeap? && r.start == e))
  }

  lemma FloodListed(w: World, roots: set<Region>, r: Region, e: nat)
    requires RootsOk(w, roots) && Listed(w, roots, r) && Hit(w, r, e)
    ensures Reachable(w, roots, e)
  {
    if r in roots { RootHit(w, roots, r, e); } else { ReachedHit(w, roots, r.start, e); }
  }

  lemma FinishedGrows(w: World, marked: set<nat>, marked': set<nat>, r: Region)
    requires Finished(w, marked, r) && marked <= marked'
    ensures Finished(w, marked', r)
  {
  }

  /** One object of the flood. */
  lemma FloodStep(w: World, before: set<nat>, roots: set<Region>, r: Region,
                  marked: set<nat>, todo: set<Region>, marked': set<nat>, todo': set<Region>)
    requires RootsOk(w, roots) && Flooding(w, before, roots, marked, todo) && r in todo
    requires Scanned(w, marked, r, marked') && Pushed(w, r, marked, todo, marked', todo')
    ensures Flooding(w, before, roots, marked', todo')
  {
    assert Listed(w, roots, r);
    assert marked <= marked';
    assert Finished(w, marked', r);
    forall e | e in marked' ensures Justified(w, before, roots, e) {
      if e in marked { assert Justified(w, before, roots, e); }
      if Hit(w, r, e) { FloodListed(w, roots, r, e); }
      else if r.place.MustBeOnHeap? && r.start == e { assert r in roots; }
    }
    forall q | q in todo' ensures Listed(w, roots, q) {
      if q !in todo { FloodListed(w, roots, r, q.start); }
    }
    forall q | q in roots ensures q in todo' || Finished(w, marked', q) {
      if q !in todo { FinishedGrows(w, marked, marked', q); }
    }
    forall o: nat ensures Served(w, before, roots, marked', todo', o) {
      if o in marked' && o in w.sizes { FloodObject(w, before, roots, r, marked, todo, marked', todo', o); }
    }
  }

  lemma FloodObject(w: World, before: set<nat>, roots: set<Region>, r: Region,
                    marked: set<nat>, todo: set<Region>, marked': set<nat>, todo': set<Region>, o: nat)
    requires RootsOk(w, roots) && Flooding(w, before, roots, marked, todo) && r in todo
    requires Scanned(w, marked, r, marked') && Pushed(w, r, marked, todo, marked', todo')
    requires o in marked' && o in w.sizes
    ensures Served(w, before, roots, marked', todo', o)
  {
    assert Served(w, before, roots, marked, todo, o);
    var root := Region(o, w.sizes[o], MustBeOnHeap);
    if o !in marked && Body(w, o) !in todo' {
      assert Listed(w, roots, r);
      assert r == root;
    }
    if r == Body(w, o) || r == root {
      forall e | Hit(w, Body(w, o), e) ensures e in marked' { SameHits(w, r, Body(w, o), e); }
    } else if o in marked && Finished(w, marked, Body(w, o)) {
      FinishedGrows(w, marked, marked', Body(w, o));
    }
  }

  /** When the list is empty the marks are exactly the old ones and what is reachable. */
  lemma FloodDone(w: World, before: set<nat>, roots: set<Region>, marked: set<nat>)
    requires Closed(w, before) && Flooding(w, before, roots, marked, {})
    requires forall e :: e in before ==> e in w.sizes
    ensures marked == before + ReachSet(w, roots)
    ensures Closed(w, marked)
  {
    forall o, e | o in marked && o in w.sizes && Hit(w, Body(w, o), e) ensures e in marked {
      assert Served(w, before, roots, marked, {}, o);
    }
    forall e | Reachable(w, roots, e) ensures e in marked {
      var r :| r in roots && ((r.place.MustBeOnHeap? && r.start == e) || ReachedFrom(w, r, e));
      assert Finished(w, marked, r);
      if ReachedFrom(w, r, e) {
        var path :| Chain(w, r, path) && path[|path| - 1] == e;
        ChainInside(w, r, path, marked);
      }
    }
    forall e | e in marked ensures e in before + ReachSet(w, roots) {
      assert Justified(w, before, roots, e);
    }
  }

  // ------------------------------------------------------------------ the scan of one region

  /** The first position to look at. */
  lemma ScanStart(w: World, r: Region, first: nat)
    requires Arithmetic.Multiple(first, w.align) && r.start <= first < r.start + w.align
    ensures forall e :: !HitBelow(w, r, first, e)
  {
    forall p: nat | p < first ensures !Looked(w, r, p) {
      if Looked(w, r, p) { Arithmetic.MultiplesApart(p, first, w.align); }
    }
  }

  /** One position further. */
  lemma ScanNext(w: World, r: Region, p: nat, e: nat)
    requires Looked(w, r, p)
    ensures Arithmetic.Multiple(p + w.align, w.align)
    ensures HitBelow(w, r, p + w.align, e) <==> HitBelow(w, r, p, e) || Points(w, p, e)
  {
    Arithmetic.MultipleNext(p, w.align);
    if HitBelow(w, r, p + w.align, e) {
      var q: nat :| q < p + w.align && Looked(w, r, q) && Points(w, q, e);
      if q > p { Arithmetic.MultiplesApart(p, q, w.align); }
    }
    if HitBelow(w, r, p, e) {
      var q: nat :| q < p && Looked(w, r, q) && Points(w, q, e);
      assert q < p + w.align && Looked(w, r, q) && Points(w, q, e);
    }
  }

  /** Past the last position. */
  lemma ScanEnd(w: World, r: Region, p: nat, e: nat)
    requires p + WORD_BYTES > r.start + r.size
    ensures HitBelow(w, r, p, e) <==> Hit(w, r, e)
  {
    if Hit(w, r, e) {
      var q: nat :| q < r.start + r.size && Looked(w, r, q) && Points(w, q, e);
      assert q < p && Looked(w, r, q) && Points(w, q, e);
    }
    if HitBelow(w, r, p, e) {
      var q: nat :| q < p && Looked(w, r, q) && Points(w, q, e);
      assert q < r.start + r.size && Looked(w, r, q) && Points(w, q, e);
    }
  }
}
