/** The table of size classes as a value: which sizes share a class and which span a class gets
    (common.cc). */
module SizeTables {

  import opened Arithmetic
  import opened SizeClasses

  /** How many objects of a size move between caches at once. */
  function NumMoveSize(size: nat, transfer: nat): nat {
    if size == 0 then 0 else
      var num := if 65536 / size < 2 then 2 else 65536 / size;
      if num > transfer then transfer else num
  }

  /** About 64 KB move at once, but at least two objects, and never more than the limit. */
  lemma NumMoveSpec(size: nat, transfer: nat)
    requires size > 0 && transfer >= 2
    ensures 2 <= NumMoveSize(size, transfer) <= transfer
    ensures NumMoveSize(size, transfer) > 2 ==> NumMoveSize(size, transfer) * size <= 65536
    ensures NumMoveSize(size, transfer) < transfer ==> (NumMoveSize(size, transfer) + 1) * size > 65536
  {
    var q, n := 65536 / size, NumMoveSize(size, transfer);
    assert q * size <= 65536 < q * size + size;
    if n > 2 && n < q { Gap(size, q, n); }
    if n < transfer && q < n { assert n == 2 && q <= 1; }
    MoreThan(q, n, size);
  }

  lemma MoreThan(q: nat, n: nat, size: nat)
    requires 65536 < q * size + size
    ensures q <= n ==> (n + 1) * size > 65536
  {
    if q < n { Gap(size, n + 1, q + 1); }
  }

  /** A span of `bytes` is good for a size: at most an eighth is wasted and there are enough objects. */
  predicate Fits(bytes: nat, size: nat, blocks: nat)
    requires size > 0
  {
    bytes % size <= bytes / 8 && bytes / size >= blocks
  }

  lemma LargeFits(bytes: nat, size: nat, blocks: nat)
    requires size > 0 && bytes >= 8 * size + size * blocks
    ensures Fits(bytes, size, blocks)
  {
    var q: nat := bytes / size;
    assert bytes == size * q + bytes % size;
    if q < blocks { Gap(size, blocks, q); }
  }

  /** `bytes` is the least positive multiple of the granularity that fits. */
  ghost predicate Least(bytes: nat, granularity: nat, size: nat, blocks: nat)
    requires size > 0
  {
    && Fits(bytes, size, blocks)
    && exists k: nat :: k > 0 && bytes == Times(k, granularity) && NoneFit(k, granularity, size, blocks)
  }

  /** No smaller positive multiple fits. */
  ghost predicate NoneFit(k: nat, granularity: nat, size: nat, blocks: nat)
    requires size > 0
  {
    forall j: nat :: 0 < j < k ==> !Fits(Times(j, granularity), size, blocks)
  }

  /** A class: its largest size is one of those tried, and its span is the least that fits it. */
  ghost predicate ClassOk(size: nat, pages: nat, granularity: nat, transfer: nat) {
    && Tried(size) && size <= K_MAX_SIZE
    && Least(pages * K_PAGE_SIZE, granularity, size, NumMoveSize(size, transfer) / 4)
  }

  /** `s` lies in class `c`. */
  predicate InClass(sizes: seq<nat>, c: nat, s: nat)
    requires 0 < c < |sizes|
  {
    s <= sizes[c] && (c > 1 ==> sizes[c - 1] < s)
  }

  /** Every size tried in a class has the span of the class as its own least one, with as many objects. */
  ghost predicate Member(sizes: seq<nat>, pages: seq<nat>, granularity: nat, transfer: nat, c: nat, s: nat)
    requires 0 < c < |sizes| && c < |pages|
  {
    Tried(s) && InClass(sizes, c, s) ==>
      && Least(pages[c] * K_PAGE_SIZE, granularity, s, NumMoveSize(s, transfer) / 4)
      && Objects(pages[c], s) == Objects(pages[c], sizes[c])
  }

  /** The classes below `sc` are good, their sizes strictly increase, sizes in one class agree on its span, and
      no class could have been merged into the one before it. */
  ghost predicate Classes(sizes: seq<nat>, pages: seq<nat>, sc: nat, granularity: nat, transfer: nat) {
    && 1 <= sc <= |sizes| && sc <= |pages|
    && (forall c :: 1 <= c < sc ==> ClassOk(sizes[c], pages[c], granularity, transfer))
    && (forall c, d {:trigger Below(sizes, c, d)} :: 1 <= c < d < sc ==> Below(sizes, c, d))
    && (forall c {:trigger Separate(sizes, pages, c)} :: 1 < c < sc ==> Separate(sizes, pages, c))
    && (forall c: nat, s: nat {:trigger Member(sizes, pages, granularity, transfer, c, s)} ::
          1 <= c < sc ==> Member(sizes, pages, granularity, transfer, c, s))
  }

  /** The next size tried above `last`. */
  ghost predicate Follows(last: nat, size: nat) {
    last < size && forall s :: Tried(s) && last < s ==> size <= s
  }

  /** How many objects a span holds. */
  function Objects(pages: nat, size: nat): nat { if size == 0 then 0 else pages * K_PAGE_SIZE / size }

  /** A class differs from the one before it in its span or in the number of objects in it. */
  predicate Separate(sizes: seq<nat>, pages: seq<nat>, c: nat)
    requires 0 < c < |sizes| && c < |pages|
  {
    pages[c] != pages[c - 1] || Objects(pages[c], sizes[c]) != Objects(pages[c - 1], sizes[c - 1])
  }

  predicate Below(sizes: seq<nat>, c: nat, d: nat)
    requires c < |sizes| && d < |sizes|
  {
    sizes[c] < sizes[d]
  }

  /** `c` is the least class that holds `size`. */
  ghost predicate LeastClass(sizes: seq<nat>, sc: nat, size: nat, c: nat) {
    && 1 <= c < sc <= |sizes|
    && size <= sizes[c] && (c > 1 ==> sizes[c - 1] < size)
  }

  lemma {:induction false} TimesMod(k: nat, a: nat)
    requires a % K_PAGE_SIZE == 0
    ensures Times(k, a) % K_PAGE_SIZE == 0
  {
    if k > 0 { TimesMod(k - 1, a); }
  }

  /** A multiple of the granularity is a whole number of pages. */
  lemma WholePages(bytes: nat, granularity: nat, size: nat, blocks: nat)
    requires size > 0 && Least(bytes, granularity, size, blocks) && granularity % K_PAGE_SIZE == 0
    ensures bytes / K_PAGE_SIZE * K_PAGE_SIZE == bytes
  {
    var k: nat :| k > 0 && bytes == Times(k, granularity) && NoneFit(k, granularity, size, blocks);
    TimesMod(k, granularity);
  }

  lemma Lengthened(was: seq<nat>, sizes: seq<nat>, pages: seq<nat>, sc: nat, size: nat)
    requires 1 < sc <= |was| == |sizes| == |pages| && sizes == was[sc - 1 := size] && was[sc - 1] < size
    requires Objects(pages[sc - 1], size) == Objects(pages[sc - 1], was[sc - 1])
    requires forall c, d {:trigger Below(was, c, d)} :: 1 <= c < d < sc ==> Below(was, c, d)
    requires forall c {:trigger Separate(was, pages, c)} :: 1 < c < sc ==> Separate(was, pages, c)
    ensures forall c, d {:trigger Below(sizes, c, d)} :: 1 <= c < d < sc ==> Below(sizes, c, d)
    ensures forall c {:trigger Separate(sizes, pages, c)} :: 1 < c < sc ==> Separate(sizes, pages, c)
  {
    forall c, d | 1 <= c < d < sc ensures Below(sizes, c, d) { assert Below(was, c, d); }
    forall c | 1 < c < sc ensures Separate(sizes, pages, c) { assert Separate(was, pages, c); }
  }

  lemma Appended(was: seq<nat>, sizes: seq<nat>, had: seq<nat>, pages: seq<nat>, sc: nat, size: nat, n: nat)
    requires 1 <= sc < |was| == |sizes| == |had| == |pages| && sizes == was[sc := size] && pages == had[sc := n]
    requires sc > 1 ==> was[sc - 1] < size && (n != had[sc - 1] || Objects(n, size) != Objects(had[sc - 1], was[sc - 1]))
    requires forall c, d {:trigger Below(was, c, d)} :: 1 <= c < d < sc ==> Below(was, c, d)
    requires forall c {:trigger Separate(was, had, c)} :: 1 < c < sc ==> Separate(was, had, c)
    ensures forall c, d {:trigger Below(sizes, c, d)} :: 1 <= c < d < sc + 1 ==> Below(sizes, c, d)
    ensures forall c {:trigger Separate(sizes, pages, c)} :: 1 < c < sc + 1 ==> Separate(sizes, pages, c)
  {
    forall c, d | 1 <= c < d < sc + 1 ensures Below(sizes, c, d) {
      if d < sc { assert Below(was, c, d); } else if c < sc - 1 { assert Below(was, c, sc - 1); }
    }
    forall c | 1 < c < sc + 1 ensures Separate(sizes, pages, c) {
      if c < sc { assert Separate(was, had, c); }
    }
  }

  lemma FollowsNext(last: nat)
    requires Tried(last)
    ensures Follows(last, last + Alignment(last))
  {
    forall s | Tried(s) && last < s ensures last + Alignment(last) <= s { NoneBetween(last, s); }
  }

  lemma LengthenedMembers(was: seq<nat>, sizes: seq<nat>, pages: seq<nat>, granularity: nat, transfer: nat, sc: nat, size: nat)
    requires 1 < sc <= |was| == |sizes| == |pages| && sizes == was[sc - 1 := size] && Follows(was[sc - 1], size) && size > 0
    requires Least(pages[sc - 1] * K_PAGE_SIZE, granularity, size, NumMoveSize(size, transfer) / 4)
    requires Objects(pages[sc - 1], size) == Objects(pages[sc - 1], was[sc - 1])
    requires forall c: nat, s: nat {:trigger Member(was, pages, granularity, transfer, c, s)} ::
               1 <= c < sc ==> Member(was, pages, granularity, transfer, c, s)
    ensures forall c: nat, s: nat {:trigger Member(sizes, pages, granularity, transfer, c, s)} ::
              1 <= c < sc ==> Member(sizes, pages, granularity, transfer, c, s)
  {
    forall c: nat, s: nat | 1 <= c < sc ensures Member(sizes, pages, granularity, transfer, c, s) {
      assert Member(was, pages, granularity, transfer, c, s);
    }
  }

  lemma AppendedMembers(was: seq<nat>, sizes: seq<nat>, had: seq<nat>, pages: seq<nat>, granularity: nat, transfer: nat,
                        sc: nat, size: nat, n: nat)
    requires 1 <= sc < |was| == |sizes| == |had| == |pages| && sizes == was[sc := size] && pages == had[sc := n]
    requires Follows(if sc > 1 then was[sc - 1] else 0, size)
    requires Least(n * K_PAGE_SIZE, granularity, size, NumMoveSize(size, transfer) / 4)
    requires forall c: nat, s: nat {:trigger Member(was, had, granularity, transfer, c, s)} ::
               1 <= c < sc ==> Member(was, had, granularity, transfer, c, s)
    ensures forall c: nat, s: nat {:trigger Member(sizes, pages, granularity, transfer, c, s)} ::
              1 <= c < sc + 1 ==> Member(sizes, pages, granularity, transfer, c, s)
  {
    forall c: nat, s: nat | 1 <= c < sc + 1 ensures Member(sizes, pages, granularity, transfer, c, s) {
      if c < sc { assert Member(was, had, granularity, transfer, c, s); }
    }
  }

  lemma RankBound(size: nat)
    requires size <= K_MAX_SIZE
    ensures Rank(size) <= 104
  {
  }

  /** Increasing sizes that the index array can tell apart. */
  ghost predicate ClassTable(sizes: seq<nat>, sc: nat) {
    && 1 < sc <= |sizes|
    && (forall c {:trigger GoodEnd(sizes, c)} :: 1 <= c < sc ==> GoodEnd(sizes, c))
    && (forall c, d {:trigger Below(sizes, c, d)} :: 1 <= c < d < sc ==> Below(sizes, c, d))
  }

  ghost predicate GoodEnd(sizes: seq<nat>, c: nat)
    requires c < |sizes|
  {
    OnGrid(sizes[c]) && sizes[c] % 8 == 0 && 0 < sizes[c] <= K_MAX_SIZE
  }

  lemma TableOfClasses(sizes: seq<nat>, pages: seq<nat>, sc: nat, granularity: nat, transfer: nat)
    requires Classes(sizes, pages, sc, granularity, transfer) && sc > 1
    ensures ClassTable(sizes, sc)
  {
    forall c | 1 <= c < sc ensures GoodEnd(sizes, c) {
      assert ClassOk(sizes[c], pages[c], granularity, transfer);
      TriedOnGrid(sizes[c]);
    }
  }

  /** The entries below `upto` hold the least class for the largest size with that index. */
  ghost predicate Mapped(sizes: seq<nat>, sc: nat, classes: seq<nat>, upto: nat) {
    upto <= |classes| && forall i :: 0 <= i < upto ==> LeastClass(sizes, sc, Top(i), classes[i])
  }

  lemma IndexBound(size: nat)
    requires size <= K_MAX_SIZE
    ensures ClassIndex(size) < K_CLASS_ARRAY_SIZE
  {
  }

  lemma FromBelow(sizes: seq<nat>, sc: nat, c: nat)
    requires ClassTable(sizes, sc) && 1 <= c < sc
    ensures sizes[c] % 8 == 0 && (c > 1 ==> sizes[c - 1] % 8 == 0 && sizes[c - 1] + 8 <= sizes[c])
  {
    assert GoodEnd(sizes, c);
    if c > 1 { assert Below(sizes, c - 1, c) && GoodEnd(sizes, c - 1); }
  }

  lemma FillIndex(sizes: seq<nat>, sc: nat, c: nat, s: nat)
    requires ClassTable(sizes, sc) && 1 <= c < sc && s <= sizes[c] && (c > 1 ==> sizes[c - 1] < s)
    ensures LeastClass(sizes, sc, Top(ClassIndex(s)), c)
  {
    assert GoodEnd(sizes, c);
    IndexTop(s, sizes[c]);
    if c > 1 {
      assert GoodEnd(sizes, c - 1);
      IndexTop(s, sizes[c - 1]);
    }
  }

  lemma MappedNext(sizes: seq<nat>, sc: nat, classes: seq<nat>, c: nat, s: nat)
    requires ClassTable(sizes, sc) && |classes| == K_CLASS_ARRAY_SIZE && Mapped(sizes, sc, classes, ClassIndex(s))
    requires 1 <= c < sc && s % 8 == 0 && s <= sizes[c] && (c > 1 ==> sizes[c - 1] < s)
    ensures ClassIndex(s) < |classes| && Mapped(sizes, sc, classes[ClassIndex(s) := c], ClassIndex(s + 8))
  {
    assert GoodEnd(sizes, c);
    IndexBound(s);
    FillIndex(sizes, sc, c, s);
    IndexNext(s);
  }

  /** The entry of a size's index is right for the size itself. */
  lemma MappedSize(sizes: seq<nat>, sc: nat, classes: seq<nat>, size: nat)
    requires ClassTable(sizes, sc) && Mapped(sizes, sc, classes, ClassIndex(size) + 1)
    ensures LeastClass(sizes, sc, size, classes[ClassIndex(size)])
  {
    var c := classes[ClassIndex(size)];
    assert LeastClass(sizes, sc, Top(ClassIndex(size)), c);
    assert GoodEnd(sizes, c);
    IndexTop(size, sizes[c]);
    if c > 1 {
      assert GoodEnd(sizes, c - 1);
      IndexTop(size, sizes[c - 1]);
    }
  }

  lemma LeastClassUnique(sizes: seq<nat>, sc: nat, size: nat, c: nat, d: nat)
    requires ClassTable(sizes, sc) && LeastClass(sizes, sc, size, c) && 1 <= d < sc && size <= sizes[d]
    ensures c <= d
  {
    assert c > 1 && d < c - 1 ==> Below(sizes, d, c - 1);
  }

  /** A class wastes at most an eighth of its span, which is a whole multiple of the granularity. */
  lemma ClassWaste(sizes: seq<nat>, pages: seq<nat>, sc: nat, granularity: nat, transfer: nat, c: nat)
    requires Classes(sizes, pages, sc, granularity, transfer) && granularity > 0 && 1 <= c < sc
    ensures sizes[c] > 0 && pages[c] > 0 && (pages[c] * K_PAGE_SIZE) % granularity == 0
    ensures 8 * ((pages[c] * K_PAGE_SIZE) % sizes[c]) <= pages[c] * K_PAGE_SIZE
    ensures pages[c] * K_PAGE_SIZE / sizes[c] >= NumMoveSize(sizes[c], transfer) / 4
    ensures sizes[c] <= pages[c] * K_PAGE_SIZE
  {
    assert ClassOk(sizes[c], pages[c], granularity, transfer);
    var bytes := pages[c] * K_PAGE_SIZE;
    var k: nat :| k > 0 && bytes == Times(k, granularity) && NoneFit(k, granularity, sizes[c], NumMoveSize(sizes[c], transfer) / 4);
    assert Multiple(bytes, granularity);
    MultipleMod(bytes, granularity);
    assert Times(k, granularity) >= granularity;
    if bytes < sizes[c] { QuotientUnique(bytes, sizes[c], 0, bytes); }
  }
}
