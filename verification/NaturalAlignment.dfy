/** The check at the end of SizeMap::Init that naturally aligned sizes get naturally aligned objects, and
    exactly when it passes. */
module NaturalAlignment {

  import opened Arithmetic
  import opened Bits
  import opened SizeClasses
  import opened SizeTables

  /** The pairs that the check goes through. */
  predicate Asked(align: nat, size: nat) {
    IsPower(align) && K_MIN_ALIGN <= align <= K_PAGE_SIZE && 0 < size < K_PAGE_SIZE && size % align == 0
  }

  /** A size below a page that is a multiple of `align` is served by a class whose size is one too. */
  ghost predicate Naturally(sizes: seq<nat>, sc: nat, align: nat, size: nat, c: nat) {
    Asked(align, size) && LeastClass(sizes, sc, size, c) ==> sizes[c] % align == 0
  }

  ghost predicate Natural(sizes: seq<nat>, sc: nat) {
    forall align: nat, size: nat, c: nat {:trigger Naturally(sizes, sc, align, size, c)} :: Naturally(sizes, sc, align, size, c)
  }

  /** The granularity for which it fails: five pages. */
  const ODD_GRANULARITY: nat := 40960

  /** A finished table. */
  ghost predicate Complete(sizes: seq<nat>, pages: seq<nat>, sc: nat, granularity: nat, transfer: nat) {
    && Classes(sizes, pages, sc, granularity, transfer) && sc > 1 && sizes[sc - 1] == K_MAX_SIZE
    && granularity > 0 && granularity % K_PAGE_SIZE == 0
  }

  // ------------------------------------------------------------------ arithmetic

  /** Division does not change when both sides are scaled. */
  lemma Scaled(n: nat, m: nat, u: nat)
    requires m > 0 && u > 0
    ensures m * u > 0 && (n * u) / (m * u) == n / m && (n * u) % (m * u) == (n % m) * u
  {
    var q, r := n / m, n % m;
    assert n == q * m + r;
    Distribute(q, m, r, u);
    Gap(u, m, r);
    QuotientUnique(n * u, m * u, q, r * u);
  }

  lemma Distribute(q: nat, m: nat, r: nat, u: nat)
    ensures (q * m + r) * u == q * (m * u) + r * u
  {
  }

  /** Two sizes `m` and `m'` (in units) with as many objects in a span of `n` units that wastes at most an
      eighth for the first are close to each other. */
  lemma CloseBy(n: nat, m: nat, m': nat)
    requires 0 < m < m' && n > 0 && n / m == n / m' && n % m <= n / 8
    ensures 7 * m' <= 8 * m && 0 < n / m < m && (n / m) * m' <= n < (n / m) * m + m
  {
    var q := n / m;
    assert n == q * m + n % m && n == q * m' + n % m';
    Nonzero(n, q, m);
    SmallQuotient(n, q, m, m');
    EighthApart(n, q, m, m');
  }

  lemma Nonzero(n: nat, q: nat, m: nat)
    requires n > 0 && 8 * (n - q * m) <= n
    ensures q > 0
  {
  }

  lemma EighthApart(n: nat, q: nat, m: nat, m': nat)
    requires q > 0 && 8 * (n - q * m) <= n && q * m' <= n
    ensures 7 * m' <= 8 * m
  {
    assert q * (7 * m') == 7 * (q * m') && q * (8 * m) == 8 * (q * m);
    ProductOrder(q, 7 * m', 8 * m);
  }

  lemma ProductOrder(q: nat, a: nat, b: nat)
    requires q > 0 && q * a <= q * b
    ensures a <= b
  {
    if a > b { Gap(q, a, b); }
  }

  lemma SmallQuotient(n: nat, q: nat, m: nat, m': nat)
    requires m < m' && q * m' <= n < q * m + m
    ensures q < m
  {
    assert q * m' >= q * (m + 1);
    assert q * (m + 1) == q * m + q;
  }

  /** An even size below 16 and a larger one, in units of which a page has a multiple of 16: they share a class
      in two cases only. */
  lemma Pairs(n: nat, m: nat, m': nat)
    requires 0 < m < m' && m % 2 == 0 && m < 16 && n > 0 && n % 16 == 0
    requires n / m == n / m' && n % m <= n / 8
    ensures (m == 12 && m' == 13 && n == 80) || (m == 14 && m' == 15 && n == 16 * (n / 14) && n / 14 < 14) || (m == 14 && m' == 16)
  {
    CloseBy(n, m, m');
    if m == 8 { PairEight(n); }
    else if m == 10 { PairTen(n); }
    else if m == 12 { PairTwelve(n); }
    else if m == 14 && m' == 15 { PairFourteen(n); }
  }

  lemma PairEight(n: nat)
    requires n % 16 == 0 && n / 8 == n / 9
    ensures n / 8 == 0
  {
    var k := n / 16;
    assert n == 16 * k && n / 8 == 2 * k;
  }

  lemma PairTen(n: nat)
    requires n % 16 == 0 && n / 10 == n / 11 < 10 && n % 10 <= n / 8
    ensures n / 10 == 0
  {
    var k := n / 16;
    assert n == 16 * k && k <= 6;
    assert k == 0 || k == 1 || k == 2 || k == 3 || k == 4 || k == 5 || k == 6;
  }

  lemma PairTwelve(n: nat)
    requires n % 16 == 0 && 0 < n / 12 == n / 13 < 12 && n % 12 <= n / 8
    ensures n == 80
  {
    var k := n / 16;
    assert n == 16 * k && k <= 9;
    assert k == 1 || k == 2 || k == 3 || k == 4 || k == 5 || k == 6 || k == 7 || k == 8 || k == 9;
  }

  lemma PairFourteen(n: nat)
    requires n % 16 == 0 && 0 < n / 14 == n / 15 < 14
    ensures n == 16 * (n / 14)
  {
    var k, q := n / 16, n / 14;
    assert n == 16 * k && 15 * q <= 16 * k < 14 * q + 14;
  }

  // ------------------------------------------------------------------ least spans

  lemma LeastUnique(a: nat, b: nat, granularity: nat, size: nat, blocks: nat)
    requires size > 0 && Least(a, granularity, size, blocks) && Least(b, granularity, size, blocks)
    ensures a == b
  {
    var k: nat :| k > 0 && a == Times(k, granularity) && NoneFit(k, granularity, size, blocks);
    var j: nat :| j > 0 && b == Times(j, granularity) && NoneFit(j, granularity, size, blocks);
    if k < j { assert Fits(Times(k, granularity), size, blocks); }
    if j < k { assert Fits(Times(j, granularity), size, blocks); }
  }

  /** The span of one granule is the least when it fits. */
  lemma LeastOne(bytes: nat, granularity: nat, size: nat, blocks: nat)
    requires size > 0 && Least(bytes, granularity, size, blocks) && Fits(granularity, size, blocks)
    ensures bytes == granularity
  {
    LeastGranule(granularity, size, blocks);
    LeastUnique(bytes, granularity, granularity, size, blocks);
  }

  /** A larger size moves no more objects. */
  lemma MovesLess(s: nat, s': nat, transfer: nat)
    requires 0 < s <= s'
    ensures NumMoveSize(s', transfer) <= NumMoveSize(s, transfer)
  {
    QuotientShrinks(65536, s, s');
  }

  lemma QuotientShrinks(x: nat, s: nat, s': nat)
    requires 0 < s <= s'
    ensures x / s' <= x / s
  {
    var a, b := x / s, x / s';
    assert x == a * s + x % s && x == b * s' + x % s';
    FewerLarger(b, s, s');
    AtMostQuotient(x, s, a, b);
  }

  lemma FewerLarger(b: nat, s: nat, s': nat)
    requires s <= s'
    ensures b * s <= b * s'
  {
  }

  lemma AtMostQuotient(x: nat, s: nat, a: nat, b: nat)
    requires b * s <= x < a * s + s
    ensures b <= a
  {
    if b > a { Gap(s, b, a); }
  }

  // ------------------------------------------------------------------ classes of a table

  /** The class of a size. */
  lemma {:induction false} ClassOf(sizes: seq<nat>, sc: nat, size: nat) returns (c: nat)
    requires 1 < sc <= |sizes| && size <= sizes[sc - 1]
    ensures LeastClass(sizes, sc, size, c)
    decreases sc
  {
    c := sc - 1;
    if c > 1 && size <= sizes[c - 1] { c := ClassOf(sizes, c, size); }
  }

  /** What ends after a size tried ends at the next one tried or later, and that one is in the next class. */
  lemma NextClass(sizes: seq<nat>, pages: seq<nat>, sc: nat, granularity: nat, transfer: nat, c: nat)
    requires Complete(sizes, pages, sc, granularity, transfer) && 1 <= c < sc && sizes[c] < K_MAX_SIZE
    ensures c + 1 < sc && Tried(sizes[c])
    ensures Tried(sizes[c] + Alignment(sizes[c])) && InClass(sizes, c + 1, sizes[c] + Alignment(sizes[c]))
  {
    assert c != sc - 1;
    assert ClassOk(sizes[c], pages[c], granularity, transfer) && ClassOk(sizes[c + 1], pages[c + 1], granularity, transfer);
    assert Below(sizes, c, c + 1);
    NextTried(sizes[c]);
    NoneBetween(sizes[c], sizes[c + 1]);
  }

  /** The next size tried would have been merged had its span and its objects agreed. */
  lemma NotMerged(sizes: seq<nat>, pages: seq<nat>, sc: nat, granularity: nat, transfer: nat, c: nat)
    requires Complete(sizes, pages, sc, granularity, transfer) && 1 <= c < sc && sizes[c] < K_MAX_SIZE
    ensures var s := sizes[c] + Alignment(sizes[c]);
            Least(pages[c] * K_PAGE_SIZE, granularity, s, NumMoveSize(s, transfer) / 4) ==> Objects(pages[c], s) != Objects(pages[c], sizes[c])
  {
    var s := sizes[c] + Alignment(sizes[c]);
    NextClass(sizes, pages, sc, granularity, transfer, c);
    assert Member(sizes, pages, granularity, transfer, c + 1, s) && Separate(sizes, pages, c + 1);
    if Least(pages[c] * K_PAGE_SIZE, granularity, s, NumMoveSize(s, transfer) / 4) {
      LeastUnique(pages[c] * K_PAGE_SIZE, pages[c + 1] * K_PAGE_SIZE, granularity, s, NumMoveSize(s, transfer) / 4);
    }
  }

  // ------------------------------------------------------------------ units

  /** The units of the sizes below a page: each divides a sixteenth of a page. */
  predicate Unit(u: nat) { u == 16 || u == 32 || u == 64 || u == 128 || u == 256 || u == 512 }

  lemma UnitOf(size: nat)
    requires K_MIN_ALIGN <= size < K_PAGE_SIZE
    ensures Unit(Alignment(size)) && size < 16 * Alignment(size)
  {
  }

  lemma MultipleOf(x: nat, a: nat, b: nat)
    requires a > 0 && b > 0 && x % a == 0 && a % b == 0
    ensures x % b == 0
  {
    var i, j := x / a, a / b;
    assert x == i * a && a == j * b;
    assert x == (i * j) * b;
    QuotientUnique(x, b, i * j, 0);
  }

  lemma UnitsGrow(size: nat, e: nat)
    requires K_MIN_ALIGN <= size <= e
    ensures Alignment(size) <= Alignment(e) && Alignment(e) % Alignment(size) == 0
  {
  }

  /** Whole pages in units. */
  lemma PagesInUnits(pages: nat, u: nat) returns (n: nat)
    requires Unit(u)
    ensures pages * K_PAGE_SIZE == n * u && n % 16 == 0 && (pages > 0 ==> n > 0)
    ensures n == 80 ==> u == 512 && pages == 5
  {
    var d := SixteenthOf(u);
    n := 16 * (d * pages);
    assert n * u == pages * (16 * (d * u)) by { Regroup(pages, d, u); }
    if n == 80 { FifthPart(d, pages); }
  }

  lemma SixteenthOf(u: nat) returns (d: nat)
    requires Unit(u)
    ensures d * u == 512 && (d == 1 || d % 2 == 0)
  {
    d := if u == 16 then 32 else if u == 32 then 16 else if u == 64 then 8 else if u == 128 then 4 else if u == 256 then 2 else 1;
  }

  lemma Regroup(pages: nat, d: nat, u: nat)
    ensures 16 * (d * pages) * u == pages * (16 * (d * u))
  {
  }

  lemma FifthPart(d: nat, pages: nat)
    requires d * pages == 5 && (d == 1 || d % 2 == 0)
    ensures d == 1 && pages == 5
  {
    var i := d / 2;
    assert d * pages == 2 * (i * pages) + d % 2 * pages;
  }

  /** Two sizes of one class below a page, the first an even number of units: three shapes are possible. */
  lemma SharedClass(sizes: seq<nat>, pages: seq<nat>, sc: nat, granularity: nat, transfer: nat, c: nat, size: nat)
      returns (n: nat)
    requires Complete(sizes, pages, sc, granularity, transfer) && 1 <= c < sc
    requires Tried(size) && K_MIN_ALIGN <= size < K_PAGE_SIZE && InClass(sizes, c, size) && size < sizes[c]
    requires size % (2 * Alignment(size)) == 0
    ensures pages[c] * K_PAGE_SIZE == n * Alignment(size)
    ensures || (size == 6144 && sizes[c] == 6656 && pages[c] == 5)
            || (size == 14 * Alignment(size) && sizes[c] == 15 * Alignment(size) && n == 16 * (n / 14) && 0 < n / 14 < 14)
            || (size == 14 * Alignment(size) && sizes[c] == 16 * Alignment(size))
  {
    var u, e := Alignment(size), sizes[c];
    UnitOf(size);
    assert Member(sizes, pages, granularity, transfer, c, size) && ClassOk(e, pages[c], granularity, transfer);
    UnitsGrow(size, e);
    MultipleOf(e, Alignment(e), u);
    SpanPositive(pages[c], granularity, size, NumMoveSize(size, transfer) / 4);
    n := SharedSpan(pages[c], u, size, e);
  }

  /** The same for a span and two sizes in units of `u`. */
  lemma SharedSpan(pages: nat, u: nat, size: nat, e: nat) returns (n: nat)
    requires Unit(u) && pages > 0 && size % (2 * u) == 0 && 0 < size < 16 * u && size < e && e % u == 0
    requires (pages * K_PAGE_SIZE) / size == (pages * K_PAGE_SIZE) / e && (pages * K_PAGE_SIZE) % size <= pages * K_PAGE_SIZE / 8
    ensures pages * K_PAGE_SIZE == n * u
    ensures || (size == 6144 && e == 6656 && pages == 5)
            || (size == 14 * u && e == 15 * u && n == 16 * (n / 14) && 0 < n / 14 < 14)
            || (size == 14 * u && e == 16 * u)
  {
    n := PagesInUnits(pages, u);
    var m, m' := size / u, e / u;
    EvenUnits(size, u, m);
    WholeUnits(e, u, m');
    SharedUnits(n, m, m', u);
  }

  lemma WholeUnits(e: nat, u: nat, m: nat)
    requires u > 0 && e % u == 0 && m == e / u
    ensures e == m * u
  {
  }

  lemma SharedUnits(n: nat, m: nat, m': nat, u: nat)
    requires n > 0 && n % 16 == 0 && u > 0 && 0 < m < 16 && m % 2 == 0 && m * u < m' * u
    requires (n * u) / (m * u) == (n * u) / (m' * u) && (n * u) % (m * u) <= (n * u) / 8
    ensures || (m == 12 && m' == 13 && n == 80)
            || (m == 14 && m' == 15 && n == 16 * (n / 14) && 0 < n / 14 < 14)
            || (m == 14 && m' == 16)
  {
    MoreUnits(m, m', u);
    Scaled(n, m, u);
    Scaled(n, m', u);
    WasteInUnits(n, m, u);
    Pairs(n, m, m');
    CloseBy(n, m, m');
  }

  lemma MoreUnits(m: nat, m': nat, u: nat)
    requires m * u < m' * u
    ensures m < m'
  {
    if m' <= m { FewerLarger(u, m', m); }
  }

  lemma Halves(i: nat, u: nat)
    ensures i * (2 * u) == (2 * i) * u
  {
  }

  lemma EvenUnits(size: nat, u: nat, m: nat)
    requires u > 0 && size % (2 * u) == 0 && m == size / u && 0 < size < 16 * u
    ensures size == m * u && m % 2 == 0 && 0 < m < 16
  {
    var i := size / (2 * u);
    assert size == i * (2 * u);
    Halves(i, u);
    QuotientUnique(size, u, 2 * i, 0);
    AtMostQuotient(size, u, 15, m);
  }

  lemma SpanPositive(pages: nat, granularity: nat, size: nat, blocks: nat)
    requires granularity > 0 && size > 0 && Least(pages * K_PAGE_SIZE, granularity, size, blocks)
    ensures pages > 0
  {
    var k: nat :| k > 0 && pages * K_PAGE_SIZE == Times(k, granularity) && NoneFit(k, granularity, size, blocks);
    assert Times(k, granularity) >= granularity;
  }

  lemma WasteInUnits(n: nat, m: nat, u: nat)
    requires 0 < m && 0 < u && (n % m) * u <= (n * u) / 8
    ensures n % m <= n / 8
  {
    var r := n % m;
    assert 8 * (r * u) <= n * u;
    assert (8 * r) * u == 8 * (r * u);
    ProductOrder(u, 8 * r, n);
  }

  // ------------------------------------------------------------------ the two shapes that remain

  /** Sizes 6144 and 6656 in five pages: only when a granule is five pages. */
  lemma FivePages(granularity: nat, transfer: nat)
    requires granularity > 0 && granularity % K_PAGE_SIZE == 0
    requires Least(ODD_GRANULARITY, granularity, 6144, NumMoveSize(6144, transfer) / 4)
    ensures granularity == ODD_GRANULARITY
  {
    var blocks := NumMoveSize(6144, transfer) / 4;
    var k: nat :| k > 0 && ODD_GRANULARITY == Times(k, granularity) && NoneFit(k, granularity, 6144, blocks);
    TimesIsProduct(k, granularity);
    var j := granularity / K_PAGE_SIZE;
    FiveParts(k, j);
    if k == 5 {
      TimesIsProduct(3, granularity);
    }
  }

  lemma FiveParts(k: nat, j: nat)
    requires k * (8192 * j) == 40960
    ensures (k == 5 && j == 1) || (k == 1 && j == 5)
  {
    assert k * (8192 * j) == 8192 * (k * j);
    assert k > 0 && j > 0;
    if k > 5 { FewerLarger(j, 6, k); }
    if j > 5 { FewerLarger(k, 6, j); }
  }

  /** Fewer objects than a size of 15 units asks for is fewer than 16 units ask for. */
  lemma BlocksAgree(d: nat, h: nat, transfer: nat, x: nat)
    requires 0 < h < 13 && d > 0 && x == 128 * d / 15
    requires h < (if x > transfer then transfer else x) / 4
    ensures h < (if 8 * d > transfer then transfer else 8 * d) / 4
  {
  }

  /** How many 15-unit and 16-unit objects move at once; `d` units make a 512th part. */
  lemma MovesInUnits(u: nat, d: nat, transfer: nat)
    requires Unit(u) && u * d == 512
    ensures var x := 128 * d / 15; NumMoveSize(15 * u, transfer) == if x > transfer then transfer else x
    ensures NumMoveSize(16 * u, transfer) == if 8 * d > transfer then transfer else 8 * d
  {
    if u == 16 { assert d == 32; } else if u == 32 { assert d == 16; } else if u == 64 { assert d == 8; }
    else if u == 128 { assert d == 4; } else if u == 256 { assert d == 2; } else { assert d == 1; }
  }

  /** `h` times 16 units hold `h` objects of 15 units as well, and waste little. */
  lemma FifteenFits(h: nat, u: nat, blocks: nat)
    requires 0 < h < 15 && u > 0
    ensures Fits(16 * h * u, 15 * u, blocks) <==> h >= blocks
    ensures Fits(16 * h * u, 16 * u, blocks) <==> h >= blocks
    ensures (16 * h * u) / (15 * u) == h == (16 * h * u) / (16 * u)
  {
    Scaled(16 * h, 15, u);
    Scaled(16 * h, 16, u);
    assert 16 * h == 15 * h + h;
    assert (16 * h) / 15 == h && (16 * h) % 15 == h;
    assert (16 * h * u) / 8 == 2 * (h * u);
  }

  /** A span that is the least for 15 units, in the shape that remains, is the least for 16 units. */
  lemma SixteenLeast(bytes: nat, q: nat, u: nat, granularity: nat, transfer: nat)
    requires Unit(u) && 0 < q < 14 && bytes == 16 * q * u && granularity > 0 && granularity % K_PAGE_SIZE == 0
    requires Least(bytes, granularity, 15 * u, NumMoveSize(15 * u, transfer) / 4)
    ensures Least(bytes, granularity, 16 * u, NumMoveSize(16 * u, transfer) / 4)
  {
    var b1, b2 := NumMoveSize(15 * u, transfer) / 4, NumMoveSize(16 * u, transfer) / 4;
    var k: nat :| k > 0 && bytes == Times(k, granularity) && NoneFit(k, granularity, 15 * u, b1);
    MovesLess(15 * u, 16 * u, transfer);
    FifteenFits(q, u, b1);
    FifteenFits(q, u, b2);
    forall j: nat | 0 < j < k ensures !Fits(Times(j, granularity), 16 * u, b2) {
      TimesGap(j, k, granularity);
      TimesMod(j, granularity);
      assert Times(j, granularity) > 0;
      SmallerMisses(Times(j, granularity), q, u, transfer);
    }
  }

  lemma SmallerMisses(x: nat, q: nat, u: nat, transfer: nat)
    requires Unit(u) && 0 < q < 14 && 0 < x < 16 * q * u && x % K_PAGE_SIZE == 0
    requires !Fits(x, 15 * u, NumMoveSize(15 * u, transfer) / 4)
    ensures !Fits(x, 16 * u, NumMoveSize(16 * u, transfer) / 4)
  {
    var d := SixteenthOf(u);
    var p := x / K_PAGE_SIZE;
    var h := d * p;
    assert x == 16 * h * u by { Regroup(p, d, u); }
    Shorter(h, q, u);
    FifteenFits(h, u, NumMoveSize(15 * u, transfer) / 4);
    FifteenFits(h, u, NumMoveSize(16 * u, transfer) / 4);
    MovesInUnits(u, d, transfer);
    BlocksAgree(d, h, transfer, 128 * d / 15);
  }

  lemma Shorter(h: nat, q: nat, u: nat)
    requires 0 < 16 * h * u < 16 * q * u
    ensures 0 < h < q
  {
    if h >= q { FewerLarger(16 * u, q, h); }
  }

  lemma NotFifteen(sizes: seq<nat>, pages: seq<nat>, sc: nat, granularity: nat, transfer: nat, c: nat, u: nat, q: nat)
    requires Complete(sizes, pages, sc, granularity, transfer) && 1 <= c < sc
    requires Unit(u) && 0 < q < 14 && pages[c] * K_PAGE_SIZE == 16 * q * u
    ensures sizes[c] != 15 * u
  {
    if sizes[c] == 15 * u {
      assert ClassOk(sizes[c], pages[c], granularity, transfer);
      assert Alignment(15 * u) == u;
      SixteenLeast(pages[c] * K_PAGE_SIZE, q, u, granularity, transfer);
      FifteenFits(q, u, 0);
      NotMerged(sizes, pages, sc, granularity, transfer, c);
    }
  }

  // ------------------------------------------------------------------ powers of two

  lemma {:induction false} PowerDivides(a: nat, b: nat)
    requires IsPower(a) && IsPower(b) && a <= b
    ensures b % a == 0 && (a < b ==> 2 * a <= b)
  {
    if a > 1 {
      PowerDivides(a / 2, b / 2);
      Scaled(b / 2, a / 2, 2);
    }
  }

  lemma AlignmentPower(size: nat)
    ensures IsPower(Alignment(size))
  {
    assert IsPower(4) && IsPower(16);
    assert IsPower(64) && IsPower(256);
    assert IsPower(1024) && IsPower(4096);
  }

  lemma DoublePower(a: nat)
    requires IsPower(a)
    ensures IsPower(2 * a)
  {
  }

  // ------------------------------------------------------------------ the check passes

  lemma AtLeastAlign(size: nat, align: nat)
    requires 0 < size && 0 < align && size % align == 0
    ensures align <= size
  {
    if size < align { QuotientUnique(size, align, 0, size); }
  }

  /** A class that ends above an aligned size, at a size with a smaller unit than the alignment. */
  lemma NoOddEnd(sizes: seq<nat>, pages: seq<nat>, sc: nat, granularity: nat, transfer: nat, align: nat, size: nat, c: nat)
    requires Complete(sizes, pages, sc, granularity, transfer) && granularity != ODD_GRANULARITY
    requires Asked(align, size) && K_MIN_ALIGN <= size && LeastClass(sizes, sc, size, c) && Alignment(sizes[c]) < align
    ensures sizes[c] == size
  {
    var u := Alignment(size);
    assert ClassOk(sizes[c], pages[c], granularity, transfer);
    UnitOf(size);
    UnitsGrow(size, sizes[c]);
    UnitDivides(align, size);
    if size < sizes[c] {
      var n := SharedClass(sizes, pages, sc, granularity, transfer, c, size);
      assert Member(sizes, pages, granularity, transfer, c, size);
      if size == 6144 && sizes[c] == 6656 {
        FivePages(granularity, transfer);
      } else if sizes[c] == 15 * u {
        NotFifteen(sizes, pages, sc, granularity, transfer, c, u, n / 14);
      } else {
        FourteenNotFour(align, u);
      }
    }
  }

  lemma UnitDivides(align: nat, size: nat)
    requires Asked(align, size) && Alignment(size) < align && K_MIN_ALIGN <= size
    ensures Tried(size) && size % (2 * Alignment(size)) == 0
  {
    var u := Alignment(size);
    AlignmentPower(size);
    DoublePower(u);
    PowerDivides(u, align);
    PowerDivides(2 * u, align);
    MultipleOf(size, align, u);
    MultipleOf(size, align, 2 * u);
  }

  /** 14 units are no multiple of 4 units or more. */
  lemma FourteenNotFour(align: nat, u: nat)
    requires Unit(u) && IsPower(align) && (14 * u) % align == 0
    ensures align <= Alignment(16 * u)
  {
    assert Alignment(16 * u) == 2 * u;
    AlignmentPower(16 * u);
    if align > 2 * u {
      PowerDivides(2 * u, align);
      DoublePower(2 * u);
      PowerDivides(4 * u, align);
      MultipleOf(14 * u, align, 4 * u);
      Scaled(14, 4, u);
    }
  }

  lemma AlignedClass(sizes: seq<nat>, pages: seq<nat>, sc: nat, granularity: nat, transfer: nat, align: nat, size: nat, c: nat)
    requires Complete(sizes, pages, sc, granularity, transfer) && granularity != ODD_GRANULARITY
    requires Asked(align, size) && LeastClass(sizes, sc, size, c)
    ensures sizes[c] % align == 0
  {
    var e := sizes[c];
    AtLeastAlign(size, align);
    assert ClassOk(e, pages[c], granularity, transfer);
    if align <= Alignment(e) {
      AlignmentPower(e);
      PowerDivides(align, Alignment(e));
      MultipleOf(e, Alignment(e), align);
    } else {
      NoOddEnd(sizes, pages, sc, granularity, transfer, align, size, c);
    }
  }

  // ------------------------------------------------------------------ ... and fails

  lemma MovesAtSixThousand(size: nat, transfer: nat)
    requires size == 6144 || size == 6656
    ensures NumMoveSize(size, transfer) / 4 <= 2 && Fits(ODD_GRANULARITY, size, NumMoveSize(size, transfer) / 4)
  {
  }

  lemma OddEnd(sizes: seq<nat>, pages: seq<nat>, sc: nat, transfer: nat, c: nat)
    requires Complete(sizes, pages, sc, ODD_GRANULARITY, transfer) && LeastClass(sizes, sc, 6144, c)
    ensures sizes[c] == 6656
  {
    assert Tried(6144) && InClass(sizes, c, 6144);
    assert Member(sizes, pages, ODD_GRANULARITY, transfer, c, 6144) && ClassOk(sizes[c], pages[c], ODD_GRANULARITY, transfer);
    MovesAtSixThousand(6144, transfer);
    LeastOne(pages[c] * K_PAGE_SIZE, ODD_GRANULARITY, 6144, NumMoveSize(6144, transfer) / 4);
    assert ODD_GRANULARITY / sizes[c] == 6;
    SixFold(sizes[c]);
    MovesAtSixThousand(6656, transfer);
    LeastGranule(ODD_GRANULARITY, 6656, NumMoveSize(6656, transfer) / 4);
    NotMerged(sizes, pages, sc, ODD_GRANULARITY, transfer, c);
  }

  lemma SixFold(e: nat)
    requires 6144 <= e && 40960 / e == 6 && Tried(e)
    ensures e == 6144 || e == 6656
  {
    assert 40960 == 6 * e + 40960 % e;
  }

  lemma LeastGranule(granularity: nat, size: nat, blocks: nat)
    requires size > 0 && Fits(granularity, size, blocks)
    ensures Least(granularity, granularity, size, blocks)
  {
    assert Times(1, granularity) == granularity;
    assert NoneFit(1, granularity, size, blocks);
  }

  lemma OddFails(sizes: seq<nat>, pages: seq<nat>, sc: nat, transfer: nat)
    requires Complete(sizes, pages, sc, ODD_GRANULARITY, transfer)
    ensures !Natural(sizes, sc)
  {
    var c := ClassOf(sizes, sc, 6144);
    OddEnd(sizes, pages, sc, transfer, c);
    assert IsPower(1024) by { assert IsPower(64); }
    assert !Naturally(sizes, sc, 1024, 6144, c);
  }

  /** The check passes exactly when the granularity is not five pages, whatever the number of objects to
      transfer. */
  lemma NaturalExactly(sizes: seq<nat>, pages: seq<nat>, sc: nat, granularity: nat, transfer: nat)
    requires Complete(sizes, pages, sc, granularity, transfer)
    ensures Natural(sizes, sc) <==> granularity != ODD_GRANULARITY
  {
    if granularity == ODD_GRANULARITY {
      OddFails(sizes, pages, sc, transfer);
    } else {
      forall align: nat, size: nat, c: nat ensures Naturally(sizes, sc, align, size, c) {
        if Asked(align, size) && LeastClass(sizes, sc, size, c) {
          AlignedClass(sizes, pages, sc, granularity, transfer, align, size, c);
        }
      }
    }
  }

  // ------------------------------------------------------------------ the loops of the check

  /** Everything asked for one alignment, below a size. */
  ghost predicate NaturalBelow(sizes: seq<nat>, sc: nat, align: nat, upto: nat) {
    forall size: nat, c: nat {:trigger Naturally(sizes, sc, align, size, c)} :: size < upto ==> Naturally(sizes, sc, align, size, c)
  }

  ghost predicate NaturalUpTo(sizes: seq<nat>, sc: nat, upto: nat) {
    forall align: nat {:trigger NaturalBelow(sizes, sc, align, K_PAGE_SIZE)} :: align < upto ==> NaturalBelow(sizes, sc, align, K_PAGE_SIZE)
  }

  lemma NoMultipleBetween(align: nat, size: nat, s: nat)
    requires 0 < align && size % align == 0 && s % align == 0 && size < s
    ensures size + align <= s
  {
    MultipleMod(size, align);
    MultipleMod(s, align);
    MultiplesApart(size, s, align);
  }

  lemma NextMultiple(size: nat, align: nat)
    requires 0 < align && size % align == 0
    ensures (size + align) % align == 0
  {
    MultipleMod(size, align);
    MultipleNext(size, align);
    MultipleMod(size + align, align);
  }

  lemma FirstSize(sizes: seq<nat>, sc: nat, align: nat)
    requires 0 < align
    ensures NaturalBelow(sizes, sc, align, align) && align % align == 0
  {
    forall size: nat, c: nat | size < align ensures Naturally(sizes, sc, align, size, c) {
      if Asked(align, size) { AtLeastAlign(size, align); }
    }
  }

  lemma NextSize(sizes: seq<nat>, sc: nat, align: nat, size: nat, c: nat)
    requires ClassTable(sizes, sc) && 0 < align && size % align == 0 && NaturalBelow(sizes, sc, align, size)
    requires LeastClass(sizes, sc, size, c) && sizes[c] % align == 0
    ensures NaturalBelow(sizes, sc, align, size + align)
  {
    forall s: nat, d: nat | s < size + align ensures Naturally(sizes, sc, align, s, d) {
      if s == size && LeastClass(sizes, sc, s, d) {
        LeastClassUnique(sizes, sc, s, c, d);
        LeastClassUnique(sizes, sc, s, d, c);
      } else if s > size && s % align == 0 {
        NoMultipleBetween(align, size, s);
      }
    }
  }

  lemma FirstAlign(sizes: seq<nat>, sc: nat, align: nat)
    requires align == K_MIN_ALIGN
    ensures NaturalUpTo(sizes, sc, align) && IsPower(align)
  {
    assert IsPower(4);
  }

  lemma NextAlign(sizes: seq<nat>, sc: nat, align: nat)
    requires IsPower(align) && NaturalUpTo(sizes, sc, align) && NaturalBelow(sizes, sc, align, K_PAGE_SIZE)
    ensures NaturalUpTo(sizes, sc, 2 * align) && IsPower(2 * align)
  {
    DoublePower(align);
    forall a: nat | a < 2 * align ensures NaturalBelow(sizes, sc, a, K_PAGE_SIZE) {
      if a > align {
        forall s: nat, c: nat | s < K_PAGE_SIZE ensures Naturally(sizes, sc, a, s, c) {
          if IsPower(a) { PowerDivides(align, a); }
        }
      }
    }
  }

  lemma NaturalAll(sizes: seq<nat>, sc: nat, upto: nat)
    requires NaturalUpTo(sizes, sc, upto) && K_PAGE_SIZE < upto
    ensures Natural(sizes, sc)
  {
    forall align: nat, size: nat, c: nat ensures Naturally(sizes, sc, align, size, c) {
      if Asked(align, size) { assert NaturalBelow(sizes, sc, align, K_PAGE_SIZE); }
    }
  }
}
