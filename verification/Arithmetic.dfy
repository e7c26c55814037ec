/** Division facts that the solver does not find by itself. */
module Arithmetic {

  lemma {:induction false} Gap(k: nat, q: nat, d: nat)
    requires q > d
    ensures q * k >= d * k + k
  {
    assert q * k == (q - 1) * k + k;
    if q > d + 1 { Gap(k, q - 1, d); }
  }

  lemma SplitUnique(k: nat, q: nat, r: nat, d: nat, e: nat)
    requires q * k + r == d * k + e && r < k && e < k
    ensures q == d && r == e
  {
    if q > d { Gap(k, q, d); } else if q < d { Gap(k, d, q); }
  }

  lemma QuotientUnique(x: nat, k: nat, q: nat, r: nat)
    requires x == q * k + r && r < k
    ensures x / k == q && x % k == r
  {
    assert x == x / k * k + x % k;
    SplitUnique(k, q, r, x / k, x % k);
  }

  lemma FloorMultiple(x: nat, k: nat)
    requires 0 < k
    ensures x % k < k && x % k <= x && (x - x % k) % k == 0
  {
    var q := x / k;
    assert x == q * k + x % k;
    assert q * k >= 0;
    QuotientUnique(x - x % k, k, q, 0);
  }

  /** The distance from `start` to the next multiple of `align`. */
  function Skip(start: nat, align: nat): nat
    requires 0 < align
  {
    if start % align == 0 then 0 else align - start % align
  }

  lemma SkipAligned(start: nat, align: nat)
    requires 0 < align
    ensures Skip(start, align) < align && (start + Skip(start, align)) % align == 0
  {
    var stop := Skip(start, align);
    if stop > 0 {
      var d := start / align;
      assert start == d * align + start % align;
      assert start + stop == (d + 1) * align + 0;
      QuotientUnique(start + stop, align, d + 1, 0);
    }
  }

  // Multiples by repeated addition, for proofs that must not meet products of variables.

  function Times(k: nat, a: nat): nat { if k == 0 then 0 else a + Times(k - 1, a) }

  ghost predicate Multiple(p: nat, a: nat) { a > 0 && exists k: nat :: Times(k, a) == p }

  lemma {:induction false} TimesIsProduct(k: nat, a: nat)
    ensures Times(k, a) == k * a
  {
    if k > 0 { TimesIsProduct(k - 1, a); }
  }

  lemma MultipleMod(p: nat, a: nat)
    requires a > 0
    ensures Multiple(p, a) <==> p % a == 0
  {
    if p % a == 0 {
      TimesIsProduct(p / a, a);
      assert Times(p / a, a) == p;
    }
    if Multiple(p, a) {
      var k: nat :| Times(k, a) == p;
      TimesIsProduct(k, a);
      QuotientUnique(p, a, k, 0);
    }
  }

  lemma MultipleNext(p: nat, a: nat)
    requires Multiple(p, a)
    ensures Multiple(p + a, a)
  {
    var k: nat :| Times(k, a) == p;
    assert Times(k + 1, a) == p + a;
  }

  lemma {:induction false} TimesGap(k: nat, j: nat, a: nat)
    requires k < j
    ensures Times(k, a) + a <= Times(j, a)
  {
    if k + 1 < j { TimesGap(k, j - 1, a); }
  }

  lemma MultiplesApart(p: nat, q: nat, a: nat)
    requires Multiple(p, a) && Multiple(q, a) && p < q
    ensures p + a <= q
  {
    var k: nat :| Times(k, a) == p;
    var j: nat :| Times(j, a) == q;
    if k < j { TimesGap(k, j, a); } else if j < k { TimesGap(j, k, a); }
  }
}
