/** Bitwise operations on naturals, and shifts and masks by halving. */
module Bits {

  import opened Arithmetic

  function Xor(a: nat, b: nat): nat {
    if a == 0 && b == 0 then 0 else (a + b) % 2 + 2 * Xor(a / 2, b / 2)
  }

  function Or(a: nat, b: nat): nat {
    if a == 0 && b == 0 then 0 else (if a % 2 == 1 || b % 2 == 1 then 1 else 0) + 2 * Or(a / 2, b / 2)
  }

  /** x >> k */
  function High(x: nat, k: nat): nat { if k == 0 then x else High(x / 2, k - 1) }

  /** The k low bits of x. */
  function Low(x: nat, k: nat): nat { if k == 0 then 0 else x % 2 + 2 * Low(x / 2, k - 1) }

  lemma {:induction false} XorZero(a: nat)
    ensures Xor(a, 0) == a
  {
    if a > 0 { XorZero(a / 2); }
  }

  lemma {:induction false} XorSame(a: nat)
    ensures Xor(a, a) == 0
  {
    if a > 0 { XorSame(a / 2); }
  }

  lemma {:induction false} XorDiffers(a: nat, b: nat)
    requires a != b
    ensures Xor(a, b) > 0
  {
    if a / 2 != b / 2 { XorDiffers(a / 2, b / 2); } else { assert a % 2 != b % 2; }
  }

  lemma {:induction false} XorHigh(a: nat, b: nat, k: nat)
    ensures High(Xor(a, b), k) == Xor(High(a, k), High(b, k))
    decreases k
  {
    if k > 0 {
      assert Xor(a, b) / 2 == Xor(a / 2, b / 2);
      XorHigh(a / 2, b / 2, k - 1);
    }
  }

  /** The exclusive or has no high bits exactly when the high parts agree. */
  lemma XorSmall(a: nat, b: nat, k: nat)
    ensures High(Xor(a, b), k) == 0 <==> High(a, k) == High(b, k)
  {
    XorHigh(a, b, k);
    if High(a, k) == High(b, k) { XorSame(High(a, k)); } else { XorDiffers(High(a, k), High(b, k)); }
  }

  /** With the high parts equal and one low part 0, it is the other low part. */
  lemma {:induction false} XorLow(a: nat, b: nat, k: nat)
    requires High(a, k) == High(b, k) && Low(b, k) == 0
    ensures Xor(a, b) == Low(a, k)
    decreases k
  {
    if k == 0 {
      XorSame(a);
    } else {
      assert b % 2 == 0 && Low(b / 2, k - 1) == 0;
      XorLow(a / 2, b / 2, k - 1);
      assert Xor(a, b) == (a + b) % 2 + 2 * Xor(a / 2, b / 2);
      assert (a + b) % 2 == a % 2;
    }
  }

  /** Clearing the low bits. */
  lemma {:induction false} XorClears(a: nat, k: nat)
    ensures Low(a, k) <= a && Xor(a, Low(a, k)) == a - Low(a, k)
    decreases k
  {
    if k == 0 {
      XorZero(a);
    } else {
      assert Low(a, k) / 2 == Low(a / 2, k - 1);
      XorClears(a / 2, k - 1);
    }
  }

  /** Or of parts that share no bit. */
  lemma {:induction false} OrDisjoint(a: nat, b: nat, k: nat)
    requires Low(a, k) == 0 && High(b, k) == 0
    ensures Or(a, b) == a + b
    decreases k
  {
    if k == 0 { OrZero(a); } else { OrDisjoint(a / 2, b / 2, k - 1); }
  }

  lemma {:induction false} OrZero(a: nat)
    ensures Or(a, 0) == a
  {
    if a > 0 { OrZero(a / 2); }
  }

  // Shifts by 4, 7 and 16 as divisions.

  lemma Shift4(x: nat, k: nat)
    requires k >= 4
    ensures High(x, k) == High(x / 16, k - 4) && Low(x, k) == x % 16 + 16 * Low(x / 16, k - 4)
  {
    assert High(x, k) == High(x / 2 / 2, k - 2) && Low(x, k) == x % 2 + 2 * (x / 2 % 2 + 2 * Low(x / 2 / 2, k - 2));
    var y := x / 4;
    assert x / 2 / 2 == y && High(y, k - 2) == High(y / 2 / 2, k - 4) && Low(y, k - 2) == y % 2 + 2 * (y / 2 % 2 + 2 * Low(y / 2 / 2, k - 4));
    assert y / 2 / 2 == x / 16;
  }

  lemma Shift7(x: nat)
    ensures High(x, 7) == x / 128 && Low(x, 7) == x % 128
  {
    Shift4(x, 7);
    var y := x / 16;
    assert High(y, 3) == High(y / 2, 2) == High(y / 2 / 2, 1) == y / 2 / 2 / 2;
    var z := y / 2 / 2;
    assert Low(z, 1) == z % 2 + 2 * Low(z / 2, 0) == z % 2;
    assert Low(y / 2, 2) == y / 2 % 2 + 2 * Low(z, 1);
    assert Low(y, 3) == y % 2 + 2 * Low(y / 2, 2);
    assert y / 2 / 2 / 2 == x / 128;
  }

  lemma Shift16(x: nat)
    ensures High(x, 16) == x / 65536 && Low(x, 16) == x % 65536
  {
    Shift4(x, 16);
    Shift4(x / 16, 12);
    assert x / 16 / 16 == x / 256;
    Shift4(x / 256, 8);
    assert x / 256 / 16 == x / 4096;
    Shift4(x / 4096, 4);
    assert x / 4096 / 16 == x / 65536;
    assert High(x / 65536, 0) == x / 65536 && Low(x / 65536, 0) == 0;
  }

  // ------------------------------------------------------------------ masks

  function And(a: nat, b: nat): nat {
    if a == 0 || b == 0 then 0 else (if a % 2 == 1 && b % 2 == 1 then 1 else 0) + 2 * And(a / 2, b / 2)
  }

  /** x & ~mask */
  function Cleared(x: nat, mask: nat): nat {
    AndAtMost(x, mask);
    x - And(x, mask)
  }

  lemma {:induction false} AndAtMost(a: nat, b: nat)
    ensures And(a, b) <= a
  {
    if a > 0 && b > 0 { AndAtMost(a / 2, b / 2); }
  }

  predicate IsPower(s: nat) { s == 1 || (s > 1 && s % 2 == 0 && IsPower(s / 2)) }

  lemma {:induction false} AndSame(a: nat)
    ensures And(a, a) == a
  {
    if a > 0 { AndSame(a / 2); }
  }

  /** The usual test for a power of two. */
  lemma {:induction false} PowerTest(s: nat)
    requires s > 0
    ensures And(s, s - 1) == 0 <==> IsPower(s)
  {
    if s % 2 == 1 {
      AndSame(s / 2);
      assert (s - 1) / 2 == s / 2;
    } else {
      PowerTest(s / 2);
      assert (s - 1) / 2 == s / 2 - 1;
    }
  }

  lemma RemainderByHalves(x: nat, t: nat)
    requires t > 0
    ensures x % (2 * t) == x % 2 + 2 * (x / 2 % t)
  {
    var y := x / 2;
    var q, r := y / t, y % t;
    assert y == q * t + r;
    assert q * (2 * t) == 2 * (q * t);
    assert x == q * (2 * t) + (x % 2 + 2 * r);
    QuotientUnique(x, 2 * t, q, x % 2 + 2 * r);
  }

  lemma AndOdd(x: nat, y: nat)
    requires y > 0
    ensures And(x, 2 * y - 1) == x % 2 + 2 * And(x / 2, y - 1)
  {
    assert (2 * y - 1) / 2 == y - 1;
  }

  lemma AndDoubled(x: nat, y: nat)
    requires y > 0
    ensures And(2 * x, 2 * y - 1) == 2 * And(x, y - 1)
  {
    AndOdd(2 * x, y);
  }

  /** The mask of a power of two takes the remainder. */
  lemma {:induction false} MaskIsRemainder(x: nat, s: nat)
    requires IsPower(s)
    ensures And(x, s - 1) == x % s
    decreases s
  {
    if s > 1 {
      MaskIsRemainder(x / 2, s / 2);
      AndOdd(x, s / 2);
      RemainderByHalves(x, s / 2);
    }
  }

  /** Any other mask lets a number through that is no multiple. */
  lemma {:induction false} MaskMisses(a: nat) returns (p: nat)
    requires a > 0 && !IsPower(a)
    ensures 0 < p < a && And(p, a - 1) == 0
  {
    if a % 2 == 1 {
      p := 1;
      assert And(1, a - 1) == 2 * And(0, (a - 1) / 2);
    } else {
      var q := MaskMisses(a / 2);
      p := 2 * q;
      assert (a - 1) / 2 == a / 2 - 1;
    }
  }

  /** What passes the mask `a - 1` is a multiple of `a`, whatever it is, exactly for powers of two. */
  lemma MaskAligns(a: nat)
    requires a > 0
    ensures (forall p: nat :: And(p, a - 1) == 0 ==> p % a == 0) <==> IsPower(a)
  {
    if IsPower(a) {
      forall p: nat | And(p, a - 1) == 0 ensures p % a == 0 { MaskIsRemainder(p, a); }
    } else {
      var p := MaskMisses(a);
      QuotientUnique(p, a, 0, p);
    }
  }

  /** From any number on, at most `mask` steps lead to one that passes. */
  lemma {:induction false} MaskPasses(p: nat, mask: nat) returns (skip: nat)
    ensures skip <= mask && And(p + skip, mask) == 0
    decreases mask
  {
    if mask == 0 {
      skip := 0;
    } else if mask % 2 == 0 || p % 2 == 0 {
      var s := MaskPasses(p / 2, mask / 2);
      skip := 2 * s;
      assert (p + skip) / 2 == p / 2 + s;
    } else {
      var s := MaskPasses(p / 2 + 1, mask / 2);
      skip := 1 + 2 * s;
      assert (p + skip) / 2 == p / 2 + 1 + s;
    }
  }

  lemma Doubled(x: nat, s: nat, t: nat)
    requires s == 2 * t
    ensures x * s == 2 * (x * t)
  {
  }

  /** Masking addresses by bytes is masking them by units of `s` bytes. */
  lemma {:induction false} ScaledMask(p: nat, a: nat, s: nat)
    requires a > 0 && IsPower(s)
    ensures a * s > 0 && And(p * s, a * s - 1) == And(p, a - 1) * s
    decreases s
  {
    if s > 1 {
      ScaledMask(p, a, s / 2);
      Doubled(p, s, s / 2);
      Doubled(a, s, s / 2);
      Doubled(And(p, a - 1), s, s / 2);
      AndDoubled(p * (s / 2), a * (s / 2));
    }
  }
}
