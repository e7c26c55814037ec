/** Size classes (common.cc, common.h): which sizes are considered, and how sizes map to array indices. */
module SizeClasses {

  import opened Bits
  import Arithmetic

  const K_MAX_SIZE: nat := 262144
  const K_PAGE_SIZE: nat := 8192
  const K_ALIGNMENT: nat := 8
  const K_MIN_ALIGN: nat := 16
  const K_MAX_SMALL_SIZE: nat := 1024
  const K_CLASS_SIZES_MAX: nat := 128
  const K_CLASS_ARRAY_SIZE: nat := 2169

  // ------------------------------------------------------------------ logarithms

  lemma {:induction false} HighHigh(x: nat, a: nat, b: nat)
    ensures High(High(x, a), b) == High(x, a + b)
    decreases a
  {
    if a > 0 { HighHigh(x / 2, a - 1, b); }
  }

  lemma HighStep(x: nat, k: nat)
    ensures High(x, k + 1) == High(x, k) / 2
  {
    HighHigh(x, k, 1);
    assert High(High(x, k), 1) == High(High(x, k) / 2, 0);
  }

  /** Exactly one shift leaves a 1. */
  lemma {:induction false} OneShift(x: nat, a: nat, b: nat)
    requires High(x, a) == 1 && High(x, b) == 1
    ensures a == b
  {
    if a < b { LaterZero(x, a, b); } else if b < a { LaterZero(x, b, a); }
  }

  lemma {:induction false} LaterZero(x: nat, a: nat, b: nat)
    requires High(x, a) <= 1 && a < b
    ensures High(x, b) == 0
    decreases b
  {
    HighStep(x, b - 1);
    if a < b - 1 { LaterZero(x, a, b - 1); }
  }

  /** The number of the highest bit: the shift that leaves a 1. */
  method LgFloor(size: nat) returns (log: nat)
    requires size > 0 && High(size, 32) == 0
    ensures High(size, log) == 1
  {
    log := 0;
    var n, shift := size, 16;
    while shift > 0
      invariant shift in {16, 8, 4, 2, 1, 0}
      invariant n > 0 && High(size, log) == n && (if shift > 0 then High(n, 2 * shift) == 0 else n == 1)
    {
      var x := High(n, shift);
      HighHigh(size, log, shift);
      HighHigh(n, shift, shift);
      if x != 0 {
        n := x;
        log := log + shift;
      }
      if shift == 1 { assert High(n, 1) == High(n / 2, 0); }
      shift := shift / 2;
    }
  }

  // ------------------------------------------------------------------ the sizes that are tried

  /** The distance to the next size. */
  function Alignment(size: nat): (a: nat)
    ensures a > 0
  {
    if size < 16 then 8
    else if size < 256 then 16
    else if size < 512 then 32
    else if size < 1024 then 64
    else if size < 2048 then 128
    else if size < 4096 then 256
    else if size < 8192 then 512
    else if size < 16384 then 1024
    else if size < 32768 then 2048
    else if size < 65536 then 4096
    else 8192
  }

  /** How many sizes come before this one. */
  function Rank(size: nat): nat {
    if size < 16 then 0
    else if size < 256 then size / 16
    else if size < 512 then 8 + size / 32
    else if size < 1024 then 16 + size / 64
    else if size < 2048 then 24 + size / 128
    else if size < 4096 then 32 + size / 256
    else if size < 8192 then 40 + size / 512
    else if size < 16384 then 48 + size / 1024
    else if size < 32768 then 56 + size / 2048
    else if size < 65536 then 64 + size / 4096
    else 72 + size / 8192
  }

  /** The sizes that Init tries. */
  predicate Tried(size: nat) {
    size == 8 || (size >= 16 && size % Alignment(size) == 0)
  }

  /** A step of `a` from a multiple of `a` below another multiple of it does not pass that one. */
  lemma StepTo(size: nat, a: nat, q: nat, hi: nat, n: nat)
    requires size == a * q && hi == a * n && size < hi && a > 0
    ensures size + a <= hi
  {
    if q >= n {
      if q > n { Arithmetic.Gap(a, q, n); }
      assert false;
    }
    Arithmetic.Gap(a, n, q);
  }

  lemma NextAligned(size: nat)
    requires Tried(size)
    ensures size % Alignment(size) == 0
    ensures size < 16 || size >= 65536 || size + Alignment(size) <= 2 * 8 * Alignment(size)
    ensures size < K_MAX_SIZE ==> size + Alignment(size) <= K_MAX_SIZE
  {
    if size < 16 {
    } else if size < 256 {
      StepTo(size, 16, size / 16, 256, 16);
    } else if size < 512 {
      StepTo(size, 32, size / 32, 512, 16);
    } else if size < 1024 {
      StepTo(size, 64, size / 64, 1024, 16);
    } else if size < 2048 {
      StepTo(size, 128, size / 128, 2048, 16);
    } else if size < 4096 {
      StepTo(size, 256, size / 256, 4096, 16);
    } else if size < 8192 {
      StepTo(size, 512, size / 512, 8192, 16);
    } else if size < 16384 {
      StepTo(size, 1024, size / 1024, 16384, 16);
    } else if size < 32768 {
      StepTo(size, 2048, size / 2048, 32768, 16);
    } else if size < 65536 {
      StepTo(size, 4096, size / 4096, 65536, 16);
    } else {
      if size < K_MAX_SIZE { StepTo(size, 8192, size / 8192, K_MAX_SIZE, 32); }
    }
  }

  /** No size is tried between one that is and the next. */
  lemma NoneBetween(size: nat, s: nat)
    requires Tried(size) && Tried(s) && size < s
    ensures size + Alignment(size) <= s
  {
    var a := Alignment(size);
    NextAligned(size);
    if size >= 16 && Alignment(s) == a { StepTo(size, a, size / a, s, s / a); }
  }

  /** The next size that is tried has the next rank. */
  lemma NextTried(size: nat)
    requires Tried(size)
    ensures Tried(size + Alignment(size)) && Rank(size + Alignment(size)) == Rank(size) + 1
  {
    if size < 512 { NextTriedSmall(size); }
    else if size < 2048 { NextTriedThousands(size); }
    else if size < 8192 { NextTriedMiddle(size); }
    else if size < 32768 { NextTriedLarge(size); }
    else { NextTriedLargest(size); }
  }

  lemma NextTriedSmall(size: nat)
    requires Tried(size) && size < 512
    ensures Tried(size + Alignment(size)) && Rank(size + Alignment(size)) == Rank(size) + 1
  {
    NextAligned(size);
    if 16 <= size < 256 {
      var q := size / 16;
      assert size == 16 * q && size + 16 == 16 * (q + 1);
      if size + 16 < 256 { Arithmetic.QuotientUnique(size + 16, 16, q + 1, 0); } else { assert size + 16 == 256; }
    } else if 256 <= size {
      var q := size / 32;
      assert size == 32 * q && size + 32 == 32 * (q + 1);
      if size + 32 < 512 { Arithmetic.QuotientUnique(size + 32, 32, q + 1, 0); } else { assert size + 32 == 512; }
    }
  }

  lemma NextTriedThousands(size: nat)
    requires Tried(size) && 512 <= size < 2048
    ensures Tried(size + Alignment(size)) && Rank(size + Alignment(size)) == Rank(size) + 1
  {
    NextAligned(size);
    if size < 1024 {
      var q := size / 64;
      assert size == 64 * q && size + 64 == 64 * (q + 1);
      if size + 64 < 1024 { Arithmetic.QuotientUnique(size + 64, 64, q + 1, 0); } else { assert size + 64 == 1024; }
    } else {
      var q := size / 128;
      assert size == 128 * q && size + 128 == 128 * (q + 1);
      if size + 128 < 2048 { Arithmetic.QuotientUnique(size + 128, 128, q + 1, 0); } else { assert size + 128 == 2048; }
    }
  }

  lemma NextTriedMiddle(size: nat)
    requires Tried(size) && 2048 <= size < 8192
    ensures Tried(size + Alignment(size)) && Rank(size + Alignment(size)) == Rank(size) + 1
  {
    NextAligned(size);
    if size < 4096 {
      var q := size / 256;
      assert size == 256 * q && size + 256 == 256 * (q + 1);
      if size + 256 < 4096 { Arithmetic.QuotientUnique(size + 256, 256, q + 1, 0); } else { assert size + 256 == 4096; }
    } else {
      var q := size / 512;
      assert size == 512 * q && size + 512 == 512 * (q + 1);
      if size + 512 < 8192 { Arithmetic.QuotientUnique(size + 512, 512, q + 1, 0); } else { assert size + 512 == 8192; }
    }
  }

  lemma NextTriedLarge(size: nat)
    requires Tried(size) && 8192 <= size < 32768
    ensures Tried(size + Alignment(size)) && Rank(size + Alignment(size)) == Rank(size) + 1
  {
    NextAligned(size);
    if size < 16384 {
      var q := size / 1024;
      assert size == 1024 * q && size + 1024 == 1024 * (q + 1);
      if size + 1024 < 16384 { Arithmetic.QuotientUnique(size + 1024, 1024, q + 1, 0); } else { assert size + 1024 == 16384; }
    } else {
      var q := size / 2048;
      assert size == 2048 * q && size + 2048 == 2048 * (q + 1);
      if size + 2048 < 32768 { Arithmetic.QuotientUnique(size + 2048, 2048, q + 1, 0); } else { assert size + 2048 == 32768; }
    }
  }

  lemma NextTriedLargest(size: nat)
    requires Tried(size) && 32768 <= size
    ensures Tried(size + Alignment(size)) && Rank(size + Alignment(size)) == Rank(size) + 1
  {
    NextAligned(size);
    if size < 65536 {
      var q := size / 4096;
      assert size == 4096 * q && size + 4096 == 4096 * (q + 1);
      if size + 4096 < 65536 { Arithmetic.QuotientUnique(size + 4096, 4096, q + 1, 0); } else { assert size + 4096 == 65536; }
    } else {
      var q := size / 8192;
      assert size == 8192 * q && size + 8192 == 8192 * (q + 1);
      Arithmetic.QuotientUnique(size + 8192, 8192, q + 1, 0);
    }
  }

  /** One shift left. */
  function Power(k: nat): nat { if k == 0 then 1 else 2 * Power(k - 1) }

  lemma PowerBits(size: nat, log: nat)
    requires 128 <= size <= K_MAX_SIZE && High(size, log) == 1
    ensures Power(log) / 8 == (if size < 131072 then Alignment(size) else if size < 262144 then 16384 else 32768)
  {
    Shift7(size);
    HighStep(size, 7); HighStep(size, 8); HighStep(size, 9); HighStep(size, 10); HighStep(size, 11); HighStep(size, 12);
    HighStep(size, 13); HighStep(size, 14); HighStep(size, 15); HighStep(size, 16); HighStep(size, 17);
    var k := if size < 256 then 7 else if size < 512 then 8 else if size < 1024 then 9 else if size < 2048 then 10
             else if size < 4096 then 11 else if size < 8192 then 12 else if size < 16384 then 13 else if size < 32768 then 14
             else if size < 65536 then 15 else if size < 131072 then 16 else if size < 262144 then 17 else 18;
    assert High(size, k) == 1;
    OneShift(size, log, k);
    Powers();
  }

  lemma Powers()
    ensures Power(7) == 128 && Power(8) == 256 && Power(9) == 512 && Power(10) == 1024 && Power(11) == 2048 && Power(12) == 4096
    ensures Power(13) == 8192 && Power(14) == 16384 && Power(15) == 32768 && Power(16) == 65536 && Power(17) == 131072 && Power(18) == 262144
  {
    assert Power(6) == 64;
    assert Power(9) == 512;
    assert Power(12) == 4096;
    assert Power(15) == 32768;
  }

  /** AlignmentForSize: for the sizes that Init tries, the distance to the next; a page above them. */
  method AlignmentForSize(size: nat) returns (alignment: nat)
    requires 0 < size
    ensures alignment == if size <= K_MAX_SIZE then Alignment(size) else K_PAGE_SIZE
  {
    alignment := K_ALIGNMENT;
    if size > K_MAX_SIZE {
      alignment := K_PAGE_SIZE;
    } else if size >= 128 {
      SmallEnough(size);
      var log := LgFloor(size);
      PowerBits(size, log);
      alignment := Power(log) / 8;
    } else if size >= K_MIN_ALIGN {
      alignment := K_MIN_ALIGN;
    }
    if alignment > K_PAGE_SIZE { alignment := K_PAGE_SIZE; }
  }

  lemma SmallEnough(size: nat)
    requires size <= K_MAX_SIZE
    ensures High(size, 32) == 0
  {
    Shift16(size);
    HighHigh(size, 16, 16);
    Shift16(size / 65536);
  }

  // ------------------------------------------------------------------ indices

  function ClassIndex(size: nat): nat {
    if size <= K_MAX_SMALL_SIZE then (size + 7) / 8 else (size + 127 + 15360) / 128
  }

  /** The largest size with that index. */
  function Top(index: nat): nat { if index <= 128 then 8 * index else (index - 120) * 128 }

  /** Sizes at which a class may end: multiples of 8 up to 1024, of 128 above. */
  predicate OnGrid(size: nat) { Top(ClassIndex(size)) == size }

  lemma TriedOnGrid(size: nat)
    requires Tried(size)
    ensures OnGrid(size) && size % 8 == 0
  {
    if size <= K_MAX_SMALL_SIZE {
      TriedFine(size);
      GridBelow(size, size / 8);
    } else {
      TriedCoarse(size);
      GridAbove(size, size / 128);
    }
  }

  lemma GridBelow(size: nat, q: nat)
    requires size == 8 * q && size <= K_MAX_SMALL_SIZE
    ensures OnGrid(size)
  {
    assert ClassIndex(size) == q;
  }

  lemma GridAbove(size: nat, q: nat)
    requires size == 128 * q && size > K_MAX_SMALL_SIZE
    ensures OnGrid(size) && size % 8 == 0
  {
    assert ClassIndex(size) == q + 120;
  }

  lemma TriedFine(size: nat)
    requires Tried(size) && size <= K_MAX_SMALL_SIZE
    ensures size % 8 == 0
  {
    if size >= 16 {
      var a := Alignment(size);
      var q := size / a;
      assert size == a * q && a % 8 == 0;
      var k := a / 8;
      assert size == 8 * (k * q);
    }
  }

  lemma TriedCoarse(size: nat)
    requires Tried(size) && K_MAX_SMALL_SIZE <= size
    ensures size % 128 == 0
  {
    var a := Alignment(size);
    var q := size / a;
    assert size == a * q && a % 128 == 0;
    var k := a / 128;
    assert size == 128 * (k * q);
  }

  /** An index stands for the sizes up to its top and above the tops below it. */
  lemma IndexTop(size: nat, top: nat)
    ensures size <= Top(ClassIndex(size))
    ensures OnGrid(top) && size <= top ==> Top(ClassIndex(size)) <= top
    ensures OnGrid(top) ==> (top < size <==> top < Top(ClassIndex(size)))
  {
  }

  lemma IndexNext(size: nat)
    requires size % 8 == 0
    ensures ClassIndex(size) <= ClassIndex(size + 8) <= ClassIndex(size) + 1
  {
  }
}
