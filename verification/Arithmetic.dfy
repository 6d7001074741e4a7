/** The 64-bit division routines of lib/arithmetic.c, on naturals below 2^64
    with every truncation and wrap-around written out. */
module Arithmetic {
  import opened IntegerFacts

  type Uint32 = x: nat | x < 0x1_0000_0000
  type Uint64 = x: nat | x < 0x1_0000_0000_0000_0000
  type Int32 = x: int | -0x8000_0000 <= x < 0x8000_0000
  type Int64 = x: int | -0x8000_0000_0000_0000 <= x < 0x8000_0000_0000_0000

  function Wrap32(x: int): Uint32 { x % 0x1_0000_0000 }

  function Wrap64(x: int): Uint64 { x % 0x1_0000_0000_0000_0000 }

  function ToInt32(x: int): Int32 {
    var w := x % 0x1_0000_0000;
    if w < 0x8000_0000 then w else w - 0x1_0000_0000
  }

  function ToInt64(x: int): Int64 {
    var w := x % 0x1_0000_0000_0000_0000;
    if w < 0x8000_0000_0000_0000 then w else w - 0x1_0000_0000_0000_0000
  }

  /* Powers of two */

  lemma WrapSmall(x: int)
    ensures 0 <= x < 0x1_0000_0000 ==> Wrap32(x) == x
    ensures 0 <= x < 0x1_0000_0000_0000_0000 ==> Wrap64(x) == x
  {}

  function Pow2(n: nat): (p: nat)
    ensures p >= 1
  {
    if n == 0 then 1 else 2 * Pow2(n - 1)
  }

  lemma {:induction false} Pow2Add(m: nat, n: nat)
    ensures Pow2(m + n) == Pow2(m) * Pow2(n)
  {
    if m == 0 {
    } else {
      Pow2Add(m - 1, n);
      MulAssoc(2, Pow2(m - 1), Pow2(n));
    }
  }

  lemma {:induction false} Pow2Monotone(m: nat, n: nat)
    requires m <= n
    ensures Pow2(m) <= Pow2(n)
    decreases n
  {
    if m < n {
      Pow2Monotone(m, n - 1);
    }
  }

  lemma Pow2Next(k: nat)
    ensures Pow2(0) == 1 && Pow2(1) == 2 && Pow2(k + 1) == 2 * Pow2(k)
  {}

  lemma Pow2Values()
    ensures Pow2(0) == 1 && Pow2(1) == 2 && Pow2(2) == 4 && Pow2(4) == 16 && Pow2(8) == 0x100
    ensures Pow2(16) == 0x1_0000 && Pow2(31) == 0x8000_0000 && Pow2(32) == 0x1_0000_0000
    ensures Pow2(33) == 2 * 0x1_0000_0000 && Pow2(64) == 0x1_0000_0000_0000_0000
  {
    hide Pow2;
    Pow2Next(1);
    Pow2Next(31);
    Pow2Next(32);
    Pow2Add(2, 2);
    Pow2Add(4, 4);
    Pow2Add(8, 8);
    Pow2Add(16, 16);
    Pow2Add(32, 32);
  }

  /* Number of leading zeros */

  // The specification of nlz: how often a nonzero word doubles before bit 31 is set.
  function Nlz(x: Uint32): nat
    requires x > 0
    decreases 0x1_0000_0000 - x
  {
    if x >= 0x8000_0000 then 0 else 1 + Nlz(2 * x)
  }

  lemma {:induction false} NlzNormalizes(x: Uint32)
    requires x > 0
    ensures Nlz(x) <= 31 && 0x8000_0000 <= x * Pow2(Nlz(x)) < 0x1_0000_0000
    decreases 0x1_0000_0000 - x
  {
    if x < 0x8000_0000 {
      NlzNormalizes(2 * x);
      var n := Nlz(2 * x);
      MulAssoc(x, 2, Pow2(n));
      NotTwice(x, n);
      assert Nlz(x) == n + 1 && Pow2(n + 1) == 2 * Pow2(n);
    }
  }

  lemma NotTwice(x: nat, n: nat)
    requires x > 0 && n <= 31 && 2 * x * Pow2(n) < 0x1_0000_0000
    ensures n != 31
  {
    hide Pow2;
    Pow2Values();
    MulMono(2, 2 * x, Pow2(n));
  }

  // A shift by k that loses no bit removes k leading zeros; p is 2^k.
  lemma {:induction false} NlzShift(x: Uint32, k: nat, p: nat)
    requires x > 0 && p == Pow2(k) && x * p < 0x1_0000_0000
    ensures x * p > 0 && Nlz(x) == k + Nlz(x * p)
    decreases k
  {
    MulMono(1, p, x);
    if k > 0 {
      MulAssoc(x, 2, Pow2(k - 1));
      MulMono(1, Pow2(k - 1), 2 * x);
      NlzShift(2 * x, k - 1, Pow2(k - 1));
    }
  }

  lemma NlzStep(x: Uint32, k: nat, p: nat)
    requires x > 0 && p == Pow2(k) && x * p < 0x1_0000_0000
    ensures Wrap32(x * p) == x * p > 0 && Nlz(x) == k + Nlz(x * p)
  {
    NlzShift(x, k, p);
  }

  // nlz by binary search; each shift is shown not to lose a set bit.
  method CountLeadingZeros(x0: Uint32) returns (n: nat)
    requires x0 > 0
    ensures n == Nlz(x0) <= 31 && 0x8000_0000 <= x0 * Pow2(n) < 0x1_0000_0000
  {
    Pow2Values();
    NlzNormalizes(x0);
    hide Pow2, Nlz, Wrap32;
    n := 0;
    var x := x0;
    if x <= 0xFFFF {
      NlzStep(x, 16, 0x1_0000);
      n := n + 16;
      x := Wrap32(x * 0x1_0000);
    }
    assert x >= 0x1_0000 && n + Nlz(x) == Nlz(x0);
    if x <= 0xFF_FFFF {
      NlzStep(x, 8, 0x100);
      n := n + 8;
      x := Wrap32(x * 0x100);
    }
    assert x >= 0x100_0000 && n + Nlz(x) == Nlz(x0);
    if x <= 0xFFF_FFFF {
      NlzStep(x, 4, 0x10);
      n := n + 4;
      x := Wrap32(x * 0x10);
    }
    assert x >= 0x1000_0000 && n + Nlz(x) == Nlz(x0);
    if x <= 0x3FFF_FFFF {
      NlzStep(x, 2, 4);
      n := n + 2;
      x := Wrap32(x * 4);
    }
    assert x >= 0x4000_0000 && n + Nlz(x) == Nlz(x0);
    NlzTop(x);
    if x <= 0x7FFF_FFFF {
      n := n + 1;
    }
  }

  lemma NlzTop(x: Uint32)
    requires x >= 0x4000_0000
    ensures Nlz(x) == if x <= 0x7FFF_FFFF then 1 else 0
  {}

  /* Unsigned division */

  // The x86 divl instruction: it traps (here: cannot be called) when the
  // divisor is zero or the quotient does not fit in 32 bits.
  function Divl(n: Uint64, d: Uint32): Uint32
    requires d != 0 && n / d < 0x1_0000_0000
  {
    n / d
  }

  // The narrow branch: the partial dividend never makes divl trap.
  lemma NarrowPartial(n: Uint64, d: Uint32)
    requires d != 0
    ensures var p := 0x1_0000_0000 * ((n / 0x1_0000_0000) % d) + n % 0x1_0000_0000;
      && p < 0x1_0000_0000_0000_0000 && p / d < 0x1_0000_0000
      && p / d + 0x1_0000_0000 * ((n / 0x1_0000_0000) / d) == n / d < 0x1_0000_0000_0000_0000
  {
    var n1, n0 := n / 0x1_0000_0000, n % 0x1_0000_0000;
    var p := 0x1_0000_0000 * (n1 % d) + n0;
    DivMod(n1, d);
    NarrowQuotient(n, d, n1 / d, p);
  }

  lemma NarrowQuotient(n: nat, d: nat, q1: nat, p: nat)
    requires 0 < d && n == 0x1_0000_0000 * (q1 * d) + p && p < 0x1_0000_0000 * d
    ensures p / d < 0x1_0000_0000 && p / d + 0x1_0000_0000 * q1 == n / d
  {
    DivBelow(p, d, 0x1_0000_0000);
    DivMod(p, d);
    NarrowSum(n, d, q1, p, p / d);
    DivUnique(n, d, p / d + 0x1_0000_0000 * q1);
  }

  lemma NarrowSum(n: nat, d: nat, q1: nat, p: nat, q0: nat)
    requires n == 0x1_0000_0000 * (q1 * d) + p && q0 * d <= p < q0 * d + d
    ensures (q0 + 0x1_0000_0000 * q1) * d <= n < (q0 + 0x1_0000_0000 * q1) * d + d
  {
    MulDist(q0, 0x1_0000_0000 * q1, d);
    MulAssoc(0x1_0000_0000, q1, d);
  }

  // What the wide branch divides by instead of d: its top 32 significant bits.
  function Normalized(d: Uint64): nat
    requires d >= 0x1_0000_0000
  {
    Wrap64(d * Pow2(Nlz(d / 0x1_0000_0000))) / 0x1_0000_0000
  }

  lemma NormalizedBounds(d: Uint64)
    requires d >= 0x1_0000_0000
    ensures Normalized(d) == d * Pow2(Nlz(d / 0x1_0000_0000)) / 0x1_0000_0000
    ensures 0x8000_0000 <= Normalized(d) < 0x1_0000_0000
  {
    var d1 := d / 0x1_0000_0000;
    var p := Pow2(Nlz(d1));
    NlzNormalizes(d1);
    TopBits(d1, Nlz(d1));
    ShiftedRange(d, d1, p);
    WrapSmall(d * p);
  }

  lemma ShiftedRange(d: nat, d1: nat, p: nat)
    requires d1 * 0x1_0000_0000 <= d < d1 * 0x1_0000_0000 + 0x1_0000_0000
    requires 0x8000_0000 <= d1 * p && d1 * p + p <= 0x1_0000_0000
    ensures 0x8000_0000_0000_0000 <= d * p < 0x1_0000_0000_0000_0000
  {
    MulMono(d1 * 0x1_0000_0000, d, p);
    MulMono(d + 1, (d1 + 1) * 0x1_0000_0000, p);
    MulAssoc(0x1_0000_0000, d1, p);
    MulAssoc(0x1_0000_0000, d1 + 1, p);
    MulDist(d1, 1, p);
    MulDist(d, 1, p);
  }

  lemma SmallerFactor(x: nat, k: nat, a: nat)
    requires x * a < k * a
    ensures x < k
  {
    if k <= x {
      MulMono(k, x, a);
    }
  }

  // A word shifted below 2^32 leaves room for all the bits shifted in.
  lemma TopBits(x: nat, s: nat)
    requires s <= 31 && x * Pow2(s) < 0x1_0000_0000
    ensures x * Pow2(s) + Pow2(s) <= 0x1_0000_0000
  {
    hide *;
    Pow2Values();
    Pow2Add(s, 32 - s);
    NextMultiple(x, Pow2(32 - s), Pow2(s));
  }

  lemma NextMultiple(x: nat, k: nat, b: nat)
    requires b * k == 0x1_0000_0000 && x * b < b * k
    ensures x * b + b <= 0x1_0000_0000
  {
    hide *;
    SmallerFactor(x, k, b);
    MulMono(x + 1, k, b);
    MulDist(x, 1, b);
  }

  // The wide branch never makes divl trap.
  lemma WideFits(n: Uint64, d: Uint64)
    requires 0x1_0000_0000 <= d
    ensures 0 < Normalized(d) < 0x1_0000_0000
    ensures (n / 2) / Normalized(d) < 0x1_0000_0000
  {
    hide Normalized;
    NormalizedBounds(d);
    DivBelow(n / 2, Normalized(d), 0x1_0000_0000);
  }

  // The quotient estimate of the wide branch before its last correction.
  function Estimate(n: Uint64, d: Uint64): nat
    requires 0x1_0000_0000 <= d
  {
    hide Normalized, Pow2, Nlz;
    WideFits(n, d);
    NlzNormalizes(d / 0x1_0000_0000);
    Divl(n / 2, Normalized(d)) / Pow2(31 - Nlz(d / 0x1_0000_0000))
  }

  // Normalized(d) is d without its low 32 - s bits.
  lemma NormalizedIsHigh(d: Uint64, s: nat)
    requires 0x1_0000_0000 <= d && s == Nlz(d / 0x1_0000_0000) <= 31
    ensures Normalized(d) == d / Pow2(32 - s)
  {
    hide Pow2, Normalized, Nlz;
    var c, p := Pow2(32 - s), Pow2(s);
    Pow2Values();
    Pow2Add(s, 32 - s);
    NormalizedBounds(d);
    DivMod(d, c);
    HighBits(d, c, p, d / c);
    DivUnique(d * p, 0x1_0000_0000, d / c);
  }

  lemma HighBits(d: nat, c: nat, p: nat, t: nat)
    requires t * c <= d < t * c + c && p > 0
    ensures t * (c * p) <= d * p < t * (c * p) + c * p
  {
    MulMono(t * c, d, p);
    MulMono(d + 1, t * c + c, p);
    MulAssoc(t, c, p);
    MulDist(d, 1, p);
    MulDist(t * c, c, p);
  }

  // The estimate is the quotient by d with its low 32 - s bits cleared.
  lemma EstimateIsQuotient(n: Uint64, d: Uint64) returns (s: nat, low: nat)
    requires 0x1_0000_0000 <= d
    ensures s <= 31 && low < Pow2(32 - s) && low < d
    ensures d - low >= Pow2(63 - s)
    ensures Estimate(n, d) == n / (d - low)
  {
    hide Pow2, Normalized;
    s := Nlz(d / 0x1_0000_0000);
    NlzNormalizes(d / 0x1_0000_0000);
    NormalizedBounds(d);
    NormalizedIsHigh(d, s);
    var c := Pow2(32 - s);
    DivMod(d, c);
    low := d % c;
    Pow2Values();
    Pow2Add(31, 32 - s);
    MulMono(0x8000_0000, Normalized(d), c);
    EstimateFlattened(n, d);
  }

  lemma EstimateFlattened(n: Uint64, d: Uint64)
    requires 0x1_0000_0000 <= d && Nlz(d / 0x1_0000_0000) <= 31 && Normalized(d) > 0
    ensures Normalized(d) * Pow2(32 - Nlz(d / 0x1_0000_0000)) > 0
    ensures Estimate(n, d) == n / (Normalized(d) * Pow2(32 - Nlz(d / 0x1_0000_0000)))
  {
    hide Normalized;
    Flatten(n, Normalized(d), 31 - Nlz(d / 0x1_0000_0000));
  }

  lemma Flatten(n: nat, v: nat, k: nat)
    requires v > 0
    ensures v * Pow2(k + 1) > 0 && ((n / 2) / v) / Pow2(k) == n / (v * Pow2(k + 1))
  {
    DivDiv(n, 2, v);
    DivDiv(n, 2 * v, Pow2(k));
    MulAssoc(v, 2, Pow2(k));
  }

  // Main bound of the wide branch: the estimate is the quotient or one more.
  lemma EstimateBound(n: Uint64, d: Uint64)
    requires 0x1_0000_0000 <= d
    ensures n / d <= Estimate(n, d) <= n / d + 1
  {
    hide Pow2, Estimate;
    var s, low := EstimateIsQuotient(n, d);
    var e, q, t := d - low, Estimate(n, d), n / d;
    DivMod(n, e);
    DivMod(n, d);
    EstimateAtLeast(n, d, low, q, t);
    if t + 1 < q {
      EstimateError(n, d, s, low, q);
      EstimateAtMost(n, d, low, q, t);
    }
  }

  lemma EstimateAtLeast(n: nat, d: nat, low: nat, q: nat, t: nat)
    requires low < d && t * d <= n < q * (d - low) + (d - low)
    ensures t <= q
  {
    var e := d - low;
    if q < t {
      MulMono(q + 1, t, e);
      MulMono(e, d, t);
      MulDist(q, 1, e);
      assert false;
    }
  }

  lemma EstimateAtMost(n: nat, d: nat, low: nat, q: nat, t: nat)
    requires low < d && q >= 1 && (q - 1) * low <= d - low
    requires q * (d - low) <= n < t * d + d
    ensures q <= t + 1
  {
    var e := d - low;
    MulDist(q, 1, e);
    MulDist(e, low, q - 1);
    if t + 1 < q {
      MulMono(t + 1, q - 1, d);
      MulDist(t, 1, d);
      assert false;
    }
  }

  // The accumulated error of the estimate stays below one divisor.
  lemma EstimateError(n: Uint64, d: Uint64, s: nat, low: nat, q: nat)
    requires s <= 31 && low < Pow2(32 - s) && low < d && d - low >= Pow2(63 - s)
    requires q >= 1 && q * (d - low) <= n
    ensures (q - 1) * low <= d - low
  {
    hide Pow2;
    Pow2Values();
    Pow2Add(s + 1, 63 - s);
    var e, k := d - low, Pow2(s + 1);
    if k <= q {
      MulMono(k, q, e);
      MulMono(Pow2(63 - s), e, k);
      assert false;
    }
    if s == 31 {
      MulMono(low, 1, q - 1);
    } else {
      ErrorProduct(s, low, q);
      Pow2Monotone(33, 63 - s);
    }
  }

  lemma ErrorProduct(s: nat, low: nat, q: nat)
    requires s <= 30 && low < Pow2(32 - s) && 1 <= q < Pow2(s + 1)
    ensures (q - 1) * low <= Pow2(33)
  {
    hide Pow2;
    Pow2Add(s + 1, 32 - s);
    MulMono(q - 1, Pow2(s + 1), low);
    MulMono(low, Pow2(32 - s), Pow2(s + 1));
  }

  // udiv64, with the C expression's modulo-2^64 arithmetic.
  function Udiv64(n: Uint64, d: Uint64): Uint64
    requires d != 0
  {
    if d / 0x1_0000_0000 == 0 then
      NarrowPartial(n, d);
      var n1, n0, d0 := n / 0x1_0000_0000, n % 0x1_0000_0000, d;
      Wrap64(Divl(0x1_0000_0000 * (n1 % d0) + n0, d0) + 0x1_0000_0000 * (n1 / d0))
    else if n < d then
      0
    else
      var q := Estimate(n, d);
      WideCorrection(n, d);
      if WideRemainder(n, d, q) < d then q - 1 else q
  }

  // n - (q - 1) * d in 64-bit arithmetic.
  function WideRemainder(n: Uint64, d: Uint64, q: Uint64): Uint64
    requires q > 0
  {
    Wrap64(n - Wrap64((q - 1) * d))
  }

  lemma WideCorrection(n: Uint64, d: Uint64)
    requires 0x1_0000_0000 <= d <= n
    ensures var q := Estimate(n, d);
      && 0 < q < 0x1_0000_0000_0000_0000
      && (if WideRemainder(n, d, q) < d then q - 1 else q) == n / d
  {
    hide Estimate, Wrap64;
    var q, t := Estimate(n, d), n / d;
    EstimateBound(n, d);
    DivMod(n, d);
    DivBelow(n, d, 0x1_0000_0000);
    if t == 0 {
      assert false;
    }
    MulMono(q - 1, t, d);
    MulMono(0, q - 1, d);
    MulDist(q, -1, d);
    WrapSmall((q - 1) * d);
    WrapSmall(n - (q - 1) * d);
  }

  lemma NarrowCase(n: Uint64, d: Uint32)
    requires d != 0
    ensures Udiv64(n, d) == n / d
  {
    hide *;
    NarrowPartial(n, d);
    HighZero(d);
    NarrowUnfold(n, d);
    WrapSmall(n / d);
  }

  lemma HighZero(d: Uint32)
    ensures d / 0x1_0000_0000 == 0
  {}

  // The narrow branch of udiv64, whose divl does not trap.
  lemma NarrowUnfold(n: Uint64, d: Uint32)
    requires d != 0 && d / 0x1_0000_0000 == 0
    requires var p := 0x1_0000_0000 * ((n / 0x1_0000_0000) % d) + n % 0x1_0000_0000;
      && p < 0x1_0000_0000_0000_0000 && p / d < 0x1_0000_0000
      && p / d + 0x1_0000_0000 * ((n / 0x1_0000_0000) / d) == n / d < 0x1_0000_0000_0000_0000
    ensures Udiv64(n, d) == Wrap64(n / d)
  {
    hide Wrap64, Estimate, WideRemainder;
  }

  // Main theorem of udiv64: every quotient is exact.
  lemma Udiv64IsFloor(n: Uint64, d: Uint64)
    requires d != 0
    ensures Udiv64(n, d) == n / d
  {
    hide Estimate, WideRemainder, Wrap64, Divl;
    if d / 0x1_0000_0000 == 0 {
      NarrowCase(n, d);
    } else if n < d {
      DivUnique(n, d, 0);
    } else {
      WideCorrection(n, d);
    }
  }

  function Umod64(n: Uint64, d: Uint64): Uint32
    requires d != 0
  {
    Wrap32(Wrap64(n - Wrap64(d * Udiv64(n, d))))
  }

  // umod64 returns 32 bits: it is the remainder exactly when that fits.
  lemma Umod64IsRemainderIff(n: Uint64, d: Uint64)
    requires d != 0
    ensures Umod64(n, d) == n % d <==> n % d < 0x1_0000_0000
  {
    hide Udiv64, Wrap64, Wrap32;
    Udiv64IsFloor(n, d);
    DivMod(n, d);
    WrapSmall((n / d) * d);
    WrapSmall(n % d);
  }

  /* Signed division */

  function Abs(x: int): nat { if x >= 0 then x else -x }

  // Section 6.5.5 of ISO C99: the quotient truncated toward zero.
  function TruncDiv(n: int, d: int): int
    requires d != 0
  {
    if (n < 0) == (d < 0) then Abs(n) / Abs(d) else -(Abs(n) / Abs(d))
  }

  // The magnitude as the C code computes it, negating in uint64_t.
  function Magnitude(x: Int64): (a: Uint64)
    ensures a == Abs(x)
  {
    if x >= 0 then x else Wrap64(0 - Wrap64(x))
  }

  function Sdiv64(n: Int64, d: Int64): Int64
    requires d != 0
  {
    hide Udiv64;
    var q := Udiv64(Magnitude(n), Magnitude(d));
    if (n < 0) == (d < 0) then ToInt64(q) else ToInt64(-(ToInt64(q) as int))
  }

  // The one 64-bit pair whose true quotient is not a 64-bit number.
  lemma Sdiv64IsTruncatedIff(n: Int64, d: Int64)
    requires d != 0
    ensures Sdiv64(n, d) == TruncDiv(n, d) <==> !(n == -0x8000_0000_0000_0000 && d == -1)
  {
    hide Udiv64, ToInt64;
    Udiv64IsFloor(Magnitude(n), Magnitude(d));
    var q := Abs(n) / Abs(d);
    QuotientSize(Abs(n), Abs(d));
    SignedWrap(q);
  }

  lemma SignedWrap(q: nat)
    requires q <= 0x8000_0000_0000_0000
    ensures ToInt64(q) == q <==> q < 0x8000_0000_0000_0000
    ensures ToInt64(-(ToInt64(q) as int)) == -(q as int)
  {}

  lemma QuotientSize(a: nat, b: nat)
    requires 0 < b
    ensures a / b <= a && (b >= 2 ==> 2 * (a / b) <= a) && (b == 1 ==> a / b == a)
  {
    DivMod(a, b);
    MulMono(1, b, a / b);
    if b >= 2 {
      MulMono(2, b, a / b);
    }
  }

  lemma Sdiv64OverflowWitness()
    ensures Sdiv64(-0x8000_0000_0000_0000, -1) == -0x8000_0000_0000_0000
  {
    hide Udiv64;
    Udiv64IsFloor(0x8000_0000_0000_0000, 1);
  }

  function Smod64(n: Int64, d: Int64): Int32
    requires d != 0
  {
    ToInt32(ToInt64(n - ToInt64(d * Sdiv64(n, d))))
  }

  lemma IntoInt64(x: int)
    ensures ToInt64(x) == x <==> -0x8000_0000_0000_0000 <= x < 0x8000_0000_0000_0000
    ensures ToInt32(x) == x <==> -0x8000_0000 <= x < 0x8000_0000
  {}

  // d * (n / d) lies between zero and n.
  // The product has the sign of n, and the magnitude of the quotient of the magnitudes times d's.
  lemma SignedProduct(n: int, d: int, q: nat)
    requires d != 0 && q == Abs(n) / Abs(d)
    ensures TruncDiv(n, d) * d == if n < 0 then -(q * Abs(d)) else q * Abs(d)
  {
    MulDist(0, q, d);
    MulDist(0, q, Abs(d));
    MulDist(0, d, q);
  }

  lemma TruncatedProduct(n: int, d: int)
    requires d != 0
    ensures var p := TruncDiv(n, d) * d;
      && Abs(n - p) == Abs(n) % Abs(d)
      && (if n < 0 then n <= p <= 0 else 0 <= p <= n)
  {
    hide TruncDiv, Abs;
    var a, b := Abs(n), Abs(d);
    assert b > 0 by {
      NonZero(d);
    }
    DivMod(a, b);
    MulMono(0, a / b, b);
    SignedProduct(n, d, a / b);
    Remaining(n, TruncDiv(n, d) * d, (a / b) * b, a % b);
  }

  lemma NonZero(d: int)
    requires d != 0
    ensures Abs(d) > 0
  {}

  lemma Remaining(n: int, p: int, product: int, rem: nat)
    requires product >= 0 && Abs(n) == product + rem && p == if n < 0 then -product else product
    ensures Abs(n - p) == rem && (if n < 0 then n <= p <= 0 else 0 <= p <= n)
  {}

  // smod64 returns 32 bits: it is the C remainder n - d * (n / d) exactly when that fits.
  lemma Smod64IsRemainderIff(n: Int64, d: Int64)
    requires d != 0
    ensures var r := n - TruncDiv(n, d) * d;
      Smod64(n, d) == r <==> -0x8000_0000 <= r < 0x8000_0000
  {
    hide Sdiv64, ToInt64, ToInt32, TruncDiv;
    var p := TruncDiv(n, d) * d;
    Sdiv64IsTruncatedIff(n, d);
    TruncatedProduct(n, d);
    IntoInt64(p);
    IntoInt64(n - p);
    if n == -0x8000_0000_0000_0000 && d == -1 {
      OverflowRemainder();
    }
  }

  // The wrong quotient of INT64_MIN / -1 still gives the right remainder.
  lemma OverflowRemainder()
    ensures Smod64(-0x8000_0000_0000_0000, -1) == 0
    ensures TruncDiv(-0x8000_0000_0000_0000, -1) * -1 == -0x8000_0000_0000_0000
  {
    Sdiv64OverflowWitness();
  }

}
