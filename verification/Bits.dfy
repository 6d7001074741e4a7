/** Bitwise AND on unsigned numbers, and what the bit tricks of the hash table compute with it. */
module Bits {
  import A = IntegerFacts

  function And(a: nat, b: nat): nat
  {
    if a == 0 || b == 0 then 0
    else 2 * And(a / 2, b / 2) + (if a % 2 == 1 && b % 2 == 1 then 1 else 0)
  }

  predicate PowerOf2(n: nat)
  {
    n == 1 || (n > 1 && n % 2 == 0 && PowerOf2(n / 2))
  }

  // x & (x - 1)
  function TurnOffLeast1Bit(x: nat): nat
    requires x > 0
  {
    And(x, x - 1)
  }

  predicate IsPowerOf2(x: nat)
  {
    x != 0 && TurnOffLeast1Bit(x) == 0
  }

  lemma {:induction false} AndSelf(a: nat)
    ensures And(a, a) == a
  {
    if a > 0 {
      AndSelf(a / 2);
    }
  }

  // Masking with n - 1 is the remainder by n, for a power of two n.
  lemma {:induction false} MaskIsRemainder(h: nat, n: nat)
    requires PowerOf2(n)
    ensures And(h, n - 1) == h % n
  {
    if h == 0 {
      A.DivMod(0, n);
      A.DivUnique(0, n, 0);
    } else if n > 1 {
      var m := n / 2;
      MaskIsRemainder(h / 2, m);
      AndHalf(h, n - 1, m - 1);
      HalfRemainder(h, m);
    }
  }

  lemma AndHalf(a: nat, b: nat, c: nat)
    requires a > 0 && b == 2 * c + 1
    ensures And(a, b) == 2 * And(a / 2, c) + a % 2
  {}

  lemma HalfRemainder(h: nat, m: nat)
    requires m > 0
    ensures h % (2 * m) == 2 * (h / 2 % m) + h % 2
  {
    var k := h / 2;
    A.DivMod(k, m);
    var q, r := k / m, k % m;
    assert h == q * (2 * m) + 2 * r + h % 2 by {
      A.MulAssoc(q, 2, m);
    }
    A.DivUnique(h, 2 * m, q);
    A.DivMod(h, 2 * m);
  }

  // Turning off the lowest 1 bit makes a number smaller, but never crosses a power of two
  // unless the number is one.
  lemma {:induction false} TurnOffFacts(x: nat)
    requires x > 0
    ensures TurnOffLeast1Bit(x) < x
    ensures TurnOffLeast1Bit(x) == 0 <==> PowerOf2(x)
  {
    if x % 2 == 1 {
      assert (x - 1) / 2 == x / 2;
      AndSelf(x / 2);
    } else {
      assert (x - 1) / 2 == x / 2 - 1;
      TurnOffFacts(x / 2);
    }
  }

  lemma {:induction false} TurnOffKeepsTopBit(x: nat, p: nat)
    requires PowerOf2(p) && p < x < 2 * p
    ensures TurnOffLeast1Bit(x) >= p
  {
    if x % 2 == 1 {
      assert (x - 1) / 2 == x / 2;
      AndSelf(x / 2);
    } else {
      assert (x - 1) / 2 == x / 2 - 1;
      TurnOffKeepsTopBit(x / 2, p / 2);
    }
  }

  // The largest power of two that is at most n.
  function TopBit(n: nat): (p: nat)
    requires n > 0
    ensures PowerOf2(p) && p <= n < 2 * p
  {
    if n == 1 then 1 else 2 * TopBit(n / 2)
  }

  lemma {:induction false} TopBitUnique(n: nat, p: nat)
    requires PowerOf2(p) && p <= n < 2 * p
    ensures p == TopBit(n)
  {
    if n > 1 {
      TopBitUnique(n / 2, p / 2);
    }
  }
}
