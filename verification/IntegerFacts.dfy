/** Facts about products and quotients, one product at a time. */
module IntegerFacts {
  lemma MulMono(x: int, y: int, a: nat)
    requires x <= y
    ensures x * a <= y * a
  {
    assert (y - x) * a >= 0;
  }

  lemma MulAssoc(x: int, y: int, z: int)
    ensures x * (y * z) == (x * y) * z
    ensures x * (y * z) == (x * z) * y
  {}

  lemma MulDist(x: int, y: int, z: int)
    ensures (x + y) * z == x * z + y * z
    ensures (x - y) * z == x * z - y * z
  {}

  lemma DivMod(n: nat, d: nat)
    requires d > 0
    ensures n == (n / d) * d + n % d && 0 <= n % d < d
    ensures (n / d) * d <= n < (n / d) * d + d
  {}

  lemma DivUnique(n: nat, d: nat, q: nat)
    requires d > 0 && q * d <= n < q * d + d
    ensures q == n / d
  {
    var t := n / d;
    DivMod(n, d);
    if q < t {
      MulMono(q + 1, t, d);
      MulDist(q, 1, d);
      assert false;
    } else if t < q {
      MulMono(t + 1, q, d);
      MulDist(t, 1, d);
      assert false;
    }
  }

  lemma DivBelow(n: nat, d: nat, k: nat)
    requires d > 0 && n < k * d
    ensures n / d < k
  {
    DivMod(n, d);
    if k <= n / d {
      MulMono(k, n / d, d);
      assert false;
    }
  }

  // floor(floor(n/a)/b) == floor(n/(a*b))
  lemma DivDiv(n: nat, a: nat, b: nat)
    requires a > 0 && b > 0
    ensures a * b > 0 && (n / a) / b == n / (a * b)
  {
    MulMono(1, a, b);
    DivMod(n, a);
    DivMod(n / a, b);
    DivChain(n, a, b, n / a, (n / a) / b);
    DivUnique(n, a * b, (n / a) / b);
  }

  lemma DivChain(n: nat, a: nat, b: nat, x: nat, q: nat)
    requires x * a <= n < x * a + a
    requires q * b <= x < q * b + b
    ensures q * (a * b) <= n < q * (a * b) + a * b
  {
    MulMono(q * b, x, a);
    MulMono(x + 1, q * b + b, a);
    MulAssoc(q, a, b);
    MulDist(x, 1, a);
    MulDist(q * b, b, a);
  }
}
