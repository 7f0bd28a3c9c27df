/** Facts about powers, division and remainder on natural numbers that the
    word-level and limb-level proofs of the bignum engine are built on. */
module Numbers {

  /** b raised to the n-th power. */
  function Pow(b: nat, n: nat): nat
  {
    if n == 0 then 1 else b * Pow(b, n - 1)
  }

  lemma {:induction false} PowPositive(b: nat, n: nat)
    requires b > 0
    ensures Pow(b, n) > 0
  {
    if n > 0 {
      PowPositive(b, n - 1);
    }
  }

  lemma {:induction false} PowAdd(b: nat, m: nat, n: nat)
    ensures Pow(b, m + n) == Pow(b, m) * Pow(b, n)
  {
    if m > 0 {
      PowAdd(b, m - 1, n);
      assert Pow(b, m + n) == b * Pow(b, m - 1 + n);
      MulAssoc(b, Pow(b, m - 1), Pow(b, n));
    }
  }

  lemma {:induction false} PowMul(b: nat, m: nat, n: nat)
    ensures Pow(b, m * n) == Pow(Pow(b, m), n)
  {
    if n > 0 {
      PowMul(b, m, n - 1);
      assert m * n == m + m * (n - 1);
      PowAdd(b, m, m * (n - 1));
    }
  }

  lemma {:induction false} PowMonotone(b: nat, m: nat, n: nat)
    requires b > 0 && m <= n
    ensures Pow(b, m) <= Pow(b, n)
  {
    PowPositive(b, n - m);
    PowAdd(b, m, n - m);
    PowPositive(b, m);
    MulLeftMonotone(Pow(b, m), 1, Pow(b, n - m));
  }

  lemma {:induction false} PowStrict(b: nat, m: nat, n: nat)
    requires b > 1 && m < n
    ensures Pow(b, m) < Pow(b, n)
  {
    PowMonotone(b, m, n - 1);
    PowPositive(b, n - 1);
  }

  /** Products of naturals are natural (a nonlinear fact the solver does
      not always find by itself). */
  lemma MulNonneg(a: nat, b: nat)
    ensures a * b >= 0
  {
  }

  lemma MulAssoc(a: int, b: int, c: int)
    ensures a * (b * c) == (a * b) * c
  {
  }

  lemma MulLeftMonotone(a: nat, x: nat, y: nat)
    requires x <= y
    ensures a * x <= a * y
  {
  }

  lemma MulStrict(a: nat, x: nat, y: nat)
    requires a > 0 && x < y
    ensures a * x < a * y
  {
  }

  lemma MulSmall(k: int, d: int)
    requires d > 0 && -d < k * d < d
    ensures k == 0
  {
  }

  /** A positive factor cancels from a strict inequality. */
  lemma MulCancel(a: int, b: int, c: int)
    requires c > 0 && a * c < b * c
    ensures a < b
  {
  }

  /** Quotient and remainder are determined by the division identity. */
  lemma DivModUnique(x: int, d: int, q: int, r: int)
    requires d > 0 && 0 <= r < d && x == q * d + r
    ensures x / d == q && x % d == r
  {
    MulSmall(q - x / d, d);
  }

  /** A number split at d into a low part and a high part: the quotient is
      the high part. */
  lemma DivSplit(x: int, lo: int, d: int, hi: int)
    requires d > 0 && 0 <= lo < d && x == lo + d * hi
    ensures x / d == hi
  {
    DivModUnique(x, d, hi, lo);
  }

  lemma DivMulAdd(a: int, d: int, b: int)
    requires d > 0 && a >= 0 && 0 <= b
    ensures (a * d + b) / d == a + b / d
    ensures (a * d + b) % d == b % d
  {
    DivModUnique(a * d + b, d, a + b / d, b % d);
  }

  lemma DivDiv(x: nat, a: nat, b: nat)
    requires a > 0 && b > 0
    ensures x / (a * b) == (x / a) / b
    ensures x % (a * b) == x % a + a * ((x / a) % b)
  {
    var q := (x / a) / b;
    var r := x % a + a * ((x / a) % b);
    assert x == a * (x / a) + x % a;
    assert x / a == b * q + (x / a) % b;
    assert x == (a * b) * q + r;
    assert r <= (a - 1) + a * (b - 1);
    DivModUnique(x, a * b, q, r);
  }

  lemma ModOfMultiple(k: nat, a: nat, b: nat)
    requires a > 0 && b > 0
    ensures (k * (a * b)) % a == 0
  {
    DivModUnique(k * (a * b), a, k * b, 0);
  }

  lemma DivBound(x: nat, d: nat, n: nat)
    requires d > 0 && x < d * n
    ensures x / d < n
  {
  }

  lemma MulBound(a: nat, b: nat, m: nat, n: nat)
    requires a < m && b < n
    ensures a * b <= (m - 1) * (n - 1)
  {
    MulLeftMonotone(a, b, n - 1);
    MulLeftMonotone(n - 1, a, m - 1);
  }
}
