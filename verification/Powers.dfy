// Powers of two, and the products and quotients the 64-bit arithmetic needs.
module Powers {
  import opened Common

  function Pow2(n: nat): (p: nat)
    ensures p > 0
  {
    PowerPositive(2, n);
    Power(2, n)
  }

  lemma {:induction false} PowerPositive(base: nat, k: nat)
    requires base > 0
    ensures Power(base, k) > 0
  {
    if k > 0 { PowerPositive(base, k - 1); }
  }

  lemma {:induction false} Pow2Sum(m: nat, n: nat)
    ensures Pow2(m + n) == Pow2(m) * Pow2(n)
  {
    if m > 0 {
      Pow2Sum(m - 1, n);
      assert 2 * (Pow2(m - 1) * Pow2(n)) == (2 * Pow2(m - 1)) * Pow2(n);
    }
  }

  lemma {:induction false} Pow2Monotone(m: nat, n: nat)
    requires m <= n
    ensures Pow2(m) <= Pow2(n)
    decreases n
  {
    if m < n { Pow2Monotone(m, n - 1); }
  }

  lemma MulMonotone(a: nat, b: nat, c: nat)
    requires a <= b
    ensures a * c <= b * c
  {
  }

  /** The quotient is determined by its defining property. */
  lemma QuotientUnique(n: nat, d: nat, q: nat, r: nat)
    requires d > 0 && n == q * d + r && r < d
    ensures n / d == q && n % d == r
  {
    if n / d < q {
      MulMonotone(n / d + 1, q, d);
    } else if n / d > q {
      MulMonotone(q + 1, n / d, d);
    }
  }

  lemma QuotientBound(n: nat, d: nat, x: nat)
    requires d > 0 && n < x * d
    ensures n / d < x
  {
    if n / d >= x { MulMonotone(x, n / d, d); }
  }

  lemma CancelLess(a: nat, b: nat, c: nat)
    requires a * c < b * c
    ensures a < b
  {
    if a >= b { MulMonotone(b, a, c); }
  }

  lemma CancelAtMost(a: nat, b: nat, c: nat)
    requires c > 0 && a * c <= b * c
    ensures a <= b
  {
    if a > b { MulMonotone(b + 1, a, c); }
  }

  lemma QuotientPositive(n: nat, d: nat)
    requires 0 < d <= n
    ensures n / d >= 1
  {
  }

  lemma QuotientZero(n: nat, d: nat)
    requires d > 0
    ensures n / d == 0 <==> n < d
  {
    if n < d { QuotientUnique(n, d, 0, n); } else { QuotientPositive(n, d); }
  }

  lemma Pow2Values()
    ensures Pow2(0) == 1 && Pow2(4) == 16 && Pow2(8) == 0x100 && Pow2(16) == 0x1_0000 && Pow2(32) == WORD32
    ensures Pow2(62) == 0x4000_0000_0000_0000 && Pow2(63) == 0x8000_0000_0000_0000
    ensures Pow2(64) == WORD64
  {
    assert Pow2(4) == 16;
    Pow2Sum(4, 4);
    Pow2Sum(8, 8);
    Pow2Sum(16, 16);
    Pow2Sum(32, 32);
    assert Pow2(64) == 2 * Pow2(63) && Pow2(63) == 2 * Pow2(62);
  }

  lemma Division(n: nat, d: nat)
    requires d > 0
    ensures n == n / d * d + n % d && n % d < d
  {
  }

  lemma QuotientAtMost(n: nat, d: nat)
    requires d > 0
    ensures n / d <= n
    ensures d >= 2 ==> 2 * (n / d) <= n
    ensures d == 1 ==> n / d == n
  {
    Division(n, d);
    MulMonotone(1, d, n / d);
    if d >= 2 { MulMonotone(2, d, n / d); }
  }

  // The same for dividends that may be negative; quotients are rounded down.

  lemma MulMonotoneInt(a: int, b: int, c: nat)
    requires a <= b
    ensures a * c <= b * c
  {
  }

  lemma DivisionInt(n: int, d: nat)
    requires d > 0
    ensures n == n / d * d + n % d && 0 <= n % d < d
  {
  }

  lemma QuotientUniqueInt(n: int, d: nat, q: int, r: nat)
    requires d > 0 && n == q * d + r && r < d
    ensures n / d == q && n % d == r
  {
    DivisionInt(n, d);
    if n / d < q {
      MulMonotoneInt(n / d + 1, q, d);
    } else if n / d > q {
      MulMonotoneInt(q + 1, n / d, d);
    }
  }

  /** Dividing twice is dividing by the product. */
  lemma DivideTwice(n: nat, a: nat, b: nat)
    requires a > 0 && b > 0
    ensures a * b > 0 && n / a / b == n / (a * b)
  {
    var q, r := n / a, n % a;
    Division(n, a);
    Division(q, b);
    RegroupQuotient(n, a, b, q, r, q / b, q % b);
    QuotientUnique(n, a * b, q / b, q % b * a + r);
  }

  lemma RegroupQuotient(n: nat, a: nat, b: nat, q: nat, r: nat, c: nat, d: nat)
    requires a > 0 && b > 0 && n == q * a + r && r < a && q == c * b + d && d < b
    ensures a * b > 0 && n == c * (a * b) + (d * a + r) && d * a + r < a * b
  {
    assert q * a == c * (a * b) + d * a;
    MulMonotone(d + 1, b, a);
    assert (d + 1) * a == d * a + a;
  }
}
