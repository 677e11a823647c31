// Signed division, trailing zeros and the shifts assembled from 32-bit halves
// (src/mock_libc/arith.c).
module SignedArith {
  import opened Common
  import opened Powers
  import opened Arith

  /** Negate a word if asked to, by inverting and incrementing. */
  function Neg(a: u64, negative: bool): (r: u64)
    ensures r == if negative then Wrap(0 - a) else a
  {
    WrapsAround(a);
    Wrap((if negative then WORD64 - 1 - a else a) + (if negative then 1 else 0))
  }

  lemma WrapsAround(a: u64)
    ensures Wrap(a) == a && Wrap(WORD64 - a) == Wrap(0 - a)
  {
    if a > 0 {
      QuotientUniqueInt(0 - a, WORD64, -1, WORD64 - a);
      QuotientUniqueInt(WORD64 - a, WORD64, 0, WORD64 - a);
    }
  }

  /** __absvdi2, as an unsigned word; the magnitude of the smallest number fits that. */
  function Abs(a: s64): (r: u64)
    ensures r == Magnitude(a)
  {
    Neg(Wrap(a), a < 0)
  }

  /** Division rounding towards zero, and the remainder that goes with it. */
  function TruncQuotient(a: int, b: int): int
    requires b != 0
  {
    var q := Magnitude(a) / Magnitude(b);
    if (a < 0) == (b < 0) then q else -q
  }

  function TruncRemainder(a: int, b: int): (r: int)
    requires b != 0
  {
    var r := Magnitude(a) % Magnitude(b);
    if a < 0 then -r else r
  }

  /** The remainder takes the dividend's sign and is smaller than the divisor. */
  lemma TruncDivision(a: int, b: int)
    requires b != 0
    ensures a == TruncQuotient(a, b) * b + TruncRemainder(a, b)
    ensures (TruncRemainder(a, b) == 0 || (TruncRemainder(a, b) < 0 <==> a < 0))
    ensures Magnitude(TruncRemainder(a, b)) < Magnitude(b)
  {
    Division(Magnitude(a), Magnitude(b));
    Reassembled(a, b, Magnitude(a) / Magnitude(b), Magnitude(a) % Magnitude(b));
  }

  lemma Reassembled(a: int, b: int, q: int, r: int)
    requires b != 0 && Magnitude(a) == q * Magnitude(b) + r
    ensures a == (if (a < 0) == (b < 0) then q else -q) * b + (if a < 0 then -r else r)
  {
    SignsOut(q, Magnitude(b));
  }

  lemma SignsOut(q: int, d: int)
    ensures (-q) * d == -(q * d) && q * (-d) == -(q * d) && (-q) * (-d) == q * d
  {
  }

  const MIN: s64 := -HALF64

  lemma QuotientRange(a: s64, b: s64)
    requires b != 0
    ensures -HALF64 <= TruncQuotient(a, b) <= HALF64
    ensures TruncQuotient(a, b) == HALF64 <==> a == MIN && b == -1
  {
    var n, d := Magnitude(a), Magnitude(b);
    QuotientAtMost(n, d);
  }

  lemma NegatedQuotient(a: s64, b: s64, u: u64)
    requires b != 0 && u == Magnitude(a) / Magnitude(b)
    ensures Neg(u, (a < 0) != (b < 0)) == Wrap(TruncQuotient(a, b))
  {
  }

  lemma SignedWrap(n: int)
    requires -HALF64 <= n <= HALF64
    ensures -HALF64 <= Signed(Wrap(n)) < HALF64
    ensures Signed(Wrap(n)) == n <==> n != HALF64
  {
  }

  lemma SignedNeg(u: u64, negative: bool)
    requires u < HALF64
    ensures Signed(Neg(u, negative)) == if negative then 0 - u else u
  {
  }

  lemma RemainderFits(a: s64, b: s64)
    requires b != 0
    ensures Magnitude(a) % Magnitude(b) < HALF64
  {
    Division(Magnitude(a), Magnitude(b));
  }

  /** __udivdi3 and __umoddi3. */
  method Udivdi3(a: u64, b: u64) returns (q: u64)
    requires b != 0
    ensures q == a / b
  {
    var u, v := DivMod(a, b);
    q := u;
  }

  method Umoddi3(a: u64, b: u64) returns (r: u64)
    requires b != 0
    ensures r == a % b
  {
    var u, v := DivMod(a, b);
    r := v;
  }

  /** __divdi3. The result is the truncated quotient, wrapped; only the smallest number divided by
      -1 has a quotient that does not fit. */
  method Divdi3(a: s64, b: s64) returns (q: s64)
    requires b != 0
    ensures q == Signed(Wrap(TruncQuotient(a, b)))
    ensures q == TruncQuotient(a, b) <==> !(a == MIN && b == -1)
    ensures a == -0x8000_0000_0000_0000 && b == -1 ==> q == a
  {
    var u := Udivdi3(Abs(a), Abs(b));
    QuotientRange(a, b);
    NegatedQuotient(a, b, u);
    SignedWrap(TruncQuotient(a, b));
    hide TruncQuotient, Neg, Wrap, Signed;
    q := Signed(Neg(u, (a < 0) != (b < 0)));
  }

  /** __moddi3: the truncated remainder, for every pair of operands. */
  method Moddi3(a: s64, b: s64) returns (r: s64)
    requires b != 0
    ensures r == TruncRemainder(a, b)
  {
    var u := Umoddi3(Abs(a), Abs(b));
    RemainderFits(a, b);
    SignedNeg(u, a < 0);
    r := Signed(Neg(u, a < 0));
  }

  // ---------- trailing zeros ----------

  /** n is the number of trailing zero bits of a: a is an odd number times 2^n. */
  predicate TrailingZeros(a: u64, n: nat) {
    a == a / Pow2(n) * Pow2(n) && a / Pow2(n) % 2 == 1
  }

  lemma OddMultiple(a: u64, n: nat, odd: nat)
    requires a == Scaled(odd, n) && odd % 2 == 1
    ensures TrailingZeros(a, n)
  {
    ScaledIsProduct(odd, n);
    QuotientUnique(a, Pow2(n), odd, 0);
  }

  lemma TrailingZerosUnique(a: u64, m: nat, n: nat)
    requires TrailingZeros(a, m) && TrailingZeros(a, n)
    ensures m == n
  {
    if m < n {
      MoreZerosEven(a, m, n);
    } else if n < m {
      MoreZerosEven(a, n, m);
    }
  }

  lemma MoreZerosEven(a: u64, m: nat, n: nat)
    requires m < n && a == a / Pow2(n) * Pow2(n)
    ensures a / Pow2(m) % 2 == 0
  {
    Pow2Sum(n - m - 1, m + 1);
    var c, p := a / Pow2(n), Pow2(n - m - 1);
    EvenPart(a, c, p, Pow2(m), Pow2(n));
    QuotientUnique(a, Pow2(m), 2 * (c * p), 0);
  }

  lemma EvenPart(a: nat, c: nat, p: nat, h: nat, t: nat)
    requires a == c * t && t == p * (2 * h)
    ensures a == 2 * (c * p) * h
  {
    assert t == 2 * (p * h);
    assert c * t == 2 * (c * (p * h));
    assert c * (p * h) == c * p * h;
  }

  /** x times 2^n, by repeated doubling. */
  function Scaled(x: nat, n: nat): nat {
    if n == 0 then x else 2 * Scaled(x, n - 1)
  }

  lemma {:induction false} ScaledTwice(x: nat, m: nat, n: nat)
    ensures Scaled(Scaled(x, m), n) == Scaled(x, m + n)
  {
    if n > 0 { ScaledTwice(x, m, n - 1); }
  }

  lemma {:induction false} ScaledIsProduct(x: nat, n: nat)
    ensures Scaled(x, n) == x * Pow2(n)
  {
    if n == 0 {
      assert Pow2(0) == 1;
    } else {
      ScaledIsProduct(x, n - 1);
      assert x * (2 * Pow2(n - 1)) == 2 * (x * Pow2(n - 1));
    }
  }

  /** One step of the binary search from below: if the low k bits are clear, shift them out. `n`
      counts the zeros shifted out so far. */
  method NarrowLow(a: u64, n: nat, k: nat, ghost a0: u64) returns (r: u64, n': nat)
    requires 0 < k <= 32 && a % Pow2(2 * k) != 0 && a0 == Scaled(a, n)
    ensures n <= n' <= n + k && a0 == Scaled(r, n') && r % Pow2(k) != 0
  {
    if a % Pow2(k) == 0 {
      Division(a, Pow2(k));
      QuotientAtMost(a, Pow2(k));
      r, n' := a / Pow2(k), k + n;
      ScaledIsProduct(r, k);
      ScaledTwice(r, k, n);
      StillUneven(a, k);
    } else {
      r, n' := a, n;
    }
  }

  lemma StillUneven(a: u64, k: nat)
    requires a % Pow2(k) == 0 && a % Pow2(2 * k) != 0
    ensures a / Pow2(k) % Pow2(k) != 0
  {
    hide Pow2;
    Division(a, Pow2(k));
    Pow2Sum(k, k);
    if a / Pow2(k) % Pow2(k) == 0 {
      SquareMultiple(a, a / Pow2(k), Pow2(k));
    }
  }

  lemma SquareMultiple(a: nat, r: nat, p: nat)
    requires p > 0 && a == r * p && r % p == 0
    ensures a % (p * p) == 0
  {
    var c := r / p;
    assert r == c * p;
    assert c * p * p == c * (p * p);
    QuotientUnique(a, p * p, c, 0);
  }

  /** __ctzdi2: the number of trailing zeros of a non-zero word. */
  method Ctz(a: u64) returns (n: nat)
    requires a > 0
    ensures TrailingZeros(a, n) && n <= 63
  {
    Pow2Values();
    assert Pow2(2) == 4;
    hide Pow2;
    QuotientUnique(a, Pow2(64), 0, a);
    var r: u64 := a;
    r, n := NarrowLow(r, 0, 32, a);
    r, n := NarrowLow(r, n, 16, a);
    r, n := NarrowLow(r, n, 8, a);
    r, n := NarrowLow(r, n, 4, a);
    r, n := NarrowLow(r, n, 2, a);
    if r % 2 == 0 {
      ScaledTwice(r / 2, 1, n);
      r, n := r / 2, 1 + n;
    }
    OddMultiple(a, n, r);
  }

  /** __ffsdi2: one more than the index of the lowest bit set, or zero. */
  method Ffs(a: u64) returns (n: nat)
    ensures if a == 0 then n == 0 else n > 0 && TrailingZeros(a, n - 1)
  {
    if a == 0 {
      return 0;
    }
    n := Ctz(a);
    n := n + 1;
  }

  // ---------- shifts of two 32-bit halves ----------

  // The shifts look at the low six bits of the count only. The halves of a result are joined with
  // `|` where no bit is set on both sides, which is addition.

  /** The quotient of a number of two halves by a power of at least 2^32. */
  lemma HighQuotient(hi: int, lo: nat, p: nat, q: int, r: nat)
    requires hi == q * p + r && r < p && lo < WORD32
    ensures (hi * WORD32 + lo) / (WORD32 * p) == q
  {
    MulMonotone(r + 1, p, WORD32);
    assert q * p * WORD32 == q * (WORD32 * p);
    QuotientUniqueInt(hi * WORD32 + lo, WORD32 * p, q, r * WORD32 + lo);
  }

  /** The quotient by a power below 2^32: the bits leaving the high half enter the low one. */
  lemma LowQuotient(hi: int, lo: nat, P: nat, s: nat, h1: int, h0: nat, l1: nat, l0: nat)
    requires P > 0 && P * s == WORD32 && h0 < P && l0 < P && l1 < s
    requires hi == h1 * P + h0 && lo == l1 * P + l0
    ensures hi * s % WORD32 == h0 * s && h0 * s + l1 < WORD32
    ensures (hi * WORD32 + lo) / P == h1 * WORD32 + (h0 * s + l1)
  {
    var t := h0 * s;
    MulMonotone(h0 + 1, P, s);
    assert (h0 + 1) * s == t + s;
    assert (h1 * P + h0) * s == h1 * (P * s) + t;
    QuotientUniqueInt(hi * s, WORD32, h1, t);
    Carried(P, s, h1, h0, l1);
    QuotientUniqueInt(hi * WORD32 + lo, P, h1 * WORD32 + (t + l1), l0);
  }

  lemma Carried(P: nat, s: nat, h1: int, h0: nat, l1: nat)
    requires P * s == WORD32
    ensures (h1 * P + h0) * WORD32 + l1 * P == (h1 * WORD32 + (h0 * s + l1)) * P
  {
    assert h0 * s * P == h0 * WORD32;
    assert h1 * WORD32 * P == h1 * P * WORD32;
    assert (h1 * WORD32 + (h0 * s + l1)) * P == h1 * WORD32 * P + h0 * s * P + l1 * P;
  }

  /** Quotient and remainder of a half by a power below 2^32. */
  lemma HalfParts(x: int, P: nat, s: nat) returns (q: int, r: nat)
    requires P > 0 && P * s == WORD32
    ensures q == x / P && x == q * P + r && r < P && (0 <= x < WORD32 ==> 0 <= q < s)
  {
    DivisionInt(x, P);
    q, r := x / P, x % P;
    if 0 <= x < WORD32 { QuotientBound(x, P, s); }
  }

  lemma HighShift(hi: int, lo: nat, k: nat)
    requires 32 <= k && lo < WORD32
    ensures (hi * WORD32 + lo) / Pow2(k) == hi / Pow2(k - 32)
  {
    Pow2Values();
    var p := Pow2(k - 32);
    Pow2Sum(32, k - 32);
    DivisionInt(hi, p);
    HighQuotient(hi, lo, p, hi / p, hi % p);
  }

  lemma LowShift(hi: int, lo: nat, k: nat)
    requires 0 < k < 32 && lo < WORD32
    ensures hi * Pow2(32 - k) % WORD32 + lo / Pow2(k) < WORD32
    ensures (hi * WORD32 + lo) / Pow2(k) == hi / Pow2(k) * WORD32 + (hi * Pow2(32 - k) % WORD32 + lo / Pow2(k))
  {
    var P, s := Pow2(k), Pow2(32 - k);
    HalfComplement(k);
    var h1, h0 := HalfParts(hi, P, s);
    var l1, l0 := HalfParts(lo, P, s);
    LowQuotient(hi, lo, P, s, h1, h0, l1, l0);
  }

  /** The new halves of a logical right shift by 32 or more. */
  method LshrFar(lo: nat, hi: nat, k: nat) returns (lo': int, hi': int)
    requires 32 <= k && lo < WORD32 && hi < WORD32
    ensures hi' * WORD32 + lo' == Shr(hi * WORD32 + lo, k)
  {
    ShiftsArePowers(hi * WORD32 + lo, k);
    HighShift(hi, lo, k);
    lo', hi' := hi / Pow2(k - 32), 0;
  }

  /** The new halves of a logical right shift by less than 32. */
  method LshrNear(lo: nat, hi: nat, k: nat) returns (lo': int, hi': int)
    requires 0 < k < 32 && lo < WORD32 && hi < WORD32
    ensures lo' < WORD32 && hi' * WORD32 + lo' == Shr(hi * WORD32 + lo, k)
  {
    ShiftsArePowers(hi * WORD32 + lo, k);
    LowShift(hi, lo, k);
    lo', hi' := hi * Pow2(32 - k) % WORD32 + lo / Pow2(k), hi / Pow2(k);
  }

  /** __lshrdi3. */
  method Lshr(a: u64, b: int) returns (r: u64)
    ensures r == Shr(a, b % 64)
  {
    var k := b % 64;
    var lo, hi := a % WORD32, a / WORD32;
    if k >= 32 {
      lo, hi := LshrFar(lo, hi, k);
    } else if k > 0 {
      lo, hi := LshrNear(lo, hi, k);
    }
    r := hi * WORD32 + lo;
  }

  /** The new halves of an arithmetic right shift; the high half is a signed number. */
  method AshrFar(lo: nat, hi: int, k: nat) returns (lo': int, hi': int)
    requires 32 <= k < 64 && lo < WORD32 && -0x8000_0000 <= hi < 0x8000_0000
    ensures 0 <= lo' < WORD32 && hi' * WORD32 + lo' == (hi * WORD32 + lo) / Pow2(k)
  {
    HighShift(hi, lo, k);
    StaysSmall(hi, Pow2(k - 32));
    var shifted := hi / Pow2(k - 32);
    lo', hi' := shifted % WORD32, if hi < 0 then -1 else 0;
  }

  lemma StaysSmall(x: int, p: nat)
    requires p > 0 && -0x8000_0000 <= x < 0x8000_0000
    ensures if x < 0 then -0x8000_0000 <= x / p < 0 else 0 <= x / p < 0x8000_0000
  {
    if x < 0 {
      var y := -1 - x;
      Division(y, p);
      QuotientAtMost(y, p);
      Mirrored(x, y / p, p, y % p);
    } else {
      QuotientAtMost(x, p);
    }
  }

  /** Rounding down, x / p is -1 - (-1 - x) / p. */
  lemma Mirrored(x: int, q: int, p: nat, r: int)
    requires -1 - x == q * p + r && 0 <= r < p
    ensures x / p == -1 - q
  {
    assert (-1 - q) * p == 0 - p - q * p;
    QuotientUniqueInt(x, p, -1 - q, p - 1 - r);
  }

  method AshrNear(lo: nat, hi: int, k: nat) returns (lo': int, hi': int)
    requires 0 < k < 32 && lo < WORD32
    ensures lo' < WORD32 && hi' * WORD32 + lo' == (hi * WORD32 + lo) / Pow2(k)
  {
    LowShift(hi, lo, k);
    lo', hi' := hi * Pow2(32 - k) % WORD32 + lo / Pow2(k), hi / Pow2(k);
  }

  /** __ashrdi3: the quotient, rounded down, by a power of two. */
  method Ashr(a: s64, b: int) returns (r: int)
    ensures r == a / Pow2(b % 64)
  {
    var k := b % 64;
    var lo, hi := a % WORD32, a / WORD32;
    if k >= 32 {
      lo, hi := AshrFar(lo, hi, k);
    } else if k > 0 {
      lo, hi := AshrNear(lo, hi, k);
    } else {
      assert Pow2(0) == 1;
    }
    r := hi * WORD32 + lo;
  }

  /** A left shift by 32 or more, and one by less. */
  lemma LeftFar(hi: nat, lo: nat, p: nat)
    ensures lo * p % WORD32 * WORD32 == Wrap((hi * WORD32 + lo) * (WORD32 * p))
  {
    var y := lo * p;
    FarLeftParts(hi, lo, p, y / WORD32, y % WORD32);
    QuotientUnique((hi * WORD32 + lo) * (WORD32 * p), WORD64, hi * p + y / WORD32, y % WORD32 * WORD32);
  }

  lemma FarLeftParts(hi: nat, lo: nat, p: nat, c: nat, d: nat)
    requires lo * p == c * WORD32 + d
    ensures (hi * WORD32 + lo) * (WORD32 * p) == (hi * p + c) * WORD64 + d * WORD32
  {
    assert (hi * WORD32 + lo) * (WORD32 * p) == hi * p * WORD64 + lo * p * WORD32;
  }

  lemma LeftNear(hi: nat, lo: nat, P: nat, s: nat)
    requires P > 0 && s > 0 && s * P == WORD32 && lo < WORD32
    ensures lo / s + hi * P % WORD32 < WORD32
    ensures (lo / s + hi * P % WORD32) * WORD32 + lo * P % WORD32 == Wrap((hi * WORD32 + lo) * P)
  {
    var h1, h0 := HalfParts(hi, s, P);
    var l1, l0 := HalfParts(lo, s, P);
    NearLeftParts(hi, lo, P, s, h1, h0, l1, l0);
  }

  lemma HalfComplement(k: nat)
    requires k <= 32
    ensures Pow2(32 - k) * Pow2(k) == WORD32
  {
    Pow2Values();
    Pow2Sum(32 - k, k);
  }

  lemma NearLeftParts(hi: nat, lo: nat, P: nat, s: nat, h1: nat, h0: nat, l1: nat, l0: nat)
    requires P > 0 && s > 0 && s * P == WORD32 && h0 < s && l0 < s && l1 < P
    requires hi == h1 * s + h0 && lo == l1 * s + l0
    ensures l1 + hi * P % WORD32 < WORD32
    ensures (l1 + hi * P % WORD32) * WORD32 + lo * P % WORD32 == Wrap((hi * WORD32 + lo) * P)
  {
    LowQuotientProduct(hi, P, s, h1, h0);
    LowQuotientProduct(lo, P, s, l1, l0);
    var x, y := h0 * P, l0 * P;
    assert (hi * WORD32 + lo) * P == hi * P * WORD32 + lo * P;
    QuotientUnique((hi * WORD32 + lo) * P, WORD64, h1, (l1 + x) * WORD32 + y);
  }

  lemma LowQuotientProduct(hi: nat, P: nat, s: nat, h1: nat, h0: nat)
    requires P > 0 && s * P == WORD32 && h0 < s && hi == h1 * s + h0
    ensures hi * P == h1 * WORD32 + h0 * P && hi * P % WORD32 == h0 * P && h0 * P + P <= WORD32
  {
    MulMonotone(h0 + 1, s, P);
    assert (h0 + 1) * P == h0 * P + P;
    assert (h1 * s + h0) * P == h1 * (s * P) + h0 * P;
    QuotientUnique(hi * P, WORD32, h1, h0 * P);
  }

  method AshlFar(lo: nat, hi: nat, k: nat) returns (lo': int, hi': int)
    requires 32 <= k < 64 && lo < WORD32 && hi < WORD32
    ensures hi' * WORD32 + lo' == Shl(hi * WORD32 + lo, k)
  {
    ShiftsArePowers(hi * WORD32 + lo, k);
    Pow2Values();
    Pow2Sum(32, k - 32);
    LeftFar(hi, lo, Pow2(k - 32));
    lo', hi' := 0, lo * Pow2(k - 32) % WORD32;
  }

  method AshlNear(lo: nat, hi: nat, k: nat) returns (lo': int, hi': int)
    requires 0 < k < 32 && lo < WORD32 && hi < WORD32
    ensures hi' < WORD32 && hi' * WORD32 + lo' == Shl(hi * WORD32 + lo, k)
  {
    ShiftsArePowers(hi * WORD32 + lo, k);
    var P, s := Pow2(k), Pow2(32 - k);
    HalfComplement(k);
    LeftNear(hi, lo, P, s);
    lo', hi' := lo * P % WORD32, lo / s + hi * P % WORD32;
  }

  /** __ashldi3. */
  method Ashl(a: u64, b: int) returns (r: u64)
    ensures r == Shl(a, b % 64)
  {
    var k := b % 64;
    var lo, hi := a % WORD32, a / WORD32;
    if k >= 32 {
      lo, hi := AshlFar(lo, hi, k);
    } else if k > 0 {
      lo, hi := AshlNear(lo, hi, k);
    }
    r := hi * WORD32 + lo;
  }
}
