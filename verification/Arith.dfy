// 64-bit integer arithmetic for a machine with 32-bit registers (src/mock_libc/arith.c). Machine
// words are integers with the wrap-around written out.
module Arith {
  import opened Common
  import opened Powers

  type u64 = x: int | 0 <= x < WORD64
  type s64 = x: int | -HALF64 <= x < HALF64

  function Wrap(x: int): u64 { x % WORD64 }

  /** n is the number of leading zero bits of a. */
  predicate LeadingZeros(a: u64, n: int) {
    0 <= n < 64 && Pow2(63 - n) <= a < Pow2(64 - n)
  }

  lemma LeadingZerosUnique(a: u64, m: int, n: int)
    requires LeadingZeros(a, m) && LeadingZeros(a, n)
    ensures m == n
  {
    if m < n { Pow2Monotone(64 - n, 63 - m); }
    if n < m { Pow2Monotone(64 - m, 63 - n); }
  }

  /** Shifting left by k, without losing a bit, loses k leading zeros. */
  lemma ShiftedZeros(a: u64, k: nat, n: int)
    requires a > 0 && a * Pow2(k) < WORD64 && LeadingZeros(a * Pow2(k), n)
    ensures LeadingZeros(a, n + k)
  {
    if k > 63 - n {
      Pow2Monotone(64 - n, k);
      MulMonotone(1, a, Pow2(k));
    }
    Pow2Sum(63 - n - k, k);
    Pow2Sum(64 - n - k, k);
    CancelAtMost(Pow2(63 - n - k), a, Pow2(k));
    CancelLess(a, Pow2(64 - n - k), Pow2(k));
  }

  lemma TopClear(a: u64, k: nat)
    requires 0 < k <= 32 && Pow2(64 - 2 * k) <= a < Pow2(64 - k)
    ensures Pow2(64 - k) <= a * Pow2(k) < Pow2(64)
  {
    hide Pow2;
    Pow2Sum(64 - k, k);
    Pow2Sum(64 - 2 * k, k);
    MulMonotone(a + 1, Pow2(64 - k), Pow2(k));
    MulMonotone(Pow2(64 - 2 * k), a, Pow2(k));
  }

  /** One step of the binary search: if the top k bits are clear, shift them out. The test
      `!(a & mask)` with a mask of the top k bits says that a is below 2^(64-k). */
  method NarrowTop(a: u64, k: nat) returns (b: nat, r: u64)
    requires 0 < k <= 32 && Pow2(64 - 2 * k) <= a
    ensures b <= k && a * Pow2(b) < WORD64 && r == a * Pow2(b) >= Pow2(64 - k)
  {
    Pow2Values();
    QuotientZero(a, Pow2(64 - k));
    b := if a / Pow2(64 - k) == 0 then k else 0;
    if b == k { TopClear(a, k); }
    r := Wrap(a * Pow2(b));
  }

  /** __clzdi2: the number of leading zeros of a non-zero word. */
  method Clz(a: u64) returns (n: int)
    requires a > 0
    ensures LeadingZeros(a, n)
  {
    Pow2Values();
    var b1, a1 := NarrowTop(a, 32);
    var b2, a2 := NarrowTop(a1, 16);
    var b3, a3 := NarrowTop(a2, 8);
    var b4, a4 := NarrowTop(a3, 4);
    var b5, a5 := NarrowTop(a4, 2);
    n := b1 + b2 + b3 + b4 + b5;
    var last := if a5 / HALF64 == 0 then 1 else 0;
    assert LeadingZeros(a5, last);
    ShiftedZeros(a4, b5, last);
    ShiftedZeros(a3, b4, last + b5);
    ShiftedZeros(a2, b3, last + b5 + b4);
    ShiftedZeros(a1, b2, last + b5 + b4 + b3);
    ShiftedZeros(a, b1, last + b5 + b4 + b3 + b2);
    n := n + last;
  }

  // ---------- division ----------

  /** `x >> k` on an unsigned word. */
  function Shr(x: u64, k: nat): u64 {
    if k == 0 then x else Shr(x, k - 1) / 2
  }

  /** `x << k` on an unsigned word. */
  function Shl(x: u64, k: nat): u64 {
    if k == 0 then x else Wrap(Shl(x, k - 1) * 2)
  }

  /** Shifts are division by, and multiplication with, a power of two. */
  lemma {:induction false} ShiftsArePowers(x: u64, k: nat)
    ensures Shr(x, k) == x / Pow2(k) && Shl(x, k) == Wrap(x * Pow2(k))
  {
    if k == 0 {
      assert Pow2(0) == 1;
    } else {
      ShiftsArePowers(x, k - 1);
      var p := Pow2(k - 1);
      assert Pow2(k) == 2 * p;
      hide Pow2, Wrap;
      HalfQuotient(x, p);
      DoubledWrap(x * p);
      TwiceProduct(x, p);
    }
  }

  lemma TwiceProduct(x: nat, p: nat)
    ensures x * (2 * p) == 2 * (x * p)
  {
  }

  lemma HalfQuotient(x: nat, p: nat)
    requires p > 0
    ensures x / p / 2 == x / (2 * p)
  {
    var h := x / p;
    var r := h % 2 * p + x % p;
    assert h == 2 * (h / 2) + h % 2;
    assert x == h * p + x % p;
    assert h * p == (h / 2) * (2 * p) + h % 2 * p;
    QuotientUnique(x, 2 * p, h / 2, r);
  }

  lemma DoubledWrap(y: nat)
    ensures Wrap(Wrap(y) * 2) == Wrap(2 * y)
  {
    var q, r := y / WORD64, y % WORD64;
    Division(y, WORD64);
    Division(2 * r, WORD64);
    QuotientUnique(2 * y, WORD64, 2 * q + 2 * r / WORD64, 2 * r % WORD64);
  }

  /** The product, by repeated addition. */
  function Times(q: nat, b: nat): nat {
    if q == 0 then 0 else Times(q - 1, b) + b
  }

  lemma {:induction false} TimesIsProduct(q: nat, b: nat)
    ensures Times(q, b) == q * b
  {
    if q > 0 { TimesIsProduct(q - 1, b); }
  }

  lemma {:induction false} TimesDouble(q: nat, b: nat)
    ensures Times(2 * q, b) == 2 * Times(q, b)
  {
    if q > 0 { TimesDouble(q - 1, b); }
  }

  lemma Distribute(y: nat, s: nat, h: nat, bit: nat, y': nat)
    requires bit <= 1 && y == bit * h + y'
    ensures y * s == bit * (h * s) + y' * s
  {
    if bit == 1 { assert (h + y') * s == h * s + y' * s; }
  }

  lemma BelowSign(y': nat, h: nat, s: nat, q: nat)
    requires y' < h && q < s
    ensures y' * s + q < h * s
  {
    MulMonotone(y' + 1, h, s);
    assert (y' + 1) * s == y' * s + s;
  }

  lemma DoubledRegister(a: nat, bit: nat, low: nat)
    requires bit <= 1 && low < HALF64 && a == bit * HALF64 + low
    ensures a < WORD64 && a / HALF64 == bit && Wrap(a * 2) == 2 * low
  {
  }

  lemma RegisterSplit(y: nat, h: nat, s: nat, q: nat, bit: nat, y': nat)
    requires h * s == HALF64 && bit <= 1 && y == bit * h + y' && y' < h && q < s
    ensures y * s + q == bit * HALF64 + (y' * s + q) && y' * s + q < HALF64
  {
    BelowSign(y', h, s, q);
    Distribute(y, s, h, bit, y');
  }

  lemma ShiftedOut(N: nat, P: nat, s: nat, x: nat, y: nat)
    requires P * s == WORD64 && N == x * P + y && y < P
    ensures Wrap(N * s) == y * s < WORD64
  {
    var t := y * s;
    assert N * s == x * (P * s) + t;
    MulMonotone(y + 1, P, s);
    assert (y + 1) * s == t + s;
    QuotientUnique(N * s, WORD64, x, t);
  }

  lemma ComplementPowers(m: nat)
    requires m <= 64
    ensures Pow2(m) * Pow2(64 - m) == WORD64
  {
    Pow2Values();
    Pow2Sum(m, 64 - m);
  }

  /** The m low bits y of a word, shifted to the top of the register, end on 64-m zeros. */
  lemma RegisterLayout(N: u64, m: nat, x: nat, y: nat)
    requires m <= 64 && N == x * Pow2(m) + y && y < Pow2(m)
    ensures Shl(N, 64 - m) == y * Pow2(64 - m)
  {
    ShiftsArePowers(N, 64 - m);
    ComplementPowers(m);
    ShiftedOut(N, Pow2(m), Pow2(64 - m), x, y);
  }

  /** Bit m-1 of a word, the word's bits above it, x, and those below it, y. */
  lemma NextBit(N: u64, m: nat) returns (x: nat, bit: nat, y: nat)
    requires m > 0
    ensures bit <= 1 && y < Pow2(m - 1) && N == x * Pow2(m) + (bit * Pow2(m - 1) + y)
    ensures Shr(N, m - 1) == 2 * Shr(N, m) + bit
  {
    ShiftsArePowers(N, m - 1);
    var h, n := Pow2(m - 1), Shr(N, m - 1);
    Division(N, h);
    x, bit, y := n / 2, n % 2, N % h;
    OddPart(n, x, bit, h);
  }

  lemma OddPart(n: nat, x: nat, bit: nat, h: nat)
    requires n == 2 * x + bit && bit <= 1
    ensures n * h == x * (2 * h) + bit * h
  {
    assert 2 * x * h == x * (2 * h);
  }

  /** The register in two parts: the next numerator bit at the top, and the rest, which leaves room
      for the quotient bits q below. */
  lemma RegisterParts(N: u64, m: nat, q: nat) returns (bit: nat, low: nat)
    requires 1 <= m <= 63 && q < Pow2(64 - m)
    ensures bit <= 1 && Shr(N, m - 1) == 2 * Shr(N, m) + bit
    ensures Shl(N, 64 - m) == bit * HALF64 + low && low + q < HALF64
  {
    var x, y;
    x, bit, y := NextBit(N, m);
    var h, s := Pow2(m - 1), Pow2(64 - m);
    assert h * s == HALF64 by { SignAsProduct(m); }
    var top := if bit == 1 then h else 0;
    RegisterLayout(N, m, x, top + y);
    low := y * s;
    RegisterSplit(top + y, h, s, q, bit, y);
  }

  lemma SignAsProduct(m: nat)
    requires 1 <= m <= 64
    ensures Pow2(m - 1) * Pow2(64 - m) == HALF64
  {
    Pow2Values();
    Pow2Sum(m - 1, 64 - m);
  }

  /** The register holds the m numerator bits that are left above the quotient bits found so far.
      Shifting it left brings out the next numerator bit. */
  lemma ShiftRegister(N: u64, m: nat, q: nat) returns (bit: nat)
    requires 1 <= m <= 63 && q < Pow2(64 - m)
    ensures bit <= 1 && Shr(N, m - 1) == 2 * Shr(N, m) + bit
    ensures var a := Shl(N, 64 - m) + q;
            a < WORD64 && a / HALF64 == bit && Wrap(a * 2) == Shl(N, 65 - m) + 2 * q < WORD64 - 1
  {
    var low;
    bit, low := RegisterParts(N, m, q);
    DoubledRegister(Shl(N, 64 - m) + q, bit, low + q);
    DoubledRegister(Shl(N, 64 - m), bit, low);
  }

  /** The initial remainder, the numerator without its last bits, is smaller than the divisor. */
  lemma InitialRemainder(a: u64, b: u64, za: int, zb: int)
    requires LeadingZeros(a, za) && LeadingZeros(b, zb) && za <= zb
    ensures Shr(a, zb - za + 1) < b
  {
    ShiftsArePowers(a, zb - za + 1);
    Pow2Sum(63 - zb, zb - za + 1);
    QuotientBound(a, Pow2(zb - za + 1), Pow2(63 - zb));
  }

  lemma ZerosAntitone(a: u64, b: u64, za: int, zb: int)
    requires 2 <= b <= a && LeadingZeros(a, za) && LeadingZeros(b, zb)
    ensures za <= zb <= 62
  {
    if zb < za { Pow2Monotone(64 - za, 63 - zb); }
    assert Pow2(1) == 2;
  }

  lemma BigDivisor(b: u64, zb: int)
    requires b > HALF64 && LeadingZeros(b, zb)
    ensures zb == 0
  {
    Pow2Values();
    if zb > 0 { Pow2Monotone(64 - zb, 63); }
  }

  /** The comparison by sign: with both operands in the right range, the sign of the wrapped
      difference says whether rem is at least b. */
  lemma SignTest(b: u64, rem: u64)
    requires -HALF64 <= b - rem - 1 < HALF64
    ensures Signed(Wrap(b - rem - 1)) == b - rem - 1
    ensures Signed(Wrap(b - rem - 1)) < 0 <==> rem >= b
  {
  }

  /** The state of the long division of N by b with m of its B bits to go: q and w are the quotient
      so far, its last bit w not yet shifted into the register. */
  predicate Dividing(N: u64, b: u64, B: nat, m: nat, rem: u64, a: u64, q: nat, w: nat) {
    && m <= B <= 63 && w <= 1 && 2 * q + w < Pow2(B - m)
    && rem < b && Shr(N, m) == Times(2 * q + w, b) + rem
    && a == Shl(N, 64 - m) + q
    && (m > 0 ==> rem < HALF64 && (b > HALF64 ==> m == 1 && w == q == 0 && b <= N))
  }

  lemma DivisionStarts(N: u64, b: u64, za: int, zb: int)
    requires 2 <= b <= N && LeadingZeros(N, za) && LeadingZeros(b, zb)
    ensures 1 <= zb - za + 1 <= 63
    ensures var B := zb - za + 1; Dividing(N, b, B, B, Shr(N, B), Shl(N, 64 - B), 0, 0)
  {
    ZerosAntitone(N, b, za, zb);
    if b > HALF64 { BigDivisor(b, zb); }
    InitialRemainder(N, b, za, zb);
    assert Pow2(0) == 1;
    HalfOrLess(N, zb - za + 1);
  }

  lemma {:induction false} HalfOrLess(N: u64, k: nat)
    requires k > 0
    ensures Shr(N, k) <= N / 2
  {
    if k > 1 { HalfOrLess(N, k - 1); }
  }

  /** One round: double the remainder, bring in a bit, subtract the divisor if it fits. */
  lemma Round(N: u64, b: u64, B: nat, m: nat, rem: u64, a: u64, q: nat, w: nat)
    requires m > 0 && Dividing(N, b, B, m, rem, a, q, w)
    ensures var t := 2 * rem + a / HALF64;
            var w' := if t >= b then 1 else 0;
            && t < WORD64 && -HALF64 <= b - t - 1 < HALF64 && Wrap(a * 2) + w < WORD64
            && Dividing(N, b, B, m - 1, if t >= b then t - b else t, Wrap(a * 2) + w, 2 * q + w, w')
  {
    Pow2Monotone(B - m, 64 - m);
    var bit := ShiftRegister(N, m, q);
    var Q := 2 * q + w;
    TimesDouble(Q, b);
    var t := 2 * rem + bit;
    assert Shr(N, m - 1) == Times(2 * Q, b) + t;
    assert Times(2 * Q + 1, b) == Times(2 * Q, b) + b;
    if b > HALF64 {
      assert Shr(N, 0) == N && Times(0, b) == 0;
      assert t == N;
    }
    assert -HALF64 <= b - t - 1 < HALF64;
  }

  lemma DivisionEnds(N: u64, b: u64, B: nat, rem: u64, a: u64, q: nat, w: nat)
    requires Dividing(N, b, B, 0, rem, a, q, w)
    ensures Wrap(a * 2) + w == 2 * q + w < WORD64 && N == (2 * q + w) * b + rem && rem < b
  {
    assert Shr(N, 0) == N;
    hide Times, Shr, Shl, Pow2;
    TimesIsProduct(2 * q + w, b);
    Pow2Values();
    Pow2Monotone(B, 63);
    AllShiftedOut(N);
    assert a == q && 2 * q + w < HALF64;
  }

  lemma AllShiftedOut(N: u64)
    ensures Shl(N, 64) == 0
  {
    assert Pow2(0) == 1;
    RegisterLayout(N, 0, N, 0);
  }

  /** `b & wrap`, where wrap is all zeros or all ones. */
  function Masked(b: u64, wrap: u64): u64
    requires wrap == 0 || wrap == WORD64 - 1
  {
    if wrap == 0 then 0 else b
  }

  /** One round of the loop, on the machine's registers. */
  method DivisionRound(b: u64, rem0: u64, a0: u64, wrap0: u64, ghost N: u64, ghost B: nat, ghost m: nat, ghost q: nat)
    returns (rem: u64, a: u64, wrap: u64)
    requires m > 0 && (wrap0 == 0 || wrap0 == WORD64 - 1) && Dividing(N, b, B, m, rem0, a0, q, wrap0 % 2)
    ensures (wrap == 0 || wrap == WORD64 - 1) && Dividing(N, b, B, m - 1, rem, a, 2 * q + wrap0 % 2, wrap % 2)
  {
    ghost var w := wrap0 % 2;
    Round(N, b, B, m, rem0, a0, q, w);
    var t := DoubleAndShiftIn(rem0, a0);
    a := DoubleAndShiftInWrap(a0, wrap0);
    rem, wrap := SubtractIfFits(b, t);
  }

  /** `rem = (rem << 1) | (a >> 63)`. */
  method DoubleAndShiftIn(rem: u64, a: u64) returns (t: u64)
    requires rem < HALF64
    ensures t == 2 * rem + a / HALF64
  {
    t := Wrap(rem * 2) + a / HALF64;
  }

  /** `a = (a << 1) | (wrap & 1)`. */
  method DoubleAndShiftInWrap(a0: u64, wrap: u64) returns (a: u64)
    ensures a == Wrap(a0 * 2) + wrap % 2
  {
    a := Wrap(a0 * 2) + wrap % 2;
  }

  /** `wrap = (s64)(b - rem - 1) >> 63; rem -= b & wrap`. */
  method SubtractIfFits(b: u64, rem0: u64) returns (rem: u64, wrap: u64)
    requires -HALF64 <= b - rem0 - 1 < HALF64
    ensures wrap == (if rem0 >= b then WORD64 - 1 else 0) && wrap % 2 == if rem0 >= b then 1 else 0
    ensures rem == if rem0 >= b then rem0 - b else rem0
  {
    SignTest(b, rem0);
    wrap := if Signed(Wrap(b - rem0 - 1)) < 0 then WORD64 - 1 else 0;
    rem := Wrap(rem0 - Masked(b, wrap));
  }

  /** The branch-free long division, one bit of the quotient a round. */
  method LongDivision(a0: u64, b: u64) returns (quotient: u64, remainder: u64)
    requires 2 <= b <= a0
    ensures a0 == quotient * b + remainder && remainder < b
  {
    var zb := Clz(b);
    var za := Clz(a0);
    DivisionStarts(a0, b, za, zb);
    var bits := zb - za + 1;
    ghost var B := bits;
    var rem: u64 := Shr(a0, bits);
    var a: u64 := Shl(a0, 64 - bits);
    var wrap: u64 := 0;
    ghost var q := 0;
    while bits > 0
      invariant 0 <= bits && (wrap == 0 || wrap == WORD64 - 1) && q >= 0
      invariant Dividing(a0, b, B, bits, rem, a, q, wrap % 2)
    {
      ghost var q' := 2 * q + wrap % 2;
      rem, a, wrap := DivisionRound(b, rem, a, wrap, a0, B, bits, q);
      q := q';
      bits := bits - 1;
    }
    DivisionEnds(a0, b, B, rem, a, q, wrap % 2);
    quotient, remainder := Wrap(a * 2) + wrap % 2, rem;
  }

  /** __divmoddi4: the quotient and the remainder of an unsigned division. The code forces a
      processor exception when the divisor is zero. */
  method DivMod(a: u64, b: u64) returns (quotient: u64, remainder: u64)
    requires b != 0
    ensures a == quotient * b + remainder && remainder < b
    ensures quotient == a / b && remainder == a % b
  {
    if b > a {
      QuotientUnique(a, b, 0, a);
      return 0, a;
    }
    if b / WORD32 == 0 {
      if b == 1 {
        return a, 0;
      }
      if a / WORD32 == 0 {
        return (a % WORD32) / (b % WORD32), (a % WORD32) % (b % WORD32);
      }
    }
    quotient, remainder := LongDivision(a, b);
    QuotientUnique(a, b, quotient, remainder);
  }
}
