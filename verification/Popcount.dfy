// Counting bits by adding neighbouring fields of a word (src/mock_libc/arith.c).
module Popcount {
  import opened Common
  import Powers

  /** Bitwise and. */
  function And(x: nat, y: nat): nat {
    if x == 0 || y == 0 then 0 else 2 * And(x / 2, y / 2) + (if x % 2 == 1 && y % 2 == 1 then 1 else 0)
  }

  /** The number of bits that are set. */
  function Pop(x: nat): nat {
    if x == 0 then 0 else x % 2 + Pop(x / 2)
  }

  /** k digits of a base, all the same. */
  function Mask(base: nat, digit: nat, k: nat): nat {
    if k == 0 then 0 else base * Mask(base, digit, k - 1) + digit
  }

  // ---------- masks ----------

  lemma AndBit(x: nat, y: nat)
    ensures And(x, y) == 2 * And(x / 2, y / 2) + (if x % 2 == 1 && y % 2 == 1 then 1 else 0)
  {
  }

  lemma AndPair(x: nat, m: nat)
    ensures And(x, 4 * m + 1) == 4 * And(x / 4, m) + x % 2
    ensures And(x, 4 * m + 3) == 4 * And(x / 4, m) + x % 4
    ensures And(x, 4 * m) == 4 * And(x / 4, m)
  {
    hide And;
    AndBit(x, 4 * m + 1);
    AndBit(x, 4 * m + 3);
    AndBit(x, 4 * m);
    AndBit(x / 2, 2 * m);
    AndBit(x / 2, 2 * m + 1);
    assert x / 2 / 2 == x / 4;
  }

  lemma AndNibble(x: nat, m: nat)
    ensures And(x, 16 * m + 3) == 16 * And(x / 16, m) + x % 4
    ensures And(x, 16 * m) == 16 * And(x / 16, m)
  {
    hide And;
    AndPair(x, 4 * m);
    AndPair(x / 4, m);
    QuarterTwice(x);
  }

  lemma AndWholeNibble(x: nat, m: nat)
    ensures And(x, 16 * m + 15) == 16 * And(x / 16, m) + x % 16
  {
    hide And;
    AndPair(x, 4 * m + 3);
    AndPair(x / 4, m);
    QuarterTwice(x);
  }

  lemma QuarterTwice(x: nat)
    ensures x / 4 / 4 == x / 16 && x % 16 == 4 * (x / 4 % 4) + x % 4
  {
    Powers.QuotientUnique(x, 16, x / 4 / 4, 4 * (x / 4 % 4) + x % 4);
  }

  lemma NibbleTwice(x: nat)
    ensures x / 16 / 16 == x / 256 && x % 256 == 16 * (x / 16 % 16) + x % 16
  {
    Powers.QuotientUnique(x, 256, x / 16 / 16, 16 * (x / 16 % 16) + x % 16);
  }

  lemma AndByte(x: nat, m: nat)
    ensures And(x, 256 * m + 15) == 256 * And(x / 256, m) + x % 16
  {
    hide And;
    AndWholeNibble(x, 16 * m);
    AndNibble(x / 16, m);
    NibbleTwice(x);
  }

  lemma AndLowBits(x: nat)
    ensures And(x, 63) == x % 64 && And(x, 127) == x % 128
  {
    assert And(x / 16 / 4, 0) == 0 && And(x / 16 / 4 / 2, 0) == 0;
    hide And;
    AndWholeNibble(x, 3);
    AndWholeNibble(x, 7);
    AndPair(x / 16, 0);
    AndPair(x / 16, 1);
    AndBit(x / 16 / 4, 1);
    Low(x);
  }

  lemma Low(x: nat)
    ensures 16 * (x / 16 % 4) + x % 16 == x % 64
    ensures 16 * (4 * (x / 16 / 4 % 2) + x / 16 % 4) + x % 16 == x % 128
  {
    var r, p, q, t := x % 16, x / 16, x / 16 / 4, x / 16 / 4 / 2;
    assert x == 16 * p + r && p == 4 * q + p % 4 && q == 2 * t + q % 2;
    Powers.QuotientUnique(x, 64, q, 16 * (p % 4) + r);
    Powers.QuotientUnique(x, 128, t, 16 * (4 * (q % 2) + p % 4) + r);
  }

  // ---------- the stages ----------

  /** The sum of the k lowest digits, all of them at most `limit`. */
  ghost predicate Fields(base: nat, k: nat, limit: nat, x: nat, sum: nat)
    requires base > 0
  {
    if k == 0 then x == 0 && sum == 0
    else x % base <= limit && sum >= x % base && Fields(base, k - 1, limit, x / base, sum - x % base)
  }

  /** One more field. */
  lemma FieldsStep(base: nat, k: nat, limit: nat, x: nat, h: nat, l: nat, sum: nat)
    requires k > 0 && x == h * base + l && l < base && l <= limit && l <= sum && Fields(base, k - 1, limit, h, sum - l)
    ensures Fields(base, k, limit, x, sum)
  {
    Powers.QuotientUnique(x, base, h, l);
  }

  /** Every pair of bits becomes their number. */
  lemma {:induction false} PairsCounted(a: nat, k: nat)
    requires a < Power(4, k)
    ensures And(a / 2, Mask(4, 1, k)) <= a
    ensures Fields(4, k, 2, a - And(a / 2, Mask(4, 1, k)), Pop(a))
    decreases k
  {
    if k > 0 {
      var m, mask := Mask(4, 1, k - 1), Mask(4, 1, k);
      assert mask == 4 * m + 1 && Power(4, k) == 4 * Power(4, k - 1);
      hide And, Pop, Power, Mask, Fields;
      var h, l, upper := TwoBits(a, m);
      PairsCounted(h, k - 1);
      FieldsStep(4, k, 2, a - And(a / 2, mask), h - And(h / 2, m), l - upper, Pop(a));
    }
  }

  /** The two lowest bits l, the upper one of them, and the other bits h. */
  lemma TwoBits(a: nat, m: nat) returns (h: nat, l: nat, upper: nat)
    ensures a == 4 * h + l && l < 4 && upper <= l <= upper + 2
    ensures Pop(a) == l - upper + Pop(h)
    ensures And(a / 2, 4 * m + 1) == 4 * And(h / 2, m) + upper
  {
    h, l := a / 4, a % 4;
    upper := l / 2;
    assert Pop(a) == a % 2 + Pop(a / 2) && Pop(a / 2) == a / 2 % 2 + Pop(a / 2 / 2);
    hide Pop, And;
    assert a / 2 / 2 == h && a / 2 % 2 == upper && a / 2 / 4 == h / 2;
    AndPair(a / 2, m);
  }

  /** Neighbouring pairs are added to nibbles. */
  lemma {:induction false} NibblesCounted(x: nat, k: nat, sum: nat)
    requires Fields(4, 2 * k, 2, x, sum)
    ensures Fields(16, k, 4, And(x / 4, Mask(16, 3, k)) + And(x, Mask(16, 3, k)), sum)
    decreases k
  {
    if k > 0 {
      var m, mask := Mask(16, 3, k - 1), Mask(16, 3, k);
      assert mask == 16 * m + 3;
      hide And, Fields, Mask;
      var h, l := TwoPairs(x, k, sum, m);
      NibblesCounted(h, k - 1, sum - l);
      FieldsStep(16, k, 4, And(x / 4, mask) + And(x, mask), And(h / 4, m) + And(h, m), l, sum);
    }
  }

  /** The sum l of the two lowest pairs, and the other pairs h. */
  lemma TwoPairs(x: nat, k: nat, sum: nat, m: nat) returns (h: nat, l: nat)
    requires k > 0 && Fields(4, 2 * k, 2, x, sum)
    ensures l <= 4 && l <= sum && Fields(4, 2 * (k - 1), 2, h, sum - l)
    ensures And(x / 4, 16 * m + 3) + And(x, 16 * m + 3) == 16 * (And(h / 4, m) + And(h, m)) + l
  {
    TwoFields(4, k, 2, x, sum);
    hide And, Fields;
    QuarterTwice(x);
    h, l := x / 16, x % 4 + x / 4 % 4;
    AndNibble(x / 4, m);
    AndNibble(x, m);
    QuarterOf(x);
  }

  lemma QuarterOf(x: nat)
    ensures x / 4 / 16 == x / 16 / 4
  {
  }

  lemma LowFieldBound(base: nat, k: nat, limit: nat, x: nat, sum: nat)
    requires base > 0 && Fields(base, k, limit, x, sum)
    ensures x % base <= limit
  {
  }

  lemma TwoFields(base: nat, k: nat, limit: nat, x: nat, sum: nat)
    requires base > 0 && k > 0 && Fields(base, 2 * k, limit, x, sum)
    ensures x % base <= limit && x / base % base <= limit && sum >= x % base + x / base % base
    ensures Fields(base, 2 * (k - 1), limit, x / base / base, sum - x % base - x / base % base)
  {
    assert Fields(base, 2 * k - 1, limit, x / base, sum - x % base);
  }

  /** Neighbouring nibbles are added to bytes; the sums in between are masked out. */
  lemma {:induction false} BytesCounted(x: nat, k: nat, sum: nat)
    requires Fields(16, 2 * k, 4, x, sum)
    ensures Fields(256, k, 8, And(x + x / 16, Mask(256, 15, k)), sum)
    decreases k
  {
    if k > 0 {
      var m, mask := Mask(256, 15, k - 1), Mask(256, 15, k);
      assert mask == 256 * m + 15;
      hide And, Fields, Mask;
      var h, l := TwoNibbles(x, k, sum, m);
      BytesCounted(h, k - 1, sum - l);
      FieldsStep(256, k, 8, And(x + x / 16, mask), And(h + h / 16, m), l, sum);
    }
  }

  /** The sum l of the two lowest nibbles, and the other nibbles h. */
  lemma TwoNibbles(x: nat, k: nat, sum: nat, m: nat) returns (h: nat, l: nat)
    requires k > 0 && Fields(16, 2 * k, 4, x, sum)
    ensures l <= 8 && l <= sum && Fields(16, 2 * (k - 1), 4, h, sum - l)
    ensures And(x + x / 16, 256 * m + 15) == 256 * And(h + h / 16, m) + l
  {
    TwoFields(16, k, 4, x, sum);
    LowFieldBound(16, 2 * (k - 1), 4, x / 16 / 16, sum - x % 16 - x / 16 % 16);
    hide And, Fields;
    NibbleTwice(x);
    h, l := x / 256, x % 16 + x / 16 % 16;
    NibbleCarries(x);
    AndByte(x + x / 16, m);
  }

  /** Nibbles of at most 4 are added without a carry. */
  lemma NibbleCarries(x: nat)
    requires x % 16 <= 4 && x / 16 % 16 <= 4 && x / 256 % 16 <= 4
    ensures (x + x / 16) % 16 == x % 16 + x / 16 % 16
    ensures (x + x / 16) / 256 == x / 256 + x / 256 / 16
  {
    var l0, l1, l2, g := x % 16, x / 16 % 16, x / 256 % 16, x / 256 / 16;
    NibbleTwice(x);
    var h := 16 * g + l2;
    var y := x + x / 16;
    assert y == 256 * (h + g) + (16 * (l1 + l2) + (l0 + l1));
    Powers.QuotientUnique(y, 256, h + g, 16 * (l1 + l2) + (l0 + l1));
    Powers.QuotientUnique(y, 16, 16 * (h + g) + (l1 + l2), l0 + l1);
  }

  lemma Masks()
    ensures Mask(4, 1, 16) == 0x5555_5555 && Mask(16, 3, 8) == 0x3333_3333 && Mask(256, 15, 4) == 0x0F0F_0F0F
    ensures Power(4, 16) == WORD32 && Mask(16, 4, 8) == 0x4444_4444
  {
    assert Mask(4, 1, 8) == 0x5555 && Power(4, 8) == 0x1_0000;
  }

  lemma WideMasks()
    ensures Mask(4, 1, 32) == 0x5555_5555_5555_5555 && Mask(16, 3, 16) == 0x3333_3333_3333_3333
    ensures Mask(256, 15, 8) == 0x0F0F_0F0F_0F0F_0F0F
    ensures Power(4, 32) == WORD64 && Mask(16, 4, 16) == 0x4444_4444_4444_4444
  {
    assert Mask(16, 4, 8) == 0x4444_4444;
    assert Mask(4, 1, 8) == 0x5555 && Power(4, 8) == 0x1_0000;
    assert Mask(4, 1, 16) == 0x5555_5555 && Power(4, 16) == WORD32;
    assert Mask(4, 1, 24) == 0x5555_5555_5555 && Power(4, 24) == 0x1_0000_0000_0000;
    assert Mask(16, 3, 8) == 0x3333_3333;
  }

  /** The lowest of k fields and the others. */
  lemma LowestField(base: nat, k: nat, limit: nat, x: nat, sum: nat) returns (h: nat, l: nat)
    requires base > 0 && k > 0 && Fields(base, k, limit, x, sum)
    ensures x == base * h + l && l <= limit && l <= sum && Fields(base, k - 1, limit, h, sum - l)
  {
    h, l := x / base, x % base;
  }

  /** Fields are bounded by their limits. */
  lemma {:induction false} FieldsBound(base: nat, k: nat, limit: nat, x: nat, sum: nat)
    requires base > 0 && Fields(base, k, limit, x, sum)
    ensures x <= Mask(base, limit, k)
  {
    if k > 0 {
      var m := Mask(base, limit, k - 1);
      assert Mask(base, limit, k) == base * m + limit;
      hide Mask, Fields;
      var h, l := LowestField(base, k, limit, x, sum);
      FieldsBound(base, k - 1, limit, h, sum - l);
      Powers.MulMonotone(h, m, base);
    }
  }

  lemma FourBytes(k: nat, x: nat, sum: nat) returns (h: nat, b0: nat, b1: nat, b2: nat, b3: nat)
    requires k >= 4 && Fields(256, k, 8, x, sum)
    ensures x == b0 + 0x100 * b1 + 0x1_0000 * b2 + 0x100_0000 * b3 + 0x1_0000_0000 * h
    ensures b0 <= 8 && b1 <= 8 && b2 <= 8 && b3 <= 8 && b0 + b1 + b2 + b3 <= sum
    ensures Fields(256, k - 4, 8, h, sum - b0 - b1 - b2 - b3)
  {
    hide Fields;
    h, b0 := LowestField(256, k, 8, x, sum);
    h, b1 := LowestField(256, k - 1, 8, h, sum - b0);
    h, b2 := LowestField(256, k - 2, 8, h, sum - b0 - b1);
    h, b3 := LowestField(256, k - 3, 8, h, sum - b0 - b1 - b2);
  }

  /** Folding four bytes onto the lowest. */
  lemma Folded(x: nat, sum: nat)
    requires Fields(256, 4, 8, x, sum)
    ensures Wrap32(x + x / 0x1_0000) == x + x / 0x1_0000
    ensures var y := x + x / 0x1_0000; Wrap32(y + y / 0x100) == y + y / 0x100 && (y + y / 0x100) % 64 == sum
  {
    var h, b0, b1, b2, b3 := FourBytes(4, x, sum);
    assert h == 0 && sum == b0 + b1 + b2 + b3;
    hide Fields, Wrap32;
    UpperHalf(b0, b1, b2, b3, x);
    LowestByte(b0, b1, b2, b3, x + x / 0x1_0000);
  }

  lemma UpperHalf(b0: nat, b1: nat, b2: nat, b3: nat, x: nat)
    requires b0 <= 8 && b1 <= 8
    requires x == b0 + 0x100 * b1 + 0x1_0000 * b2 + 0x100_0000 * b3
    ensures x + x / 0x1_0000 == b0 + 0x100 * b1 + 0x1_0001 * (b2 + 0x100 * b3)
  {
    Powers.QuotientUnique(x, 0x1_0000, b2 + 0x100 * b3, b0 + 0x100 * b1);
  }

  lemma LowestByte(b0: nat, b1: nat, b2: nat, b3: nat, y: nat)
    requires b0 <= 8 && b1 <= 8 && b2 <= 8 && b3 <= 8
    requires y == b0 + 0x100 * b1 + 0x1_0001 * (b2 + 0x100 * b3)
    ensures Wrap32(y) == y && Wrap32(y + y / 0x100) == y + y / 0x100 && (y + y / 0x100) % 64 == b0 + b1 + b2 + b3
  {
    var t := (b1 + b3) + 0x100 * b2 + 0x1_0000 * b3;
    Powers.QuotientUnique(y, 0x100, t, b0 + b2);
    Powers.QuotientUnique(y + t, 64, 4 * t + 4 * b2 + 1024 * b3, b0 + b1 + b2 + b3);
  }

  function Wrap32(x: nat): nat { x % WORD32 }

  function Wrap64(x: nat): nat { x % WORD64 }

  lemma NoWrap(n: nat)
    ensures n < WORD32 ==> Wrap32(n) == n
    ensures n < WORD64 ==> Wrap64(n) == n
  {
  }

  lemma FitsNibbles32(x: nat, sum: nat)
    requires Fields(16, 8, 4, x, sum)
    ensures Wrap32(x) == x && Wrap32(x + x / 16) == x + x / 16
  {
    FieldsBound(16, 8, 4, x, sum);
    assert Mask(16, 4, 8) == 0x4444_4444;
  }

  /** The number of bits of a 32-bit word. No step wraps around. */
  method Popcountsi2(a0: nat) returns (r: nat)
    requires a0 < WORD32
    ensures r == Pop(a0)
  {
    Masks();
    hide And, Fields, Mask, Pop, Power, Wrap32;
    PairsCounted(a0, 16);
    var a: int := a0 - And(a0 / 2, 0x5555_5555);
    NibblesCounted(a, 8, Pop(a0));
    FitsNibbles32(And(a / 4, 0x3333_3333) + And(a, 0x3333_3333), Pop(a0));
    a := Wrap32(And(a / 4, 0x3333_3333) + And(a, 0x3333_3333));
    BytesCounted(a, 4, Pop(a0));
    a := And(Wrap32(a + a / 16), 0x0F0F_0F0F);
    Folded(a, Pop(a0));
    a := Wrap32(a + a / 0x1_0000);
    AndLowBits(Wrap32(a + a / 0x100));
    r := And(Wrap32(a + a / 0x100), 63);
  }

  /** Four bytes and four more. */
  lemma EightBytes(x: nat, sum: nat)
    returns (lo: nat, hi: nat, c0: nat, c1: nat, c2: nat, c3: nat)
    requires Fields(256, 8, 8, x, sum)
    ensures x == lo + WORD32 * hi && lo < WORD32 && hi < 0x1000_0000
    ensures lo + hi == c0 + 0x100 * c1 + 0x1_0000 * c2 + 0x100_0000 * c3 && sum == c0 + c1 + c2 + c3
    ensures c0 <= 16 && c1 <= 16 && c2 <= 16 && c3 <= 16
    ensures sum <= 64
  {
    var b0, b1, b2, b3;
    hi, b0, b1, b2, b3 := FourBytes(8, x, sum);
    var h, b4, b5, b6, b7 := FourBytes(4, hi, sum - b0 - b1 - b2 - b3);
    assert h == 0 && sum == b0 + b1 + b2 + b3 + b4 + b5 + b6 + b7;
    hide Fields;
    lo := b0 + 0x100 * b1 + 0x1_0000 * b2 + 0x100_0000 * b3;
    c0, c1, c2, c3 := b0 + b4, b1 + b5, b2 + b6, b3 + b7;
  }

  /** Folding eight bytes onto the lowest. */
  lemma FoldedTwice(x: nat, sum: nat)
    requires Fields(256, 8, 8, x, sum)
    ensures Wrap64(x + x / WORD32) == x + x / WORD32
    ensures var y := x + x / WORD32;
            var z := y + y / 0x1_0000;
            Wrap64(z) == z && Wrap64(z + z / 0x100) == z + z / 0x100 && (z + z / 0x100) % 128 == sum
  {
    var lo, hi, c0, c1, c2, c3 := EightBytes(x, sum);
    hide Fields, Wrap64;
    Powers.QuotientUnique(x, WORD32, hi, lo);
    NoWrap(x + hi);
    var y, m := x + hi, c2 + 0x100 * c3 + 0x1_0000 * hi;
    assert y == 0x1_0000 * m + (c0 + 0x100 * c1);
    Powers.QuotientUnique(y, 0x1_0000, m, c0 + 0x100 * c1);
    LastFold(c0, c1, c2, c3, hi, y + m);
  }

  lemma LastFold(c0: nat, c1: nat, c2: nat, c3: nat, hi: nat, z: nat)
    requires c0 <= 16 && c1 <= 16 && c2 <= 16 && c3 <= 16 && c0 + c1 + c2 + c3 <= 64 && hi < 0x1000_0000
    requires z == c0 + 0x100 * c1 + 0x1_0001 * (c2 + 0x100 * c3 + 0x1_0000 * hi)
    ensures Wrap64(z) == z && Wrap64(z + z / 0x100) == z + z / 0x100 && (z + z / 0x100) % 128 == c0 + c1 + c2 + c3
  {
    var t := (c1 + c3) + 0x100 * c2 + 0x1_0000 * c3 + 0x100 * hi + 0x100_0000 * hi;
    Powers.QuotientUnique(z, 0x100, t, c0 + c2);
    var k := 2 * t + 2 * c2 + 512 * c3 + 2 * hi + 0x2_0000 * hi;
    Powers.QuotientUnique(z + t, 128, k, c0 + c1 + c2 + c3);
    hide Wrap64;
    NoWrap(z);
    NoWrap(z + t);
  }

  lemma FitsNibbles64(x: nat, sum: nat)
    requires Fields(16, 16, 4, x, sum)
    ensures Wrap64(x) == x && Wrap64(x + x / 16) == x + x / 16
  {
    hide Fields;
    FieldsBound(16, 16, 4, x, sum);
    assert Mask(16, 4, 8) == 0x4444_4444;
    assert Mask(16, 4, 16) == 0x4444_4444_4444_4444;
  }

  /** The number of bits of a 64-bit word. */
  method Popcountdi2(a0: nat) returns (r: nat)
    requires a0 < WORD64
    ensures r == Pop(a0)
  {
    WideMasks();
    hide And, Fields, Mask, Pop, Power, Wrap64;
    PairsCounted(a0, 32);
    var a: int := a0 - And(a0 / 2, 0x5555_5555_5555_5555);
    NibblesCounted(a, 16, Pop(a0));
    FitsNibbles64(And(a / 4, 0x3333_3333_3333_3333) + And(a, 0x3333_3333_3333_3333), Pop(a0));
    a := Wrap64(And(a / 4, 0x3333_3333_3333_3333) + And(a, 0x3333_3333_3333_3333));
    BytesCounted(a, 8, Pop(a0));
    a := And(Wrap64(a + a / 16), 0x0F0F_0F0F_0F0F_0F0F);
    FoldedTwice(a, Pop(a0));
    a := Wrap64(a + a / WORD32);
    a := Wrap64(a + a / 0x1_0000);
    AndLowBits(Wrap64(a + a / 0x100));
    r := And(Wrap64(a + a / 0x100), 127);
  }
}
