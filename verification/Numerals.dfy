// Numbers and their digits (src/mock_libc/fmt.c): what a numeral stands for, how long it is, and
// what of a string the number parser takes.
module Numerals {
  import opened Common

  const LOWER: string := "0123456789abcdef"
  const UPPER: string := "0123456789ABCDEF"

  function DigitChar(d: nat, upper: bool): char
    requires d < 16
  {
    (if upper then UPPER else LOWER)[d]
  }

  /** Above nine the digits are letters, capital ones exactly if these are asked for. */
  lemma LetterCase(d: nat, upper: bool)
    requires d < 16
    ensures var c := DigitChar(d, upper);
            && ('0' <= c <= '9' <==> d < 10)
            && ('A' <= c <= 'F' <==> d >= 10 && upper)
            && ('a' <= c <= 'f' <==> d >= 10 && !upper)
  {
  }

  /** 0 also for characters that are no digits. */
  function DigitValue(c: char): (d: nat)
    ensures d < 16
  {
    if '0' <= c <= '9' then c as int - '0' as int
    else if 'A' <= c <= 'F' then 10 + c as int - 'A' as int
    else if 'a' <= c <= 'f' then 10 + c as int - 'a' as int
    else 0
  }

  predicate IsDigit(c: char, base: nat) {
    c == '0' || 0 < DigitValue(c) < base
  }

  /** The digits of a base, in either case. */
  lemma IsDigitExactly(c: char, base: nat)
    requires 2 <= base <= 16
    ensures IsDigit(c, base) <==>
              || ('0' <= c <= '9' && c as int < 48 + base)
              || ('A' <= c <= 'F' && c as int < 55 + base)
              || ('a' <= c <= 'f' && c as int < 87 + base)
  {
  }

  predicate AllDigits(s: string, base: nat) {
    forall k | 0 <= k < |s| :: IsDigit(s[k], base)
  }

  lemma DigitCharIsDigit(d: nat, base: nat, upper: bool)
    requires d < base <= 16
    ensures DigitValue(DigitChar(d, upper)) == d && IsDigit(DigitChar(d, upper), base)
    ensures DigitChar(d, upper) in "0123456789abcdefABCDEF"
  {
  }

  /** A number in a base, highest digit first. */
  function Digits(n: nat, base: nat, upper: bool): (s: string)
    requires 2 <= base <= 16
    ensures s != []
    decreases n
  {
    if n < base then [DigitChar(n, upper)]
    else Fewer(n, base); Digits(n / base, base, upper) + [DigitChar(n % base, upper)]
  }

  lemma Fewer(n: nat, base: nat)
    requires 2 <= base <= n
    ensures 0 < n / base < n
  {
    Shrinks(n, base, n / base, n % base);
  }

  lemma Shrinks(n: nat, base: nat, q: int, r: nat)
    requires 2 <= base <= n && n == base * q + r && r < base
    ensures 0 < q < n
  {
    assert q <= 0 ==> base * q <= 0;
    assert q > 0 ==> base * q >= 2 * q;
  }

  /** So no digit of a number is a letter of the other case. */
  lemma {:induction false} DigitsCase(n: nat, base: nat, upper: bool)
    requires 2 <= base <= 16
    ensures forall k | 0 <= k < |Digits(n, base, upper)| ::
              var c := Digits(n, base, upper)[k];
              '0' <= c <= '9' || (if upper then 'A' <= c <= 'F' else 'a' <= c <= 'f')
    decreases n
  {
    if n < base {
      LetterCase(n, upper);
    } else {
      Fewer(n, base);
      DigitsCase(n / base, base, upper);
      LetterCase(n % base, upper);
    }
  }

  /** What a string of digits stands for. */
  function ValueOf(s: string, base: nat): nat {
    if s == [] then 0 else ValueOf(s[..|s|-1], base) * base + DigitValue(s[|s|-1])
  }

  lemma {:induction false} DigitsAreRight(n: nat, base: nat, upper: bool)
    requires 2 <= base <= 16
    ensures ValueOf(Digits(n, base, upper), base) == n && AllDigits(Digits(n, base, upper), base)
    decreases n
  {
    DigitCharIsDigit(n % base, base, upper);
    if n < base {
      assert [DigitChar(n, upper)][..0] == [];
      assert n % base == n by { SmallMod(n, base); }
    } else {
      Fewer(n, base);
      DigitsAreRight(n / base, base, upper);
      var s, c := Digits(n / base, base, upper), DigitChar(n % base, upper);
      assert (s + [c])[..|s|] == s;
      assert n == (n / base) * base + n % base;
    }
  }

  lemma SmallMod(n: nat, base: nat)
    requires n < base
    ensures n % base == n
  {
  }

  /** A number has at most k digits exactly if it is below the k-th power of the base. */
  lemma {:induction false} DigitCount(n: nat, base: nat, upper: bool, k: nat)
    requires 2 <= base <= 16 && k > 0
    ensures |Digits(n, base, upper)| <= k <==> n < Power(base, k)
    decreases n
  {
    if n < base {
      PowerAtLeast(base, k);
    } else {
      Fewer(n, base);
      if k == 1 {
        assert Power(base, 1) == base * Power(base, 0) == base;
      } else {
        DigitCount(n / base, base, upper, k - 1);
        QuotientBelow(n, base, Power(base, k - 1));
      }
    }
  }

  lemma {:induction false} PowerAtLeast(base: nat, k: nat)
    requires k > 0 && base > 0
    ensures Power(base, k) >= base
    decreases k
  {
    if k > 1 {
      PowerAtLeast(base, k - 1);
      assert base * Power(base, k - 1) >= base * 1;
    } else {
      assert Power(base, 0) == 1;
    }
  }

  lemma QuotientBelow(n: nat, base: nat, p: nat)
    requires base > 0
    ensures n / base < p <==> n < base * p
  {
    var q, r := n / base, n % base;
    assert n == base * q + r && 0 <= r < base;
    if q < p { assert base * (q + 1) <= base * p; }
    if q >= p { assert base * q >= base * p; }
  }

  lemma {:induction false} PowerGrows(b: nat, c: nat, k: nat)
    requires b <= c
    ensures Power(b, k) <= Power(c, k)
  {
    if k > 0 {
      PowerGrows(b, c, k - 1);
      ProductGrows(b, c, Power(b, k - 1), Power(c, k - 1));
    }
  }

  lemma ProductGrows(b: nat, c: nat, x: nat, y: nat)
    requires b <= c && x <= y
    ensures b * x <= c * y
  {
    assert b * x <= c * x <= c * y;
  }

  /** From base 3 on, a 64-bit number has at most 41 digits. */
  lemma DigitsFit(n: nat, base: nat, upper: bool)
    requires n < WORD64 && 3 <= base <= 16
    ensures |Digits(n, base, upper)| <= 41
  {
    assert Power(3, 41) > WORD64 by {
      assert Power(3, 10) == 59049;
      assert Power(3, 20) == 59049 * 59049;
      assert Power(3, 30) == 59049 * 59049 * 59049;
      assert Power(3, 40) == 59049 * 59049 * 59049 * 59049;
    }
    PowerGrows(3, base, 41);
    DigitCount(n, base, upper, 41);
  }

  // ---------- reading a numeral ----------

  /** How many digits a string starts with. */
  function RunLength(s: string, base: nat): (k: nat)
    ensures k <= |s| && AllDigits(s[..k], base) && (k < |s| ==> !IsDigit(s[k], base))
  {
    if s == [] || !IsDigit(s[0], base) then 0
    else
      var k := RunLength(s[1..], base);
      assert s[..k+1] == [s[0]] + s[1..][..k];
      k + 1
  }

  /** What the parser takes of a string: the value modulo 2^64, and how many characters. */
  datatype Parsed = Parsed(value: nat, used: nat)

  function SkippedPrefix(s: string): nat {
    if s != [] && s[0] == '0' then
      if |s| > 1 && (s[1] == 'x' || s[1] == 'X') then 2 else 1
    else 0
  }

  function BaseByPrefix(s: string): nat {
    match SkippedPrefix(s)
    case 0 => 10
    case 1 => 8
    case _ => 16
  }

  function ParseNumber(s: string, base: nat): (r: Parsed)
    ensures r.used <= |s| && r.value < WORD64
  {
    var skip := if base == 0 then SkippedPrefix(s) else 0;
    var b := if base == 0 then BaseByPrefix(s) else base;
    var k := RunLength(s[skip..], b);
    Parsed(ValueOf(s[skip..skip+k], b) % WORD64, skip + k)
  }

  lemma {:induction false} RunLengthIs(a: string, b: string, base: nat)
    requires AllDigits(a, base) && (b != [] ==> !IsDigit(b[0], base))
    ensures RunLength(a + b, base) == |a|
  {
    if a == [] {
      assert a + b == b;
    } else {
      assert (a + b)[1..] == a[1..] + b;
      RunLengthIs(a[1..], b, base);
    }
  }

  function Repeat(c: char, n: nat): (s: string)
    ensures |s| == n && forall k | 0 <= k < n :: s[k] == c
  {
    if n == 0 then [] else Repeat(c, n - 1) + [c]
  }

  /** Leading zeros do not matter. */
  lemma {:induction false} LeadingZeros(k: nat, s: string, base: nat)
    ensures ValueOf(Repeat('0', k) + s, base) == ValueOf(s, base)
    decreases |s|, k
  {
    var t := Repeat('0', k) + s;
    if s != [] {
      assert t[..|t|-1] == Repeat('0', k) + s[..|s|-1];
      LeadingZeros(k, s[..|s|-1], base);
    } else if k > 0 {
      assert t[..|t|-1] == Repeat('0', k - 1) + s;
      LeadingZeros(k - 1, s, base);
    }
  }

  /** A numeral with leading zeros, and what follows it. */
  lemma ParseBare(n: nat, base: nat, upper: bool, zeros: nat, rest: string)
    requires 2 <= base <= 16 && (rest != [] ==> !IsDigit(rest[0], base))
    ensures var num := Repeat('0', zeros) + Digits(n, base, upper);
            && AllDigits(num, base) && RunLength(num + rest, base) == |num| && ValueOf(num, base) == n
            && ParseNumber(num + rest, base) == Parsed(n % WORD64, |num|)
  {
    var num := Repeat('0', zeros) + Digits(n, base, upper);
    DigitsAreRight(n, base, upper);
    RunLengthIs(num, rest, base);
    LeadingZeros(zeros, Digits(n, base, upper), base);
    assert (num + rest)[0..] == num + rest && (num + rest)[0..|num|] == num;
  }

  /** With base 0 the prefix selects the base for what follows it. */
  lemma ParseBehind(prefix: string, t: string)
    requires SkippedPrefix(prefix + t) == |prefix|
    ensures var r := ParseNumber(t, BaseByPrefix(prefix + t));
            ParseNumber(prefix + t, 0) == Parsed(r.value, |prefix| + r.used)
  {
    var s, b := prefix + t, BaseByPrefix(prefix + t);
    var k := RunLength(t, b);
    assert s[|prefix|..] == t && t[0..] == t;
    assert s[|prefix|..|prefix|+k] == t[0..0+k];
  }

  /** With base 0, `0x` and `0X` select base 16, another `0` base 8, and anything else is decimal. */
  lemma PrefixTellsBase(t: string)
    ensures var hex, octal := ParseNumber(t, 16), ParseNumber(t, 8);
            && ParseNumber("0x" + t, 0) == ParseNumber("0X" + t, 0) == Parsed(hex.value, 2 + hex.used)
            && (t == [] || t[0] !in "xX" ==> ParseNumber("0" + t, 0) == Parsed(octal.value, 1 + octal.used))
            && (t == [] || t[0] != '0' ==> ParseNumber(t, 0) == ParseNumber(t, 10))
  {
    hide ParseNumber;
    PrefixesAre(t);
    hide SkippedPrefix, BaseByPrefix;
    ParseBehind("0x", t);
    ParseBehind("0X", t);
    if t == [] || t[0] !in "xX" { ParseBehind("0", t); }
    if t == [] || t[0] != '0' {
      assert t[0..] == t;
      ParseBehind("", t);
      assert "" + t == t;
    }
  }

  lemma PrefixesAre(t: string)
    ensures SkippedPrefix("0x" + t) == SkippedPrefix("0X" + t) == 2
    ensures BaseByPrefix("0x" + t) == BaseByPrefix("0X" + t) == 16
    ensures t == [] || t[0] !in "xX" ==> SkippedPrefix("0" + t) == 1 && BaseByPrefix("0" + t) == 8
    ensures t == [] || t[0] != '0' ==> SkippedPrefix("" + t) == 0 && BaseByPrefix("" + t) == 10
  {
    var x, capital, zero := "0x" + t, "0X" + t, "0" + t;
    assert x[0] == '0' && x[1] == 'x' && capital[0] == '0' && capital[1] == 'X' && zero[0] == '0';
    assert t != [] ==> zero[1] == t[0];
    assert "" + t == t;
  }

  /** What `#` puts in front of the digits. */
  function Prefix(base: nat): string {
    if base == 16 then "0x" else if base == 8 then "0" else ""
  }

  /** A numeral behind the prefix that tells its base. */
  lemma ParsePrefixed(n: nat, base: nat, upper: bool, zeros: nat, rest: string)
    requires (base == 8 || base == 16) && (rest != [] ==> !IsDigit(rest[0], base))
    ensures var num := Repeat('0', zeros) + Digits(n, base, upper);
            ParseNumber(Prefix(base) + (num + rest), 0) == Parsed(n % WORD64, |Prefix(base)| + |num|)
  {
    var num := Repeat('0', zeros) + Digits(n, base, upper);
    ParseBare(n, base, upper, zeros, rest);
    PrefixSkipped(base, num, rest);
    ParseBehind(Prefix(base), num + rest);
  }

  lemma PrefixSkipped(base: nat, num: string, rest: string)
    requires (base == 8 || base == 16) && num != [] && AllDigits(num, base)
    ensures var s := Prefix(base) + (num + rest);
            SkippedPrefix(s) == |Prefix(base)| && BaseByPrefix(s) == base
  {
    var s := Prefix(base) + (num + rest);
    assert s[|Prefix(base)|] == num[0] && IsDigit(num[0], base);
  }
}
