// Strings as streams, and numbers written to and read from them (src/mock_libc/fmt.c).
module NumberIO {
  import opened Common
  import opened Numerals
  import Powers

  const NUL: char := '\0'

  /** A bounded buffer as the target of writes. */
  class Writer {
    const str: array<char>
    const size: nat
    var offs: nat
    var supposedoffs: nat
    /** All that was written so far, whether or not it fitted. */
    ghost var all: string
    ghost var touched: bool
    /** The buffer at the start. */
    ghost const before: string

    /** The buffer holds the longest prefix that leaves room for a terminator, and the terminator. */
    ghost predicate Valid()
      reads this, str
    {
      && size <= str.Length && supposedoffs == |all| % WORD32
      && offs == (if size == 0 then 0 else Min(|all|, size - 1))
      && (size > 0 ==> str[..offs] == all[..offs])
      && (size > 0 && touched ==> str[offs] == NUL)
      && (!touched ==> all == [])
      && |before| == str.Length
      && forall k | 0 <= k < str.Length && (size == 0 || !touched || offs < k) :: str[k] == before[k]
    }

    constructor (str: array<char>, size: nat)
      requires size <= str.Length
      ensures Valid() && all == [] && !touched && this.str == str && this.size == size && before == str[..]
    {
      this.str, this.size, before := str, size, str[..];
      offs, supposedoffs := 0, 0;
      all, touched := [], false;
    }

    /** Copy what fits. */
    method Write(data: string) returns (written: nat)
      requires Valid()
      modifies this, str
      ensures Valid() && touched && all == old(all) + data
      ensures written == offs - old(offs)
    {
      SumMod(|all|, |data|, WORD32);
      supposedoffs := (supposedoffs + |data|) % WORD32;
      written := 0;
      ghost var all0, offs0 := all, offs;
      all, touched := all + data, true;
      assert size > 0 ==> all[..offs] == all0[..offs];
      if size == 0 {
        return;
      }
      while written < |data| && offs < size - 1
        invariant written <= |data| && offs == offs0 + written <= size - 1
        invariant written > 0 ==> offs0 == |all0|
        invariant str[..offs] == all[..offs]
        invariant forall k | offs < k < str.Length :: str[k] == old(str[k])
        modifies this`offs, str
      {
        str[offs] := data[written];
        assert all[offs] == data[written];
        offs := offs + 1;
        written := written + 1;
      }
      str[offs] := NUL;
    }

    method Tell() returns (at: nat)
      ensures at == offs
    {
      at := offs;
    }
  }

  lemma SumMod(a: nat, b: nat, m: nat)
    requires m > 0
    ensures (a % m + b) % m == (a + b) % m
  {
    Congruent(a % m + b, a / m, m);
    assert a % m + b + a / m * m == a + b;
  }

  lemma Congruent(x: nat, k: nat, m: nat)
    requires m > 0
    ensures (x + k * m) % m == x % m
  {
    Collect(x / m, k, m, x % m);
    Powers.QuotientUnique(x + k * m, m, x / m + k, x % m);
  }

  lemma Collect(q: nat, k: nat, m: nat, r: nat)
    ensures q * m + r + k * m == (q + k) * m + r
  {
  }

  // ---------- printing ----------

  /** The digits are filled in from the end of a buffer of 64, behind a terminator. */
  method StringifyULL(s: Writer, n: nat, base: nat, upper: bool)
    requires s.Valid() && n < WORD64 && 2 <= base <= 16 && |Digits(n, base, upper)| <= 62
    modifies s, s.str
    ensures s.Valid() && s.touched && s.all == old(s.all) + Digits(n, base, upper)
  {
    var buf := new char[64](_ => NUL);
    var ptr := FillDigits(buf, n, base, upper);
    var _ := s.Write(buf[ptr..ptr + (63 - ptr - 1)]);
  }

  method FillDigits(buf: array<char>, n: nat, base: nat, upper: bool) returns (ptr: nat)
    requires buf.Length == 64 && 2 <= base <= 16 && |Digits(n, base, upper)| <= 62
    modifies buf
    ensures ptr <= 62 && buf[ptr..62] == Digits(n, base, upper)
  {
    ZeroDigits(base, upper);
    hide Digits;
    ptr := 63;
    ptr := ptr - 1;
    buf[ptr] := NUL;
    if n == 0 {
      ptr := ptr - 1;
      buf[ptr] := '0';
    }
    var m: int := n;
    assert buf[ptr..62] == if n == 0 then "0" else "";
    assert Remaining(m, base, upper) + buf[ptr..62] == Digits(n, base, upper);
    hide Remaining;
    while m != 0
      invariant 0 <= m && ptr <= 62 && Remaining(m, base, upper) + buf[ptr..62] == Digits(n, base, upper)
      decreases m
    {
      ghost var behind := buf[ptr..62];
      ptr := ptr - 1;
      buf[ptr], m := LastDigit(m, base, upper);
      assert buf[ptr..62] == [buf[ptr]] + behind;
      Regrouped(Remaining(m, base, upper), buf[ptr], behind);
    }
  }

  lemma Regrouped(s: string, c: char, t: string)
    ensures (s + [c]) + t == s + ([c] + t)
  {
  }

  /** The digits of what is left of a number; nothing is left of 0. */
  function Remaining(m: nat, base: nat, upper: bool): (r: string)
    requires 2 <= base <= 16
    ensures m == 0 <==> r == ""
  {
    if m == 0 then "" else Digits(m, base, upper)
  }

  /** The last digit of a number and the number without it. */
  method LastDigit(m: nat, base: nat, upper: bool) returns (c: char, rest: nat)
    requires 2 <= base <= 16 && m > 0
    ensures rest < m && Digits(m, base, upper) == Remaining(rest, base, upper) + [c]
  {
    DigitsStep(m, base, upper);
    c, rest := DigitChar(m % base, upper), m / base;
  }

  lemma ZeroDigits(base: nat, upper: bool)
    requires 2 <= base <= 16
    ensures Digits(0, base, upper) == "0"
  {
  }

  /** Taking the last digit off. */
  lemma DigitsStep(m: nat, base: nat, upper: bool)
    requires 2 <= base <= 16 && m > 0
    ensures var d := Digits(m, base, upper);
            && d[|d|-1] == DigitChar(m % base, upper) && m / base < m
            && (m / base == 0 <==> |d| == 1)
            && (m / base != 0 ==> d[..|d|-1] == Digits(m / base, base, upper))
  {
    if m < base {
      SmallMod(m, base);
      Powers.QuotientZero(m, base);
    } else {
      Fewer(m, base);
    }
  }

  /** The negative of an unsigned number, modulo 2^64. */
  function Negate(n: nat): nat
    requires n < WORD64
  {
    if n == 0 then 0 else WORD64 - n
  }

  function SignOf(n: int, sign: bool, padsign: bool): string {
    if n < 0 then "-" else if sign then "+" else if padsign then " " else ""
  }

  /** A signed number as it is printed. */
  function SignedDigits(n: int, base: nat, upper: bool, sign: bool, padsign: bool): string
    requires 2 <= base <= 16
  {
    SignOf(n, sign, padsign) + Digits(Magnitude(n), base, upper)
  }

  /** The least number is its own negative; as an unsigned one it is its magnitude. */
  method StringifyLL(s: Writer, n: int, base: nat, upper: bool, sign: bool, padsign: bool)
    requires s.Valid() && -HALF64 <= n < HALF64 && 2 <= base <= 16 && |Digits(Magnitude(n), base, upper)| <= 62
    modifies s, s.str
    ensures s.Valid() && s.touched && s.all == old(s.all) + SignedDigits(n, base, upper, sign, padsign)
  {
    var sign' := sign;
    if n < 0 {
      sign' := true;
    }
    if sign' {
      var _ := s.Write(if n < 0 then "-" else "+");
    } else if padsign {
      var _ := s.Write(if n < 0 then "-" else " ");
    }
    assert s.all == old(s.all) + SignOf(n, sign, padsign);
    hide Digits, SignOf;
    var m := if n >= 0 then n else if n == -HALF64 then n + WORD64 else -n;
    StringifyULL(s, m, base, upper);
  }

  /** Which unsigned numbers fit the digit buffer. */
  lemma DigitBufferHolds(n: nat, base: nat, upper: bool)
    requires n < WORD64 && 2 <= base <= 16
    ensures |Digits(n, base, upper)| <= 62 <==> base > 2 || n < 0x4000_0000_0000_0000
  {
    if base > 2 {
      DigitsFit(n, base, upper);
    } else {
      assert Power(2, 62) == 0x4000_0000_0000_0000 by {
        assert Power(2, 10) == 1024;
        assert Power(2, 20) == 1024 * 1024;
        assert Power(2, 30) == 1024 * 1024 * 1024;
        assert Power(2, 40) == 1024 * 1024 * 1024 * 1024;
        assert Power(2, 50) == 1024 * 1024 * 1024 * 1024 * 1024;
      }
      DigitCount(n, 2, upper, 62);
    }
  }

  // ---------- reading ----------

  /** A string that is read; it has no terminator inside. */
  class Reader {
    const str: string
    var offs: nat

    ghost predicate Valid()
      reads this
    {
      offs <= |str| && NUL !in str
    }

    function Rest(): string
      requires Valid()
      reads this
    {
      str[offs..]
    }

    constructor (str: string)
      requires NUL !in str
      ensures Valid() && this.str == str && offs == 0
    {
      this.str, offs := str, 0;
    }

    method Peek(dest: array<char>, size: nat) returns (written: nat)
      requires Valid() && size <= dest.Length
      modifies dest
      ensures written == Min(size, |Rest()|)
      ensures dest[..written] == Rest()[..written]
      ensures forall k | written <= k < dest.Length :: dest[k] == old(dest[k])
    {
      written := 0;
      while written < size && offs + written < |str|
        invariant written <= size && offs + written <= |str|
        invariant dest[..written] == str[offs..offs+written]
        invariant forall k | written <= k < dest.Length :: dest[k] == old(dest[k])
      {
        dest[written] := str[offs + written];
        written := written + 1;
      }
      assert str[offs..offs+written] == Rest()[..written];
    }

    method Read(dest: array<char>, size: nat) returns (written: nat)
      requires Valid() && size <= dest.Length
      modifies this`offs, dest
      ensures Valid() && written == Min(size, |old(Rest())|) && offs == old(offs) + written
      ensures dest[..written] == old(Rest())[..written]
    {
      written := 0;
      while written < size && offs < |str|
        invariant written <= size && offs == old(offs) + written <= |str|
        invariant dest[..written] == str[old(offs)..offs]
      {
        dest[written] := str[offs];
        offs := offs + 1;
        written := written + 1;
      }
      assert old(Rest())[..written] == str[old(offs)..offs];
    }
  }

  function Spaces(s: string): (k: nat)
    ensures k <= |s| && (forall j | 0 <= j < k :: s[j] == ' ') && (k < |s| ==> s[k] != ' ')
  {
    if s == [] || s[0] != ' ' then 0 else 1 + Spaces(s[1..])
  }

  method SkipSpaces(s: Reader)
    requires s.Valid()
    modifies s`offs
    ensures s.Valid() && s.offs == old(s.offs) + Spaces(old(s.Rest()))
  {
    var ch := new char[1](_ => NUL);
    var got := s.Peek(ch, 1);
    while got > 0 && ch[0] == ' '
      invariant s.Valid() && got == Min(1, |s.Rest()|) && (got > 0 ==> ch[0] == s.Rest()[0])
      invariant s.offs + Spaces(s.Rest()) == old(s.offs) + Spaces(old(s.Rest()))
      decreases |s.str| - s.offs
    {
      assert s.Rest()[1..] == s.str[s.offs+1..];
      var _ := s.Read(ch, 1);
      got := s.Peek(ch, 1);
      assert got > 0 ==> ch[..1][0] == s.Rest()[..1][0];
    }
  }

  lemma HornerMod(x: nat, base: nat, d: nat)
    ensures (x % WORD64 * base + d) % WORD64 == (x * base + d) % WORD64
  {
    var q, r := x / WORD64, x % WORD64;
    assert x == q * WORD64 + r;
    Distribute(q, WORD64, r, base);
    Congruent(r * base + d, q * base, WORD64);
  }

  lemma Distribute(q: nat, w: nat, r: nat, base: nat)
    ensures (q * w + r) * base == q * base * w + r * base
  {
  }

  lemma InRun(t: string, k: nat, base: nat)
    requires k <= RunLength(t, base) && k < |t|
    ensures IsDigit(t[k], base) <==> k < RunLength(t, base)
  {
    var run := t[..RunLength(t, base)];
    assert k < |run| ==> IsDigit(run[k], base);
  }

  lemma NoDigits(base: nat)
    ensures ValueOf([], base) == 0
  {
  }

  lemma OneDigitMore(t: string, k: nat, base: nat)
    requires k < |t|
    ensures ValueOf(t[..k+1], base) == ValueOf(t[..k], base) * base + DigitValue(t[k])
  {
    assert t[..k+1][..k] == t[..k];
  }

  /** The loop over the digits in the buffer. */
  method TakeDigits(buf: array<char>, start: nat, base: nat, ghost t: string) returns (n: nat, nptr: nat)
    requires buf.Length == 64 && NUL !in t && start + RunLength(t, base) < 64
    requires forall k | start <= k < 64 :: buf[k] == if k - start < |t| then t[k - start] else NUL
    ensures nptr == start + RunLength(t, base) && n == ValueOf(t[..nptr-start], base) % WORD64
  {
    hide ValueOf, AllDigits;
    nptr := start;
    n := 0;
    NoDigits(base);
    while buf[nptr] != NUL
      invariant start <= nptr <= start + RunLength(t, base) && n == ValueOf(t[..nptr-start], base) % WORD64
      decreases start + RunLength(t, base) - nptr
    {
      ghost var k := nptr - start;
      InRun(t, k, base);
      if buf[nptr] == '0' || (DigitValue(buf[nptr]) != 0 && DigitValue(buf[nptr]) < base) {
        assert k < |t| && t[k] == buf[nptr] && IsDigit(t[k], base);
        OneDigitMore(t, k, base);
        HornerMod(ValueOf(t[..k], base), base, DigitValue(t[k]));
        n := (n * base + DigitValue(buf[nptr])) % WORD64;
      } else {
        break;
      }
      nptr := nptr + 1;
    }
  }

  /** Read a number. The parser looks at 64 characters; it needs the numeral to end before. */
  method ParseNum(s: Reader, base: nat) returns (n: nat)
    requires s.Valid() && (base == 0 || 2 <= base <= 16)
    requires ParseNumber(s.Rest(), base).used < 64
    modifies s`offs
    ensures s.Valid() && n < WORD64 && n == ParseNumber(old(s.Rest()), base).value
    ensures s.offs == old(s.offs) + ParseNumber(old(s.Rest()), base).used
  {
    hide ValueOf, AllDigits, IsDigit, RunLength, SkippedPrefix, BaseByPrefix;
    ghost var rest := s.Rest();
    var buf := new char[64](_ => NUL);
    var got := s.Peek(buf, 64);
    assert forall k | 0 <= k < 64 :: buf[k] == if k < |rest| then rest[k] else NUL by {
      assert forall k | 0 <= k < got :: buf[..got][k] == rest[..got][k];
    }
    var b, nptr := DetectBase(buf, base, rest);
    ghost var skip := nptr;
    n, nptr := TakeDigits(buf, nptr, b, rest[skip..]);
    assert rest[skip..nptr] == rest[skip..][..nptr-skip];
    var _ := s.Read(buf, nptr);
  }

  method DetectBase(buf: array<char>, base: nat, ghost rest: string) returns (b: nat, nptr: nat)
    requires buf.Length == 64 && NUL !in rest && forall k | 0 <= k < 64 :: buf[k] == if k < |rest| then rest[k] else NUL
    ensures nptr == if base == 0 then SkippedPrefix(rest) else 0
    ensures b == if base == 0 then BaseByPrefix(rest) else base
  {
    b, nptr := base, 0;
    if base == 0 {
      if buf[0] == '0' {
        if buf[1] == 'x' || buf[1] == 'X' {
          b := 16;
          nptr := 2;
        } else {
          b := 8;
          nptr := 1;
        }
      } else {
        b := 10;
      }
    }
  }

  /** Unsigned numbers: spaces and one plus sign are skipped. */
  function ParseUnsigned(s: string, base: nat): (r: Parsed)
    ensures r.used <= |s|
  {
    var t := s[Spaces(s)..];
    var plus := if t != [] && t[0] == '+' then 1 else 0;
    var r := ParseNumber(t[plus..], base);
    Parsed(r.value, Spaces(s) + plus + r.used)
  }

  /** Signed numbers: a minus sign negates, modulo 2^64. */
  function ParseSigned(s: string, base: nat): (r: (int, nat))
    ensures r.1 <= |s|
  {
    var r := ParseUnspaced(s[Spaces(s)..], base);
    (r.0, Spaces(s) + r.1)
  }

  function ParseUnspaced(t: string, base: nat): (r: (int, nat))
    ensures r.1 <= |t|
  {
    if t != [] && t[0] == '-' then
      var r := ParseNumber(t[1..], base);
      (Signed(Negate(r.value)), 1 + r.used)
    else
      var plus := if t != [] && t[0] == '+' then 1 else 0;
      var r := ParseNumber(t[plus..], base);
      (Signed(r.value), plus + r.used)
  }

  /** A peek at one character. */
  method Next(s: Reader) returns (ch: char)
    requires s.Valid()
    ensures |s.Rest()| > 0 ==> ch == s.Rest()[0]
    ensures |s.Rest()| == 0 ==> ch == NUL
  {
    var buf := new char[1](_ => NUL);
    var got := s.Peek(buf, 1);
    assert got > 0 ==> buf[..1][0] == s.Rest()[..1][0];
    ch := buf[0];
  }

  method Drop(s: Reader)
    requires s.Valid() && |s.Rest()| > 0
    modifies s`offs
    ensures s.Valid() && s.offs == old(s.offs) + 1
  {
    var buf := new char[1](_ => NUL);
    var _ := s.Read(buf, 1);
  }

  method ParseULL(s: Reader, base: nat) returns (n: nat)
    requires s.Valid() && (base == 0 || 2 <= base <= 16) && ParseUnsigned(s.Rest(), base).used - Spaces(s.Rest()) < 64
    modifies s`offs
    ensures s.Valid() && n == ParseUnsigned(old(s.Rest()), base).value
    ensures s.offs == old(s.offs) + ParseUnsigned(old(s.Rest()), base).used
  {
    hide ParseNumber, Spaces;
    ghost var s0 := s.Rest();
    ghost var t := s0[Spaces(s0)..];
    SkipSpaces(s);
    assert s.Rest() == t;
    var ch := Next(s);
    if ch == '+' {
      Drop(s);
      assert s.Rest() == t[1..];
    }
    assert t[0..] == t;
    n := ParseNum(s, base);
  }

  method ParseLL(s: Reader, base: nat) returns (n: int)
    requires s.Valid() && (base == 0 || 2 <= base <= 16) && ParseSigned(s.Rest(), base).1 - Spaces(s.Rest()) < 64
    modifies s`offs
    ensures s.Valid() && n == ParseSigned(old(s.Rest()), base).0
    ensures s.offs == old(s.offs) + ParseSigned(old(s.Rest()), base).1
  {
    hide ParseNumber, Spaces;
    ghost var s0 := s.Rest();
    ghost var t := s0[Spaces(s0)..];
    SkipSpaces(s);
    assert s.Rest() == t && t[0..] == t;
    var ch := Next(s);
    if ch == '-' {
      Drop(s);
      assert s.Rest() == t[1..];
      var m := ParseNum(s, base);
      return Signed(Negate(m));
    }
    if ch == '+' {
      Drop(s);
      assert s.Rest() == t[1..];
    }
    var m := ParseNum(s, base);
    n := Signed(m);
  }

  // ---------- round trips ----------

  lemma {:induction false} SpacesAre(k: nat, t: string)
    requires t == [] || t[0] != ' '
    ensures Spaces(Repeat(' ', k) + t) == k && (Repeat(' ', k) + t)[k..] == t
  {
    var s := Repeat(' ', k) + t;
    if k > 0 {
      assert s[1..] == Repeat(' ', k - 1) + t;
      SpacesAre(k - 1, t);
    }
  }

  lemma SignThenDigits(t: string, sg: string, base: nat)
    requires sg == "-" || sg == "+" || (sg == [] && t != [] && IsDigit(t[0], base))
    ensures var r := ParseNumber(t, base);
            ParseUnspaced(sg + t, base) == (Signed(if sg == "-" then Negate(r.value) else r.value), |sg| + r.used)
  {
    hide ParseNumber, Signed, Negate;
    assert (sg + t)[|sg|..] == t;
    assert sg == [] ==> sg + t == t && t[0..] == t;
  }

  /** The character in front of a signed number, if any; the rest are the digits of its magnitude. */
  lemma SignCharacter(n: int, base: nat, upper: bool, sign: bool, padsign: bool)
    requires 2 <= base <= 16
    ensures var s, d := SignedDigits(n, base, upper, sign, padsign), Digits(Magnitude(n), base, upper);
            && |s| == |d| + (if n < 0 || sign || padsign then 1 else 0) && s[|s|-|d|..] == d
            && (s[0] == '-' <==> n < 0)
            && (s[0] == '+' <==> n >= 0 && sign)
            && (s[0] == ' ' <==> n >= 0 && !sign && padsign)
  {
    var d := Digits(Magnitude(n), base, upper);
    DigitsCase(Magnitude(n), base, upper);
    hide Digits;
    var c := d[0];
    assert '0' <= c <= '9' || 'A' <= c <= 'F' || 'a' <= c <= 'f';
    var g := SignOf(n, sign, padsign);
    assert (g + d)[0] == if g == "" then c else g[0];
  }

  /** A plus sign in front of a number is skipped, by both parsers. */
  lemma PlusSkipped(t: string, base: nat)
    requires t != [] && '0' <= t[0] <= '9'
    ensures var r, q := ParseUnsigned(t, base), ParseSigned(t, base);
            ParseUnsigned("+" + t, base) == Parsed(r.value, r.used + 1) && ParseSigned("+" + t, base) == (q.0, q.1 + 1)
  {
    hide ParseNumber;
    var s := "+" + t;
    assert s[0..] == s && s[1..] == t && t[0..] == t;
  }

  /** Reading a signed number undoes printing it, whatever the sign flags: the number comes back and
      exactly its characters are taken. */
  lemma SignedRoundTrip(n: int, base: nat, upper: bool, sign: bool, padsign: bool, rest: string)
    requires -HALF64 <= n < HALF64 && 2 <= base <= 16 && (rest != [] ==> !IsDigit(rest[0], base))
    ensures var s := SignedDigits(n, base, upper, sign, padsign);
            ParseSigned(s + rest, base) == (n, |s|)
  {
    hide ParseNumber, ParseUnspaced, ParseSigned, Digits, RunLength, ValueOf, AllDigits;
    var d, sg := Digits(Magnitude(n), base, upper), SignOf(n, sign, padsign);
    ParseDigits(Magnitude(n), base, upper, rest);
    SignedValue(n);
    if sg == " " {
      SignThenDigits(d + rest, [], base);
      AfterSpaces(1, [], d, rest, base);
    } else {
      SignThenDigits(d + rest, sg, base);
      AfterSpaces(0, sg, d, rest, base);
    }
  }

  /** Parsing skips the spaces in front of a sign and a digit. */
  lemma AfterSpaces(k: nat, sg: string, d: string, rest: string, base: nat)
    requires k <= 1 && (k == 1 ==> sg == []) && d != [] && d[0] != ' ' && (sg == [] || sg[0] != ' ')
    ensures var r := ParseUnspaced(sg + (d + rest), base);
            ParseSigned((if k == 1 then " " else sg) + d + rest, base) == (r.0, k + r.1)
  {
    hide ParseUnspaced;
    var t := sg + (d + rest);
    assert (if k == 1 then " " else sg) + d + rest == Repeat(' ', k) + t;
    SpacesAre(k, t);
  }

  lemma ParseDigits(n: nat, base: nat, upper: bool, rest: string)
    requires 2 <= base <= 16 && (rest != [] ==> !IsDigit(rest[0], base))
    ensures var d := Digits(n, base, upper);
            && IsDigit(d[0], base) && d[0] != ' '
            && ParseNumber(d + rest, base) == Parsed(n % WORD64, |d|)
  {
    ParseBare(n, base, upper, 0, rest);
    DigitsAreRight(n, base, upper);
    assert Repeat('0', 0) + Digits(n, base, upper) == Digits(n, base, upper);
  }

  lemma SignedValue(n: int)
    requires -HALF64 <= n < HALF64
    ensures Magnitude(n) % WORD64 == Magnitude(n)
    ensures Signed(if n < 0 then Negate(Magnitude(n)) else Magnitude(n)) == n
  {
  }
}
