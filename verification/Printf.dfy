// Formatted output: the layout of a conversion under flags, width and precision, and a bounded
// buffer as its target (src/mock_libc/fmt.c, src/mock_libc/mock_libc.c).
module Printf {
  import opened Common
  import opened Numerals
  import opened NumberIO
  import Powers

  datatype Flags = Flags(left: bool, forcesign: bool, padsign: bool, decorated: bool, padzero: bool)

  /** A directive with the arguments fetched. The precision is -1 if there is none. */
  datatype Piece =
    | Literal(c: char)
    | Percent(flags: Flags, width: int)
    | Character(c: char, flags: Flags, width: int)
    | Text(str: string, flags: Flags, width: int, precision: int)
    | UnsignedNumber(n: nat, base: nat, upper: bool, flags: Flags, width: int, precision: int)
    | SignedNumber(ll: int, flags: Flags, width: int, precision: int)

  predicate Printable(p: Piece) {
    match p
    case Text(_, _, _, precision) => precision >= -1
    case UnsignedNumber(n, base, _, _, _, _) => n < WORD64 && (base == 8 || base == 10 || base == 16)
    case SignedNumber(ll, _, _, _) => -HALF64 <= ll < HALF64
    case _ => true
  }

  function Count(n: int): nat {
    if n < 0 then 0 else n
  }

  // ---------- layout of numbers ----------

  /** The zeros that the precision asks for. */
  function PrecisionZeros(num: string, precision: int): nat {
    if precision > 0 then Count(precision - |num|) else 0
  }

  function Decoration(base: nat, flags: Flags): string {
    if flags.decorated then Prefix(base) else ""
  }

  /** What fills the field if the number is shorter than it. On the right the precision is counted
      even where it is smaller than the number of digits. */
  function Filling(num: string, base: nat, flags: Flags, width: int, precision: int): nat {
    var room := width - |num| - |Decoration(base, flags)|;
    if |num| >= width then 0
    else if flags.left then Count(room - PrecisionZeros(num, precision))
    else Count(room - (if precision > 0 then precision - |num| else 0))
  }

  function Lead(num: string, base: nat, flags: Flags, width: int, precision: int): nat {
    if flags.left || flags.padzero then 0 else Filling(num, base, flags, width, precision)
  }

  function Zeros(num: string, base: nat, flags: Flags, width: int, precision: int): nat {
    PrecisionZeros(num, precision) +
    if flags.left || !flags.padzero then 0 else Filling(num, base, flags, width, precision)
  }

  function Trail(num: string, base: nat, flags: Flags, width: int, precision: int): nat {
    if flags.left then Filling(num, base, flags, width, precision) else 0
  }

  /** Spaces, prefix, zeros, number, spaces. */
  function Field(num: string, base: nat, flags: Flags, width: int, precision: int): string {
    Repeat(' ', Lead(num, base, flags, width, precision)) + Decoration(base, flags) +
    Repeat('0', Zeros(num, base, flags, width, precision)) + num +
    Repeat(' ', Trail(num, base, flags, width, precision))
  }

  /** The length of a field is the width or what the number needs, whichever is greater, with one
      exception: on the right, a precision below the number of digits makes it longer. */
  lemma FieldLength(num: string, base: nat, flags: Flags, width: int, precision: int)
    requires num != []
    ensures var p := |Decoration(base, flags)|;
            |Field(num, base, flags, width, precision)| == Max(width, p + Max(precision, |num|)) <==>
            flags.left || width <= |num| || precision <= 0 || precision >= |num| || width <= p + precision
  {
  }

  /** The field in the exceptional case. */
  lemma OverlongField(num: string, base: nat, flags: Flags, width: int, precision: int)
    requires !flags.left && 0 < precision < |num| < width && |Decoration(base, flags)| + precision < width
    ensures |Field(num, base, flags, width, precision)| == width + (|num| - precision)
  {
  }

  /** Every place of a field. On the left: prefix, zeros, number, spaces. On the right the number is at
      the end: with zero padding behind the prefix and zeros, without it behind spaces, prefix and the
      zeros of the precision. */
  lemma FieldPlaces(num: string, base: nat, flags: Flags, width: int, precision: int)
    ensures var f := Field(num, base, flags, width, precision);
            var dec := if flags.decorated && base == 16 then "0x" else if flags.decorated && base == 8 then "0" else "";
            var zeros := if precision > |num| then precision - |num| else 0;
            var d, n := |dec|, |num|;
            && d + zeros + n <= |f|
            && (flags.left ==>
                  && f[..d] == dec && f[d+zeros..d+zeros+n] == num
                  && (forall k | d <= k < d + zeros :: f[k] == '0')
                  && (forall k | d + zeros + n <= k < |f| :: f[k] == ' '))
            && (!flags.left ==> f[|f|-n..] == num)
            && (!flags.left && flags.padzero ==> f[..d] == dec && forall k | d <= k < |f| - n :: f[k] == '0')
            && (!flags.left && !flags.padzero ==>
                  && f[|f|-n-zeros-d..|f|-n-zeros] == dec
                  && (forall k | |f| - n - zeros <= k < |f| - n :: f[k] == '0')
                  && (forall k | 0 <= k < |f| - n - zeros - d :: f[k] == ' '))
  {
    hide Repeat, Filling;
    var lead, z := Lead(num, base, flags, width, precision), Zeros(num, base, flags, width, precision);
    var trail := Trail(num, base, flags, width, precision);
    Places(Repeat(' ', lead), Decoration(base, flags), Repeat('0', z), num, Repeat(' ', trail));
  }

  lemma Places(a: string, b: string, c: string, d: string, e: string)
    ensures var f := a + b + c + d + e;
            && |f| == |a| + |b| + |c| + |d| + |e|
            && (forall k | 0 <= k < |a| :: f[k] == a[k])
            && f[|a|..|a|+|b|] == b
            && (forall k | 0 <= k < |c| :: f[|a|+|b|+k] == c[k])
            && f[|a|+|b|+|c|..|a|+|b|+|c|+|d|] == d
            && (forall k | 0 <= k < |e| :: f[|a|+|b|+|c|+|d|+k] == e[k])
  {
  }

  /** Write a character some times. */
  method Pad(s: Writer, c: char, count: int)
    requires s.Valid()
    modifies s, s.str
    ensures s.Valid() && s.all == old(s.all) + Repeat(c, Count(count)) && (old(s.touched) ==> s.touched)
  {
    var i := 0;
    assert old(s.all) + Repeat(c, 0) == old(s.all);
    while i < count
      invariant 0 <= i <= Count(count) && s.Valid() && s.all == old(s.all) + Repeat(c, i)
      invariant old(s.touched) ==> s.touched
    {
      var _ := s.Write([c]);
      i := i + 1;
      assert old(s.all) + Repeat(c, i - 1) + [c] == old(s.all) + Repeat(c, i);
    }
  }

  method WritePrefix(s: Writer, base: nat)
    requires s.Valid()
    modifies s, s.str
    ensures s.Valid() && s.all == old(s.all) + Prefix(base)
  {
    if base == 16 {
      var _ := s.Write("0x");
    } else if base == 8 {
      var _ := s.Write("0");
    }
  }

  lemma {:induction false} RepeatSum(c: char, m: nat, n: nat)
    ensures Repeat(c, m) + Repeat(c, n) == Repeat(c, m + n)
  {
    if n == 0 {
      assert Repeat(c, m) + Repeat(c, 0) == Repeat(c, m);
    } else {
      RepeatSum(c, m, n - 1);
      assert Repeat(c, m) + (Repeat(c, n - 1) + [c]) == Repeat(c, m) + Repeat(c, n - 1) + [c];
    }
  }

  method WriteDecoration(s: Writer, base: nat, flags: Flags)
    requires s.Valid()
    modifies s, s.str
    ensures s.Valid() && s.all == old(s.all) + Decoration(base, flags)
  {
    if flags.decorated {
      WritePrefix(s, base);
    }
  }

  method WritePrecision(s: Writer, numlen: nat, precision: int, ghost num: string)
    requires s.Valid() && numlen == |num|
    modifies s, s.str
    ensures s.Valid() && s.all == old(s.all) + Repeat('0', PrecisionZeros(num, precision))
  {
    if precision > 0 {
      Pad(s, '0', precision - numlen);
    }
  }

  /** Print a number that has been turned into digits. */
  method PrintNumber(s: Writer, numbuf: string, base: nat, flags: Flags, width: int, precision: int)
    requires s.Valid()
    modifies s, s.str
    ensures s.Valid() && s.touched && s.all == old(s.all) + Field(numbuf, base, flags, width, precision)
  {
    hide Repeat, Prefix, Field;
    ghost var o := s.all;
    var numlen := |numbuf|;
    var padding := width - numlen;
    FieldBranches(o, numbuf, base, flags, width, precision);
    if numlen < width {
      if flags.left {
        WriteDecoration(s, base, flags);
        padding := padding - DecorationLength(base, flags);
        WritePrecision(s, numlen, precision, numbuf);
        padding := padding - PrecisionZeros(numbuf, precision);
        var _ := s.Write(numbuf);
        Pad(s, ' ', padding);
      } else {
        if flags.padzero {
          WriteDecoration(s, base, flags);
        }
        padding := padding - DecorationLength(base, flags);
        if precision > 0 {
          padding := padding - (precision - numlen);
        }
        Pad(s, if flags.padzero then '0' else ' ', padding);
        if !flags.padzero {
          WriteDecoration(s, base, flags);
        }
        WritePrecision(s, numlen, precision, numbuf);
        var _ := s.Write(numbuf);
      }
    } else {
      WriteDecoration(s, base, flags);
      WritePrecision(s, numlen, precision, numbuf);
      var _ := s.Write(numbuf);
    }
  }

  function DecorationLength(base: nat, flags: Flags): (k: nat)
    ensures k == |Decoration(base, flags)|
  {
    if !flags.decorated then 0 else if base == 16 then 2 else if base == 8 then 1 else 0
  }

  /** The field as each branch writes it, behind what was written before. */
  lemma FieldBranches(o: string, num: string, base: nat, flags: Flags, width: int, precision: int)
    ensures var dec, z := Decoration(base, flags), Repeat('0', PrecisionZeros(num, precision));
            var k := Filling(num, base, flags, width, precision);
            o + Field(num, base, flags, width, precision) ==
              if |num| >= width then o + dec + z + num
              else if flags.left then o + dec + z + num + Repeat(' ', k)
              else if flags.padzero then o + dec + Repeat('0', k) + z + num
              else o + Repeat(' ', k) + dec + z + num
  {
    hide Decoration, PrecisionZeros;
    var dec, zeros := Decoration(base, flags), PrecisionZeros(num, precision);
    var k := Filling(num, base, flags, width, precision);
    assert Repeat(' ', 0) == "" && k + zeros == zeros + k;
    RepeatSum('0', k, zeros);
    hide Repeat;
    Joined(o, Repeat(' ', k), dec, Repeat('0', zeros), num, "");
    Joined(o, "", dec, Repeat('0', zeros), num, Repeat(' ', k));
    Joined(o, "", dec + Repeat('0', k), Repeat('0', zeros), num, "");
    assert dec + Repeat('0', k) + Repeat('0', zeros) == dec + Repeat('0', zeros + k);
  }

  lemma Joined(o: string, a: string, b: string, c: string, d: string, e: string)
    ensures o + a + b + c + d + e == o + (a + b + c + d + e)
    ensures o + "" == o
  {
  }

  // ---------- round trips ----------

  /** A field and what follows it, as the parser meets it. */
  lemma FieldSplit(num: string, base: nat, flags: Flags, width: int, precision: int, rest: string)
    ensures Field(num, base, flags, width, precision) + rest ==
              Repeat(' ', Lead(num, base, flags, width, precision)) +
              (Decoration(base, flags) +
                (Repeat('0', Zeros(num, base, flags, width, precision)) + num +
                  (Repeat(' ', Trail(num, base, flags, width, precision)) + rest)))
  {
    hide Repeat, Lead, Zeros, Trail, Decoration;
  }

  lemma AfterField(trail: nat, rest: string, base: nat)
    requires rest != [] ==> !IsDigit(rest[0], base)
    ensures var tail := Repeat(' ', trail) + rest; tail != [] ==> !IsDigit(tail[0], base)
  {
  }

  /** The base to read a field back in: where `#` put a prefix, the prefix tells it. */
  function ReadBase(base: nat, flags: Flags): nat {
    if flags.decorated && base != 10 then 0 else base
  }

  lemma PrefixedNumber(n: nat, base: nat, upper: bool, flags: Flags, zeros: nat, tail: string)
    requires n < WORD64 && (base == 8 || base == 10 || base == 16) && (tail != [] ==> !IsDigit(tail[0], base))
    ensures var t := Decoration(base, flags) + (Repeat('0', zeros) + Digits(n, base, upper) + tail);
            && t != [] && t[0] != ' ' && t[0] != '+'
            && ParseNumber(t, ReadBase(base, flags)) ==
                 Parsed(n, |Decoration(base, flags)| + zeros + |Digits(n, base, upper)|)
  {
    hide ParseNumber, ValueOf, RunLength, Digits, Repeat;
    var num := Repeat('0', zeros) + Digits(n, base, upper);
    ParseBare(n, base, upper, zeros, tail);
    assert IsDigit(num[0], base);
    Powers.QuotientUnique(n, WORD64, 0, n);
    if flags.decorated && base != 10 {
      ParsePrefixed(n, base, upper, zeros, tail);
    } else {
      assert Decoration(base, flags) == "";
      assert "" + (num + tail) == num + tail;
    }
  }

  /** Reading an unsigned field undoes printing it, for any flags, width and precision: the value
      comes back, and exactly the leading spaces and the numeral are taken. */
  lemma UnsignedFieldRoundTrip(n: nat, base: nat, upper: bool, flags: Flags, width: int, precision: int, rest: string)
    requires n < WORD64 && (base == 8 || base == 10 || base == 16) && (rest != [] ==> !IsDigit(rest[0], base))
    ensures var num := Digits(n, base, upper);
            var f := Field(num, base, flags, width, precision);
            ParseUnsigned(f + rest, ReadBase(base, flags)) ==
              Parsed(n, |f| - Trail(num, base, flags, width, precision))
  {
    hide Repeat, Field, Lead, Zeros, Trail, Decoration, Digits, Spaces, ParseNumber, ReadBase, Prefix, IsDigit;
    var num := Digits(n, base, upper);
    var lead := Lead(num, base, flags, width, precision);
    var zeros := Zeros(num, base, flags, width, precision);
    var trail := Trail(num, base, flags, width, precision);
    var tail := Repeat(' ', trail) + rest;
    var t := Decoration(base, flags) + (Repeat('0', zeros) + num + tail);
    FieldParts(num, base, flags, width, precision);
    FieldSplit(num, base, flags, width, precision, rest);
    AfterField(trail, rest, base);
    PrefixedNumber(n, base, upper, flags, zeros, tail);
    SpacesAre(lead, t);
    assert t[0..] == t;
  }

  lemma FieldParts(num: string, base: nat, flags: Flags, width: int, precision: int)
    ensures |Field(num, base, flags, width, precision)| ==
              Lead(num, base, flags, width, precision) + |Decoration(base, flags)|
              + Zeros(num, base, flags, width, precision) + |num| + Trail(num, base, flags, width, precision)
  {
  }

  /** Zeros in front of a sign are all that is read. */
  lemma ZerosThenSign(zeros: nat, t: string)
    requires zeros > 0 && t != [] && !IsDigit(t[0], 10)
    ensures ParseSigned(Repeat('0', zeros) + t, 10).0 == 0
  {
    var s := Repeat('0', zeros) + t;
    RunLengthIs(Repeat('0', zeros), t, 10);
    LeadingZeros(zeros, "", 10);
    assert Repeat('0', zeros) + "" == Repeat('0', zeros) == s[0..0+zeros];
    assert s[0] == '0' && Spaces(s) == 0 && s[0..] == s;
  }

  /** Spaces in front do not change what is read. */
  lemma {:induction false} SpacesInFront(k: nat, t: string, base: nat)
    ensures ParseSigned(Repeat(' ', k) + t, base) == (ParseSigned(t, base).0, k + ParseSigned(t, base).1)
  {
    hide ParseSigned;
    if k == 0 {
      assert Repeat(' ', 0) + t == t;
    } else {
      var s := Repeat(' ', k - 1) + t;
      assert Repeat(' ', k) + t == [' '] + s;
      SpacesInFront(k - 1, t, base);
      OneSpace(s, base);
    }
  }

  lemma OneSpace(s: string, base: nat)
    ensures ParseSigned([' '] + s, base) == (ParseSigned(s, base).0, 1 + ParseSigned(s, base).1)
  {
    hide ParseUnspaced;
    var t := [' '] + s;
    assert t[1..] == s;
    assert t[Spaces(t)..] == s[Spaces(s)..];
  }

  /** A signed field reads back as its number exactly if no padding zeros stand before its sign
      character, or if the number is 0. The code puts them there where a width with the flag 0, or a
      precision, exceeds the length of sign and digits together. */
  lemma SignedFieldRoundTrip(n: int, flags: Flags, width: int, precision: int, rest: string)
    requires -HALF64 <= n < HALF64 && (rest != [] ==> !IsDigit(rest[0], 10))
    ensures var num := SignedDigits(n, 10, false, flags.forcesign, flags.padsign);
            var f := Field(num, 10, flags, width, precision);
            ParseSigned(f + rest, 10).0 == n <==>
            Zeros(num, 10, flags, width, precision) == 0 || SignOf(n, flags.forcesign, flags.padsign) == "" || n == 0
  {
    var num := SignedDigits(n, 10, false, flags.forcesign, flags.padsign);
    var lead := Lead(num, 10, flags, width, precision);
    var zeros := Zeros(num, 10, flags, width, precision);
    var trail := Trail(num, 10, flags, width, precision);
    var tail := Repeat(' ', trail) + rest;
    var t := Repeat('0', zeros) + num + tail;
    FieldSplit(num, 10, flags, width, precision, rest);
    AfterField(trail, rest, 10);
    SpacesInFront(lead, t, 10);
    ZerosThenSigned(n, flags, zeros, tail);
    assert Decoration(10, flags) + t == t;
  }

  lemma ZerosThenSigned(n: int, flags: Flags, zeros: nat, tail: string)
    requires -HALF64 <= n < HALF64 && (tail != [] ==> !IsDigit(tail[0], 10))
    ensures var num := SignedDigits(n, 10, false, flags.forcesign, flags.padsign);
            ParseSigned(Repeat('0', zeros) + num + tail, 10).0 == n <==>
            zeros == 0 || SignOf(n, flags.forcesign, flags.padsign) == "" || n == 0
  {
    hide ParseSigned, Digits, Signed, Negate, Repeat;
    var num := SignedDigits(n, 10, false, flags.forcesign, flags.padsign);
    if zeros == 0 {
      assert Repeat('0', zeros) + num + tail == num + tail;
      SignedRoundTrip(n, 10, false, flags.forcesign, flags.padsign, tail);
    } else if SignOf(n, flags.forcesign, flags.padsign) == "" {
      ZerosThenDigits(n, zeros, tail);
      assert num == Digits(n, 10, false);
    } else {
      assert Repeat('0', zeros) + num + tail == Repeat('0', zeros) + (num + tail);
      ZerosThenSign(zeros, num + tail);
    }
  }

  lemma ZerosThenDigits(n: int, zeros: nat, tail: string)
    requires 0 <= n < HALF64 && (tail != [] ==> !IsDigit(tail[0], 10))
    ensures ParseSigned(Repeat('0', zeros) + Digits(n, 10, false) + tail, 10).0 == n
  {
    hide Digits, ValueOf, RunLength, ParseNumber;
    var num := Repeat('0', zeros) + Digits(n, 10, false);
    ParseBare(n, 10, false, zeros, tail);
    assert IsDigit(num[0], 10);
    assert (num + tail)[0..] == num + tail;
  }

  // ---------- whole formats ----------

  function Padded(content: string, flags: Flags, width: int): string {
    if flags.left then content + Repeat(' ', Count(width - |content|))
    else Repeat(' ', Count(width - |content|)) + content
  }

  /** What a directive prints. */
  function Rendered(p: Piece): string
    requires Printable(p)
  {
    match p
    case Literal(c) => [c]
    case Percent(flags, width) => Padded("%", flags, width)
    case Character(c, flags, width) => Padded([c], flags, width)
    case Text(str, flags, width, precision) =>
      Padded(if precision != -1 && precision < |str| then str[..precision] else str, flags, width)
    case UnsignedNumber(n, base, upper, flags, width, precision) =>
      Field(Digits(n, base, upper), base, flags, width, precision)
    case SignedNumber(ll, flags, width, precision) =>
      Field(SignedDigits(ll, 10, false, flags.forcesign, flags.padsign), 10, flags, width, precision)
  }

  function Render(pieces: seq<Piece>): string
    requires forall k | 0 <= k < |pieces| :: Printable(pieces[k])
  {
    if pieces == [] then "" else Render(pieces[..|pieces|-1]) + Rendered(pieces[|pieces|-1])
  }

  /** A string: its beginning as far as the precision allows, at the left or the right end of a field
      of spaces. */
  lemma TextPlaces(str: string, flags: Flags, width: int, precision: int)
    requires precision >= -1
    ensures var r := Rendered(Text(str, flags, width, precision));
            var k := if precision < 0 then |str| else Min(precision, |str|);
            && |r| == Max(k, width)
            && (flags.left ==> r[..k] == str[..k] && forall j | k <= j < |r| :: r[j] == ' ')
            && (!flags.left ==> r[|r|-k..] == str[..k] && forall j | 0 <= j < |r| - k :: r[j] == ' ')
  {
    assert str[..|str|] == str;
  }

  /** A character and a percent sign are laid out like strings of length 1. */
  lemma OneCharacter(c: char, flags: Flags, width: int)
    ensures Rendered(Literal(c)) == [c]
    ensures Rendered(Character(c, flags, width)) == Rendered(Text([c], flags, width, -1))
    ensures Rendered(Percent(flags, width)) == Rendered(Text("%", flags, width, -1))
  {
  }

  /** A number is laid out in its field with the digits of its base, in the case asked for: no letter
      of the other case is printed, whatever the flags. */
  lemma NumberPlaces(n: nat, base: nat, upper: bool, flags: Flags, width: int, precision: int)
    requires n < WORD64 && (base == 8 || base == 10 || base == 16)
    ensures var r, num := Rendered(UnsignedNumber(n, base, upper, flags, width, precision)), Digits(n, base, upper);
            && r == Field(num, base, flags, width, precision)
            && ValueOf(num, base) == n
            && forall k | 0 <= k < |r| :: if upper then !('a' <= r[k] <= 'f') else !('A' <= r[k] <= 'Z')
  {
    var num := Digits(n, base, upper);
    DigitsAreRight(n, base, upper);
    DigitsCase(n, base, upper);
    hide Digits, ValueOf, Repeat, Filling;
    var lead, z := Lead(num, base, flags, width, precision), Zeros(num, base, flags, width, precision);
    var trail, dec := Trail(num, base, flags, width, precision), Decoration(base, flags);
    OfParts(Repeat(' ', lead), dec, Repeat('0', z), num, Repeat(' ', trail));
  }

  /** A signed number is printed in decimal, behind at most one sign character. */
  lemma SignedPlaces(n: int, flags: Flags, width: int, precision: int)
    requires -HALF64 <= n < HALF64
    ensures var num := SignedDigits(n, 10, false, flags.forcesign, flags.padsign);
            var k := if n < 0 || flags.forcesign || flags.padsign then 1 else 0;
            && Rendered(SignedNumber(n, flags, width, precision)) == Field(num, 10, flags, width, precision)
            && |num| > k && AllDigits(num[k..], 10) && ValueOf(num[k..], 10) == Magnitude(n)
            && (k > 0 ==> num[0] == if n < 0 then '-' else if flags.forcesign then '+' else ' ')
  {
    SignCharacter(n, 10, false, flags.forcesign, flags.padsign);
    DigitsAreRight(Magnitude(n), 10, false);
  }

  lemma OfParts(a: string, b: string, c: string, d: string, e: string)
    ensures forall x | x in a + b + c + d + e :: x in a || x in b || x in c || x in d || x in e
  {
  }

  /** A format is rendered directive by directive. */
  lemma {:induction false} RenderParts(a: seq<Piece>, b: seq<Piece>)
    requires forall k | 0 <= k < |a| :: Printable(a[k])
    requires forall k | 0 <= k < |b| :: Printable(b[k])
    ensures (forall k | 0 <= k < |a + b| :: Printable((a + b)[k])) && Render(a + b) == Render(a) + Render(b)
    decreases |b|
  {
    hide Rendered, Printable;
    assert forall k | 0 <= k < |a + b| :: (a + b)[k] == if k < |a| then a[k] else b[k-|a|];
    if b == [] {
      assert a + b == a;
    } else {
      var init, last := b[..|b|-1], b[|b|-1];
      RenderParts(a, init);
      assert (a + b)[..|a|+|b|-1] == a + init && (a + b)[|a|+|b|-1] == last;
      Appended(Render(a), Render(init), Rendered(last));
    }
  }

  method PrintPadded(s: Writer, content: string, flags: Flags, width: int)
    requires s.Valid()
    modifies s, s.str
    ensures s.Valid() && s.touched && s.all == old(s.all) + Padded(content, flags, width)
  {
    hide Repeat;
    if !flags.left {
      Pad(s, ' ', width - |content|);
    }
    var _ := s.Write(content);
    if flags.left {
      Pad(s, ' ', width - |content|);
    }
  }

  /** Turn a number into digits in a buffer of its own. */
  method NumberText(p: Piece) returns (num: string)
    requires Printable(p) && (p.UnsignedNumber? || p.SignedNumber?)
    ensures p.UnsignedNumber? ==> num == Digits(p.n, p.base, p.upper)
    ensures p.SignedNumber? ==> num == SignedDigits(p.ll, 10, false, p.flags.forcesign, p.flags.padsign)
  {
    hide Digits;
    var numbuf := new char[128](_ => NUL);
    var numstream := new Writer(numbuf, 128);
    if p.UnsignedNumber? {
      DigitsFit(p.n, p.base, p.upper);
      StringifyULL(numstream, p.n, p.base, p.upper);
    } else {
      DigitsFit(Magnitude(p.ll), 10, false);
      StringifyLL(numstream, p.ll, 10, false, p.flags.forcesign, p.flags.padsign);
    }
    var numlen := numstream.Tell();
    num := numbuf[..numlen];
    assert num == numstream.all;
  }

  method PrintPiece(s: Writer, p: Piece)
    requires s.Valid() && Printable(p)
    modifies s, s.str
    ensures s.Valid() && s.touched && s.all == old(s.all) + Rendered(p)
  {
    hide Padded, Field, Digits, SignedDigits;
    match p
    case Literal(c) =>
      var _ := s.Write([c]);
    case Percent(flags, width) =>
      PrintPadded(s, "%", flags, width);
    case Character(c, flags, width) =>
      PrintPadded(s, [c], flags, width);
    case Text(str, flags, width, precision) =>
      var size := |str|;
      if precision != -1 && precision < |str| {
        size := precision;
      }
      assert str[..|str|] == str;
      PrintPadded(s, str[..size], flags, width);
    case UnsignedNumber(n, base, upper, flags, width, precision) =>
      var num := NumberText(p);
      PrintNumber(s, num, base, flags, width, precision);
    case SignedNumber(ll, flags, width, precision) =>
      var num := NumberText(p);
      PrintNumber(s, num, 10, flags, width, precision);
  }

  /** The difference of two wrapped counters is the wrapped difference. */
  lemma DifferenceWraps(x: nat, y: nat, length: nat, m: nat)
    requires m > 0 && x == y + length
    ensures (x % m - y % m) % m == length % m
  {
    var q := length / m - (x / m - y / m);
    Powers.Division(x, m);
    Powers.Division(y, m);
    Powers.Division(length, m);
    Difference(x / m, y / m, length / m, x % m, y % m, length % m, m);
    Powers.QuotientUniqueInt(x % m - y % m, m, q, length % m);
  }

  lemma Difference(a: nat, b: nat, c: nat, x: nat, y: nat, z: nat, m: nat)
    requires a * m + x == b * m + y + (c * m + z)
    ensures x - y == (c - (a - b)) * m + z
  {
  }

  /** Print a format; the count is of what was to be written, not of what fitted. */
  method Fmtvprintf(s: Writer, pieces: seq<Piece>) returns (total: nat)
    requires s.Valid() && forall k | 0 <= k < |pieces| :: Printable(pieces[k])
    modifies s, s.str
    ensures s.Valid() && s.all == old(s.all) + Render(pieces) && (s.touched <==> old(s.touched) || pieces != [])
    ensures total == |Render(pieces)| % WORD32
  {
    hide Rendered;
    var start := s.supposedoffs;
    var i := 0;
    assert s.all + "" == s.all;
    while i < |pieces|
      invariant i <= |pieces| && s.Valid() && s.all == old(s.all) + Render(pieces[..i])
      invariant s.touched <==> old(s.touched) || i > 0
    {
      PrintPiece(s, pieces[i]);
      assert pieces[..i+1][..i] == pieces[..i];
      Appended(old(s.all), Render(pieces[..i]), Rendered(pieces[i]));
      i := i + 1;
    }
    assert pieces[..i] == pieces;
    DifferenceWraps(|s.all|, |old(s.all)|, |Render(pieces)|, WORD32);
    total := (s.supposedoffs - start) % WORD32;
  }

  lemma Appended(a: string, b: string, c: string)
    ensures a + b + c == a + (b + c)
  {
  }

  /** The truncation law. Whatever the buffer size, the count is that of the whole output. A buffer
      of positive size gets the longest prefix that leaves room for the terminator, the terminator,
      and nothing else; unless the format is empty, for then nothing is written at all (section
      7.21.6.5 of ISO C11 asks for the terminator in this case too). */
  method Vsnprintf(dest: array<char>, n: nat, pieces: seq<Piece>) returns (total: nat)
    requires n <= dest.Length && forall k | 0 <= k < |pieces| :: Printable(pieces[k])
    modifies dest
    ensures total == |Render(pieces)| % WORD32
    ensures n > 0 && pieces != [] ==>
              var k := Min(|Render(pieces)|, n - 1);
              dest[..k] == Render(pieces)[..k] && dest[k] == '\0' && dest[k+1..] == old(dest[k+1..])
    ensures n == 0 || pieces == [] ==> dest[..] == old(dest[..])
  {
    hide Render;
    var stream := new Writer(dest, n);
    total := Fmtvprintf(stream, pieces);
  }
}
