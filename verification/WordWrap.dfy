// The word wrap of microui's text control (fs/user/microui.um).
module WordWrap {

  /** The widths the font gives to a word and to a single character. */
  datatype Font = Font(wordWidth: string -> nat, charWidth: char -> nat)

  predicate IsSeparator(c: char) {
    c == ' ' || c == '\n'
  }

  predicate OneWord(text: string, lo: nat, hi: nat)
    requires lo <= hi <= |text|
  {
    forall k | lo <= k < hi :: !IsSeparator(text[k])
  }

  /** Where the word starting at i ends. */
  function WordEnd(text: string, i: nat): (p: nat)
    requires i <= |text|
    ensures i <= p <= |text| && OneWord(text, i, p)
    ensures p < |text| ==> IsSeparator(text[p])
    decreases |text| - i
  {
    if i == |text| || IsSeparator(text[i]) then i else WordEnd(text, i + 1)
  }

  /** Where the last word before hi starts. */
  function WordStart(text: string, lo: nat, hi: nat): (p: nat)
    requires lo <= hi <= |text|
    ensures lo <= p <= hi && OneWord(text, p, hi)
    ensures p > lo ==> IsSeparator(text[p-1])
  {
    if hi == lo || IsSeparator(text[hi-1]) then hi else WordStart(text, lo, hi - 1)
  }

  /** The width of the line text[lo..hi]: its words and the separators between them, measured one
      by one. */
  function LineWidth(font: Font, text: string, lo: nat, hi: nat): nat
    requires lo <= hi <= |text|
    decreases hi
  {
    var p := WordStart(text, lo, hi);
    font.wordWidth(text[p..hi])
      + if p == lo then 0 else font.charWidth(text[p-1]) + LineWidth(font, text, lo, p - 1)
  }

  lemma {:induction false} WordStartUnique(text: string, lo: nat, hi: nat, p: nat)
    requires lo <= p <= hi <= |text| && OneWord(text, p, hi) && (p > lo ==> IsSeparator(text[p-1]))
    ensures WordStart(text, lo, hi) == p
  {
  }

  /** A word is as wide as the font says. */
  lemma WidthOfWord(font: Font, text: string, lo: nat, hi: nat)
    requires lo <= hi <= |text| && forall k | lo <= k < hi :: text[k] != ' ' && text[k] != '\n'
    ensures LineWidth(font, text, lo, hi) == font.wordWidth(text[lo..hi])
  {
    WordStartUnique(text, lo, hi, lo);
  }

  lemma WidthFromEnd(font: Font, text: string, lo: nat, hi: nat, p: nat)
    requires lo <= p <= hi <= |text| && OneWord(text, p, hi) && (p > lo ==> IsSeparator(text[p-1]))
    ensures LineWidth(font, text, lo, hi) == font.wordWidth(text[p..hi])
              + if p == lo then 0 else font.charWidth(text[p-1]) + LineWidth(font, text, lo, p - 1)
  {
    WordStartUnique(text, lo, hi, p);
  }

  /** At any space or newline the width is that of what is before it, its own, and that of what is
      behind it. */
  lemma {:induction false} WidthSplits(font: Font, text: string, lo: nat, m: nat, hi: nat)
    requires lo <= m < hi <= |text| && (text[m] == ' ' || text[m] == '\n')
    ensures LineWidth(font, text, lo, hi) ==
            LineWidth(font, text, lo, m) + font.charWidth(text[m]) + LineWidth(font, text, m + 1, hi)
    decreases hi
  {
    hide LineWidth, WordStart;
    var p := WordStart(text, lo, hi);
    assert p > m by { assert IsSeparator(text[m]); }
    WidthFromEnd(font, text, lo, hi, p);
    WidthFromEnd(font, text, m + 1, hi, p);
    hide OneWord, IsSeparator;
    if p - 1 > m { WidthSplits(font, text, lo, m, p - 1); }
  }

  /** A line that could not be broken any further: one word, possibly after one leading space. */
  predicate Unbreakable(text: string, lo: nat, hi: nat)
    requires lo <= hi <= |text|
  {
    OneWord(text, lo, hi) || (lo < hi && text[lo] == ' ' && OneWord(text, lo + 1, hi))
  }

  /** A line that is to be drawn: the slice of the text between two positions. */
  datatype Line = Line(start: nat, end: nat)

  predicate IsSlice(text: string, l: Line) {
    l.start <= l.end <= |text|
  }

  /** The line fits the room unless it is unbreakable, and it holds no newline. */
  predicate Fits(font: Font, text: string, l: Line, room: int) {
    && IsSlice(text, l)
    && (LineWidth(font, text, l.start, l.end) <= room || Unbreakable(text, l.start, l.end))
    && forall k | l.start <= k < l.end :: text[k] != '\n'
  }

  /** The line ends before the end of the text only at a separator, and at a space only where the
      next word would not fit any more. */
  predicate EndsWell(font: Font, text: string, l: Line, room: int)
    requires IsSlice(text, l)
  {
    l.end < |text| ==>
      && IsSeparator(text[l.end])
      && (text[l.end] == ' ' ==> LineWidth(font, text, l.start, WordEnd(text, l.end + 1)) > room)
  }

  predicate WellPlaced(font: Font, text: string, l: Line, room: int) {
    Fits(font, text, l, room) && EndsWell(font, text, l, room)
  }

  method ScanWord(text: string, word: nat) returns (q: nat)
    requires word <= |text|
    ensures q == WordEnd(text, word)
  {
    q := word;
    while q < |text| && text[q] != ' ' && text[q] != '\n'
      invariant word <= q <= |text|
      invariant WordEnd(text, q) == WordEnd(text, word)
    {
      q := q + 1;
    }
  }

  lemma WordAdded(font: Font, text: string, lo: nat, word: nat)
    requires lo <= word <= |text| && (lo < word ==> IsSeparator(text[word-1]))
    ensures var q := WordEnd(text, word);
            LineWidth(font, text, lo, q) == font.wordWidth(text[word..q])
              + if word == lo then 0 else font.charWidth(text[word-1]) + LineWidth(font, text, lo, word - 1)
  {
    WidthFromEnd(font, text, lo, WordEnd(text, word), word);
  }

  /** One word, or one word more that has room or stands behind nothing but a space, fits. */
  lemma WordFits(font: Font, text: string, p: nat, end: nat, q: nat, room: int)
    requires p <= end <= q <= |text|
    requires if q == WordEnd(text, p) then true
             else end < q && text[end] == ' ' && q == WordEnd(text, end + 1) && Fits(font, text, Line(p, end), room)
    requires LineWidth(font, text, p, q) <= room || end == p
    ensures Fits(font, text, Line(p, q), room)
  {
  }

  /** One line of text, from p on: where it ends. */
  method NextLine(font: Font, text: string, p: nat, room: int) returns (end: nat)
    requires p <= |text|
    ensures WellPlaced(font, text, Line(p, end), room)
  {
    hide WordEnd, LineWidth, Fits;
    var q := p;
    var w := 0;
    end := p;
    ghost var first := true;
    while true
      invariant p <= end <= q <= |text|
      invariant first ==> q == p == end && w == 0
      invariant !first ==> q == end + 1 && text[end] == ' '
      invariant !first ==> w == LineWidth(font, text, p, end) + font.charWidth(text[end])
      invariant !first ==> Fits(font, text, Line(p, end), room)
      decreases |text| - q, first
    {
      var word := q;
      q := ScanWord(text, word);
      w := w + font.wordWidth(text[word..q]);
      WordAdded(font, text, p, word);
      assert w == LineWidth(font, text, p, q);
      if w > room && end != p {
        break;
      }
      WordFits(font, text, p, end, q, room);
      if q < |text| {
        w := w + font.charWidth(text[q]);
      }
      end := q;
      q := q + 1;
      first := false;
      if end >= |text| || text[end] == '\n' {
        break;
      }
    }
  }

  /** The lines put together again, the separator each one ends at included. */
  function Rejoin(text: string, lines: seq<Line>): string
    requires forall n | 0 <= n < |lines| :: IsSlice(text, lines[n])
  {
    if lines == [] then ""
    else
      var l := lines[|lines|-1];
      assert IsSlice(text, l);
      Rejoin(text, lines[..|lines|-1]) + text[l.start..l.end] + if l.end < |text| then [text[l.end]] else ""
  }

  /** Consecutive lines with nothing but one separator between them. */
  predicate Consecutive(text: string, lines: seq<Line>) {
    && (forall n | 0 <= n < |lines| :: IsSlice(text, lines[n]))
    && (lines != [] ==> lines[0].start == 0)
    && (forall n | 0 < n < |lines| :: lines[n].start == lines[n-1].end + 1)
  }

  lemma {:induction false} RejoinGivesText(text: string, lines: seq<Line>)
    requires Consecutive(text, lines) && lines != []
    requires forall n | 0 <= n < |lines| - 1 :: lines[n].end < |text|
    ensures var l := lines[|lines|-1]; Rejoin(text, lines) == text[..if l.end < |text| then l.end + 1 else |text|]
  {
    var init, l := lines[..|lines|-1], lines[|lines|-1];
    if init == [] {
      assert Rejoin(text, init) == "";
    } else {
      assert init[|init|-1] == lines[|lines|-2];
      RejoinGivesText(text, init);
      assert Rejoin(text, init) == text[..l.start];
    }
    OnePieceMore(text, l);
  }

  lemma OnePieceMore(text: string, l: Line)
    requires IsSlice(text, l)
    ensures text[..l.start] + text[l.start..l.end] + (if l.end < |text| then [text[l.end]] else "")
         == text[..if l.end < |text| then l.end + 1 else |text|]
  {
    assert text[..l.start] + text[l.start..l.end] == text[..l.end];
  }

  /** Every line fits and is broken only where it has to be; `room(n)` is the width of line n. */
  ghost predicate WellBroken(font: Font, text: string, lines: seq<Line>, room: nat -> int) {
    forall n | 0 <= n < |lines| :: WellPlaced(font, text, lines[n], room(n))
  }

  /** The lines broken off so far cover the text up to p. */
  ghost predicate BrokenOff(font: Font, text: string, lines: seq<Line>, p: nat, room: nat -> int) {
    && Consecutive(text, lines) && WellBroken(font, text, lines, room)
    && p == (if lines == [] then 0 else lines[|lines|-1].end + 1) <= |text|
    && forall n | 0 <= n < |lines| :: lines[n].end < |text|
  }

  /** What a well broken text is, in terms of its characters. */
  lemma BrokenAtSpaces(font: Font, text: string, lines: seq<Line>, room: nat -> int)
    requires WellBroken(font, text, lines, room)
    ensures forall n | 0 <= n < |lines| :: IsSlice(text, lines[n])
    ensures forall n | 0 <= n < |lines| :: forall k | lines[n].start <= k < lines[n].end :: text[k] != '\n'
    ensures forall n | 0 <= n < |lines| && lines[n].end < |text| ::
              text[lines[n].end] == ' ' || text[lines[n].end] == '\n'
    ensures forall n | 0 <= n < |lines| :: LineWidth(font, text, lines[n].start, lines[n].end) <= room(n) ||
                                           forall k | lines[n].start < k < lines[n].end :: text[k] != ' '
  {
    hide LineWidth;
    forall n | 0 <= n < |lines| ensures IsSlice(text, lines[n]) { assert WellPlaced(font, text, lines[n], room(n)); }
    forall n | 0 <= n < |lines|
      ensures LineWidth(font, text, lines[n].start, lines[n].end) <= room(n) ||
              forall k | lines[n].start < k < lines[n].end :: text[k] != ' '
    {
      assert WellPlaced(font, text, lines[n], room(n));
    }
  }

  /** A line that ends at a space has no room for the next word. */
  lemma NextWordHasNoRoom(font: Font, text: string, lines: seq<Line>, room: nat -> int, n: nat, q: nat)
    requires WellBroken(font, text, lines, room) && n < |lines|
    requires lines[n].end < q <= |text| && text[lines[n].end] == ' '
    requires forall k | lines[n].end < k < q :: text[k] != ' ' && text[k] != '\n'
    requires q < |text| ==> text[q] == ' ' || text[q] == '\n'
    ensures lines[n].start < q && LineWidth(font, text, lines[n].start, q) > room(n)
  {
    assert WellPlaced(font, text, lines[n], room(n));
    WordEndUnique(text, lines[n].end + 1, q);
  }

  lemma {:induction false} WordEndUnique(text: string, i: nat, q: nat)
    requires i <= q <= |text| && OneWord(text, i, q) && (q < |text| ==> IsSeparator(text[q]))
    ensures WordEnd(text, i) == q
  {
  }

  lemma WellBrokenSnoc(font: Font, text: string, lines: seq<Line>, l: Line, room: nat -> int)
    requires WellBroken(font, text, lines, room) && WellPlaced(font, text, l, room(|lines|))
    ensures WellBroken(font, text, lines + [l], room)
  {
  }

  lemma BreakOneMore(font: Font, text: string, lines: seq<Line>, p: nat, end: nat, room: nat -> int)
    requires BrokenOff(font, text, lines, p, room)
    requires WellPlaced(font, text, Line(p, end), room(|lines|))
    ensures end < |text| ==> BrokenOff(font, text, lines + [Line(p, end)], end + 1, room)
    ensures Consecutive(text, lines + [Line(p, end)]) && WellBroken(font, text, lines + [Line(p, end)], room)
  {
    assert IsSlice(text, Line(p, end));
    hide WellPlaced;
    var l := Line(p, end);
    var more := lines + [l];
    WellBrokenSnoc(font, text, lines, l, room);
    assert more[|more|-1] == l;
    assert Consecutive(text, more);
  }

  /** The text control. Joining the lines gives back the text: nothing is lost but the separator
      between two lines. */
  method Text(font: Font, text: string, room: nat -> int) returns (lines: seq<Line>)
    ensures lines != [] && Consecutive(text, lines) && lines[|lines|-1].end == |text|
    ensures WellBroken(font, text, lines, room)
    ensures forall n | 0 <= n < |lines| :: forall k | lines[n].start <= k < lines[n].end :: text[k] != '\n'
    ensures forall n | 0 <= n < |lines| && lines[n].end < |text| ::
              text[lines[n].end] == ' ' || text[lines[n].end] == '\n'
    ensures forall n | 0 <= n < |lines| :: LineWidth(font, text, lines[n].start, lines[n].end) <= room(n) ||
                                           forall k | lines[n].start < k < lines[n].end :: text[k] != ' '
    ensures Rejoin(text, lines) == text
  {
    hide WellPlaced, LineWidth;
    var p := 0;
    lines := [];
    while true
      invariant BrokenOff(font, text, lines, p, room)
      decreases |text| - p
    {
      var end := NextLine(font, text, p, room(|lines|));
      BreakOneMore(font, text, lines, p, end, room);
      lines := lines + [Line(p, end)];
      p := end + 1;
      if end >= |text| {
        RejoinGivesText(text, lines);
        BrokenAtSpaces(font, text, lines, room);
        return;
      }
    }
  }
}
