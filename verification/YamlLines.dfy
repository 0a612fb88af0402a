/**
  * Double-quoted YAML scalars over several lines, and the scalars the reader refuses.
  */
module YamlLines {
  import opened Options
  import opened Words
  import opened YamlDoubleQuoted
  import opened YamlReading

  // ---- Line folding ----

  predicate IsText(a: seq<Unit>) {
    forall i | 0 <= i < |a| :: Character(a[i])
  }

  lemma CharsAre(a: seq<Unit>, rest: seq<Unit>)
    requires IsText(a)
    ensures IsItem(Chars(a)) && ItemText(Chars(a)) == a && ItemMeaning(Chars(a)) == a && Follows(Chars(a), rest)
  {
  }

  lemma Alone(b: seq<Unit>, tail: seq<Unit>)
    requires IsText(b)
    ensures IsContent([Chars(b)], tail) && Text([Chars(b)]) == b
    ensures IsItem([Chars(b)][0]) && Meaning([Chars(b)]) == b
  {
    assert [Chars(b)][1..] == [];
  }

  /** Text, a break of either kind, and text. */
  lemma LinesContent(a: seq<Unit>, middle: Item, b: seq<Unit>, tail: seq<Unit>)
    requires IsText(a) && IsText(b) && IsItem(middle) && Follows(middle, b + tail)
    ensures var items := [Chars(a), middle, Chars(b)];
            && IsContent(items, tail) && (forall i | 0 <= i < |items| :: IsItem(items[i]))
            && Text(items) == a + ItemText(middle) + b && Meaning(items) == a + ItemMeaning(middle) + b
  {
    hide Follows, ItemText, ItemMeaning, IsItem;
    var items := [Chars(a), middle, Chars(b)];
    assert items[1..] == [middle, Chars(b)] && items[1..][1..] == [Chars(b)];
    Alone(b, tail);
    assert Text([middle, Chars(b)]) == ItemText(middle) + b && Meaning([middle, Chars(b)]) == ItemMeaning(middle) + b;
    assert IsContent([middle, Chars(b)], tail);
    CharsAre(a, Text(items[1..]) + tail);
  }

  /** A document mark at the very start of the line that follows the breaks. */
  predicate MarkAhead(bs: seq<Break>, rest: seq<Unit>)
    requires bs != []
  {
    bs[|bs| - 1].blanks == [] && DocumentMark(rest)
  }

  predicate IsBlank(c: Unit) { c == 9 || c == 32 }

  /** Two lines with any breaks between them are read as the first, a space for one break or one line
      feed less than there are breaks, and the second; unless the second begins with a document mark. */
  lemma Folding(before: seq<Unit>, a: seq<Unit>, bs: seq<Break>, b: seq<Unit>, after: seq<Unit>, lineStart: nat)
    requires lineStart <= |before| && IsText(a) && IsText(b) && (b != [] ==> !IsBlank(b[0]))
    requires bs != [] && AreBreaks(bs)
    ensures var text := a + BreaksText(bs) + b;
            ReadScalar(before + [34] + text + ([34] + after), |before|, lineStart)
            == if MarkAhead(bs, b + ([34] + after)) then Failed(EndOfDocument)
               else Scalar(a + (if |bs| == 1 then [32] else seq(|bs| - 1, _ => 10)) + b, |before| + 1 + |text| + 1)
  {
    hide ReadScalar, BreaksText, AreBreaks, DocumentMark, Text, Meaning, IsContent;
    var tail := [34] + after;
    NotBlank(b, after);
    if MarkAhead(bs, b + tail) {
      MarkedFold(before, a, bs, b + tail, lineStart);
      Regroup(before + [34], a, BreaksText(bs), b, tail);
    } else {
      LinesContent(a, Fold(bs), b, tail);
      ReadClosed(before, [Chars(a), Fold(bs), Chars(b)], after, lineStart);
    }
  }

  /** With a backslash before the breaks the two lines are joined. */
  lemma Joining(before: seq<Unit>, a: seq<Unit>, bs: seq<Break>, b: seq<Unit>, after: seq<Unit>, lineStart: nat)
    requires lineStart <= |before| && IsText(a) && IsText(b) && (b != [] ==> !IsBlank(b[0]))
    requires bs != [] && AreBreaks(bs)
    ensures var text := a + ([92] + BreaksText(bs)) + b;
            ReadScalar(before + [34] + text + ([34] + after), |before|, lineStart)
            == if MarkAhead(bs, b + ([34] + after)) then Failed(EndOfDocument)
               else Scalar(a + b, |before| + 1 + |text| + 1)
  {
    hide ReadScalar, BreaksText, AreBreaks, DocumentMark, Text, Meaning, IsContent;
    var tail := [34] + after;
    NotBlank(b, after);
    if MarkAhead(bs, b + tail) {
      MarkedJoin(before, a, bs, b + tail, lineStart);
      Regroup(before + [34], a, [92] + BreaksText(bs), b, tail);
    } else {
      LinesContent(a, Joined(bs), b, tail);
      ReadClosed(before, [Chars(a), Joined(bs), Chars(b)], after, lineStart);
      assert a + [] + b == a + b;
    }
  }

  lemma Regroup(p: seq<Unit>, a: seq<Unit>, m: seq<Unit>, b: seq<Unit>, tail: seq<Unit>)
    ensures p + (a + m + b) + tail == p + a + (m + (b + tail))
  {
  }

  lemma NotBlank(b: seq<Unit>, after: seq<Unit>)
    requires IsText(b) && (b != [] ==> !IsBlank(b[0]))
    ensures var rest := b + ([34] + after); rest != [] && rest[0] !in {9, 10, 13, 32}
  {
    var rest := b + ([34] + after);
    if b == [] { assert rest[0] == 34; } else { assert rest[0] == b[0]; }
  }

  /** The reader stands behind breaks, at the start of a line, before a document mark. */
  lemma StopsAtMark(input: seq<Unit>, p: nat, result: seq<Unit>)
    requires p <= |input| && DocumentMark(input[p..])
    ensures ReadFrom(input, Scan(p, p, p, result)) == Failed(EndOfDocument)
  {
    hide ReadEscape, SkipSeparation, DocumentSeparator, DocumentMark, Capturable;
    MarkIs(input, p);
    FirstOfMark(input[p..]);
    assert input[p] == input[p..][0];
  }

  lemma FirstOfMark(rest: seq<Unit>)
    requires DocumentMark(rest)
    ensures rest != [] && (rest[0] == 45 || rest[0] == 46)
  {
    assert rest[0] == rest[..3][0];
  }

  lemma MarkedFold(before: seq<Unit>, a: seq<Unit>, bs: seq<Break>, rest: seq<Unit>, lineStart: nat)
    requires lineStart <= |before| && IsText(a) && bs != [] && AreBreaks(bs) && MarkAhead(bs, rest)
    ensures ReadScalar(before + [34] + a + (BreaksText(bs) + rest), |before|, lineStart) == Failed(EndOfDocument)
  {
    hide ReadScalar, BreaksText, AreBreaks, DocumentMark, IsContent, Reading, ReadFrom;
    var tail := BreaksText(bs) + rest;
    var input := before + [34] + a + tail;
    Alone(a, tail);
    var s := ReadOpened(before, [Chars(a)], tail, lineStart);
    var end := s.pos + |BreaksText(bs)|;
    assert input[s.pos..end] == BreaksText(bs) && input[end..] == rest;
    FoldStops(input, s, a, bs);
  }

  lemma FoldStops(input: seq<Unit>, s: Scan, done: seq<Unit>, bs: seq<Break>)
    requires Reading(input, s, done) && bs != [] && AreBreaks(bs) && bs[|bs| - 1].blanks == []
    requires s.pos + |BreaksText(bs)| <= |input| && input[s.pos..s.pos + |BreaksText(bs)|] == BreaksText(bs)
    requires DocumentMark(input[s.pos + |BreaksText(bs)|..])
    ensures ReadFrom(input, s) == Failed(EndOfDocument)
  {
    hide BreaksText, AreBreaks, DocumentMark, Reading, ReadFrom, SkipSeparation, BreaksAt, Folded;
    MarkedBreaksAt(input, s.pos, bs);
    SeparationSkipped(input, s.pos, s.lineStart, bs);
    BreakLeads(input, s, done);
    StopsAtMark(input, s.pos + |BreaksText(bs)|, done + Folded(|bs|));
  }

  lemma MarkedBreaksAt(input: seq<Unit>, q: nat, bs: seq<Break>)
    requires AreBreaks(bs) && q + |BreaksText(bs)| <= |input| && input[q..q + |BreaksText(bs)|] == BreaksText(bs)
    requires DocumentMark(input[q + |BreaksText(bs)|..])
    ensures BreaksAt(input, q, bs)
  {
    hide AreBreaks, BreaksText, DocumentMark;
    var end := q + |BreaksText(bs)|;
    FirstOfMark(input[end..]);
    assert input[end] == input[end..][0];
  }

  lemma MarkedJoin(before: seq<Unit>, a: seq<Unit>, bs: seq<Break>, rest: seq<Unit>, lineStart: nat)
    requires lineStart <= |before| && IsText(a) && bs != [] && AreBreaks(bs) && MarkAhead(bs, rest)
    ensures ReadScalar(before + [34] + a + ([92] + BreaksText(bs) + rest), |before|, lineStart) == Failed(EndOfDocument)
  {
    hide ReadScalar, BreaksText, AreBreaks, DocumentMark, IsContent, Reading, ReadFrom;
    var tail := [92] + BreaksText(bs) + rest;
    var input := before + [34] + a + tail;
    Alone(a, tail);
    var s := ReadOpened(before, [Chars(a)], tail, lineStart);
    var end := s.pos + 1 + |BreaksText(bs)|;
    TailParts(input, before + [34] + a, BreaksText(bs), rest);
    MarkedBreaksAt(input, s.pos + 1, bs);
    JoinLeads(input, s, a, bs);
    StopsAtMark(input, end, a + []);
  }

  lemma TailParts(input: seq<Unit>, front: seq<Unit>, m: seq<Unit>, rest: seq<Unit>)
    requires input == front + ([92] + m + rest)
    ensures var p, e := |front|, |front| + 1 + |m|;
            e <= |input| && input[p] == 92 && input[p + 1..e] == m && input[e..] == rest
  {
    assert input == front + [92] + m + rest;
  }

  lemma JoinLeads(input: seq<Unit>, s: Scan, done: seq<Unit>, bs: seq<Break>)
    requires Reading(input, s, done) && s.pos < |input| && input[s.pos] == 92
    requires bs != [] && BreaksAt(input, s.pos + 1, bs) && bs[|bs| - 1].blanks == []
    ensures var end := s.pos + 1 + |BreaksText(bs)|;
            end <= |input| && ReadFrom(input, s) == ReadFrom(input, Scan(end, end, end, done + []))
  {
    hide ReadFrom, ReadEscape, SkipSeparation, Reading, BreaksAt;
    JoinedAt(input, s.pos, s.lineStart, bs);
    var end := s.pos + 1 + |BreaksText(bs)|;
    EscapeLeads(input, s, done, [], end, end);
  }

  // ---- Folding by the standard ----

  /** A line without the blanks at its end. */
  function Trimmed(a: seq<Unit>): (r: seq<Unit>)
    ensures |r| <= |a|
  {
    if a != [] && IsBlank(a[|a| - 1]) then Trimmed(a[..|a| - 1]) else a
  }

  /** Section 7.3.1 discards the blanks before a folded break. The reader keeps them: it folds as the
      standard does if and only if the first line does not end in a blank. */
  lemma FoldingIsStandard(a: seq<Unit>, middle: seq<Unit>, b: seq<Unit>)
    ensures a + middle + b == Trimmed(a) + middle + b <==> (a == [] || !IsBlank(a[|a| - 1]))
  {
    if a != [] && IsBlank(a[|a| - 1]) {
      assert |Trimmed(a)| < |a|;
      assert |a + middle + b| > |Trimmed(a) + middle + b|;
    }
  }

  /** A blank before a line feed is kept beside the space the line feed becomes. */
  lemma BlankKept()
    ensures ReadScalar([34, 97, 32, 10, 98, 34], 0, 0) == Scalar([97, 32, 32, 98], 6)
    ensures Trimmed([97, 32]) + [32] + [98] == [97, 32, 98]
  {
    var bs := [Break([10], [])];
    hide ReadScalar;
    OneBreak(bs);
    Folding([], [97, 32], bs, [98], [], 0);
    assert [] + [34] + ([97, 32] + [10] + [98]) + ([34] + []) == [34, 97, 32, 10, 98, 34];
    assert [97, 32] + [32] + [98] == [97, 32, 32, 98];
    assert [97, 32][..1] == [97];
  }

  lemma OneBreak(bs: seq<Break>)
    requires bs == [Break([10], [])]
    ensures AreBreaks(bs) && BreaksText(bs) == [10]
  {
    assert bs[1..] == [] && [10] + [] + [] == [10];
  }

  // ---- Refusals ----

  /** Content that runs into the end of the input, or a NUL, is not a scalar. */
  lemma Unterminated(before: seq<Unit>, items: seq<Item>, tail: seq<Unit>, lineStart: nat)
    requires lineStart <= |before| && IsContent(items, tail) && (tail == [] || tail[0] == 0)
    ensures ReadScalar(before + [34] + Text(items) + tail, |before|, lineStart) == Failed(EndOfStream)
  {
    hide Text, IsContent, Meaning, IsItem, ReadScalar, ReadEscape, SkipSeparation, DocumentMark, DocumentSeparator, Capturable;
    ContentItems(items, tail);
    var input := before + [34] + Text(items) + tail;
    var s := ReadOpened(before, items, tail, lineStart);
    if tail != [] { assert input[s.pos] == tail[0]; }
  }

  lemma EscapeRefused(input: seq<Unit>, s: Scan, done: seq<Unit>, error: Error)
    requires Reading(input, s, done) && s.pos < |input| && input[s.pos] == 92
    requires ReadEscape(input, s.pos, s.lineStart) == Bad(error)
    ensures ReadFrom(input, s) == Failed(error)
  {
    hide ReadEscape, SkipSeparation, DocumentSeparator, DocumentMark, Capturable;
  }

  /** A backslash before anything but a break, a named escape or a hexadecimal one. */
  lemma UnknownLetter(before: seq<Unit>, items: seq<Item>, rest: seq<Unit>, lineStart: nat)
    requires lineStart <= |before| && IsContent(items, [92] + rest)
    requires rest != [] ==> rest[0] !in {10, 13} && Letter(rest[0]) !in NAMES && Letter(rest[0]) !in WIDTHS
    ensures ReadScalar(before + [34] + Text(items) + ([92] + rest), |before|, lineStart) == Failed(UnknownEscape)
  {
    hide Text, IsContent, Meaning, IsItem, ReadScalar, ReadEscape, ReadFrom, Reading;
    var input := before + [34] + Text(items) + ([92] + rest);
    ContentItems(items, [92] + rest);
    var s := ReadOpened(before, items, [92] + rest, lineStart);
    assert input[s.pos] == 92;
    if rest != [] { assert input[s.pos + 1] == rest[0]; }
    UnknownAt(input, s.pos, s.lineStart);
    EscapeRefused(input, s, Meaning(items), UnknownEscape);
  }

  lemma UnknownAt(input: seq<Unit>, p: nat, lineStart: nat)
    requires p < |input|
    requires var c := Code(input, p + 1); c !in {10, 13} && Letter(c) !in NAMES && Letter(c) !in WIDTHS
    ensures ReadEscape(input, p, lineStart) == Bad(UnknownEscape)
  {
    hide SkipSeparation, ReadHex, NamedEscape, HexLength;
    NamesAre(Code(input, p + 1));
    WidthsAre(Code(input, p + 1));
  }

  predicate NoDigit(c: Unit) {
    forall d | 0 <= d < 16 :: !IsDigit(c, d)
  }

  /** A hexadecimal escape with too few digits. */
  lemma MissingDigit(before: seq<Unit>, items: seq<Item>, c: Unit, h: seq<Unit>, rest: seq<Unit>, lineStart: nat)
    requires lineStart <= |before| && IsContent(items, [92] + ([c] + h + rest))
    requires Letter(c) in WIDTHS && |h| < WIDTHS[Letter(c)] && HexNumber(h).Some?
    requires NoDigit(if rest == [] then 0 else rest[0])
    ensures ReadScalar(before + [34] + Text(items) + ([92] + ([c] + h + rest)), |before|, lineStart) == Failed(HexExpected)
  {
    hide Text, IsContent, Meaning, IsItem, ReadScalar, ReadEscape, ReadFrom, Reading, HexNumber, NoDigit;
    var tail := [92] + ([c] + h + rest);
    var input := before + [34] + Text(items) + tail;
    ContentItems(items, tail);
    var s := ReadOpened(before, items, tail, lineStart);
    HexTail(input, s.pos, before + [34] + Text(items), c, h, rest);
    MissingAt(input, s.pos, s.lineStart, c, h);
    EscapeRefused(input, s, Meaning(items), HexExpected);
  }

  lemma HexTail(input: seq<Unit>, p: nat, front: seq<Unit>, c: Unit, h: seq<Unit>, rest: seq<Unit>)
    requires input == front + ([92] + ([c] + h + rest)) && p == |front|
    ensures p + 2 + |h| <= |input| && input[p] == 92 && input[p + 1] == c && input[p + 2..p + 2 + |h|] == h
    ensures Code(input, p + 2 + |h|) == if rest == [] then 0 else rest[0]
  {
  }

  lemma MissingAt(input: seq<Unit>, p: nat, lineStart: nat, c: Unit, h: seq<Unit>)
    requires p + 2 + |h| <= |input| && input[p + 1] == c && input[p + 2..p + 2 + |h|] == h
    requires Letter(c) in WIDTHS && |h| < WIDTHS[Letter(c)] && HexNumber(h).Some?
    requires NoDigit(Code(input, p + 2 + |h|))
    ensures ReadEscape(input, p, lineStart) == Bad(HexExpected)
  {
    hide ReadEscape, HexNumber, ReadHex, NoDigit;
    NotADigit(Code(input, p + 2 + |h|));
    DigitsFail(input, p + 2, WIDTHS[Letter(c)], h, 0);
    NoHexAt(input, p, lineStart, c);
  }

  lemma NotADigit(c: Unit)
    requires NoDigit(c)
    ensures HexValue(c) == None
  {
    hide IsDigit;
    if HexValue(c).Some? {
      SmallDigit(c);
      DigitsAre(c, HexValue(c).value);
    }
  }

  lemma {:induction false} DigitsFail(input: seq<Unit>, p: nat, n: nat, h: seq<Unit>, o: int)
    requires |h| < n && p + |h| <= |input| && input[p..p + |h|] == h && HexNumber(h).Some?
    requires HexValue(Code(input, p + |h|)) == None
    ensures ReadHex(input, p, n, o) == None
    decreases n
  {
    hide HexValue, Int32, HexNumber;
    if h != [] {
      assert input[p] == h[0] && input[p + 1..p + 1 + |h[1..]|] == h[1..];
      RestDigits(h);
      DigitsFail(input, p + 1, n - 1, h[1..], Int32(o * 16) + HexValue(h[0]).value);
    }
  }

  lemma {:induction false} RestDigits(h: seq<Unit>)
    requires h != [] && HexNumber(h).Some?
    ensures HexValue(h[0]).Some? && HexNumber(h[1..]).Some?
    decreases |h|
  {
    hide HexValue;
    if |h| > 1 {
      var n := |h| - 1;
      RestDigits(h[..n]);
      assert h[1..][..n - 1] == h[..n][1..];
    } else {
      assert h[1..] == [];
    }
  }

  lemma NoHexAt(input: seq<Unit>, p: nat, lineStart: nat, c: Unit)
    requires p + 1 < |input| && input[p + 1] == c && Letter(c) in WIDTHS
    requires ReadHex(input, p + 2, WIDTHS[Letter(c)], 0) == None
    ensures ReadEscape(input, p, lineStart) == Bad(HexExpected)
  {
    hide SkipSeparation, ReadHex, NamedEscape, HexLength, FromCode;
    WidthsAre(c);
    NamesAre(c);
  }

  /** Units that end a stretch of text. */
  predicate Ends(c: Unit) { c == 34 || c == 92 || c == 10 || c == 13 }

  /** A control character in a stretch of text. */
  lemma ControlCharacter(before: seq<Unit>, items: seq<Item>, c: Unit, w: seq<Unit>, e: Unit, rest: seq<Unit>, lineStart: nat)
    requires lineStart <= |before| && IsContent(items, [c] + w + [e] + rest)
    requires 0 < c < 32 && c != 9 && !Ends(c) && Ends(e)
    requires forall i | 0 <= i < |w| :: w[i] != 0 && !Ends(w[i])
    ensures ReadScalar(before + [34] + Text(items) + ([c] + w + [e] + rest), |before|, lineStart) == Failed(InvalidCharacter)
  {
    hide Text, IsContent, Meaning, IsItem, ReadScalar, ReadFrom;
    var tail := [c] + w + [e] + rest;
    ContentItems(items, tail);
    var input := before + [34] + Text(items) + tail;
    var s := ReadOpened(before, items, tail, lineStart);
    var p := s.pos;
    assert input[p] == c && input[p + 1 + |w|] == e;
    forall i | p < i < p + 1 + |w| ensures input[i] != 0 && !Ends(input[i]) { assert input[i] == w[i - p - 1]; }
    OverControl(input, s, Meaning(items));
    InvalidFrom(input, s.(pos := p + 1), p, p + 1 + |w|);
  }

  lemma OverControl(input: seq<Unit>, s: Scan, done: seq<Unit>)
    requires Reading(input, s, done) && s.pos < |input| && 0 < input[s.pos] < 32 && !Ends(input[s.pos])
    ensures ReadFrom(input, s) == ReadFrom(input, s.(pos := s.pos + 1)) && s.lineStart <= s.pos && s.from <= s.pos
  {
    hide ReadEscape, SkipSeparation, Folded, DocumentMark, Capturable;
  }

  lemma {:induction false} InvalidFrom(input: seq<Unit>, s: Scan, bad: nat, end: nat)
    requires ScanOk(input, s) && s.lineStart < s.pos && s.from <= bad < s.pos <= end < |input| && Ends(input[end])
    requires input[bad] < 32 && input[bad] != 9 && forall i | s.pos <= i < end :: input[i] != 0 && !Ends(input[i])
    ensures ReadFrom(input, s) == Failed(InvalidCharacter)
    decreases end - s.pos
  {
    hide ReadEscape, SkipSeparation, Folded, DocumentSeparator;
    if s.pos < end {
      InvalidFrom(input, s.(pos := s.pos + 1), bad, end);
    } else {
      assert input[s.from..s.pos][bad - s.from] == input[bad];
    }
  }
}
