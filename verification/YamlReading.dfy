/**
  * What the reader of double-quoted YAML scalars makes of any content: characters, escapes, folded and
  * escaped line breaks, with the meaning that sections 5.7, 6.5 and 7.3.1 of YAML 1.2.2 give them, and
  * what it refuses.
  */
module YamlReading {
  import opened Division
  import opened Options
  import opened Words
  import opened YamlDoubleQuoted

  // ---- Content and its meaning ----

  /** A line break, as line feed, carriage return or both, with the blanks that begin the next line. */
  datatype Break = Break(mark: seq<Unit>, blanks: seq<Unit>)

  datatype Item =
    | Chars(text: seq<Unit>)
    | Named(letter: Unit)
    | Coded(letter: Unit, digits: seq<Unit>)
    | Fold(breaks: seq<Break>)
    | Joined(breaks: seq<Break>)

  /** The escapes of section 5.7 that have a letter of their own; the tab is the second one for itself. */
  const NAMES: map<char, nat> :=
    map['0' := 0x00, 'a' := 0x07, 'b' := 0x08, 't' := 0x09, '\t' := 0x09, 'n' := 0x0A, 'v' := 0x0B, 'f' := 0x0C,
        'r' := 0x0D, 'e' := 0x1B, ' ' := 0x20, '"' := 0x22, '/' := 0x2F, '\\' := 0x5C, 'N' := 0x85, '_' := 0xA0,
        'L' := 0x2028, 'P' := 0x2029]

  /** The number of digits behind `\x`, `\u` and `\U`. */
  const WIDTHS: map<char, nat> := map['x' := 2, 'u' := 4, 'U' := 8]

  const LOWER := "0123456789abcdef"
  const UPPER := "0123456789ABCDEF"

  predicate IsDigit(c: Unit, d: nat) {
    d < 16 && (c == LOWER[d] as int || c == UPPER[d] as int)
  }

  function Letter(c: Unit): char {
    if c < 256 then c as char else '?'
  }

  predicate Character(c: Unit) { (c == 9 || c >= 32) && c != 34 && c != 92 }

  predicate IsBreak(b: Break) {
    && (b.mark == [10] || b.mark == [13] || b.mark == [13, 10])
    && forall i | 0 <= i < |b.blanks| :: b.blanks[i] == 9 || b.blanks[i] == 32
  }

  /** Breaks that are not read otherwise: a carriage return directly before a line feed is one break. */
  predicate AreBreaks(bs: seq<Break>) {
    bs != [] ==>
      && IsBreak(bs[0]) && AreBreaks(bs[1..])
      && (|bs| > 1 && bs[0] == Break([13], []) ==> bs[1].mark != [10])
  }

  predicate IsItem(item: Item) {
    match item
    case Chars(text) => forall i | 0 <= i < |text| :: Character(text[i])
    case Named(c) => Letter(c) in NAMES
    case Coded(c, digits) => Letter(c) in WIDTHS && |digits| == WIDTHS[Letter(c)] && HexNumber(digits).Some?
    case Fold(bs) => bs != [] && AreBreaks(bs)
    case Joined(bs) => bs != [] && AreBreaks(bs)
  }

  function BreaksText(bs: seq<Break>): seq<Unit> {
    if bs == [] then [] else bs[0].mark + bs[0].blanks + BreaksText(bs[1..])
  }

  function ItemText(item: Item): seq<Unit> {
    match item
    case Chars(text) => text
    case Named(c) => [92, c]
    case Coded(c, digits) => [92, c] + digits
    case Fold(bs) => BreaksText(bs)
    case Joined(bs) => [92] + BreaksText(bs)
  }

  /** A code as UTF-16. The source does not refuse codes above 0x10FFFF: it takes the units it computes
      in 32-bit arithmetic modulo 2^16. */
  function CodeUnits(v: nat): seq<Unit> {
    if v <= 0xFFFF then [v]
    else if v < 0x8000_0000 then
      [(0xD800 + (v - 0x1_0000) / 1024) % 65536, 0xDC00 + (v - 0x1_0000) % 1024]
    else [v % 65536]
  }

  /** One break is a space, more are one line feed less. */
  function FoldedAs(n: nat): seq<Unit>
    requires n > 0
  {
    if n == 1 then [32] else seq(n - 1, _ => 10)
  }

  function ItemMeaning(item: Item): seq<Unit>
    requires IsItem(item)
  {
    match item
    case Chars(text) => text
    case Named(c) => [NAMES[Letter(c)]]
    case Coded(_, digits) => CodeUnits(HexNumber(digits).value)
    case Fold(bs) => FoldedAs(|bs|)
    case Joined(_) => []
  }

  function Text(items: seq<Item>): seq<Unit> {
    if items == [] then [] else ItemText(items[0]) + Text(items[1..])
  }

  function Meaning(items: seq<Item>): seq<Unit>
    requires forall i | 0 <= i < |items| :: IsItem(items[i])
  {
    if items == [] then [] else ItemMeaning(items[0]) + Meaning(items[1..])
  }

  /** Three dashes or dots, followed by white space or nothing. */
  predicate DocumentMark(rest: seq<Unit>) {
    && |rest| >= 3 && (rest[..3] == [45, 45, 45] || rest[..3] == [46, 46, 46])
    && (|rest| == 3 || rest[3] in {0, 9, 10, 13, 32})
  }

  /** What follows a break is not blank, not a break, and no document mark at the start of its line. */
  predicate Resumes(bs: seq<Break>, rest: seq<Unit>)
    requires bs != []
  {
    && (rest != [] ==> rest[0] !in {9, 10, 13, 32})
    && (bs[|bs| - 1].blanks == [] ==> !DocumentMark(rest))
  }

  predicate Follows(item: Item, rest: seq<Unit>)
    requires IsItem(item)
  {
    match item
    case Fold(bs) => Resumes(bs, rest)
    case Joined(bs) => Resumes(bs, rest)
    case _ => true
  }

  predicate IsContent(items: seq<Item>, tail: seq<Unit>) {
    items != [] ==>
      IsItem(items[0]) && Follows(items[0], Text(items[1..]) + tail) && IsContent(items[1..], tail)
  }

  lemma {:induction false} ContentItems(items: seq<Item>, tail: seq<Unit>)
    requires IsContent(items, tail)
    ensures forall i | 0 <= i < |items| :: IsItem(items[i])
  {
    hide IsItem, Follows, Text;
    if items != [] {
      ContentItems(items[1..], tail);
      forall i | 0 <= i < |items| ensures IsItem(items[i]) {
        if i > 0 { assert items[i] == items[1..][i - 1]; }
      }
    }
  }

  // ---- The tables are those of the code ----

  lemma NamesAre(c: Unit)
    ensures (if c < 256 then NamedEscape(c) else None) == if Letter(c) in NAMES then Some(NAMES[Letter(c)]) else None
  {
  }

  lemma WidthsAre(c: Unit)
    ensures HexLength(c) == if Letter(c) in WIDTHS then WIDTHS[Letter(c)] else 0
  {
  }

  lemma DigitsAre(c: Unit, d: nat)
    ensures HexValue(c) == Some(d) <==> IsDigit(c, d)
  {
  }

  lemma MarkIs(input: seq<Unit>, p: nat)
    requires p <= |input|
    ensures DocumentSeparator(input, p) <==> DocumentMark(input[p..])
  {
    var rest := input[p..];
    assert forall i | 0 <= i < |rest| :: rest[i] == input[p + i];
    if |rest| >= 3 { assert rest[..3] == [rest[0], rest[1], rest[2]]; }
  }

  // ---- Breaks ----

  lemma {:induction false} BlanksEnd(input: seq<Unit>, q: nat, end: nat)
    requires q <= end <= |input| && (forall i | q <= i < end :: Blank(input[i])) && (end < |input| ==> !Blank(input[end]))
    ensures SkipBlanks(input, q) == end
    decreases end - q
  {
    if q < end { BlanksEnd(input, q + 1, end); }
  }

  lemma {:induction false} SpacesWithin(input: seq<Unit>, q: nat, end: nat)
    requires q <= end <= |input| && (end < |input| ==> !Blank(input[end]))
    ensures q <= SkipSpaces(input, q) <= end
    decreases end - q
  {
    if q < end { SpacesWithin(input, q + 1, end); }
  }

  lemma BlanksSkipped(input: seq<Unit>, q: nat, blanks: seq<Unit>)
    requires q + |blanks| <= |input| && input[q..q + |blanks|] == blanks
    requires forall i | 0 <= i < |blanks| :: blanks[i] == 9 || blanks[i] == 32
    requires q + |blanks| < |input| ==> !Blank(input[q + |blanks|])
    ensures SkipBlanks(input, SkipSpaces(input, q)) == q + |blanks|
  {
    var end := q + |blanks|;
    forall i | q <= i < end ensures Blank(input[i]) { assert input[i] == blanks[i - q]; }
    SpacesWithin(input, q, end);
    BlanksEnd(input, SkipSpaces(input, q), end);
  }

  /** After the breaks at `q` comes neither a blank nor a break. */
  predicate BreaksAt(input: seq<Unit>, q: nat, bs: seq<Break>) {
    var end := q + |BreaksText(bs)|;
    && AreBreaks(bs) && end <= |input| && input[q..end] == BreaksText(bs)
    && (end < |input| ==> !Blank(input[end]) && !LineBreak(input[end]))
  }

  lemma FirstBreak(input: seq<Unit>, q: nat, bs: seq<Break>)
    requires bs != [] && BreaksAt(input, q, bs)
    ensures var m, b := q + |bs[0].mark|, bs[0].blanks;
            && q < |input| && LineBreak(input[q]) && m + |b| <= |input| && input[m..m + |b|] == b
            && AfterBreak(input, q) == m
            && BreaksAt(input, m + |b|, bs[1..]) && (m + |b| < |input| ==> !Blank(input[m + |b|]))
  {
    hide AfterBreak, BreaksAt, AreBreaks;
    FirstParts(input, q, bs);
    var m, b := q + |bs[0].mark|, bs[0].blanks;
    NextUnit(input, m + |b|, bs[1..]);
    if b != [] && m < |input| { assert input[m] == b[0]; }
    MarkEnds(input, q, bs[0].mark);
  }

  lemma FirstParts(input: seq<Unit>, q: nat, bs: seq<Break>)
    requires bs != [] && BreaksAt(input, q, bs)
    ensures var m, b := q + |bs[0].mark|, bs[0].blanks;
            && m + |b| <= |input| && input[q..m] == bs[0].mark && input[m..m + |b|] == b
            && BreaksAt(input, m + |b|, bs[1..]) && IsBreak(bs[0])
            && (|bs| > 1 && bs[0] == Break([13], []) ==> bs[1].mark != [10])
            && (|bs| > 1 ==> IsBreak(bs[1]))
  {
    hide AreBreaks, IsBreak, BreaksText;
    BreaksFirst(bs);
    ThreeParts(input, q, bs[0].mark, bs[0].blanks, BreaksText(bs[1..]));
  }

  lemma ThreeParts(input: seq<Unit>, q: nat, a: seq<Unit>, b: seq<Unit>, c: seq<Unit>)
    requires q + |a + b + c| <= |input| && input[q..q + |a + b + c|] == a + b + c
    ensures var m, e := q + |a|, q + |a| + |b|;
            input[q..m] == a && input[m..e] == b && input[e..e + |c|] == c && e + |c| == q + |a + b + c|
  {
    SliceParts(input, q, a + b, c);
    SliceParts(input, q, a, b);
  }

  lemma BreaksFirst(bs: seq<Break>)
    requires bs != [] && AreBreaks(bs)
    ensures IsBreak(bs[0]) && AreBreaks(bs[1..]) && (|bs| > 1 ==> IsBreak(bs[1]))
    ensures |bs| > 1 && bs[0] == Break([13], []) ==> bs[1].mark != [10]
    ensures BreaksText(bs) == bs[0].mark + bs[0].blanks + BreaksText(bs[1..])
  {
  }

  lemma MarkEnds(input: seq<Unit>, q: nat, mark: seq<Unit>)
    requires mark == [10] || mark == [13] || mark == [13, 10]
    requires q + |mark| <= |input| && input[q..q + |mark|] == mark
    requires mark == [13] && q + 1 < |input| ==> input[q + 1] != 10
    ensures LineBreak(input[q]) && AfterBreak(input, q) == q + |mark|
  {
    assert input[q] == mark[0];
    if |mark| == 2 { assert input[q + 1] == mark[1]; }
  }

  /** Behind a break and its blanks: the next break, or what ends them. */
  lemma NextUnit(input: seq<Unit>, e: nat, bs: seq<Break>)
    requires BreaksAt(input, e, bs)
    ensures e < |input| ==> !Blank(input[e]) && (LineBreak(input[e]) ==> bs != [] && input[e] == bs[0].mark[0])
  {
    if bs != [] {
      assert BreaksText(bs)[0] == bs[0].mark[0];
      assert input[e] == input[e..e + |BreaksText(bs)|][0];
    }
  }

  lemma {:induction false} BreaksSkipped(input: seq<Unit>, q: nat, lineStart: nat, n: nat, bs: seq<Break>)
    requires q <= |input| && BreaksAt(input, q, bs)
    ensures var end := q + |BreaksText(bs)|;
            Separated(input, q, lineStart, n) ==
              (end, if bs == [] then lineStart else end - |bs[|bs| - 1].blanks|, n + |bs|)
    decreases |bs|
  {
    hide SkipBlanks, SkipSpaces, Separated, AfterBreak, BreaksAt, BreaksText;
    if bs == [] {
      NoBreaks(input, q, lineStart, n, bs);
    } else {
      FirstBreak(input, q, bs);
      var m, b := q + |bs[0].mark|, bs[0].blanks;
      FirstIs(input, q, bs);
      BlanksSkipped(input, m, b);
      SeparatedNext(input, q, lineStart, n);
      BreaksSkipped(input, m + |b|, m, n + 1, bs[1..]);
    }
  }

  lemma NoBreaks(input: seq<Unit>, q: nat, lineStart: nat, n: nat, bs: seq<Break>)
    requires q <= |input| && bs == [] && BreaksAt(input, q, bs)
    ensures BreaksText(bs) == [] && Separated(input, q, lineStart, n) == (q, lineStart, n)
  {
  }

  lemma FirstIs(input: seq<Unit>, q: nat, bs: seq<Break>)
    requires bs != [] && BreaksAt(input, q, bs)
    ensures IsBreak(bs[0]) && |BreaksText(bs)| == |bs[0].mark| + |bs[0].blanks| + |BreaksText(bs[1..])|
    ensures |bs| > 1 ==> bs[1..][|bs| - 2] == bs[|bs| - 1]
    ensures |bs| == 1 ==> BreaksText(bs[1..]) == []
  {
  }

  /** Skipping from a break counts the breaks and ends behind the last blanks. */
  lemma SeparationSkipped(input: seq<Unit>, q: nat, lineStart: nat, bs: seq<Break>)
    requires bs != [] && BreaksAt(input, q, bs)
    ensures q < |input| && LineBreak(input[q])
    ensures var end := q + |BreaksText(bs)|;
            SkipSeparation(input, q, lineStart) == (end, end - |bs[|bs| - 1].blanks|, |bs|)
  {
    hide SkipSeparation, SkipSpaces, AfterBreak, AreBreaks, BreaksAt;
    FirstBreak(input, q, bs);
    BlanksEnd(input, q, q);
    SeparationOnce(input, q, lineStart);
    BreaksSkipped(input, q, lineStart, 0, bs);
  }

  // ---- Digits ----

  function Power(n: nat): nat {
    if n == 0 then 1 else 16 * Power(n - 1)
  }

  lemma {:induction false} HexLimit(h: seq<Unit>)
    requires HexNumber(h).Some?
    ensures HexNumber(h).value < Power(|h|)
  {
    if h != [] { HexLimit(h[..|h| - 1]); }
  }

  lemma {:induction false} PowerMono(m: nat, n: nat)
    requires m <= n
    ensures 1 <= Power(m) <= Power(n)
    decreases n
  {
    if m < n { PowerMono(m, n - 1); } else if n > 0 { PowerMono(n - 1, n - 1); }
  }

  lemma Powers()
    ensures Power(7) == 0x1000_0000 && Power(8) == 0x1_0000_0000
  {
    assert Power(2) == 256;
    assert Power(4) == 65536;
    assert Power(6) == 0x100_0000;
  }

  lemma Wraps(x: nat)
    requires x < 0x1_0000_0000
    ensures Int32(x) == if x < 0x8000_0000 then x else x - 0x1_0000_0000
  {
    DivModUnique(x + 0x8000_0000, 0x1_0000_0000, if x < 0x8000_0000 then 0 else 1,
                 if x < 0x8000_0000 then x + 0x8000_0000 else x - 0x8000_0000);
  }

  lemma WrapDigit(v: nat, d: nat)
    requires v < 0x1000_0000 && d < 16
    ensures Int32(v) == v && Int32(v * 16) + d == Int32(v * 16 + d)
  {
    hide Int32;
    Wraps(v);
    Wraps(v * 16);
    Wraps(v * 16 + d);
  }

  /** Up to eight digits are read as their number in a 32-bit word. */
  lemma {:induction false} DigitsRead(input: seq<Unit>, p: nat, h: seq<Unit>, i: nat)
    requires p + |h| <= |input| && input[p..p + |h|] == h && i <= |h| <= 8
    requires HexNumber(h).Some? && HexNumber(h[..i]).Some?
    ensures ReadHex(input, p + i, |h| - i, Int32(HexNumber(h[..i]).value)) == Some(Int32(HexNumber(h).value))
    decreases |h| - i
  {
    hide HexNumber, HexValue, ReadHex, Int32, Power;
    if i == |h| {
      assert h[..i] == h;
      ReadNothing(input, p + i, Int32(HexNumber(h).value));
    } else {
      HexPrefix(h, i + 1);
      HexNumberStep(h, i);
      var v := HexNumber(h[..i]).value;
      SmallDigit(h[i]);
      HexLimit(h[..i]);
      PowerMono(i, 7);
      Powers();
      WrapDigit(v, HexValue(h[i]).value);
      assert h[i] == input[p + i];
      ReadHexStep(input, p + i, |h| - i, Int32(v));
      DigitsRead(input, p, h, i + 1);
    }
  }

  lemma SmallDigit(c: Unit)
    ensures HexValue(c).Some? ==> HexValue(c).value < 16
  {
  }

  lemma CodeUnitsAre(v: nat)
    requires v < 0x1_0000_0000
    ensures FromCode(Int32(v)) == CodeUnits(v)
  {
    hide Int32;
    Wraps(v);
    if v >= 0x8000_0000 {
      Negative(v);
    } else if v > 0xFFFF {
      LowUnit((v - 0x1_0000) % 1024);
    } else {
      DivModUnique(v, 65536, 0, v);
    }
  }

  lemma LowUnit(r: nat)
    requires r < 1024
    ensures (0xDC00 + r) % 65536 == 0xDC00 + r
  {
    DivModUnique(0xDC00 + r, 65536, 0, 0xDC00 + r);
  }

  lemma Negative(v: nat)
    requires 0x8000_0000 <= v < 0x1_0000_0000
    ensures (v - 0x1_0000_0000) % 65536 == v % 65536
  {
    var q, r := v / 65536, v % 65536;
    assert v - 0x1_0000_0000 == (q - 65536) * 65536 + r;
  }

  /** The units are the code point as UTF-16: itself, or the surrogate pair that stands for it. */
  predicate StandFor(w: seq<Unit>, v: nat) {
    || w == [v]
    || (&& |w| == 2 && 0xD800 <= w[0] <= 0xDBFF && 0xDC00 <= w[1] <= 0xDFFF
        && 0x1_0000 + (w[0] as int - 0xD800) * 1024 + (w[1] as int - 0xDC00) == v)
  }

  /** An escape is read as the code point it names, if and only if it names one: a code above 0x10FFFF is
      not refused, but read as units that stand for something else. */
  lemma CodeStandsFor(v: nat)
    requires v < 0x1_0000_0000
    ensures StandFor(CodeUnits(v), v) <==> v <= 0x10_FFFF
  {
    if 0x1_0000 <= v <= 0x10_FFFF {
      var q, r := (v - 0x1_0000) / 1024, (v - 0x1_0000) % 1024;
      DivModUnique(0xD800 + q, 65536, 0, 0xD800 + q);
    }
  }

  // ---- One item ----

  /** Everything before the position of `s` was read as `done`. */
  ghost predicate Reading(input: seq<Unit>, s: Scan, done: seq<Unit>) {
    && ScanOk(input, s) && s.lineStart <= s.pos && (s.lineStart == s.pos ==> !DocumentMark(input[s.pos..]))
    && Capturable(input[s.from..s.pos]) && s.result + input[s.from..s.pos] == done
  }

  lemma ReadCharacter(input: seq<Unit>, s: Scan, done: seq<Unit>) returns (s': Scan)
    requires Reading(input, s, done) && s.pos < |input| && Character(input[s.pos])
    ensures s'.pos == s.pos + 1 && Reading(input, s', done + [input[s.pos]]) && ReadFrom(input, s) == ReadFrom(input, s')
  {
    hide ReadEscape, SkipSeparation, DocumentSeparator, Folded, DocumentMark;
    s' := s.(pos := s.pos + 1);
    MarkIs(input, s.pos);
    assert input[s.from..s'.pos] == input[s.from..s.pos] + [input[s.pos]];
  }

  lemma {:induction false} ReadCharacters(input: seq<Unit>, s: Scan, done: seq<Unit>, w: seq<Unit>) returns (s': Scan)
    requires Reading(input, s, done) && s.pos + |w| <= |input| && input[s.pos..s.pos + |w|] == w
    requires forall i | 0 <= i < |w| :: Character(w[i])
    ensures s'.pos == s.pos + |w| && Reading(input, s', done + w) && ReadFrom(input, s) == ReadFrom(input, s')
    decreases |w|
  {
    hide Reading, ReadFrom, Character;
    if w == [] {
      s' := s;
      assert done + w == done;
    } else {
      assert input[s.pos] == w[0];
      s' := ReadCharacter(input, s, done);
      assert input[s'.pos..s'.pos + |w[1..]|] == w[1..];
      s' := ReadCharacters(input, s', done + [w[0]], w[1..]);
      assert done + [w[0]] + w[1..] == done + w;
    }
  }

  /** After an escape or a break, reading goes on with nothing captured. */
  lemma Restarts(input: seq<Unit>, done: seq<Unit>, w: seq<Unit>, p: nat, lineStart: nat) returns (s': Scan)
    requires lineStart <= p <= |input| && (lineStart == p ==> !DocumentMark(input[p..]))
    ensures s' == Scan(p, lineStart, p, done + w) && Reading(input, s', done + w)
  {
    s' := Scan(p, lineStart, p, done + w);
    assert input[p..p] == [] && done + w + [] == done + w;
  }

  lemma ReadAnEscape(input: seq<Unit>, s: Scan, done: seq<Unit>, w: seq<Unit>, p: nat, lineStart: nat) returns (s': Scan)
    requires Reading(input, s, done) && s.pos < |input| && input[s.pos] == 92
    requires ReadEscape(input, s.pos, s.lineStart) == Good(w, p, lineStart)
    requires lineStart <= p <= |input| && (lineStart == p ==> !DocumentMark(input[p..]))
    ensures s'.pos == p && Reading(input, s', done + w) && ReadFrom(input, s) == ReadFrom(input, s')
  {
    hide ReadFrom, ReadEscape, DocumentMark;
    EscapeLeads(input, s, done, w, p, lineStart);
    s' := Restarts(input, done, w, p, lineStart);
  }

  lemma EscapeLeads(input: seq<Unit>, s: Scan, done: seq<Unit>, w: seq<Unit>, p: nat, lineStart: nat)
    requires Reading(input, s, done) && s.pos < |input| && input[s.pos] == 92
    requires ReadEscape(input, s.pos, s.lineStart) == Good(w, p, lineStart) && p <= |input|
    ensures ReadFrom(input, s) == ReadFrom(input, Scan(p, lineStart, p, done + w))
  {
    hide ReadEscape, SkipSeparation, DocumentSeparator, Folded, DocumentMark, Capturable;
  }

  lemma BreakLeads(input: seq<Unit>, s: Scan, done: seq<Unit>)
    requires Reading(input, s, done) && s.pos < |input| && LineBreak(input[s.pos])
    ensures var (p, lineStart, n) := SkipSeparation(input, s.pos, s.lineStart);
            ReadFrom(input, s) == ReadFrom(input, Scan(p, lineStart, p, done + Folded(n)))
  {
    hide ReadEscape, SkipSeparation, DocumentSeparator, DocumentMark, Capturable, Folded;
  }

  lemma EndInside(input: seq<Unit>, q: nat, bs: seq<Break>)
    requires bs != [] && BreaksAt(input, q, bs)
    ensures q + |BreaksText(bs)| <= |input|
  {
  }

  lemma ReadABreak(input: seq<Unit>, s: Scan, done: seq<Unit>, bs: seq<Break>) returns (s': Scan)
    requires Reading(input, s, done) && bs != [] && BreaksAt(input, s.pos, bs)
    requires Resumes(bs, input[s.pos + |BreaksText(bs)|..])
    ensures s'.pos == s.pos + |BreaksText(bs)|
    ensures Reading(input, s', done + FoldedAs(|bs|)) && ReadFrom(input, s) == ReadFrom(input, s')
  {
    hide ReadFrom, SkipSeparation, DocumentMark, BreaksAt;
    SeparationSkipped(input, s.pos, s.lineStart, bs);
    var end := s.pos + |BreaksText(bs)|;
    EndInside(input, s.pos, bs);
    BreakLeads(input, s, done);
    s' := Restarts(input, done, FoldedAs(|bs|), end, end - |bs[|bs| - 1].blanks|);
    assert Folded(|bs|) == FoldedAs(|bs|);
  }

  lemma NamedAt(input: seq<Unit>, p: nat, lineStart: nat, c: Unit)
    requires p + 1 < |input| && input[p + 1] == c && Letter(c) in NAMES
    ensures ReadEscape(input, p, lineStart) == Good([NAMES[Letter(c)]], p + 2, lineStart)
  {
    hide SkipSeparation, ReadHex, NamedEscape;
    NamesAre(c);
  }

  lemma CodedAt(input: seq<Unit>, p: nat, lineStart: nat, c: Unit, digits: seq<Unit>)
    requires Letter(c) in WIDTHS && |digits| == WIDTHS[Letter(c)] && HexNumber(digits).Some?
    requires p + 2 + |digits| <= |input| && input[p + 1] == c && input[p + 2..p + 2 + |digits|] == digits
    ensures ReadEscape(input, p, lineStart) == Good(CodeUnits(HexNumber(digits).value), p + 2 + |digits|, lineStart)
  {
    hide ReadEscape, ReadHex, HexNumber, FromCode, CodeUnits, Int32;
    DigitsGive(input, p + 2, digits);
    HexEscapeAt(input, p, lineStart, c, Int32(HexNumber(digits).value));
  }

  lemma DigitsGive(input: seq<Unit>, p: nat, digits: seq<Unit>)
    requires p + |digits| <= |input| && input[p..p + |digits|] == digits && |digits| <= 8 && HexNumber(digits).Some?
    ensures var v := HexNumber(digits).value;
            ReadHex(input, p, |digits|, 0) == Some(Int32(v)) && FromCode(Int32(v)) == CodeUnits(v)
  {
    hide ReadHex, HexNumber, FromCode, CodeUnits, Int32, Power;
    NoDigits();
    assert digits[..0] == [];
    Wraps(0);
    DigitsRead(input, p, digits, 0);
    HexLimit(digits);
    PowerMono(|digits|, 8);
    Powers();
    CodeUnitsAre(HexNumber(digits).value);
  }

  lemma HexEscapeAt(input: seq<Unit>, p: nat, lineStart: nat, c: Unit, o: int)
    requires p + 1 < |input| && input[p + 1] == c && Letter(c) in WIDTHS
    requires ReadHex(input, p + 2, WIDTHS[Letter(c)], 0) == Some(o)
    ensures ReadEscape(input, p, lineStart) == Good(FromCode(o), p + 2 + WIDTHS[Letter(c)], lineStart)
  {
    hide SkipSeparation, ReadHex, NamedEscape, HexLength, FromCode;
    WidthsAre(c);
    NamesAre(c);
  }

  lemma JoinedAt(input: seq<Unit>, p: nat, lineStart: nat, bs: seq<Break>)
    requires p < |input| && bs != [] && BreaksAt(input, p + 1, bs)
    ensures var end, r := p + 1 + |BreaksText(bs)|, SkipSeparation(input, p + 1, lineStart);
            && end <= |input| && r.0 == end && r.1 == end - |bs[|bs| - 1].blanks|
            && ReadEscape(input, p, lineStart) == Good([], end, r.1)
  {
    hide SkipSeparation, ReadHex, NamedEscape, BreaksAt;
    SeparationSkipped(input, p + 1, lineStart, bs);
    EndInside(input, p + 1, bs);
  }

  lemma BreaksHere(input: seq<Unit>, q: nat, bs: seq<Break>)
    requires bs != [] && AreBreaks(bs) && q + |BreaksText(bs)| <= |input|
    requires input[q..q + |BreaksText(bs)|] == BreaksText(bs) && Resumes(bs, input[q + |BreaksText(bs)|..])
    ensures BreaksAt(input, q, bs)
  {
    hide BreaksText, AreBreaks;
    var end := q + |BreaksText(bs)|;
    if end < |input| { assert input[end] == input[end..][0]; }
  }

  lemma ReadItem(input: seq<Unit>, s: Scan, done: seq<Unit>, item: Item) returns (s': Scan)
    requires Reading(input, s, done) && IsItem(item) && s.pos + |ItemText(item)| <= |input|
    requires input[s.pos..s.pos + |ItemText(item)|] == ItemText(item)
    requires Follows(item, input[s.pos + |ItemText(item)|..])
    ensures s'.pos == s.pos + |ItemText(item)| && Reading(input, s', done + ItemMeaning(item))
    ensures ReadFrom(input, s) == ReadFrom(input, s')
  {
    hide Reading, ReadFrom, BreaksText, AreBreaks, HexNumber, CodeUnits, DocumentMark, BreaksAt, ReadEscape, SkipSeparation;
    var p := s.pos;
    match item
    case Chars(text) => s' := ReadCharacters(input, s, done, text);
    case Named(c) =>
      Escaped(input, p, [c]);
      NamedAt(input, p, s.lineStart, c);
      LineBehind(input, s, done);
      s' := ReadAnEscape(input, s, done, [NAMES[Letter(c)]], p + 2, s.lineStart);
    case Coded(c, digits) => s' := ReadCoded(input, s, done, item);
    case Fold(bs) =>
      BreaksHere(input, p, bs);
      s' := ReadABreak(input, s, done, bs);
    case Joined(bs) => s' := ReadJoined(input, s, done, bs);
  }

  lemma ReadCoded(input: seq<Unit>, s: Scan, done: seq<Unit>, item: Item) returns (s': Scan)
    requires Reading(input, s, done) && item.Coded? && IsItem(item) && s.pos + |ItemText(item)| <= |input|
    requires input[s.pos..s.pos + |ItemText(item)|] == ItemText(item)
    ensures s'.pos == s.pos + |ItemText(item)| && Reading(input, s', done + ItemMeaning(item))
    ensures ReadFrom(input, s) == ReadFrom(input, s')
  {
    hide Reading, ReadFrom, HexNumber, CodeUnits, DocumentMark, ReadEscape;
    var p, c, digits := s.pos, item.letter, item.digits;
    CodedParts(input, p, c, digits);
    CodedAt(input, p, s.lineStart, c, digits);
    LineBehind(input, s, done);
    s' := ReadAnEscape(input, s, done, CodeUnits(HexNumber(digits).value), p + 2 + |digits|, s.lineStart);
  }

  lemma CodedParts(input: seq<Unit>, p: nat, c: Unit, digits: seq<Unit>)
    requires p + 2 + |digits| <= |input| && input[p..p + 2 + |digits|] == [92, c] + digits
    ensures input[p] == 92 && input[p + 1] == c && input[p + 2..p + 2 + |digits|] == digits
  {
    SliceParts(input, p, [92, c], digits);
    assert input[p] == input[p..p + 2][0] && input[p + 1] == input[p..p + 2][1];
  }

  lemma ReadJoined(input: seq<Unit>, s: Scan, done: seq<Unit>, bs: seq<Break>) returns (s': Scan)
    requires Reading(input, s, done) && bs != [] && AreBreaks(bs) && s.pos + 1 + |BreaksText(bs)| <= |input|
    requires input[s.pos..s.pos + 1 + |BreaksText(bs)|] == [92] + BreaksText(bs)
    requires Resumes(bs, input[s.pos + 1 + |BreaksText(bs)|..])
    ensures s'.pos == s.pos + 1 + |BreaksText(bs)| && Reading(input, s', done + [])
    ensures ReadFrom(input, s) == ReadFrom(input, s')
  {
    hide Reading, ReadFrom, BreaksText, AreBreaks, DocumentMark, BreaksAt, ReadEscape, SkipSeparation;
    Escaped(input, s.pos, BreaksText(bs));
    BreaksHere(input, s.pos + 1, bs);
    JoinedAt(input, s.pos, s.lineStart, bs);
    var end := s.pos + 1 + |BreaksText(bs)|;
    s' := ReadAnEscape(input, s, done, [], end, SkipSeparation(input, s.pos + 1, s.lineStart).1);
  }

  lemma LineBehind(input: seq<Unit>, s: Scan, done: seq<Unit>)
    requires Reading(input, s, done)
    ensures s.lineStart <= s.pos
  {
  }

  lemma Escaped(input: seq<Unit>, p: nat, w: seq<Unit>)
    requires p + 1 + |w| <= |input| && input[p..p + 1 + |w|] == [92] + w
    ensures input[p] == 92 && input[p + 1..p + 1 + |w|] == w && (w != [] ==> input[p + 1] == w[0])
  {
    SliceParts(input, p, [92], w);
    assert input[p] == input[p..p + 1][0];
    if w != [] { assert input[p + 1] == input[p + 1..p + 1 + |w|][0]; }
  }

  // ---- Whole scalars ----

  /** Reading content leads to a state in which its meaning has been read. */
  lemma {:induction false} ReadContent(input: seq<Unit>, s: Scan, done: seq<Unit>, items: seq<Item>) returns (s': Scan)
    requires Reading(input, s, done) && s.pos + |Text(items)| <= |input|
    requires input[s.pos..s.pos + |Text(items)|] == Text(items)
    requires IsContent(items, input[s.pos + |Text(items)|..])
    requires forall i | 0 <= i < |items| :: IsItem(items[i])
    ensures s'.pos == s.pos + |Text(items)| && Reading(input, s', done + Meaning(items))
    ensures ReadFrom(input, s) == ReadFrom(input, s')
    decreases |items|
  {
    hide Reading, ReadFrom, IsItem, ItemText, Follows, ItemMeaning;
    if items == [] {
      s' := s;
      assert done + [] == done;
    } else {
      var first, rest := ItemText(items[0]), Text(items[1..]);
      SliceParts(input, s.pos, first, rest);
      var q, end := s.pos + |first|, s.pos + |first| + |rest|;
      assert input[q..] == rest + input[end..] by { assert input[q..] == input[q..end] + input[end..]; }
      s' := ReadItem(input, s, done, items[0]);
      assert forall i | 0 <= i < |items[1..]| :: items[1..][i] == items[i + 1];
      s' := ReadContent(input, s', done + ItemMeaning(items[0]), items[1..]);
      assert done + ItemMeaning(items[0]) + Meaning(items[1..]) == done + Meaning(items);
    }
  }

  /** The state after the content of a scalar that begins behind `before`. */
  lemma ReadOpened(before: seq<Unit>, items: seq<Item>, tail: seq<Unit>, lineStart: nat) returns (s: Scan)
    requires lineStart <= |before| && IsContent(items, tail) && forall i | 0 <= i < |items| :: IsItem(items[i])
    ensures var input := before + [34] + Text(items) + tail;
            && s.pos == |before| + 1 + |Text(items)| && Reading(input, s, Meaning(items))
            && ReadScalar(input, |before|, lineStart) == ReadFrom(input, s)
  {
    hide Text, IsContent, IsItem, Meaning, ReadFrom;
    var input, p := before + [34] + Text(items) + tail, |before| + 1;
    var end := p + |Text(items)|;
    assert input[|before|] == 34 && input[p..end] == Text(items) && input[end..] == tail && input[p..p] == [];
    s := Scan(p, lineStart, p, []);
    s := ReadContent(input, s, [], items);
    assert [] + Meaning(items) == Meaning(items);
  }

  /** A scalar is read as the meaning of its content, up to just past the closing quote. */
  lemma ReadClosed(before: seq<Unit>, items: seq<Item>, after: seq<Unit>, lineStart: nat)
    requires lineStart <= |before| && IsContent(items, [34] + after) && forall i | 0 <= i < |items| :: IsItem(items[i])
    ensures ReadScalar(before + [34] + Text(items) + ([34] + after), |before|, lineStart)
            == Scalar(Meaning(items), |before| + 1 + |Text(items)| + 1)
  {
    hide Text, IsContent, IsItem, Meaning, ReadScalar, ReadEscape, SkipSeparation, DocumentMark, DocumentSeparator, Capturable;
    var input := before + [34] + Text(items) + ([34] + after);
    var s := ReadOpened(before, items, [34] + after, lineStart);
    assert input[s.pos] == 34;
  }
}
