/**
  * Double-quoted YAML scalars (bundle module 90): the printer used for strings that need escapes,
  * and the reader.  Text is a sequence of UTF-16 code units.
  */
module YamlDoubleQuoted {
  import opened Options
  import opened Words

  const QUOTE: Unit := 34
  const BACKSLASH: Unit := 92

  // ---- Printer ----

  /** The code point at the start: a surrogate pair counts as one, a lone surrogate as itself. */
  function CodePoint(s: seq<Unit>): (r: (nat, nat))
    requires s != []
    ensures 1 <= r.1 <= 2 && r.1 <= |s| && r.0 <= 0x10_FFFF
  {
    if 0xD800 <= s[0] <= 0xDBFF && |s| > 1 && 0xDC00 <= s[1] <= 0xDFFF
    then (1024 * (s[0] as int - 0xD800) + (s[1] as int - 0xDC00) + 0x1_0000, 2)
    else (s[0], 1)
  }

  /** The letter of a named escape. */
  function EscapeLetter(r: nat): Option<Unit> {
    if r == 0 then Some(48) else if r == 7 then Some(97) else if r == 8 then Some(98)
    else if r == 9 then Some(116) else if r == 10 then Some(110) else if r == 11 then Some(118)
    else if r == 12 then Some(102) else if r == 13 then Some(114) else if r == 27 then Some(101)
    else if r == 34 then Some(34) else if r == 92 then Some(92) else if r == 133 then Some(78)
    else if r == 160 then Some(95) else if r == 8232 then Some(76) else if r == 8233 then Some(80)
    else None
  }

  predicate Printable(r: nat) {
    || 32 <= r <= 126
    || (161 <= r <= 55295 && r != 8232 && r != 8233)
    || (57344 <= r <= 65533 && r != 65279)
    || 65536 <= r <= 1114111
  }

  /** An upper-case hexadecimal digit. */
  function HexDigit(d: nat): Unit
    requires d < 16
  {
    if d < 10 then 48 + d else 55 + d
  }

  function ToHex(n: nat): (h: seq<Unit>)
    ensures |h| >= 1
  {
    if n < 16 then [HexDigit(n)] else ToHex(n / 16) + [HexDigit(n % 16)]
  }

  function Zeros(n: nat): seq<Unit> {
    if n == 0 then [] else [48] + Zeros(n - 1)
  }

  /** Backslash, x, u or U, and the code padded to 2, 4 or 8 digits. */
  function HexEscape(r: nat): seq<Unit>
    requires r <= 0x10_FFFF
  {
    var h := ToHex(r);
    var (letter, width) := if r <= 0xFF then (120, 2) else if r <= 0xFFFF then (117, 4) else (85, 8);
    [BACKSLASH, letter] + Zeros(if |h| < width then width - |h| else 0) + h
  }

  function PrintPoint(s: seq<Unit>): seq<Unit>
    requires s != []
  {
    var (r, l) := CodePoint(s);
    match EscapeLetter(r)
    case Some(e) => [BACKSLASH, e]
    case None => if Printable(r) then s[..l] else HexEscape(r)
  }

  function Print(s: seq<Unit>): seq<Unit>
    decreases |s|
  {
    if s == [] then [] else PrintPoint(s) + Print(s[CodePoint(s).1..])
  }

  method PrintScalar(s: seq<Unit>) returns (out: seq<Unit>)
    ensures out == [QUOTE] + Print(s) + [QUOTE]
  {
    hide PrintPoint, CodePoint, Print;
    var n: seq<Unit> := [];
    var i := 0;
    assert s[0..] == s;
    while i < |s|
      invariant i <= |s| && n + Print(s[i..]) == Print(s)
    {
      var piece, l := PrintOne(s[i..]);
      PrintNext(s, i, n);
      n, i := n + piece, i + l;
    }
    PrintNothing(s[i..]);
    assert n + [] == n;
    out := [QUOTE] + n + [QUOTE];
  }

  /** What one round of the printer writes, and the units it takes. */
  method PrintOne(rest: seq<Unit>) returns (piece: seq<Unit>, l: nat)
    requires rest != []
    ensures piece == PrintPoint(rest) && l == CodePoint(rest).1
  {
    hide CodePoint, EscapeLetter, Printable, HexEscape;
    var r := CodePoint(rest).0;
    l := CodePoint(rest).1;
    var e := EscapeLetter(r);
    piece := if e.Some? then [BACKSLASH, e.value] else if Printable(r) then rest[..l] else HexEscape(r);
  }

  lemma PrintNext(s: seq<Unit>, i: nat, n: seq<Unit>)
    requires i < |s|
    ensures var l := CodePoint(s[i..]).1;
            i + l <= |s| && n + Print(s[i..]) == n + PrintPoint(s[i..]) + Print(s[i + l..])
  {
    hide PrintPoint, CodePoint, Print;
    PrintStep(s[i..]);
    assert s[i..][CodePoint(s[i..]).1..] == s[i + CodePoint(s[i..]).1..];
  }

  lemma PrintStep(s: seq<Unit>)
    requires s != []
    ensures Print(s) == PrintPoint(s) + Print(s[CodePoint(s).1..])
  {
  }

  lemma PrintNothing(s: seq<Unit>)
    requires s == []
    ensures Print(s) == []
  {
  }

  // ---- Reader ----

  datatype Error =
    | InvalidCharacter | HexExpected | UnknownEscape | EndOfDocument | EndOfStream

  datatype Outcome = Failed(error: Error) | Scalar(result: seq<Unit>, position: nat) | NotQuoted

  predicate LineBreak(c: Unit) { c == 10 || c == 13 }

  predicate Blank(c: Unit) { c == 9 || c == 32 }

  /** The unit at `p`; the input is closed by the NUL that the loader appends. */
  function Code(input: seq<Unit>, p: nat): Unit {
    if p < |input| then input[p] else 0
  }

  function NamedEscape(c: Unit): Option<Unit> {
    if c == 48 then Some(0) else if c == 97 then Some(7) else if c == 98 then Some(8)
    else if c == 116 || c == 9 then Some(9) else if c == 110 then Some(10) else if c == 118 then Some(11)
    else if c == 102 then Some(12) else if c == 114 then Some(13) else if c == 101 then Some(27)
    else if c == 32 then Some(32) else if c == 34 then Some(34) else if c == 47 then Some(47)
    else if c == 92 then Some(92) else if c == 78 then Some(133) else if c == 95 then Some(160)
    else if c == 76 then Some(8232) else if c == 80 then Some(8233) else None
  }

  function HexLength(c: Unit): nat {
    if c == 120 then 2 else if c == 117 then 4 else if c == 85 then 8 else 0
  }

  /** Digits and letters of either case; the case bit 32 is set before comparing. */
  function HexValue(c: Unit): Option<nat> {
    if 48 <= c <= 57 then Some(c - 48)
    else if 97 <= c <= 102 then Some(c - 87)
    else if 65 <= c <= 70 then Some(c - 55)
    else None
  }

  /** The number the next `n` hexadecimal digits denote, shifted into a 32-bit word. */
  function ReadHex(input: seq<Unit>, p: nat, n: nat, o: int): Option<int>
    decreases n
  {
    if n == 0 then Some(o)
    else
      match HexValue(Code(input, p))
      case None => None
      case Some(d) => ReadHex(input, p + 1, n - 1, Int32(o * 16) + d)
  }

  /** One unit, or a pair for codes above 0xFFFF; each is taken modulo 2^16. */
  function FromCode(o: int): seq<Unit> {
    if o <= 0xFFFF then [o % 65536]
    else [(0xD800 + (o - 0x1_0000) / 1024) % 65536, (0xDC00 + (o - 0x1_0000) % 1024) % 65536]
  }

  function SkipBlanks(input: seq<Unit>, p: nat): (q: nat)
    requires p <= |input|
    ensures p <= q <= |input|
    decreases |input| - p
  {
    if p < |input| && Blank(input[p]) then SkipBlanks(input, p + 1) else p
  }

  function SkipSpaces(input: seq<Unit>, p: nat): (q: nat)
    requires p <= |input|
    ensures p <= q <= |input|
    decreases |input| - p
  {
    if p < |input| && input[p] == 32 then SkipSpaces(input, p + 1) else p
  }

  function AfterBreak(input: seq<Unit>, p: nat): nat {
    if Code(input, p) == 13 && Code(input, p + 1) == 10 then p + 2 else p + 1
  }

  /** Skip blanks and line breaks: new position, start of the current line, number of breaks. */
  function SkipSeparation(input: seq<Unit>, p: nat, lineStart: nat): (r: (nat, nat, nat))
    requires p <= |input|
    ensures p <= r.0 <= |input|
    ensures p < |input| && LineBreak(input[p]) ==> p < r.0
    decreases |input| - p
  {
    var q := SkipBlanks(input, p);
    if q < |input| && LineBreak(input[q]) then
      var start := AfterBreak(input, q);
      var (p', lineStart', n) := SkipSeparation(input, SkipSpaces(input, start), start);
      (p', lineStart', n + 1)
    else (q, lineStart, 0)
  }

  /** What is left to skip at `q`, past any blanks, after `n` breaks. */
  function Separated(input: seq<Unit>, q: nat, lineStart: nat, n: nat): (nat, nat, nat)
    requires q <= |input|
  {
    if q < |input| && LineBreak(input[q]) then
      var start := AfterBreak(input, q);
      var r := SkipSeparation(input, SkipSpaces(input, start), start);
      (r.0, r.1, r.2 + 1 + n)
    else (q, lineStart, n)
  }

  lemma SeparatedStart(input: seq<Unit>, p: nat, lineStart: nat, n: nat)
    requires p <= |input|
    ensures var r := SkipSeparation(input, p, lineStart);
            Separated(input, SkipBlanks(input, p), lineStart, n) == (r.0, r.1, r.2 + n)
  {
    hide SkipBlanks, SkipSpaces, AfterBreak, SkipSeparation;
    SeparationOnce(input, p, lineStart);
  }

  lemma SeparationOnce(input: seq<Unit>, p: nat, lineStart: nat)
    requires p <= |input|
    ensures SkipSeparation(input, p, lineStart) == Separated(input, SkipBlanks(input, p), lineStart, 0)
  {
    hide SkipBlanks, SkipSpaces, AfterBreak;
  }

  lemma SeparatedNext(input: seq<Unit>, q: nat, lineStart: nat, n: nat)
    requires q < |input| && LineBreak(input[q])
    ensures var start := AfterBreak(input, q);
            start <= |input| && Separated(input, q, lineStart, n)
                                == Separated(input, SkipBlanks(input, SkipSpaces(input, start)), start, n + 1)
  {
    hide SkipBlanks, SkipSpaces, SkipSeparation;
    var start := AfterBreak(input, q);
    SeparatedStart(input, SkipSpaces(input, start), start, n + 1);
  }

  /** A single break folds into a space, more into one newline less. */
  function Folded(n: nat): seq<Unit> {
    if n == 1 then [32] else seq(if n > 1 then n - 1 else 0, _ => 10)
  }

  predicate DocumentSeparator(input: seq<Unit>, p: nat) {
    var c := Code(input, p);
    && (c == 45 || c == 46) && c == Code(input, p + 1) && c == Code(input, p + 2)
    && (var e := Code(input, p + 3); e == 0 || Blank(e) || LineBreak(e))
  }

  predicate Capturable(s: seq<Unit>) {
    forall i | 0 <= i < |s| :: s[i] == 9 || s[i] >= 32
  }

  /** What a backslash at `p` stands for, and where reading goes on. */
  datatype Escape = Bad(error: Error) | Good(units: seq<Unit>, pos: nat, lineStart: nat)

  function ReadEscape(input: seq<Unit>, p: nat, lineStart: nat): (e: Escape)
    requires p < |input|
    ensures e.Good? ==> p + 1 < e.pos <= |input|
  {
    var c := Code(input, p + 1);
    if LineBreak(c) then
      var (q, ls, _) := SkipSeparation(input, p + 1, lineStart);
      Good([], q, ls)
    else if c < 256 && NamedEscape(c).Some? then Good([NamedEscape(c).value], p + 2, lineStart)
    else if HexLength(c) > 0 then
      match ReadHex(input, p + 2, HexLength(c), 0)
      case None => Bad(HexExpected)
      case Some(o) => HexInside(input, p + 2, HexLength(c), 0); Good(FromCode(o), p + 2 + HexLength(c), lineStart)
    else Bad(UnknownEscape)
  }

  lemma {:induction false} HexInside(input: seq<Unit>, p: nat, n: nat, o: int)
    requires n > 0 && ReadHex(input, p, n, o).Some?
    ensures p + n <= |input|
    decreases n
  {
    if n > 1 { HexInside(input, p + 1, n - 1, Int32(o * 16) + HexValue(Code(input, p)).value); }
  }

  /** The reader inside the quotes: position, start of line, start of the segment being captured. */
  datatype Scan = Scan(pos: nat, lineStart: nat, from: nat, result: seq<Unit>)

  ghost predicate ScanOk(input: seq<Unit>, s: Scan) {
    s.from <= s.pos <= |input|
  }

  function ReadFrom(input: seq<Unit>, s: Scan): Outcome
    requires ScanOk(input, s)
    decreases |input| - s.pos
  {
    var c := Code(input, s.pos);
    var text := input[s.from..s.pos];
    if c == 0 then Failed(EndOfStream)
    else if c == QUOTE then
      if Capturable(text) then Scalar(s.result + text, s.pos + 1) else Failed(InvalidCharacter)
    else if c == BACKSLASH then
      if !Capturable(text) then Failed(InvalidCharacter)
      else
        match ReadEscape(input, s.pos, s.lineStart)
        case Bad(e) => Failed(e)
        case Good(w, p, ls) => ReadFrom(input, Scan(p, ls, p, s.result + text + w))
    else if LineBreak(c) then
      if !Capturable(text) then Failed(InvalidCharacter)
      else
        var (p, ls, n) := SkipSeparation(input, s.pos, s.lineStart);
        ReadFrom(input, Scan(p, ls, p, s.result + text + Folded(n)))
    else if s.pos == s.lineStart && DocumentSeparator(input, s.pos) then Failed(EndOfDocument)
    else ReadFrom(input, s.(pos := s.pos + 1))
  }

  /** Read a double-quoted scalar at `p`. */
  function ReadScalar(input: seq<Unit>, p: nat, lineStart: nat): Outcome
    requires p <= |input|
  {
    if Code(input, p) != QUOTE then NotQuoted
    else ReadFrom(input, Scan(p + 1, lineStart, p + 1, []))
  }

  // ---- What the printer writes, the reader reads back ----

  /** Hexadecimal digits read back as the number they were printed from. */
  lemma HexDigitValue(d: nat)
    requires d < 16
    ensures HexValue(HexDigit(d)) == Some(d)
  {
  }

  /** The value of a run of digits. */
  function HexNumber(h: seq<Unit>): Option<nat> {
    if h == [] then Some(0)
    else
      match (HexNumber(h[..|h| - 1]), HexValue(h[|h| - 1]))
      case (Some(n), Some(d)) => Some(n * 16 + d)
      case _ => None
  }

  lemma {:induction false} HexNumberOf(n: nat)
    ensures HexNumber(ToHex(n)) == Some(n)
  {
    HexDigitValue(n % 16);
    if n >= 16 {
      HexNumberOf(n / 16);
      assert ToHex(n)[..|ToHex(n)| - 1] == ToHex(n / 16);
    } else {
      assert ToHex(n)[..0] == [];
    }
  }

  lemma {:induction false} HexNumberPadded(k: nat, h: seq<Unit>)
    requires HexNumber(h).Some?
    ensures HexNumber(Zeros(k) + h) == HexNumber(h)
    decreases k, |h|
  {
    var z := Zeros(k) + h;
    if h != [] {
      assert z[..|z| - 1] == Zeros(k) + h[..|h| - 1];
      HexNumberPadded(k, h[..|h| - 1]);
    } else if k > 0 {
      ZerosEnd(k);
      HexNumberPadded(k - 1, []);
      assert z[..|z| - 1] == Zeros(k - 1) + [];
    }
  }

  lemma {:induction false} ZerosEnd(k: nat)
    ensures |Zeros(k)| == k
    ensures k > 0 ==> Zeros(k) == Zeros(k - 1) + [48]
  {
    if k > 1 { ZerosEnd(k - 1); } else if k == 1 { assert Zeros(1) == [48] + Zeros(0); }
  }

  /** The digit counts of the padded forms. */
  lemma HexWidth(r: nat)
    ensures r <= 0xFF ==> |ToHex(r)| <= 2
    ensures r <= 0xFFFF ==> |ToHex(r)| <= 4
  {
    HexStep(r);
    HexStep(r / 16);
    HexStep(r / 16 / 16);
    HexStep(r / 16 / 16 / 16);
  }

  lemma HexStep(n: nat)
    ensures n < 16 ==> |ToHex(n)| == 1
    ensures |ToHex(n)| <= 1 + |ToHex(n / 16)|
  {
  }

  lemma HexNumberStep(h: seq<Unit>, i: nat)
    requires i < |h|
    ensures HexNumber(h[..i + 1]) ==
            if HexNumber(h[..i]).Some? && HexValue(h[i]).Some?
            then Some(HexNumber(h[..i]).value * 16 + HexValue(h[i]).value) else None
  {
    hide HexValue;
    assert h[..i + 1][..i] == h[..i] && h[..i + 1][i] == h[i];
  }

  lemma ReadNothing(input: seq<Unit>, p: nat, o: int)
    ensures ReadHex(input, p, 0, o) == Some(o)
  {
  }

  lemma ReadHexStep(input: seq<Unit>, p: nat, n: nat, o: int)
    requires p < |input| && n > 0 && HexValue(input[p]).Some?
    ensures ReadHex(input, p, n, o) == ReadHex(input, p + 1, n - 1, Int32(o * 16) + HexValue(input[p]).value)
  {
    hide HexValue, Int32;
  }

  /** Reading a run of digits from the input gives its number, as long as it fits 32 bits. */
  lemma {:induction false} ReadHexRun(input: seq<Unit>, p: nat, h: seq<Unit>, i: nat)
    requires p + |h| <= |input| && input[p..p + |h|] == h && i <= |h| <= 4
    requires HexNumber(h).Some? && HexNumber(h[..i]).Some?
    ensures ReadHex(input, p + i, |h| - i, HexNumber(h[..i]).value) == HexNumber(h)
    decreases |h| - i
  {
    hide HexNumber, HexValue, ReadHex, Int32;
    if i == |h| {
      assert h[..i] == h;
      ReadNothing(input, p + i, HexNumber(h).value);
    } else {
      HexPrefix(h, i + 1);
      HexNumberStep(h, i);
      HexBound(h[..i]);
      assert h[i] == input[p + i];
      ReadHexStep(input, p + i, |h| - i, HexNumber(h[..i]).value);
      ReadHexRun(input, p, h, i + 1);
    }
  }

  lemma {:induction false} HexPrefix(h: seq<Unit>, i: nat)
    requires HexNumber(h).Some? && i <= |h|
    ensures HexNumber(h[..i]).Some?
  {
    if i < |h| {
      HexPrefix(h[..|h| - 1], i);
      assert h[..|h| - 1][..i] == h[..i];
    } else {
      assert h[..i] == h;
    }
  }

  lemma HexBound(h: seq<Unit>)
    requires |h| <= 3 && HexNumber(h).Some?
    ensures HexNumber(h).value < 0x1000
    ensures Int32(HexNumber(h).value * 16) == HexNumber(h).value * 16
  {
    hide Int32, HexNumber;
    HexSize(h);
    Small(HexNumber(h).value * 16);
  }

  lemma {:induction false} HexSize(h: seq<Unit>)
    requires |h| <= 3 && HexNumber(h).Some?
    ensures HexNumber(h).value < if |h| == 0 then 1 else if |h| == 1 then 0x10 else if |h| == 2 then 0x100 else 0x1000
  {
    if h != [] { HexSize(h[..|h| - 1]); }
  }

  lemma Small(x: nat)
    requires x < 0x8000_0000
    ensures Int32(x) == x
  {
  }

  /** The escape of a code up to 0xFFFF: two or four digits. */
  lemma HexText(r: nat, width: nat, z: seq<Unit>)
    requires r <= 0xFFFF && width == if r <= 0xFF then 2 else 4
    requires z == Zeros(if |ToHex(r)| < width then width - |ToHex(r)| else 0)
    ensures |z + ToHex(r)| == width && HexNumber(z + ToHex(r)) == Some(r)
    ensures HexEscape(r) == [BACKSLASH, if r <= 0xFF then 120 else 117] + (z + ToHex(r))
  {
    hide ToHex, HexNumber, Zeros;
    HexWidth(r);
    ZerosEnd(width - |ToHex(r)|);
    HexNumberOf(r);
    HexNumberPadded(width - |ToHex(r)|, ToHex(r));
  }

  lemma ReadHexCode(input: seq<Unit>, p: nat, lineStart: nat, width: nat, r: nat)
    requires p + 1 < |input| && r <= 0xFFFF && (width == 2 || width == 4)
    requires input[p + 1] == (if width == 2 then 120 else 117) && ReadHex(input, p + 2, width, 0) == Some(r)
    ensures ReadEscape(input, p, lineStart) == Good([r], p + 2 + width, lineStart)
  {
    hide ReadHex, SkipSeparation;
  }

  /** A hexadecimal escape of a code up to 0xFFFF reads back as that unit. */
  lemma ReadHexEscape(input: seq<Unit>, p: nat, lineStart: nat, r: nat)
    requires r <= 0xFFFF && p + |HexEscape(r)| <= |input|
    requires input[p..p + |HexEscape(r)|] == HexEscape(r)
    ensures ReadEscape(input, p, lineStart) == Good([r], p + |HexEscape(r)|, lineStart)
  {
    hide HexEscape, ReadEscape, HexNumber, ToHex, Zeros, ReadHex;
    var e, width := HexEscape(r), if r <= 0xFF then 2 else 4;
    var z := Zeros(if |ToHex(r)| < width then width - |ToHex(r)| else 0);
    var digits := z + ToHex(r);
    HexText(r, width, z);
    SliceParts(input, p, e[..2], digits);
    assert input[p + 1] == input[p..p + 2][1];
    NoDigits();
    assert digits[..0] == [];
    ReadHexRun(input, p + 2, digits, 0);
    ReadHexCode(input, p, lineStart, width, r);
  }

  /** The parts of a stretch of the input. */
  lemma SliceParts(input: seq<Unit>, p: nat, a: seq<Unit>, b: seq<Unit>)
    requires p + |a| + |b| <= |input| && input[p..p + |a| + |b|] == a + b
    ensures input[p..p + |a|] == a && input[p + |a|..p + |a| + |b|] == b
  {
    var all := a + b;
    assert input[p..p + |a|] == all[..|a|] && input[p + |a|..p + |a| + |b|] == all[|a|..];
  }

  lemma NoDigits()
    ensures HexNumber([]) == Some(0)
  {
  }

  lemma ReadNamed(input: seq<Unit>, p: nat, lineStart: nat, r: Unit)
    requires EscapeLetter(r).Some? && p + 1 < |input| && input[p + 1] == EscapeLetter(r).value
    ensures ReadEscape(input, p, lineStart) == Good([r], p + 2, lineStart)
  {
  }

  /** Units that stand for themselves between the quotes. */
  predicate Plain(c: Unit) {
    c >= 32 && c != QUOTE && c != BACKSLASH
  }

  lemma ReadOne(input: seq<Unit>, s: Scan)
    requires ScanOk(input, s) && s.lineStart < s.pos < |input| && Plain(input[s.pos])
    ensures ReadFrom(input, s) == ReadFrom(input, s.(pos := s.pos + 1))
  {
    hide ReadEscape, SkipSeparation, Capturable, DocumentSeparator, Folded;
  }

  lemma {:induction false} ReadPlain(input: seq<Unit>, s: Scan, n: nat)
    requires ScanOk(input, s) && s.lineStart < s.pos && s.pos + n <= |input|
    requires forall i | s.pos <= i < s.pos + n :: Plain(input[i])
    ensures ReadFrom(input, s) == ReadFrom(input, s.(pos := s.pos + n))
    decreases n
  {
    hide ReadFrom, Plain;
    if n > 0 {
      ReadOne(input, s);
      ReadPlain(input, s.(pos := s.pos + 1), n - 1);
    }
  }

  lemma ReadBackslash(input: seq<Unit>, s: Scan, w: seq<Unit>, p: nat)
    requires ScanOk(input, s) && s.pos < |input| && input[s.pos] == BACKSLASH
    requires Capturable(input[s.from..s.pos]) && p <= |input|
    requires ReadEscape(input, s.pos, s.lineStart) == Good(w, p, s.lineStart)
    ensures ReadFrom(input, s) == ReadFrom(input, Scan(p, s.lineStart, p, s.result + input[s.from..s.pos] + w))
  {
    hide ReadEscape, SkipSeparation, Capturable, DocumentSeparator, Folded;
  }

  lemma ReadQuote(input: seq<Unit>, s: Scan, done: seq<Unit>)
    requires SoFar(input, s, done) && s.pos < |input| && input[s.pos] == QUOTE
    ensures ReadFrom(input, s) == Scalar(done, s.pos + 1)
  {
    hide ReadEscape, SkipSeparation, Capturable, DocumentSeparator, Folded;
  }

  /** What the reader has at a point: everything before it was read as `done`. */
  ghost predicate SoFar(input: seq<Unit>, s: Scan, done: seq<Unit>) {
    && ScanOk(input, s) && s.lineStart < s.pos
    && Capturable(input[s.from..s.pos]) && s.result + input[s.from..s.pos] == done
  }

  /** Reading one printed code point. */
  lemma ReadPoint(input: seq<Unit>, s: Scan, done: seq<Unit>, t: seq<Unit>) returns (s': Scan)
    requires SoFar(input, s, done) && t != [] && s.pos + |PrintPoint(t)| <= |input|
    requires input[s.pos..s.pos + |PrintPoint(t)|] == PrintPoint(t)
    ensures SoFar(input, s', done + t[..CodePoint(t).1]) && s'.pos == s.pos + |PrintPoint(t)|
    ensures ReadFrom(input, s) == ReadFrom(input, s')
  {
    hide HexEscape, EscapeLetter, Printable, ReadFrom, SoFar, CodePoint;
    var (r, l) := CodePoint(t);
    if EscapeLetter(r).None? && Printable(r) {
      PlainPoint(t);
      s' := ReadPlainUnits(input, s, done, t[..l]);
    } else {
      EscapedPoint(t);
      ReadEscaped(input, s, t);
      s' := AfterEscape(input, s, done, t[0], s.pos + |PrintPoint(t)|);
      assert t[..1] == [t[0]];
    }
  }

  lemma ReadPlainUnits(input: seq<Unit>, s: Scan, done: seq<Unit>, w: seq<Unit>) returns (s': Scan)
    requires SoFar(input, s, done) && s.pos + |w| <= |input| && input[s.pos..s.pos + |w|] == w
    requires forall i | 0 <= i < |w| :: Plain(w[i])
    ensures SoFar(input, s', done + w) && s'.pos == s.pos + |w| && ReadFrom(input, s) == ReadFrom(input, s')
  {
    hide ReadFrom;
    forall i | s.pos <= i < s.pos + |w| ensures Plain(input[i]) { assert input[i] == w[i - s.pos]; }
    ReadPlain(input, s, |w|);
    s' := s.(pos := s.pos + |w|);
    assert input[s.from..s'.pos] == input[s.from..s.pos] + w;
  }

  lemma ReadEscaped(input: seq<Unit>, s: Scan, t: seq<Unit>)
    requires t != [] && !(EscapeLetter(CodePoint(t).0).None? && Printable(CodePoint(t).0)) && CodePoint(t) == (t[0], 1)
    requires s.pos + |PrintPoint(t)| <= |input| && input[s.pos..s.pos + |PrintPoint(t)|] == PrintPoint(t)
    requires PrintPoint(t) != []
    ensures ReadEscape(input, s.pos, s.lineStart) == Good([t[0]], s.pos + |PrintPoint(t)|, s.lineStart)
    ensures PrintPoint(t)[0] == BACKSLASH ==> input[s.pos] == BACKSLASH
  {
    hide HexEscape, EscapeLetter, ReadEscape, Printable, CodePoint;
    var piece := PrintPoint(t);
    assert input[s.pos] == input[s.pos..s.pos + |piece|][0];
    if EscapeLetter(t[0]).Some? {
      assert input[s.pos + 1] == input[s.pos..s.pos + |piece|][1];
      ReadNamed(input, s.pos, s.lineStart, t[0]);
    } else {
      ReadHexEscape(input, s.pos, s.lineStart, t[0]);
    }
  }

  lemma AfterEscape(input: seq<Unit>, s: Scan, done: seq<Unit>, u: Unit, p: nat) returns (s': Scan)
    requires SoFar(input, s, done) && s.pos < p <= |input| && input[s.pos] == BACKSLASH
    requires ReadEscape(input, s.pos, s.lineStart) == Good([u], p, s.lineStart)
    ensures SoFar(input, s', done + [u]) && s'.pos == p && ReadFrom(input, s) == ReadFrom(input, s')
  {
    hide ReadFrom, ReadEscape;
    ReadBackslash(input, s, [u], p);
    s' := Scan(p, s.lineStart, p, done + [u]);
    assert input[p..p] == [];
  }

  lemma PlainPoint(t: seq<Unit>)
    requires t != [] && EscapeLetter(CodePoint(t).0).None? && Printable(CodePoint(t).0)
    ensures forall i | 0 <= i < CodePoint(t).1 :: Plain(t[i])
  {
  }

  lemma EscapedPoint(t: seq<Unit>)
    requires t != [] && !(EscapeLetter(CodePoint(t).0).None? && Printable(CodePoint(t).0))
    ensures CodePoint(t) == (t[0], 1)
    ensures PrintPoint(t) != [] && PrintPoint(t)[0] == BACKSLASH
    ensures EscapeLetter(CodePoint(t).0).Some? ==> |PrintPoint(t)| == 2
  {
  }

  /** Reading a whole printed text up to its closing quote. */
  lemma {:induction false} ReadPrinted(input: seq<Unit>, s: Scan, done: seq<Unit>, t: seq<Unit>)
    requires SoFar(input, s, done) && s.pos + |Print(t)| < |input|
    requires input[s.pos..s.pos + |Print(t)|] == Print(t) && input[s.pos + |Print(t)|] == QUOTE
    ensures ReadFrom(input, s) == Scalar(done + t, s.pos + |Print(t)| + 1)
    decreases |t|
  {
    hide PrintPoint, ReadFrom, CodePoint, SoFar, Print;
    if t == [] {
      PrintNothing(t);
      ReadQuote(input, s, done);
      assert done + t == done;
    } else {
      var piece, l := PrintPoint(t), CodePoint(t).1;
      PrintStep(t);
      SliceParts(input, s.pos, piece, Print(t[l..]));
      var s' := ReadPoint(input, s, done, t);
      ReadPrinted(input, s', done + t[..l], t[l..]);
      assert done + t[..l] + t[l..] == done + t;
    }
  }

  /** For every text, lone surrogates included, in every surrounding input: reading what the
      printer wrote gives the text back and stops just past the closing quote. */
  lemma RoundTrip(before: seq<Unit>, t: seq<Unit>, after: seq<Unit>, lineStart: nat)
    requires lineStart <= |before|
    ensures var printed := [QUOTE] + Print(t) + [QUOTE];
            ReadScalar(before + printed + after, |before|, lineStart) == Scalar(t, |before| + |printed|)
  {
    hide Print, ReadFrom;
    var text := Print(t);
    var printed := [QUOTE] + text + [QUOTE];
    var input, p := before + printed + after, |before| + 1;
    var s := Scan(p, lineStart, p, []);
    assert input[p..p + |text|] == text && input[p + |text|] == QUOTE && input[|before|] == QUOTE;
    assert input[p..p] == [];
    ReadPrinted(input, s, [], t);
    assert [] + t == t;
  }

  // ---- The reader object ----

  class Reader {
    const input: seq<Unit>
    var position: nat
    var lineStart: nat
    var result: seq<Unit>

    constructor (input: seq<Unit>)
      ensures this.input == input && position == 0 && lineStart == 0 && result == []
    {
      this.input := input;
      position, lineStart, result := 0, 0, [];
    }

    method SkipBlankRun()
      requires position <= |input|
      modifies this`position
      ensures position == SkipBlanks(input, old(position))
    {
      while Blank(Code(input, position))
        invariant position <= |input| && SkipBlanks(input, position) == SkipBlanks(input, old(position))
        decreases |input| - position
      {
        position := position + 1;
      }
    }

    method SkipSpaceRun()
      requires position <= |input|
      modifies this`position
      ensures position == SkipSpaces(input, old(position))
    {
      while Code(input, position) == 32
        invariant position <= |input| && SkipSpaces(input, position) == SkipSpaces(input, old(position))
        decreases |input| - position
      {
        position := position + 1;
      }
    }

    /** Skip blanks and line breaks, counting the breaks. */
    method SkipSeparationSpace() returns (breaks: nat)
      requires position <= |input|
      modifies this`position, this`lineStart
      ensures (position, lineStart, breaks) == SkipSeparation(input, old(position), old(lineStart))
    {
      hide SkipBlanks, SkipSpaces, SkipSeparation;
      breaks := 0;
      SeparatedStart(input, position, lineStart, 0);
      SkipBlankRun();
      while LineBreak(Code(input, position))
        invariant position <= |input|
        invariant Separated(input, position, lineStart, breaks) == SkipSeparation(input, old(position), old(lineStart))
        decreases |input| - position
      {
        SeparatedNext(input, position, lineStart, breaks);
        position := AfterBreak(input, position);
        lineStart, breaks := position, breaks + 1;
        SkipSpaceRun();
        SkipBlankRun();
      }
    }

    /** Read `n` hexadecimal digits, the first of which is the next unit. */
    method ReadDigits(n: nat) returns (o: Option<int>)
      modifies this`position
      ensures o == ReadHex(input, old(position) + 1, n, 0)
      ensures o.Some? ==> position == old(position) + n
    {
      var v, i := 0, n;
      while i > 0
        invariant 0 <= i <= n && position == old(position) + (n - i)
        invariant ReadHex(input, position + 1, i, v) == ReadHex(input, old(position) + 1, n, 0)
      {
        position := position + 1;
        var d := HexValue(Code(input, position));
        if d.None? {
          return None;
        }
        v, i := Int32(v * 16) + d.value, i - 1;
      }
      o := Some(v);
    }

    /** What the backslash at the current position stands for. */
    method ReadEscapeHere() returns (w: Option<seq<Unit>>, error: Error)
      requires position < |input|
      modifies this`position, this`lineStart
      ensures match ReadEscape(input, old(position), old(lineStart))
              case Bad(e) => w == None && error == e
              case Good(v, p, l) => w == Some(v) && position == p && lineStart == l
    {
      hide SkipSeparation, ReadHex, NamedEscape, FromCode;
      error := UnknownEscape;
      var c := Code(input, position + 1);
      if LineBreak(c) {
        position := position + 1;
        var n := SkipSeparationSpace();
        w := Some([]);
      } else if c < 256 && NamedEscape(c).Some? {
        w, position := Some([NamedEscape(c).value]), position + 2;
      } else if HexLength(c) > 0 {
        position := position + 1;
        var o := ReadDigits(HexLength(c));
        if o.None? {
          return None, HexExpected;
        }
        w, position := Some(FromCode(o.value)), position + 1;
      } else {
        w := None;
      }
    }

    /** Read the scalar at the current position; on success the position is past the closing quote. */
    method ReadDoubleQuoted() returns (r: Outcome)
      requires position <= |input|
      modifies this
      ensures r == ReadScalar(input, old(position), old(lineStart))
      ensures r.Scalar? ==> position == r.position && result == r.result
    {
      hide ReadEscape, SkipSeparation, DocumentSeparator;
      if Code(input, position) != QUOTE {
        return NotQuoted;
      }
      position, result := position + 1, [];
      var start: nat := position;
      ghost var all := ReadScalar(input, old(position), old(lineStart));
      while Code(input, position) != 0
        invariant start <= position <= |input|
        invariant all == ReadFrom(input, Scan(position, lineStart, start, result))
        decreases |input| - position
      {
        var c, text := Code(input, position), input[start..position];
        if c == QUOTE || c == BACKSLASH || LineBreak(c) {
          if !Capturable(text) {
            return Failed(InvalidCharacter);
          }
          result := result + text;
          if c == QUOTE {
            position := position + 1;
            return Scalar(result, position);
          } else if c == BACKSLASH {
            var w, error := ReadEscapeHere();
            if w.None? {
              return Failed(error);
            }
            result := result + w.value;
          } else {
            var n := SkipSeparationSpace();
            result := result + Folded(n);
          }
          start := position;
        } else if position == lineStart && DocumentSeparator(input, position) {
          return Failed(EndOfDocument);
        } else {
          position := position + 1;
        }
      }
      r := Failed(EndOfStream);
    }
  }
}
