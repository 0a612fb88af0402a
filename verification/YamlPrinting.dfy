/**
  * What the printer of double-quoted YAML scalars writes: which code points stand for themselves, which
  * have a named escape and which are written as numbers, with the tables of YAML 1.2.2 written out.
  */
module YamlPrinting {
  import opened Division
  import opened Options
  import Utf8
  import opened Words
  import opened YamlDoubleQuoted

  // ---- The tables of the standard ----

  /** The printable characters of section 5.1. */
  predicate PrintableCharacter(r: nat) {
    || r == 0x09 || r == 0x0A || r == 0x0D || 0x20 <= r <= 0x7E || r == 0x85
    || 0xA0 <= r <= 0xD7FF || 0xE000 <= r <= 0xFFFD || 0x1_0000 <= r <= 0x10_FFFF
  }

  /** The escapes of section 5.7 that have a letter of their own, by the character they stand for. */
  const NAMED: map<nat, char> :=
    map[0x00 := '0', 0x07 := 'a', 0x08 := 'b', 0x09 := 't', 0x0A := 'n', 0x0B := 'v', 0x0C := 'f', 0x0D := 'r',
        0x1B := 'e', 0x22 := '"', 0x5C := '\\', 0x85 := 'N', 0xA0 := '_', 0x2028 := 'L', 0x2029 := 'P']

  const BYTE_ORDER_MARK := 0xFEFF
  const DIGITS := "0123456789ABCDEF"

  /** The hexadecimal digit of `n` at a place. */
  function DigitAt(n: nat, place: nat): Unit
    requires place > 0
  {
    DIGITS[n / place % 16] as int
  }

  lemma EscapeLetterIs(r: nat)
    ensures EscapeLetter(r) == if r in NAMED then Some(NAMED[r] as int) else None
  {
  }

  /** A code point is written as itself exactly if it is printable, has no named escape and is not the
      byte order mark. */
  lemma StandsForItself(r: nat)
    ensures EscapeLetter(r).None? && Printable(r) <==>
            PrintableCharacter(r) && r !in NAMED && r != BYTE_ORDER_MARK
  {
  }

  // ---- One code point ----

  lemma OnePoint(t: seq<Unit>)
    requires t != [] && CodePoint(t).1 == |t|
    ensures Print(t) == PrintPoint(t)
  {
    hide PrintPoint, CodePoint;
    PrintNothing(t[|t|..]);
    assert PrintPoint(t) + [] == PrintPoint(t);
  }

  lemma HexDigitIs(d: nat)
    requires d < 16
    ensures HexDigit(d) == DIGITS[d] as int
  {
  }

  /** The last `w` hexadecimal digits of a number. */
  function Padded(n: nat, w: nat): seq<Unit> {
    if w == 0 then [] else Padded(n / 16, w - 1) + [HexDigit(n % 16)]
  }

  lemma {:induction false} PaddedZero(w: nat)
    ensures Padded(0, w) == Zeros(w)
  {
    if w > 0 {
      PaddedZero(w - 1);
      ZerosEnd(w);
    }
  }

  lemma ToHexStep(n: nat)
    ensures n < 16 ==> ToHex(n) == [HexDigit(n % 16)] && n / 16 == 0
    ensures n >= 16 ==> ToHex(n) == ToHex(n / 16) + [HexDigit(n % 16)]
  {
  }

  lemma {:induction false} PaddedHex(n: nat, w: nat)
    requires |ToHex(n)| <= w
    ensures Zeros(w - |ToHex(n)|) + ToHex(n) == Padded(n, w)
    decreases w
  {
    hide ToHex, Zeros, HexDigit;
    ToHexStep(n);
    var k, d := w - |ToHex(n)|, HexDigit(n % 16);
    if n < 16 {
      PaddedZero(w - 1);
    } else {
      PaddedHex(n / 16, w - 1);
      assert Zeros(k) + (ToHex(n / 16) + [d]) == Zeros(k) + ToHex(n / 16) + [d];
    }
  }

  lemma PaddedStep(n: nat, w: nat)
    requires w > 0
    ensures Padded(n, w) == Padded(n / 16, w - 1) + [DigitAt(n, 1)]
  {
    HexDigitIs(n % 16);
  }

  lemma DigitAbove(n: nat, place: nat)
    requires place > 0
    ensures DigitAt(n / place, 1) == DigitAt(n, place)
  {
  }

  /** The digits of a number, padded with zeros. */
  lemma HexTwo(n: nat)
    requires n <= 0xFF
    ensures |ToHex(n)| <= 2 && Zeros(2 - |ToHex(n)|) + ToHex(n) == [DigitAt(n, 16), DigitAt(n, 1)]
  {
    hide ToHex, Zeros, Padded, DigitAt;
    HexWidth(n);
    PaddedHex(n, 2);
    var a := LastDigit(n, 2, n, 1);
    var b := LastDigit(n, 1, a, 16);
    NoDigit(b);
  }

  lemma HexFour(n: nat)
    requires 0xFF < n <= 0xFFFF
    ensures |ToHex(n)| <= 4
    ensures Zeros(4 - |ToHex(n)|) + ToHex(n) == [DigitAt(n, 4096), DigitAt(n, 256), DigitAt(n, 16), DigitAt(n, 1)]
  {
    hide ToHex, Zeros, Padded, DigitAt;
    HexWidth(n);
    PaddedHex(n, 4);
    PaddedFour(n);
  }

  lemma PaddedFour(n: nat)
    ensures Padded(n, 4) == [DigitAt(n, 4096), DigitAt(n, 256), DigitAt(n, 16), DigitAt(n, 1)]
  {
    hide Padded, DigitAt;
    var a := LastDigit(n, 4, n, 1);
    var b := LastDigit(n, 3, a, 16);
    DivTwice(n, 16, 16);
    var c := LastDigit(n, 2, b, 256);
    DivTwice(n, 256, 16);
    var d := LastDigit(n, 1, c, 4096);
    NoDigit(d);
  }

  lemma NoDigit(n: nat)
    ensures Padded(n, 0) == []
  {
  }

  /** One more digit of `n`, of which the places below have been split off. */
  lemma LastDigit(n: nat, w: nat, m: nat, place: nat) returns (q: nat)
    requires w > 0 && place > 0 && m == n / place
    ensures q == m / 16 && Padded(m, w) == Padded(q, w - 1) + [DigitAt(n, place)]
  {
    q := m / 16;
    PaddedStep(m, w);
    DigitAbove(n, place);
  }

  /** What a single unit is printed as. */
  lemma PrintUnit(c: Unit)
    ensures Print([c]) ==
            if c in NAMED then [92, NAMED[c] as int]
            else if PrintableCharacter(c) && c != BYTE_ORDER_MARK then [c]
            else if c <= 0xFF then [92, 'x' as int, DigitAt(c, 16), DigitAt(c, 1)]
            else [92, 'u' as int, DigitAt(c, 4096), DigitAt(c, 256), DigitAt(c, 16), DigitAt(c, 1)]
  {
    hide EscapeLetter, Printable, ToHex, Zeros, DigitAt, Print, PrintableCharacter;
    var t := [c];
    OnePoint(t);
    assert CodePoint(t) == (c, 1) && t[..1] == t;
    EscapeLetterIs(c);
    StandsForItself(c);
    if c <= 0xFF { HexTwo(c); } else { HexFour(c); }
    var h := ToHex(c);
    var z := Zeros(if c <= 0xFF then 2 - |h| else 4 - |h|);
    assert [BACKSLASH, if c <= 0xFF then 120 else 117] + z + h == [BACKSLASH, if c <= 0xFF then 120 else 117] + (z + h);
  }

  /** A surrogate pair is printed as itself. */
  lemma PrintPair(x: Unit, y: Unit)
    requires Utf8.Lead(x) && Utf8.Trail(y)
    ensures Print([x, y]) == [x, y]
  {
    hide Print, HexEscape;
    var t := [x, y];
    OnePoint(t);
    assert t[..2] == t;
  }

  // ---- Whole texts ----

  /** A cut between `a` and `b` splits no surrogate pair. */
  predicate NoPairAcross(a: seq<Unit>, b: seq<Unit>) {
    !(a != [] && b != [] && Utf8.Lead(a[|a| - 1]) && Utf8.Trail(b[0]))
  }

  lemma SamePoint(a: seq<Unit>, b: seq<Unit>)
    requires a != [] && NoPairAcross(a, b)
    ensures CodePoint(a + b) == CodePoint(a) && PrintPoint(a + b) == PrintPoint(a)
  {
    hide EscapeLetter, Printable, HexEscape;
    var l := CodePoint(a).1;
    if |a| == 1 && b != [] { assert (a + b)[1] == b[0]; }
    assert (a + b)[..l] == a[..l];
  }

  /** Texts are printed piece by piece, wherever they are cut but inside a surrogate pair. */
  lemma {:induction false} PrintConcat(a: seq<Unit>, b: seq<Unit>)
    requires NoPairAcross(a, b)
    ensures Print(a + b) == Print(a) + Print(b)
    decreases |a|
  {
    hide Print, PrintPoint, CodePoint;
    if a == [] {
      PrintNothing(a);
      assert a + b == b && [] + Print(b) == Print(b);
    } else {
      var l := CodePoint(a).1;
      SamePoint(a, b);
      PrintStep(a);
      PrintStep(a + b);
      assert (a + b)[l..] == a[l..] + b;
      assert a[l..] != [] ==> a[l..][|a[l..]| - 1] == a[|a| - 1];
      PrintConcat(a[l..], b);
      assert PrintPoint(a) + (Print(a[l..]) + Print(b)) == PrintPoint(a) + Print(a[l..]) + Print(b);
    }
  }

  lemma PrintMiddle(a: seq<Unit>, p: seq<Unit>, b: seq<Unit>)
    requires NoPairAcross(a, p) && NoPairAcross(a + p, b)
    ensures Print(a + p + b) == Print(a) + Print(p) + Print(b)
  {
    PrintConcat(a + p, b);
    PrintConcat(a, p);
  }

  /** The unit at `i` is part of a code point that stands for itself. */
  predicate StandsAt(t: seq<Unit>, i: nat)
    requires i < |t|
  {
    var c := t[i];
    || (PrintableCharacter(c) && c !in NAMED && c != BYTE_ORDER_MARK)
    || (Utf8.Lead(c) && i + 1 < |t| && Utf8.Trail(t[i + 1]))
    || (Utf8.Trail(c) && i > 0 && Utf8.Lead(t[i - 1]))
  }

  lemma LongerPiece(t: seq<Unit>)
    requires t != []
    ensures |PrintPoint(t)| >= CodePoint(t).1
    ensures PrintPoint(t) != t[..CodePoint(t).1] ==> |PrintPoint(t)| > CodePoint(t).1
    ensures PrintPoint(t) == t[..CodePoint(t).1] <==> EscapeLetter(CodePoint(t).0).None? && Printable(CodePoint(t).0)
  {
    hide ToHex, Zeros;
    var (r, l) := CodePoint(t);
    if EscapeLetter(r).Some? {
      assert l == 1;
    } else if !Printable(r) {
      assert l == 1 && |HexEscape(r)| >= 3;
    }
  }

  lemma {:induction false} PrintLength(t: seq<Unit>)
    ensures |Print(t)| >= |t|
    decreases |t|
  {
    hide PrintPoint, CodePoint, Print;
    if t == [] {
      PrintNothing(t);
    } else {
      var l := CodePoint(t).1;
      PrintStep(t);
      LongerPiece(t);
      PrintLength(t[l..]);
    }
  }

  /** The first code point stands for itself exactly if its units do. */
  lemma FirstStands(t: seq<Unit>)
    requires t != []
    ensures EscapeLetter(CodePoint(t).0).None? && Printable(CodePoint(t).0) <==>
            forall i | 0 <= i < CodePoint(t).1 :: StandsAt(t, i)
  {
    hide EscapeLetter, Printable;
    var (r, l) := CodePoint(t);
    StandsForItself(r);
    if l == 2 {
      assert StandsAt(t, 0) && StandsAt(t, 1);
    } else {
      assert StandsAt(t, 0) <==> PrintableCharacter(r) && r !in NAMED && r != BYTE_ORDER_MARK;
    }
  }

  lemma RestStands(t: seq<Unit>, l: nat, i: nat)
    requires t != [] && l == CodePoint(t).1 && l + i < |t|
    ensures StandsAt(t[l..], i) <==> StandsAt(t, l + i)
  {
    hide PrintableCharacter;
  }

  /** A text is printed unchanged if and only if each of its code points is printable, has no named
      escape and is not the byte order mark. */
  lemma {:induction false} PrintedUnchanged(t: seq<Unit>)
    ensures Print(t) == t <==> forall i | 0 <= i < |t| :: StandsAt(t, i)
    decreases |t|
  {
    hide PrintPoint, CodePoint, Print, StandsAt, EscapeLetter, Printable;
    if t == [] {
      PrintNothing(t);
    } else {
      var l := CodePoint(t).1;
      PrintStep(t);
      LongerPiece(t);
      FirstStands(t);
      PrintLength(t[l..]);
      PrintedUnchanged(t[l..]);
      UnchangedParts(t, PrintPoint(t), Print(t[l..]), l);
      RestAll(t, l);
    }
  }

  lemma UnchangedParts(t: seq<Unit>, piece: seq<Unit>, rest: seq<Unit>, l: nat)
    requires l <= |t| && |rest| >= |t| - l && (|piece| > l || piece == t[..l])
    ensures piece + rest == t <==> piece == t[..l] && rest == t[l..]
  {
    if piece == t[..l] {
      assert (piece + rest)[l..] == rest;
      assert t == t[..l] + t[l..];
    }
  }

  lemma RestAll(t: seq<Unit>, l: nat)
    requires t != [] && l == CodePoint(t).1
    ensures (forall i | 0 <= i < |t| :: StandsAt(t, i)) <==>
            (forall i | 0 <= i < l :: StandsAt(t, i)) && forall i | 0 <= i < |t[l..]| :: StandsAt(t[l..], i)
  {
    hide StandsAt, CodePoint;
    forall i | 0 <= i < |t[l..]| ensures StandsAt(t[l..], i) <==> StandsAt(t, l + i) { RestStands(t, l, i); }
    if forall i | 0 <= i < |t[l..]| :: StandsAt(t[l..], i) {
      forall i | l <= i < |t| ensures StandsAt(t, i) { assert StandsAt(t[l..], i - l); }
    }
  }
}
