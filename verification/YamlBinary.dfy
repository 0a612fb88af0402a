/**
  * The `!!binary` scalar of the YAML library (bundle module 90): the streaming base64 writer and
  * reader, whose accumulators are 32-bit integers that wrap, against the grouped reference encoding.
  */
module YamlBinary {
  import opened Base64
  import opened Division
  import opened Words

  /** Shifting one more digit into a wrapping accumulator keeps the low digits: the digit base is
      256 for the writer and 64 for the reader. */
  function ShiftIn(acc: int, base: nat, digit: nat): int {
    Int32(acc * base) + digit
  }

  lemma ShiftInByte(acc: int, x: Byte)
    ensures var a := ShiftIn(acc, 256, x);
            a % 256 == x && a % 65536 == acc % 256 * 256 + x && a % 0x100_0000 == acc % 65536 * 256 + x
  {
    var c := (acc * 256 + 0x8000_0000) / 0x1_0000_0000;
    var a := ShiftIn(acc, 256, x);
    assert a == acc * 256 - 0x1_0000_0000 * c + x;
    Remainder(a, 256, acc - 0x100_0000 * c, x);
    Remainder(a, 65536, acc / 256 - 0x1_0000 * c, acc % 256 * 256 + x);
    Remainder(a, 0x100_0000, acc / 65536 - 0x100 * c, acc % 65536 * 256 + x);
  }

  lemma ShiftInLetter(acc: int, d: nat)
    requires d < 64
    ensures var a := ShiftIn(acc, 64, d);
            a % 64 == d && a % 4096 == acc % 64 * 64 + d && a % 262144 == acc % 4096 * 64 + d
            && a % 0x100_0000 == acc % 262144 * 64 + d
  {
    var c := (acc * 64 + 0x8000_0000) / 0x1_0000_0000;
    var a := ShiftIn(acc, 64, d);
    assert a == acc * 64 - 0x1_0000_0000 * c + d;
    Remainder(a, 64, acc - 0x400_0000 * c, d);
    Remainder(a, 4096, acc / 64 - 0x10_0000 * c, acc % 64 * 64 + d);
    Remainder(a, 262144, acc / 4096 - 0x4000 * c, acc % 4096 * 64 + d);
    Remainder(a, 0x100_0000, acc / 262144 - 0x100 * c, acc % 262144 * 64 + d);
  }

  lemma Remainder(a: int, m: nat, q: int, r: nat)
    requires m > 0 && a == m * q + r && r < m
    ensures a % m == r
  {
    DivModUnique(a, m, q, r);
  }

  /** The digit above `lo`, as a shift and a mask read it. */
  lemma Digit(a: int, base: nat, m: nat, hi: int, d: nat, lo: nat)
    requires a == m * (base * hi + d) + lo && lo < m && d < base
    ensures a / m % base == d
  {
    DivModUnique(a, m, base * hi + d, lo);
    Remainder(a / m, base, hi, d);
  }

  // ---- Writer ----

  /** Four letters picked out of the accumulator by shifting and masking. */
  function FourLetters(acc: int): string {
    [Letter(acc / 262144 % 64), Letter(acc / 4096 % 64), Letter(acc / 64 % 64), Letter(acc % 64)]
  }

  /** They are the letters of its low 24 bits. */
  lemma FourLettersAreQuad(acc: int)
    ensures FourLetters(acc) == Quad(acc % 0x100_0000)
  {
    hide Letter;
    var q, n := acc / 0x100_0000, acc % 0x100_0000;
    Digits64(n);
    var d0, d1, d2, d3 := n / 262144, n / 4096 % 64, n / 64 % 64, n % 64;
    assert acc == 0x100_0000 * q + d0 * 262144 + d1 * 4096 + d2 * 64 + d3;
    Digit(acc, 64, 262144, q, d0, d1 * 4096 + d2 * 64 + d3);
    Digit(acc, 64, 4096, 64 * q + d0, d1, d2 * 64 + d3);
    Digit(acc, 64, 64, 4096 * q + 64 * d0 + d1, d2, d3);
    Remainder(acc, 64, 262144 * q + 4096 * d0 + 64 * d1 + d2, d3);
  }

  /** The letters of the last one or two bytes. */
  function LastLettersOf(acc: int, extra: nat): string
    requires 1 <= extra <= 2
  {
    if extra == 2 then [Letter(acc / 1024 % 64), Letter(acc / 16 % 64), Letter(acc * 4 % 64), PAD]
    else [Letter(acc / 4 % 64), Letter(acc * 16 % 64), PAD, PAD]
  }

  lemma LastLettersOfOne(acc: int, x: Byte)
    requires acc % 256 == x
    ensures LastLettersOf(acc, 1) == LastGroup([x])
  {
    hide Letter;
    var q := acc / 256;
    Digit(acc, 64, 4, q, x / 4, x % 4);
    Remainder(acc * 16, 64, q * 64 + x / 4, x % 4 * 16);
  }

  lemma LastLettersOfTwo(acc: int, x: Byte, y: Byte)
    requires acc % 65536 == (x as int) * 256 + y
    ensures LastLettersOf(acc, 2) == LastGroup([x, y])
  {
    hide Letter;
    TwoBytes(x, y);
    var q, e := acc / 65536, (x as int) * 256 + y;
    assert e == e / 1024 * 1024 + e / 16 % 64 * 16 + e % 16 by { assert e / 16 / 64 == e / 1024; }
    Digit(acc, 64, 1024, q, e / 1024, e % 1024);
    Digit(acc, 64, 16, 64 * q + e / 1024, e / 16 % 64, e % 16);
    Remainder(acc * 4, 64, q * 4096 + e / 16, e % 16 * 4);
    Remainder(e * 4, 64, e / 16, e % 16 * 4);
  }

  /** What the accumulator holds of the bytes `b[s..e]` not yet written. */
  predicate Holds(acc: int, b: seq<Byte>, s: nat, e: nat)
    requires s <= e <= |b|
  {
    if e == s + 1 then acc % 256 == b[s]
    else if e == s + 2 then acc % 65536 == (b[s] as int) * 256 + b[s + 1]
    else e == s + 3 && acc % 0x100_0000 == Triple(b[s], b[s + 1], b[s + 2])
  }

  lemma HoldsNext(acc: int, b: seq<Byte>, s: nat, e: nat)
    requires s <= e < |b| && e <= s + 2 && (e == s || Holds(acc, b, s, e))
    ensures Holds(ShiftIn(acc, 256, b[e]), b, s, e + 1)
  {
    hide ShiftIn;
    ShiftInByte(acc, b[e]);
  }

  lemma WriteGroup(acc: int, b: seq<Byte>, s: nat)
    requires s + 3 <= |b| && Holds(acc, b, s, s + 3)
    ensures Encode(b[s..]) == FourLetters(acc) + Encode(b[s + 3..])
  {
    hide Encode, FourLetters, Quad;
    EncodeGroup(b, s);
    FourLettersAreQuad(acc);
  }

  /** The letters written after the loop. */
  lemma EndOfText(acc: int, b: seq<Byte>, s: nat)
    requires if b == [] then s == 0 && acc == 0 else |b| - 3 <= s < |b| && s % 3 == 0 && Holds(acc, b, s, |b|)
    ensures b == [] ==> Encode(b[s..]) == [] && FourLetters(acc) == "AAAA"
    ensures b != [] ==> Encode(b[s..]) == if |b| % 3 == 0 then FourLetters(acc) else LastLettersOf(acc, |b| % 3)
  {
    hide FourLetters, LastLettersOf, Encode, Holds;
    EmptyText();
    if b == [] {
    } else if |b| == s + 3 {
      assert b[s + 3..] == [];
      WriteGroup(acc, b, s);
    } else {
      LastOfText(acc, b, s);
    }
  }

  lemma EmptyText()
    ensures Encode([]) == [] && FourLetters(0) == "AAAA"
  {
  }

  lemma LastOfText(acc: int, b: seq<Byte>, s: nat)
    requires |b| - 2 <= s < |b| && Holds(acc, b, s, |b|)
    ensures Encode(b[s..]) == LastLettersOf(acc, |b| - s)
  {
    hide LastLettersOf, LastGroup;
    EncodeLast(b, s);
    if |b| == s + 1 {
      LastLettersOfOne(acc, b[s]);
      assert b[s..] == [b[s]];
    } else {
      LastLettersOfTwo(acc, b[s], b[s + 1]);
      assert b[s..] == [b[s], b[s + 1]];
    }
  }

  /** The writer. It gives the base64 text of every byte string but the empty one, for which it
      writes four letters. */
  method Represent(b: seq<Byte>) returns (text: string)
    ensures text == if b == [] then "AAAA" else Encode(b)
  {
    hide Encode, FourLetters, LastLettersOf, Holds, ShiftIn;
    text := [];
    var acc, e := 0, 0;
    ghost var s := 0;
    assert b[0..] == b;
    while e < |b|
      invariant 0 <= e <= |b| && 0 <= s <= e && text + Encode(b[s..]) == Encode(b)
      invariant if e == 0 then s == 0 && acc == 0 else e - 3 <= s < e && s % 3 == 0 && Holds(acc, b, s, e)
    {
      if e % 3 == 0 && e > 0 {
        WriteGroup(acc, b, s);
        text, s := text + FourLetters(acc), s + 3;
      }
      HoldsNext(acc, b, s, e);
      acc, e := ShiftIn(acc, 256, b[e]), e + 1;
    }
    var extra := |b| % 3;
    EndOfText(acc, b, s);
    if extra == 0 {
      text := text + FourLetters(acc);
    } else {
      text := text + LastLettersOf(acc, extra);
    }
  }

  // ---- Reader ----

  const BREAKS_AND_PAD: string := "=\n\r"

  /** The value of a letter; the YAML alphabet has no '-' or '_'. */
  predicate IsLetter(c: char) {
    'A' <= c <= 'Z' || 'a' <= c <= 'z' || '0' <= c <= '9' || c == '+' || c == '/'
  }

  predicate Known(c: char) {
    IsLetter(c) || c in BREAKS_AND_PAD
  }

  /** The text without line breaks and padding. */
  function Strip(t: string): (s: string)
    ensures |s| <= |t| && forall i | 0 <= i < |s| :: s[i] in t && s[i] !in BREAKS_AND_PAD
  {
    if t == [] then [] else (if t[0] in BREAKS_AND_PAD then [] else [t[0]]) + Strip(t[1..])
  }

  function BreaksIn(t: string): nat {
    if t == [] then 0 else (if t[0] == '\n' || t[0] == '\r' then 1 else 0) + BreaksIn(t[1..])
  }

  /** The reader's test: it accepts exactly the texts over the alphabet that hold a multiple of
      four letters and pad characters, line breaks apart. */
  method Resolve(t: string) returns (ok: bool)
    ensures ok <==> (forall i | 0 <= i < |t| :: Known(t[i])) && (|t| - BreaksIn(t)) % 4 == 0
  {
    hide Known, BreaksIn;
    var bits, n := 0, 0;
    NoBreaks(t[..0]);
    assert t[..0] == [] && t[..|t|] == t;
    while n < |t|
      invariant 0 <= n <= |t| && bits == 6 * (n - BreaksIn(t[..n]))
      invariant forall i | 0 <= i < n :: Known(t[i])
    {
      BreaksNext(t, n);
      BreakKnown(t[n]);
      if t[n] != '\n' && t[n] != '\r' {
        if !Known(t[n]) { return false; }
        bits := bits + 6;
      }
      n := n + 1;
    }
    SixBits(|t| - BreaksIn(t));
    return bits % 8 == 0;
  }

  lemma SixBits(n: int)
    ensures 6 * n % 8 == 0 <==> n % 4 == 0
  {
    var q, r := n / 4, n % 4;
    var k := if r < 2 then 0 else r - 1;
    Remainder(6 * n, 8, 3 * q + k, 6 * r - 8 * k);
  }

  lemma BreakKnown(c: char)
    ensures c == '\n' || c == '\r' ==> Known(c)
  {
  }

  lemma {:induction false} BreaksNext(t: string, n: nat)
    requires n < |t|
    ensures BreaksIn(t[..n + 1]) == BreaksIn(t[..n]) + if t[n] == '\n' || t[n] == '\r' then 1 else 0
  {
    if n > 0 {
      assert t[..n + 1][1..] == t[1..][..n] && t[..n][1..] == t[1..][..n - 1];
      BreaksNext(t[1..], n - 1);
    }
  }

  /** The bytes of a run of letters: three for every four, and one or two for what is left. */
  function Bytes(s: string): seq<Byte> {
    if |s| >= 4 then GroupBytes(s, 0) + Bytes(s[4..])
    else if |s| == 3 then
      var e := GroupValue('A', s[0], s[1], s[2]);
      [e / 1024 % 256, e / 4 % 256]
    else if |s| == 2 then [GroupValue('A', 'A', s[0], s[1]) / 16 % 256]
    else []
  }

  /** What the accumulator holds of the letters `s[g..e]` not yet turned into bytes. */
  predicate Pending(acc: int, s: string, g: nat, e: nat)
    requires g <= e <= |s|
  {
    if e == g + 1 then acc % 64 == GroupValue('A', 'A', 'A', s[g])
    else if e == g + 2 then acc % 4096 == GroupValue('A', 'A', s[g], s[g + 1])
    else if e == g + 3 then acc % 262144 == GroupValue('A', s[g], s[g + 1], s[g + 2])
    else e == g + 4 && acc % 0x100_0000 == GroupValue(s[g], s[g + 1], s[g + 2], s[g + 3])
  }

  lemma PendingNext(acc: int, s: string, g: nat, e: nat)
    requires g <= e < |s| && e <= g + 3 && (e == g || Pending(acc, s, g, e))
    ensures Pending(ShiftIn(acc, 64, Value(s[e])), s, g, e + 1)
  {
    hide ShiftIn;
    ShiftInLetter(acc, Value(s[e]));
  }

  /** Three bytes picked out of the accumulator. */
  function ThreeBytes(acc: int): seq<Byte> {
    [acc / 65536 % 256, acc / 256 % 256, acc % 256]
  }

  /** The reader. On every text over the alphabet it gives the bytes of the letters, wherever the
      lines break, except that a text without letters gives three zero bytes. */
  method Construct(t: string) returns (r: seq<Byte>)
    requires forall i | 0 <= i < |t| :: Known(t[i])
    ensures r == if Strip(t) == [] then [0, 0, 0] else Bytes(Strip(t))
  {
    hide Bytes, ShiftIn, Pending, ThreeBytes, Strip;
    var s := Strip(t);
    r := [];
    var acc, e := 0, 0;
    ghost var g := 0;
    assert s[0..] == s;
    while e < |s|
      invariant 0 <= e <= |s| && 0 <= g <= e && r + Bytes(s[g..]) == Bytes(s)
      invariant if e == 0 then g == 0 && acc == 0 else e - 4 <= g < e && g % 4 == 0 && Pending(acc, s, g, e)
    {
      if e % 4 == 0 && e > 0 {
        ReadGroup(acc, s, g);
        r, g := r + ThreeBytes(acc), g + 4;
      }
      PendingNext(acc, s, g, e);
      acc, e := ShiftIn(acc, 64, Value(s[e])), e + 1;
    }
    EndOfBytes(acc, s, g);
    var bits := |s| % 4 * 6;
    if bits == 0 {
      r := r + ThreeBytes(acc);
    } else if bits == 18 {
      r := r + [acc / 1024 % 256, acc / 4 % 256];
    } else if bits == 12 {
      r := r + [acc / 16 % 256];
    }
  }

  lemma ReadGroup(acc: int, s: string, g: nat)
    requires g + 4 <= |s| && Pending(acc, s, g, g + 4)
    ensures Bytes(s[g..]) == ThreeBytes(acc) + Bytes(s[g + 4..])
  {
    hide GroupValue;
    assert s[g..][4..] == s[g + 4..];
    LowBytes(acc);
  }

  lemma LowBytes(acc: int)
    ensures ThreeBytes(acc) == ThreeBytes(acc % 0x100_0000)
  {
    var q, n := acc / 0x100_0000, acc % 0x100_0000;
    Digit(acc, 256, 65536, q, n / 65536, n % 65536);
    assert n == n / 65536 * 65536 + n / 256 % 256 * 256 + n % 256 by { assert n / 256 / 256 == n / 65536; }
    Digit(acc, 256, 256, 256 * q + n / 65536, n / 256 % 256, n % 256);
    Remainder(acc, 256, 65536 * q + 256 * (n / 65536) + n / 256 % 256, n % 256);
  }

  /** The bytes given after the loop. */
  function EndBytes(acc: int, extra: nat): seq<Byte> {
    if extra == 0 then ThreeBytes(acc)
    else if extra == 3 then [acc / 1024 % 256, acc / 4 % 256]
    else if extra == 2 then [acc / 16 % 256] else []
  }

  lemma EndOfBytes(acc: int, s: string, g: nat)
    requires if s == [] then g == 0 && acc == 0 else |s| - 4 <= g < |s| && g % 4 == 0 && Pending(acc, s, g, |s|)
    ensures s == [] ==> Bytes(s[g..]) == [] && ThreeBytes(acc) == [0, 0, 0]
    ensures s != [] ==> Bytes(s[g..]) == EndBytes(acc, |s| % 4)
  {
    hide GroupValue, ThreeBytes, Bytes, Pending;
    NoLetters();
    LeftOver(|s|, g);
    if s == [] {
    } else if |s| == g + 4 {
      ReadGroup(acc, s, g);
      assert s[g + 4..] == [];
    } else {
      LastBytesOf(acc, s, g);
    }
  }

  lemma LeftOver(n: nat, g: nat)
    requires g % 4 == 0 && g <= n <= g + 4
    ensures n % 4 == if n == g + 4 then 0 else n - g
  {
    var k := g / 4;
    assert g == 4 * k;
    if n == g + 4 { DivModUnique(n, 4, k + 1, 0); } else { DivModUnique(n, 4, k, n - g); }
  }

  lemma NoLetters()
    ensures Bytes([]) == [] && ThreeBytes(0) == [0, 0, 0]
  {
  }

  lemma LastBytesOf(acc: int, s: string, g: nat)
    requires |s| - 3 <= g < |s| && Pending(acc, s, g, |s|)
    ensures Bytes(s[g..]) == EndBytes(acc, |s| - g)
  {
    hide GroupValue;
    LowLastBytes(acc);
  }

  lemma LowLastBytes(acc: int)
    ensures acc / 16 % 256 == acc % 4096 / 16 % 256
    ensures acc / 1024 % 256 == acc % 262144 / 1024 % 256 && acc / 4 % 256 == acc % 262144 / 4 % 256
  {
    LowByte(acc, 16, acc / 4096, acc % 4096);
    LowByte(acc, 1024, acc / 262144, acc % 262144);
    LowByte(acc, 4, 256 * (acc / 262144), acc % 262144);
  }

  /** The byte at `m` depends on the low digits alone. */
  lemma LowByte(acc: int, m: nat, hi: int, n: nat)
    requires m > 0 && acc == m * (256 * hi) + n
    ensures acc / m % 256 == n / m % 256
  {
    var x, lo := n / m, n % m;
    Split(m, hi, x, lo);
    Digit(acc, 256, m, hi + x / 256, x % 256, lo);
  }

  lemma Split(m: nat, hi: int, x: int, lo: int)
    ensures m * (256 * hi) + (m * x + lo) == m * (256 * (hi + x / 256) + x % 256) + lo
  {
    assert 256 * (hi + x / 256) + x % 256 == 256 * hi + x;
  }

  // ---- Reading what was written ----

  /** The letters of the encoding of `b` read as `b`. The reader sees only the letters, so the text
      may be broken into lines anywhere. */
  lemma {:induction false} BytesOfEncoding(b: seq<Byte>)
    ensures Bytes(Strip(Encode(b))) == b
    decreases |b|
  {
    hide GroupBytes, Quad, Triple, Strip, LastGroup;
    if |b| < 3 {
      BytesOfLast(b);
    } else {
      TripleBytes(b[0], b[1], b[2]);
      var q, rest := Quad(Triple(b[0], b[1], b[2])), Strip(Encode(b[3..]));
      QuadBack(Triple(b[0], b[1], b[2]));
      QuadKnown(Triple(b[0], b[1], b[2]));
      StripLetters(q, Encode(b[3..]));
      GroupBack(q + rest, 0, b[0], b[1], b[2]);
      BytesOfEncoding(b[3..]);
      assert (q + rest)[4..] == rest;
    }
  }

  lemma {:induction false} StripLetters(q: string, t: string)
    requires forall i | 0 <= i < |q| :: q[i] !in BREAKS_AND_PAD
    ensures Strip(q + t) == q + Strip(t)
  {
    if q == [] {
      assert q + t == t;
    } else {
      assert (q + t)[1..] == q[1..] + t;
      StripLetters(q[1..], t);
    }
  }

  lemma LetterKnown(d: nat)
    requires d < 64
    ensures IsLetter(Letter(d)) && Letter(d) !in BREAKS_AND_PAD
  {
  }

  lemma QuadKnown(n: nat)
    requires n < 0x100_0000
    ensures forall i | 0 <= i < 4 :: IsLetter(Quad(n)[i]) && Quad(n)[i] !in BREAKS_AND_PAD
  {
    hide Letter, IsLetter;
    LetterKnown(n / 262144);
    LetterKnown(n / 4096 % 64);
    LetterKnown(n / 64 % 64);
    LetterKnown(n % 64);
  }

  lemma LastKnown(b: seq<Byte>)
    requires 1 <= |b| <= 2
    ensures |LastGroup(b)| == 4
    ensures forall i | 0 <= i <= |b| :: IsLetter(LastGroup(b)[i]) && LastGroup(b)[i] !in BREAKS_AND_PAD
    ensures forall i | |b| < i < 4 :: LastGroup(b)[i] == PAD
  {
    hide Letter, IsLetter;
    var x: int := b[0];
    LetterKnown(x / 4);
    if |b| == 1 {
      LetterKnown(x % 4 * 16);
    } else {
      var y: int := b[1];
      LetterKnown(x % 4 * 16 + y / 16);
      LetterKnown(y % 16 * 4);
    }
  }

  lemma BytesOfLast(b: seq<Byte>)
    requires |b| < 3
    ensures Bytes(Strip(LastGroup(b))) == b
  {
    hide GroupValue, LastGroup, Strip, Bytes;
    if b == [] {
      NoLast();
      NoLetters();
      StripPads([]);
    } else {
      var g, n := LastGroup(b), |b| + 1;
      LastKnown(b);
      assert g == g[..n] + g[n..];
      StripLetters(g[..n], g[n..]);
      StripPads(g[n..]);
      LastValues(b);
      assert g[..n] + [] == g[..n];
      if |b| == 1 {
        OneByteOf(g[..n], b[0]);
        assert b == [b[0]];
      } else {
        TwoBytesOfThree(g[..n], b[0], b[1]);
        assert b == [b[0], b[1]];
      }
    }
  }

  lemma {:induction false} StripPads(t: string)
    requires forall i | 0 <= i < |t| :: t[i] == PAD
    ensures Strip(t) == []
  {
    if t != [] { StripPads(t[1..]); }
  }

  lemma OneByteOf(s: string, x: Byte)
    requires |s| == 2 && GroupValue('A', 'A', s[0], s[1]) == 16 * x as int
    ensures Bytes(s) == [x]
  {
    hide GroupValue;
    DivModUnique(16 * x as int, 16, x, 0);
    DivModUnique(x, 256, 0, x);
  }

  lemma TwoBytesOfThree(s: string, x: Byte, y: Byte)
    requires |s| == 3 && GroupValue('A', s[0], s[1], s[2]) == 1024 * x as int + 4 * y as int
    ensures Bytes(s) == [x, y]
  {
    hide GroupValue;
    var e := 1024 * x as int + 4 * y as int;
    DivModUnique(e, 1024, x, 4 * y as int);
    DivModUnique(x, 256, 0, x);
    DivModUnique(e, 4, 256 * x as int + y, 0);
    DivModUnique(256 * x as int + y, 256, x, y);
  }

  lemma LastValues(b: seq<Byte>)
    requires 1 <= |b| <= 2
    ensures var g := LastGroup(b);
            if |b| == 1 then GroupValue('A', 'A', g[0], g[1]) == 16 * b[0] as int
            else GroupValue('A', g[0], g[1], g[2]) == 1024 * b[0] as int + 4 * b[1] as int
  {
    hide Letter, Value;
    var x: int := b[0];
    ValueOfLetter(0);
    ValueOfLetter(x / 4);
    assert Letter(0) == 'A' by { LetterZero(); }
    if |b| == 1 {
      ValueOfLetter(x % 4 * 16);
    } else {
      var y: int := b[1];
      ValueOfLetter(x % 4 * 16 + y / 16);
      ValueOfLetter(y % 16 * 4);
    }
  }

  lemma LetterZero()
    ensures Letter(0) == 'A'
  {
  }

  /** The encoding is over the alphabet, has no line break, and is a whole number of groups. */
  lemma {:induction false} EncodingAccepted(b: seq<Byte>)
    ensures forall i | 0 <= i < |Encode(b)| :: Known(Encode(b)[i]) && Encode(b)[i] != '\n' && Encode(b)[i] != '\r'
    ensures b != [] ==> Strip(Encode(b)) != []
    decreases |b|
  {
    hide Quad, Triple, LastGroup, IsLetter, Strip;
    if |b| >= 3 {
      TripleBytes(b[0], b[1], b[2]);
      QuadKnown(Triple(b[0], b[1], b[2]));
      StripLetters(Quad(Triple(b[0], b[1], b[2])), Encode(b[3..]));
      EncodingAccepted(b[3..]);
    } else if b == [] {
      NoLast();
    } else {
      var g := LastGroup(b);
      LastKnown(b);
      assert g == [g[0]] + g[1..];
      StripLetters([g[0]], g[1..]);
    }
  }

  lemma {:induction false} NoBreaks(t: string)
    requires forall i | 0 <= i < |t| :: t[i] != '\n' && t[i] != '\r'
    ensures BreaksIn(t) == 0
  {
    if t != [] { NoBreaks(t[1..]); }
  }

  /** Writing, testing and reading: every byte string is accepted, and comes back unchanged if and
      only if it is not empty. */
  method RoundTrip(b: seq<Byte>) returns (ok: bool, r: seq<Byte>)
    ensures ok && (r == b <==> b != [])
  {
    hide Encode, Strip, Bytes, BreaksIn, Known;
    var text := Represent(b);
    BytesOfEncoding(b);
    Accepted(b, text);
    ok := Resolve(text);
    r := Construct(text);
  }

  lemma Accepted(b: seq<Byte>, text: string)
    requires text == if b == [] then "AAAA" else Encode(b)
    ensures (forall i | 0 <= i < |text| :: Known(text[i])) && (|text| - BreaksIn(text)) % 4 == 0
    ensures b != [] ==> Strip(text) != []
    ensures b == [] ==> Strip(text) != [] && Bytes(Strip(text)) != []
  {
    hide Encode, Strip, Bytes, Known, BreaksIn;
    if b == [] {
      FourAs();
    } else {
      EncodingAccepted(b);
      NoBreaks(text);
      LettersOnly(b, |b| / 3);
    }
  }

  lemma FourAs()
    ensures (forall i | 0 <= i < 4 :: Known("AAAA"[i])) && BreaksIn("AAAA") == 0
    ensures Strip("AAAA") == "AAAA" && Bytes("AAAA") != []
  {
    hide Bytes;
    NoBreaks("AAAA");
    StripLetters("AAAA", []);
    assert "AAAA" + [] == "AAAA";
    FourLettersBytes();
  }

  lemma FourLettersBytes()
    ensures Bytes("AAAA") != []
  {
    hide GroupBytes;
  }
}
