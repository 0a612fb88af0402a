/**
  * Base64: the encoder and decoder of the Buffer library (bundle module 336), against section 4
  * of RFC 4648.
  */
module Base64 {
  import opened Division
  import opened Options
  import opened Words

  const PAD: char := '='

  /** The alphabet of the RFC. */
  function Letter(d: nat): char
    requires d < 64
  {
    if d < 26 then 'A' + d as char
    else if d < 52 then 'a' + (d - 26) as char
    else if d < 62 then '0' + (d - 52) as char
    else if d == 62 then '+' else '/'
  }

  const CAPITALS := "ABCDEFGHIJKLMNOPQRSTUVWXYZ"
  const SMALL := "abcdefghijklmnopqrstuvwxyz"
  const DIGITS := "0123456789"
  const ALPHABET := CAPITALS + SMALL + DIGITS + "+/"

  /** The letters are those of table 1 of RFC 4648. */
  lemma LetterIs(d: nat)
    requires d < 64
    ensures Letter(d) == ALPHABET[d]
  {
    if d < 26 {
      CapitalIs(d);
    } else if d < 52 {
      SmallIs(d - 26);
    } else if d < 62 {
      DigitIs(d - 52);
    }
  }

  lemma CapitalIs(d: nat)
    requires d < 26
    ensures CAPITALS[d] == 'A' + d as char
  {
  }

  lemma SmallIs(d: nat)
    requires d < 26
    ensures SMALL[d] == 'a' + d as char
  {
  }

  lemma DigitIs(d: nat)
    requires d < 10
    ensures DIGITS[d] == '0' + d as char
  {
  }

  // ---- Reference: groups of three bytes ----

  /** The four letters of 24 bits. */
  function Quad(n: nat): (q: string)
    requires n < 0x100_0000
    ensures |q| == 4
  {
    [Letter(n / 262144), Letter(n / 4096 % 64), Letter(n / 64 % 64), Letter(n % 64)]
  }

  function Triple(x: nat, y: nat, z: nat): nat {
    x * 65536 + y * 256 + z
  }

  /** The final group: 8 or 16 bits, padded with zero bits and pad characters. */
  function LastGroup(b: seq<Byte>): string
    requires |b| < 3
  {
    if |b| == 0 then []
    else
      var x: int := b[0];
      if |b| == 1 then [Letter(x / 4), Letter(x % 4 * 16), PAD, PAD]
      else
        var y: int := b[1];
        [Letter(x / 4), Letter(x % 4 * 16 + y / 16), Letter(y % 16 * 4), PAD]
  }

  function Encode(b: seq<Byte>): string {
    if |b| < 3 then LastGroup(b) else Quad(Triple(b[0], b[1], b[2])) + Encode(b[3..])
  }

  // ---- Encoder ----

  lemma EncodeGroup(b: seq<Byte>, s: nat)
    requires s + 3 <= |b|
    ensures Encode(b[s..]) == Quad(Triple(b[s], b[s + 1], b[s + 2])) + Encode(b[s + 3..])
  {
    assert b[s..][3..] == b[s + 3..];
  }

  lemma EncodeLast(b: seq<Byte>, s: nat)
    requires s <= |b| < s + 3
    ensures Encode(b[s..]) == LastGroup(b[s..])
  {
  }

  /** The letters of one group, picked out of the 24 bits by shifting and masking. */
  function GroupLetters(x: Byte, y: Byte, z: Byte): string {
    var n := Triple(x, y, z);
    [Letter(n / 262144 % 64), Letter(n / 4096 % 64), Letter(n / 64 % 64), Letter(n % 64)]
  }

  lemma GroupLettersAre(x: Byte, y: Byte, z: Byte)
    ensures Triple(x, y, z) < 0x100_0000 && GroupLetters(x, y, z) == Quad(Triple(x, y, z))
  {
    hide Letter;
    var n := Triple(x, y, z);
    DivModUnique(n, 262144, n / 262144, n % 262144);
    DivModUnique(n / 262144, 64, 0, n / 262144);
  }

  /** The letters of a final group of one or two bytes, shifted out of 8 or 16 bits. */
  function TailLetters(b: seq<Byte>): string
    requires 1 <= |b| <= 2
  {
    if |b| == 1 then
      var e: int := b[0];
      [Letter(e / 4), Letter(e * 16 % 64), PAD, PAD]
    else
      TopSix(b[0], b[1]);
      var e := (b[0] as int) * 256 + b[1];
      [Letter(e / 1024), Letter(e / 16 % 64), Letter(e * 4 % 64), PAD]
  }

  lemma TopSix(x: Byte, y: Byte)
    ensures (x * 256 + y) / 1024 < 64
  {
  }

  lemma TailLettersAre(b: seq<Byte>)
    requires 1 <= |b| <= 2
    ensures TailLetters(b) == LastGroup(b)
  {
    hide Letter;
    if |b| == 1 {
      OneByte(b[0]);
    } else {
      TwoBytes(b[0], b[1]);
    }
  }

  lemma OneByte(x: int)
    requires 0 <= x < 256
    ensures x * 16 % 64 == x % 4 * 16
  {
    DivModUnique(x * 16, 64, x / 4, x % 4 * 16);
  }

  lemma TwoBytes(x: int, y: int)
    requires 0 <= x < 256 && 0 <= y < 256
    ensures var e := x * 256 + y; e / 1024 == x / 4 && e / 16 % 64 == x % 4 * 16 + y / 16 && e * 4 % 64 == y % 16 * 4
  {
    TwoBytesOf(x / 4, x % 4, y / 16, y % 16);
  }

  /** The six-bit digits of two bytes, from the parts of the bytes. */
  lemma TwoBytesOf(a: nat, b: nat, c: nat, d: nat)
    requires b < 4 && c < 16 && d < 16
    ensures var e := (4 * a + b) * 256 + (16 * c + d);
            e / 1024 == a && e / 16 % 64 == b * 16 + c && e * 4 % 64 == d * 4
  {
    var e := (4 * a + b) * 256 + (16 * c + d);
    DivModUnique(e, 1024, a, 256 * b + 16 * c + d);
    DivModUnique(e, 16, 64 * a + 16 * b + c, d);
    DivModUnique(e / 16, 64, a, 16 * b + c);
    DivModUnique(e * 4, 64, 64 * a + 16 * b + c, d * 4);
  }

  /** The letters of `b[start..end]`, a whole number of groups. */
  method EncodeChunk(b: seq<Byte>, start: nat, end: nat) returns (text: string)
    requires start <= end <= |b| && (end - start) % 3 == 0
    ensures text + Encode(b[end..]) == Encode(b[start..])
  {
    hide Encode, GroupLetters, Quad, Triple;
    text := [];
    var s := start;
    while s < end
      invariant start <= s <= end && (end - s) % 3 == 0
      invariant text + Encode(b[s..]) == Encode(b[start..])
    {
      EncodeGroup(b, s);
      GroupLettersAre(b[s], b[s + 1], b[s + 2]);
      text, s := text + GroupLetters(b[s], b[s + 1], b[s + 2]), s + 3;
    }
  }

  method FromByteArray(b: seq<Byte>) returns (text: string)
    ensures text == Encode(b)
  {
    hide Encode, TailLetters, LastGroup;
    var extra := |b| % 3;
    var whole := |b| - extra;
    text := [];
    var s := 0;
    assert b[0..] == b;
    while s < whole
      invariant 0 <= s <= whole && s % 3 == 0 && text + Encode(b[s..]) == Encode(b)
    {
      var e := if s + 16383 > whole then whole else s + 16383;
      var chunk := EncodeChunk(b, s, e);
      text, s := text + chunk, e;
    }
    assert s == whole;
    EncodeLast(b, whole);
    if extra > 0 {
      TailLettersAre(b[whole..]);
      text := text + TailLetters(b[whole..]);
    } else {
      NoLast();
      assert b[whole..] == [] && text + [] == text;
    }
  }

  lemma NoLast()
    ensures LastGroup([]) == []
  {
  }

  /** The examples of section 10 of RFC 4648; the longer ones go on with `rest`. */
  lemma EncodeExamples(rest: seq<Byte>)
    ensures Encode([]) == "" && Encode([102]) == "Zg==" && Encode([102, 111]) == "Zm8="
    ensures Encode([102, 111, 111] + rest) == "Zm9v" + Encode(rest)
    ensures Encode([98, 97, 114] + rest) == "YmFy" + Encode(rest)
  {
    hide Encode, Quad;
    EncodeFirst(102, 111, 111, rest);
    EncodeFirst(98, 97, 114, rest);
    QuadOf(Triple(102, 111, 111), 25, 38, 61, 47);
    QuadOf(Triple(98, 97, 114), 24, 38, 5, 50);
    EncodeShort([]);
    EncodeShort([102]);
    EncodeShort([102, 111]);
  }

  /** The letters of a number are those of its digits in base 64. */
  lemma QuadOf(n: nat, p: nat, q: nat, r: nat, s: nat)
    requires p < 64 && q < 64 && r < 64 && s < 64 && n == p * 262144 + q * 4096 + r * 64 + s
    ensures n < 0x100_0000 && Quad(n) == [Letter(p), Letter(q), Letter(r), Letter(s)]
  {
    hide Letter;
    DivModUnique(n, 262144, p, q * 4096 + r * 64 + s);
    DivModUnique(n, 4096, p * 64 + q, r * 64 + s);
    DivModUnique(n, 64, p * 4096 + q * 64 + r, s);
    DivModUnique(n / 4096, 64, p, q);
    DivModUnique(n / 64, 64, p * 64 + q, r);
  }

  lemma EncodeFirst(x: Byte, y: Byte, z: Byte, rest: seq<Byte>)
    ensures Encode([x, y, z] + rest) == Quad(Triple(x, y, z)) + Encode(rest)
  {
    assert ([x, y, z] + rest)[3..] == rest;
  }

  lemma EncodeShort(b: seq<Byte>)
    requires |b| < 3
    ensures Encode(b) == LastGroup(b)
  {
  }

  // ---- Decoder ----

  /** The value of a letter; '-' and '_' are also accepted, anything else counts as 0. */
  function Value(c: char): (d: nat)
    ensures d < 64
  {
    if 'A' <= c <= 'Z' then c as int - 'A' as int
    else if 'a' <= c <= 'z' then c as int - 'a' as int + 26
    else if '0' <= c <= '9' then c as int - '0' as int + 52
    else if c == '+' || c == '-' then 62
    else if c == '/' || c == '_' then 63
    else 0
  }

  /** Each letter of the alphabet has its place in it as its value; '-' and '_' stand for the last two, as in
      table 2 of the RFC, and any other character counts as 0. */
  lemma ValueIs(c: char)
    ensures forall d | 0 <= d < 64 && c == ALPHABET[d] :: Value(c) == d
    ensures Value('-') == 62 && Value('_') == 63
    ensures c != '-' && c != '_' && (forall d | 0 <= d < 64 :: c != ALPHABET[d]) ==> Value(c) == 0
  {
    forall d | 0 <= d < 64 && c == ALPHABET[d] ensures Value(c) == d { LetterIs(d); }
    if Value(c) != 0 && c != '-' && c != '_' {
      LetterIs(Value(c));
      assert c == ALPHABET[Value(c)];
    }
  }

  /** Where the padding starts: the first pad character, or the end. */
  function DataLength(t: string): (n: nat)
    ensures n <= |t| && (n < |t| ==> t[n] == PAD) && forall i | 0 <= i < n :: t[i] != PAD
  {
    if t == [] || t[0] == PAD then 0 else 1 + DataLength(t[1..])
  }

  function PadCount(t: string): nat {
    var n := DataLength(t);
    if n == |t| then 0 else 4 - n % 4
  }

  /** The bytes of the group of four letters at `n`. */
  function GroupBytes(t: string, n: nat): (r: seq<Byte>)
    requires n + 4 <= |t|
    ensures |r| == 3
  {
    var e := GroupValue(t[n], t[n + 1], t[n + 2], t[n + 3]);
    [e / 65536 % 256, e / 256 % 256, e % 256]
  }

  function GroupValue(a: char, b: char, c: char, d: char): nat {
    Value(a) * 262144 + Value(b) * 4096 + Value(c) * 64 + Value(d)
  }

  /** The groups that start before `limit`, from `n` on, and where they end. */
  function Groups(t: string, n: nat, limit: int): (r: (seq<Byte>, nat))
    requires |t| % 4 == 0 && n % 4 == 0 && limit <= |t|
    ensures r.1 % 4 == 0 && n <= r.1 && (r.1 <= n || r.1 < limit + 4)
    decreases limit - n
  {
    if n >= limit then ([], n)
    else var (b, e) := Groups(t, n + 4, limit); (GroupBytes(t, n) + b, e)
  }

  /** The bytes of the last, padded group, which starts at `n`. */
  function LastBytes(t: string, n: nat, pads: nat): seq<Byte>
    requires 1 <= pads <= 2 ==> n + 4 <= |t|
  {
    if pads == 2 then [(Value(t[n]) * 4 + Value(t[n + 1]) / 16) % 256]
    else if pads == 1 then
      var e := Value(t[n]) * 1024 + Value(t[n + 1]) * 16 + Value(t[n + 2]) / 4;
      [e / 256 % 256, e % 256]
    else []
  }

  function Size(t: string): int {
    (DataLength(t) + PadCount(t)) * 3 / 4 - PadCount(t)
  }

  /** The decoded bytes in an array of the computed size; None where the source throws: a length
      that is no multiple of four, or a negative size. */
  function Decode(t: string): Option<seq<Byte>> {
    if |t| % 4 != 0 || Size(t) < 0 then None
    else
      var pads, n := PadCount(t), DataLength(t);
      var (b, e) := Groups(t, 0, if pads > 0 then n - 4 else n);
      LastFits(t, e);
      Some(Filled(b + LastBytes(t, e, pads), Size(t)))
  }

  /** An array of the given size that starts with `all`; what is not written stays 0. */
  function Filled(all: seq<Byte>, size: int): seq<Byte> {
    all + seq(if |all| < size then size - |all| else 0, _ => 0)
  }

  lemma FilledExactly(all: seq<Byte>)
    ensures Filled(all, |all|) == all
  {
  }

  lemma LastFits(t: string, e: nat)
    requires |t| % 4 == 0 && e % 4 == 0 && 1 <= PadCount(t) <= 2 ==> e < |t|
    ensures 1 <= PadCount(t) <= 2 && |t| % 4 == 0 && e % 4 == 0 ==> e + 4 <= |t|
  {
  }

  lemma {:induction false} GroupsLength(t: string, m: nat, k: nat, limit: int)
    requires |t| % 4 == 0 && m <= k && limit <= |t| && 4 * k - 4 < limit <= 4 * k
    ensures |Groups(t, 4 * m, limit).0| == 3 * (k - m) && Groups(t, 4 * m, limit).1 == 4 * k
    decreases k - m
  {
    hide GroupBytes;
    if m < k {
      GroupsLength(t, m + 1, k, limit);
    }
  }

  /** The bytes decoded fit the array, and leave it partly unwritten only if the data part of a
      padded text is a whole number of groups. */
  lemma DecodedFits(t: string, pads: nat, limit: int)
    requires |t| % 4 == 0 && Size(t) >= 0
    requires pads == PadCount(t) && limit == if pads > 0 then DataLength(t) - 4 else DataLength(t)
    ensures var (b, e) := Groups(t, 0, limit);
            (1 <= pads <= 2 ==> e + 4 <= |t|) &&
            |b| + |LastBytes(t, e, pads)| == if pads == 4 then Size(t) - 2 else Size(t)
  {
    hide Groups, DataLength, PadCount, Size;
    var n := DataLength(t);
    var k, r := n / 4, n % 4;
    SizeIs(t, k, r);
    GroupsLength(t, 0, if pads == 4 then k - 1 else k, limit);
  }

  /** The padding and the size, where the data part is `4 * k + r` long. */
  lemma SizeIs(t: string, k: nat, r: nat)
    requires |t| % 4 == 0 && r < 4 && DataLength(t) == 4 * k + r
    ensures PadCount(t) == if |t| == 4 * k + r then 0 else 4 - r
    ensures |t| == 4 * k + r ==> r == 0 && Size(t) == 3 * k
    ensures |t| > 4 * k + r ==> 4 * k + 4 <= |t| && Size(t) == 3 * k - 1 + r
  {
    hide DataLength, PadCount;
    PadIs(t, k, r);
    DivModUnique(12 * k, 4, 3 * k, 0);
    DivModUnique(12 * k + 12, 4, 3 * k + 3, 0);
  }

  lemma PadIs(t: string, k: nat, r: nat)
    requires |t| % 4 == 0 && r < 4 && DataLength(t) == 4 * k + r
    ensures PadCount(t) == if |t| == 4 * k + r then 0 else 4 - r
    ensures |t| == 4 * k + r ==> r == 0
    ensures |t| > 4 * k + r ==> 4 * k + 4 <= |t|
  {
    hide DataLength;
    DivModUnique(4 * k + r, 4, k, r);
    var m := |t| / 4;
    assert |t| == 4 * m;
  }

  /** The decoder: fills an array of the computed size; `ok` is false where the source throws. */
  method ToByteArray(t: string) returns (ok: bool, a: array<Byte>)
    ensures fresh(a) && ok == Decode(t).Some? && (ok ==> Some(a[..]) == Decode(t))
  {
    hide Groups, DataLength, PadCount, Size, LastBytes;
    ok := |t| % 4 == 0 && Size(t) >= 0;
    a := new Byte[if ok then Size(t) else 0](_ => 0);
    if !ok { return; }
    var pads := PadCount(t);
    var limit: int := if pads > 0 then DataLength(t) - 4 else DataLength(t);
    DecodedFits(t, pads, limit);
    ghost var zeros := a[..];
    var n, f := WriteGroups(t, limit, a);
    WriteLast(t, n, pads, a, f);
    ghost var done := f + |LastBytes(t, n, pads)|;
    assert a[..] == Groups(t, 0, limit).0 + LastBytes(t, n, pads) + zeros[done..];
    assert zeros[done..] == seq(a.Length - done, _ => 0);
  }

  method WriteGroups(t: string, limit: int, a: array<Byte>) returns (n: nat, f: nat)
    requires |t| % 4 == 0 && limit <= |t| && |Groups(t, 0, limit).0| <= a.Length
    modifies a
    ensures n == Groups(t, 0, limit).1 && f == |Groups(t, 0, limit).0|
    ensures a[..] == Groups(t, 0, limit).0 + old(a[|Groups(t, 0, limit).0|..])
  {
    hide Groups, GroupBytes;
    n, f := 0, 0;
    ghost var b := Groups(t, 0, limit).0;
    while n < limit
      invariant n % 4 == 0 && f + |Groups(t, n, limit).0| == |b|
      invariant f <= a.Length && a[..f] + Groups(t, n, limit).0 == b
      invariant Groups(t, n, limit).1 == Groups(t, 0, limit).1
      invariant a[f..] == old(a[f..])
    {
      Aligned(n, |t|);
      GroupsStep(t, n, limit);
      ghost var done, g, rest := a[..f], GroupBytes(t, n), Groups(t, n + 4, limit).0;
      WriteThree(a, f, GroupBytes(t, n));
      f, n := f + 3, n + 4;
      assert (done + g) + rest == done + (g + rest);
    }
    GroupsDone(t, n, limit);
    assert a[..] == a[..f] + a[f..];
  }

  method WriteThree(a: array<Byte>, f: nat, g: seq<Byte>)
    requires |g| == 3 && f + 3 <= a.Length
    modifies a
    ensures a[..f + 3] == old(a[..f]) + g && a[f + 3..] == old(a[f + 3..])
  {
    a[f], a[f + 1], a[f + 2] := g[0], g[1], g[2];
  }

  lemma GroupsStep(t: string, n: nat, limit: int)
    requires |t| % 4 == 0 && n % 4 == 0 && n < limit <= |t| && (n + 4) % 4 == 0 && n + 4 <= |t|
    ensures Groups(t, n, limit).0 == GroupBytes(t, n) + Groups(t, n + 4, limit).0
    ensures Groups(t, n, limit).1 == Groups(t, n + 4, limit).1
  {
  }

  lemma Aligned(n: nat, length: nat)
    requires n % 4 == 0 && length % 4 == 0 && n < length
    ensures (n + 4) % 4 == 0 && n + 4 <= length
  {
  }

  lemma GroupsDone(t: string, n: nat, limit: int)
    requires |t| % 4 == 0 && n % 4 == 0 && limit <= |t| && limit <= n
    ensures Groups(t, n, limit) == ([], n)
  {
  }

  method WriteLast(t: string, n: nat, pads: nat, a: array<Byte>, f: nat)
    requires (1 <= pads <= 2 ==> n + 4 <= |t|) && f + |LastBytes(t, n, pads)| <= a.Length
    modifies a
    ensures a[..] == old(a[..f]) + LastBytes(t, n, pads) + old(a[f + |LastBytes(t, n, pads)|..])
  {
    hide Value;
    if pads == 2 {
      a[f] := (Value(t[n]) * 4 + Value(t[n + 1]) / 16) % 256;
    } else if pads == 1 {
      var e := Value(t[n]) * 1024 + Value(t[n + 1]) * 16 + Value(t[n + 2]) / 4;
      a[f], a[f + 1] := e / 256 % 256, e % 256;
    }
  }

  // ---- Decoding undoes encoding ----

  lemma ValueOfLetter(d: nat)
    requires d < 64
    ensures Value(Letter(d)) == d && Letter(d) != PAD
  {
  }

  lemma Digits64(n: nat)
    requires n < 0x100_0000
    ensures n / 262144 < 64 && n == n / 262144 * 262144 + n / 4096 % 64 * 4096 + n / 64 % 64 * 64 + n % 64
  {
    DivTwice(n, 64, 64);
    DivTwice(n, 4096, 64);
    var a, b, c := n / 64, n / 4096, n / 262144;
    assert n == 64 * a + n % 64 && a == 64 * b + a % 64 && b == 64 * c + b % 64;
  }

  lemma TripleBytes(x: nat, y: nat, z: nat)
    requires x < 256 && y < 256 && z < 256
    ensures var n := Triple(x, y, z); n < 0x100_0000 && n / 65536 % 256 == x && n / 256 % 256 == y && n % 256 == z
  {
    var n := Triple(x, y, z);
    DivModUnique(n, 65536, x, y * 256 + z);
    DivModUnique(n, 256, x * 256 + y, z);
    DivModUnique(x * 256 + y, 256, x, y);
  }

  /** The letters of 24 bits have those bits as their value, and none is a pad character. */
  lemma QuadBack(n: nat)
    requires n < 0x100_0000
    ensures var q := Quad(n);
            GroupValue(q[0], q[1], q[2], q[3]) == n && forall i | 0 <= i < 4 :: q[i] != PAD
  {
    hide Value, Letter;
    Digits64(n);
    ValueOfLetter(n / 262144);
    ValueOfLetter(n / 4096 % 64);
    ValueOfLetter(n / 64 % 64);
    ValueOfLetter(n % 64);
  }

  /** A group decodes to the three bytes it was made from. */
  lemma GroupBack(t: string, n: nat, x: Byte, y: Byte, z: Byte)
    requires n + 4 <= |t| && t[n..n + 4] == Quad(Triple(x, y, z))
    ensures GroupBytes(t, n) == [x, y, z]
  {
    hide GroupValue, Quad, Triple;
    TripleBytes(x, y, z);
    var q := Quad(Triple(x, y, z));
    assert t[n] == q[0] && t[n + 1] == q[1] && t[n + 2] == q[2] && t[n + 3] == q[3];
    QuadBack(Triple(x, y, z));
  }

  lemma Skipped(q: string, t: string, n: nat)
    requires |q| == 4 && n <= |t|
    ensures (q + t)[n + 4..] == t[n..]
  {
  }

  /** The text from group `j` on is the encoding of the bytes from `3 * j` on. */
  lemma {:induction false} EncodeFrom(b: seq<Byte>, j: nat)
    requires 3 * j <= |b|
    ensures 4 * j <= |Encode(b)| && Encode(b)[4 * j..] == Encode(b[3 * j..])
  {
    hide Encode, Quad;
    assert b[0..] == b;
    if j > 0 {
      EncodeFrom(b[3..], j - 1);
      EncodeGroup(b, 0);
      assert b[3..][3 * (j - 1)..] == b[3 * j..];
      Skipped(Quad(Triple(b[0], b[1], b[2])), Encode(b[3..]), 4 * (j - 1));
    }
  }

  /** Group by group, the text gives the first `3 * k` bytes. */
  predicate GivesBack(t: string, b: seq<Byte>, k: nat) {
    3 * k <= |b| && 4 * k <= |t| && forall j | 0 <= j < k :: GroupBytes(t, 4 * j) == b[3 * j..3 * j + 3]
  }

  lemma {:induction false} GroupsBack(b: seq<Byte>, t: string, j: nat, k: nat, limit: int)
    requires GivesBack(t, b, k) && |t| % 4 == 0 && j <= k && 4 * k - 4 < limit <= 4 * k
    ensures Groups(t, 4 * j, limit) == (b[3 * j..3 * k], 4 * k)
    decreases k - j
  {
    hide GroupBytes;
    if j < k {
      GroupsBack(b, t, j + 1, k, limit);
      assert b[3 * j..3 * k] == b[3 * j..3 * j + 3] + b[3 * (j + 1)..3 * k];
    } else {
      assert b[3 * j..3 * k] == [];
    }
  }

  lemma GroupBackAt(b: seq<Byte>, t: string, j: nat)
    requires t == Encode(b) && 3 * j + 3 <= |b|
    ensures 4 * j + 4 <= |t| && GroupBytes(t, 4 * j) == b[3 * j..3 * j + 3]
  {
    hide Encode, GroupBytes, Quad, Triple;
    EncodeFrom(b, j);
    EncodeGroup(b, 3 * j);
    GroupLettersAre(b[3 * j], b[3 * j + 1], b[3 * j + 2]);
    assert t[4 * j..4 * j + 4] == t[4 * j..][..4];
    GroupBack(t, 4 * j, b[3 * j], b[3 * j + 1], b[3 * j + 2]);
  }

  lemma GivenBack(b: seq<Byte>, k: nat)
    requires 3 * k <= |b| && 4 * k <= |Encode(b)|
    ensures GivesBack(Encode(b), b, k)
  {
    hide Encode, GroupBytes;
    forall j | 0 <= j < k ensures GroupBytes(Encode(b), 4 * j) == b[3 * j..3 * j + 3] {
      GroupBackAt(b, Encode(b), j);
    }
  }

  lemma {:induction false} LettersOnly(b: seq<Byte>, k: nat)
    requires 3 * k <= |b| < 3 * k + 3
    ensures |Encode(b)| == if |b| == 3 * k then 4 * k else 4 * k + 4
    ensures DataLength(Encode(b)) == if |b| == 3 * k then 4 * k else k + |b| + 1
    decreases k
  {
    hide Quad, Triple, DataLength, LastGroup;
    if k == 0 {
      LastLetters(b);
    } else {
      LettersOnly(b[3..], k - 1);
      TripleBytes(b[0], b[1], b[2]);
      QuadBack(Triple(b[0], b[1], b[2]));
      SkipLetters(Quad(Triple(b[0], b[1], b[2])), Encode(b[3..]));
    }
  }

  lemma {:induction false} SkipLetters(q: string, t: string)
    requires forall i | 0 <= i < |q| :: q[i] != PAD
    ensures DataLength(q + t) == |q| + DataLength(t)
  {
    if q == [] {
      assert q + t == t;
    } else {
      assert (q + t)[1..] == q[1..] + t;
      SkipLetters(q[1..], t);
    }
  }

  lemma LastLetters(b: seq<Byte>)
    requires |b| < 3
    ensures |LastGroup(b)| == (if |b| == 0 then 0 else 4)
    ensures DataLength(LastGroup(b)) == if |b| == 0 then 0 else |b| + 1
  {
    hide Letter;
    var g := LastGroup(b);
    if |b| > 0 {
      var x: int := b[0];
      ValueOfLetter(x / 4);
      if |b| == 1 {
        ValueOfLetter(x % 4 * 16);
        SkipLetters(g[..2], g[2..]);
        assert g[..2] + g[2..] == g;
      } else {
        var y: int := b[1];
        ValueOfLetter(x % 4 * 16 + y / 16);
        ValueOfLetter(y % 16 * 4);
        SkipLetters(g[..3], g[3..]);
        assert g[..3] + g[3..] == g;
      }
    }
  }

  lemma LastBack(t: string, n: nat, b: seq<Byte>)
    requires 1 <= |b| <= 2 && n + 4 <= |t| && t[n..n + 4] == LastGroup(b)
    ensures LastBytes(t, n, 3 - |b|) == b
  {
    hide Value, Letter;
    var g := LastGroup(b);
    assert t[n] == g[0] && t[n + 1] == g[1] && t[n + 2] == g[2];
    var x: int := b[0];
    ValueOfLetter(x / 4);
    if |b| == 1 {
      ValueOfLetter(x % 4 * 16);
      LastSingle(x);
    } else {
      var y: int := b[1];
      ValueOfLetter(x % 4 * 16 + y / 16);
      ValueOfLetter(y % 16 * 4);
      LastPair(x, y);
    }
  }

  lemma LastSingle(x: int)
    requires 0 <= x < 256
    ensures (x / 4 * 4 + x % 4 * 16 / 16) % 256 == x
  {
    DivModUnique(x % 4 * 16, 16, x % 4, 0);
    DivModUnique(x, 256, 0, x);
  }

  lemma LastPair(x: int, y: int)
    requires 0 <= x < 256 && 0 <= y < 256
    ensures var e := x / 4 * 1024 + (x % 4 * 16 + y / 16) * 16 + y % 16 * 4 / 4; e / 256 % 256 == x && e % 256 == y
  {
    DivModUnique(y % 16 * 4, 4, y % 16, 0);
    assert x / 4 * 1024 + (x % 4 * 16 + y / 16) * 16 + y % 16 == x * 256 + y;
    DivModUnique(x * 256 + y, 256, x, y);
    DivModUnique(x, 256, 0, x);
  }

  /** The padding and the size the decoder computes, for `3 * k + extra` encoded bytes. */
  lemma SizeBack(b: seq<Byte>, k: nat, extra: nat, pads: nat)
    requires |b| == 3 * k + extra && extra < 3 && pads == if extra == 0 then 0 else 3 - extra
    ensures |Encode(b)| == if extra == 0 then 4 * k else 4 * k + 4
    ensures DataLength(Encode(b)) == |Encode(b)| - pads && PadCount(Encode(b)) == pads && Size(Encode(b)) == |b|
  {
    hide Encode, DataLength, PadCount, Size;
    LettersOnly(b, k);
    SizeIs(Encode(b), k, if extra == 0 then 0 else extra + 1);
  }

  /** Decoding undoes encoding, for every byte string. */
  lemma DecodeEncode(b: seq<Byte>)
    ensures Decode(Encode(b)) == Some(b)
  {
    hide Encode, Decode;
    DecodeBack(b, |b| / 3, |b| % 3);
  }

  lemma DecodeBack(b: seq<Byte>, k: nat, extra: nat)
    requires |b| == 3 * k + extra && extra < 3
    ensures Decode(Encode(b)) == Some(b)
  {
    hide Encode, Groups, LastBytes, DataLength, LastGroup, PadCount, Size, GivesBack, Filled;
    var t, pads := Encode(b), if extra == 0 then 0 else 3 - extra;
    SizeBack(b, k, extra, pads);
    GivenBack(b, k);
    GroupsBack(b, t, 0, k, if pads > 0 then DataLength(t) - 4 else DataLength(t));
    LastPart(b, k, pads);
    assert b[3 * 0..3 * k] + b[3 * k..] == b;
    FilledExactly(b);
  }

  lemma LastPart(b: seq<Byte>, k: nat, pads: nat)
    requires 3 * k <= |b| < 3 * k + 3 && pads == if |b| == 3 * k then 0 else 3 * k + 3 - |b|
    requires |Encode(b)| == if |b| == 3 * k then 4 * k else 4 * k + 4
    ensures LastBytes(Encode(b), 4 * k, pads) == b[3 * k..]
  {
    hide Encode, LastGroup;
    var t := Encode(b);
    if pads > 0 {
      EncodeFrom(b, k);
      EncodeLast(b, 3 * k);
      assert t[4 * k..4 * k + 4] == t[4 * k..];
      LastBack(t, 4 * k, b[3 * k..]);
    }
  }
}
