/**
  * UTF-8 in the Buffer library (bundle module 141): the decoder `N` and the encoder `Q`, against
  * sequences of scalar values and the byte grammar of section 4 of RFC 3629.
  */
module Utf8 {
  import opened Division
  import opened Options
  import opened Words

  /** A Unicode scalar value: a code point that is not a surrogate. */
  type Scalar = x: nat | x < 0x11_0000 && !(0xD800 <= x < 0xE000)

  const REPLACEMENT: Unit := 0xFFFD

  // ---- Reference: scalar values, UTF-8 bytes, UTF-16 units ----

  function Bytes1(c: Scalar): (b: seq<Byte>)
    ensures 1 <= |b| <= 4
  {
    if c < 0x80 then [c]
    else if c < 0x800 then [192 + c / 64, 128 + c % 64]
    else if c < 0x1_0000 then [224 + c / 4096, 128 + c / 64 % 64, 128 + c % 64]
    else [240 + c / 262144, 128 + c / 4096 % 64, 128 + c / 64 % 64, 128 + c % 64]
  }

  function Units1(c: Scalar): (w: seq<Unit>)
    ensures 1 <= |w| <= 2
  {
    if c < 0x1_0000 then [c] else [0xD800 + (c - 0x1_0000) / 1024, 0xDC00 + (c - 0x1_0000) % 1024]
  }

  function Bytes(cs: seq<Scalar>): seq<Byte> {
    if cs == [] then [] else Bytes1(cs[0]) + Bytes(cs[1..])
  }

  function Units(cs: seq<Scalar>): seq<Unit> {
    if cs == [] then [] else Units1(cs[0]) + Units(cs[1..])
  }

  /** The length of the character the bytes start with, by the grammar; 0 if there is none. */
  function CharLength(b: seq<Byte>): (l: nat)
    ensures l <= 4 && l <= |b|
  {
    if b == [] then 0
    else if b[0] < 0x80 then 1
    else if |b| >= 2 && 0xC2 <= b[0] <= 0xDF && Tail(b[1]) then 2
    else if |b| >= 3 && ThreeStart(b[0], b[1]) && Tail(b[2]) then 3
    else if |b| >= 4 && FourStart(b[0], b[1]) && Tail(b[2]) && Tail(b[3]) then 4
    else 0
  }

  predicate Tail(x: Byte) { 0x80 <= x <= 0xBF }

  predicate ThreeStart(x: Byte, y: Byte) {
    || (x == 0xE0 && 0xA0 <= y <= 0xBF)
    || (0xE1 <= x <= 0xEC && Tail(y))
    || (x == 0xED && 0x80 <= y <= 0x9F)
    || (0xEE <= x <= 0xEF && Tail(y))
  }

  predicate FourStart(x: Byte, y: Byte) {
    || (x == 0xF0 && 0x90 <= y <= 0xBF)
    || (0xF1 <= x <= 0xF3 && Tail(y))
    || (x == 0xF4 && 0x80 <= y <= 0x8F)
  }

  predicate ValidUtf8(b: seq<Byte>)
    decreases |b|
  {
    b == [] || (CharLength(b) > 0 && ValidUtf8(b[CharLength(b)..]))
  }

  predicate Lead(x: Unit) { 0xD800 <= x < 0xDC00 }

  predicate Trail(x: Unit) { 0xDC00 <= x < 0xE000 }

  predicate WellFormed(w: seq<Unit>)
    decreases |w|
  {
    if w == [] then true
    else if Lead(w[0]) then |w| >= 2 && Trail(w[1]) && WellFormed(w[2..])
    else !Trail(w[0]) && WellFormed(w[1..])
  }

  /** The examples of section 7 of RFC 3629: text with a sign that is not equal, and a character outside the
      basic plane, as bytes and as units. */
  lemma EncodingExamples()
    ensures Bytes([0x41, 0x2262, 0x0391, 0x2E]) == [0x41, 0xE2, 0x89, 0xA2, 0xCE, 0x91, 0x2E]
    ensures Bytes([0x2_33B4]) == [0xF0, 0xA3, 0x8E, 0xB4] && Units([0x2_33B4]) == [0xD84C, 0xDFB4]
  {
    hide Bytes, Units;
    var cs: seq<Scalar> := [0x41, 0x2262, 0x0391, 0x2E];
    FirstOf(cs);
    FirstOf(cs[1..]);
    FirstOf(cs[2..]);
    FirstOf(cs[3..]);
    FirstOf(cs[4..]);
    assert cs[1..][1..] == cs[2..] && cs[2..][1..] == cs[3..] && cs[3..][1..] == cs[4..] == [];
    FirstOf([0x2_33B4]);
    assert [0x2_33B4][1..] == [];
  }

  // ---- The decoder ----

  /** The declared length of the sequence that a first byte opens. */
  function Announced(c: Byte): nat {
    if c > 239 then 4 else if c > 223 then 3 else if c > 191 then 2 else 1
  }

  /** The code point at the start of `b`, unless the bytes do not form one. */
  function CodePoint(b: seq<Byte>): (f: Option<Scalar>)
    requires b != []
    ensures f.Some? ==> Announced(b[0]) <= |b|
  {
    var c: int, l := b[0], Announced(b[0]);
    if l > |b| then None
    else if l == 1 then (if c < 128 then Some(c) else None)
    else if l == 2 then
      var a := c % 32 * 64 + Payload(b[1]);
      if Continues(b[1]) && a > 127 then Some(a) else None
    else if l == 3 then
      var a := c % 16 * 4096 + Payload(b[1]) * 64 + Payload(b[2]);
      if Continues(b[1]) && Continues(b[2]) && a > 2047 && (a < 55296 || a > 57343) then Some(a) else None
    else
      var a := c % 16 * 262144 + Payload(b[1]) * 4096 + Payload(b[2]) * 64 + Payload(b[3]);
      if Continues(b[1]) && Continues(b[2]) && Continues(b[3]) && a > 65535 && a < 1114112 then Some(a) else None
  }

  /** The low six bits. */
  function Payload(x: int): nat { x % 64 }

  /** The top two bits are 10. */
  predicate Continues(x: Byte) { x / 64 == 2 }

  /** The units one round of the decoder appends, and the bytes it consumes. */
  function DecodeOne(b: seq<Byte>): (r: (seq<Unit>, nat))
    requires b != []
    ensures 0 < r.1 <= |b|
  {
    match CodePoint(b)
    case None => ([REPLACEMENT], 1)
    case Some(f) => (Units1(f), Announced(b[0]))
  }

  function Decode(b: seq<Byte>): seq<Unit>
    decreases |b|
  {
    if b == [] then [] else var (w, l) := DecodeOne(b); w + Decode(b[l..])
  }

  method DecodeSlice(t: seq<Byte>, start: nat, end: nat) returns (r: seq<Unit>)
    requires start <= end <= |t|
    ensures r == Decode(t[start..end])
  {
    hide DecodeOne;
    r := [];
    var i := start;
    while i < end
      invariant start <= i <= end
      invariant r + Decode(t[i..end]) == Decode(t[start..end])
    {
      var (w, l) := DecodeOne(t[i..end]);
      assert t[i..end][l..] == t[i + l..end];
      r, i := r + w, i + l;
    }
  }

  // ---- The encoder ----

  const MARK: seq<Byte> := [239, 191, 189]

  /** The bytes for the units `w`, with a lead surrogate possibly pending. */
  function EncodeFrom(w: seq<Unit>, lead: Option<Unit>): seq<Byte>
    requires lead.Some? ==> Lead(lead.value)
  {
    if w == [] then []
    else
      var n := w[0];
      if Lead(n) || Trail(n) then
        if lead.None? then
          if Trail(n) || |w| == 1 then MARK + EncodeFrom(w[1..], None)
          else EncodeFrom(w[1..], Some(n))
        else if Lead(n) then MARK + EncodeFrom(w[1..], Some(n))
        else Bytes1(65536 + (lead.value as int - 55296) * 1024 + (n as int - 56320)) + EncodeFrom(w[1..], None)
      else
        (if lead.Some? then MARK else []) + Bytes1(n) + EncodeFrom(w[1..], None)
  }

  function Encode(w: seq<Unit>): seq<Byte> {
    EncodeFrom(w, None)
  }

  /** What one round of the encoder appends. */
  function Appended(w: seq<Unit>, lead: Option<Unit>): seq<Byte>
    requires w != [] && (lead.Some? ==> Lead(lead.value))
  {
    var n := w[0];
    if Lead(n) || Trail(n) then
      if lead.None? then (if Trail(n) || |w| == 1 then MARK else [])
      else if Lead(n) then MARK
      else Bytes1(65536 + (lead.value as int - 55296) * 1024 + (n as int - 56320))
    else (if lead.Some? then MARK else []) + Bytes1(n)
  }

  /** The lead surrogate that is pending after a round. */
  function Pending(w: seq<Unit>, lead: Option<Unit>): (r: Option<Unit>)
    requires w != []
    ensures r.Some? ==> Lead(r.value)
  {
    if Lead(w[0]) && (lead.Some? || |w| > 1) then Some(w[0]) else None
  }

  lemma EncodeRound(w: seq<Unit>, lead: Option<Unit>)
    requires w != [] && (lead.Some? ==> Lead(lead.value))
    ensures EncodeFrom(w, lead) == Appended(w, lead) + EncodeFrom(w[1..], Pending(w, lead))
  {
    hide Bytes1;
    assert [] + EncodeFrom(w[1..], Pending(w, lead)) == EncodeFrom(w[1..], Pending(w, lead));
  }

  method EncodeUnits(w: seq<Unit>) returns (o: seq<Byte>)
    ensures o == Encode(w)
  {
    hide EncodeFrom, Bytes1;
    o := [];
    var lead: Option<Unit> := None;
    var u := 0;
    assert w[0..] == w;
    while u < |w|
      invariant u <= |w| && (lead.Some? ==> Lead(lead.value))
      invariant o + EncodeFrom(w[u..], lead) == Encode(w)
    {
      EncodeRound(w[u..], lead);
      assert w[u..][1..] == w[u + 1..];
      var more;
      more, lead := Round(w, u, lead);
      o, u := o + more, u + 1;
    }
    EncodeNothing(w[u..], lead);
  }

  /** The body of the loop. */
  method Round(w: seq<Unit>, u: nat, lead: Option<Unit>) returns (more: seq<Byte>, next: Option<Unit>)
    requires u < |w| && (lead.Some? ==> Lead(lead.value))
    ensures more == Appended(w[u..], lead) && next == Pending(w[u..], lead)
  {
    hide Bytes1;
    var n := w[u];
    more, next := [], lead;
    if Lead(n) || Trail(n) {
      if lead.None? {
        if Trail(n) || u + 1 == |w| {
          more := MARK;
        } else {
          next := Some(n);
        }
      } else if Lead(n) {
        more, next := MARK, Some(n);
      } else {
        more, next := Bytes1(65536 + (lead.value as int - 55296) * 1024 + (n as int - 56320)), None;
      }
    } else {
      if lead.Some? { more := MARK; }
      more, next := more + Bytes1(n), None;
    }
  }

  lemma EncodeNothing(w: seq<Unit>, lead: Option<Unit>)
    requires w == [] && (lead.Some? ==> Lead(lead.value))
    ensures EncodeFrom(w, lead) == []
  {
  }

  // ---- One character ----

  /** Numbers in base 64. */
  lemma Digits(p: nat, q: nat, r: nat, s: nat)
    requires q < 64 && r < 64 && s < 64
    ensures var a := p * 262144 + q * 4096 + r * 64 + s;
            a % 64 == s && a / 64 % 64 == r && a / 4096 % 64 == q && a / 262144 == p && a / 4096 == p * 64 + q
  {
    var a := p * 262144 + q * 4096 + r * 64 + s;
    DivModUnique(a, 64, p * 4096 + q * 64 + r, s);
    DivModUnique(a, 4096, p * 64 + q, r * 64 + s);
    DivModUnique(a, 262144, p, q * 4096 + r * 64 + s);
    DivModUnique(a / 64, 64, p * 64 + q, r);
    DivModUnique(a / 4096, 64, p, q);
  }

  lemma DigitsOf(c: nat)
    ensures c == c / 262144 * 262144 + c / 4096 % 64 * 4096 + c / 64 % 64 * 64 + c % 64
    ensures c / 4096 == c / 262144 * 64 + c / 4096 % 64 && c / 64 == c / 4096 * 64 + c / 64 % 64
  {
    DivTwice(c, 64, 64);
    DivTwice(c, 4096, 64);
  }

  /** A character followed by anything is read as that character. */
  lemma ReadChar(c: Scalar, rest: seq<Byte>)
    ensures CharLength(Bytes1(c) + rest) == |Bytes1(c)|
    ensures Announced(Bytes1(c)[0]) == |Bytes1(c)|
    ensures CodePoint(Bytes1(c) + rest) == Some(c)
  {
    if c < 0x80 {
    } else if c < 0x800 {
      ReadTwo(c, rest);
    } else if c < 0x1_0000 {
      ReadThree(c, rest);
    } else {
      ReadFour(c, rest);
    }
  }

  lemma ReadTwo(c: Scalar, rest: seq<Byte>)
    requires 0x80 <= c < 0x800
    ensures CharLength(Bytes1(c) + rest) == 2 == Announced(Bytes1(c)[0])
    ensures CodePoint(Bytes1(c) + rest) == Some(c)
  {
    var b := Bytes1(c) + rest;
    assert b[0] == 192 + c / 64 && b[1] == 128 + c % 64;
  }

  /** A byte that continues a character carries six bits. */
  lemma TailByte(q: nat)
    requires q < 64
    ensures Tail(128 + q) && Continues(128 + q) && Payload(128 + q) == q
  {
    DivModUnique(128 + q, 64, 2, q);
  }

  lemma ThreeGrammar(b: seq<Byte>, p: nat, q: nat, r: nat)
    requires |b| >= 3 && p < 16 && q < 64 && r < 64 && b[0] == 224 + p && b[1] == 128 + q && b[2] == 128 + r
    requires var a := p * 4096 + q * 64 + r; 0x800 <= a && (a < 0xD800 || a >= 0xE000)
    ensures CharLength(b) == 3 == Announced(b[0])
  {
    assert ThreeStart(b[0], b[1]);
  }

  lemma ThreeCode(b: seq<Byte>, p: nat, q: nat, r: nat)
    requires |b| >= 3 && p < 16 && q < 64 && r < 64 && b[0] == 224 + p && b[1] == 128 + q && b[2] == 128 + r
    requires var a := p * 4096 + q * 64 + r; 0x800 <= a && (a < 0xD800 || a >= 0xE000)
    ensures CodePoint(b) == Some(p * 4096 + q * 64 + r)
  {
    hide Payload, Continues;
    TailByte(q);
    TailByte(r);
    DivModUnique(224 + p, 16, 14, p);
  }

  lemma FourGrammar(b: seq<Byte>, p: nat, q: nat, r: nat, s: nat)
    requires |b| >= 4 && p < 5 && q < 64 && r < 64 && s < 64
    requires b[0] == 240 + p && b[1] == 128 + q && b[2] == 128 + r && b[3] == 128 + s
    requires 0x1_0000 <= p * 262144 + q * 4096 + r * 64 + s < 0x11_0000
    ensures CharLength(b) == 4 == Announced(b[0])
  {
    assert FourStart(b[0], b[1]);
  }

  lemma FourCode(b: seq<Byte>, p: nat, q: nat, r: nat, s: nat)
    requires |b| >= 4 && p < 5 && q < 64 && r < 64 && s < 64
    requires b[0] == 240 + p && b[1] == 128 + q && b[2] == 128 + r && b[3] == 128 + s
    requires 0x1_0000 <= p * 262144 + q * 4096 + r * 64 + s < 0x11_0000
    ensures CodePoint(b) == Some(p * 262144 + q * 4096 + r * 64 + s)
  {
    hide Payload, Continues;
    TailByte(q);
    TailByte(r);
    TailByte(s);
    DivModUnique(240 + p, 16, 15, p);
  }

  lemma ReadThree(c: Scalar, rest: seq<Byte>)
    requires 0x800 <= c < 0x1_0000
    ensures CharLength(Bytes1(c) + rest) == 3 == Announced(Bytes1(c)[0])
    ensures CodePoint(Bytes1(c) + rest) == Some(c)
  {
    hide CharLength, CodePoint, Announced;
    var b, p: int, q: int, r: int := Bytes1(c) + rest, c / 4096, c / 64 % 64, c % 64;
    DigitsOf(c);
    assert c == p * 4096 + q * 64 + r;
    ThreeGrammar(b, p, q, r);
    ThreeCode(b, p, q, r);
  }

  lemma ReadFour(c: Scalar, rest: seq<Byte>)
    requires 0x1_0000 <= c
    ensures CharLength(Bytes1(c) + rest) == 4 == Announced(Bytes1(c)[0])
    ensures CodePoint(Bytes1(c) + rest) == Some(c)
  {
    hide CharLength, CodePoint, Announced;
    var b, p: int, q: int, r: int, s: int := Bytes1(c) + rest, c / 262144, c / 4096 % 64, c / 64 % 64, c % 64;
    DigitsOf(c);
    FourGrammar(b, p, q, r, s);
    FourCode(b, p, q, r, s);
  }

  /** Bytes that the grammar accepts are the bytes of the code point the decoder reads. */
  lemma CharBytes(b: seq<Byte>)
    requires CharLength(b) > 0
    ensures CodePoint(b).Some? && Announced(b[0]) == CharLength(b)
    ensures Bytes1(CodePoint(b).value) == b[..CharLength(b)]
  {
    var l := CharLength(b);
    if l == 2 {
      TwoBytes(b);
    } else if l == 3 {
      ThreeBytes(b);
    } else if l == 4 {
      FourBytes(b);
    }
  }

  lemma TwoBytes(b: seq<Byte>)
    requires CharLength(b) == 2
    ensures CodePoint(b).Some? && Announced(b[0]) == 2 && Bytes1(CodePoint(b).value) == b[..2]
  {
    var p, q := b[0] as int - 192, b[1] as int - 128;
    Digits(0, 0, p, q);
    assert CodePoint(b) == Some(p * 64 + q);
  }

  lemma ThreeRange(b: seq<Byte>)
    requires CharLength(b) == 3
    ensures var p, q, r := b[0] as int - 224, b[1] as int - 128, b[2] as int - 128;
            0 <= p < 16 && 0 <= q < 64 && 0 <= r < 64 &&
            var a := p * 4096 + q * 64 + r; 0x800 <= a < 0x1_0000 && (a < 0xD800 || a >= 0xE000)
  {
  }

  lemma ThreeBytes(b: seq<Byte>)
    requires CharLength(b) == 3
    ensures CodePoint(b).Some? && Announced(b[0]) == 3 && Bytes1(CodePoint(b).value) == b[..3]
  {
    hide CharLength, CodePoint;
    ThreeRange(b);
    var p, q, r := b[0] as int - 224, b[1] as int - 128, b[2] as int - 128;
    Digits(0, p, q, r);
    ThreeCode(b, p, q, r);
  }

  lemma FourRange(b: seq<Byte>)
    requires CharLength(b) == 4
    ensures var p, q, r, s := b[0] as int - 240, b[1] as int - 128, b[2] as int - 128, b[3] as int - 128;
            0 <= p < 5 && 0 <= q < 64 && 0 <= r < 64 && 0 <= s < 64
            && 0x1_0000 <= p * 262144 + q * 4096 + r * 64 + s < 0x11_0000
  {
  }

  lemma FourBytes(b: seq<Byte>)
    requires CharLength(b) == 4
    ensures CodePoint(b).Some? && Announced(b[0]) == 4 && Bytes1(CodePoint(b).value) == b[..4]
  {
    hide CharLength, CodePoint;
    FourRange(b);
    var p, q, r, s := b[0] as int - 240, b[1] as int - 128, b[2] as int - 128, b[3] as int - 128;
    Digits(p, q, r, s);
    FourCode(b, p, q, r, s);
  }

  // ---- Whole strings ----

  lemma {:induction false} DecodeBytes(cs: seq<Scalar>)
    ensures Decode(Bytes(cs)) == Units(cs) && ValidUtf8(Bytes(cs))
  {
    if cs != [] {
      var b, rest := Bytes1(cs[0]), Bytes(cs[1..]);
      ReadChar(cs[0], rest);
      assert (b + rest)[|b|..] == rest;
      DecodeBytes(cs[1..]);
      assert DecodeOne(b + rest) == (Units1(cs[0]), |b|) by { assert (b + rest)[0] == b[0]; }
    }
  }

  /** The scalar values of a valid byte string. */
  function ScalarsOfBytes(b: seq<Byte>): seq<Scalar>
    requires ValidUtf8(b)
    decreases |b|
  {
    if b == [] then [] else CharBytes(b); [CodePoint(b).value] + ScalarsOfBytes(b[CharLength(b)..])
  }

  lemma FirstOf(cs: seq<Scalar>)
    ensures cs == [] ==> Bytes(cs) == [] && Units(cs) == []
    ensures cs != [] ==> Bytes(cs) == Bytes1(cs[0]) + Bytes(cs[1..]) && Units(cs) == Units1(cs[0]) + Units(cs[1..])
  {
  }

  lemma NoBytes()
    ensures Bytes([]) == []
  {
  }

  lemma BytesCons(c: Scalar, cs: seq<Scalar>)
    ensures Bytes([c] + cs) == Bytes1(c) + Bytes(cs)
  {
    assert ([c] + cs)[1..] == cs;
  }

  lemma {:induction false} BytesOfScalars(b: seq<Byte>)
    requires ValidUtf8(b)
    ensures Bytes(ScalarsOfBytes(b)) == b
    decreases |b|
  {
    hide Bytes1, CharLength, CodePoint, Bytes, Announced;
    if b == [] {
      NoBytes();
    } else {
      var l := CharLength(b);
      CharBytes(b);
      var c, cs := CodePoint(b).value, ScalarsOfBytes(b[l..]);
      BytesOfScalars(b[l..]);
      BytesCons(c, cs);
      assert ScalarsOfBytes(b) == [c] + cs;
      assert b == b[..l] + b[l..];
    }
  }

  /** The scalar values of a well-formed unit string. */
  function ScalarsOfUnits(w: seq<Unit>): (cs: seq<Scalar>)
    requires WellFormed(w)
    ensures Units(cs) == w
    decreases |w|
  {
    if w == [] then []
    else if Lead(w[0]) then
      var c: Scalar := 65536 + (w[0] as int - 55296) * 1024 + (w[1] as int - 56320);
      var cs := [c] + ScalarsOfUnits(w[2..]);
      assert cs[1..] == ScalarsOfUnits(w[2..]);
      assert Units1(c) == [w[0], w[1]];
      assert w == [w[0], w[1]] + w[2..];
      cs
    else
      var cs := [w[0]] + ScalarsOfUnits(w[1..]);
      assert cs[1..] == ScalarsOfUnits(w[1..]);
      cs
  }

  lemma {:induction false} EncodeUnitsOf(cs: seq<Scalar>)
    ensures Encode(Units(cs)) == Bytes(cs)
  {
    if cs != [] {
      var c := cs[0];
      EncodeUnitsOf(cs[1..]);
      var rest := Units(cs[1..]);
      var w := Units1(c) + rest;
      if c < 0x1_0000 {
        assert w[1..] == rest;
      } else {
        assert w[0] == Units1(c)[0] && w[1] == Units1(c)[1] && w[1..][1..] == rest;
        assert 65536 + (w[0] as int - 55296) * 1024 + (w[1] as int - 56320) == c;
        assert EncodeFrom(w[1..], Some(w[0])) == Bytes1(c) + EncodeFrom(rest, None);
      }
    }
  }

  /** Decoding undoes encoding on every well-formed unit string. */
  lemma DecodeEncode(w: seq<Unit>)
    requires WellFormed(w)
    ensures Decode(Encode(w)) == w && ValidUtf8(Encode(w))
  {
    var cs := ScalarsOfUnits(w);
    EncodeUnitsOf(cs);
    DecodeBytes(cs);
  }

  /** Encoding undoes decoding on every valid byte string. */
  lemma EncodeDecode(b: seq<Byte>)
    requires ValidUtf8(b)
    ensures Encode(Decode(b)) == b
  {
    var cs := ScalarsOfBytes(b);
    BytesOfScalars(b);
    DecodeBytes(cs);
    EncodeUnitsOf(cs);
  }

  lemma WellFormedUnits1(c: Scalar, w: seq<Unit>)
    requires WellFormed(w)
    ensures WellFormed(Units1(c) + w)
  {
    var v := Units1(c) + w;
    if c < 0x1_0000 {
      assert v[1..] == w;
    } else {
      assert v[2..] == w;
    }
  }

  /** Decoding any bytes at all ends in well-formed UTF-16. */
  lemma {:induction false} DecodeWellFormed(b: seq<Byte>)
    ensures WellFormed(Decode(b))
    decreases |b|
  {
    if b != [] {
      var (w, l) := DecodeOne(b);
      DecodeWellFormed(b[l..]);
      WellFormedUnits1(match CodePoint(b) case None => REPLACEMENT case Some(c) => c, Decode(b[l..]));
    }
  }
}
