/**
  * The UTF-8 codec on input that is not well formed: what the decoder makes of bytes that form no
  * character, and what the encoder makes of surrogates that form no pair.
  */
module Utf8Malformed {
  import opened Chunks
  import opened Division
  import opened Options
  import opened Words
  import opened Utf8

  // ---- Bytes that form no character ----

  /** The decoder finds a code point exactly where the grammar of RFC 3629 finds a character. */
  lemma CodePointIff(b: seq<Byte>)
    requires b != []
    ensures CodePoint(b).Some? <==> CharLength(b) > 0
  {
    if CharLength(b) > 0 {
      CharBytes(b);
    } else if Announced(b[0]) == 2 {
      NotTwo(b);
    } else if Announced(b[0]) == 3 {
      NotThree(b);
    } else if Announced(b[0]) == 4 {
      NotFour(b);
    }
  }

  lemma ContinuesIff(x: Byte)
    ensures Continues(x) <==> Tail(x)
    ensures Tail(x) ==> Payload(x) == x - 128
  {
  }

  lemma NotTwo(b: seq<Byte>)
    requires b != [] && Announced(b[0]) == 2 && CharLength(b) == 0
    ensures CodePoint(b) == None
  {
    hide Continues, Payload;
    if |b| >= 2 {
      ContinuesIff(b[1]);
      DivModUnique(b[0], 32, 6, b[0] - 192);
    }
  }

  lemma NotThree(b: seq<Byte>)
    requires b != [] && Announced(b[0]) == 3 && CharLength(b) == 0
    ensures CodePoint(b) == None
  {
    hide Continues, Payload;
    if |b| >= 3 {
      ContinuesIff(b[1]);
      ContinuesIff(b[2]);
      DivModUnique(b[0], 16, 14, b[0] - 224);
    }
  }

  lemma NotFour(b: seq<Byte>)
    requires b != [] && Announced(b[0]) == 4 && CharLength(b) == 0
    ensures CodePoint(b) == None
  {
    hide Continues, Payload;
    if |b| >= 4 {
      ContinuesIff(b[1]);
      ContinuesIff(b[2]);
      ContinuesIff(b[3]);
      DivModUnique(b[0], 16, 15, b[0] - 240);
    }
  }

  lemma {:induction false} DecodeMore(cs: seq<Scalar>, rest: seq<Byte>)
    ensures Decode(Bytes(cs) + rest) == Units(cs) + Decode(rest)
  {
    hide Decode, Bytes, Units, Bytes1, Units1;
    FirstOf(cs);
    if cs == [] {
      assert [] + rest == rest && [] + Decode(rest) == Decode(rest);
    } else {
      var more := Bytes(cs[1..]) + rest;
      DecodeChar(cs[0], more);
      DecodeMore(cs[1..], rest);
      Regroup(Bytes1(cs[0]), Bytes(cs[1..]), rest);
      Regroup(Units1(cs[0]), Units(cs[1..]), Decode(rest));
    }
  }

  lemma DecodeChar(c: Scalar, rest: seq<Byte>)
    ensures Decode(Bytes1(c) + rest) == Units1(c) + Decode(rest)
  {
    hide CodePoint, Announced, Bytes1, Units1;
    var b := Bytes1(c);
    ReadChar(c, rest);
    assert (b + rest)[0] == b[0] && (b + rest)[|b|..] == rest;
  }

  /** After any characters, a byte that opens none becomes one replacement character, and decoding goes
      on with the byte behind it. */
  lemma DecodeMalformed(cs: seq<Scalar>, rest: seq<Byte>)
    requires rest != [] && CharLength(rest) == 0
    ensures Decode(Bytes(cs) + rest) == Units(cs) + [0xFFFD] + Decode(rest[1..])
  {
    hide CharLength, CodePoint;
    DecodeMore(cs, rest);
    CodePointIff(rest);
    assert Decode(rest) == [0xFFFD] + Decode(rest[1..]);
  }

  // ---- Surrogates that form no pair ----

  /** The scalar value of a surrogate pair. */
  function Paired(x: Unit, y: Unit): Scalar
    requires Lead(x) && Trail(y)
  {
    0x1_0000 + (x as int - 0xD800) * 1024 + (y as int - 0xDC00)
  }

  /** The scalar values of any units, each surrogate without its partner replaced. */
  function Mended(w: seq<Unit>): seq<Scalar>
    decreases |w|
  {
    if w == [] then []
    else if Lead(w[0]) && |w| > 1 && Trail(w[1]) then
      [Paired(w[0], w[1])] + Mended(w[2..])
    else if Lead(w[0]) || Trail(w[0]) then [0xFFFD] + Mended(w[1..])
    else [w[0]] + Mended(w[1..])
  }

  predicate EndsInTwoLeads(w: seq<Unit>) {
    |w| >= 2 && Lead(w[|w| - 2]) && Lead(w[|w| - 1])
  }

  function Before(lead: Option<Unit>, w: seq<Unit>): seq<Unit> {
    if lead.Some? then [lead.value] + w else w
  }

  /** Whether the encoder ends with a lead surrogate that it never writes. */
  predicate Dropped(w: seq<Unit>, lead: Option<Unit>) {
    if w == [] then lead.Some? else EndsInTwoLeads(Before(lead, w))
  }

  lemma MarkIs()
    ensures Bytes1(0xFFFD) == MARK
  {
  }

  lemma MendedBytes(c: Scalar, w: seq<Unit>)
    ensures Bytes([c] + Mended(w)) == Bytes1(c) + Bytes(Mended(w))
  {
    hide Mended, Bytes1, Bytes;
    BytesCons(c, Mended(w));
  }

  lemma MendedHead(v: seq<Unit>)
    requires v != []
    ensures Lead(v[0]) && |v| > 1 && Trail(v[1]) ==>
              Mended(v) == [Paired(v[0], v[1])] + Mended(v[2..])
    ensures !(Lead(v[0]) && |v| > 1 && Trail(v[1])) && (Lead(v[0]) || Trail(v[0])) ==>
              Mended(v) == [0xFFFD] + Mended(v[1..])
    ensures !Lead(v[0]) && !Trail(v[0]) ==> Mended(v) == [v[0]] + Mended(v[1..])
  {
  }

  /** One unit further, from the first of `v` on. */
  lemma MendedStep(v: seq<Unit>)
    requires v != []
    ensures Lead(v[0]) && |v| > 1 && Trail(v[1]) ==>
              Bytes(Mended(v)) == Bytes1(Paired(v[0], v[1])) + Bytes(Mended(v[2..]))
    ensures !(Lead(v[0]) && |v| > 1 && Trail(v[1])) && (Lead(v[0]) || Trail(v[0])) ==>
              Bytes(Mended(v)) == MARK + Bytes(Mended(v[1..]))
    ensures !Lead(v[0]) && !Trail(v[0]) ==> Bytes(Mended(v)) == Bytes1(v[0]) + Bytes(Mended(v[1..]))
  {
    hide Bytes1, Bytes, Mended, Paired;
    MarkIs();
    MendedHead(v);
    if Lead(v[0]) && |v| > 1 && Trail(v[1]) {
      MendedBytes(Paired(v[0], v[1]), v[2..]);
    } else if Lead(v[0]) || Trail(v[0]) {
      MendedBytes(0xFFFD, v[1..]);
    } else {
      MendedBytes(v[0], v[1..]);
    }
  }

  lemma {:induction false} EncodeMendedFrom(w: seq<Unit>, lead: Option<Unit>)
    requires lead.Some? ==> Lead(lead.value)
    ensures EncodeFrom(w, lead) + (if Dropped(w, lead) then MARK else []) == Bytes(Mended(Before(lead, w)))
    decreases |w|
  {
    hide Bytes1, EncodeFrom, Mended, Bytes;
    var v := Before(lead, w);
    if w == [] {
      EncodeNothing(w, lead);
      NothingMended([]);
      if lead.Some? {
        MendedStep(v);
        assert v[1..] == [] && [] + MARK == MARK + [];
      } else {
        assert v == [];
      }
    } else {
      MendRound(w, lead);
    }
  }

  lemma NothingMended(w: seq<Unit>)
    requires w == []
    ensures Bytes(Mended(w)) == []
  {
  }

  lemma MendRound(w: seq<Unit>, lead: Option<Unit>)
    requires w != [] && (lead.Some? ==> Lead(lead.value))
    ensures EncodeFrom(w, lead) + (if Dropped(w, lead) then MARK else []) == Bytes(Mended(Before(lead, w)))
    decreases |w|, 0
  {
    hide Bytes1, EncodeFrom, Mended, Bytes;
    var v, rest, next := Before(lead, w), w[1..], Pending(w, lead);
    EncodeRound(w, lead);
    EncodeMendedFrom(rest, next);
    SameEnd(w, lead);
    MendedStep(v);
    var end := if Dropped(w, lead) then MARK else [];
    Regroup(Appended(w, lead), EncodeFrom(rest, next), end);
    AppendedIs(w, lead);
  }

  /** The units not yet written are the same before and after a round, apart from what it writes. */
  lemma AppendedIs(w: seq<Unit>, lead: Option<Unit>)
    requires w != [] && (lead.Some? ==> Lead(lead.value))
    ensures Appended(w, lead) + Bytes(Mended(Before(Pending(w, lead), w[1..]))) == Bytes(Mended(Before(lead, w)))
  {
    hide Bytes1, Mended, Bytes;
    var v, n := Before(lead, w), Before(Pending(w, lead), w[1..]);
    MendedStep(v);
    if lead.None? {
      if Lead(w[0]) && |w| > 1 {
        assert n == w;
        assert [] + Bytes(Mended(n)) == Bytes(Mended(n));
      } else {
        assert n == w[1..];
      }
    } else {
      assert v[1..] == w && v[0] == lead.value && v[1] == w[0];
      if Lead(w[0]) {
        assert n == w;
      } else if Trail(w[0]) {
        assert v[2..] == w[1..] == n;
      } else {
        MendedStep(w);
        Regroup(MARK, Bytes1(w[0]), Bytes(Mended(n)));
      }
    }
  }

  lemma SameEnd(w: seq<Unit>, lead: Option<Unit>)
    requires w != [] && (lead.Some? ==> Lead(lead.value))
    ensures Dropped(w[1..], Pending(w, lead)) == Dropped(w, lead)
  {
    var v, n := Before(lead, w), Before(Pending(w, lead), w[1..]);
    if |w| > 2 {
      assert v[|v| - 1] == w[|w| - 1] && v[|v| - 2] == w[|w| - 2];
      assert n[|n| - 1] == w[|w| - 1] && n[|n| - 2] == w[|w| - 2];
    } else if |w| == 2 {
      assert v[|v| - 1] == w[1] && v[|v| - 2] == w[0] && n[|n| - 1] == w[1];
    }
  }

  /** Every surrogate without its partner is encoded as the replacement character, if and only if the
      units do not end in two lead surrogates, of which the last one is lost. */
  lemma EncodeMended(w: seq<Unit>)
    ensures Encode(w) == Bytes(Mended(w)) <==> !EndsInTwoLeads(w)
    ensures EndsInTwoLeads(w) ==> Encode(w) + [0xEF, 0xBF, 0xBD] == Bytes(Mended(w))
  {
    hide EncodeFrom, Mended, Bytes;
    EncodeMendedFrom(w, None);
    assert Encode(w) + [] == Encode(w);
    assert |Encode(w) + MARK| == |Encode(w)| + 3;
  }

  lemma LostSurrogate()
    ensures Encode([0xD800, 0xD800]) == [0xEF, 0xBF, 0xBD]
    ensures Bytes(Mended([0xD800, 0xD800])) == [0xEF, 0xBF, 0xBD, 0xEF, 0xBF, 0xBD]
  {
    var w: seq<Unit> := [0xD800, 0xD800];
    hide EncodeFrom, Mended, Bytes;
    EncodeMended(w);
    MendedStep(w);
    MendedStep(w[1..]);
    NothingMended(w[1..][1..]);
    assert Encode(w) == [0xEF, 0xBF, 0xBD] by {
      var e := Bytes(Mended(w));
      assert Encode(w) == (Encode(w) + [0xEF, 0xBF, 0xBD])[..3];
    }
  }
}
