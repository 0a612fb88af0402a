/**
  * The streaming UTF-8 decoder (bundle module 218): chunks may end inside a character, whose
  * bytes are kept until the rest arrives.
  */
module StringDecoder {
  import opened Chunks
  import opened Options
  import opened Utf8
  import opened Words

  // ---- Specification of one decoder state ----

  /** The decoder's fields: missing bytes, length of the pending character, and its buffer. */
  datatype State = State(lastNeed: nat, lastTotal: nat, lastChar: seq<Byte>)

  ghost predicate StateOk(s: State) {
    |s.lastChar| == 4 && s.lastNeed <= s.lastTotal <= 4
  }

  /** What a byte is: 0 a character, 2 to 4 a first byte of that many, -1 a continuation, -2 neither. */
  function Kind(x: Byte): int {
    if x <= 127 then 0 else if x / 32 == 6 then 2 else if x / 16 == 14 then 3 else if x / 8 == 30 then 4
    else if x / 64 == 2 then -1 else -2
  }

  /** Overwrite part of the buffer. */
  function Copy(buffer: seq<Byte>, at: nat, bytes: seq<Byte>): (r: seq<Byte>)
    requires at + |bytes| <= |buffer|
    ensures |r| == |buffer|
  {
    buffer[..at] + bytes + buffer[at + |bytes|..]
  }

  /** The first of the awaited bytes that is not a continuation, if it is in this chunk. */
  function BadByte(need: nat, t: seq<Byte>): Option<nat>
    requires t != []
  {
    if !Continues(t[0]) then Some(0)
    else if need > 1 && |t| > 1 && !Continues(t[1]) then Some(1)
    else if need > 2 && |t| > 2 && !Continues(t[2]) then Some(2)
    else None
  }

  /** It is the first one that breaks the character. */
  lemma BadByteIs(need: nat, t: seq<Byte>)
    requires t != [] && 0 < need <= 3
    ensures match BadByte(need, t)
            case Some(k) => k < need && k < |t| && !Tail(t[k]) && forall i | 0 <= i < k :: Tail(t[i])
            case None => forall i | 0 <= i < need && i < |t| :: Tail(t[i])
  {
    forall i | 0 <= i < |t| ensures Continues(t[i]) <==> Tail(t[i]) {}
  }

  /** Complete the pending character from `t`: the text it yields, or None while bytes are missing.
      Afterwards `lastNeed` is the number of bytes taken from `t`, or what is still missing. */
  function FillLast(s: State, t: seq<Byte>): (State, Option<seq<Unit>>)
    requires StateOk(s) && s.lastNeed > 0 && t != []
  {
    match BadByte(s.lastNeed, t)
    case Some(k) => (s.(lastNeed := k), Some([REPLACEMENT]))
    case None =>
      var at := s.lastTotal - s.lastNeed;
      if s.lastNeed <= |t| then
        var filled := Copy(s.lastChar, at, t[..s.lastNeed]);
        (s.(lastChar := filled), Some(Decode(filled[..s.lastTotal])))
      else
        (s.(lastChar := Copy(s.lastChar, at, t), lastNeed := s.lastNeed - |t|), None)
  }

  /** Whether the last bytes open a character they do not finish: its length, and the bytes missing. */
  function Incomplete(t: seq<Byte>): (r: (nat, nat))
    ensures r.1 > 0 ==> r.1 < r.0 <= 4 && r.0 - r.1 <= |t|
  {
    var n := |t|;
    if n < 1 then (0, 0)
    else
      var i := Kind(t[n - 1]);
      if i >= 0 then (i, if i > 0 then i - 1 else 0)
      else if n < 2 || i == -2 then (0, 0)
      else
        var i := Kind(t[n - 2]);
        if i >= 0 then (i, if i > 0 then i - 2 else 0)
        else if n < 3 || i == -2 then (0, 0)
        else
          var i := Kind(t[n - 3]);
          if i > 2 then (i, i - 3) else (0, 0)
  }

  /** Decode a chunk that starts at a character, keeping an unfinished last character. */
  function Text(s: State, t: seq<Byte>): (State, seq<Unit>)
    requires StateOk(s) && s.lastNeed == 0
  {
    var (n, need) := Incomplete(t);
    if need == 0 then (s, Decode(t))
    else
      var r := |t| - (n - need);
      (State(need, n, Copy(s.lastChar, 0, t[r..])), Decode(t[..r]))
  }

  function Write(s: State, t: seq<Byte>): (State, seq<Unit>)
    requires StateOk(s)
  {
    if t == [] then (s, [])
    else if s.lastNeed == 0 then Text(s, t)
    else
      match FillLast(s, t)
      case (s', None) => (s', [])
      case (s', Some(w)) =>
        var n, s0 := s'.lastNeed, s'.(lastNeed := 0);
        if n < |t| then var (s1, v) := Text(s0, t[n..]); (s1, w + v) else (s0, w)
  }

  lemma WriteOk(s: State, t: seq<Byte>)
    requires StateOk(s)
    ensures StateOk(Write(s, t).0)
  {
    hide Decode, Incomplete, Copy, Continues;
  }

  /** A byte that breaks the pending character leaves one replacement character for it, and writing goes on
      with that byte as if nothing had been pending. */
  lemma BrokenCharacter(s: State, t: seq<Byte>, k: nat)
    requires StateOk(s) && 0 < s.lastNeed <= 3 && k < s.lastNeed && k < |t|
    requires !Tail(t[k]) && forall i | 0 <= i < k :: Tail(t[i])
    ensures Write(s, t).1 == [0xFFFD] + Write(s.(lastNeed := 0), t[k..]).1
  {
    BadByteIs(s.lastNeed, t);
    hide Text, BadByte;
    assert BadByte(s.lastNeed, t) == Some(k);
  }

  function End(s: State): seq<Unit> {
    if s.lastNeed > 0 then [REPLACEMENT] else []
  }

  /** Write chunk after chunk, then end. */
  function WriteAll(s: State, chunks: seq<seq<Byte>>): seq<Unit>
    requires StateOk(s)
    decreases |chunks|
  {
    if chunks == [] then End(s)
    else
      WriteOk(s, chunks[0]);
      var (s', w) := Write(s, chunks[0]);
      w + WriteAll(s', chunks[1..])
  }

  /** The decoder holds `partial`, the start of the first of the characters still to come. */
  ghost predicate Holding(s: State, partial: seq<Byte>, cs: seq<Scalar>) {
    && StateOk(s)
    && (partial == [] ==> s.lastNeed == 0)
    && (partial != [] ==>
          && cs != [] && Opens(partial, cs[0]) && s.lastTotal == |Bytes1(cs[0])|
          && s.lastNeed == |Bytes1(cs[0])| - |partial| && s.lastChar[..|partial|] == partial)
  }

  ghost predicate Opens(p: seq<Byte>, c: Scalar) {
    |p| < |Bytes1(c)| && p == Bytes1(c)[..|p|]
  }

  /** The bytes of a character, as the tail scan sees them. */
  lemma Kinds(c: Scalar)
    ensures var b := Bytes1(c);
            && Kind(b[0]) == (if |b| == 1 then 0 else |b|)
            && forall i | 1 <= i < |b| :: Kind(b[i]) == -1 && Continues(b[i])
  {
  }

  lemma CompleteTail(pre: seq<Byte>, c: Scalar)
    ensures Incomplete(pre + Bytes1(c)).1 == 0
  {
    hide Bytes1, Kind;
    Kinds(c);
    var t, b := pre + Bytes1(c), Bytes1(c);
    assert forall i | 0 <= i < |b| :: t[|pre| + i] == b[i];
  }

  lemma PartialTail(pre: seq<Byte>, c: Scalar, m: nat)
    requires 0 < m < |Bytes1(c)|
    ensures Incomplete(pre + Bytes1(c)[..m]) == (|Bytes1(c)|, |Bytes1(c)| - m)
  {
    hide Bytes1, Kind;
    Kinds(c);
    var t, b := pre + Bytes1(c)[..m], Bytes1(c);
    assert forall i | 0 <= i < m :: t[|pre| + i] == b[i];
  }

  /** Where a prefix of the bytes of `cs` ends: after `k` characters and a part of the next. */
  lemma {:induction false} Cut(t: seq<Byte>, cs: seq<Scalar>) returns (k: nat, p: seq<Byte>)
    requires t <= Bytes(cs)
    ensures k <= |cs| && t == Bytes(cs[..k]) + p
    ensures p != [] ==> k < |cs| && Opens(p, cs[k])
    decreases |cs|
  {
    hide Bytes1;
    if cs == [] {
      k, p := 0, [];
    } else {
      var b := Bytes1(cs[0]);
      if |t| < |b| {
        k, p := 0, t;
      } else {
        assert t[..|b|] == b && t[|b|..] <= Bytes(cs[1..]);
        var j, q := Cut(t[|b|..], cs[1..]);
        k, p := j + 1, q;
        assert cs[..k][0] == cs[0] && cs[..k][1..] == cs[1..][..j];
        assert t == b + t[|b|..];
      }
    }
  }

  lemma {:induction false} BytesAppend(cs: seq<Scalar>, ds: seq<Scalar>)
    ensures Bytes(cs + ds) == Bytes(cs) + Bytes(ds) && Units(cs + ds) == Units(cs) + Units(ds)
  {
    hide Bytes, Units, Bytes1, Units1;
    FirstOf(cs);
    if cs == [] {
      assert cs + ds == ds && [] + Bytes(ds) == Bytes(ds) && [] + Units(ds) == Units(ds);
    } else {
      FirstOf(cs + ds);
      assert (cs + ds)[0] == cs[0] && (cs + ds)[1..] == cs[1..] + ds;
      BytesAppend(cs[1..], ds);
      Regroup(Bytes1(cs[0]), Bytes(cs[1..]), Bytes(ds));
      Regroup(Units1(cs[0]), Units(cs[1..]), Units(ds));
    }
  }

  lemma LastChar(cs: seq<Scalar>, k: nat)
    requires 0 < k <= |cs|
    ensures Bytes(cs[..k]) == Bytes(cs[..k - 1]) + Bytes1(cs[k - 1])
  {
    hide Bytes1;
    assert cs[..k] == cs[..k - 1] + [cs[k - 1]];
    BytesAppend(cs[..k - 1], [cs[k - 1]]);
  }

  /** A chunk that starts at a character: all finished characters are decoded, the rest is held. */
  lemma TextValid(s: State, t: seq<Byte>, cs: seq<Scalar>) returns (k: nat, p: seq<Byte>)
    requires StateOk(s) && s.lastNeed == 0 && t <= Bytes(cs)
    ensures k <= |cs| && t == Bytes(cs[..k]) + p
    ensures Text(s, t).1 == Units(cs[..k]) && Holding(Text(s, t).0, p, cs[k..])
  {
    hide Bytes1, Kind, Decode, Incomplete;
    k, p := Cut(t, cs);
    DecodeBytes(cs[..k]);
    if p == [] {
      if k == 0 {
        EmptyTail(t);
      } else {
        LastChar(cs, k);
        CompleteTail(Bytes(cs[..k - 1]), cs[k - 1]);
      }
      assert t == Bytes(cs[..k]);
    } else {
      var m := |p|;
      PartialTail(Bytes(cs[..k]), cs[k], m);
      assert t[|t| - m..] == p && t[..|t| - m] == Bytes(cs[..k]);
    }
  }

  lemma EmptyTail(t: seq<Byte>)
    requires t == []
    ensures Incomplete(t) == (0, 0)
  {
  }

  /** The awaited bytes of the pending character are continuations and arrive in order. */
  lemma Awaited(s: State, partial: seq<Byte>, t: seq<Byte>, cs: seq<Scalar>)
    requires Holding(s, partial, cs) && partial != [] && t != [] && partial + t <= Bytes(cs)
    ensures BadByte(s.lastNeed, t) == None
    ensures var b, n := Bytes1(cs[0]), |partial|;
            if s.lastNeed <= |t| then b == partial + t[..s.lastNeed] && t[s.lastNeed..] <= Bytes(cs[1..])
            else Opens(partial + t, cs[0])
  {
    hide Bytes1, Kind, Bytes, Units, Continues;
    FirstOf(cs);
    Kinds(cs[0]);
    AwaitedParts(partial, t, Bytes1(cs[0]), Bytes(cs[1..]));
  }

  /** The bytes `t` behind the start of a character `b` that more bytes follow. */
  lemma AwaitedParts(partial: seq<Byte>, t: seq<Byte>, b: seq<Byte>, more: seq<Byte>)
    requires partial + t <= b + more && |partial| < |b|
    ensures var need := |b| - |partial|;
            if need <= |t| then b == partial + t[..need] && t[need..] <= more else partial + t == b[..|partial| + |t|]
    ensures forall i | 0 <= i < |t| && |partial| + i < |b| :: t[i] == b[|partial| + i]
  {
    var n, whole := |partial|, b + more;
    forall i | 0 <= i < |t| && n + i < |b| ensures t[i] == b[n + i] {
      assert (partial + t)[n + i] == whole[n + i];
    }
    if |b| - n <= |t| {
      assert (partial + t)[..|b|] == whole[..|b|] == b && (partial + t)[|b|..] == t[|b| - n..];
      assert whole[|b|..] == more;
      assert partial + t[..|b| - n] == (partial + t)[..|b|];
    } else {
      assert partial + t == whole[..n + |t|] == b[..n + |t|];
    }
  }

  lemma FillValid(s: State, partial: seq<Byte>, t: seq<Byte>, cs: seq<Scalar>)
    requires Holding(s, partial, cs) && partial != [] && t != [] && partial + t <= Bytes(cs)
    ensures var (s', w) := FillLast(s, t);
            if s.lastNeed <= |t| then StateOk(s') && w == Some(Units1(cs[0])) && s'.lastNeed == s.lastNeed
            else w == None && Holding(s', partial + t, cs)
  {
    hide Bytes1, Units1, Kind, Decode, BadByte;
    Awaited(s, partial, t, cs);
    var b, n := Bytes1(cs[0]), |partial|;
    if s.lastNeed <= |t| {
      var filled := Copy(s.lastChar, n, t[..s.lastNeed]);
      assert filled[..|b|] == partial + t[..s.lastNeed];
      DecodeBytes([cs[0]]);
      OneChar(cs[0]);
    } else {
      assert Copy(s.lastChar, n, t)[..n + |t|] == partial + t;
    }
  }

  lemma OneChar(c: Scalar)
    ensures Bytes([c]) == Bytes1(c) && Units([c]) == Units1(c)
  {
  }

  /** Any chunk: the finished characters come out, the unfinished one is held. */
  lemma WriteValid(s: State, partial: seq<Byte>, t: seq<Byte>, cs: seq<Scalar>) returns (k: nat, p: seq<Byte>)
    requires Holding(s, partial, cs) && partial + t <= Bytes(cs)
    ensures k <= |cs| && partial + t == Bytes(cs[..k]) + p
    ensures Write(s, t).1 == Units(cs[..k]) && Holding(Write(s, t).0, p, cs[k..])
  {
    hide Bytes1, Units1, Kind, Text, FillLast;
    if t == [] {
      k, p := 0, partial;
      assert cs[0..] == cs;
    } else if partial == [] {
      assert partial + t == t;
      k, p := TextValid(s, t, cs);
    } else {
      FillValid(s, partial, t, cs);
      Awaited(s, partial, t, cs);
      if s.lastNeed > |t| {
        k, p := 0, partial + t;
        assert cs[0..] == cs;
      } else {
        k, p := FinishValid(s, partial, t, cs);
      }
    }
  }

  lemma FinishValid(s: State, partial: seq<Byte>, t: seq<Byte>, cs: seq<Scalar>) returns (k: nat, p: seq<Byte>)
    requires Holding(s, partial, cs) && partial != [] && t != [] && s.lastNeed <= |t|
    requires Bytes1(cs[0]) == partial + t[..s.lastNeed] && t[s.lastNeed..] <= Bytes(cs[1..])
    requires var (s', w) := FillLast(s, t);
             StateOk(s') && w == Some(Units1(cs[0])) && s'.lastNeed == s.lastNeed
    ensures 0 < k <= |cs| && partial + t == Bytes(cs[..k]) + p
    ensures Write(s, t).1 == Units(cs[..k]) && Holding(Write(s, t).0, p, cs[k..])
  {
    hide Bytes1, Units1, Kind, Text, FillLast;
    var rest, s0 := t[s.lastNeed..], FillLast(s, t).0.(lastNeed := 0);
    assert partial + t == Bytes1(cs[0]) + rest;
    var j;
    if rest != [] {
      j, p := TextValid(s0, rest, cs[1..]);
    } else {
      j, p := 0, [];
    }
    k := j + 1;
    assert cs[..k][1..] == cs[1..][..j] && cs[..k][0] == cs[0] && cs[k..] == cs[1..][j..];
  }

  lemma FirstFits(cs: seq<Scalar>)
    ensures cs != [] ==> |Bytes1(cs[0])| <= |Bytes(cs)|
  {
  }

  lemma Cancel(a: seq<Byte>, b: seq<Byte>, c: seq<Byte>)
    requires a + b == a + c
    ensures b == c
  {
    assert b == (a + b)[|a|..] && c == (a + c)[|a|..];
  }

  /** From any held start of a character, the chunks yield exactly the text of what remains. */
  lemma {:induction false} WriteAllValid(s: State, partial: seq<Byte>, chunks: seq<seq<Byte>>, cs: seq<Scalar>)
    requires Holding(s, partial, cs) && partial + Flat(chunks) == Bytes(cs)
    ensures WriteAll(s, chunks) == Units(cs)
    decreases |chunks|
  {
    hide Bytes1, Units1, Kind, Write;
    if chunks == [] {
      assert partial == Bytes(cs);
      FirstFits(cs);
    } else {
      WriteOk(s, chunks[0]);
      var rest := Flat(chunks[1..]);
      assert partial + chunks[0] + rest == Bytes(cs);
      var k, p := WriteValid(s, partial, chunks[0], cs);
      BytesAppend(cs[..k], cs[k..]);
      assert cs == cs[..k] + cs[k..];
      Regroup(Bytes(cs[..k]), p, rest);
      Cancel(Bytes(cs[..k]), p + rest, Bytes(cs[k..]));
      WriteAllValid(Write(s, chunks[0]).0, p, chunks[1..], cs[k..]);
    }
  }

  /** For every valid byte string and every way of cutting it into chunks, streaming it through a
      new decoder yields the one-shot decoding of the whole. */
  lemma ChunkingDoesNotMatter(chunks: seq<seq<Byte>>, lastTotal: nat, buffer: seq<Byte>)
    requires ValidUtf8(Flat(chunks)) && lastTotal <= 4 && |buffer| == 4
    ensures WriteAll(State(0, lastTotal, buffer), chunks) == Decode(Flat(chunks))
  {
    var cs := ScalarsOfBytes(Flat(chunks));
    BytesOfScalars(Flat(chunks));
    assert [] + Flat(chunks) == Flat(chunks);
    WriteAllValid(State(0, lastTotal, buffer), [], chunks, cs);
    DecodeBytes(cs);
  }

  /** The bytes that are left, when the text ends inside character `c` after its bytes `q`. */
  lemma CutPrefix(a: seq<Byte>, b: seq<Byte>, rest: seq<Byte>, cs: seq<Scalar>, c: Scalar, q: seq<Byte>)
    requires a + b + rest == Bytes(cs) + q && Opens(q, c)
    ensures a + b <= Bytes(cs + [c]) && |a + b| < |Bytes(cs + [c])|
  {
    hide Bytes1, Bytes, Units;
    BytesAppend(cs, [c]);
    OneChar(c);
    ShorterPrefix(a + b, rest, Bytes(cs), q, Bytes1(c));
  }

  lemma ShorterPrefix(a: seq<Byte>, rest: seq<Byte>, x: seq<Byte>, q: seq<Byte>, y: seq<Byte>)
    requires a + rest == x + q && |q| < |y| && q == y[..|q|]
    ensures a <= x + y && |a| < |x + y|
  {
    assert x + q == (x + y)[..|x| + |q|];
    assert a == (x + q)[..|a|];
  }

  lemma CutAt(cs: seq<Scalar>, c: Scalar, k: nat)
    requires k <= |cs|
    ensures (cs + [c])[..k] == cs[..k] && (cs + [c])[k..] == cs[k..] + [c] && cs == cs[..k] + cs[k..]
  {
  }

  lemma {:induction false} WriteAllCut(
      s: State, partial: seq<Byte>, chunks: seq<seq<Byte>>, cs: seq<Scalar>, c: Scalar, q: seq<Byte>)
    requires Holding(s, partial, cs + [c]) && q != [] && Opens(q, c) && partial + Flat(chunks) == Bytes(cs) + q
    ensures WriteAll(s, chunks) == Units(cs) + [0xFFFD]
    decreases |chunks|
  {
    hide Bytes1, Units1, Kind, Write, Bytes, Opens;
    if chunks == [] {
      CutEnd(s, partial, cs, c, q);
    } else {
      WriteOk(s, chunks[0]);
      var all, rest := cs + [c], Flat(chunks[1..]);
      assert partial + chunks[0] + rest == Bytes(cs) + q;
      CutPrefix(partial, chunks[0], rest, cs, c, q);
      var k, p := WriteValid(s, partial, chunks[0], all);
      assert all[..|all|] == all;
      CutAt(cs, c, k);
      BytesAppend(cs[..k], cs[k..]);
      Regroup(Bytes(cs[..k]), p, rest);
      Regroup(Bytes(cs[..k]), Bytes(cs[k..]), q);
      Cancel(Bytes(cs[..k]), p + rest, Bytes(cs[k..]) + q);
      WriteAllCut(Write(s, chunks[0]).0, p, chunks[1..], cs[k..], c, q);
      UnitsSplit(cs, k);
    }
  }

  lemma UnitsSplit(cs: seq<Scalar>, k: nat)
    requires k <= |cs|
    ensures Units(cs[..k]) + (Units(cs[k..]) + [0xFFFD]) == Units(cs) + [0xFFFD]
  {
    hide Units, Bytes;
    assert cs == cs[..k] + cs[k..];
    BytesAppend(cs[..k], cs[k..]);
    Regroup(Units(cs[..k]), Units(cs[k..]), [0xFFFD]);
  }

  lemma CutEnd(s: State, partial: seq<Byte>, cs: seq<Scalar>, c: Scalar, q: seq<Byte>)
    requires Holding(s, partial, cs + [c]) && q != [] && Opens(q, c) && partial == Bytes(cs) + q
    ensures cs == [] && End(s) == Units(cs) + [0xFFFD]
  {
    if cs != [] { FirstFits(cs); }
  }

  /** A text that ends inside a character, however it is cut into chunks, yields its whole characters and
      one replacement character. */
  lemma CutOffText(chunks: seq<seq<Byte>>, cs: seq<Scalar>, c: Scalar, n: nat, lastTotal: nat, buffer: seq<Byte>)
    requires 0 < n < |Bytes1(c)| && Flat(chunks) == Bytes(cs) + Bytes1(c)[..n] && lastTotal <= 4 && |buffer| == 4
    ensures WriteAll(State(0, lastTotal, buffer), chunks) == Units(cs) + [0xFFFD]
  {
    hide Bytes1, Bytes, Units;
    assert [] + Flat(chunks) == Flat(chunks);
    WriteAllCut(State(0, lastTotal, buffer), [], chunks, cs, c, Bytes1(c)[..n]);
  }

  // ---- The decoder object ----

  class Decoder {
    var lastNeed: nat
    var lastTotal: nat
    var lastChar: array<Byte>

    ghost function Abstract(): State
      reads this, lastChar
    {
      State(lastNeed, lastTotal, lastChar[..])
    }

    ghost predicate Valid()
      reads this, lastChar
    {
      StateOk(Abstract())
    }

    constructor ()
      ensures Valid() && lastNeed == 0 && fresh(lastChar)
    {
      lastNeed, lastTotal := 0, 0;
      lastChar := new Byte[4];
    }

    /** Copy bytes into the buffer of the pending character. */
    method CopyTo(at: nat, bytes: seq<Byte>)
      requires at + |bytes| <= lastChar.Length
      modifies lastChar
      ensures lastChar[..] == Copy(old(lastChar[..]), at, bytes)
    {
      for i := 0 to |bytes|
        invariant forall j | 0 <= j < lastChar.Length ::
                    lastChar[j] == if at <= j < at + i then bytes[j - at] else old(lastChar[j])
      {
        lastChar[at + i] := bytes[i];
      }
    }

    method Fill(t: seq<Byte>) returns (r: Option<seq<Unit>>)
      requires Valid() && lastNeed > 0 && t != []
      modifies this`lastNeed, lastChar
      ensures Valid() && (Abstract(), r) == FillLast(old(Abstract()), t)
    {
      hide Decode;
      var at := lastTotal - lastNeed;
      var bad := BadByte(lastNeed, t);
      if bad.Some? {
        lastNeed := bad.value;
        return Some([REPLACEMENT]);
      }
      if lastNeed <= |t| {
        CopyTo(at, t[..lastNeed]);
        r := Some(Decode(lastChar[..lastTotal]));
        assert lastChar[..][..lastTotal] == lastChar[..lastTotal];
      } else {
        CopyTo(at, t);
        lastNeed := lastNeed - |t|;
        r := None;
      }
    }

    method TextOf(t: seq<Byte>) returns (w: seq<Unit>)
      requires Valid() && lastNeed == 0
      modifies this`lastNeed, this`lastTotal, lastChar
      ensures Valid() && (Abstract(), w) == Text(old(Abstract()), t)
    {
      hide Decode, Incomplete;
      var (n, need) := Incomplete(t);
      if need == 0 {
        w := Decode(t);
      } else {
        lastNeed, lastTotal := need, n;
        var r := |t| - (n - need);
        CopyTo(0, t[r..]);
        w := Decode(t[..r]);
      }
    }

    method WriteChunk(t: seq<Byte>) returns (w: seq<Unit>)
      requires Valid()
      modifies this`lastNeed, this`lastTotal, lastChar
      ensures Valid() && (Abstract(), w) == Write(old(Abstract()), t)
    {
      hide Decode, Incomplete, FillLast, Text;
      if t == [] {
        return [];
      }
      if lastNeed == 0 {
        w := TextOf(t);
        return;
      }
      var filled := Fill(t);
      if filled.None? {
        return [];
      }
      var n := lastNeed;
      lastNeed := 0;
      w := filled.value;
      if n < |t| {
        var rest := TextOf(t[n..]);
        w := w + rest;
      }
    }

    /** Stream all chunks and end: for valid text, the one-shot decoding of the whole. */
    method Stream(chunks: seq<seq<Byte>>) returns (w: seq<Unit>)
      requires Valid()
      modifies this`lastNeed, this`lastTotal, lastChar
      ensures w == WriteAll(old(Abstract()), chunks)
      ensures old(lastNeed) == 0 && ValidUtf8(Flat(chunks)) ==> w == Decode(Flat(chunks))
    {
      hide Write, Decode, ValidUtf8;
      ghost var s0 := Abstract();
      w := [];
      for i := 0 to |chunks|
        invariant Valid() && w + WriteAll(Abstract(), chunks[i..]) == WriteAll(s0, chunks)
      {
        assert chunks[i..][1..] == chunks[i + 1..];
        var v := WriteChunk(chunks[i]);
        w := w + v;
      }
      w := w + End(State(lastNeed, lastTotal, lastChar[..]));
      if s0.lastNeed == 0 && ValidUtf8(Flat(chunks)) {
        ChunkingDoesNotMatter(chunks, s0.lastTotal, s0.lastChar);
      }
    }
  }
}
