/**
  * Block buffering and padding of the SHA family (bundle module 66), against the padded message
  * of sections 5.1.1 and 5.1.2 of FIPS 180-4.
  */
module HashBlocks {
  import opened Chunks
  import opened Division
  import opened Words

  const WORD32: nat := 0x1_0000_0000
  /** Below this message length the bit count is exact in the number format of the source. */
  const MAX_LENGTH: nat := 0x4_0000_0000_0000

  // ---- Reference: the padded message ----

  function Zeros(n: nat): (z: seq<Byte>)
    ensures |z| == n
  {
    seq(n, _ => 0)
  }

  /** `n` as `w` bytes, most significant first. */
  function BigEndian(n: nat, w: nat): (b: seq<Byte>)
    ensures |b| == w
  {
    if w == 0 then [] else BigEndian(n / 256, w - 1) + [n % 256]
  }

  /** The least number of zero bytes after the 0x80 that leaves room for just the length field. */
  function PadLength(length: nat, blockSize: nat, finalSize: nat): (k: nat)
    requires finalSize < blockSize
    ensures (length + 1 + k) % blockSize == finalSize && k < blockSize
  {
    var k := (finalSize - length - 1) % blockSize;
    ModSum(length + 1, finalSize, blockSize);
    k
  }

  lemma ModSum(a: nat, f: nat, d: nat)
    requires f < d
    ensures (a + (f - a) % d) % d == f
  {
    var q, r := (f - a) / d, (f - a) % d;
    assert f - a == q * d + r;
    assert a + r == f + (-q) * d;
    DivModUnique(a + r, d, -q, f);
  }

  function Padded(m: seq<Byte>, blockSize: nat, finalSize: nat): seq<Byte>
    requires finalSize < blockSize
  {
    m + [128] + Zeros(PadLength(|m|, blockSize, finalSize)) + BigEndian(8 * |m|, blockSize - finalSize)
  }

  /** The example of section 5.1.1 of FIPS 180-4: the three letters "abc". */
  lemma PaddedExample()
    ensures Padded([97, 98, 99], 64, 56) == [97, 98, 99] + [128] + Zeros(52) + (Zeros(7) + [24])
  {
    hide Zeros;
    assert PadLength(3, 64, 56) == 52;
    NoHighBytes(7);
    assert BigEndian(24, 8) == BigEndian(0, 7) + [24];
  }

  lemma {:induction false} NoHighBytes(w: nat)
    ensures BigEndian(0, w) == Zeros(w)
  {
    if w > 0 {
      NoHighBytes(w - 1);
      assert Zeros(w) == Zeros(w - 1) + [0];
    }
  }

  /** How much of the current block `u` bytes fill. */
  function Fill(u: nat, blockSize: nat): (a: nat)
    requires blockSize > 0
    ensures a < blockSize
  {
    u % blockSize
  }

  predicate Whole(n: nat, blockSize: nat)
    requires blockSize > 0
  {
    n % blockSize == 0
  }

  // ---- Model ----

  class Hash {
    var block: array<Byte>
    const finalSize: nat
    const blockSize: nat
    var length: nat
    /** The blocks handed to the compression function, and the message so far. */
    var emitted: seq<seq<Byte>>
    ghost var message: seq<Byte>

    ghost predicate Sizes()
      reads this
    {
      0 < finalSize && finalSize + 8 <= blockSize && block.Length == blockSize
    }

    ghost predicate Valid()
      reads this, block
    {
      && Sizes() && length == |message|
      && Flat(emitted) + block[..Fill(length, blockSize)] == message
      && Whole(|Flat(emitted)|, blockSize)
    }

    constructor (blockSize: nat, finalSize: nat)
      requires 0 < finalSize && finalSize + 8 <= blockSize
      ensures Valid() && message == [] && emitted == [] && fresh(block)
      ensures this.blockSize == blockSize && this.finalSize == finalSize
    {
      this.blockSize, this.finalSize := blockSize, finalSize;
      block := new Byte[blockSize](_ => 0);
      length, emitted, message := 0, [], [];
    }

    method Emit()
      modifies this`emitted
      ensures emitted == old(emitted) + [block[..]] && Flat(emitted) == Flat(old(emitted)) + block[..]
    {
      emitted := emitted + [block[..]];
      assert emitted[..|emitted| - 1] == old(emitted) && emitted[..|emitted|] == emitted;
      NextChunk(emitted, |emitted| - 1);
    }

    /** Copy `t[s..s + c]` into the block at `a`. */
    method CopyIn(a: nat, t: seq<Byte>, s: nat, c: nat)
      requires a + c <= block.Length && s + c <= |t|
      modifies block
      ensures block[..a] == old(block[..a]) && block[a..a + c] == t[s..s + c]
      ensures block[..a + c] == old(block[..a]) + t[s..s + c]
    {
      for f := 0 to c
        invariant forall j | 0 <= j < a :: block[j] == old(block[j])
        invariant forall j | a <= j < a + f :: block[j] == t[s + (j - a)]
      {
        block[a + f] := t[s + f];
      }
    }

    /** One round: take in as much of `t` from `s` on as the block has room for. */
    method Absorb(t: seq<Byte>, s: nat, u: nat) returns (c: nat)
      requires Sizes() && s < |t| && Whole(|Flat(emitted)|, blockSize)
      modifies this`emitted, block
      ensures 0 < c && s + c <= |t| && Whole(|Flat(emitted)|, blockSize)
      ensures Flat(emitted) + block[..Fill(u + c, blockSize)] == old(Flat(emitted) + block[..Fill(u, blockSize)]) + t[s..s + c]
    {
      hide Flat, Fill, Whole;
      var a := Fill(u, blockSize);
      c := if |t| - s < blockSize - a then |t| - s else blockSize - a;
      CopyIn(a, t, s, c);
      Advance(u, c, blockSize);
      assert Flat(emitted) + block[..a + c] == old(Flat(emitted) + block[..a]) + t[s..s + c];
      if Fill(u + c, blockSize) == 0 {
        assert block[..a + c] == block[..];
        Emit();
        WholeNext(|old(Flat(emitted))|, blockSize);
      }
    }

    method Update(t: seq<Byte>)
      requires Valid()
      modifies this`length, this`emitted, this`message, block
      ensures Valid() && message == old(message) + t
    {
      hide Flat, Fill, Whole;
      var s, u := 0, length;
      while s < |t|
        invariant 0 <= s <= |t| && u == old(length) + s && length == old(length) && message == old(message)
        invariant Sizes() && Whole(|Flat(emitted)|, blockSize)
        invariant Flat(emitted) + block[..Fill(u, blockSize)] == message + t[..s]
      {
        var c := Absorb(t, s, u);
        assert t[..s + c] == t[..s] + t[s..s + c];
        s, u := s + c, u + c;
      }
      length, message := length + |t|, message + t;
      assert t[..s] == t;
    }

    method FillZero(from: nat)
      requires from <= block.Length
      modifies block
      ensures block[..] == old(block[..from]) + Zeros(block.Length - from)
    {
      for i := from to block.Length
        invariant forall j | 0 <= j < from :: block[j] == old(block[j])
        invariant forall j | from <= j < i :: block[j] == 0
      {
        block[i] := 0;
      }
    }

    /** Write a 32-bit word, most significant byte first. */
    method WriteWord(v: nat, at: nat)
      requires v < WORD32 && at + 4 <= block.Length
      modifies block
      ensures block[..] == old(block[..at]) + BigEndian(v, 4) + old(block[at + 4..])
    {
      block[at], block[at + 1], block[at + 2], block[at + 3] :=
        v / 0x100_0000 % 256, v / 0x1_0000 % 256, v / 0x100 % 256, v % 256;
      FourBytes(v);
    }

    /** Write the bit count of the message at the end of a block whose tail is zero. */
    method WriteLength(ghost front: seq<Byte>)
      requires Sizes() && length < MAX_LENGTH
      requires |front| <= finalSize && block[..] == front + Zeros(blockSize - |front|)
      modifies block
      ensures block[..] == front + Zeros(finalSize - |front|) + BigEndian(8 * length, blockSize - finalSize)
    {
      hide BigEndian, Zeros;
      var n := 8 * length;
      ghost var b := block[..];
      FieldPlaces(b, front, finalSize);
      LengthField(n, blockSize - finalSize);
      if n <= 0xFFFF_FFFF {
        WriteWord(n, blockSize - 4);
        SmallWord(n);
        WordsWritten(b, block[..], BigEndian(n / WORD32, 4), BigEndian(n, 4));
      } else {
        var low := n % WORD32;
        var high := (n - low) / WORD32;
        WriteWord(high, blockSize - 8);
        ghost var b' := block[..];
        WriteWord(low, blockSize - 4);
        TwoWordsWritten(b, b', block[..], BigEndian(high, 4), BigEndian(low, 4));
      }
      RegroupFive(front, Zeros(finalSize - |front|), Zeros(blockSize - finalSize - 8),
              BigEndian(n / WORD32, 4), BigEndian(n % WORD32, 4));
    }

    method Digest()
      requires Valid() && length < MAX_LENGTH
      modifies this`emitted, block
      ensures Flat(emitted) == Padded(message, blockSize, finalSize)
    {
      hide Flat, BigEndian, PadLength;
      var e := Fill(length, blockSize);
      ghost var tail := block[..e];
      block[e] := 128;
      FillZero(e + 1);
      assert block[..] == tail + [128] + Zeros(blockSize - e - 1);
      PadIs(length, blockSize, finalSize);
      if e >= finalSize {
        FinishTwo(tail);
      } else {
        FinishOne(tail);
      }
    }

    /** The length field fits the block that holds the end of the message. */
    method FinishOne(ghost tail: seq<Byte>)
      requires Sizes() && length < MAX_LENGTH && |tail| < finalSize
      requires block[..] == tail + [128] + Zeros(blockSize - |tail| - 1)
      modifies this`emitted, block
      ensures Flat(emitted) == (Flat(old(emitted)) + tail) + [128] + Zeros(finalSize - |tail| - 1)
                               + BigEndian(8 * length, blockSize - finalSize)
    {
      hide Flat, BigEndian;
      WriteLength(tail + [128]);
      Emit();
      OneBlock(Flat(old(emitted)), tail, finalSize - |tail| - 1, BigEndian(8 * length, blockSize - finalSize));
    }

    /** It goes into a block of its own. */
    method FinishTwo(ghost tail: seq<Byte>)
      requires Sizes() && length < MAX_LENGTH && |tail| < blockSize
      requires block[..] == tail + [128] + Zeros(blockSize - |tail| - 1)
      modifies this`emitted, block
      ensures Flat(emitted) == (Flat(old(emitted)) + tail) + [128] + Zeros(blockSize - |tail| - 1 + finalSize)
                               + BigEndian(8 * length, blockSize - finalSize)
    {
      hide Flat, BigEndian, Zeros;
      ghost var done, first := Flat(emitted), block[..];
      Emit();
      LengthBlock();
      ghost var second := block[..];
      Emit();
      TwoBlocks(done, tail, blockSize - |tail| - 1, finalSize, BigEndian(8 * length, blockSize - finalSize), first, second);
    }

    /** A block of zeros and the length field. */
    method LengthBlock()
      requires Sizes() && length < MAX_LENGTH
      modifies block
      ensures block[..] == Zeros(finalSize) + BigEndian(8 * length, blockSize - finalSize)
    {
      hide BigEndian, Zeros;
      ClearBlock();
      ghost var none: seq<Byte> := [];
      StartZero(none, blockSize);
      WriteLength(none);
      StartZero(none, finalSize);
    }

    method ClearBlock()
      modifies block
      ensures block[..] == Zeros(block.Length)
    {
      FillZero(0);
    }

    /** For every way of splitting a message into updates, the blocks handed on are the padded message. */
    method HashAll(chunks: seq<seq<Byte>>)
      requires Valid() && message == [] && |Flat(chunks)| < MAX_LENGTH
      modifies this`length, this`emitted, this`message, block
      ensures Flat(emitted) == Padded(Flat(chunks), blockSize, finalSize)
    {
      for i := 0 to |chunks|
        invariant Valid() && message == Flat(chunks[..i])
      {
        Update(chunks[i]);
        NextChunk(chunks, i);
      }
      assert chunks[..|chunks|] == chunks;
      Digest();
    }
  }

  lemma FourBytes(v: nat)
    requires v < WORD32
    ensures BigEndian(v, 4) == [v / 0x100_0000 % 256, v / 0x1_0000 % 256, v / 0x100 % 256, v % 256]
  {
    assert v / 256 / 256 == v / 0x1_0000 && v / 0x1_0000 / 256 == v / 0x100_0000 && v / 0x100_0000 < 256;
    assert BigEndian(v / 0x100_0000, 1) == [v / 0x100_0000];
    assert BigEndian(v / 0x1_0000, 2) == [v / 0x100_0000, v / 0x1_0000 % 256];
    assert BigEndian(v / 0x100, 3) == [v / 0x100_0000, v / 0x1_0000 % 256, v / 0x100 % 256];
  }

  lemma {:induction false} BigEndianZero(w: nat)
    ensures BigEndian(0, w) == Zeros(w)
  {
    if w > 0 { BigEndianZero(w - 1); }
  }

  lemma BigEndianStep(n: nat, w: nat)
    requires w > 0
    ensures BigEndian(n, w) == BigEndian(n / 256, w - 1) + [n % 256]
  {
  }

  lemma WordBytes(n: nat)
    ensures n / 0x100 / 256 == n / 0x1_0000 && n / 0x1_0000 / 256 == n / 0x100_0000 && n / 0x100_0000 / 256 == n / WORD32
    ensures var r := n % WORD32;
            && r / 0x100_0000 % 256 == n / 0x100_0000 % 256 && r / 0x1_0000 % 256 == n / 0x1_0000 % 256
            && r / 0x100 % 256 == n / 0x100 % 256 && r % 256 == n % 256
  {
    var q, r := n / WORD32, n % WORD32;
    assert n / 0x100_0000 == q * 256 + r / 0x100_0000;
    assert n / 0x1_0000 == q * 0x1_0000 + r / 0x1_0000;
    assert n / 0x100 == q * 0x100_0000 + r / 0x100;
  }

  /** The last four bytes and the rest. */
  lemma SplitWord(n: nat, w: nat)
    requires w >= 4
    ensures BigEndian(n, w) == BigEndian(n / WORD32, w - 4) + BigEndian(n % WORD32, 4)
  {
    hide BigEndian;
    var a, b, c := n / 0x100, n / 0x1_0000, n / 0x100_0000;
    WordBytes(n);
    FourBytes(n % WORD32);
    BigEndianStep(n, w);
    BigEndianStep(a, w - 1);
    BigEndianStep(b, w - 2);
    BigEndianStep(c, w - 3);
  }

  lemma LengthField(n: nat, w: nat)
    requires w >= 8 && n < 8 * MAX_LENGTH
    ensures n / WORD32 < WORD32
    ensures BigEndian(n, w) == Zeros(w - 8) + BigEndian(n / WORD32, 4) + BigEndian(n % WORD32, 4)
  {
    hide BigEndian;
    SplitWord(n, w);
    var h := n / WORD32;
    SplitWord(h, w - 4);
    assert h / WORD32 == 0 && h % WORD32 == h;
    BigEndianZero(w - 8);
  }

  lemma SmallWord(n: nat)
    requires n < WORD32
    ensures BigEndian(n / WORD32, 4) == Zeros(4) && n % WORD32 == n
  {
    BigEndianZero(4);
  }

  /** The pad length in terms of the fill of the last block. */
  lemma PadIs(length: nat, d: nat, f: nat)
    requires f < d
    ensures PadLength(length, d, f) == if length % d < f then f - length % d - 1 else d - length % d - 1 + f
  {
    var e, q := length % d, length / d;
    var k := if e < f then f - e - 1 else d - e - 1 + f;
    assert length == q * d + e;
    if e < f {
      assert f - length - 1 == (-q) * d + k;
      DivModUnique(f - length - 1, d, -q, k);
    } else {
      assert f - length - 1 == (-q - 1) * d + k;
      DivModUnique(f - length - 1, d, -q - 1, k);
    }
  }

  /** No smaller number of zero bytes aligns the length field. */
  lemma PadIsLeast(length: nat, d: nat, f: nat, k: nat)
    requires f < d && (length + 1 + k) % d == f
    ensures PadLength(length, d, f) <= k
  {
    var p := PadLength(length, d, f);
    if k < p {
      var x, y := (length + 1 + k) / d, (length + 1 + p) / d;
      assert length + 1 + k == x * d + f && length + 1 + p == y * d + f;
      if x < y { MulGap(x, y, d); } else if y < x { MulGap(y, x, d); }
    }
  }

  lemma OneBlock(done: seq<Byte>, tail: seq<Byte>, k: nat, field: seq<Byte>)
    ensures done + (tail + [128] + Zeros(k) + field) == (done + tail) + [128] + Zeros(k) + field
  {
  }

  lemma TwoBlocks(
      done: seq<Byte>, tail: seq<Byte>, j: nat, k: nat, field: seq<Byte>, first: seq<Byte>, second: seq<Byte>)
    requires first == tail + [128] + Zeros(j) && second == Zeros(k) + field
    ensures done + first + second == (done + tail) + [128] + Zeros(j + k) + field
  {
    assert Zeros(j + k) == Zeros(j) + Zeros(k);
  }

  /** The end of a block whose tail is zero. */
  lemma FieldPlaces(b: seq<Byte>, front: seq<Byte>, f: nat)
    requires |front| <= f && f + 8 <= |b| && b == front + Zeros(|b| - |front|)
    ensures b[..|b| - 8] == front + Zeros(f - |front|) + Zeros(|b| - f - 8)
    ensures b[|b| - 8..|b| - 4] == Zeros(4)
  {
  }

  lemma WordsWritten(b: seq<Byte>, c: seq<Byte>, high: seq<Byte>, low: seq<Byte>)
    requires |b| >= 8 && |high| == |low| == 4 && b[|b| - 8..|b| - 4] == high
    requires c == b[..|b| - 4] + low + b[|b| - 4 + 4..]
    ensures c == b[..|b| - 8] + high + low
  {
    assert b[..|b| - 4] == b[..|b| - 8] + b[|b| - 8..|b| - 4];
  }

  lemma TwoWordsWritten(b: seq<Byte>, c: seq<Byte>, d: seq<Byte>, high: seq<Byte>, low: seq<Byte>)
    requires |b| >= 8 && |high| == |low| == 4
    requires c == b[..|b| - 8] + high + b[|b| - 8 + 4..] && d == c[..|b| - 4] + low + c[|b| - 4 + 4..]
    ensures d == b[..|b| - 8] + high + low
  {
    assert c[..|b| - 4] == b[..|b| - 8] + high;
  }

  lemma StartZero(none: seq<Byte>, n: nat)
    requires |none| == 0
    ensures none + Zeros(n) == Zeros(n)
  {
  }

  lemma RegroupFive(a: seq<Byte>, b: seq<Byte>, c: seq<Byte>, d: seq<Byte>, e: seq<Byte>)
    ensures a + b + c + d + e == a + b + (c + d + e)
  {
  }

  /** Moving on by at most the rest of the block. */
  lemma Advance(u: nat, c: nat, d: nat)
    requires d > 0 && Fill(u, d) + c <= d
    ensures Fill(u + c, d) == if Fill(u, d) + c == d then 0 else Fill(u, d) + c
  {
    var q, r := u / d, u % d;
    assert u == q * d + r;
    if r + c == d {
      assert u + c == (q + 1) * d + 0;
      DivModUnique(u + c, d, q + 1, 0);
    } else {
      DivModUnique(u + c, d, q, r + c);
    }
  }

  lemma WholeNext(n: nat, d: nat)
    requires d > 0 && Whole(n, d)
    ensures Whole(n + d, d)
  {
    Advance(n, d, d);
  }
}
