/**
  * 32-bit words as natural numbers: powers of two, bit tests, population count and the
  * parallel bit counter `ge` by which the hash trie finds the position of a child.
  */
module TrieBits {
  import opened Division

  const WORD: nat := 0x1_0000_0000

  function Pow2(n: nat): (r: nat)
    ensures r > 0
  {
    if n == 0 then 1 else 2 * Pow2(n - 1)
  }

  predicate Has(b: nat, s: nat) {
    b / Pow2(s) % 2 == 1
  }

  /** The number of one bits. */
  function PopCount(b: nat): (r: nat)
    ensures b == 0 <==> r == 0
  {
    if b == 0 then 0 else b % 2 + PopCount(b / 2)
  }

  /** The number of one bits strictly below position `s`: the child index of slot `s`. */
  function Below(b: nat, s: nat): nat {
    PopCount(b % Pow2(s))
  }

  // ---- Bit tests and counts, from the low end ----

  lemma DivPow2(b: nat, s: nat)
    requires s > 0
    ensures b / Pow2(s) == b / 2 / Pow2(s - 1)
    ensures b % Pow2(s) == b % 2 + 2 * (b / 2 % Pow2(s - 1))
  {
    var p := Pow2(s - 1);
    var q, r := b / 2 / p, b / 2 % p;
    assert b == 2 * (q * p + r) + b % 2;
    assert 2 * (q * p) == q * (2 * p);
    DivModUnique(b, 2 * p, q, 2 * r + b % 2);
  }

  lemma {:induction false} PowAdd(a: nat, b: nat)
    ensures Pow2(a + b) == Pow2(a) * Pow2(b)
  {
    if a > 0 {
      PowAdd(a - 1, b);
      assert a - 1 + b == a + b - 1;
    }
  }

  lemma {:induction false} PowMono(a: nat, b: nat)
    requires a <= b
    ensures Pow2(a) <= Pow2(b)
  {
    if a < b {
      PowMono(a, b - 1);
    }
  }

  /** Counting one more position adds the bit at that position. */
  lemma {:induction false} BelowStep(b: nat, s: nat)
    ensures Below(b, s + 1) == Below(b, s) + if Has(b, s) then 1 else 0
    decreases s
  {
    if s == 0 {
      BelowFirst(b);
    } else {
      hide Below, Has;
      BelowHalf(b, s + 1);
      BelowHalf(b, s);
      HasHalf(b, s);
      BelowStep(b / 2, s - 1);
    }
  }

  lemma BelowHalf(b: nat, s: nat)
    requires s > 0
    ensures Below(b, s) == b % 2 + Below(b / 2, s - 1)
  {
    hide PopCount, Pow2;
    DivPow2(b, s);
    PopSplit(b % 2, b / 2 % Pow2(s - 1));
  }

  lemma HasHalf(b: nat, s: nat)
    requires s > 0
    ensures Has(b, s) <==> Has(b / 2, s - 1)
  {
    hide Pow2;
    DivPow2(b, s);
  }

  lemma BelowFirst(b: nat)
    ensures Below(b, 1) == Below(b, 0) + if Has(b, 0) then 1 else 0
  {
    assert Pow2(0) == 1 && Pow2(1) == 2;
  }

  lemma PopSplit(bit: nat, rest: nat)
    requires bit < 2
    ensures PopCount(bit + 2 * rest) == bit + PopCount(rest)
  {
    assert (bit + 2 * rest) / 2 == rest && (bit + 2 * rest) % 2 == bit;
  }

  lemma BelowAll(b: nat, s: nat)
    requires b < Pow2(s)
    ensures Below(b, s) == PopCount(b)
  {
    DivModUnique(b, Pow2(s), 0, b);
  }

  // ---- Setting and clearing one bit ----

  /** Adding a clear bit's weight sets that bit and no other. */
  lemma {:induction false} SetBit(b: nat, s: nat, t: nat)
    requires !Has(b, s)
    ensures Has(b + Pow2(s), t) <==> t == s || Has(b, t)
    decreases s
  {
    var c := b + Pow2(s);
    if s == 0 {
      assert Pow2(0) == 1 && b % 2 == 0;
      if t > 0 {
        DivPow2(b, t);
        DivPow2(c, t);
        assert c / 2 == b / 2;
      }
    } else {
      DivPow2(b, s);
      assert c / 2 == b / 2 + Pow2(s - 1);
      if t == 0 {
        assert c % 2 == b % 2;
      } else {
        SetBit(b / 2, s - 1, t - 1);
        DivPow2(b, t);
        DivPow2(c, t);
      }
    }
  }

  lemma {:induction false} SetBitBound(b: nat, s: nat, n: nat)
    requires s < n && b < Pow2(n) && !Has(b, s)
    ensures b + Pow2(s) < Pow2(n)
    decreases s
  {
    if s == 0 {
      EvenBound(b, Pow2(n - 1));
    } else {
      DivPow2(b, s);
      SetBitBound(b / 2, s - 1, n - 1);
      EvenSum(b, Pow2(s - 1), Pow2(n - 1));
    }
  }

  lemma EvenBound(b: nat, p: nat)
    requires b % 2 == 0 && b < 2 * p
    ensures b + 1 < 2 * p
  {
  }

  lemma EvenSum(b: nat, w: nat, p: nat)
    requires b / 2 + w < p
    ensures b + 2 * w < 2 * p
  {
  }

  lemma HighBit(b: nat, s: nat)
    requires b < Pow2(s)
    ensures !Has(b, s) && Below(b, s) == PopCount(b)
  {
    DivModUnique(b, Pow2(s), 0, b);
  }

  lemma {:induction false} NoBits(s: nat)
    ensures !Has(0, s) && Below(0, s) == 0
  {
    DivModUnique(0, Pow2(s), 0, 0);
  }

  lemma {:induction false} HasWeight(b: nat, s: nat)
    requires Has(b, s)
    ensures Pow2(s) <= b
    ensures !Has(b - Pow2(s), s)
    decreases s
  {
    if s > 0 {
      DivPow2(b, s);
      HasWeight(b / 2, s - 1);
      var c := b - Pow2(s);
      DivPow2(c, s);
      assert c / 2 == b / 2 - Pow2(s - 1);
    }
  }

  /** The count of lower bits after setting bit `s`. */
  lemma {:induction false} BelowSet(b: nat, s: nat, t: nat)
    requires !Has(b, s)
    ensures Below(b + Pow2(s), t) == Below(b, t) + if s < t then 1 else 0
    decreases t
  {
    if t > 0 {
      BelowStep(b, t - 1);
      BelowStep(b + Pow2(s), t - 1);
      BelowSet(b, s, t - 1);
      SetBit(b, s, t - 1);
    } else {
      assert Below(b, 0) == 0 == Below(b + Pow2(s), 0);
    }
  }

  lemma {:induction false} BelowMono(b: nat, s: nat, t: nat)
    requires s <= t
    ensures Below(b, s) <= Below(b, t)
    ensures s < t && Has(b, s) ==> Below(b, s) < Below(b, t)
    decreases t - s
  {
    if s < t {
      BelowStep(b, s);
      BelowMono(b, s + 1, t);
    }
  }

  /** Every child index belongs to exactly one set bit. */
  lemma {:induction false} SlotOf(b: nat, n: nat, i: nat) returns (s: nat)
    requires i < Below(b, n)
    ensures s < n && Has(b, s) && Below(b, s) == i
    decreases n
  {
    assert n > 0;
    BelowStep(b, n - 1);
    if i < Below(b, n - 1) {
      s := SlotOf(b, n - 1, i);
    } else {
      s := n - 1;
    }
  }

  // ---- The parallel counter ----

  /** Bitwise and. */
  function And(x: nat, m: nat): nat {
    if x == 0 || m == 0 then 0 else (x % 2) * (m % 2) + 2 * And(x / 2, m / 2)
  }

  /** The counter of the source: sums over pairs, nibbles, bytes and then the word. */
  function CountBits(b: nat): nat {
    FoldBytes(SumNibbles(SumPairs(SumBits(b))))
  }

  function SumBits(b: nat): nat {
    var odd := And(b / 2, 0x5555_5555);
    if odd <= b then b - odd else 0
  }

  function SumPairs(pairs: nat): nat {
    And(pairs, 0x3333_3333) + And(pairs / 4, 0x3333_3333)
  }

  function SumNibbles(nibbles: nat): nat {
    And(Folded(nibbles), 0x0F0F_0F0F)
  }

  function FoldBytes(bytes: nat): nat {
    var halves := bytes + bytes / 256;
    (halves + halves / 65536) % 128
  }

  // Reference forms: each pair, nibble or byte replaced by the number of its one bits.

  function Quarter(x: nat): nat { x / 4 }

  function Pair(x: nat): (r: nat)
    ensures r <= 2
  {
    x % 2 + x / 2 % 2
  }

  function Nibble(x: nat): (r: nat)
    ensures r <= 4
  {
    Pair(x) + Pair(Quarter(x))
  }

  function Sixteenth(x: nat): nat { x / 16 }

  function Byte(x: nat): (r: nat)
    ensures r <= 8
  {
    Nibble(x) + Nibble(Sixteenth(x))
  }

  function Rest(x: nat): nat { x / 256 }

  function PairCounts(x: nat): nat {
    if x == 0 then 0 else Pair(x) + 4 * PairCounts(Quarter(x))
  }

  function NibbleCounts(x: nat): nat {
    if x == 0 then 0 else Nibble(x) + 16 * NibbleCounts(Sixteenth(x))
  }

  function ByteCounts(x: nat): nat {
    if x == 0 then 0 else Byte(x) + 256 * ByteCounts(Rest(x))
  }

  function Mask5(k: nat): nat { if k == 0 then 0 else 1 + 4 * Mask5(k - 1) }

  function Mask3(k: nat): nat { if k == 0 then 0 else 3 + 16 * Mask3(k - 1) }

  function MaskF(k: nat): nat { if k == 0 then 0 else 15 + 256 * MaskF(k - 1) }

  lemma Masks()
    ensures Mask5(16) == 0x5555_5555 && Mask3(8) == 0x3333_3333 && MaskF(4) == 0x0F0F_0F0F
    ensures Pow2(32) == WORD
  {
    assert Mask5(4) == 0x55 && Mask5(8) == 0x5555 && Mask5(12) == 0x55_5555;
    assert Mask3(4) == 0x3333;
    assert Pow2(8) == 0x100 && Pow2(16) == 0x1_0000 && Pow2(24) == 0x100_0000;
  }

  lemma AndDigit(d: nat, x: nat, e: nat, m: nat)
    requires d < 2 && e < 2
    ensures And(d + 2 * x, e + 2 * m) == d * e + 2 * And(x, m)
  {
    assert (d + 2 * x) / 2 == x && (d + 2 * x) % 2 == d;
    assert (e + 2 * m) / 2 == m && (e + 2 * m) % 2 == e;
  }

  /** Two mask bits `e` and `f` (as factors 0 or 1) against the digits `c + 2 * d`. */
  lemma AndPair(c: nat, d: nat, x: nat, e: nat, f: nat, m: nat)
    requires c < 2 && d < 2 && e < 2 && f < 2
    ensures And(c + 2 * d + 4 * x, e + 2 * f + 4 * m) == c * e + 2 * (d * f) + 4 * And(x, m)
  {
    AndDigit(c, d + 2 * x, e, f + 2 * m);
    AndDigit(d, x, f, m);
  }

  lemma AndKeep(d: nat, x: nat, m: nat)
    requires d < 4
    ensures And(d + 4 * x, 3 + 4 * m) == d + 4 * And(x, m)
  {
    hide And;
    AndPair(d % 2, d / 2, x, 1, 1, m);
  }

  lemma AndDrop(d: nat, x: nat, m: nat)
    requires d < 4
    ensures And(d + 4 * x, 4 * m) == 4 * And(x, m)
  {
    hide And;
    AndPair(d % 2, d / 2, x, 0, 0, m);
  }

  lemma AndNothing(x: nat)
    ensures And(x, 0) == 0
  {
  }

  // ---- Stage by stage, each count replaces its digits ----

  /** A number by its two low bits and the rest. */
  lemma LowTwo(x: nat)
    ensures x / 2 / 2 == Quarter(x) && x / 2 == x / 2 % 2 + 2 * Quarter(x)
    ensures x == x % 2 + 2 * (x / 2 % 2) + 4 * Quarter(x)
  {
    var h, q := x / 2, x / 2 / 2;
    assert x == x % 2 + 2 * h && h == h % 2 + 2 * q;
    DivModUnique(x, 4, q, x % 2 + 2 * (h % 2));
  }

  lemma PairStep(x: nat, m: nat)
    ensures And(x / 2, 1 + 4 * m) == x / 2 % 2 + 4 * And(Quarter(x) / 2, m)
  {
    hide And, Quarter;
    var b, y := x / 2 % 2, Quarter(x);
    LowTwo(x);
    assert y == y % 2 + 2 * (y / 2);
    assert x / 2 == b + 2 * (y % 2) + 4 * (y / 2);
    AndPair(b, y % 2, y / 2, 1, 0, m);
  }

  lemma PairSum(x: nat, masked: nat, rest: nat, counts: nat)
    requires masked == x / 2 % 2 + 4 * rest && rest <= Quarter(x) && Quarter(x) - rest == counts
    ensures masked <= x && x - masked == Pair(x) + 4 * counts
  {
    hide Quarter;
    LowTwo(x);
  }

  lemma QuarterFits(x: nat, k: nat)
    requires k >= 2 && x < Pow2(k)
    ensures Quarter(x) < Pow2(k - 2)
  {
    assert Pow2(k) == 2 * Pow2(k - 1) == 2 * (2 * Pow2(k - 2));
    hide Pow2, Quarter;
    LowTwo(x);
  }

  lemma Quotients(x: nat)
    ensures x / 2 / 2 == Quarter(x) && Quarter(Quarter(x)) == Sixteenth(x) && Sixteenth(Sixteenth(x)) == Rest(x)
  {
    LowTwo(x);
    DivTwice(x, 4, 4);
    DivTwice(x, 16, 16);
  }

  lemma SixteenthFits(x: nat, k: nat)
    requires k >= 4 && x < Pow2(k)
    ensures Sixteenth(x) < Pow2(k - 4)
  {
    hide Pow2, Quarter, Sixteenth;
    QuarterFits(x, k);
    QuarterFits(Quarter(x), k - 2);
    Quotients(x);
  }

  lemma {:induction false} PairsAreCounted(x: nat, k: nat)
    requires x < Pow2(2 * k)
    ensures And(x / 2, Mask5(k)) <= x
    ensures x - And(x / 2, Mask5(k)) == PairCounts(x)
    decreases k
  {
    hide And, Pair, Quarter, Pow2, PairCounts;
    PairCountsStep(x);
    if k > 0 && x > 0 {
      QuarterFits(x, 2 * k);
      PairsAreCounted(Quarter(x), k - 1);
      PairStep(x, Mask5(k - 1));
      PairSum(x, And(x / 2, Mask5(k)), And(Quarter(x) / 2, Mask5(k - 1)), PairCounts(Quarter(x)));
    } else {
      NoPairs(x, k);
    }
  }

  lemma NoPairs(x: nat, k: nat)
    requires x == 0 || (k == 0 && x < Pow2(0))
    ensures x == 0 && And(x / 2, Mask5(k)) == 0 && PairCounts(x) == 0
  {
  }

  lemma PairCountsStep(x: nat)
    ensures PairCounts(x) == Pair(x) + 4 * PairCounts(Quarter(x))
  {
  }

  lemma PairCountsTwo(x: nat)
    ensures PairCounts(x) == Pair(x) + 4 * Pair(Quarter(x)) + 16 * PairCounts(Sixteenth(x))
  {
    hide Pair, Quarter, Sixteenth, PairCounts;
    PairCountsStep(x);
    PairCountsStep(Quarter(x));
    Quotients(x);
  }

  lemma {:induction false} NibblesAreCounted(x: nat, k: nat)
    requires x < Pow2(4 * k)
    ensures And(PairCounts(x), Mask3(k)) + And(PairCounts(x) / 4, Mask3(k)) == NibbleCounts(x)
    decreases k
  {
    hide And, Pair, Quarter, Sixteenth, Pow2, PairCounts, NibbleCounts;
    NibbleCountsStep(x);
    if k > 0 && x > 0 {
      SixteenthFits(x, 4 * k);
      NibblesAreCounted(Sixteenth(x), k - 1);
      PairCountsTwo(x);
      NibbleStep(Pair(x), Pair(Quarter(x)), PairCounts(Sixteenth(x)), Mask3(k - 1));
    } else {
      NoNibbles(x, k);
    }
  }

  lemma NoNibbles(x: nat, k: nat)
    requires x == 0 || (k == 0 && x < Pow2(0))
    ensures And(PairCounts(x), Mask3(k)) == And(PairCounts(x) / 4, Mask3(k)) == NibbleCounts(x) == 0
  {
  }

  lemma NibbleCountsStep(x: nat)
    ensures NibbleCounts(x) == Nibble(x) + 16 * NibbleCounts(Sixteenth(x))
  {
  }

  lemma NibbleStep(d: nat, e: nat, t: nat, m: nat)
    requires d < 4 && e < 4
    ensures And(d + 4 * e + 16 * t, 3 + 16 * m) == d + 16 * And(t, m)
    ensures And((d + 4 * e + 16 * t) / 4, 3 + 16 * m) == e + 16 * And(t / 4, m)
  {
    hide And;
    KeepDrop(d, e, t, m);
    DivModUnique(d + 4 * e + 16 * t, 4, e + 4 * t, d);
    DivModUnique(t, 4, t / 4, t % 4);
    assert e + 4 * t == e + 4 * (t % 4) + 16 * (t / 4);
    KeepDrop(e, t % 4, t / 4, m);
  }

  lemma KeepDrop(d: nat, e: nat, t: nat, m: nat)
    requires d < 4 && e < 4
    ensures And(d + 4 * e + 16 * t, 3 + 16 * m) == d + 16 * And(t, m)
  {
    hide And;
    AndKeep(d, e + 4 * t, 4 * m);
    AndDrop(e, t, m);
    assert d + 4 * e + 16 * t == d + 4 * (e + 4 * t) && 3 + 16 * m == 3 + 4 * (4 * m);
  }

  lemma NibbleCountsTwo(x: nat)
    ensures NibbleCounts(x) == Nibble(x) + 16 * NibbleCounts(Sixteenth(x))
    ensures NibbleCounts(x) == Nibble(x) + 16 * Nibble(Sixteenth(x)) + 256 * NibbleCounts(Rest(x))
  {
    hide Nibble, Sixteenth, NibbleCounts, Rest;
    NibbleCountsStep(x);
    NibbleCountsStep(Sixteenth(x));
    Quotients(x);
  }

  predicate Bytes(x: nat, k: nat) {
    if k == 0 then x == 0 else Bytes(Rest(x), k - 1)
  }

  lemma FitsWord(b: nat)
    requires b < WORD
    ensures Bytes(b, 4)
  {
    var b1 := Rest(b);
    var b2 := Rest(b1);
    var b3 := Rest(b2);
    assert b1 < 0x100_0000 && b2 < 0x1_0000 && b3 < 0x100 && Rest(b3) == 0;
    assert Bytes(b3, 1);
    assert Bytes(b2, 2);
    assert Bytes(b1, 3);
  }

  function Folded(nibbles: nat): nat { nibbles + nibbles / 16 }

  lemma FirstByte(x: nat, m: nat)
    ensures And(Folded(NibbleCounts(x)), 15 + 256 * m) == Byte(x) + 256 * And(Folded(NibbleCounts(Rest(x))), m)
  {
    hide And, Nibble, NibbleCounts, Rest, Sixteenth, Folded;
    var y := Rest(x);
    NibbleCountsTwo(x);
    NibbleCountsTwo(y);
    ByteStep(NibbleCounts(x), Nibble(x), Nibble(Sixteenth(x)), NibbleCounts(y), Nibble(y),
             NibbleCounts(Sixteenth(y)), m);
  }

  lemma {:induction false} BytesAreCounted(x: nat, k: nat)
    requires Bytes(x, k)
    ensures And(Folded(NibbleCounts(x)), MaskF(k)) == ByteCounts(x)
    decreases k
  {
    hide And, NibbleCounts, Nibble, Byte, Rest, Folded, ByteCounts;
    if k == 0 {
      AndNothing(Folded(NibbleCounts(x)));
      NoBytes();
    } else {
      BytesAreCounted(Rest(x), k - 1);
      FirstByte(x, MaskF(k - 1));
      ByteOf(x);
    }
  }

  lemma NoBytes()
    ensures ByteCounts(0) == 0
  {
  }

  lemma ByteStep(z: nat, d: nat, e: nat, t: nat, c: nat, r: nat, m: nat)
    requires d <= 4 && e <= 4 && c <= 4
    requires z == d + 16 * e + 256 * t && t == c + 16 * r
    ensures And(Folded(z), 15 + 256 * m) == d + e + 256 * And(Folded(t), m)
  {
    hide And;
    DivModUnique(z, 16, e + 16 * t, d);
    DivModUnique(t, 16, r, c);
    assert Folded(z) == (d + e) + 16 * (e + c) + 256 * (t + r) && Folded(t) == t + r;
    ByteMask((d + e) % 4, (d + e) / 4, (e + c) % 4, (e + c) / 4, t + r, m);
  }

  /** Four of eight bits kept, given as digits to the base four. */
  lemma ByteMask(l0: nat, l1: nat, h0: nat, h1: nat, y: nat, m: nat)
    requires l0 < 4 && l1 < 4 && h0 < 4 && h1 < 4
    ensures And(l0 + 4 * l1 + 16 * (h0 + 4 * h1) + 256 * y, 15 + 256 * m) == l0 + 4 * l1 + 256 * And(y, m)
  {
    hide And;
    var high := h0 + 4 * (h1 + 4 * y);
    AndDrop(h1, y, m);
    AndDrop(h0, h1 + 4 * y, 4 * m);
    AndKeep(l1, high, 4 * (4 * m));
    AndKeep(l0, l1 + 4 * high, 3 + 4 * (4 * (4 * m)));
    assert l0 + 4 * l1 + 16 * (h0 + 4 * h1) + 256 * y == l0 + 4 * (l1 + 4 * high);
    assert 15 + 256 * m == 3 + 4 * (3 + 4 * (4 * (4 * m)));
  }

  lemma PopNibble(x: nat)
    ensures PopCount(x) == Nibble(x) + PopCount(Sixteenth(x))
  {
    hide Pair, PopCount, Quarter, Sixteenth;
    PopQuarter(x);
    PopQuarter(Quarter(x));
    Quotients(x);
  }

  lemma PopQuarter(x: nat)
    ensures PopCount(x) == Pair(x) + PopCount(Quarter(x))
  {
    hide Quarter;
    LowTwo(x);
  }

  lemma FourBytes(t: nat, p: nat, q: nat, r: nat, s: nat)
    requires p <= 8 && q <= 8 && r <= 8 && s <= 8
    requires t == p + 256 * q + 65536 * r + 16777216 * s
    ensures FoldBytes(t) == p + q + r + s
  {
    DivModUnique(t, 256, q + 256 * r + 65536 * s, p);
    var u := t + t / 256;
    DivModUnique(u, 65536, r + s + 256 * s, p + q + 256 * (q + r));
    var sum := p + q + r + s;
    DivModUnique(u + u / 65536, 128, 2 * (q + r + s) + 512 * (r + s) + 131072 * s, sum);
  }

  lemma ByteOf(x: nat)
    ensures ByteCounts(x) == Byte(x) + 256 * ByteCounts(Rest(x))
    ensures PopCount(x) == Byte(x) + PopCount(Rest(x))
  {
    ByteCountsStep(x);
    hide Nibble, PopCount, ByteCounts, Rest, Sixteenth;
    PopNibble(x);
    PopNibble(Sixteenth(x));
    Quotients(x);
  }

  lemma ByteCountsStep(x: nat)
    ensures ByteCounts(x) == Byte(x) + 256 * ByteCounts(Rest(x))
  {
  }

  lemma WordSum(b: nat)
    requires b < WORD
    ensures FoldBytes(ByteCounts(b)) == PopCount(b)
  {
    var b1, b2, b3 := Rest(b), Rest(Rest(b)), Rest(Rest(Rest(b)));
    FitsWord(b);
    NoBytes();
    assert Rest(b3) == 0 by { assert Bytes(b1, 3) && Bytes(b2, 2) && Bytes(b3, 1); }
    hide Rest, Byte, ByteCounts, PopCount, FoldBytes, Bytes;
    ByteOf(b);
    ByteOf(b1);
    ByteOf(b2);
    ByteOf(b3);
    FourBytes(ByteCounts(b), Byte(b), Byte(b1), Byte(b2), Byte(b3));
  }

  lemma SumBitsIs(b: nat)
    requires b < WORD
    ensures SumBits(b) == PairCounts(b)
  {
    Masks();
    PairsAreCounted(b, 16);
  }

  lemma SumPairsIs(b: nat)
    requires b < WORD
    ensures SumPairs(PairCounts(b)) == NibbleCounts(b)
  {
    Masks();
    NibblesAreCounted(b, 8);
  }

  lemma SumNibblesIs(b: nat)
    requires b < WORD
    ensures SumNibbles(NibbleCounts(b)) == ByteCounts(b)
  {
    FitsWord(b);
    BytesAreCounted(b, 4);
    Masks();
  }

  /** The counter returns the number of one bits of every 32-bit word. */
  lemma CountBitsIsPopCount(b: nat)
    requires b < WORD
    ensures CountBits(b) == PopCount(b)
  {
    SumBitsIs(b);
    SumPairsIs(b);
    SumNibblesIs(b);
    WordSum(b);
  }

  /** The child index of slot `s` is what the counter returns for the bits masked below `s`. */
  lemma ChildIndex(b: nat, s: nat)
    requires b < WORD
    ensures CountBits(b % Pow2(s)) == Below(b, s)
  {
    hide CountBits;
    ModAtMost(b, Pow2(s));
    CountBitsIsPopCount(b % Pow2(s));
  }

  lemma ModAtMost(b: nat, d: nat)
    requires d > 0
    ensures b % d <= b
  {
  }
}
