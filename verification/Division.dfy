/** Quotients and remainders. */
module Division {
  lemma MulGap(lo: int, hi: int, d: nat)
    requires lo < hi
    ensures lo * d + d <= hi * d
  {
    assert hi * d == lo * d + (hi - lo) * d;
    assert (hi - lo) * d == d + (hi - lo - 1) * d;
  }

  /** A number has one quotient and one remainder. */
  lemma DivModUnique(x: int, d: nat, q: int, r: nat)
    requires r < d && x == q * d + r
    ensures x / d == q && x % d == r
  {
    var k := x / d;
    assert x == k * d + x % d;
    if k < q {
      MulGap(k, q, d);
    } else if q < k {
      MulGap(q, k, d);
    }
  }

  /** Dividing twice. */
  lemma DivTwice(x: nat, d: nat, e: nat)
    requires d > 0 && e > 0
    ensures x / d / e == x / (d * e)
  {
    var q, r := x / d, x % d;
    var p, s := q / e, q % e;
    Spread(x, d, e, q, r, p, s);
    Fits(d, e, s, r);
    DivModUnique(x, d * e, p, s * d + r);
  }

  lemma Spread(x: nat, d: nat, e: nat, q: nat, r: nat, p: nat, s: nat)
    requires x == q * d + r && q == p * e + s
    ensures x == p * (d * e) + (s * d + r)
  {
    assert q * d == (p * e) * d + s * d;
    assert (p * e) * d == p * (e * d) == p * (d * e);
  }

  lemma Fits(d: nat, e: nat, s: nat, r: nat)
    requires s < e && r < d
    ensures 0 <= s * d + r < d * e
  {
    MulGap(s, e, d);
    assert e * d == d * e;
  }
}
