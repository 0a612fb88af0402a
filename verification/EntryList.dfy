/**
  * The linked entries of the insertion-ordered Map (bundle module 566) as values: which entries
  * are live, and what the links of live and of removed entries point to.
  */
module EntryList {
  import opened Options

  // ---- The entry list of section 24.1 of ECMA-262 ----

  /** All entries ever added, in order; a removed one is empty. */
  type Entries<K, V> = seq<Option<(K, V)>>

  /** The first position from `i` on that is not empty, or the length. */
  function NextLive<K, V>(l: Entries<K, V>, i: nat): (j: nat)
    requires i <= |l|
    ensures i <= j <= |l|
    ensures j < |l| ==> l[j].Some?
    decreases |l| - i
  {
    if i == |l| || l[i].Some? then i else NextLive(l, i + 1)
  }

  lemma {:induction false} NextGap<K, V>(l: Entries<K, V>, i: nat, t: nat)
    requires i <= |l| && i <= t < NextLive(l, i)
    ensures l[t].None?
    decreases |l| - i
  {
    if i < t { NextGap(l, i + 1, t); }
  }

  /** One more than the last position before `i` that is not empty, or 0. */
  function PrevLive<K, V>(l: Entries<K, V>, i: nat): (j: nat)
    requires i <= |l|
    ensures j <= i
    ensures j > 0 ==> l[j - 1].Some?
  {
    if i == 0 || l[i - 1].Some? then i else PrevLive(l, i - 1)
  }

  lemma {:induction false} PrevGap<K, V>(l: Entries<K, V>, i: nat, t: nat)
    requires i <= |l| && PrevLive(l, i) <= t < i
    ensures l[t].None?
  {
    if t < i - 1 { PrevGap(l, i - 1, t); }
  }

  function LiveCount<K, V>(l: Entries<K, V>): nat {
    if l == [] then 0 else LiveCount(l[..|l| - 1]) + if l[|l| - 1].Some? then 1 else 0
  }

  /** The position of the live entry for `k`, or the length. */
  function Position<K(==), V>(l: Entries<K, V>, k: K): (j: nat)
    ensures j <= |l|
    ensures j < |l| ==> l[j].Some? && l[j].value.0 == k
    ensures forall t | 0 <= t < j && l[t].Some? :: l[t].value.0 != k
  {
    PositionFrom(l, k, 0)
  }

  function PositionFrom<K(==), V>(l: Entries<K, V>, k: K, i: nat): (j: nat)
    requires i <= |l|
    ensures i <= j <= |l|
    ensures j < |l| ==> l[j].Some? && l[j].value.0 == k
    ensures forall t | i <= t < j && l[t].Some? :: l[t].value.0 != k
    decreases |l| - i
  {
    if i == |l| || (l[i].Some? && l[i].value.0 == k) then i else PositionFrom(l, k, i + 1)
  }

  function Lookup<K(==), V>(l: Entries<K, V>, k: K): Option<V> {
    var p := Position(l, k);
    if p < |l| then Some(l[p].value.1) else None
  }

  function Insert<K(==), V>(l: Entries<K, V>, k: K, v: V): Entries<K, V> {
    var p := Position(l, k);
    if p < |l| then l[p := Some((k, v))] else l + [Some((k, v))]
  }

  function Remove<K(==), V>(l: Entries<K, V>, k: K): Entries<K, V> {
    var p := Position(l, k);
    if p < |l| then l[p := None] else l
  }

  function Cleared<K, V>(l: Entries<K, V>): Entries<K, V> {
    seq(|l|, _ => None)
  }

  // ---- Links ----

  type Ref = Option<nat>

  /** The entries with their links; entries are named by their creation number. */
  datatype Chain<K, V> = Chain(view: Entries<K, V>, next: seq<Ref>, previous: seq<Ref>, first: Ref, last: Ref)

  function NextRef<K, V>(l: Entries<K, V>, i: nat): Ref
    requires i <= |l|
  {
    var j := NextLive(l, i);
    if j < |l| then Some(j) else None
  }

  function PrevRef<K, V>(l: Entries<K, V>, i: nat): Ref
    requires i <= |l|
  {
    var j := PrevLive(l, i);
    if j == 0 then None else Some(j - 1)
  }

  /** From a removed entry, `previous` skips only removed entries. */
  ghost predicate Back<K, V>(l: Entries<K, V>, i: nat, p: Ref)
    requires i <= |l|
  {
    if p.None? then PrevLive(l, i) == 0 else p.value < i && PrevLive(l, i) <= p.value + 1
  }

  ghost predicate Sized<K, V>(c: Chain<K, V>) {
    |c.next| == |c.previous| == |c.view|
  }

  ghost predicate GoodAt<K, V>(c: Chain<K, V>, i: nat)
    requires Sized(c) && i < |c.view|
  {
    && (c.view[i].Some? ==> c.next[i] == NextRef(c.view, i + 1) && c.previous[i] == PrevRef(c.view, i))
    && Back(c.view, i, c.previous[i])
    && (c.next[i].Some? ==> c.next[i].value < |c.view|)
  }

  ghost predicate Good<K, V>(c: Chain<K, V>) {
    && Sized(c)
    && c.first == NextRef(c.view, 0)
    && c.last == PrevRef(c.view, |c.view|)
    && forall i | 0 <= i < |c.view| :: GoodAt(c, i)
  }

  function SetRef(rs: seq<Ref>, at: Ref, r: Ref): (res: seq<Ref>)
    ensures |res| == |rs|
  {
    if at.Some? && at.value < |rs| then rs[at.value := r] else rs
  }

  function Overwritten<K, V>(c: Chain<K, V>, i: nat, e: (K, V)): Chain<K, V>
    requires i < |c.view|
  {
    c.(view := c.view[i := Some(e)])
  }

  function Appended<K, V>(c: Chain<K, V>, e: (K, V)): Chain<K, V>
    requires Sized(c)
  {
    var n := Some(|c.view|);
    Chain(c.view + [Some(e)], SetRef(c.next, c.last, n) + [None], c.previous + [c.last],
          if c.first.None? then n else c.first, n)
  }

  function Deleted<K, V>(c: Chain<K, V>, d: nat): Chain<K, V>
    requires Sized(c) && d < |c.view|
  {
    var i, o := c.next[d], c.previous[d];
    Chain(c.view[d := None], SetRef(c.next, o, i), SetRef(c.previous, i, o),
          if c.first == Some(d) then i else c.first, if c.last == Some(d) then o else c.last)
  }

  // ---- Every step keeps the links good ----

  lemma NextIs<K, V>(l: Entries<K, V>, i: nat, j: nat)
    requires i <= j <= |l| && (j < |l| ==> l[j].Some?) && forall t | i <= t < j :: l[t].None?
    ensures NextLive(l, i) == j
  {
    var n := NextLive(l, i);
    if j < n { NextGap(l, i, j); }
  }

  lemma PrevIs<K, V>(l: Entries<K, V>, i: nat, j: nat)
    requires j <= i <= |l| && (j > 0 ==> l[j - 1].Some?) && forall t | j <= t < i :: l[t].None?
    ensures PrevLive(l, i) == j
  {
    var n := PrevLive(l, i);
    if n < j { PrevGap(l, i, j - 1); }
  }

  /** `m` has the same empty positions as `l` from `i` up to the next live one. */
  lemma NextSame<K, V>(l: Entries<K, V>, m: Entries<K, V>, i: nat)
    requires i <= |l| <= |m| && forall t | 0 <= t < |l| :: l[t].Some? == m[t].Some?
    requires |l| < |m| ==> m[|l|].Some?
    ensures NextLive(m, i) == NextLive(l, i)
  {
    var j := NextLive(l, i);
    forall t | i <= t < j ensures m[t].None? { NextGap(l, i, t); }
    NextIs(m, i, j);
  }

  lemma PrevSame<K, V>(l: Entries<K, V>, m: Entries<K, V>, i: nat)
    requires i <= |l| <= |m| && forall t | 0 <= t < |l| :: l[t].Some? == m[t].Some?
    ensures PrevLive(m, i) == PrevLive(l, i)
  {
    var j := PrevLive(l, i);
    forall t | j <= t < i ensures m[t].None? { PrevGap(l, i, t); }
    PrevIs(m, i, j);
  }

  /** Links and counts depend only on which positions are empty. */
  lemma SameLive<K, V>(l: Entries<K, V>, m: Entries<K, V>)
    requires |l| == |m| && forall t | 0 <= t < |l| :: l[t].Some? == m[t].Some?
    ensures forall i | 0 <= i <= |l| :: NextLive(l, i) == NextLive(m, i)
    ensures forall i | 0 <= i <= |l| :: PrevLive(l, i) == PrevLive(m, i)
    ensures LiveCount(l) == LiveCount(m)
  {
    forall i | 0 <= i <= |l| ensures NextLive(l, i) == NextLive(m, i) { NextSame(l, m, i); }
    forall i | 0 <= i <= |l| ensures PrevLive(l, i) == PrevLive(m, i) { PrevSame(l, m, i); }
    SameCount(l, m);
  }

  lemma {:induction false} SameCount<K, V>(l: Entries<K, V>, m: Entries<K, V>)
    requires |l| == |m| && forall t | 0 <= t < |l| :: l[t].Some? == m[t].Some?
    ensures LiveCount(l) == LiveCount(m)
  {
    if l != [] {
      SameCount(l[..|l| - 1], m[..|l| - 1]);
    }
  }

  lemma OverwriteGood<K, V>(c: Chain<K, V>, d: nat, e: (K, V))
    requires Good(c) && d < |c.view| && c.view[d].Some? && c.view[d].value.0 == e.0
    ensures Good(Overwritten(c, d, e)) && LiveCount(Overwritten(c, d, e).view) == LiveCount(c.view)
  {
    hide NextLive, PrevLive, LiveCount;
    var m := Overwritten(c, d, e);
    SameLive(c.view, m.view);
    forall i | 0 <= i < |m.view| ensures GoodAt(m, i) { assert GoodAt(c, i); }
  }

  /** The link forth from `i` and the link back from `d` (or the end) agree. */
  lemma {:induction false} Mutual<K, V>(l: Entries<K, V>, i: nat, d: nat)
    requires i < |l| && d <= |l| && l[i].Some? && (d < |l| ==> l[d].Some?)
    ensures NextLive(l, i + 1) == d <==> PrevLive(l, d) == i + 1
  {
    hide NextLive, PrevLive;
    if NextLive(l, i + 1) == d {
      forall t | i + 1 <= t < d ensures l[t].None? { NextGap(l, i + 1, t); }
      PrevIs(l, d, i + 1);
    }
    if PrevLive(l, d) == i + 1 {
      forall t | i + 1 <= t < d ensures l[t].None? { PrevGap(l, d, t); }
      NextIs(l, i + 1, d);
    }
  }

  lemma AppendAt<K, V>(c: Chain<K, V>, e: (K, V), i: nat)
    requires Good(c) && i <= |c.view|
    ensures GoodAt(Appended(c, e), i)
  {
    hide NextLive, PrevLive, LiveCount;
    var l := c.view;
    var m := l + [Some(e)];
    PrevSame(l, m, i);
    if i < |l| {
      assert GoodAt(c, i);
      NextSame(l, m, i + 1);
      if l[i].Some? { Mutual(l, i, |l|); }
    } else {
      EndLive(m);
    }
  }

  lemma EndLive<K, V>(l: Entries<K, V>)
    ensures NextLive(l, |l|) == |l|
  {
  }

  lemma AppendGood<K, V>(c: Chain<K, V>, e: (K, V))
    requires Good(c)
    ensures Good(Appended(c, e)) && LiveCount(Appended(c, e).view) == LiveCount(c.view) + 1
  {
    hide NextLive, PrevLive;
    var m := Appended(c, e);
    assert m.view[..|c.view|] == c.view;
    forall i | 0 <= i < |m.view| ensures GoodAt(m, i) { AppendAt(c, e, i); }
    NextSame(c.view, m.view, 0);
    LastLive(m.view);
  }

  lemma LastLive<K, V>(l: Entries<K, V>)
    requires l != [] && l[|l| - 1].Some?
    ensures PrevLive(l, |l|) == |l|
  {
  }

  lemma NextWithout<K, V>(l: Entries<K, V>, d: nat, i: nat)
    requires d < |l| && l[d].Some? && i <= |l|
    ensures NextLive(l[d := None], i) == if NextLive(l, i) == d then NextLive(l, d + 1) else NextLive(l, i)
  {
    var m, j := l[d := None], NextLive(l, i);
    var n := if j == d then NextLive(l, d + 1) else j;
    forall t | i <= t < n ensures m[t].None? {
      if t < j { NextGap(l, i, t); } else if t > d { NextGap(l, d + 1, t); }
    }
    NextIs(m, i, n);
  }

  lemma PrevWithout<K, V>(l: Entries<K, V>, d: nat, i: nat)
    requires d < |l| && l[d].Some? && i <= |l|
    ensures PrevLive(l[d := None], i) == if PrevLive(l, i) == d + 1 then PrevLive(l, d) else PrevLive(l, i)
  {
    var m, j := l[d := None], PrevLive(l, i);
    var n := if j == d + 1 then PrevLive(l, d) else j;
    forall t | n <= t < i ensures m[t].None? {
      if t >= j { PrevGap(l, i, t); } else if t < d { PrevGap(l, d, t); }
    }
    PrevIs(m, i, n);
  }

  lemma {:induction false} RemoveCount<K, V>(l: Entries<K, V>, d: nat)
    requires d < |l| && l[d].Some?
    ensures LiveCount(l[d := None]) == LiveCount(l) - 1
  {
    var n := |l| - 1;
    if d == n {
      assert l[d := None][..n] == l[..n];
    } else {
      assert l[d := None][..n] == l[..n][d := None];
      RemoveCount(l[..n], d);
    }
  }

  lemma DeleteAt<K, V>(c: Chain<K, V>, d: nat, i: nat)
    requires Good(c) && d < |c.view| && c.view[d].Some? && i < |c.view|
    ensures GoodAt(Deleted(c, d), i)
  {
    DeleteNext(c, d, i);
    DeletePrevious(c, d, i);
    DeleteBack(c, d, i);
  }

  lemma DeleteNext<K, V>(c: Chain<K, V>, d: nat, i: nat)
    requires Good(c) && d < |c.view| && c.view[d].Some? && i < |c.view|
    ensures var m := Deleted(c, d); m.view[i].Some? ==> m.next[i] == NextRef(m.view, i + 1)
    ensures var m := Deleted(c, d); m.next[i].Some? ==> m.next[i].value < |m.view|
  {
    hide NextLive, PrevLive, LiveCount;
    assert GoodAt(c, i) && GoodAt(c, d);
    NextWithout(c.view, d, i + 1);
    if c.view[i].Some? { Mutual(c.view, i, d); }
  }

  lemma DeletePrevious<K, V>(c: Chain<K, V>, d: nat, i: nat)
    requires Good(c) && d < |c.view| && c.view[d].Some? && i < |c.view|
    ensures var m := Deleted(c, d); m.view[i].Some? ==> m.previous[i] == PrevRef(m.view, i)
  {
    hide NextLive, PrevLive, LiveCount;
    assert GoodAt(c, i) && GoodAt(c, d);
    PrevWithout(c.view, d, i);
    if c.view[i].Some? { Mutual(c.view, d, i); }
  }

  lemma DeleteBack<K, V>(c: Chain<K, V>, d: nat, i: nat)
    requires Good(c) && d < |c.view| && c.view[d].Some? && i < |c.view|
    ensures var m := Deleted(c, d); Back(m.view, i, m.previous[i])
  {
    hide NextLive, PrevLive, LiveCount;
    assert GoodAt(c, i) && GoodAt(c, d);
    PrevWithout(c.view, d, i);
    if c.view[i].Some? { Mutual(c.view, d, i); }
    PrevShrinks(c.view, d);
  }

  lemma PrevShrinks<K, V>(l: Entries<K, V>, d: nat)
    requires d < |l|
    ensures PrevLive(l, d) <= d
  {
  }

  lemma DeleteGood<K, V>(c: Chain<K, V>, d: nat)
    requires Good(c) && d < |c.view| && c.view[d].Some?
    ensures Good(Deleted(c, d)) && LiveCount(Deleted(c, d).view) == LiveCount(c.view) - 1
  {
    hide NextLive, PrevLive, LiveCount;
    var m := Deleted(c, d);
    forall i | 0 <= i < |m.view| ensures GoodAt(m, i) { DeleteAt(c, d, i); }
    assert GoodAt(c, d);
    NextWithout(c.view, d, 0);
    PrevWithout(c.view, d, |c.view|);
    RemoveCount(c.view, d);
  }

  // ---- Clearing, one entry at a time ----

  /** Clearing entry `d`: it is removed and unlinked from its predecessor. */
  function Unlinked<K, V>(c: Chain<K, V>, d: nat): Chain<K, V>
    requires Sized(c) && d < |c.view|
  {
    c.(view := c.view[d := None], next := SetRef(c.next, c.previous[d], None), previous := c.previous[d := None])
  }

  /** The clear loop of chain `c` has passed every live entry before `i`. */
  ghost predicate Swept<K, V>(c: Chain<K, V>, i: nat, s: Chain<K, V>) {
    && Sized(c) && Sized(s) && |s.view| == |c.view| && i <= |c.view| && s.first == c.first && s.last == c.last
    && forall t | 0 <= t < |c.view| :: SweptAt(c, i, s, t)
  }

  ghost predicate SweptAt<K, V>(c: Chain<K, V>, i: nat, s: Chain<K, V>, t: nat)
    requires Sized(c) && Sized(s) && t < |s.view| == |c.view|
  {
    && s.view[t] == (if t < i then None else c.view[t])
    && s.previous[t] == (if t < i && c.view[t].Some? then None else c.previous[t])
    && (i <= t ==> s.next[t] == c.next[t])
    && (s.next[t].Some? ==> s.next[t].value < |s.view|)
  }

  lemma SweepStart<K, V>(c: Chain<K, V>)
    requires Good(c)
    ensures Swept(c, NextLive(c.view, 0), c)
  {
    hide LiveCount, PrevLive, NextLive;
    forall t | 0 <= t < |c.view| ensures SweptAt(c, NextLive(c.view, 0), c, t) {
      assert GoodAt(c, t);
      if t < NextLive(c.view, 0) { NextGap(c.view, 0, t); }
    }
  }

  lemma SweepStep<K, V>(c: Chain<K, V>, i: nat, s: Chain<K, V>)
    requires Good(c) && Swept(c, i, s) && i < |c.view| && c.view[i].Some?
    ensures Swept(c, NextLive(c.view, i + 1), Unlinked(s, i))
    ensures s.next[i] == NextRef(c.view, i + 1) && s.view[i].Some?
    ensures s.previous[i].Some? ==> s.previous[i].value < i
  {
    hide LiveCount, PrevLive, NextLive, SweptAt;
    var j, u := NextLive(c.view, i + 1), Unlinked(s, i);
    SweptHead(c, i, s);
    forall t | 0 <= t < |c.view| ensures SweptAt(c, j, u, t) {
      if i < t < j { NextGap(c.view, i + 1, t); }
      SweptNext(c, i, s, j, t);
    }
  }

  lemma SweptHead<K, V>(c: Chain<K, V>, i: nat, s: Chain<K, V>)
    requires Good(c) && Swept(c, i, s) && i < |c.view| && c.view[i].Some?
    ensures s.next[i] == NextRef(c.view, i + 1) && s.view[i].Some?
    ensures s.previous[i].Some? ==> s.previous[i].value < i
  {
    hide LiveCount, PrevLive, NextLive;
    assert GoodAt(c, i) && SweptAt(c, i, s, i);
  }

  lemma SweptNext<K, V>(c: Chain<K, V>, i: nat, s: Chain<K, V>, j: nat, t: nat)
    requires Sized(c) && Sized(s) && i < j <= |c.view| == |s.view| && t < |c.view|
    requires SweptAt(c, i, s, t) && (i < t < j ==> c.view[t].None?) && c.view[i].Some?
    requires s.previous[i].Some? ==> s.previous[i].value < i
    ensures SweptAt(c, j, Unlinked(s, i), t)
  {
  }

  lemma SweepGood<K, V>(c: Chain<K, V>, s: Chain<K, V>)
    requires Good(c) && Swept(c, |c.view|, s)
    ensures s.view == Cleared(c.view) && Good(s.(first := None, last := None)) && LiveCount(s.view) == 0
  {
    var m := s.(first := None, last := None);
    forall t | 0 <= t < |s.view| ensures s.view[t].None? { assert SweptAt(c, |c.view|, s, t); }
    forall i | 0 <= i < |m.view| ensures GoodAt(m, i) {
      assert GoodAt(c, i) && SweptAt(c, |c.view|, s, i);
      PrevIs(m.view, i, 0);
    }
    NextIs(m.view, 0, |m.view|);
    PrevIs(m.view, |m.view|, 0);
    NoneLive(m.view);
  }

  lemma {:induction false} NoneLive<K, V>(l: Entries<K, V>)
    requires forall t | 0 <= t < |l| :: l[t].None?
    ensures LiveCount(l) == 0
  {
    if l != [] { NoneLive(l[..|l| - 1]); }
  }

  /** Entries that are gone do not matter for what comes next. */
  lemma SkipGone<K, V>(l: Entries<K, V>, q: nat, p: nat)
    requires q <= p <= |l| && PrevLive(l, p) <= q
    ensures NextLive(l, q) == NextLive(l, p)
  {
    var n := NextLive(l, p);
    forall t | q <= t < n ensures l[t].None? {
      if t < p { PrevGap(l, p, t); } else { NextGap(l, p, t); }
    }
    NextIs(l, q, n);
  }
}
