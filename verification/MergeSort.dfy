/**
  * The array sort of the bundle (module 391): insertion below eight elements, otherwise two sorted
  * halves merged back into the array. For every comparator that orders its arguments by a total
  * preorder, the result is the one sorted arrangement that keeps equal elements in their order.
  */
module MergeSort {
  import opened Chunks

  type Comparator<!T> = (T, T) -> int

  predicate Before<T>(cmp: Comparator<T>, x: T, y: T) {
    cmp(x, y) <= 0
  }

  ghost predicate TotalPreorder<T(!new)>(cmp: Comparator<T>) {
    (forall x: T, y: T :: Before(cmp, x, y) || Before(cmp, y, x)) &&
    (forall x: T, y: T, z: T :: Before(cmp, x, y) && Before(cmp, y, z) ==> Before(cmp, x, z))
  }

  predicate Equal<T>(cmp: Comparator<T>, x: T, y: T) {
    Before(cmp, x, y) && Before(cmp, y, x)
  }

  predicate Sorted<T>(cmp: Comparator<T>, s: seq<T>) {
    forall i, j | 0 <= i < j < |s| :: Before(cmp, s[i], s[j])
  }

  /** The elements of `s` that compare equal to `x`, in their order. */
  function Class<T>(cmp: Comparator<T>, s: seq<T>, x: T): seq<T> {
    if s == [] then [] else (if Equal(cmp, s[0], x) then [s[0]] else []) + Class(cmp, s[1..], x)
  }

  /** `r` is `s` sorted, with equal elements in the order they have in `s`. */
  ghost predicate StableSortOf<T(!new)>(cmp: Comparator<T>, s: seq<T>, r: seq<T>) {
    Sorted(cmp, r) && forall x :: Class(cmp, r, x) == Class(cmp, s, x)
  }

  // ---- Equality classes ----

  lemma ClassStep<T>(cmp: Comparator<T>, s: seq<T>, x: T)
    requires s != []
    ensures Class(cmp, s, x) == if Equal(cmp, s[0], x) then [s[0]] + Class(cmp, s[1..], x) else Class(cmp, s[1..], x)
  {
  }

  lemma NoClass<T>(cmp: Comparator<T>, x: T)
    ensures Class(cmp, [], x) == []
  {
  }

  lemma {:induction false} ClassConcat<T>(cmp: Comparator<T>, s: seq<T>, t: seq<T>, x: T)
    ensures Class(cmp, s + t, x) == Class(cmp, s, x) + Class(cmp, t, x)
  {
    hide Equal, Class;
    if s == [] {
      assert s + t == t;
      NoClass(cmp, x);
    } else {
      assert (s + t)[1..] == s[1..] + t && (s + t)[0] == s[0];
      ClassConcat(cmp, s[1..], t, x);
      ClassStep(cmp, s + t, x);
      ClassStep(cmp, s, x);
      Regroup([s[0]], Class(cmp, s[1..], x), Class(cmp, t, x));
    }
  }

  lemma {:induction false} ClassMember<T(!new)>(cmp: Comparator<T>, s: seq<T>, x: T)
    requires TotalPreorder(cmp)
    ensures forall y | y in Class(cmp, s, x) :: y in s && Equal(cmp, y, x)
    ensures forall y | y in s && Equal(cmp, y, x) :: y in Class(cmp, s, x)
  {
    if s != [] {
      ClassMember(cmp, s[1..], x);
    }
  }

  /** Elements that all come strictly after `y` share no class with it. */
  lemma {:induction false} ClassAfter<T(!new)>(cmp: Comparator<T>, s: seq<T>, y: T, x: T)
    requires TotalPreorder(cmp) && Equal(cmp, y, x)
    requires forall i | 0 <= i < |s| :: !Before(cmp, s[i], y)
    ensures Class(cmp, s, x) == []
  {
    if s != [] {
      NotEqual(cmp, s[0], y, x);
      ClassAfter(cmp, s[1..], y, x);
    }
  }

  lemma NotEqual<T(!new)>(cmp: Comparator<T>, z: T, y: T, x: T)
    requires TotalPreorder(cmp) && Equal(cmp, y, x) && !Before(cmp, z, y)
    ensures !Equal(cmp, z, x)
  {
  }

  lemma {:induction false} ClassCount<T(!new)>(cmp: Comparator<T>, s: seq<T>, x: T)
    requires TotalPreorder(cmp)
    ensures multiset(Class(cmp, s, x))[x] == multiset(s)[x]
  {
    if s != [] {
      assert s == [s[0]] + s[1..];
      ClassCount(cmp, s[1..], x);
    }
  }

  /** A stable sort is a permutation. */
  lemma StableIsPermutation<T(!new)>(cmp: Comparator<T>, s: seq<T>, r: seq<T>)
    requires TotalPreorder(cmp) && StableSortOf(cmp, s, r)
    ensures multiset(r) == multiset(s)
  {
    forall x: T
      ensures multiset(r)[x] == multiset(s)[x]
    {
      ClassCount(cmp, r, x);
      ClassCount(cmp, s, x);
    }
  }

  /** There is only one. */
  lemma {:induction false} StableIsUnique<T(!new)>(cmp: Comparator<T>, s: seq<T>, a: seq<T>, b: seq<T>)
    requires TotalPreorder(cmp) && StableSortOf(cmp, s, a) && StableSortOf(cmp, s, b)
    ensures a == b
    decreases |a|
  {
    if a == [] {
      if b != [] { ClassNotEmpty(cmp, s, a, b); }
    } else {
      ClassNotEmpty(cmp, s, b, a);
      SameHead(cmp, s, a, b);
      forall x: T
        ensures Class(cmp, a[1..], x) == Class(cmp, b[1..], x)
      {
        SameTail(cmp, a, b, x);
      }
      StableIsUnique(cmp, a[1..], a[1..], b[1..]);
    }
  }

  lemma ClassNotEmpty<T(!new)>(cmp: Comparator<T>, s: seq<T>, a: seq<T>, b: seq<T>)
    requires TotalPreorder(cmp) && StableSortOf(cmp, s, a) && StableSortOf(cmp, s, b) && b != []
    ensures a != []
  {
    ClassMember(cmp, b, b[0]);
    ClassMember(cmp, a, b[0]);
    assert Class(cmp, a, b[0]) == Class(cmp, b, b[0]);
  }

  lemma SameHead<T(!new)>(cmp: Comparator<T>, s: seq<T>, a: seq<T>, b: seq<T>)
    requires TotalPreorder(cmp) && StableSortOf(cmp, s, a) && StableSortOf(cmp, s, b) && a != [] && b != []
    ensures a[0] == b[0]
  {
    HeadFirst(cmp, s, a, b);
    HeadFirst(cmp, s, b, a);
    assert Class(cmp, a, a[0])[0] == a[0] && Class(cmp, b, a[0])[0] == b[0];
  }

  lemma HeadFirst<T(!new)>(cmp: Comparator<T>, s: seq<T>, a: seq<T>, b: seq<T>)
    requires TotalPreorder(cmp) && StableSortOf(cmp, s, a) && StableSortOf(cmp, s, b) && a != [] && b != []
    ensures Before(cmp, a[0], b[0])
  {
    ClassMember(cmp, b, b[0]);
    ClassMember(cmp, a, b[0]);
    assert b[0] in Class(cmp, b, b[0]) && Class(cmp, a, b[0]) == Class(cmp, b, b[0]);
    var i :| 0 <= i < |a| && a[i] == b[0];
    assert i > 0 ==> Before(cmp, a[0], a[i]);
  }

  lemma SameTail<T>(cmp: Comparator<T>, a: seq<T>, b: seq<T>, x: T)
    requires a != [] && b != [] && a[0] == b[0] && Class(cmp, a, x) == Class(cmp, b, x)
    ensures Class(cmp, a[1..], x) == Class(cmp, b[1..], x)
  {
    var h := if Equal(cmp, a[0], x) then [a[0]] else [];
    assert Class(cmp, a, x)[|h|..] == Class(cmp, a[1..], x);
    assert Class(cmp, b, x)[|h|..] == Class(cmp, b[1..], x);
  }

  // ---- Insertion ----

  /** An element put after the last element of the sorted prefix that does not come after it. */
  lemma InsertStable<T(!new)>(cmp: Comparator<T>, s: seq<T>, p: seq<T>, r: nat, x: T)
    requires TotalPreorder(cmp) && StableSortOf(cmp, s, p) && r <= |p|
    requires r > 0 ==> Before(cmp, p[r - 1], x)
    requires forall k | r <= k < |p| :: !Before(cmp, p[k], x)
    ensures StableSortOf(cmp, s + [x], p[..r] + [x] + p[r..])
  {
    var q := p[..r] + [x] + p[r..];
    forall k | 0 <= k < r
      ensures Before(cmp, p[k], x)
    {
      assert Before(cmp, p[k], p[r - 1]);
    }
    forall k | r <= k < |p|
      ensures Before(cmp, x, p[k])
    {
    }
    InsertSorted(cmp, p, r, x);
    forall y: T
      ensures Class(cmp, q, y) == Class(cmp, s + [x], y)
    {
      InsertClass(cmp, p, r, x, y);
      ClassConcat(cmp, s, [x], y);
    }
  }

  lemma InsertSorted<T>(cmp: Comparator<T>, p: seq<T>, r: nat, x: T)
    requires r <= |p| && Sorted(cmp, p)
    requires forall k | 0 <= k < r :: Before(cmp, p[k], x)
    requires forall k | r <= k < |p| :: Before(cmp, x, p[k])
    ensures Sorted(cmp, p[..r] + [x] + p[r..])
  {
  }

  lemma InsertClass<T(!new)>(cmp: Comparator<T>, p: seq<T>, r: nat, x: T, y: T)
    requires TotalPreorder(cmp) && r <= |p| && forall k | r <= k < |p| :: !Before(cmp, p[k], x)
    ensures Class(cmp, p[..r] + [x] + p[r..], y) == Class(cmp, p, y) + Class(cmp, [x], y)
  {
    hide Class;
    assert p == p[..r] + p[r..];
    ClassConcat(cmp, p[..r], p[r..], y);
    ClassConcat(cmp, p[..r] + [x], p[r..], y);
    ClassConcat(cmp, p[..r], [x], y);
    if Equal(cmp, x, y) {
      ClassAfter(cmp, p[r..], x, y);
    } else {
      NotInClass(cmp, x, y);
    }
  }

  lemma NotInClass<T>(cmp: Comparator<T>, x: T, y: T)
    requires !Equal(cmp, x, y)
    ensures Class(cmp, [x], y) == []
  {
  }

  method InsertionSort<T(!new)>(a: array<T>, cmp: Comparator<T>)
    requires TotalPreorder(cmp)
    modifies a
    ensures StableSortOf(cmp, old(a[..]), a[..])
  {
    hide TotalPreorder, StableSortOf, Class;
    if a.Length == 0 {
      NothingToSort(cmp, a[..]);
      return;
    }
    NothingToSort(cmp, a[..1]);
    var o := 1;
    while o < a.Length
      invariant 1 <= o <= a.Length
      invariant StableSortOf(cmp, old(a[..o]), a[..o])
      invariant a[o..] == old(a[o..])
    {
      ghost var p, x := a[..o], a[o];
      ghost var r := InsertAt(a, o, cmp);
      InsertStable(cmp, old(a[..o]), p, r, x);
      assert old(a[..o + 1]) == old(a[..o]) + [x];
      assert a[o + 1..] == old(a[o..])[1..];
      assert a[..o + 1] == p[..r] + [x] + p[r..];
      o := o + 1;
    }
    assert a[..o] == a[..] && old(a[..o]) == old(a[..]);
  }

  /** Moves `a[o]` down past the elements that come after it. */
  method InsertAt<T(!new)>(a: array<T>, o: nat, cmp: Comparator<T>) returns (ghost r: nat)
    requires 0 < o < a.Length
    modifies a
    ensures r <= o && a[..o + 1] == old(a[..r]) + [old(a[o])] + old(a[r..o]) && a[o + 1..] == old(a[o + 1..])
    ensures r > 0 ==> Before(cmp, old(a[r - 1]), old(a[o]))
    ensures forall k | r <= k < o :: !Before(cmp, old(a[k]), old(a[o]))
  {
    hide Shifted;
    var i, x := o, a[o];
    ghost var q := a[..];
    StartShift(q, o);
    while i > 0 && cmp(a[i - 1], x) > 0
      invariant 0 <= i <= o && a.Length == |q| && Shifted(q, a[..], i, o) && (i == o ==> a[o] == x)
      invariant forall k | i <= k < o :: !Before(cmp, q[k], x)
    {
      ShiftDown(q, a[..], i, o);
      a[i] := a[i - 1];
      i := i - 1;
    }
    PutBack(q, a[..], i, o, x);
    if i != o {
      a[i] := x;
    }
    r := i;
    ShiftedOut(q, a[..], r, o);
    assert a[..o + 1] == a[..][..o + 1] && a[o + 1..] == a[..][o + 1..];
  }

  /** `s` is `q` with the elements from `r` up to `o` moved one place up. */
  ghost predicate Shifted<T>(q: seq<T>, s: seq<T>, r: nat, o: nat) {
    r <= o < |q| && |s| == |q| &&
    (forall k | 0 <= k < |q| && (k < r || k > o) :: s[k] == q[k]) &&
    (forall k | r < k <= o :: s[k] == q[k - 1])
  }

  lemma StartShift<T>(q: seq<T>, o: nat)
    requires o < |q|
    ensures Shifted(q, q, o, o)
  {
  }

  lemma ShiftDown<T>(q: seq<T>, s: seq<T>, r: nat, o: nat)
    requires Shifted(q, s, r, o) && r > 0
    ensures s[r - 1] == q[r - 1] && Shifted(q, s[r := s[r - 1]], r - 1, o)
  {
  }

  lemma PutBack<T>(q: seq<T>, s: seq<T>, r: nat, o: nat, x: T)
    requires Shifted(q, s, r, o)
    ensures Shifted(q, s[r := x], r, o) && (r > 0 ==> s[r - 1] == q[r - 1])
  {
  }

  lemma ShiftedOut<T>(q: seq<T>, s: seq<T>, r: nat, o: nat)
    requires Shifted(q, s, r, o)
    ensures s[..r] == q[..r] && s[r + 1..o + 1] == q[r..o] && s[o + 1..] == q[o + 1..]
    ensures s[..o + 1] == q[..r] + [s[r]] + q[r..o]
  {
  }

  lemma NothingToSort<T(!new)>(cmp: Comparator<T>, s: seq<T>)
    requires |s| <= 1
    ensures StableSortOf(cmp, s, s)
  {
  }

  // ---- Merging ----

  function Merge<T>(cmp: Comparator<T>, l: seq<T>, r: seq<T>): (m: seq<T>)
    ensures |m| == |l| + |r|
    decreases |l| + |r|
  {
    if l == [] then r
    else if r == [] then l
    else if Before(cmp, l[0], r[0]) then [l[0]] + Merge(cmp, l[1..], r)
    else [r[0]] + Merge(cmp, l, r[1..])
  }

  lemma {:induction false} MergeClass<T(!new)>(cmp: Comparator<T>, l: seq<T>, r: seq<T>, x: T)
    requires TotalPreorder(cmp) && Sorted(cmp, l)
    ensures Class(cmp, Merge(cmp, l, r), x) == Class(cmp, l, x) + Class(cmp, r, x)
    decreases |l| + |r|
  {
    hide Class, Equal, TotalPreorder;
    if l == [] || r == [] {
      NoClass(cmp, x);
    } else if Before(cmp, l[0], r[0]) {
      MergeClass(cmp, l[1..], r, x);
      ClassConcat(cmp, [l[0]], Merge(cmp, l[1..], r), x);
      ClassConcat(cmp, [l[0]], l[1..], x);
      assert l == [l[0]] + l[1..];
    } else {
      MergeClass(cmp, l, r[1..], x);
      ClassConcat(cmp, [r[0]], Merge(cmp, l, r[1..]), x);
      ClassConcat(cmp, [r[0]], r[1..], x);
      assert r == [r[0]] + r[1..];
      if Equal(cmp, r[0], x) {
        AllAfter(cmp, l, r[0]);
        ClassAfter(cmp, l, r[0], x);
      } else {
        NotInClass(cmp, r[0], x);
      }
    }
  }

  lemma AllAfter<T(!new)>(cmp: Comparator<T>, l: seq<T>, y: T)
    requires TotalPreorder(cmp) && Sorted(cmp, l) && l != [] && !Before(cmp, l[0], y)
    ensures forall i | 0 <= i < |l| :: !Before(cmp, l[i], y)
  {
    forall i | 0 <= i < |l|
      ensures !Before(cmp, l[i], y)
    {
      assert i > 0 ==> Before(cmp, l[0], l[i]);
    }
  }

  lemma {:induction false} MergeMember<T>(cmp: Comparator<T>, l: seq<T>, r: seq<T>)
    ensures forall y | y in Merge(cmp, l, r) :: y in l || y in r
    decreases |l| + |r|
  {
    if l == [] || r == [] {
    } else if Before(cmp, l[0], r[0]) {
      MergeMember(cmp, l[1..], r);
    } else {
      MergeMember(cmp, l, r[1..]);
    }
  }

  lemma {:induction false} MergeSorted<T(!new)>(cmp: Comparator<T>, l: seq<T>, r: seq<T>)
    requires TotalPreorder(cmp) && Sorted(cmp, l) && Sorted(cmp, r)
    ensures Sorted(cmp, Merge(cmp, l, r))
    decreases |l| + |r|
  {
    if l == [] || r == [] {
    } else if Before(cmp, l[0], r[0]) {
      MergeSorted(cmp, l[1..], r);
      MergeMember(cmp, l[1..], r);
      HeadBelow(cmp, l[0], l[1..], r, Merge(cmp, l[1..], r));
    } else {
      MergeSorted(cmp, l, r[1..]);
      MergeMember(cmp, l, r[1..]);
      HeadBelow(cmp, r[0], r[1..], l, Merge(cmp, l, r[1..]));
    }
  }

  /** A head that comes before its own tail and before the head of the other run can go first. */
  lemma HeadBelow<T(!new)>(cmp: Comparator<T>, h: T, own: seq<T>, other: seq<T>, m: seq<T>)
    requires TotalPreorder(cmp) && Sorted(cmp, [h] + own) && Sorted(cmp, other) && Sorted(cmp, m)
    requires other != [] && Before(cmp, h, other[0])
    requires forall y | y in m :: y in own || y in other
    ensures Sorted(cmp, [h] + m)
  {
    forall y | y in m
      ensures Before(cmp, h, y)
    {
      if y in own {
        var i :| 0 <= i < |own| && own[i] == y;
        assert Before(cmp, ([h] + own)[0], ([h] + own)[i + 1]);
      } else {
        var i :| 0 <= i < |other| && other[i] == y;
        assert i > 0 ==> Before(cmp, other[0], other[i]);
      }
    }
  }

  /** Merging stable sorts of two parts is a stable sort of the whole. */
  lemma MergeStable<T(!new)>(cmp: Comparator<T>, s: seq<T>, t: seq<T>, l: seq<T>, r: seq<T>)
    requires TotalPreorder(cmp) && StableSortOf(cmp, s, l) && StableSortOf(cmp, t, r)
    ensures StableSortOf(cmp, s + t, Merge(cmp, l, r))
  {
    MergeSorted(cmp, l, r);
    forall x: T
      ensures Class(cmp, Merge(cmp, l, r), x) == Class(cmp, s + t, x)
    {
      MergeClass(cmp, l, r, x);
      ClassConcat(cmp, s, t, x);
    }
  }

  method MergeInto<T>(a: array<T>, l: array<T>, r: array<T>, cmp: Comparator<T>)
    requires a.Length == l.Length + r.Length && a != l && a != r
    modifies a
    ensures a[..] == Merge(cmp, l[..], r[..])
  {
    hide Merge;
    var u, s := 0, 0;
    ghost var m := Merge(cmp, l[..], r[..]);
    assert l[0..] == l[..] && r[0..] == r[..];
    while u < l.Length || s < r.Length
      invariant 0 <= u <= l.Length && 0 <= s <= r.Length
      invariant a[..u + s] + Merge(cmp, l[u..], r[s..]) == m
      decreases l.Length + r.Length - u - s
    {
      MergeNext(cmp, l[u..], r[s..]);
      ghost var done := a[..u + s];
      if u < l.Length && s < r.Length {
        if cmp(l[u], r[s]) <= 0 {
          a[u + s] := l[u];
          u := u + 1;
          assert l[u - 1..][1..] == l[u..];
        } else {
          a[u + s] := r[s];
          s := s + 1;
          assert r[s - 1..][1..] == r[s..];
        }
      } else if u < l.Length {
        a[u + s] := l[u];
        u := u + 1;
        assert l[u - 1..][1..] == l[u..];
      } else {
        a[u + s] := r[s];
        s := s + 1;
        assert r[s - 1..][1..] == r[s..];
      }
      Regroup(done, [a[u + s - 1]], Merge(cmp, l[u..], r[s..]));
      assert a[..u + s] == done + [a[u + s - 1]];
    }
    MergedAll(cmp, l[u..], r[s..]);
    assert a[..u + s] == a[..];
  }

  lemma MergedAll<T>(cmp: Comparator<T>, l: seq<T>, r: seq<T>)
    requires l == [] && r == []
    ensures Merge(cmp, l, r) == []
  {
  }

  lemma MergeNext<T>(cmp: Comparator<T>, l: seq<T>, r: seq<T>)
    ensures l != [] && (r == [] || Before(cmp, l[0], r[0])) ==> Merge(cmp, l, r) == [l[0]] + Merge(cmp, l[1..], r)
    ensures r != [] && (l == [] || !Before(cmp, l[0], r[0])) ==> Merge(cmp, l, r) == [r[0]] + Merge(cmp, l, r[1..])
  {
  }

  // ---- The sort ----

  method Sort<T(!new)>(a: array<T>, cmp: Comparator<T>)
    requires TotalPreorder(cmp)
    modifies a
    ensures StableSortOf(cmp, old(a[..]), a[..]) && multiset(a[..]) == multiset(old(a[..]))
    decreases a.Length
  {
    hide TotalPreorder, StableSortOf;
    var half := a.Length / 2;
    if a.Length < 8 {
      InsertionSort(a, cmp);
    } else {
      var l := new T[half](i requires 0 <= i < half <= a.Length reads a => a[i]);
      var r := new T[a.Length - half](i requires 0 <= i < a.Length - half reads a => a[half + i]);
      assert l[..] == old(a[..half]) && r[..] == old(a[half..]);
      Sort(l, cmp);
      Sort(r, cmp);
      MergeInto(a, l, r, cmp);
      MergeStable(cmp, old(a[..half]), old(a[half..]), l[..], r[..]);
      assert old(a[..half]) + old(a[half..]) == old(a[..]);
    }
    StableIsPermutation(cmp, old(a[..]), a[..]);
  }
}
