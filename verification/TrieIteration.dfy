/** Iterating a reachable trie yields each binding of the finite map exactly once. */
module TrieIteration {
  import opened Options
  import opened TrieBits
  import opened HashTrie
  import opened TrieMap

  /** The entries in iteration order. */
  function Entries<K, V>(n: Node<K, V>): seq<(K, V)>
    decreases n, 0
  {
    match n
    case ArrayMap(es) => es
    case Collision(_, es) => es
    case Leaf(_, e) => [e]
    case Bitmap(_, nodes) => EntriesUpTo(n, |nodes|)
    case HashArray(_, slots) => EntriesUpTo(n, |slots|)
  }

  /** The child visited at step `i`. */
  function Visited<K, V>(n: Node<K, V>, i: nat): (c: Option<Node<K, V>>)
    requires n.IsInner() && i < Width(n)
    ensures c.Some? ==> c.value < n
  {
    if n.Bitmap? then Some(n.nodes[i]) else n.slots[i]
  }

  function Width<K, V>(n: Node<K, V>): nat
    requires n.IsInner()
  {
    if n.Bitmap? then |n.nodes| else |n.slots|
  }

  function EntriesUpTo<K, V>(n: Node<K, V>, i: nat): seq<(K, V)>
    requires n.IsInner() && i <= Width(n)
    decreases n, 0, i
  {
    if i == 0 then []
    else EntriesUpTo(n, i - 1) + match Visited(n, i - 1) case None => [] case Some(c) => Entries(c)
  }

  /** The slot of the child visited at step `i`; later steps have higher slots. */
  lemma VisitedSlot<K, V>(n: Node<K, V>, i: nat) returns (s: nat)
    requires Shape(n) && i < Width(n)
    ensures s < 32 && ChildAt(n, s) == Visited(n, i)
    ensures n.Bitmap? ==> Has(n.bitmap, s) && Below(n.bitmap, s) == i
    ensures n.HashArray? ==> s == i
  {
    if n.Bitmap? {
      Masks();
      BelowAll(n.bitmap, 32);
      s := SlotOf(n.bitmap, 32, i);
    } else {
      s := i;
    }
  }

  /** An entry of a valid node lies on the node's path, and a lookup of its key finds it. */
  lemma {:induction false} EntriesSound<K(!new), V(!new)>(h: K -> Hash, n: Node<K, V>, shift: nat, prefix: nat, e: (K, V))
    requires Valid(h, n, shift, prefix) && e in Entries(n)
    ensures Low(h(e.0), shift) == prefix && Get(h, n, shift, e.0) == Some(e.1)
    decreases n, 1, 0
  {
    hide Low, Slot, Pow2, PopCount, At, Below, Has;
    if n.Collision? {
      var i :| 0 <= i < |n.entries| && n.entries[i] == e;
      FindIs(n.entries, e.0, i);
    } else if n.IsInner() {
      var i := StepOf(n, Width(n), e);
      var s := VisitedSlot(n, i);
      var c := Visited(n, i).value;
      EntriesSound(h, c, shift + 5, Extend(prefix, s, shift), e);
      SlotKnown(h(e.0), shift, prefix, s);
    }
  }

  lemma SlotKnown(x: Hash, shift: nat, prefix: nat, s: nat)
    requires prefix < Pow2(shift) && Low(x, shift + 5) == Extend(prefix, s, shift)
    ensures Low(x, shift) == prefix && Slot(x, shift) == s
  {
    LowStep(x, shift);
    LowBound(x, shift);
    ExtendInjective(Low(x, shift), Slot(x, shift), prefix, s, shift);
  }

  lemma {:induction false} StepOf<K, V>(n: Node<K, V>, i: nat, e: (K, V)) returns (j: nat)
    requires n.IsInner() && i <= Width(n) && e in EntriesUpTo(n, i)
    ensures j < i && Visited(n, j).Some? && e in Entries(Visited(n, j).value)
    decreases i
  {
    if e in EntriesUpTo(n, i - 1) {
      j := StepOf(n, i - 1, e);
    } else {
      j := i - 1;
    }
  }

  lemma {:induction false} StepIn<K, V>(n: Node<K, V>, i: nat, j: nat, e: (K, V))
    requires n.IsInner() && j < i <= Width(n) && Visited(n, j).Some? && e in Entries(Visited(n, j).value)
    ensures e in EntriesUpTo(n, i)
    decreases i
  {
    if j < i - 1 {
      StepIn(n, i - 1, j, e);
    }
  }

  lemma {:induction false} EntriesComplete<K(!new), V(!new)>(h: K -> Hash, n: Node<K, V>, shift: nat, k: K, v: V)
    requires Valid(h, n, shift, Low(h(k), shift)) && Get(h, n, shift, k) == Some(v)
    ensures (k, v) in Entries(n)
    decreases n
  {
    hide Low, Slot, Pow2, PopCount, At, Below, Has;
    if n.IsInner() {
      OnPath(h, n, shift, k);
      var s := Slot(h(k), shift);
      var c := ChildAt(n, s).value;
      EntriesComplete(h, c, shift + 5, k, v);
      var j := StepAt(n, s);
      StepIn(n, Width(n), j, (k, v));
    }
  }

  lemma StepAt<K, V>(n: Node<K, V>, s: nat) returns (j: nat)
    requires Shape(n) && s < 32 && ChildAt(n, s).Some?
    ensures j < Width(n) && Visited(n, j) == ChildAt(n, s)
  {
    if n.Bitmap? {
      BelowInRange(n.bitmap, s);
      j := Below(n.bitmap, s);
    } else {
      j := s;
    }
  }

  lemma {:induction false} EntriesDistinct<K(!new), V(!new)>(h: K -> Hash, n: Node<K, V>, shift: nat, prefix: nat)
    requires Valid(h, n, shift, prefix)
    ensures Distinct(Entries(n))
    decreases n, 0
  {
    if n.IsInner() {
      UpToDistinct(h, n, shift, prefix, Width(n));
    }
  }

  lemma {:induction false} UpToDistinct<K(!new), V(!new)>(h: K -> Hash, n: Node<K, V>, shift: nat, prefix: nat, i: nat)
    requires n.IsInner() && Valid(h, n, shift, prefix) && i <= Width(n)
    ensures Distinct(EntriesUpTo(n, i))
    decreases n, 0, i
  {
    hide Low, Slot, Pow2, PopCount, At, Below, Has, Get, Extend;
    if i > 0 {
      UpToDistinct(h, n, shift, prefix, i - 1);
      if Visited(n, i - 1).Some? {
        var c := Visited(n, i - 1).value;
        var s := VisitedSlot(n, i - 1);
        EntriesDistinct(h, c, shift + 5, Extend(prefix, s, shift));
        var xs, ys := EntriesUpTo(n, i - 1), Entries(c);
        forall a, b | a in xs && b in ys ensures a.0 != b.0 {
          Apart(h, n, shift, prefix, i - 1, a, b);
        }
        JoinDistinct(xs, ys);
      }
    }
  }

  /** Entries of earlier children have other slots, so other keys. */
  lemma Apart<K(!new), V(!new)>(h: K -> Hash, n: Node<K, V>, shift: nat, prefix: nat, i: nat, a: (K, V), b: (K, V))
    requires n.IsInner() && Valid(h, n, shift, prefix) && i < Width(n) && Visited(n, i).Some?
    requires a in EntriesUpTo(n, i) && b in Entries(Visited(n, i).value)
    ensures a.0 != b.0
  {
    hide Low, Slot, Pow2, PopCount, At, Below, Has, Get;
    var j := StepOf(n, i, a);
    var s := VisitedSlot(n, j);
    var t := VisitedSlot(n, i);
    EntriesSound(h, Visited(n, j).value, shift + 5, Extend(prefix, s, shift), a);
    EntriesSound(h, Visited(n, i).value, shift + 5, Extend(prefix, t, shift), b);
    SlotKnown(h(a.0), shift, prefix, s);
    SlotKnown(h(b.0), shift, prefix, t);
  }

  lemma JoinDistinct<K, V>(xs: seq<(K, V)>, ys: seq<(K, V)>)
    requires Distinct(xs) && Distinct(ys) && forall a, b | a in xs && b in ys :: a.0 != b.0
    ensures Distinct(xs + ys)
  {
    var zs := xs + ys;
    forall i, j | 0 <= i < j < |zs| ensures zs[i].0 != zs[j].0 {
      if i < |xs| <= j {
        assert zs[i] in xs && zs[j] in ys;
      }
    }
  }

  /** The iteration of a map object. */
  function Iterate<K, V>(t: Trie<K, V>): seq<(K, V)> {
    if t.root.Some? then Entries(t.root.value) else []
  }

  lemma {:induction false} CountKeys<K, V>(es: seq<(K, V)>, m: map<K, V>)
    requires Distinct(es)
    requires forall k :: k in m <==> exists i :: 0 <= i < |es| && es[i].0 == k
    ensures |es| == |m|
  {
    if es == [] {
      forall k ensures k !in m {}
      assert m == map[];
    } else {
      var n := |es| - 1;
      var k0 := es[n].0;
      assert k0 in m;
      var m' := m - {k0};
      forall k ensures k in m' <==> exists i :: 0 <= i < n && es[..n][i].0 == k {
        if k in m' {
          var i :| 0 <= i < |es| && es[i].0 == k;
          assert i < n && es[..n][i].0 == k;
        }
      }
      CountKeys(es[..n], m');
      assert m'.Keys == m.Keys - {k0};
    }
  }

  lemma RootEntries<K(!new), V(!new)>(h: K -> Hash, n: Node<K, V>, k: K, v: V)
    requires ValidRoot(h, n)
    ensures (k, v) in Entries(n) <==> RootGet(h, n, k) == Some(v)
  {
    LowZero(h);
    if n.ArrayMap? {
      if (k, v) in n.entries {
        var i :| 0 <= i < |n.entries| && n.entries[i] == (k, v);
        FindIs(n.entries, k, i);
      }
    } else {
      if (k, v) in Entries(n) { EntriesSound(h, n, 0, 0, (k, v)); }
      if Get(h, n, 0, k) == Some(v) { EntriesComplete(h, n, 0, k, v); }
    }
  }

  /** After every history, iteration visits exactly the bindings of the finite map, each once. */
  lemma IterateHistory<K(!new), V(!new)>(h: K -> Hash, ops: seq<Op<K, V>>)
    ensures var t, m := Run(h, Trie(EMPTY_SIZE, None), ops), RunMap(map[], ops);
            && Distinct(Iterate(t)) && |Iterate(t)| == |m| == t.size
            && forall k, v :: (k, v) in Iterate(t) <==> MapGet(m, k) == Some(v)
  {
    EveryHistory(h, ops);
    var t, m := Run(h, Trie(EMPTY_SIZE, None), ops), RunMap(map[], ops);
    LowZero(h);
    forall k, v ensures (k, v) in Iterate(t) <==> MapGet(m, k) == Some(v) {
      assert GetKey(h, t, k) == MapGet(m, k);
      if t.root.Some? { RootEntries(h, t.root.value, k, v); }
    }
    if t.root.Some? && !t.root.value.ArrayMap? {
      EntriesDistinct(h, t.root.value, 0, 0);
    }
    KeysOf(Iterate(t), m);
    CountKeys(Iterate(t), m);
  }

  lemma KeysOf<K, V>(es: seq<(K, V)>, m: map<K, V>)
    requires forall k, v :: (k, v) in es <==> MapGet(m, k) == Some(v)
    ensures forall k :: k in m <==> exists i :: 0 <= i < |es| && es[i].0 == k
  {
    forall k ensures k in m <==> exists i :: 0 <= i < |es| && es[i].0 == k {
      if k in m {
        assert (k, m[k]) in es;
      }
      if i :| 0 <= i < |es| && es[i].0 == k {
        assert (k, es[i].1) in es;
      }
    }
  }
}
