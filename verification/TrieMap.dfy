/**
  * The immutable map object over the hash trie: get, set and remove, and the proof that every
  * history of them behaves as a plain finite map.
  */
module TrieMap {
  import opened Options
  import opened TrieBits
  import opened HashTrie

  /** The map object: its `size` field and its root. */
  datatype Trie<K, V> = Trie(size: int, root: Option<Node<K, V>>)

  const EMPTY_SIZE: int := 0

  /** One call of `set` (a value) or `remove` (no value). */
  datatype Op<K, V> = Op(key: K, value: Option<V>)

  // ---- Model ----

  /** Rebuild a full small array as a trie, starting from a leaf for the new entry. */
  function CreateNodes<K(==,!new), V(==,!new)>(h: K -> Hash, es: seq<(K, V)>, k: K, v: V): (r: Node<K, V>)
    requires Distinct(es) && Find(es, k) == |es|
    ensures Valid(h, r, 0, 0)
    ensures forall k' :: Low(h(k'), 0) == 0 && Get(h, r, 0, k') == if k' == k then Some(v) else Lookup(es, k')
    decreases |es|
  {
    LowZero(h);
    if es == [] then Leaf(h(k), (k, v))
    else
      var n := |es| - 1;
      Prefix(es, k);
      var r := CreateNodes(h, es[..n], k, v);
      AppendOne(h, es, k, v, r);
      Update(h, r, 0, es[n].0, Some(es[n].1)).node.value
  }

  function UpdateRoot<K(==,!new), V(==,!new)>(h: K -> Hash, n: Node<K, V>, k: K, op: Option<V>): Change<K, V>
    requires ValidRoot(h, n)
  {
    if n.ArrayMap? then
      var es := n.entries;
      if Lookup(es, k) == op then Unaltered(Some(n))
      else if op.None? && |es| == 1 then Change(None, true, true)
      else if op.Some? && Find(es, k) == |es| && |es| >= MAX_ARRAY_MAP then
        Change(Some(CreateNodes(h, es, k, op.value)), true, true)
      else Change(Some(ArrayMap(Edit(es, k, op))), op.None? || Find(es, k) == |es|, true)
    else LowZero(h); Update(h, n, 0, k, op)
  }

  function Apply<K(==,!new), V(==,!new)>(h: K -> Hash, t: Trie<K, V>, op: Op<K, V>): Trie<K, V>
    requires t.root.Some? ==> ValidRoot(h, t.root.value)
  {
    match t.root
    case None =>
      if op.value.None? then t else Trie(1, Some(ArrayMap([(op.key, op.value.value)])))
    case Some(n) =>
      var r := UpdateRoot(h, n, op.key, op.value);
      if !r.altered then t
      else if r.node.None? then Trie(EMPTY_SIZE, None)
      else Trie(t.size + if !r.resized then 0 else if op.value.None? then -1 else 1, r.node)
  }

  function GetKey<K(==,!new), V(!new)>(h: K -> Hash, t: Trie<K, V>, k: K): Option<V>
    requires t.root.Some? ==> ValidRoot(h, t.root.value)
  {
    match t.root
    case None => None
    case Some(n) => RootGet(h, n, k)
  }

  function RootGet<K(==,!new), V(!new)>(h: K -> Hash, n: Node<K, V>, k: K): Option<V>
    requires ValidRoot(h, n)
  {
    if n.ArrayMap? then Lookup(n.entries, k) else LowZero(h); Get(h, n, 0, k)
  }

  ghost predicate ValidRoot<K(!new), V(!new)>(h: K -> Hash, n: Node<K, V>) {
    if n.ArrayMap? then 1 <= |n.entries| <= MAX_ARRAY_MAP && Distinct(n.entries) else Valid(h, n, 0, 0)
  }

  // ---- The reference: a finite map ----

  function ApplyMap<K, V>(m: map<K, V>, op: Op<K, V>): map<K, V> {
    if op.value.Some? then m[op.key := op.value.value] else m - {op.key}
  }

  function MapGet<K, V>(m: map<K, V>, k: K): Option<V> {
    if k in m then Some(m[k]) else None
  }

  function Run<K(==,!new), V(==,!new)>(h: K -> Hash, t: Trie<K, V>, ops: seq<Op<K, V>>): (r: Trie<K, V>)
    requires t.root.Some? ==> ValidRoot(h, t.root.value)
    ensures r.root.Some? ==> ValidRoot(h, r.root.value)
  {
    if ops == [] then t
    else
      var n := |ops| - 1;
      var r := Run(h, t, ops[..n]);
      ApplyValid(h, r, ops[n]);
      Apply(h, r, ops[n])
  }

  function RunMap<K, V>(m: map<K, V>, ops: seq<Op<K, V>>): map<K, V> {
    if ops == [] then m else ApplyMap(RunMap(m, ops[..|ops| - 1]), ops[|ops| - 1])
  }

  /** The trie holds exactly the bindings of `m`, and its size is their number. */
  ghost predicate Agrees<K(!new), V(!new)>(h: K -> Hash, t: Trie<K, V>, m: map<K, V>) {
    && (t.root.Some? ==> ValidRoot(h, t.root.value))
    && t.size == |m|
    && forall k :: GetKey(h, t, k) == MapGet(m, k)
  }

  // ---- Proofs ----

  lemma LowZero<K(!new)>(h: K -> Hash)
    ensures forall k :: Low(h(k), 0) == 0
  {
    assert Pow2(0) == 1;
  }

  lemma Prefix<K, V>(es: seq<(K, V)>, k: K)
    requires es != [] && Distinct(es) && Find(es, k) == |es|
    ensures Distinct(es[..|es| - 1]) && Find(es[..|es| - 1], k) == |es| - 1
    ensures es[|es| - 1].0 != k
  {
  }

  lemma LookupLast<K, V>(es: seq<(K, V)>, k: K)
    requires es != [] && Distinct(es)
    ensures var n := |es| - 1; Lookup(es, k) == if k == es[n].0 then Some(es[n].1) else Lookup(es[..n], k)
  {
    var n := |es| - 1;
    if k == es[n].0 {
      FindIs(es, k, n);
    } else if Find(es, k) < |es| {
      FindIs(es[..n], k, Find(es, k));
    }
  }

  lemma AppendOne<K(!new), V(!new)>(h: K -> Hash, es: seq<(K, V)>, k: K, v: V, r: Node<K, V>)
    requires es != [] && Distinct(es) && es[|es| - 1].0 != k
    requires Valid(h, r, 0, 0) && forall k' :: Low(h(k'), 0) == 0
    requires forall k' :: Get(h, r, 0, k') == if k' == k then Some(v) else Lookup(es[..|es| - 1], k')
    ensures var u := Update(h, r, 0, es[|es| - 1].0, Some(es[|es| - 1].1));
            && u.node.Some? && Valid(h, u.node.value, 0, 0)
            && forall k' :: Get(h, u.node.value, 0, k') == if k' == k then Some(v) else Lookup(es, k')
  {
    var e := es[|es| - 1];
    var u := Update(h, r, 0, e.0, Some(e.1));
    UpdateCorrect(h, r, 0, e.0, Some(e.1), e.0);
    forall k' ensures Get(h, u.node.value, 0, k') == if k' == k then Some(v) else Lookup(es, k') {
      UpdateCorrect(h, r, 0, e.0, Some(e.1), k');
      LookupLast(es, k');
    }
  }

  /** What an update of a root promises about key `k'`. */
  ghost predicate RootUpdated<K(!new), V(!new)>(
      h: K -> Hash, n: Node<K, V>, k: K, op: Option<V>, r: Change<K, V>, k': K)
    requires ValidRoot(h, n)
  {
    && (r.node.Some? ==> ValidRoot(h, r.node.value))
    && (r.altered <==> RootGet(h, n, k) != op)
    && (r.resized <==> RootGet(h, n, k).Some? != op.Some?)
    && (if r.node.Some? then RootGet(h, r.node.value, k') else None) == if k' == k then op else RootGet(h, n, k')
  }

  lemma RootUpdate<K(!new), V(!new)>(h: K -> Hash, n: Node<K, V>, k: K, op: Option<V>, k': K)
    requires ValidRoot(h, n)
    ensures RootUpdated(h, n, k, op, UpdateRoot(h, n, k, op), k')
  {
    LowZero(h);
    if !n.ArrayMap? {
      hide Update, Get;
      UpdateCorrect(h, n, 0, k, op, k');
      var r := Update(h, n, 0, k, op);
      assert r.node.Some? ==> !r.node.value.ArrayMap?;
    } else if Lookup(n.entries, k) != op {
      ArrayMapUpdate(h, n, k, op, k');
    }
  }

  lemma ArrayMapUpdate<K(!new), V(!new)>(h: K -> Hash, n: Node<K, V>, k: K, op: Option<V>, k': K)
    requires ValidRoot(h, n) && n.ArrayMap? && Lookup(n.entries, k) != op
    ensures RootUpdated(h, n, k, op, UpdateRoot(h, n, k, op), k')
  {
    hide Edit, Find, Valid, Get;
    EditLookup(n.entries, k, op, k');
    EditDistinct(n.entries, k, op);
    EditGrowth(n.entries, k, op);
    if op.None? && |n.entries| == 1 {
      LookupAbsent(Edit(n.entries, k, op), k');
    }
  }

  lemma EditGrowth<K, V>(es: seq<(K, V)>, k: K, op: Option<V>)
    requires Find(es, k) < |es| || op.Some?
    ensures |Edit(es, k, op)| == |es| + if Find(es, k) == |es| then 1 else if op.None? then -1 else 0
  {
  }

  lemma ApplyValid<K(!new), V(!new)>(h: K -> Hash, t: Trie<K, V>, op: Op<K, V>)
    requires t.root.Some? ==> ValidRoot(h, t.root.value)
    ensures Apply(h, t, op).root.Some? ==> ValidRoot(h, Apply(h, t, op).root.value)
  {
    if t.root.Some? {
      RootUpdate(h, t.root.value, op.key, op.value, op.key);
    }
  }

  lemma MapSize<K, V>(m: map<K, V>, op: Op<K, V>)
    ensures |ApplyMap(m, op)| == |m| + if (op.key in m) == op.value.Some? then 0 else if op.value.None? then -1 else 1
  {
    var m' := ApplyMap(m, op);
    if op.value.Some? {
      assert m'.Keys == m.Keys + {op.key};
    } else {
      assert m'.Keys == m.Keys - {op.key};
    }
  }

  /** One call changes the trie as it changes the finite map. */
  lemma ApplyAgrees<K(!new), V(!new)>(h: K -> Hash, t: Trie<K, V>, m: map<K, V>, op: Op<K, V>)
    requires Agrees(h, t, m)
    ensures Agrees(h, Apply(h, t, op), ApplyMap(m, op))
  {
    ApplyValid(h, t, op);
    var t', m' := Apply(h, t, op), ApplyMap(m, op);
    forall k ensures GetKey(h, t', k) == MapGet(m', k) {
      ApplyGet(h, t, m, op, k);
    }
    ApplySize(h, t, m, op);
    hide Apply, ApplyMap, GetKey, ValidRoot;
    if t'.root.None? {
      Nobody(h, t', m');
    }
  }

  /** A trie without a root answers as the empty map. */
  lemma Nobody<K(!new), V(!new)>(h: K -> Hash, t: Trie<K, V>, m: map<K, V>)
    requires t.root.None? && forall k :: GetKey(h, t, k) == MapGet(m, k)
    ensures m == map[]
  {
    forall k ensures k !in m { assert GetKey(h, t, k) == MapGet(m, k); }
  }

  lemma ApplySize<K(!new), V(!new)>(h: K -> Hash, t: Trie<K, V>, m: map<K, V>, op: Op<K, V>)
    requires Agrees(h, t, m)
    ensures var t', m' := Apply(h, t, op), ApplyMap(m, op); t'.size == if t'.root.Some? then |m'| else 0
  {
    MapSize(m, op);
    assert GetKey(h, t, op.key) == MapGet(m, op.key);
    if t.root.None? {
      Nobody(h, t, m);
    } else {
      hide ValidRoot, RootGet;
      RootUpdate(h, t.root.value, op.key, op.value, op.key);
    }
  }

  lemma ApplyGet<K(!new), V(!new)>(h: K -> Hash, t: Trie<K, V>, m: map<K, V>, op: Op<K, V>, k: K)
    requires Agrees(h, t, m)
    requires Apply(h, t, op).root.Some? ==> ValidRoot(h, Apply(h, t, op).root.value)
    ensures GetKey(h, Apply(h, t, op), k) == MapGet(ApplyMap(m, op), k)
  {
    assert GetKey(h, t, k) == MapGet(m, k);
    assert GetKey(h, t, op.key) == MapGet(m, op.key);
    if t.root.Some? {
      RootUpdate(h, t.root.value, op.key, op.value, k);
    }
  }

  /** For every hash function and every history of set and remove calls from the empty map, the
      trie answers every lookup as the finite map does and its size is the number of bindings. */
  lemma {:induction false} EveryHistory<K(!new), V(!new)>(h: K -> Hash, ops: seq<Op<K, V>>)
    ensures Agrees(h, Run(h, Trie(EMPTY_SIZE, None), ops), RunMap(map[], ops))
  {
    if ops != [] {
      var n := |ops| - 1;
      EveryHistory(h, ops[..n]);
      ApplyAgrees(h, Run(h, Trie(EMPTY_SIZE, None), ops[..n]), RunMap(map[], ops[..n]), ops[n]);
    }
  }
}
