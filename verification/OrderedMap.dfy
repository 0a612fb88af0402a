/**
  * The insertion-ordered Map (bundle module 566) on the heap: linked entries, the key index, and
  * iterators that survive deletions and clears made while they run.
  */
module OrderedMap {
  import opened Options
  import opened EntryList
  import opened KeyMatching

  class Entry<K, V> {
    const key: K
    var value: V
    var previous: Entry?<K, V>
    var next: Entry?<K, V>
    var removed: bool
    ghost const pos: nat

    constructor (key: K, value: V, previous: Entry?<K, V>, ghost pos: nat)
      ensures this.key == key && this.value == value && this.pos == pos
      ensures this.previous == previous && next == null && !removed
    {
      this.key, this.value, this.previous, this.pos := key, value, previous, pos;
      next, removed := null, false;
    }
  }

  class OrderedMap<K(==,!new), I(==), V> {
    var first: Entry?<K, V>
    var last: Entry?<K, V>
    var size: nat
    var index: map<I, Entry<K, V>>
    /** What is known of the keys at this moment. */
    var keys: Keys<K, I>
    /** Every entry ever created, in order, and their links as values. */
    ghost var all: seq<Entry<K, V>>
    ghost var chain: Chain<K, V>

    ghost function Node(r: Ref): Entry?<K, V>
      reads this
    {
      if r.Some? && r.value < |all| then all[r.value] else null
    }

    /** The heap fields of entry `i` are those of the chain. */
    ghost predicate MirrorAt(i: nat)
      reads this, all
      requires i < |all| == |chain.view| && Sized(chain)
    {
      var e := all[i];
      && e.pos == i
      && chain.view[i] == (if e.removed then None else Some((e.key, e.value)))
      && e.next == Node(chain.next[i])
      && e.previous == Node(chain.previous[i])
    }

    ghost predicate Mirror()
      reads this, all
    {
      && |all| == |chain.view| && Sized(chain)
      && first == Node(chain.first) && last == Node(chain.last)
      && forall i | 0 <= i < |all| :: MirrorAt(i)
    }

    ghost predicate Valid()
      reads this, all
    {
      Mirror() && Good(chain) && Settled(keys, chain.view) && Apart(keys, chain.view)
      && IndexOk(index, keys, all, chain.view)
      && size == LiveCount(chain.view)
    }

    constructor (keys: Keys<K, I>)
      ensures Valid() && chain.view == [] && fresh(all) && this.keys == keys
    {
      first, last, size, index := null, null, 0, map[];
      all, chain := [], Chain([], [], [], None, None);
      this.keys := keys;
    }

    /** The entry for `k`: by its index key, else by scanning the list. */
    method GetEntry(k: K) returns (e: Entry?<K, V>)
      requires Valid()
      ensures e == Node(Some(Reached(keys, chain.view, k)))
    {
      hide LiveCount, ReachedFrom, NextLive, PrevLive, IndexOk;
      if keys.status(k).Frozen? {
        e := Scan(k);
      } else if keys.status(k).Indexed? {
        var x := keys.status(k).index;
        forall t | 0 <= t < |all| ensures all[t].pos == t { assert MirrorAt(t); }
        IndexReaches(index, keys, all, chain.view, k);
        e := if x in index then index[x] else null;
      } else {
        e := null;
      }
    }

    method Scan(k: K) returns (e: Entry?<K, V>)
      requires Valid() && keys.status(k).Frozen?
      ensures e == Node(Some(Reached(keys, chain.view, k)))
    {
      hide LiveCount, ReachedFrom, NextLive, PrevLive, IndexOk, Apart, Settled;
      e := first;
      ghost var l, i := chain.view, NextLive(chain.view, 0);
      PassStart(keys, l, k);
      while e != null && !keys.loose(e.key, k)
        invariant i <= |all| && e == Node(Some(i)) && (i < |all| ==> l[i].Some?)
        invariant PassedBy(keys, l, k, i)
        decreases |all| - i
      {
        assert MirrorAt(i) && GoodAt(chain, i);
        PassNext(keys, l, k, i);
        e := e.next;
        i := NextLive(l, i + 1);
      }
      if i < |all| { assert MirrorAt(i); }
      PassedTo(keys, l, k, i);
    }

    method Get(k: K) returns (v: Option<V>)
      requires Valid()
      ensures v == Found(keys, chain.view, k)
    {
      hide LiveCount, ReachedFrom, NextLive, PrevLive, Good, IndexOk, Apart, Settled;
      var e := GetEntry(k);
      if e == null {
        v := None;
      } else {
        assert MirrorAt(Reached(keys, chain.view, k));
        v := Some(e.value);
      }
    }

    method Has(k: K) returns (b: bool)
      requires Valid()
      ensures b <==> Found(keys, chain.view, k).Some?
    {
      var e := GetEntry(k);
      b := e != null;
    }

    /** `mark` is the index key that `k` is given if it can have one and has none. */
    method Set(k: K, v: V, mark: I)
      requires Valid() && NewMark(keys, k, mark)
      modifies this, all
      ensures Valid() && chain.view == Put(old(keys), old(chain.view), k, v) && keys == Mark(old(keys), k, mark)
      ensures old(all) <= all && fresh(all[|old(all)|..])
    {
      hide LiveCount, ReachedFrom, NextLive, PrevLive, Good, IndexOk, Apart, Settled, NewMark;
      var e := GetEntry(k);
      if e != null {
        assert MirrorAt(Reached(keys, chain.view, k));
        Overwrite(e, v);
      } else {
        MarkReached(keys, chain.view, k, mark);
        MarkFollows(keys, k, mark);
        KeysChange(Mark(keys, k, mark));
        Append(k, v);
      }
    }

    /** Between calls objects may be frozen, or be given an index key by another map. */
    method KeysChange(next: Keys<K, I>)
      requires Valid() && Follows(keys, next)
      modifies this`keys
      ensures Valid() && keys == next
    {
      hide LiveCount, NextLive, PrevLive, Good, IndexOk, Apart, Settled, Follows;
      FollowsApart(keys, next, chain.view);
      FollowsIndex(index, keys, next, all, chain.view);
      keys := next;
      SameMirror();
    }

    method Overwrite(e: Entry<K, V>, v: V)
      requires Valid() && e.pos < |all| && all[e.pos] == e && chain.view[e.pos].Some?
      modifies this`chain, e`value
      ensures Valid() && all == old(all)
      ensures chain.view == old(chain.view)[e.pos := Some((e.key, v))]
    {
      hide LiveCount, NextLive, PrevLive, Good, IndexOk, Apart, Settled;
      ghost var c, i := chain, e.pos;
      assert MirrorAt(i);
      e.value := v;
      chain := Overwritten(c, i, (e.key, v));
      OverwriteGood(c, i, (e.key, v));
      forall j | 0 <= j < |all| ensures MirrorAt(j) { assert old(MirrorAt(j)); }
      OverwriteApart(keys, c.view, i, v);
      OverwriteSettled(keys, c.view, i, v);
      OverwriteIndex(index, keys, all, c.view, i, v);
    }

    method Append(k: K, v: V)
      requires Valid() && Reached(keys, chain.view, k) == |all| && !keys.status(k).Unmarked?
      modifies this, all
      ensures Valid() && keys == old(keys) && chain.view == old(chain.view) + [Some((k, v))]
      ensures old(all) <= all && |all| == |old(all)| + 1 && fresh(all[|old(all)|])
    {
      hide LiveCount, Reached, NextLive, PrevLive, Good, IndexOk, Mirror, Apart, Settled;
      var e := new Entry(k, v, last, |all|);
      LinkLast(e);
    }

    /** Link a new entry behind the last one. */
    method LinkLast(e: Entry<K, V>)
      requires Valid() && Reached(keys, chain.view, e.key) == |all| && !keys.status(e.key).Unmarked?
      requires e !in all && e.pos == |all| && e.previous == last && e.next == null && !e.removed
      modifies this, all
      ensures Valid() && keys == old(keys)
      ensures chain.view == old(chain.view) + [Some((e.key, e.value))] && all == old(all) + [e]
    {
      hide LiveCount, Reached, NextLive, PrevLive, Good, IndexOk, Apart, Settled, MirrorAt;
      ghost var c := chain;
      size := size + 1;
      if Index(keys, e.key).Some? { index := index[Index(keys, e.key).value := e]; }
      AppendGood(c, (e.key, e.value));
      AppendApart(keys, c.view, e.key, e.value);
      AppendSettled(keys, c.view, e.key, e.value);
      AppendIndex(old(index), keys, all, c.view, e, e.value);
      SameMirror();
      Link(e);
    }

    /** The links do not depend on the size and the index. */
    twostate lemma SameMirror()
      requires old(Mirror()) && all == old(all) && chain == old(chain) && first == old(first) && last == old(last)
      requires forall t | 0 <= t < |all| :: unchanged(all[t])
      ensures Mirror()
    {
      forall j | 0 <= j < |all| ensures MirrorAt(j) { assert old(MirrorAt(j)); }
    }

    method Link(e: Entry<K, V>)
      requires Mirror() && Good(chain)
      requires e !in all && e.pos == |all| && e.previous == last && e.next == null && !e.removed
      modifies this`first, this`last, this`all, this`chain, all`next
      ensures Mirror() && chain == Appended(old(chain), (e.key, e.value)) && all == old(all) + [e]
    {
      hide NextLive, PrevLive, Good;
      LastInRange(chain);
      PointLast(e);
      all, chain := all + [e], Appended(chain, (e.key, e.value));
      LinkedLast(e);
    }

    method PointLast(e: Entry<K, V>)
      requires Mirror() && Good(chain) && e !in all
      modifies this`first, this`last, all`next
      ensures last == e && first == if old(first) == null then e else old(first)
      ensures forall t | 0 <= t < |all| :: all[t].next == if chain.last == Some(t) then e else old(all[t].next)
    {
      hide NextLive, PrevLive, Good;
      LastInRange(chain);
      var r := last;
      forall t | 0 <= t < |all| ensures all[t] == r <==> chain.last == Some(t) {
        assert MirrorAt(t);
        if chain.last.Some? { assert MirrorAt(chain.last.value); }
      }
      last := e;
      if first == null { first := e; }
      if r != null { r.next := e; }
    }

    twostate lemma LinkedLast(e: Entry<K, V>)
      requires old(Mirror()) && Good(old(chain))
      requires all == old(all) + [e] && chain == Appended(old(chain), (e.key, e.value))
      requires e.pos == |old(all)| && e.previous == old(last) && e.next == null && !e.removed
      requires forall t | 0 <= t < |old(all)| :: all[t].next == if old(chain).last == Some(t) then e else old(all[t].next)
      requires forall t | 0 <= t < |old(all)| :: all[t].previous == old(all[t].previous) && all[t].value == old(all[t].value) && all[t].removed == old(all[t].removed)
      ensures forall j | 0 <= j < |all| :: MirrorAt(j)
    {
      hide LiveCount, NextLive, PrevLive, Good, IndexOk;
      LastInRange(old(chain));
      forall j | 0 <= j < |all| ensures MirrorAt(j) {
        if j < |old(all)| {
          assert old(MirrorAt(j));
          LinksInRange(old(chain), j);
        }
      }
    }

    method Delete(k: K) returns (found: bool)
      requires Valid()
      modifies this, all
      ensures Valid() && keys == old(keys) && all == old(all) && chain.view == Taken(keys, old(chain.view), k)
      ensures found <==> Found(old(keys), old(chain.view), k).Some?
    {
      hide LiveCount, ReachedFrom, NextLive, PrevLive, Good, IndexOk, Apart, Settled, Matches;
      var e := GetEntry(k);
      found := e != null;
      if e != null {
        assert MirrorAt(Reached(keys, chain.view, k));
        Drop(e);
      }
    }

    method Drop(e: Entry<K, V>)
      requires Valid() && e.pos < |all| && all[e.pos] == e && chain.view[e.pos].Some?
      modifies this, all
      ensures Valid() && keys == old(keys) && all == old(all) && chain.view == old(chain.view)[e.pos := None]
    {
      hide LiveCount, NextLive, PrevLive, Good, IndexOk, Apart, Settled;
      ghost var c, d := chain, e.pos;
      assert MirrorAt(d);
      forall t | 0 <= t < |all| ensures all[t].pos == t { assert MirrorAt(t); }
      DeleteGood(c, d);
      DropApart(keys, c.view, d);
      DropSettled(keys, c.view, d);
      DropIndex(index, keys, all, c.view, d);
      index := Without(index, Index(keys, e.key));
      size := size - 1;
      SameMirror();
      Unlink(e);
    }

    method Unlink(e: Entry<K, V>)
      requires Mirror() && Good(chain) && e.pos < |all| && all[e.pos] == e
      modifies this`first, this`last, this`chain, all
      ensures Mirror() && all == old(all) && chain == Deleted(old(chain), e.pos)
    {
      hide NextLive, PrevLive, Good;
      ghost var c, d := chain, e.pos;
      forall t | 0 <= t < |all| ensures all[t] == e <==> t == d { assert MirrorAt(t); }
      assert MirrorAt(d);
      PointPast(e);
      e.removed := true;
      chain := Deleted(c, d);
      Dropped(e);
    }

    /** Make the neighbours of `e` point past it. */
    method PointPast(e: Entry<K, V>)
      requires Mirror() && Good(chain) && e.pos < |all| && all[e.pos] == e
      modifies this`first, this`last, all`next, all`previous
      ensures first == if chain.first == Some(e.pos) then old(e.next) else old(first)
      ensures last == if chain.last == Some(e.pos) then old(e.previous) else old(last)
      ensures forall t | 0 <= t < |all| :: all[t].next == if chain.previous[e.pos] == Some(t) then old(e.next) else old(all[t].next)
      ensures forall t | 0 <= t < |all| :: all[t].previous == if chain.next[e.pos] == Some(t) then old(e.previous) else old(all[t].previous)
    {
      hide NextLive, PrevLive, Good;
      LastInRange(chain);
      LinksInRange(chain, e.pos);
      forall r: Ref, t | 0 <= t < |all| && (r.Some? ==> r.value < |all|) ensures all[t] == Node(r) <==> r == Some(t) {
        assert MirrorAt(t);
        if r.Some? { assert MirrorAt(r.value); }
      }
      assert MirrorAt(e.pos);
      var i, o := e.next, e.previous;
      if o != null { o.next := i; }
      if i != null { i.previous := o; }
      if first == e { first := i; }
      if last == e { last := o; }
    }

    twostate lemma Dropped(e: Entry<K, V>)
      requires old(Mirror()) && Good(old(chain)) && e.pos < |old(all)| && old(all)[e.pos] == e
      requires all == old(all) && chain == Deleted(old(chain), e.pos)
      requires forall t | 0 <= t < |all| :: all[t].next == if old(chain).previous[e.pos] == Some(t) then old(e.next) else old(all[t].next)
      requires forall t | 0 <= t < |all| :: all[t].previous == if old(chain).next[e.pos] == Some(t) then old(e.previous) else old(all[t].previous)
      requires forall t | 0 <= t < |all| :: all[t].removed == (t == e.pos || old(all[t].removed)) && all[t].value == old(all[t].value)
      ensures forall j | 0 <= j < |all| :: MirrorAt(j)
    {
      hide LiveCount, NextLive, PrevLive, Good, IndexOk;
      assert old(MirrorAt(e.pos));
      LinksInRange(old(chain), e.pos);
      forall j | 0 <= j < |all| ensures MirrorAt(j) {
        assert old(MirrorAt(j));
        LinksInRange(old(chain), j);
      }
    }

    method Clear()
      requires Valid()
      modifies this, all
      ensures Valid() && keys == old(keys) && all == old(all) && chain.view == Cleared(old(chain.view))
    {
      hide LiveCount, NextLive, PrevLive, Good, IndexOk, SweptAt, MirrorAt, GoodAt, Apart, Settled;
      ghost var c, i := chain, NextLive(chain.view, 0);
      SweepStart(c);
      FirstIs(c);
      var n := first;
      while n != null
        invariant all == old(all) && i <= |all| && n == Node(Some(i)) && (i < |all| ==> c.view[i].Some?)
        invariant Mirror() && Swept(c, i, chain)
        invariant keys == old(keys) && Apart(keys, chain.view) && Settled(keys, chain.view)
        invariant IndexOk(index, keys, all, chain.view)
        decreases |all| - i
      {
        SweepStep(c, i, chain);
        n := Sweep(n, i);
        i := NextLive(c.view, i + 1);
      }
      SweepGood(c, chain);
      Reset();
    }

    method Reset()
      requires Mirror()
      modifies this`first, this`last, this`size, this`chain
      ensures Mirror() && size == 0 && chain == old(chain).(first := None, last := None)
    {
      first, last, size := null, null, 0;
      chain := chain.(first := None, last := None);
      forall j | 0 <= j < |all| ensures MirrorAt(j) { assert old(MirrorAt(j)); }
    }

    /** One round of the clear loop: remove `n`, cut it from its predecessor, and step on. */
    method Sweep(n: Entry<K, V>, ghost i: nat) returns (m: Entry?<K, V>)
      requires Mirror() && i < |all| && n == all[i] && chain.view[i].Some? && Apart(keys, chain.view) && Settled(keys, chain.view)
      requires chain.previous[i].Some? ==> chain.previous[i].value < i
      requires IndexOk(index, keys, all, chain.view)
      modifies this, all
      ensures all == old(all) && Mirror() && chain == Unlinked(old(chain), i) && Apart(keys, chain.view)
      ensures keys == old(keys) && Settled(keys, chain.view)
      ensures IndexOk(index, keys, all, chain.view) && m == Node(old(chain).next[i])
    {
      hide LiveCount, NextLive, PrevLive, IndexOk, Apart, Settled, Unlinked;
      ghost var c := chain;
      forall t | 0 <= t < |all| ensures all[t].pos == t { assert MirrorAt(t); }
      assert MirrorAt(i);
      DropApart(keys, c.view, i);
      DropSettled(keys, c.view, i);
      DropIndex(index, keys, all, c.view, i);
      index := Without(index, Index(keys, n.key));
      SameMirror();
      m := n.next;
      UnlinkedView(c, i);
      CutOff(n, i);
    }

    method CutOff(n: Entry<K, V>, ghost i: nat)
      requires Mirror() && i < |all| && n == all[i]
      requires chain.previous[i].Some? ==> chain.previous[i].value < i
      modifies this`chain, all
      ensures all == old(all) && Mirror() && chain == Unlinked(old(chain), i)
    {
      ghost var c := chain;
      forall t | 0 <= t < |all| ensures all[t] == n <==> t == i { assert MirrorAt(t); }
      forall t | 0 <= t < |all| ensures all[t] == n.previous <==> c.previous[i] == Some(t) {
        assert MirrorAt(t) && MirrorAt(i);
        if c.previous[i].Some? { assert MirrorAt(c.previous[i].value); }
      }
      assert MirrorAt(i);
      n.removed := true;
      if n.previous != null {
        n.previous.next := null;
        n.previous := null;
      }
      chain := Unlinked(c, i);
      forall j | 0 <= j < |all| ensures MirrorAt(j) { assert old(MirrorAt(j)); }
    }

    /** An entry of this map, or none. */
    ghost predicate Mine(e: Entry?<K, V>)
      reads this
    {
      e != null ==> e.pos < |all| && all[e.pos] == e
    }

    /** The last live entry not after `e`, found by stepping back over removed ones. */
    method StepBack(e: Entry?<K, V>) returns (n: Entry?<K, V>)
      requires Valid() && Mine(e)
      ensures Before(n, After(e))
    {
      hide NextLive, PrevLive, Good, IndexOk, LiveCount, Apart;
      ghost var c, p := chain, After(e);
      n := e;
      PrevAtMost(c.view, p);
      while n != null && n.removed
        invariant Mine(n) && After(n) <= p && PrevLive(c.view, p) <= After(n)
        decreases After(n)
      {
        assert MirrorAt(n.pos);
        BackStep(c, n.pos, p);
        if c.previous[n.pos].Some? { assert MirrorAt(c.previous[n.pos].value); }
        n := n.previous;
      }
    }

    /** A live entry, or the start, with nothing live between it and position `p`. */
    ghost predicate Before(n: Entry?<K, V>, p: nat)
      reads this, all
    {
      && Mine(n) && (n != null ==> !n.removed)
      && After(n) <= p <= |chain.view| && PrevLive(chain.view, p) <= After(n)
    }

    /** The next live entry from position `p` on. */
    method StepOn(n: Entry?<K, V>, ghost p: nat) returns (e: Entry?<K, V>)
      requires Valid() && Before(n, p)
      ensures Mine(e) && e == Node(Some(NextLive(chain.view, p)))
      ensures e != null ==> e.pos == NextLive(chain.view, p) && chain.view[e.pos] == Some((e.key, e.value))
    {
      hide NextLive, PrevLive, IndexOk, LiveCount, Apart;
      ghost var l := chain.view;
      SkipGone(l, After(n), p);
      if n != null { assert MirrorAt(n.pos) && GoodAt(chain, n.pos); }
      e := if n != null then n.next else first;
      if NextLive(l, p) < |all| { assert MirrorAt(NextLive(l, p)); }
    }
  }

  lemma UnlinkedView<K, V>(c: Chain<K, V>, d: nat)
    requires Sized(c) && d < |c.view|
    ensures Unlinked(c, d).view == c.view[d := None]
  {
  }

  lemma FirstIs<K, V>(c: Chain<K, V>)
    requires Good(c)
    ensures c.first == NextRef(c.view, 0)
  {
  }

  /** Links name entries that exist. */
  lemma LinksInRange<K, V>(c: Chain<K, V>, i: nat)
    requires Good(c) && i < |c.view|
    ensures c.previous[i].Some? ==> c.previous[i].value < |c.view|
    ensures c.next[i].Some? ==> c.next[i].value < |c.view|
  {
    assert GoodAt(c, i);
  }

  lemma LastInRange<K, V>(c: Chain<K, V>)
    requires Good(c)
    ensures c.last.Some? ==> c.last.value < |c.view|
    ensures c.first.Some? ==> c.first.value < |c.view|
  {
  }

  // ---- The index ----

  function Without<I, T>(index: map<I, T>, x: Option<I>): map<I, T> {
    if x.Some? then index - {x.value} else index
  }

  /** A live entry whose key has an index key is found under it. */
  ghost predicate IndexedAt<K, I, V>(
      index: map<I, Entry<K, V>>, keys: Keys<K, I>, all: seq<Entry<K, V>>, l: Entries<K, V>, p: nat)
    requires p < |l| == |all| && l[p].Some?
  {
    var x := Index(keys, l[p].value.0);
    x.Some? ==> x.value in index && index[x.value] == all[p]
  }

  /** What is found under an index key is a live entry with that index key. */
  ghost predicate PointsTo<K, I, V>(
      index: map<I, Entry<K, V>>, keys: Keys<K, I>, all: seq<Entry<K, V>>, l: Entries<K, V>, x: I)
    requires x in index && |l| == |all|
  {
    var p := index[x].pos;
    p < |l| && all[p] == index[x] && l[p].Some? && Index(keys, l[p].value.0) == Some(x)
  }

  ghost predicate IndexOk<K, I, V>(
      index: map<I, Entry<K, V>>, keys: Keys<K, I>, all: seq<Entry<K, V>>, l: Entries<K, V>)
  {
    && |all| == |l|
    && (forall p | 0 <= p < |l| && l[p].Some? :: IndexedAt(index, keys, all, l, p))
    && (forall x | x in index :: PointsTo(index, keys, all, l, x))
  }

  /** The index finds the entry that answers for a key with an index key. */
  lemma IndexReaches<K, I, V>(
      index: map<I, Entry<K, V>>, keys: Keys<K, I>, all: seq<Entry<K, V>>, l: Entries<K, V>, k: K)
    requires IndexOk(index, keys, all, l) && Index(keys, k).Some?
    requires forall t | 0 <= t < |all| :: all[t].pos == t
    ensures var x, p := Index(keys, k).value, Reached(keys, l, k);
            if x in index then p < |l| && index[x] == all[p] else p == |l|
  {
    hide ReachedFrom;
    var x, p := Index(keys, k).value, Reached(keys, l, k);
    if p < |l| { assert IndexedAt(index, keys, all, l, p); }
    if x in index {
      assert PointsTo(index, keys, all, l, x);
      assert Matches(keys, l[index[x].pos].value.0, k);
    }
  }

  /** The index stays right as the keys change, since those in the map have settled. */
  lemma FollowsIndex<K(!new), I, V>(
      index: map<I, Entry<K, V>>, keys: Keys<K, I>, next: Keys<K, I>, all: seq<Entry<K, V>>, l: Entries<K, V>)
    requires Follows(keys, next) && Settled(keys, l) && IndexOk(index, keys, all, l)
    ensures IndexOk(index, next, all, l)
  {
    forall p | 0 <= p < |l| && l[p].Some? ensures next.status(l[p].value.0) == keys.status(l[p].value.0) {
      assert FollowsAt(keys, next, l[p].value.0);
    }
    forall p | 0 <= p < |l| && l[p].Some? ensures IndexedAt(index, next, all, l, p) {
      assert IndexedAt(index, keys, all, l, p);
    }
    forall x | x in index ensures PointsTo(index, next, all, l, x) { assert PointsTo(index, keys, all, l, x); }
  }

  lemma OverwriteIndex<K, I, V>(
      index: map<I, Entry<K, V>>, keys: Keys<K, I>, all: seq<Entry<K, V>>, l: Entries<K, V>, i: nat, v: V)
    requires IndexOk(index, keys, all, l) && i < |l| && l[i].Some?
    ensures IndexOk(index, keys, all, l[i := Some((l[i].value.0, v))])
  {
    var m := l[i := Some((l[i].value.0, v))];
    forall p | 0 <= p < |m| && m[p].Some? ensures IndexedAt(index, keys, all, m, p) {
      assert IndexedAt(index, keys, all, l, p);
    }
    forall x | x in index ensures PointsTo(index, keys, all, m, x) { assert PointsTo(index, keys, all, l, x); }
  }

  lemma AppendIndex<K, I, V>(
      index: map<I, Entry<K, V>>, keys: Keys<K, I>, all: seq<Entry<K, V>>, l: Entries<K, V>, e: Entry<K, V>, v: V)
    requires IndexOk(index, keys, all, l) && Reached(keys, l, e.key) == |l| && e.pos == |l|
    ensures var x := Index(keys, e.key);
            IndexOk(if x.Some? then index[x.value := e] else index, keys, all + [e], l + [Some((e.key, v))])
  {
    hide ReachedFrom;
    var x, m, all' := Index(keys, e.key), l + [Some((e.key, v))], all + [e];
    var index' := if x.Some? then index[x.value := e] else index;
    forall p | 0 <= p < |m| && m[p].Some? ensures IndexedAt(index', keys, all', m, p) {
      if p < |l| {
        assert IndexedAt(index, keys, all, l, p) && !Matches(keys, l[p].value.0, e.key);
      }
    }
    forall y | y in index' ensures PointsTo(index', keys, all', m, y) {
      if index'[y] != e { assert PointsTo(index, keys, all, l, y); }
    }
  }

  lemma DropIndex<K, I, V>(
      index: map<I, Entry<K, V>>, keys: Keys<K, I>, all: seq<Entry<K, V>>, l: Entries<K, V>, d: nat)
    requires IndexOk(index, keys, all, l) && d < |l| && l[d].Some?
    requires forall t | 0 <= t < |all| :: all[t].pos == t
    ensures IndexOk(Without(index, Index(keys, l[d].value.0)), keys, all, l[d := None])
  {
    var x, m := Index(keys, l[d].value.0), l[d := None];
    var index' := Without(index, x);
    assert IndexedAt(index, keys, all, l, d);
    forall p | 0 <= p < |m| && m[p].Some? ensures IndexedAt(index', keys, all, m, p) {
      assert IndexedAt(index, keys, all, l, p);
    }
    forall y | y in index' ensures PointsTo(index', keys, all, m, y) { assert PointsTo(index, keys, all, l, y); }
  }

  /** No live entry before `i` answers for `k`. */
  ghost predicate PassedBy<K, I, V>(keys: Keys<K, I>, l: Entries<K, V>, k: K, i: nat)
    requires i <= |l|
  {
    forall t | 0 <= t < i && l[t].Some? :: !Matches(keys, l[t].value.0, k)
  }

  lemma PassStart<K, I, V>(keys: Keys<K, I>, l: Entries<K, V>, k: K)
    ensures PassedBy(keys, l, k, NextLive(l, 0))
  {
    forall t | 0 <= t < NextLive(l, 0) ensures l[t].None? { NextGap(l, 0, t); }
  }

  lemma PassNext<K, I, V>(keys: Keys<K, I>, l: Entries<K, V>, k: K, i: nat)
    requires i < |l| && PassedBy(keys, l, k, i) && (l[i].Some? ==> !Matches(keys, l[i].value.0, k))
    ensures PassedBy(keys, l, k, NextLive(l, i + 1))
  {
    forall t | i < t < NextLive(l, i + 1) ensures l[t].None? { NextGap(l, i + 1, t); }
  }

  lemma PassedTo<K, I, V>(keys: Keys<K, I>, l: Entries<K, V>, k: K, i: nat)
    requires i <= |l| && PassedBy(keys, l, k, i)
    requires i < |l| ==> l[i].Some? && Matches(keys, l[i].value.0, k)
    ensures Reached(keys, l, k) == i
  {
    hide Matches, ReachedFrom;
  }

  /** What an iterator gives: the entry it reached, or nothing once it is exhausted. */
  class MapIterator<K(==,!new), I(==), V> {
    const state: OrderedMap<K, I, V>
    var live: bool
    var last: Entry?<K, V>

    /** The position of the entry list at which the next search starts. */
    ghost function Position(): nat
      reads this
    {
      After(last)
    }

    ghost predicate Valid()
      reads this, state, state.all
    {
      state.Valid() && state.Mine(last)
    }

    constructor (m: OrderedMap<K, I, V>)
      requires m.Valid()
      ensures Valid() && state == m && live && Position() == 0
    {
      state, live, last := m, true, null;
    }

    /** Step back over removed entries to a live one, then forward; an exhausted iterator stays so. */
    method Next() returns (r: Option<(K, V)>)
      requires Valid()
      modifies this
      ensures Valid() && old(Position()) <= |state.chain.view|
      ensures var j := NextLive(state.chain.view, old(Position()));
              if old(live) && j < |state.chain.view|
              then live && Position() == j + 1 && r == state.chain.view[j]
              else !live && r == None
    {
      hide NextLive, PrevLive, Good, IndexOk, LiveCount, Apart;
      ghost var p := Position();
      var n := state.StepBack(last);
      if !live {
        return None;
      }
      last := state.StepOn(n, p);
      if last != null {
        r := Some((last.key, last.value));
      } else {
        live, r := false, None;
      }
    }
  }

  /** The position just after an entry; 0 for none. */
  ghost function After<K, V>(e: Entry?<K, V>): nat {
    if e == null then 0 else e.pos + 1
  }

  lemma PrevAtMost<K, V>(l: Entries<K, V>, p: nat)
    requires p <= |l|
    ensures PrevLive(l, p) <= p
  {
  }

  /** One step back from a removed entry `q` skips nothing that is live. */
  lemma BackStep<K, V>(c: Chain<K, V>, q: nat, p: nat)
    requires Good(c) && q < p <= |c.view| && c.view[q].None? && PrevLive(c.view, p) <= q + 1
    ensures PrevLive(c.view, p) <= if c.previous[q].None? then 0 else c.previous[q].value + 1
    ensures c.previous[q].Some? ==> c.previous[q].value < q
  {
    assert GoodAt(c, q);
    var l := c.view;
    var j := PrevLive(l, p);
    forall t | j <= t < q ensures l[t].None? { PrevGap(l, p, t); }
    PrevIs(l, q, j);
  }
}
