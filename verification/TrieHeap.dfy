/**
  * The persistent trie on the heap: node objects and the arrays they point to, shared between the
  * versions of a map, and the edits that copy an array before they write to it. No method below has
  * a `modifies` clause, so whatever an older version can reach stays as it is; and every method
  * makes the node that the update of `HashTrie` makes.
  */
module TrieHeap {
  import opened Options
  import opened TrieBits
  import opened HashTrie
  import opened TrieMap

  /** An array of the source: it can be written to, and grow and shrink at its end. */
  class Cells<T> {
    var items: seq<T>

    constructor (items: seq<T>)
      ensures this.items == items
    {
      this.items := items;
    }

    method Push(x: T)
      modifies this
      ensures items == old(items) + [x]
    {
      items := items + [x];
    }

    method Pop() returns (x: T)
      requires items != []
      modifies this
      ensures old(items) == items + [x]
    {
      x, items := items[|items| - 1], items[..|items| - 1];
    }

    method Put(i: nat, x: T)
      requires i < |items|
      modifies this
      ensures items == old(items)[i := x]
    {
      items := items[i := x];
    }
  }

  /** The fields of the five node kinds. A slot without a child holds null. */
  datatype Body<!K, !V> =
    | ArrayMapOf(entries: Cells<(K, V)>)
    | BitmapOf(bitmap: nat, nodes: Cells<TrieNode?<K, V>>)
    | HashArrayOf(count: nat, nodes: Cells<TrieNode?<K, V>>)
    | CollisionOf(keyHash: Hash, entries: Cells<(K, V)>)
    | LeafOf(keyHash: Hash, entry: (K, V))

  class TrieNode<K, V> {
    var body: Body<K, V>
    /** The node as a value, and everything reachable from it. */
    ghost const view: Node<K, V>
    ghost const repr: set<object>

    constructor (body: Body<K, V>, ghost view: Node<K, V>, ghost below: set<object>)
      ensures this.body == body && this.view == view && repr == below + {this}
    {
      this.body, this.view, repr := body, view, below + {this};
    }
  }

  ghost function ViewOf<K, V>(n: TrieNode?<K, V>): Option<Node<K, V>> {
    if n == null then None else Some(n.view)
  }

  ghost function Views<K, V>(items: seq<TrieNode?<K, V>>): (v: seq<Option<Node<K, V>>>)
    ensures |v| == |items|
  {
    seq(|items|, i requires 0 <= i < |items| => ViewOf(items[i]))
  }

  ghost function Reach<K, V>(items: seq<TrieNode?<K, V>>): set<object> {
    set i, o | 0 <= i < |items| && items[i] != null && o in items[i].repr + {items[i]} :: o
  }

  lemma InReach<K, V>(items: seq<TrieNode?<K, V>>)
    ensures forall i | 0 <= i < |items| && items[i] != null :: items[i] in Reach(items) && items[i].repr <= Reach(items)
  {
    forall i | 0 <= i < |items| && items[i] != null
      ensures items[i] in Reach(items) && items[i].repr <= Reach(items)
    {
      forall o | o in items[i].repr + {items[i]} ensures o in Reach(items) {}
    }
  }

  /** The children of an inner node as its array has them. */
  function Slots<K, V>(v: Node<K, V>): seq<Option<Node<K, V>>>
    requires v.IsInner()
  {
    if v.HashArray? then v.slots else seq(|v.nodes|, i requires 0 <= i < |v.nodes| => Some(v.nodes[i]))
  }

  /** The objects below `n` hold its view. */
  ghost predicate Holds<K, V>(n: TrieNode<K, V>)
    reads n, n.repr
    decreases n.view
  {
    && n in n.repr
    && match n.body
       case LeafOf(x, e) => n.view == Leaf(x, e)
       case CollisionOf(x, c) => c in n.repr && n.view == Collision(x, c.items)
       case ArrayMapOf(c) => c in n.repr && n.view == ArrayMap(c.items)
       case BitmapOf(b, c) =>
         && c in n.repr && n.view.Bitmap? && n.view.bitmap == b
         && Views(c.items) == Slots(n.view)
         && forall i | 0 <= i < |c.items| && c.items[i] != null ::
              && ViewOf(c.items[i]) == Slots(n.view)[i] && c.items[i] in n.repr && c.items[i].repr <= n.repr
              && Holds(c.items[i])
       case HashArrayOf(p, c) =>
         && c in n.repr && n.view.HashArray? && n.view.count == p
         && Views(c.items) == Slots(n.view)
         && forall i | 0 <= i < |c.items| && c.items[i] != null ::
              && ViewOf(c.items[i]) == Slots(n.view)[i] && c.items[i] in n.repr && c.items[i].repr <= n.repr
              && Holds(c.items[i])
  }

  // ---- Array edits ----

  /** `b`: a copy. */
  method ArrCopy<T>(t: Cells<T>) returns (r: Cells<T>)
    ensures fresh(r) && r.items == t.items
  {
    r := new Cells([]);
    for i := 0 to |t.items|
      invariant fresh(r) && r.items == t.items[..i]
    {
      r.Push(t.items[i]);
    }
  }

  /** `we`: a copy with one item replaced. */
  method SetIn<T>(t: Cells<T>, e: nat, x: T) returns (r: Cells<T>)
    requires e < |t.items|
    ensures fresh(r) && r.items == t.items[e := x]
  {
    r := ArrCopy(t);
    r.Put(e, x);
  }

  /** `Me`: a new array with one item more. */
  method SpliceIn<K, V>(t: Cells<TrieNode?<K, V>>, e: nat, x: TrieNode?<K, V>) returns (r: Cells<TrieNode?<K, V>>)
    requires e <= |t.items|
    ensures fresh(r) && r.items == InsertAt(t.items, e, x)
  {
    var n := |t.items| + 1;
    r := new Cells(seq(n, _ => null));
    var after := 0;
    for s := 0 to n
      invariant fresh(r) && |r.items| == n && after == (if s <= e then 0 else -1)
      invariant r.items[..s] == InsertAt(t.items, e, x)[..s]
    {
      if s == e {
        r.Put(s, x);
        after := -1;
      } else {
        r.Put(s, t.items[s + after]);
      }
    }
  }

  /** `_e`: a new array without one item. */
  method SpliceOut<K, V>(t: Cells<TrieNode?<K, V>>, e: nat) returns (r: Cells<TrieNode?<K, V>>)
    requires e < |t.items|
    ensures fresh(r) && r.items == RemoveAt(t.items, e)
  {
    var n := |t.items| - 1;
    r := new Cells(seq(n, _ => null));
    var after := 0;
    for s := 0 to n
      invariant fresh(r) && |r.items| == n && after == (if s <= e then 0 else 1)
      invariant r.items[..s] == RemoveAt(t.items, e)[..s]
    {
      if s == e {
        after := 1;
      }
      r.Put(s, t.items[s + after]);
    }
  }

  /** The place of a key, or the length. */
  method FindEntry<K(==), V>(a: Cells<(K, V)>, k: K) returns (c: nat)
    ensures c == Find(a.items, k)
  {
    c := 0;
    while c < |a.items| && k != a.items[c].0
      invariant c <= |a.items| && forall j | 0 <= j < c :: a.items[j].0 != k
    {
      c := c + 1;
    }
    assert c == Find(a.items, k);
  }

  /** The edit of an entry array, on a copy. */
  method EditEntries<K(==), V>(a: Cells<(K, V)>, c: nat, k: K, op: Option<V>) returns (r: Cells<(K, V)>)
    requires c == Find(a.items, k) && (c < |a.items| || op.Some?)
    ensures fresh(r) && r.items == Edit(a.items, k, op)
  {
    r := ArrCopy(a);
    if c == |a.items| {
      r.Push((k, op.value));
    } else if op.Some? {
      r.Put(c, (k, op.value));
    } else if c == |a.items| - 1 {
      var _ := r.Pop();
    } else {
      var last := r.Pop();
      r.Put(c, last);
    }
  }

  // ---- New nodes ----

  ghost predicate AllHold<K, V>(items: seq<TrieNode?<K, V>>)
    reads Reach(items)
  {
    InReach(items);
    forall i | 0 <= i < |items| && items[i] != null :: Holds(items[i])
  }

  method NewBitmap<K, V>(b: nat, c: Cells<TrieNode?<K, V>>, ghost view: Node<K, V>) returns (m: TrieNode<K, V>)
    requires view.Bitmap? && view.bitmap == b && Views(c.items) == Slots(view) && AllHold(c.items)
    ensures Holds(m) && m.view == view
  {
    InReach(c.items);
    m := new TrieNode(BitmapOf(b, c), view, Reach(c.items) + {c});
  }

  method NewHashArray<K, V>(count: nat, c: Cells<TrieNode?<K, V>>, ghost view: Node<K, V>) returns (m: TrieNode<K, V>)
    requires view.HashArray? && view.count == count && Views(c.items) == Slots(view) && AllHold(c.items)
    ensures Holds(m) && m.view == view
  {
    InReach(c.items);
    m := new TrieNode(HashArrayOf(count, c), view, Reach(c.items) + {c});
  }

  method NewLeaf<K, V>(x: Hash, e: (K, V)) returns (m: TrieNode<K, V>)
    ensures Holds(m) && m.view == Leaf(x, e)
  {
    m := new TrieNode(LeafOf(x, e), Leaf(x, e), {});
  }

  method NewCollision<K, V>(x: Hash, c: Cells<(K, V)>) returns (m: TrieNode<K, V>)
    ensures Holds(m) && m.view == Collision(x, c.items)
  {
    m := new TrieNode(CollisionOf(x, c), Collision(x, c.items), {c});
  }

  method NewArrayMap<K, V>(c: Cells<(K, V)>) returns (m: TrieNode<K, V>)
    ensures Holds(m) && m.view == ArrayMap(c.items)
  {
    m := new TrieNode(ArrayMapOf(c), ArrayMap(c.items), {c});
  }

  /** `ae`: a leaf and a new entry under one node. */
  method MergeNodes<K, V>(n: TrieNode<K, V>, shift: nat, x: Hash, e: (K, V)) returns (m: TrieNode<K, V>)
    requires Holds(n) && Meet(n.view, shift, x)
    ensures Holds(m) && m.view == Merge(n.view, shift, x, e)
    decreases 35 - shift
  {
    hide Slot, Low, Pow2;
    if n.body.keyHash == x {
      var c := new Cells([n.body.entry, e]);
      m := NewCollision(x, c);
    } else {
      var s, t := Slot(n.body.keyHash, shift), Slot(x, shift);
      MeetLower(n.view, shift, x);
      if s == t {
        var d := MergeNodes(n, shift + 5, x, e);
        var c := new Cells<TrieNode?<K, V>>([d]);
        m := NewBitmap(Pow2(s), c, Merge(n.view, shift, x, e));
      } else {
        var d := NewLeaf(x, e);
        var c := new Cells<TrieNode?<K, V>>(if s < t then [n, d] else [d, n]);
        m := NewBitmap(Pow2(s) + Pow2(t), c, Merge(n.view, shift, x, e));
      }
    }
  }

  // ---- Inner nodes ----

  /** Every node of one array is in another. */
  ghost predicate From<K, V>(items: seq<TrieNode?<K, V>>, others: seq<TrieNode?<K, V>>) {
    forall i | 0 <= i < |items| && items[i] != null :: items[i] in others
  }

  lemma StillHold<K, V>(items: seq<TrieNode?<K, V>>, others: seq<TrieNode?<K, V>>)
    requires From(items, others) && AllHold(others)
    ensures AllHold(items)
  {
    forall i | 0 <= i < |items| && items[i] != null ensures Holds(items[i]) {
      var j :| 0 <= j < |others| && others[j] == items[i];
    }
  }

  /** What is known of the array of an inner node. */
  lemma InnerHeld<K, V>(n: TrieNode<K, V>)
    requires Holds(n) && n.view.IsInner()
    ensures n.body.BitmapOf? || n.body.HashArrayOf?
    ensures Views(n.body.nodes.items) == Slots(n.view) && AllHold(n.body.nodes.items)
    ensures if n.view.Bitmap? then n.body.BitmapOf? && n.body.bitmap == n.view.bitmap
            else n.body.HashArrayOf? && n.body.count == n.view.count
  {
  }

  /** `fe`: the present nodes but the one at `skip`, with the bitmap built by a doubling weight. */
  method PackNodes<K, V>(e: Cells<TrieNode?<K, V>>, n: nat, skip: nat) returns (b: nat, r: Cells<TrieNode?<K, V>>)
    requires n == |Pack(Views(e.items), skip, |e.items|).1|
    ensures var (c, nodes) := Pack(Views(e.items), skip, |e.items|); b == c && Views(r.items) == Slots(Bitmap(c, nodes))
    ensures fresh(r) && From(r.items, e.items)
  {
    r := new Cells(seq(n, _ => null));
    b := 0;
    var o, bit := 0, 1;
    for s := 0 to |e.items|
      invariant fresh(r) && |r.items| == n && bit == Pow2(s) && From(r.items, e.items)
      invariant var (c, nodes) := Pack(Views(e.items), skip, s);
                b == c && o == |nodes| <= n && forall j | 0 <= j < o :: ViewOf(r.items[j]) == Some(nodes[j])
    {
      PackFits(Views(e.items), skip, s + 1);
      var f := e.items[s];
      if f != null && s != skip {
        b := b + bit;
        r.Put(o, f);
        o := o + 1;
      }
      bit := 2 * bit;
    }
  }

  lemma {:induction false} PackFits<K, V>(slots: seq<Option<Node<K, V>>>, skip: nat, i: nat)
    requires i <= |slots|
    ensures |Pack(slots, skip, i).1| <= |Pack(slots, skip, |slots|).1|
    decreases |slots| - i
  {
    if i < |slots| { PackFits(slots, skip, i + 1); }
  }

  /** `le`: the nodes of a bitmap node at their slots, and a new one at `r`. */
  method SpreadNodes<K, V>(e: Cells<TrieNode?<K, V>>, bitmap: nat, s: nat, d: TrieNode<K, V>, ghost v: Node<K, V>)
    returns (count: nat, r: Cells<TrieNode?<K, V>>)
    requires v.Bitmap? && Shape(v) && v.bitmap == bitmap && Views(e.items) == Slots(v) && s < 32
    ensures count == |v.nodes| + 1 && Views(r.items) == Spread(v)[s := Some(d.view)]
    ensures fresh(r) && From(r.items, e.items + [d])
  {
    hide Pow2, PopCount, Below, Has, At, Shape;
    var o := 0;
    r := new Cells(seq(32, _ => null));
    var rest, t := bitmap, 0;
    SpreadStart(bitmap);
    while rest != 0
      invariant fresh(r) && |r.items| == 32 && t <= 32 && rest == bitmap / Pow2(t)
      invariant o == Below(bitmap, t) && From(r.items, e.items)
      invariant forall u | 0 <= u < 32 :: ViewOf(r.items[u]) == if u < t then ChildAt(v, u) else None
      decreases 32 - t
    {
      SpreadStep(v, t);
      if rest % 2 == 1 {
        assert ViewOf(e.items[o]) == Some(v.nodes[o]) by { assert Views(e.items)[o] == Slots(v)[o]; }
        r.Put(t, e.items[o]);
        o := o + 1;
      }
      rest, t := rest / 2, t + 1;
    }
    SpreadEnd(v, t);
    r.Put(s, d);
    count := o + 1;
  }

  predicate IsLeafNode<K, V>(n: TrieNode<K, V>)
    reads n
  {
    n.body.LeafOf? || n.body.CollisionOf?
  }

  lemma LeafHeld<K, V>(n: TrieNode<K, V>)
    requires Holds(n)
    ensures IsLeafNode(n) <==> n.view.IsLeaf()
  {
  }

  lemma InsertViews<K, V>(items: seq<TrieNode?<K, V>>, v: Node<K, V>, i: nat, d: TrieNode<K, V>, b: nat)
    requires v.Bitmap? && Views(items) == Slots(v) && i <= |items|
    ensures i <= |v.nodes| && Views(InsertAt(items, i, d)) == Slots(Bitmap(b, InsertAt(v.nodes, i, d.view)))
    ensures From(InsertAt(items, i, d), items + [d])
  {
    var more := InsertAt(items, i, d);
    forall j | 0 <= j < |more| ensures Views(more)[j] == Slots(Bitmap(b, InsertAt(v.nodes, i, d.view)))[j] {
      assert j < i ==> Views(items)[j] == Slots(v)[j];
      assert j > i ==> Views(items)[j - 1] == Slots(v)[j - 1];
    }
  }

  lemma RemoveViews<K, V>(items: seq<TrieNode?<K, V>>, v: Node<K, V>, i: nat, b: nat)
    requires v.Bitmap? && Views(items) == Slots(v) && i < |items|
    ensures i < |v.nodes| && Views(RemoveAt(items, i)) == Slots(Bitmap(b, RemoveAt(v.nodes, i)))
    ensures From(RemoveAt(items, i), items)
  {
    var less := RemoveAt(items, i);
    forall j | 0 <= j < |less| ensures ViewOf(less[j]) == Some(RemoveAt(v.nodes, i)[j]) {
      assert j < i ==> Views(items)[j] == Slots(v)[j];
      assert j >= i ==> Views(items)[j + 1] == Slots(v)[j + 1];
    }
  }

  lemma ReplaceViews<K, V>(items: seq<TrieNode?<K, V>>, v: Node<K, V>, i: nat, d: TrieNode<K, V>)
    requires v.Bitmap? && Views(items) == Slots(v) && i < |items|
    ensures i < |v.nodes| && Views(items[i := d]) == Slots(Bitmap(v.bitmap, v.nodes[i := d.view]))
    ensures From(items[i := d], items + [d])
  {
    var changed := items[i := d];
    forall j | 0 <= j < |items| ensures ViewOf(changed[j]) == Some(v.nodes[i := d.view][j]) {
      assert Views(items)[j] == Slots(v)[j];
    }
  }

  lemma OneMore<K, V>(items: seq<TrieNode?<K, V>>, d: TrieNode<K, V>)
    requires AllHold(items) && Holds(d)
    ensures AllHold(items + [d])
  {
  }

  /** A full bitmap node becomes a 32-way node. */
  method Expanded<K, V>(n: TrieNode<K, V>, s: nat, d: TrieNode<K, V>) returns (m: TrieNode<K, V>)
    requires Holds(n) && n.view.Bitmap? && Shape(n.view) && s < 32 && Holds(d)
    ensures Holds(m) && m.view == HashArray(|n.view.nodes| + 1, Spread(n.view)[s := Some(d.view)])
  {
    hide Holds, Spread, Shape;
    InnerHeld(n);
    var p := n.body.nodes;
    var count, r := SpreadNodes(p, n.body.bitmap, s, d, n.view);
    OneMore(p.items, d);
    StillHold(r.items, p.items + [d]);
    m := NewHashArray(count, r, HashArray(|n.view.nodes| + 1, Spread(n.view)[s := Some(d.view)]));
  }

  /** A bitmap node with a child more, another child, or a child less. */
  method BitmapEdited<K, V>(n: TrieNode<K, V>, s: nat, l: nat, more: bool, d: TrieNode?<K, V>) returns (m: TrieNode<K, V>)
    requires Holds(n) && n.view.Bitmap? && l <= |n.view.nodes| && (l == |n.view.nodes| ==> more)
    requires (more ==> d != null) && (d == null ==> Pow2(s) <= n.view.bitmap) && (d != null ==> Holds(d))
    ensures Holds(m)
    ensures var b, nodes := n.view.bitmap, n.view.nodes;
            m.view == if more then Bitmap(b + Pow2(s), InsertAt(nodes, l, d.view))
                      else if d != null then Bitmap(b, nodes[l := d.view])
                      else Bitmap(b - Pow2(s), RemoveAt(nodes, l))
  {
    hide Holds, Pow2;
    InnerHeld(n);
    var b, p := n.body.bitmap, n.body.nodes;
    ghost var nodes := n.view.nodes;
    if d != null { OneMore(p.items, d); }
    if more {
      var r := SpliceIn(p, l, d);
      InsertViews(p.items, n.view, l, d, b + Pow2(s));
      StillHold(r.items, p.items + [d]);
      m := NewBitmap(b + Pow2(s), r, Bitmap(b + Pow2(s), InsertAt(nodes, l, d.view)));
    } else if d != null {
      var r := SetIn(p, l, d);
      ReplaceViews(p.items, n.view, l, d);
      StillHold(r.items, p.items + [d]);
      m := NewBitmap(b, r, Bitmap(b, nodes[l := d.view]));
    } else {
      var r := SpliceOut(p, l);
      RemoveViews(p.items, n.view, l, b - Pow2(s));
      StillHold(r.items, p.items);
      m := NewBitmap(b - Pow2(s), r, Bitmap(b - Pow2(s), RemoveAt(nodes, l)));
    }
  }

  lemma Present<K, V>(n: TrieNode<K, V>, i: nat)
    requires Holds(n) && n.view.Bitmap? && i < |n.view.nodes|
    ensures var items := n.body.nodes.items;
            && |items| == |n.view.nodes| && items[i] != null && Holds(items[i]) && items[i].view == n.view.nodes[i]
            && (IsLeafNode(items[i]) <==> n.view.nodes[i].IsLeaf())
  {
    assert Views(n.body.nodes.items)[i] == Slots(n.view)[i];
  }

  /** The node that replaces bitmap node `n` when its child at slot `s` becomes `d`. */
  method BitmapNode<K, V>(n: TrieNode<K, V>, s: nat, c: TrieNode?<K, V>, d: TrieNode?<K, V>) returns (m: TrieNode<K, V>)
    requires Holds(n) && n.view.Bitmap? && Shape(n.view) && s < 32 && ViewOf(c) == ChildAt(n.view, s)
    requires (c == null ==> d != null) && (d != null ==> Holds(d))
    ensures Holds(m) && BitmapWith(n.view, s, ViewOf(d)) == Some(m.view)
  {
    hide PopCount, Pow2, Holds, Spread, InsertAt, RemoveAt;
    InnerHeld(n);
    var b, p := n.body.bitmap, n.body.nodes;
    IndexBound(b, s);
    var l := Below(b, s);
    if c != null && |p.items| == 2 { Present(n, 1 - l); }
    if d != null { LeafHeld(d); }
    if c == null && |p.items| >= MAX_BITMAP {
      m := Expanded(n, s, d);
    } else if c != null && d == null && |p.items| == 2 && IsLeafNode(p.items[1 - l]) {
      m := p.items[1 - l];
    } else if c != null && d != null && |p.items| == 1 && IsLeafNode(d) {
      m := d;
    } else {
      if c != null { HasWeight(b, s); }
      m := BitmapEdited(n, s, l, c == null, d);
    }
  }

  /** The node that replaces 32-way node `n` when its child at slot `s` becomes `d`. */
  method ArrayNode<K, V>(n: TrieNode<K, V>, s: nat, c: TrieNode?<K, V>, d: TrieNode?<K, V>) returns (m: TrieNode<K, V>)
    requires Holds(n) && n.view.HashArray? && Shape(n.view) && s < 32 && ViewOf(c) == ChildAt(n.view, s)
    requires (c == null ==> d != null) && (d != null ==> Holds(d))
    ensures Holds(m) && ArrayWith(n.view, s, ViewOf(d)) == Some(m.view)
  {
    hide Holds, Pack, CountSome;
    InnerHeld(n);
    var count, p := n.body.count, n.body.nodes;
    if c != null && d == null && count - 1 < MIN_HASH_ARRAY {
      PackCount(n.view.slots, s, 32);
      assert n.view.slots[..32] == n.view.slots;
      var b, r := PackNodes(p, count - 1, s);
      StillHold(r.items, p.items);
      m := NewBitmap(b, r, ArrayWith(n.view, s, None).value);
    } else {
      count := if c == null then count + 1 else if d == null then count - 1 else count;
      var r := SetIn(p, s, d);
      if d != null { OneMore(p.items, d); StillHold(r.items, p.items + [d]); } else { StillHold(r.items, p.items); }
      m := NewHashArray(count, r, HashArray(count, n.view.slots[s := ViewOf(d)]));
    }
  }

  /** A child that did not change changes nothing. */
  lemma SameChild<K, V>(v: Node<K, V>, s: nat)
    requires v.IsInner() && Shape(v) && s < 32 && ChildAt(v, s).Some?
    ensures InnerWith(v, s, ChildAt(v, s)) == Some(v)
  {
    hide PopCount, Pow2, Spread;
    if v.Bitmap? {
      IndexBound(v.bitmap, s);
      assert v.nodes[Below(v.bitmap, s) := ChildAt(v, s).value] == v.nodes;
    } else {
      assert v.slots[s := ChildAt(v, s)] == v.slots;
    }
  }

  /** The node that replaces inner node `n` when its child at slot `s` becomes `d`: `n` itself if that is
      the child it has. */
  method InnerNode<K, V>(n: TrieNode<K, V>, s: nat, c: TrieNode?<K, V>, d: TrieNode?<K, V>) returns (m: TrieNode<K, V>)
    requires Holds(n) && n.view.IsInner() && Shape(n.view) && s < 32 && ViewOf(c) == ChildAt(n.view, s)
    requires (c == null ==> d != null) && (d != null ==> Holds(d))
    ensures Holds(m) && (d == c ==> m == n)
    ensures Some(m.view) == if ViewOf(d) == ViewOf(c) then Some(n.view) else InnerWith(n.view, s, ViewOf(d))
  {
    hide BitmapWith, ArrayWith, Shape, Holds;
    InnerHeld(n);
    if c != null { SameChild(n.view, s); }
    if d == c {
      m := n;
    } else if n.body.BitmapOf? {
      m := BitmapNode(n, s, c, d);
    } else {
      m := ArrayNode(n, s, c, d);
    }
  }

  // ---- Update ----

  method UpdateLeaf<K(==,!new), V(==,!new)>(h: K -> Hash, n: TrieNode<K, V>, shift: nat, k: K, op: Option<V>)
    returns (m: TrieNode?<K, V>, resized: bool, altered: bool)
    requires Holds(n) && n.view.Leaf? && Valid(h, n.view, shift, Low(h(k), shift))
    ensures Change(ViewOf(m), resized, altered) == Update(h, n.view, shift, k, op)
    ensures (m != null ==> Holds(m)) && (!altered ==> m == n)
  {
    hide Low, Pow2;
    var e := n.body.entry;
    var same := k == e.0;
    if if same then op == Some(e.1) else op.None? {
      return n, false, false;
    }
    if op.None? {
      return null, true, true;
    }
    if same {
      m := NewLeaf(n.body.keyHash, (k, op.value));
    } else {
      m := MergeNodes(n, shift, h(k), (k, op.value));
    }
    resized, altered := !same, true;
  }

  method UpdateCollision<K(==,!new), V(==,!new)>(h: K -> Hash, n: TrieNode<K, V>, shift: nat, k: K, op: Option<V>)
    returns (m: TrieNode?<K, V>, resized: bool, altered: bool)
    requires Holds(n) && n.view.Collision? && Valid(h, n.view, shift, Low(h(k), shift))
    ensures Change(ViewOf(m), resized, altered) == Update(h, n.view, shift, k, op)
    ensures (m != null ==> Holds(m)) && (!altered ==> m == n)
  {
    hide Low, Pow2, Edit;
    var x := n.body.keyHash;
    if h(k) != x {
      if op.None? {
        return n, false, false;
      }
      m := MergeNodes(n, shift, h(k), (k, op.value));
      return m, true, true;
    }
    var a := n.body.entries;
    var c := FindEntry(a, k);
    var found := c < |a.items|;
    if if found then op == Some(a.items[c].1) else op.None? {
      return n, false, false;
    }
    if op.None? && |a.items| == 2 {
      m := NewLeaf(x, a.items[1 - c]);
    } else {
      var r := EditEntries(a, c, k, op);
      m := NewCollision(x, r);
    }
    resized, altered := op.None? || !found, true;
  }

  /** The child that a key leads to. */
  method ChildOf<K, V>(n: TrieNode<K, V>, s: nat) returns (c: TrieNode?<K, V>)
    requires Holds(n) && n.view.IsInner() && Shape(n.view) && s < 32
    ensures ViewOf(c) == ChildAt(n.view, s) && (c != null ==> Holds(c))
  {
    hide PopCount, Pow2;
    InnerHeld(n);
    if n.body.HashArrayOf? {
      c := n.body.nodes.items[s];
      assert Views(n.body.nodes.items)[s] == Slots(n.view)[s];
    } else if Has(n.body.bitmap, s) {
      IndexBound(n.body.bitmap, s);
      Present(n, Below(n.body.bitmap, s));
      c := n.body.nodes.items[Below(n.body.bitmap, s)];
    } else {
      c := null;
    }
  }

  /** `update` without an owner id: a node that differs from `n` is new, and so is every array in it
      that differs from one of `n`. */
  method UpdateNode<K(==,!new), V(==,!new)>(h: K -> Hash, n: TrieNode<K, V>, shift: nat, k: K, op: Option<V>)
    returns (m: TrieNode?<K, V>, resized: bool, altered: bool)
    requires Holds(n) && Valid(h, n.view, shift, Low(h(k), shift))
    ensures Change(ViewOf(m), resized, altered) == Update(h, n.view, shift, k, op)
    ensures (m != null ==> Holds(m)) && (!altered ==> m == n)
    decreases n.view
  {
    hide Low, Pow2, Slot, InnerWith, Merge, Edit, Find, Lookup, Shape, Extend;
    if n.body.LeafOf? {
      m, resized, altered := UpdateLeaf(h, n, shift, k, op);
    } else if n.body.CollisionOf? {
      m, resized, altered := UpdateCollision(h, n, shift, k, op);
    } else {
      var s := Slot(h(k), shift);
      var c := ChildOf(n, s);
      var d: TrieNode?<K, V>;
      if c == null && op.None? {
        return n, false, false;
      }
      OnPath(h, n.view, shift, k);
      if c == null {
        d := NewLeaf(h(k), (k, op.value));
        resized, altered := true, true;
      } else {
        d, resized, altered := UpdateNode(h, c, shift + 5, k, op);
      }
      m := InnerNode(n, s, c, d);
    }
  }

  // ---- The map object ----

  class MapObject<K, V> {
    var size: int
    var root: TrieNode?<K, V>
    ghost const view: Trie<K, V>
    ghost const repr: set<object>

    constructor (size: int, root: TrieNode?<K, V>)
      ensures this.size == size && this.root == root && view == Trie(size, ViewOf(root))
      ensures repr == if root == null then {} else root.repr + {root}
    {
      this.size, this.root, view := size, root, Trie(size, ViewOf(root));
      repr := if root == null then {} else root.repr + {root};
    }
  }

  /** The objects below a map hold its view. */
  ghost predicate HoldsMap<K, V>(t: MapObject<K, V>)
    reads t, t.repr
  {
    && t.size == t.view.size && ViewOf(t.root) == t.view.root
    && (t.root != null ==> t.root in t.repr && t.root.repr <= t.repr && Holds(t.root))
  }

  /** `ce`: a full small array becomes a trie. */
  method CreateTrie<K(==,!new), V(==,!new)>(h: K -> Hash, a: Cells<(K, V)>, k: K, v: V) returns (m: TrieNode<K, V>)
    requires Distinct(a.items) && Find(a.items, k) == |a.items|
    ensures Holds(m) && m.view == CreateNodes(h, a.items, k, v)
  {
    hide Update, Get, Valid, Low;
    m := NewLeaf(h(k), (k, v));
    var es := a.items;
    assert es[..0] == [];
    for o := 0 to |es|
      invariant a.items == es && Holds(m) && Distinct(es[..o]) && Find(es[..o], k) == o
      invariant m.view == CreateNodes(h, es[..o], k, v)
    {
      NextEntry(h, es, k, v, o);
      var next, _, _ := UpdateNode(h, m, 0, es[o].0, Some(es[o].1));
      m := next;
    }
    assert es[..|es|] == es;
  }

  lemma NextEntry<K(!new), V(!new)>(h: K -> Hash, es: seq<(K, V)>, k: K, v: V, o: nat)
    requires Distinct(es) && Find(es, k) == |es| && o < |es| && Distinct(es[..o]) && Find(es[..o], k) == o
    ensures Distinct(es[..o + 1]) && Find(es[..o + 1], k) == o + 1
    ensures var r := CreateNodes(h, es[..o], k, v);
            && Valid(h, r, 0, Low(h(es[o].0), 0))
            && Some(CreateNodes(h, es[..o + 1], k, v)) == Update(h, r, 0, es[o].0, Some(es[o].1)).node
  {
    hide Update, Get, Valid;
    LowZero(h);
    var more := es[..o + 1];
    assert more[..o] == es[..o];
    Prefix(more, k);
    AppendOne(h, more, k, v, CreateNodes(h, es[..o], k, v));
  }

  method UpdateArrayMap<K(==,!new), V(==,!new)>(h: K -> Hash, n: TrieNode<K, V>, k: K, op: Option<V>)
    returns (m: TrieNode?<K, V>, resized: bool, altered: bool)
    requires Holds(n) && n.view.ArrayMap? && ValidRoot(h, n.view)
    ensures Change(ViewOf(m), resized, altered) == UpdateRoot(h, n.view, k, op)
    ensures (m != null ==> Holds(m)) && (!altered ==> m == n)
  {
    hide Edit, CreateNodes;
    var a := n.body.entries;
    var c := FindEntry(a, k);
    var found := c < |a.items|;
    if if found then op == Some(a.items[c].1) else op.None? {
      return n, false, false;
    }
    resized, altered := op.None? || !found, true;
    if op.None? && |a.items| == 1 {
      m := null;
    } else if !found && op.Some? && |a.items| >= MAX_ARRAY_MAP {
      m := CreateTrie(h, a, k, op.value);
    } else {
      var r := EditEntries(a, c, k, op);
      m := NewArrayMap(r);
    }
  }

  /** `oe`: one call of set or remove. A map that does not change is returned itself. */
  method ApplyTo<K(==,!new), V(==,!new)>(h: K -> Hash, t: MapObject<K, V>, op: Op<K, V>) returns (u: MapObject<K, V>)
    requires HoldsMap(t) && (t.view.root.Some? ==> ValidRoot(h, t.view.root.value))
    ensures HoldsMap(u) && u.view == Apply(h, t.view, op)
  {
    hide Update, Edit, CreateNodes, Lookup, Find, Low;
    if t.root == null {
      if op.value.None? {
        return t;
      }
      var c := new Cells([(op.key, op.value.value)]);
      var n := NewArrayMap(c);
      u := new MapObject(1, n);
    } else {
      var m: TrieNode?<K, V>, resized: bool, altered: bool;
      if t.root.body.ArrayMapOf? {
        m, resized, altered := UpdateArrayMap(h, t.root, op.key, op.value);
      } else {
        LowZero(h);
        m, resized, altered := UpdateNode(h, t.root, 0, op.key, op.value);
      }
      if !altered {
        return t;
      }
      var size := t.size + if !resized then 0 else if op.value.None? then -1 else 1;
      u := new MapObject(if m == null then EMPTY_SIZE else size, m);
    }
  }

  method GetNode<K(==,!new), V(!new)>(h: K -> Hash, n: TrieNode<K, V>, shift: nat, k: K) returns (v: Option<V>)
    requires Holds(n) && Valid(h, n.view, shift, Low(h(k), shift))
    ensures v == Get(h, n.view, shift, k)
    decreases n.view
  {
    hide Low, Slot, Pow2;
    if n.body.LeafOf? {
      v := if k == n.body.entry.0 then Some(n.body.entry.1) else None;
    } else if n.body.CollisionOf? {
      var c := FindEntry(n.body.entries, k);
      v := if c < |n.body.entries.items| then Some(n.body.entries.items[c].1) else None;
    } else {
      OnPath(h, n.view, shift, k);
      var c := ChildOf(n, Slot(h(k), shift));
      if c == null { v := None; } else { v := GetNode(h, c, shift + 5, k); }
    }
  }

  /** `get` of a map object. */
  method GetFrom<K(==,!new), V(!new)>(h: K -> Hash, t: MapObject<K, V>, k: K) returns (v: Option<V>)
    requires HoldsMap(t) && (t.view.root.Some? ==> ValidRoot(h, t.view.root.value))
    ensures v == GetKey(h, t.view, k)
  {
    hide Low, Valid, Get;
    if t.root == null {
      v := None;
    } else if t.root.body.ArrayMapOf? {
      var a := t.root.body.entries;
      var c := FindEntry(a, k);
      v := if c < |a.items| then Some(a.items[c].1) else None;
    } else {
      LowZero(h);
      v := GetNode(h, t.root, 0, k);
    }
  }

  /** The versions after each call of a history. Once all calls have been made, every version, however
      early, still holds exactly the bindings of the finite map at its point of the history. */
  method History<K(==,!new), V(==,!new)>(h: K -> Hash, ops: seq<Op<K, V>>) returns (versions: seq<MapObject<K, V>>)
    ensures |versions| == |ops| + 1
    ensures forall i | 0 <= i <= |ops| ::
              HoldsMap(versions[i]) && Agrees(h, versions[i].view, RunMap(map[], ops[..i]))
  {
    hide Apply, RunMap, Agrees, ValidRoot;
    var t := new MapObject<K, V>(EMPTY_SIZE, null);
    versions := [t];
    EveryHistory(h, ops[..0]);
    assert ops[..0] == [];
    for i := 0 to |ops|
      invariant |versions| == i + 1 && t == versions[i] && t.view == Run(h, Trie(EMPTY_SIZE, None), ops[..i])
      invariant forall j | 0 <= j <= i :: HoldsMap(versions[j])
      invariant forall j | 0 <= j <= i :: Agrees(h, versions[j].view, RunMap(map[], ops[..j]))
    {
      assert ops[..i + 1][..i] == ops[..i];
      t := ApplyTo(h, t, ops[i]);
      versions := versions + [t];
      EveryHistory(h, ops[..i + 1]);
    }
  }
}
