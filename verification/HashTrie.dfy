/**
  * The persistent hash trie map (bundle module 3) without an owner id: the five node kinds,
  * lookup, update and the map object on top.  Keys are taken up to the equality of the source;
  * `h` is any hash function on them.
  */
module HashTrie {
  import opened Options
  import opened Division
  import opened TrieBits

  type Hash = x: nat | x < WORD

  const MAX_ARRAY_MAP: nat := 8
  const MAX_BITMAP: nat := 16
  const MIN_HASH_ARRAY: nat := 8

  /** Small array (only as a root), bitmap, 32-way array, collision bucket, single entry. */
  datatype Node<K, V> =
    | ArrayMap(entries: seq<(K, V)>)
    | Bitmap(bitmap: nat, nodes: seq<Node<K, V>>)
    | HashArray(count: nat, slots: seq<Option<Node<K, V>>>)
    | Collision(keyHash: Hash, entries: seq<(K, V)>)
    | Leaf(keyHash: Hash, entry: (K, V))
  {
    predicate IsLeaf() { Leaf? || Collision? }

    predicate IsInner() { Bitmap? || HashArray? }
  }

  /** What an update returns: the new node, if any, and the two flags of the source. */
  datatype Change<K, V> = Change(node: Option<Node<K, V>>, resized: bool, altered: bool)

  // ---- Slots and prefixes ----

  function Slot(x: Hash, shift: nat): (s: nat)
    ensures s < 32
  {
    x / Pow2(shift) % 32
  }

  function Low(x: Hash, shift: nat): nat {
    x % Pow2(shift)
  }

  function Extend(prefix: nat, s: nat, shift: nat): nat {
    prefix + s * Pow2(shift)
  }

  lemma LowStep(x: Hash, shift: nat)
    ensures Low(x, shift + 5) == Extend(Low(x, shift), Slot(x, shift), shift)
  {
    var p := Pow2(shift);
    PowAdd(shift, 5);
    assert Pow2(5) == 32;
    LowDigit(x, p, x / p, x % p);
  }

  /** The remainder by `32 * p` is one more digit and the remainder by `p`. */
  lemma LowDigit(x: nat, p: nat, q: nat, r: nat)
    requires x == q * p + r && r < p
    ensures x % (p * 32) == r + q % 32 * p
  {
    var hi, s := q / 32, q % 32;
    MulAssoc(hi, 32, p);
    assert q * p == hi * 32 * p + s * p;
    MulGap(s, 32, p);
    DivModUnique(x, p * 32, hi, s * p + r);
  }

  lemma MulAssoc(a: nat, b: nat, c: nat)
    ensures a * b * c == a * (c * b)
  {
  }

  /** Extensions of prefixes below 2^shift determine both the prefix and the slot. */
  lemma ExtendInjective(p: nat, s: nat, q: nat, t: nat, shift: nat)
    requires p < Pow2(shift) && q < Pow2(shift)
    requires Extend(p, s, shift) == Extend(q, t, shift)
    ensures p == q && s == t
  {
    DivModUnique(p + s * Pow2(shift), Pow2(shift), s, p);
    DivModUnique(q + t * Pow2(shift), Pow2(shift), t, q);
  }

  lemma LowAll(x: Hash, shift: nat)
    requires shift >= 35
    ensures Low(x, shift) == x
  {
    Masks();
    PowMono(32, shift);
    DivModUnique(x, Pow2(shift), 0, x);
  }

  // ---- Entry lists ----

  /** The position of a key, or the length when it is absent. */
  function Find<K(==), V>(es: seq<(K, V)>, k: K): (i: nat)
    ensures i <= |es|
    ensures i < |es| ==> es[i].0 == k
    ensures forall j | 0 <= j < i :: es[j].0 != k
  {
    if es == [] then 0 else if es[0].0 == k then 0 else 1 + Find(es[1..], k)
  }

  function Lookup<K(==), V>(es: seq<(K, V)>, k: K): Option<V> {
    var i := Find(es, k);
    if i < |es| then Some(es[i].1) else None
  }

  ghost predicate Distinct<K, V>(es: seq<(K, V)>) {
    forall i, j | 0 <= i < j < |es| :: es[i].0 != es[j].0
  }

  /** Overwrite, append, or remove by moving the last entry into the gap. */
  function Edit<K(==), V>(es: seq<(K, V)>, k: K, op: Option<V>): (r: seq<(K, V)>)
    requires Find(es, k) < |es| || op.Some?
  {
    var i, n := Find(es, k), |es| - 1;
    if i == |es| then es + [(k, op.value)]
    else if op.Some? then es[i := (k, op.value)]
    else if i == n then es[..n]
    else es[..n][i := es[n]]
  }

  lemma FindIs<K, V>(es: seq<(K, V)>, k: K, i: nat)
    requires i < |es| && es[i].0 == k && Distinct(es)
    ensures Find(es, k) == i
  {
  }

  lemma EditDistinct<K, V>(es: seq<(K, V)>, k: K, op: Option<V>)
    requires Distinct(es) && (Find(es, k) < |es| || op.Some?)
    ensures Distinct(Edit(es, k, op))
    ensures forall e | e in Edit(es, k, op) :: e.0 == k || e in es
  {
    EditKeys(es, k, op);
    EditMembers(es, k, op);
  }

  lemma EditKeys<K, V>(es: seq<(K, V)>, k: K, op: Option<V>)
    requires Distinct(es) && (Find(es, k) < |es| || op.Some?)
    ensures Distinct(Edit(es, k, op))
  {
    hide Find;
    var i, n, r := Find(es, k), |es| - 1, Edit(es, k, op);
    assert i < |es| && op.None? ==> forall j | 0 <= j < |r| :: r[j] == if j == i then es[n] else es[j];
  }

  lemma EditMembers<K, V>(es: seq<(K, V)>, k: K, op: Option<V>)
    requires Find(es, k) < |es| || op.Some?
    ensures forall e | e in Edit(es, k, op) :: e.0 == k || e in es
  {
    hide Find;
  }

  lemma EditLookup<K, V>(es: seq<(K, V)>, k: K, op: Option<V>, k': K)
    requires Distinct(es) && (Find(es, k) < |es| || op.Some?)
    ensures Lookup(Edit(es, k, op), k') == if k' == k then op else Lookup(es, k')
  {
    EditDistinct(es, k, op);
    if k' == k {
      EditLookupSame(es, k, op);
    } else {
      EditLookupOther(es, k, op, k');
    }
  }

  lemma LookupPresent<K, V>(es: seq<(K, V)>, k: K, i: nat)
    requires i < |es| && es[i].0 == k && Distinct(es)
    ensures Lookup(es, k) == Some(es[i].1)
  {
    FindIs(es, k, i);
  }

  lemma LookupAbsent<K, V>(es: seq<(K, V)>, k: K)
    requires forall i | 0 <= i < |es| :: es[i].0 != k
    ensures Lookup(es, k) == None
  {
  }

  lemma EditLookupSame<K, V>(es: seq<(K, V)>, k: K, op: Option<V>)
    requires Distinct(es) && (Find(es, k) < |es| || op.Some?)
    requires Distinct(Edit(es, k, op))
    ensures Lookup(Edit(es, k, op), k) == op
  {
    hide Find, Lookup;
    var r, i := Edit(es, k, op), Find(es, k);
    if op.Some? {
      LookupPresent(r, k, i);
    } else {
      assert forall m | 0 <= m < |r| :: r[m].0 != k;
      LookupAbsent(r, k);
    }
  }

  lemma EditLookupOther<K, V>(es: seq<(K, V)>, k: K, op: Option<V>, k': K)
    requires Distinct(es) && (Find(es, k) < |es| || op.Some?) && k' != k
    requires Distinct(Edit(es, k, op))
    ensures Lookup(Edit(es, k, op), k') == Lookup(es, k')
  {
    hide Find, Lookup, Edit, Distinct;
    var r, j := Edit(es, k, op), Find(es, k');
    if j < |es| {
      var m := EditMoves(es, k, op, j);
      LookupPresent(r, k', m);
      LookupPresent(es, k', j);
    } else {
      EditDistinct(es, k, op);
      forall m | 0 <= m < |r| ensures r[m].0 != k' { assert r[m] in r; }
      LookupAbsent(r, k');
      LookupAbsent(es, k');
    }
  }

  /** Where an edit of `k` leaves the entry at `j` of another key. */
  lemma EditMoves<K, V>(es: seq<(K, V)>, k: K, op: Option<V>, j: nat) returns (m: nat)
    requires (Find(es, k) < |es| || op.Some?) && j < |es| && es[j].0 != k
    ensures m < |Edit(es, k, op)| && Edit(es, k, op)[m] == es[j]
  {
    hide Find;
    var i := Find(es, k);
    m := if i < |es| && op.None? && j == |es| - 1 then i else j;
  }

  // ---- Inner nodes ----

  function CountSome<T>(slots: seq<Option<T>>): (c: nat)
    ensures c <= |slots|
  {
    if slots == [] then 0
    else CountSome(slots[..|slots| - 1]) + if slots[|slots| - 1].Some? then 1 else 0
  }

  /** The shape of an inner node: child count, bitmap and array length agree. */
  ghost predicate Shape<K, V>(n: Node<K, V>) {
    match n
    case Bitmap(b, nodes) =>
      && b < WORD && PopCount(b) == |nodes| && 1 <= |nodes| <= MAX_BITMAP
      && (|nodes| == 1 ==> !nodes[0].IsLeaf())
    case HashArray(count, slots) =>
      |slots| == 32 && count == CountSome(slots) && count >= MIN_HASH_ARRAY
    case _ => false
  }

  lemma BelowInRange(b: nat, s: nat)
    requires b < WORD && s < 32 && Has(b, s)
    ensures Below(b, s) < PopCount(b)
  {
    Masks();
    BelowAll(b, 32);
    BelowMono(b, s, 32);
  }

  lemma BelowInjective(b: nat, s: nat, t: nat)
    requires b < WORD && Has(b, s) && Has(b, t) && Below(b, s) == Below(b, t)
    ensures s == t
  {
    if s < t { BelowMono(b, s, t); } else if t < s { BelowMono(b, t, s); }
  }

  /** A bitmap node over a word: enough for its children to be read. */
  ghost predicate Fits<K, V>(b: nat, nodes: seq<Node<K, V>>) {
    b < WORD && PopCount(b) == |nodes|
  }

  function At<K, V>(b: nat, nodes: seq<Node<K, V>>, s: nat): (c: Option<Node<K, V>>)
    requires Fits(b, nodes) && s < 32
    ensures c.Some? ==> Below(b, s) < |nodes| && c.value == nodes[Below(b, s)]
  {
    if Has(b, s) then BelowInRange(b, s); Some(nodes[Below(b, s)]) else None
  }

  function ChildAt<K, V>(n: Node<K, V>, s: nat): (c: Option<Node<K, V>>)
    requires Shape(n) && s < 32
    ensures c.Some? ==> c.value < n
  {
    if n.HashArray? then n.slots[s] else At(n.bitmap, n.nodes, s)
  }

  /** Everything the trie relies on: shape, distinct keys, hashes, and keys stored on their own path. */
  ghost predicate Valid<K(!new), V(!new)>(h: K -> Hash, n: Node<K, V>, shift: nat, prefix: nat)
    decreases n
  {
    && shift % 5 == 0 && shift <= 35 && prefix < Pow2(shift)
    && match n
       case ArrayMap(_) => false
       case Leaf(x, e) => x == h(e.0) && Low(x, shift) == prefix
       case Collision(x, es) =>
         && |es| >= 2 && Distinct(es) && Low(x, shift) == prefix
         && forall i | 0 <= i < |es| :: h(es[i].0) == x
       case _ =>
         && shift <= 30 && Shape(n)
         && forall s | 0 <= s < 32 && ChildAt(n, s).Some? ::
              Valid(h, ChildAt(n, s).value, shift + 5, Extend(prefix, s, shift))
  }

  /** The child a lookup of `k` descends into holds `k`'s path. */
  lemma OnPath<K(!new), V(!new)>(h: K -> Hash, n: Node<K, V>, shift: nat, k: K)
    requires n.IsInner() && Valid(h, n, shift, Low(h(k), shift))
    ensures var c := ChildAt(n, Slot(h(k), shift));
            c.Some? ==> Valid(h, c.value, shift + 5, Low(h(k), shift + 5))
  {
    LowStep(h(k), shift);
  }

  function Get<K(==,!new), V(!new)>(h: K -> Hash, n: Node<K, V>, shift: nat, k: K): Option<V>
    requires Valid(h, n, shift, Low(h(k), shift))
    decreases n
  {
    if n.Leaf? then (if n.entry.0 == k then Some(n.entry.1) else None)
    else if n.Collision? then Lookup(n.entries, k)
    else
      OnPath(h, n, shift, k);
      match ChildAt(n, Slot(h(k), shift))
      case None => None
      case Some(c) => Get(h, c, shift + 5, k)
  }

  // ---- Update ----

  function Unaltered<K, V>(n: Option<Node<K, V>>): Change<K, V> {
    Change(n, false, false)
  }

  lemma ShiftBound(x: Hash, y: Hash, shift: nat)
    requires shift % 5 == 0 && shift <= 35 && x != y && Low(x, shift) == Low(y, shift)
    ensures shift <= 30
  {
    if shift == 35 {
      LowAll(x, 35);
      LowAll(y, 35);
    }
  }

  lemma SameSlot(x: Hash, y: Hash, shift: nat)
    requires Low(x, shift) == Low(y, shift) && Slot(x, shift) == Slot(y, shift)
    ensures Low(x, shift + 5) == Low(y, shift + 5)
  {
    LowStep(x, shift);
    LowStep(y, shift);
  }

  /** Leaf `n` and a new entry of hash `x` meet at level `shift`. */
  ghost predicate Meet<K, V>(n: Node<K, V>, shift: nat, x: Hash) {
    && (n.Leaf? || (n.Collision? && n.keyHash != x))
    && shift % 5 == 0 && shift <= 35 && Low(n.keyHash, shift) == Low(x, shift)
  }

  lemma MeetLower<K, V>(n: Node<K, V>, shift: nat, x: Hash)
    requires Meet(n, shift, x) && n.keyHash != x
    ensures shift <= 30
    ensures Slot(n.keyHash, shift) == Slot(x, shift) ==> Meet(n, shift + 5, x)
  {
    hide Low, Slot;
    ShiftBound(n.keyHash, x, shift);
    if Slot(n.keyHash, shift) == Slot(x, shift) {
      SameSlot(n.keyHash, x, shift);
    }
  }

  /** Two leaves under one node: descend until their slots differ.  Distinct 32-bit hashes that
      agree below `shift` differ in a slot at shift 30 or before, which bounds the recursion. */
  function Merge<K, V>(n: Node<K, V>, shift: nat, x: Hash, e: (K, V)): Node<K, V>
    requires Meet(n, shift, x)
    decreases 35 - shift
  {
    if n.keyHash == x then Collision(x, [n.entry, e])
    else
      var s, t := Slot(n.keyHash, shift), Slot(x, shift);
      MeetLower(n, shift, x);
      if s == t then Bitmap(Pow2(s), [Merge(n, shift + 5, x, e)]) else Fork(n, s, Leaf(x, e), t)
  }

  function Fork<K, V>(n: Node<K, V>, s: nat, m: Node<K, V>, t: nat): Node<K, V> {
    Bitmap(Pow2(s) + Pow2(t), if s < t then [n, m] else [m, n])
  }

  /** Pack the present slots below `i`, except `skip`, into a bitmap node. */
  function Pack<K, V>(slots: seq<Option<Node<K, V>>>, skip: nat, i: nat): (r: (nat, seq<Node<K, V>>))
    requires i <= |slots|
  {
    if i == 0 then (0, [])
    else
      var (b, nodes) := Pack(slots, skip, i - 1);
      if slots[i - 1].Some? && i - 1 != skip then (b + Pow2(i - 1), nodes + [slots[i - 1].value]) else (b, nodes)
  }

  /** Spread a bitmap node over 32 slots. */
  function Spread<K, V>(n: Node<K, V>): (r: seq<Option<Node<K, V>>>)
    requires n.Bitmap? && Shape(n)
    ensures |r| == 32
  {
    seq(32, s requires 0 <= s < 32 => ChildAt(n, s))
  }

  function InsertAt<T>(xs: seq<T>, i: nat, x: T): seq<T>
    requires i <= |xs|
  {
    xs[..i] + [x] + xs[i..]
  }

  function RemoveAt<T>(xs: seq<T>, i: nat): seq<T>
    requires i < |xs|
  {
    xs[..i] + xs[i + 1..]
  }

  /** The node that replaces bitmap node `n` when its child at slot `s` becomes `d`. */
  function BitmapWith<K(==), V(==)>(n: Node<K, V>, s: nat, d: Option<Node<K, V>>): Option<Node<K, V>>
    requires n.Bitmap? && Shape(n) && s < 32
    requires ChildAt(n, s).None? ==> d.Some?
  {
    var b, nodes, c := n.bitmap, n.nodes, ChildAt(n, s);
    IndexBound(b, s);
    var i := Below(b, s);
    if c.None? && |nodes| >= MAX_BITMAP then Some(HashArray(|nodes| + 1, Spread(n)[s := d]))
    else if c.Some? && d.None? && |nodes| == 2 && nodes[1 - i].IsLeaf() then Some(nodes[1 - i])
    else if c.Some? && d.Some? && |nodes| == 1 && d.value.IsLeaf() then d
    else if c.None? then Some(Bitmap(b + Pow2(s), InsertAt(nodes, i, d.value)))
    else if d.Some? then Some(Bitmap(b, nodes[i := d.value]))
    else HasWeight(b, s); Some(Bitmap(b - Pow2(s), RemoveAt(nodes, i)))
  }

  lemma IndexBound(b: nat, s: nat)
    requires b < WORD && s < 32
    ensures Below(b, s) <= PopCount(b)
    ensures Has(b, s) ==> Below(b, s) < PopCount(b)
  {
    Masks();
    BelowAll(b, 32);
    BelowMono(b, s, 32);
  }

  /** The node that replaces array node `n` when its child at slot `s` becomes `d`. */
  function ArrayWith<K(==), V(==)>(n: Node<K, V>, s: nat, d: Option<Node<K, V>>): Option<Node<K, V>>
    requires n.HashArray? && Shape(n) && s < 32
    requires ChildAt(n, s).None? ==> d.Some?
  {
    var c := ChildAt(n, s);
    if c.Some? && d.None? && n.count - 1 < MIN_HASH_ARRAY then
      var (b, nodes) := Pack(n.slots, s, 32);
      Some(Bitmap(b, nodes))
    else
      var count := if c.None? then n.count + 1 else if d.None? then n.count - 1 else n.count;
      Some(HashArray(count, n.slots[s := d]))
  }

  function InnerWith<K(==), V(==)>(n: Node<K, V>, s: nat, d: Option<Node<K, V>>): Option<Node<K, V>>
    requires n.IsInner() && Shape(n) && s < 32
    requires ChildAt(n, s).None? ==> d.Some?
  {
    if n.Bitmap? then BitmapWith(n, s, d) else ArrayWith(n, s, d)
  }

  /** Set `k` to `op.value`, or remove `k` when `op` is None. */
  function Update<K(==,!new), V(==,!new)>(h: K -> Hash, n: Node<K, V>, shift: nat, k: K, op: Option<V>): Change<K, V>
    requires Valid(h, n, shift, Low(h(k), shift))
    decreases n
  {
    if n.Leaf? then
      var same := n.entry.0 == k;
      if (if same then op == Some(n.entry.1) else op.None?) then Unaltered(Some(n))
      else if op.None? then Change(None, true, true)
      else if same then Change(Some(Leaf(n.keyHash, (k, op.value))), false, true)
      else Change(Some(Merge(n, shift, h(k), (k, op.value))), true, true)
    else if n.Collision? then
      if h(k) != n.keyHash then
        if op.None? then Unaltered(Some(n)) else Change(Some(Merge(n, shift, h(k), (k, op.value))), true, true)
      else
        var es, i := n.entries, Find(n.entries, k);
        if Lookup(es, k) == op then Unaltered(Some(n))
        else if op.None? && |es| == 2 then Change(Some(Leaf(n.keyHash, es[1 - i])), true, true)
        else Change(Some(Collision(n.keyHash, Edit(es, k, op))), op.None? || i == |es|, true)
    else
      var s := Slot(h(k), shift);
      var c := ChildAt(n, s);
      if c.None? && op.None? then Unaltered(Some(n))
      else
        OnPath(h, n, shift, k);
        var r := if c.Some? then Update(h, c.value, shift + 5, k, op)
                 else Change(Some(Leaf(h(k), (k, op.value))), true, true);
        if r.node == c then Change(Some(n), r.resized, r.altered)
        else Change(InnerWith(n, s, r.node), r.resized, r.altered)
  }

  // ---- Replacing one child of an inner node ----

  lemma InsertChild<K, V>(b: nat, nodes: seq<Node<K, V>>, s: nat, d: Node<K, V>, t: nat)
    requires Fits(b, nodes) && s < 32 && t < 32 && !Has(b, s)
    ensures Below(b, s) <= |nodes|
    ensures Fits(b + Pow2(s), InsertAt(nodes, Below(b, s), d))
    ensures At(b + Pow2(s), InsertAt(nodes, Below(b, s), d), t) == if t == s then Some(d) else At(b, nodes, t)
  {
    hide PopCount, Pow2, Has, Below;
    InsertFits(b, s);
    BelowSet(b, s, t);
    SetBit(b, s, t);
    IndexBound(b, t);
    var i, nodes' := Below(b, s), InsertAt(nodes, Below(b, s), d);
    if t < s {
      BelowMono(b, t, s);
      assert forall j | 0 <= j < i :: nodes'[j] == nodes[j];
    } else if s < t {
      BelowMono(b, s, t);
      assert forall j | i <= j < |nodes| :: nodes'[j + 1] == nodes[j];
    }
  }

  lemma InsertFits(b: nat, s: nat)
    requires b < WORD && s < 32 && !Has(b, s)
    ensures b + Pow2(s) < WORD && PopCount(b + Pow2(s)) == PopCount(b) + 1 && Below(b, s) <= PopCount(b)
  {
    hide PopCount, Pow2, Has, Below;
    Masks();
    SetBitBound(b, s, 32);
    BelowAll(b, 32);
    BelowAll(b + Pow2(s), 32);
    BelowSet(b, s, 32);
    IndexBound(b, s);
  }

  lemma RemoveChild<K, V>(b: nat, nodes: seq<Node<K, V>>, s: nat, t: nat)
    requires Fits(b, nodes) && s < 32 && t < 32 && Has(b, s)
    ensures Pow2(s) <= b && Below(b, s) < |nodes|
    ensures Fits(b - Pow2(s), RemoveAt(nodes, Below(b, s)))
    ensures At(b - Pow2(s), RemoveAt(nodes, Below(b, s)), t) == if t == s then None else At(b, nodes, t)
  {
    hide PopCount, Pow2, Has, Below;
    HasWeight(b, s);
    var c, i := b - Pow2(s), Below(b, s);
    BelowInRange(b, s);
    var rest := RemoveAt(nodes, i);
    Masks();
    BelowAll(b, 32);
    BelowAll(c, 32);
    BelowSet(c, s, 32);
    BelowSet(c, s, s);
    assert InsertAt(rest, i, nodes[i]) == nodes;
    InsertChild(c, rest, s, nodes[i], t);
  }

  lemma ReplaceChild<K, V>(b: nat, nodes: seq<Node<K, V>>, s: nat, d: Node<K, V>, t: nat)
    requires Fits(b, nodes) && s < 32 && t < 32 && Has(b, s)
    ensures Below(b, s) < |nodes|
    ensures Fits(b, nodes[Below(b, s) := d])
    ensures At(b, nodes[Below(b, s) := d], t) == if t == s then Some(d) else At(b, nodes, t)
  {
    BelowInRange(b, s);
    if Has(b, t) {
      BelowInRange(b, t);
      if t != s && Below(b, t) == Below(b, s) { BelowInjective(b, s, t); }
    }
  }

  lemma EmptyAt<K, V>(t: nat)
    requires t < 32
    ensures Fits<K, V>(0, []) && At<K, V>(0, [], t) == None
  {
    NoBits(t);
  }

  lemma SingleAt<K, V>(s: nat, n: Node<K, V>, t: nat)
    requires s < 32 && t < 32
    ensures Fits(Pow2(s), [n]) && At(Pow2(s), [n], t) == if t == s then Some(n) else None
  {
    hide At;
    EmptyAt<K, V>(t);
    NoBits(s);
    InsertChild(0, [], s, n, t);
    assert InsertAt([], 0, n) == [n];
  }

  lemma ForkAt<K, V>(n: Node<K, V>, s: nat, m: Node<K, V>, t: nat, u: nat)
    requires s < 32 && t < 32 && u < 32 && s != t
    ensures var f := Fork(n, s, m, t);
            && Fits(f.bitmap, f.nodes) && |f.nodes| == 2
            && At(f.bitmap, f.nodes, u) == if u == s then Some(n) else if u == t then Some(m) else None
  {
    hide At, Pow2, PopCount, Has, Below;
    SingleAt(s, n, u);
    NoBits(s);
    NoBits(t);
    SetBit(0, s, t);
    BelowSet(0, s, t);
    InsertChild(Pow2(s), [n], t, m, u);
    assert InsertAt([n], 1, m) == [n, m] && InsertAt([n], 0, m) == [m, n];
  }

  lemma {:induction false} PackAt<K, V>(slots: seq<Option<Node<K, V>>>, skip: nat, i: nat, t: nat)
    requires i <= |slots| == 32 && t < 32
    ensures var (b, nodes) := Pack(slots, skip, i);
            && b < Pow2(i) && Fits(b, nodes)
            && At(b, nodes, t) == (if t < i && t != skip then slots[t] else None)
    decreases i
  {
    if i == 0 {
      EmptyAt<K, V>(t);
    } else {
      hide At, Pow2, PopCount, Has, Below, Fits;
      PackAt(slots, skip, i - 1, t);
      var (b, nodes) := Pack(slots, skip, i - 1);
      PowMono(i - 1, i);
      if slots[i - 1].Some? && i - 1 != skip {
        PackOne(b, nodes, i - 1, slots[i - 1].value, t);
      }
    }
  }

  /** One more child behind the others. */
  lemma PackOne<K, V>(b: nat, nodes: seq<Node<K, V>>, s: nat, d: Node<K, V>, t: nat)
    requires s < 32 && t < 32 && b < Pow2(s) && Fits(b, nodes)
    ensures b + Pow2(s) < Pow2(s + 1) && Fits(b + Pow2(s), nodes + [d])
    ensures At(b + Pow2(s), nodes + [d], t) == if t == s then Some(d) else At(b, nodes, t)
  {
    hide At, Pow2, PopCount, Has, Below;
    HighBit(b, s);
    PowMono(s, s + 1);
    SetBitBound(b, s, s + 1);
    InsertChild(b, nodes, s, d, t);
    assert InsertAt(nodes, |nodes|, d) == nodes + [d];
  }

  lemma {:induction false} PackCount<K, V>(slots: seq<Option<Node<K, V>>>, skip: nat, i: nat)
    requires i <= |slots|
    ensures |Pack(slots, skip, i).1| == CountSome(slots[..i]) - if skip < i && slots[skip].Some? then 1 else 0
    decreases i
  {
    if i > 0 {
      PackCount(slots, skip, i - 1);
      assert slots[..i][..i - 1] == slots[..i - 1];
    }
  }

  lemma {:induction false} CountSomeSet<T>(slots: seq<Option<T>>, s: nat, d: Option<T>)
    requires s < |slots|
    ensures CountSome(slots[s := d]) ==
            CountSome(slots) - (if slots[s].Some? then 1 else 0) + (if d.Some? then 1 else 0)
  {
    var n := |slots| - 1;
    if s == n {
      assert slots[s := d][..n] == slots[..n];
    } else {
      assert slots[s := d][..n] == slots[..n][s := d];
      CountSomeSet(slots[..n], s, d);
    }
  }

  lemma {:induction false} SpreadCount<K, V>(n: Node<K, V>, i: nat)
    requires n.Bitmap? && Shape(n) && i <= 32
    ensures CountSome(Spread(n)[..i]) == Below(n.bitmap, i)
  {
    if i == 0 {
      NoBits(0);
      assert Pow2(0) == 1;
    } else {
      SpreadCount(n, i - 1);
      BelowStep(n.bitmap, i - 1);
      assert Spread(n)[..i][..i - 1] == Spread(n)[..i - 1];
    }
  }

  /** The children of `n` with the one at slot `s` replaced by `d`. */
  function Child<K, V>(n: Node<K, V>, s: nat, d: Option<Node<K, V>>, t: nat): Option<Node<K, V>>
    requires Shape(n) && t < 32
  {
    if t == s then d else ChildAt(n, t)
  }

  /** The child at `s` may become `d`: it does not stay absent, and only a leaf disappears. */
  ghost predicate MayBecome<K, V>(n: Node<K, V>, s: nat, d: Option<Node<K, V>>) {
    n.IsInner() && Shape(n) && s < 32 && (d.Some? || (ChildAt(n, s).Some? && ChildAt(n, s).value.IsLeaf()))
  }

  lemma ExpandWith<K, V>(n: Node<K, V>, s: nat, d: Node<K, V>, t: nat)
    requires n.Bitmap? && Shape(n) && s < 32 && t < 32
    requires ChildAt(n, s).None? && |n.nodes| == MAX_BITMAP
    ensures var m := HashArray(|n.nodes| + 1, Spread(n)[s := Some(d)]);
            Shape(m) && ChildAt(m, t) == Child(n, s, Some(d), t)
  {
    hide At, PopCount, Below, Pow2;
    CountSomeSet(Spread(n), s, Some(d));
    SpreadCount(n, 32);
    assert Spread(n)[..32] == Spread(n);
    Masks();
    BelowAll(n.bitmap, 32);
  }

  lemma BitmapWithInner<K, V>(n: Node<K, V>, s: nat, d: Option<Node<K, V>>, t: nat)
    requires n.Bitmap? && MayBecome(n, s, d) && t < 32
    ensures var r := BitmapWith(n, s, d);
            r.Some? && (r.value.IsLeaf() || (Shape(r.value) && ChildAt(r.value, t) == Child(n, s, d, t)))
  {
    hide PopCount, Below, Pow2, Has;
    var b, nodes := n.bitmap, n.nodes;
    if ChildAt(n, s).None? {
      if |nodes| == MAX_BITMAP {
        ExpandWith(n, s, d.value, t);
      } else {
        InsertChild(b, nodes, s, d.value, t);
      }
    } else if d.Some? {
      ReplaceChild(b, nodes, s, d.value, t);
    } else {
      RemoveChild(b, nodes, s, t);
    }
  }

  lemma ArrayWithInner<K, V>(n: Node<K, V>, s: nat, d: Option<Node<K, V>>, t: nat)
    requires n.HashArray? && MayBecome(n, s, d) && t < 32
    ensures var r := ArrayWith(n, s, d);
            r.Some? && Shape(r.value) && ChildAt(r.value, t) == Child(n, s, d, t)
  {
    CountSomeSet(n.slots, s, d);
    if n.slots[s].Some? && d.None? && n.count - 1 < MIN_HASH_ARRAY {
      hide PopCount, Below, Pow2, Has, At, Pack, CountSome;
      PackedInner(n, s, t);
    } else {
      hide PopCount, Below, Pow2, Has, At, Pack, CountSome;
    }
  }

  lemma PackedInner<K, V>(n: Node<K, V>, s: nat, t: nat)
    requires n.HashArray? && Shape(n) && s < 32 && t < 32 && n.slots[s].Some? && n.count <= MIN_HASH_ARRAY
    ensures var (b, nodes) := Pack(n.slots, s, 32);
            Shape(Bitmap(b, nodes)) && ChildAt(Bitmap(b, nodes), t) == Child(n, s, None, t)
  {
    hide PopCount, Below, Pow2, Has, At, CountSome;
    PackAt(n.slots, s, 32, t);
    PackCount(n.slots, s, 32);
    assert n.slots[..32] == n.slots;
    Masks();
  }

  /** When an inner node collapses into a leaf, that leaf is its only remaining child. */
  lemma WithLeaf<K, V>(n: Node<K, V>, s: nat, d: Option<Node<K, V>>) returns (u: nat)
    requires MayBecome(n, s, d) && InnerWith(n, s, d).Some? && InnerWith(n, s, d).value.IsLeaf()
    ensures n.Bitmap? && u < 32 && Child(n, s, d, u) == InnerWith(n, s, d)
    ensures forall t | 0 <= t < 32 && t != u :: Child(n, s, d, t).None?
  {
    if n.HashArray? {
      ArrayWithInner(n, s, d, s);
      assert false;
    }
    hide PopCount, Below, Pow2;
    var b, i := n.bitmap, Below(n.bitmap, s);
    if d.Some? {
      u := s;
      forall t | 0 <= t < 32 && t != s ensures ChildAt(n, t).None? { OnlySlots(b, s, s, t); }
    } else {
      u := OtherSlot(b, s);
      forall t | 0 <= t < 32 && t != u ensures Child(n, s, d, t).None? {
        if t != s { OnlySlots(b, s, u, t); }
      }
    }
  }

  lemma OtherSlot(b: nat, s: nat) returns (u: nat)
    requires b < WORD && s < 32 && Has(b, s) && PopCount(b) == 2
    ensures u < 32 && u != s && Has(b, u) && Below(b, s) < 2 && Below(b, u) == 1 - Below(b, s)
  {
    hide PopCount, Below, Pow2, Has;
    Masks();
    BelowAll(b, 32);
    BelowInRange(b, s);
    u := SlotOf(b, 32, 1 - Below(b, s));
  }

  lemma OnlySlots(b: nat, s: nat, u: nat, t: nat)
    requires b < WORD && s < 32 && u < 32 && t < 32 && Has(b, s) && Has(b, u)
    requires PopCount(b) == (if s == u then 1 else 2) && t != s && t != u
    ensures !Has(b, t)
  {
    hide PopCount, Below, Pow2, Has;
    if Has(b, t) {
      BelowInRange(b, s);
      BelowInRange(b, u);
      BelowInRange(b, t);
      if Below(b, t) == Below(b, s) { BelowInjective(b, s, t); }
      else if Below(b, t) == Below(b, u) { BelowInjective(b, u, t); }
      else { BelowInjective(b, s, u); }
    }
  }

  // ---- Leaves on their path ----

  lemma LowBound(x: Hash, shift: nat)
    ensures Low(x, shift) < Pow2(shift)
  {
  }

  /** A leaf stays valid one level further down its own path. */
  lemma LeafDown<K(!new), V(!new)>(h: K -> Hash, n: Node<K, V>, shift: nat)
    requires n.IsLeaf() && shift <= 30 && Valid(h, n, shift, Low(n.keyHash, shift))
    ensures Valid(h, n, shift + 5, Low(n.keyHash, shift + 5))
    ensures Low(n.keyHash, shift + 5) == Extend(Low(n.keyHash, shift), Slot(n.keyHash, shift), shift)
  {
    hide Low, Slot, Pow2;
    LowStep(n.keyHash, shift);
    LowBound(n.keyHash, shift + 5);
  }

  /** A leaf stays valid one level up, and holds only keys of its slot. */
  lemma LeafUp<K(!new), V(!new)>(h: K -> Hash, n: Node<K, V>, shift: nat, prefix: nat, s: nat)
    requires n.IsLeaf() && shift <= 30 && shift % 5 == 0 && prefix < Pow2(shift)
    requires Valid(h, n, shift + 5, Extend(prefix, s, shift))
    ensures Valid(h, n, shift, prefix) && Slot(n.keyHash, shift) == s
  {
    LowStep(n.keyHash, shift);
    LowBound(n.keyHash, shift);
    ExtendInjective(Low(n.keyHash, shift), Slot(n.keyHash, shift), prefix, s, shift);
  }

  lemma LeafHolds<K(!new), V(!new)>(h: K -> Hash, n: Node<K, V>, shift: nat, k: K)
    requires n.IsLeaf() && Valid(h, n, shift, Low(h(k), shift)) && Get(h, n, shift, k).Some?
    ensures n.keyHash == h(k)
  {
  }

  // ---- Merging two leaves ----

  ghost predicate Mergeable<K(!new), V(!new)>(h: K -> Hash, n: Node<K, V>, shift: nat, k: K) {
    && n.IsLeaf() && Valid(h, n, shift, Low(h(k), shift))
    && (n.Leaf? ==> n.entry.0 != k) && (n.Collision? ==> n.keyHash != h(k))
  }

  lemma {:induction false} MergeValid<K(!new), V(!new)>(h: K -> Hash, n: Node<K, V>, shift: nat, k: K, v: V)
    requires Mergeable(h, n, shift, k)
    ensures Valid(h, Merge(n, shift, h(k), (k, v)), shift, Low(h(k), shift))
    ensures Merge(n, shift, h(k), (k, v)).IsLeaf() ==> n.keyHash == h(k)
    decreases 35 - shift
  {
    hide Low, Slot, Pow2, PopCount, At;
    var x := h(k);
    if n.keyHash != x {
      ShiftBound(n.keyHash, x, shift);
      var s, t, m := Slot(n.keyHash, shift), Slot(x, shift), Merge(n, shift, x, (k, v));
      LeafDown(h, n, shift);
      if s == t {
        SameSlot(n.keyHash, x, shift);
        MergeValid(h, n, shift + 5, k, v);
        SingleAt(s, m.nodes[0], 0);
        forall u | 0 <= u < 32 && ChildAt(m, u).Some?
          ensures Valid(h, ChildAt(m, u).value, shift + 5, Extend(Low(x, shift), u, shift))
        {
          SingleAt(s, m.nodes[0], u);
        }
      } else {
        var leaf := Leaf(x, (k, v));
        LowBound(x, shift);
        LeafDown(h, leaf, shift);
        ForkAt(n, s, leaf, t, 0);
        forall u | 0 <= u < 32 && ChildAt(m, u).Some?
          ensures Valid(h, ChildAt(m, u).value, shift + 5, Extend(Low(x, shift), u, shift))
        {
          ForkAt(n, s, leaf, t, u);
        }
      }
    }
  }

  lemma {:induction false} MergeGet<K(!new), V(!new)>(h: K -> Hash, n: Node<K, V>, shift: nat, k: K, v: V, k': K)
    requires Mergeable(h, n, shift, k) && Low(h(k'), shift) == Low(h(k), shift)
    requires Valid(h, Merge(n, shift, h(k), (k, v)), shift, Low(h(k'), shift))
    ensures Get(h, Merge(n, shift, h(k), (k, v)), shift, k') == if k' == k then Some(v) else Get(h, n, shift, k')
    decreases 35 - shift
  {
    hide Low, Slot, Pow2, PopCount, At;
    var x := h(k);
    if n.keyHash == x {
      LookupTwo(n.entry, (k, v), k');
    } else {
      ShiftBound(n.keyHash, x, shift);
      if Get(h, n, shift, k').Some? { LeafHolds(h, n, shift, k'); }
      if Slot(n.keyHash, shift) == Slot(x, shift) {
        var m := Merge(n, shift, x, (k, v));
        SingleAt(Slot(x, shift), m.nodes[0], Slot(h(k'), shift));
        if Slot(h(k'), shift) == Slot(x, shift) {
          SameSlot(n.keyHash, x, shift);
          SameSlot(x, h(k'), shift);
          LeafDown(h, n, shift);
          MergeValid(h, n, shift + 5, k, v);
          MergeGet(h, n, shift + 5, k, v, k');
          LeafGet(h, n, shift, shift + 5, k');
        }
      } else {
        ForkGet(h, n, shift, k, v, k');
      }
    }
  }

  lemma LookupTwo<K, V>(d: (K, V), e: (K, V), k: K)
    ensures Lookup([d, e], k) == if d.0 == k then Some(d.1) else if e.0 == k then Some(e.1) else None
  {
    var es := [d, e];
    assert es[1..] == [e] && [e][1..] == [];
    assert Find([e], k) == if e.0 == k then 0 else 1;
    assert Find(es, k) == if d.0 == k then 0 else 1 + Find([e], k);
  }

  lemma ForkGet<K(!new), V(!new)>(h: K -> Hash, n: Node<K, V>, shift: nat, k: K, v: V, k': K)
    requires Mergeable(h, n, shift, k) && Low(h(k'), shift) == Low(h(k), shift) && shift <= 30
    requires Slot(n.keyHash, shift) != Slot(h(k), shift)
    requires Valid(h, Merge(n, shift, h(k), (k, v)), shift, Low(h(k'), shift))
    ensures Get(h, Merge(n, shift, h(k), (k, v)), shift, k') == if k' == k then Some(v) else Get(h, n, shift, k')
  {
    hide Low, Slot, Pow2, PopCount, At;
    var leaf, u := Leaf(h(k), (k, v)), Slot(h(k'), shift);
    ForkAt(n, Slot(n.keyHash, shift), leaf, Slot(h(k), shift), u);
    if Get(h, n, shift, k').Some? { LeafHolds(h, n, shift, k'); }
    if u == Slot(n.keyHash, shift) {
      SameSlot(n.keyHash, h(k'), shift);
      LeafDown(h, n, shift);
      LeafGet(h, n, shift, shift + 5, k');
    }
  }

  /** A lookup in a leaf does not depend on the level. */
  lemma LeafGet<K(!new), V(!new)>(h: K -> Hash, n: Node<K, V>, shift: nat, shift': nat, k: K)
    requires n.IsLeaf() && Valid(h, n, shift, Low(h(k), shift)) && Valid(h, n, shift', Low(h(k), shift'))
    ensures Get(h, n, shift, k) == Get(h, n, shift', k)
  {
  }

  // ---- Update is correct ----

  /** Lookup in what an update returned. */
  function GetIn<K(==,!new), V(!new)>(h: K -> Hash, n: Option<Node<K, V>>, shift: nat, k: K): Option<V>
    requires n.Some? ==> Valid(h, n.value, shift, Low(h(k), shift))
  {
    if n.Some? then Get(h, n.value, shift, k) else None
  }

  /** What one update promises about key `k'`. */
  ghost predicate Updated<K(!new), V(!new)>(
      h: K -> Hash, n: Node<K, V>, shift: nat, k: K, op: Option<V>, r: Change<K, V>, k': K)
    requires Valid(h, n, shift, Low(h(k), shift))
  {
    && (r.node.Some? ==> Valid(h, r.node.value, shift, Low(h(k), shift)))
    && (r.node.None? ==> n.Leaf?)
    && (r.altered <==> Get(h, n, shift, k) != op)
    && (r.resized <==> Get(h, n, shift, k).Some? != op.Some?)
    && (Low(h(k'), shift) == Low(h(k), shift) ==>
          GetIn(h, r.node, shift, k') == if k' == k then op else Get(h, n, shift, k'))
  }

  lemma LeafUpdate<K(!new), V(!new)>(h: K -> Hash, n: Node<K, V>, shift: nat, k: K, op: Option<V>, k': K)
    requires n.Leaf? && Valid(h, n, shift, Low(h(k), shift))
    ensures Updated(h, n, shift, k, op, Update(h, n, shift, k, op), k')
  {
    hide Low, Pow2;
    if n.entry.0 != k && op.Some? {
      MergeValid(h, n, shift, k, op.value);
      if Low(h(k'), shift) == Low(h(k), shift) {
        MergeGet(h, n, shift, k, op.value, k');
      }
    }
  }

  lemma CollisionUpdate<K(!new), V(!new)>(h: K -> Hash, n: Node<K, V>, shift: nat, k: K, op: Option<V>, k': K)
    requires n.Collision? && Valid(h, n, shift, Low(h(k), shift))
    ensures Updated(h, n, shift, k, op, Update(h, n, shift, k, op), k')
  {
    hide Low, Pow2;
    if h(k) != n.keyHash {
      if Get(h, n, shift, k).Some? { LeafHolds(h, n, shift, k); }
      if op.Some? {
        MergeValid(h, n, shift, k, op.value);
        if Low(h(k'), shift) == Low(h(k), shift) {
          MergeGet(h, n, shift, k, op.value, k');
        }
      }
    } else if Lookup(n.entries, k) != op {
      BucketUpdate(h, n, shift, k, op, k');
    }
  }

  lemma BucketUpdate<K(!new), V(!new)>(h: K -> Hash, n: Node<K, V>, shift: nat, k: K, op: Option<V>, k': K)
    requires n.Collision? && Valid(h, n, shift, Low(h(k), shift))
    requires h(k) == n.keyHash && Lookup(n.entries, k) != op
    ensures Updated(h, n, shift, k, op, Update(h, n, shift, k, op), k')
  {
    hide Low, Pow2, Edit, Find;
    var es := n.entries;
    EditLookup(es, k, op, k');
    EditDistinct(es, k, op);
    EditLength(es, k, op);
    if op.None? && |es| == 2 {
      var rest := Edit(es, k, op);
      assert Lookup(rest, k') == if rest[0].0 == k' then Some(rest[0].1) else None by { LookupOne(rest, k'); }
    }
  }

  lemma LookupOne<K, V>(es: seq<(K, V)>, k: K)
    requires |es| == 1
    ensures Lookup(es, k) == if es[0].0 == k then Some(es[0].1) else None
  {
  }

  lemma EditLength<K, V>(es: seq<(K, V)>, k: K, op: Option<V>)
    requires Find(es, k) < |es| || op.Some?
    ensures op.Some? ==> |Edit(es, k, op)| >= |es|
    ensures op.None? ==> |Edit(es, k, op)| == |es| - 1
    ensures op.None? && |es| == 2 ==> Edit(es, k, op) == [es[1 - Find(es, k)]]
  {
  }

  /** The new inner node holds, on every path, what the changed child list holds there. */
  lemma InnerValid<K(!new), V(!new)>(h: K -> Hash, n: Node<K, V>, shift: nat, prefix: nat, s: nat, d: Option<Node<K, V>>)
    requires Valid(h, n, shift, prefix) && MayBecome(n, s, d)
    requires d.Some? ==> Valid(h, d.value, shift + 5, Extend(prefix, s, shift))
    ensures InnerWith(n, s, d).Some? && Valid(h, InnerWith(n, s, d).value, shift, prefix)
  {
    hide Low, Slot, Pow2, PopCount, At, BitmapWith, ArrayWith, Extend;
    WithInner(n, s, d, 0);
    var m := InnerWith(n, s, d).value;
    if m.IsLeaf() {
      var u := WithLeaf(n, s, d);
      LeafUp(h, m, shift, prefix, u);
    } else {
      forall t | 0 <= t < 32 && ChildAt(m, t).Some?
        ensures Valid(h, ChildAt(m, t).value, shift + 5, Extend(prefix, t, shift))
      {
        WithInner(n, s, d, t);
      }
    }
  }

  lemma WithInner<K, V>(n: Node<K, V>, s: nat, d: Option<Node<K, V>>, t: nat)
    requires MayBecome(n, s, d) && t < 32
    ensures var r := InnerWith(n, s, d);
            r.Some? && (r.value.IsLeaf() || (Shape(r.value) && ChildAt(r.value, t) == Child(n, s, d, t)))
  {
    if n.Bitmap? { BitmapWithInner(n, s, d, t); } else { ArrayWithInner(n, s, d, t); }
  }

  lemma InnerGet<K(!new), V(!new)>(h: K -> Hash, n: Node<K, V>, shift: nat, s: nat, d: Option<Node<K, V>>, k: K)
    requires Valid(h, n, shift, Low(h(k), shift)) && MayBecome(n, s, d)
    requires d.Some? ==> Valid(h, d.value, shift + 5, Extend(Low(h(k), shift), s, shift))
    requires InnerWith(n, s, d).Some? && Valid(h, InnerWith(n, s, d).value, shift, Low(h(k), shift))
    requires var c := Child(n, s, d, Slot(h(k), shift));
             c.Some? ==> Valid(h, c.value, shift + 5, Low(h(k), shift + 5))
    ensures Get(h, InnerWith(n, s, d).value, shift, k) == GetIn(h, Child(n, s, d, Slot(h(k), shift)), shift + 5, k)
  {
    hide Low, Slot, Pow2, PopCount, At, BitmapWith, ArrayWith, Extend;
    WithInner(n, s, d, Slot(h(k), shift));
    var m := InnerWith(n, s, d).value;
    if m.IsLeaf() {
      var u := WithLeaf(n, s, d);
      LeafUp(h, m, shift, Low(h(k), shift), u);
      if Get(h, m, shift, k).Some? {
        LeafHolds(h, m, shift, k);
      }
      if Slot(h(k), shift) == u {
        LeafGet(h, m, shift, shift + 5, k);
      }
    }
  }

  lemma InnerUpdate<K(!new), V(!new)>(
      h: K -> Hash, n: Node<K, V>, shift: nat, k: K, op: Option<V>, d: Option<Node<K, V>>, k': K)
    requires n.IsInner() && Valid(h, n, shift, Low(h(k), shift))
    requires MayBecome(n, Slot(h(k), shift), d)
    requires d.Some? ==> Valid(h, d.value, shift + 5, Low(h(k), shift + 5))
    requires Low(h(k'), shift) == Low(h(k), shift) && Low(h(k'), shift + 5) == Low(h(k), shift + 5) ==>
               GetIn(h, d, shift + 5, k') == if k' == k then op else Get(h, n, shift, k')
    ensures var m := InnerWith(n, Slot(h(k), shift), d);
            && m.Some? && Valid(h, m.value, shift, Low(h(k), shift))
            && (Low(h(k'), shift) == Low(h(k), shift) ==>
                  Get(h, m.value, shift, k') == if k' == k then op else Get(h, n, shift, k'))
  {
    hide Low, Slot, Pow2, PopCount, At, InnerWith, Extend;
    var s := Slot(h(k), shift);
    LowStep(h(k), shift);
    InnerValid(h, n, shift, Low(h(k), shift), s, d);
    if Low(h(k'), shift) == Low(h(k), shift) {
      LowStep(h(k'), shift);
      OnPath(h, n, shift, k');
      if Slot(h(k'), shift) == s {
        SameSlot(h(k), h(k'), shift);
      }
      InnerGet(h, n, shift, s, d, k');
    }
  }

  /** Every update of a valid node keeps it valid, reports exactly whether and how the binding of
      `k` changed, and changes no lookup but that of `k`. */
  lemma {:induction false} UpdateCorrect<K(!new), V(!new)>(
      h: K -> Hash, n: Node<K, V>, shift: nat, k: K, op: Option<V>, k': K)
    requires Valid(h, n, shift, Low(h(k), shift))
    ensures Updated(h, n, shift, k, op, Update(h, n, shift, k, op), k')
    decreases n
  {
    if n.Leaf? {
      LeafUpdate(h, n, shift, k, op, k');
    } else if n.Collision? {
      CollisionUpdate(h, n, shift, k, op, k');
    } else {
      hide Low, Slot, Pow2, PopCount, At, Updated, Update, Get;
      var c := ChildAt(n, Slot(h(k), shift));
      if c.Some? {
        OnPath(h, n, shift, k);
        UpdateCorrect(h, c.value, shift + 5, k, op, k);
        UpdateCorrect(h, c.value, shift + 5, k, op, k');
        PresentUpdate(h, n, c.value, shift, k, op, k');
      } else {
        AbsentUpdate(h, n, shift, k, op, k');
      }
    }
  }

  lemma PresentUpdate<K(!new), V(!new)>(
      h: K -> Hash, n: Node<K, V>, c: Node<K, V>, shift: nat, k: K, op: Option<V>, k': K)
    requires n.IsInner() && Valid(h, n, shift, Low(h(k), shift)) && ChildAt(n, Slot(h(k), shift)) == Some(c)
    requires Valid(h, c, shift + 5, Low(h(k), shift + 5))
    requires Updated(h, c, shift + 5, k, op, Update(h, c, shift + 5, k, op), k)
    requires Updated(h, c, shift + 5, k, op, Update(h, c, shift + 5, k, op), k')
    ensures Updated(h, n, shift, k, op, Update(h, n, shift, k, op), k')
  {
    hide Low, Slot, Pow2, PopCount, At, InnerWith, Extend;
    var r := Update(h, c, shift + 5, k, op);
    if r.node != Some(c) {
      if Low(h(k'), shift) == Low(h(k), shift) && Low(h(k'), shift + 5) == Low(h(k), shift + 5) {
        SlotsAgree(h(k), h(k'), shift);
      }
      InnerUpdate(h, n, shift, k, op, r.node, k');
    }
  }

  lemma SlotsAgree(x: Hash, y: Hash, shift: nat)
    requires Low(x, shift + 5) == Low(y, shift + 5)
    ensures Low(x, shift) == Low(y, shift) && Slot(x, shift) == Slot(y, shift)
  {
    LowStep(x, shift);
    LowStep(y, shift);
    LowBound(x, shift);
    LowBound(y, shift);
    ExtendInjective(Low(x, shift), Slot(x, shift), Low(y, shift), Slot(y, shift), shift);
  }

  lemma AbsentUpdate<K(!new), V(!new)>(h: K -> Hash, n: Node<K, V>, shift: nat, k: K, op: Option<V>, k': K)
    requires n.IsInner() && Valid(h, n, shift, Low(h(k), shift)) && ChildAt(n, Slot(h(k), shift)).None?
    ensures Updated(h, n, shift, k, op, Update(h, n, shift, k, op), k')
  {
    hide Low, Slot, Pow2, PopCount, At, InnerWith, Extend;
    if op.Some? {
      var d := Leaf(h(k), (k, op.value));
      LowBound(h(k), shift + 5);
      if Low(h(k'), shift) == Low(h(k), shift) && Low(h(k'), shift + 5) == Low(h(k), shift + 5) {
        SlotsAgree(h(k), h(k'), shift);
      }
      InnerUpdate(h, n, shift, k, op, Some(d), k');
    }
  }

  // ---- Walking a bitmap from its low end ----

  lemma SpreadStart(b: nat)
    ensures b / Pow2(0) == b && Below(b, 0) == 0
  {
    assert Pow2(0) == 1;
  }

  lemma SpreadStep<K, V>(n: Node<K, V>, s: nat)
    requires n.Bitmap? && Shape(n) && s <= 32 && n.bitmap / Pow2(s) != 0
    ensures s < 32 && n.bitmap / Pow2(s) / 2 == n.bitmap / Pow2(s + 1)
    ensures Has(n.bitmap, s) <==> n.bitmap / Pow2(s) % 2 == 1
    ensures Below(n.bitmap, s + 1) == Below(n.bitmap, s) + if Has(n.bitmap, s) then 1 else 0
    ensures if Has(n.bitmap, s) then Below(n.bitmap, s) < |n.nodes| && ChildAt(n, s) == Some(n.nodes[Below(n.bitmap, s)])
            else ChildAt(n, s) == None
  {
    Masks();
    if s == 32 {
      DivModUnique(n.bitmap, WORD, 0, n.bitmap);
    } else {
      HalfStep(n.bitmap, s);
      BelowStep(n.bitmap, s);
      if Has(n.bitmap, s) { BelowInRange(n.bitmap, s); }
    }
  }

  lemma SpreadEnd<K, V>(n: Node<K, V>, s: nat)
    requires n.Bitmap? && Shape(n) && s <= 32 && n.bitmap / Pow2(s) == 0
    ensures Below(n.bitmap, s) == |n.nodes|
    ensures forall t | s <= t < 32 :: ChildAt(n, t) == None
  {
    DivZero(n.bitmap, Pow2(s));
    BelowAll(n.bitmap, s);
    forall t | s <= t < 32 ensures ChildAt(n, t) == None {
      NoHigher(n.bitmap, s, t);
    }
  }

  lemma DivZero(b: nat, d: nat)
    requires d > 0 && b / d == 0
    ensures b < d
  {
  }

  lemma HalfStep(b: nat, s: nat)
    ensures b / Pow2(s) / 2 == b / Pow2(s + 1)
    decreases s
  {
    DivPow2(b, s + 1);
    if s > 0 {
      DivPow2(b, s);
      HalfStep(b / 2, s - 1);
    } else {
      assert Pow2(1) == 2;
    }
  }

  lemma NoHigher(b: nat, s: nat, t: nat)
    requires s <= t && b / Pow2(s) == 0
    ensures !Has(b, t)
  {
    DivZero(b, Pow2(s));
    PowMono(s, t);
    HighBit(b, t);
  }
}
