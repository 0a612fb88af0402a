/**
  * How the insertion-ordered Map (bundle module 566) finds the entry of a key: by an index key
  * where the key has one (module 221), else by a scan that compares loosely. On the entry list of
  * ECMA-262 this finds the right entry exactly when no other live entry answers for the key.
  */
module KeyMatching {
  import opened Options
  import opened EntryList

  /** What module 221 knows of a key. Primitive values have an index key. An object is given one when
      it is first put into a map; until then it has none, and if it is frozen by then it never will. */
  datatype Status<I> = Indexed(index: I) | Unmarked | Frozen

  /** The status of every key, and the loose comparison the scan uses. Neither needs to respect
      equality of keys. */
  datatype Keys<!K, !I> = Keys(status: K -> Status<I>, loose: (K, K) -> bool)

  /** Whether the entry of key `e` answers for key `k`. */
  predicate Matches<K, I(==)>(keys: Keys<K, I>, e: K, k: K) {
    match keys.status(k)
    case Indexed(_) => keys.status(e) == keys.status(k)
    case Unmarked => false
    case Frozen => keys.loose(e, k)
  }

  function Index<K, I>(keys: Keys<K, I>, k: K): Option<I> {
    if keys.status(k).Indexed? then Some(keys.status(k).index) else None
  }

  // ---- How the status of keys changes ----

  /** A later state of the keys: objects that had no index key may be frozen, or be given one that no
      other key has. */
  ghost predicate Follows<K(!new), I>(keys: Keys<K, I>, next: Keys<K, I>) {
    && next.loose == keys.loose
    && forall k :: FollowsAt(keys, next, k)
  }

  ghost predicate FollowsAt<K(!new), I>(keys: Keys<K, I>, next: Keys<K, I>, k: K) {
    if keys.status(k).Unmarked? then next.status(k).Indexed? ==> forall e | e != k :: next.status(e) != next.status(k)
    else next.status(k) == keys.status(k)
  }

  /** The index key `mark` is new, if it is needed for `k`. */
  ghost predicate NewMark<K(!new), I>(keys: Keys<K, I>, k: K, mark: I) {
    keys.status(k).Unmarked? ==> forall e :: keys.status(e) != Indexed(mark)
  }

  /** The key `k` is put into a map, and given the index key `mark` if it can have one and has none. */
  function Mark<K(==), I>(keys: Keys<K, I>, k: K, mark: I): Keys<K, I> {
    if keys.status(k).Unmarked? then keys.(status := e => if e == k then Indexed(mark) else keys.status(e)) else keys
  }

  lemma MarkFollows<K(!new), I>(keys: Keys<K, I>, k: K, mark: I)
    requires NewMark(keys, k, mark)
    ensures Follows(keys, Mark(keys, k, mark)) && !Mark(keys, k, mark).status(k).Unmarked?
  {
  }

  /** Keys in a map have settled: their status does not change any more. */
  ghost predicate Settled<K, I, V>(keys: Keys<K, I>, l: Entries<K, V>) {
    forall p | 0 <= p < |l| && l[p].Some? :: !keys.status(l[p].value.0).Unmarked?
  }

  // ---- Entries found ----

  /** The first live entry that answers for `k`, or the length. */
  function Reached<K, I(==), V>(keys: Keys<K, I>, l: Entries<K, V>, k: K): (j: nat)
    ensures j <= |l|
    ensures j < |l| ==> l[j].Some? && Matches(keys, l[j].value.0, k)
    ensures forall t | 0 <= t < j && l[t].Some? :: !Matches(keys, l[t].value.0, k)
  {
    ReachedFrom(keys, l, k, 0)
  }

  function ReachedFrom<K, I(==), V>(keys: Keys<K, I>, l: Entries<K, V>, k: K, i: nat): (j: nat)
    requires i <= |l|
    ensures i <= j <= |l|
    ensures j < |l| ==> l[j].Some? && Matches(keys, l[j].value.0, k)
    ensures forall t | i <= t < j && l[t].Some? :: !Matches(keys, l[t].value.0, k)
    decreases |l| - i
  {
    if i == |l| || (l[i].Some? && Matches(keys, l[i].value.0, k)) then i else ReachedFrom(keys, l, k, i + 1)
  }

  function Found<K, I(==), V>(keys: Keys<K, I>, l: Entries<K, V>, k: K): Option<V> {
    var p := Reached(keys, l, k);
    if p < |l| then Some(l[p].value.1) else None
  }

  /** An entry that answers keeps its own key and takes the value. */
  function Put<K, I(==), V>(keys: Keys<K, I>, l: Entries<K, V>, k: K, v: V): Entries<K, V> {
    var p := Reached(keys, l, k);
    if p < |l| then l[p := Some((l[p].value.0, v))] else l + [Some((k, v))]
  }

  function Taken<K, I(==), V>(keys: Keys<K, I>, l: Entries<K, V>, k: K): Entries<K, V> {
    var p := Reached(keys, l, k);
    if p < |l| then l[p := None] else l
  }

  /** No live entry answers for the key of a later one: it would have been used instead. */
  ghost predicate Apart<K, I, V>(keys: Keys<K, I>, l: Entries<K, V>) {
    forall p, q | 0 <= p < q < |l| && l[p].Some? && l[q].Some? :: !Matches(keys, l[p].value.0, l[q].value.0)
  }

  /** Both stay as the keys change. */
  lemma FollowsApart<K(!new), I, V>(keys: Keys<K, I>, next: Keys<K, I>, l: Entries<K, V>)
    requires Follows(keys, next) && Settled(keys, l) && Apart(keys, l)
    ensures Settled(next, l) && Apart(next, l)
  {
    forall p | 0 <= p < |l| && l[p].Some? ensures next.status(l[p].value.0) == keys.status(l[p].value.0) {
      assert FollowsAt(keys, next, l[p].value.0);
    }
  }

  /** Nothing answers for a key that is put into a map for the first time. */
  lemma MarkReached<K(!new), I, V>(keys: Keys<K, I>, l: Entries<K, V>, k: K, mark: I)
    requires NewMark(keys, k, mark) && Settled(keys, l) && Reached(keys, l, k) == |l|
    ensures Reached(Mark(keys, k, mark), l, k) == |l|
  {
    hide ReachedFrom;
    if keys.status(k).Unmarked? {
      forall p | 0 <= p < |l| && l[p].Some? ensures !Matches(Mark(keys, k, mark), l[p].value.0, k) {
        assert keys.status(l[p].value.0) != Indexed(mark);
      }
    }
  }

  lemma OverwriteApart<K, I, V>(keys: Keys<K, I>, l: Entries<K, V>, p: nat, v: V)
    requires Apart(keys, l) && p < |l| && l[p].Some?
    ensures Apart(keys, l[p := Some((l[p].value.0, v))])
  {
    hide Matches;
  }

  lemma AppendApart<K, I, V>(keys: Keys<K, I>, l: Entries<K, V>, k: K, v: V)
    requires Apart(keys, l) && Reached(keys, l, k) == |l|
    ensures Apart(keys, l + [Some((k, v))])
  {
    hide Matches;
  }

  lemma DropApart<K, I, V>(keys: Keys<K, I>, l: Entries<K, V>, d: nat)
    requires Apart(keys, l) && d < |l|
    ensures Apart(keys, l[d := None])
  {
    hide Matches;
  }

  lemma OverwriteSettled<K, I, V>(keys: Keys<K, I>, l: Entries<K, V>, p: nat, v: V)
    requires Settled(keys, l) && p < |l| && l[p].Some?
    ensures Settled(keys, l[p := Some((l[p].value.0, v))])
  {
  }

  lemma AppendSettled<K, I, V>(keys: Keys<K, I>, l: Entries<K, V>, k: K, v: V)
    requires Settled(keys, l) && !keys.status(k).Unmarked?
    ensures Settled(keys, l + [Some((k, v))])
  {
  }

  lemma DropSettled<K, I, V>(keys: Keys<K, I>, l: Entries<K, V>, d: nat)
    requires Settled(keys, l) && d < |l|
    ensures Settled(keys, l[d := None])
  {
  }

  // ---- Against the entry list ----

  /** A key compares equal to itself. */
  ghost predicate Reflexive<K(!new), I>(keys: Keys<K, I>) {
    forall k :: keys.loose(k, k)
  }

  /** The key has a live entry of its own, or nothing answers for it. */
  predicate Clean<K(==), I(==), V>(keys: Keys<K, I>, l: Entries<K, V>, k: K) {
    Position(l, k) < |l| || Reached(keys, l, k) == |l|
  }

  /** A key with a live entry of its own is given that entry. */
  lemma OwnFirst<K(!new), I, V>(keys: Keys<K, I>, l: Entries<K, V>, k: K)
    requires Apart(keys, l) && Settled(keys, l) && Reflexive(keys) && Position(l, k) < |l|
    ensures Reached(keys, l, k) == Position(l, k)
  {
    assert Matches(keys, k, k);
    hide Matches;
  }

  /** The right entry is found if and only if the key is clean; so are the right answer, the right
      list after a set, and the right list after a delete. */
  lemma AgreesIfClean<K(!new), I, V>(keys: Keys<K, I>, l: Entries<K, V>, k: K)
    requires Apart(keys, l) && Settled(keys, l) && Reflexive(keys)
    ensures Reached(keys, l, k) == Position(l, k) <==> Clean(keys, l, k)
    ensures Found(keys, l, k) == Lookup(l, k) <==> Clean(keys, l, k)
    ensures Taken(keys, l, k) == Remove(l, k) <==> Clean(keys, l, k)
  {
    hide Matches;
    if Position(l, k) < |l| {
      OwnFirst(keys, l, k);
    } else if Reached(keys, l, k) < |l| {
      assert Taken(keys, l, k)[Reached(keys, l, k)] == None;
    }
  }

  lemma PutAgreesIfClean<K(!new), I, V>(keys: Keys<K, I>, l: Entries<K, V>, k: K, v: V)
    requires Apart(keys, l) && Settled(keys, l) && Reflexive(keys)
    ensures Put(keys, l, k, v) == Insert(l, k, v) <==> Clean(keys, l, k)
  {
    hide Matches;
    if Position(l, k) < |l| {
      OwnFirst(keys, l, k);
    } else if Reached(keys, l, k) < |l| {
      assert |Put(keys, l, k, v)| < |Insert(l, k, v)|;
    }
  }

  // ---- Keys that answer for others ----

  /** Some keys of the language. An object compares loosely by its text. */
  datatype Value = Number(n: int) | BigInt(n: int) | Text(text: string) | Object(id: nat, text: string)

  datatype IndexKey = Plain(n: int) | OfString(text: string) | ObjectId(id: nat)

  /** Numbers and big integers of the same digits have the same index key. */
  function StatusOf(k: Value, objects: Status<IndexKey>): Status<IndexKey> {
    match k
    case Number(n) => Indexed(Plain(n))
    case BigInt(n) => Indexed(Plain(n))
    case Text(text) => Indexed(OfString(text))
    case Object(_, _) => objects
  }

  predicate Loose(e: Value, k: Value) {
    e == k || (e.Text? && k.Object? && e.text == k.text)
  }

  /** No object is in a map yet, and none is frozen. */
  const EARLY: Keys<Value, IndexKey> := Keys(k => StatusOf(k, Unmarked), Loose)

  /** All objects have been frozen. */
  const LATE: Keys<Value, IndexKey> := Keys(k => StatusOf(k, Frozen), Loose)

  lemma LanguageReflexive()
    ensures Reflexive(EARLY) && Reflexive(LATE) && Follows(EARLY, LATE)
  {
    forall k ensures FollowsAt(EARLY, LATE, k) {}
  }

  /** A value set for a string is not found through an object with that text; once the object is
      frozen it is, and setting the object overwrites it. */
  lemma StringAnswersForObject(id: nat, text: string)
    ensures var l := Put(EARLY, [], Text(text), 1); var k := Object(id, text);
            Found(EARLY, l, k) == None && Found(LATE, l, k) == Some(1) && Lookup(l, k) == None
            && Put(LATE, l, k, 2) == [Some((Text(text), 2))]
  {
    var l: Entries<Value, int> := [Some((Text(text), 1))];
    assert Put(EARLY, [], Text(text), 1) == l;
    assert Matches(LATE, Text(text), Object(id, text)) && !Matches(EARLY, Text(text), Object(id, text));
    assert Reached(LATE, l, Object(id, text)) == 0 && Reached(EARLY, l, Object(id, text)) == 1;
  }

  /** After a value was set for a number, the big integer of the same digits finds it. */
  lemma NumberAnswersForBigInt(n: int)
    ensures var l := Put(EARLY, [], Number(n), 1);
            Found(EARLY, l, BigInt(n)) == Some(1) && Lookup(l, BigInt(n)) == None
  {
    var l: Entries<Value, int> := [Some((Number(n), 1))];
    assert Put(EARLY, [], Number(n), 1) == l;
    assert Matches(EARLY, Number(n), BigInt(n));
    assert Reached(EARLY, l, BigInt(n)) == 0;
  }
}
