/**
  * The insertion-ordered Map under any interleaving of set, delete, clear, get and steps of an
  * iterator: what the iterator gives, that the heap structure gives exactly that, when it is what
  * ECMA-262 says, and that `forEach` visits what an iterator gives.
  */
module MapRuns {
  import opened Options
  import opened EntryList
  import opened KeyMatching
  import opened OrderedMap

  datatype Call<!K, !I, V> =
    | SetCall(key: K, value: V, mark: I) | DeleteCall(key: K) | ClearCall | GetCall(key: K) | NextCall
    | KeysCall(keys: Keys<K, I>)

  /** Where an iterator stands: it searches from `pos`, or it has been exhausted there. */
  datatype Cursor = At(pos: nat) | Done(pos: nat)

  /** The keys, the entry list, the iterator, the positions and entries it has given so far, and the
      answers to the lookups. */
  datatype Run<!K, !I, V> = Run(
    keys: Keys<K, I>, list: Entries<K, V>, cursor: Cursor, given: seq<nat>, values: seq<(K, V)>,
    answers: seq<Option<V>>)

  function Start<K, I, V>(keys: Keys<K, I>, list: Entries<K, V>): Run<K, I, V> {
    Run(keys, list, At(0), [], [], [])
  }

  /** One step of the iterator, section 24.1.5.2.1 of ECMA-262. */
  function Advance<K, I, V>(r: Run<K, I, V>): Run<K, I, V>
    requires r.cursor.pos <= |r.list|
  {
    if r.cursor.Done? then r
    else
      var j := NextLive(r.list, r.cursor.pos);
      if j < |r.list| then
        r.(cursor := At(j + 1), given := r.given + [j], values := r.values + [r.list[j].value])
      else r.(cursor := Done(j))
  }

  /** One call, with entries found as the source finds them. */
  function Step<K(==), I(==), V>(r: Run<K, I, V>, call: Call<K, I, V>): Run<K, I, V>
    requires r.cursor.pos <= |r.list|
  {
    match call
    case SetCall(k, v, mark) => r.(list := Put(r.keys, r.list, k, v), keys := Mark(r.keys, k, mark))
    case DeleteCall(k) => r.(list := Taken(r.keys, r.list, k))
    case ClearCall => r.(list := Cleared(r.list))
    case GetCall(k) => r.(answers := r.answers + [Found(r.keys, r.list, k)])
    case NextCall => Advance(r)
    case KeysCall(keys) => r.(keys := keys)
  }

  /** One call by section 24.1.3 of ECMA-262, where an entry is found by its key alone. */
  function EcmaStep<K(==), I, V>(r: Run<K, I, V>, call: Call<K, I, V>): Run<K, I, V>
    requires r.cursor.pos <= |r.list|
  {
    match call
    case SetCall(k, v, mark) => r.(list := Insert(r.list, k, v), keys := Mark(r.keys, k, mark))
    case DeleteCall(k) => r.(list := Remove(r.list, k))
    case ClearCall => r.(list := Cleared(r.list))
    case GetCall(k) => r.(answers := r.answers + [Lookup(r.list, k)])
    case NextCall => Advance(r)
    case KeysCall(keys) => r.(keys := keys)
  }

  /** What happens to keys: an index key that is given is new, and the status of keys changes only as
      it can. */
  ghost predicate Allowed<K(!new), I, V>(keys: Keys<K, I>, call: Call<K, I, V>) {
    match call
    case SetCall(k, _, mark) => NewMark(keys, k, mark)
    case KeysCall(next) => Follows(keys, next)
    case _ => true
  }

  lemma StepKeeps<K, I, V>(r: Run<K, I, V>, call: Call<K, I, V>)
    requires r.cursor.pos <= |r.list|
    ensures var s := Step(r, call); s.cursor.pos <= |s.list| && |r.list| <= |s.list|
  {
  }

  lemma EcmaKeeps<K, I, V>(r: Run<K, I, V>, call: Call<K, I, V>)
    requires r.cursor.pos <= |r.list|
    ensures var s := EcmaStep(r, call); s.cursor.pos <= |s.list|
  {
  }

  function Play<K(==), I(==), V>(r: Run<K, I, V>, calls: seq<Call<K, I, V>>): (s: Run<K, I, V>)
    requires r.cursor.pos <= |r.list|
    ensures s.cursor.pos <= |s.list|
    decreases |calls|
  {
    if calls == [] then r
    else
      var n := |calls| - 1;
      var s := Play(r, calls[..n]);
      StepKeeps(s, calls[n]);
      Step(s, calls[n])
  }

  function EcmaPlay<K(==), I, V>(r: Run<K, I, V>, calls: seq<Call<K, I, V>>): (s: Run<K, I, V>)
    requires r.cursor.pos <= |r.list|
    ensures s.cursor.pos <= |s.list|
    decreases |calls|
  {
    if calls == [] then r
    else
      var n := |calls| - 1;
      var s := EcmaPlay(r, calls[..n]);
      EcmaKeeps(s, calls[n]);
      EcmaStep(s, calls[n])
  }

  ghost predicate AllAllowed<K(!new), I, V>(r: Run<K, I, V>, calls: seq<Call<K, I, V>>)
    requires r.cursor.pos <= |r.list|
    decreases |calls|
  {
    calls != [] ==>
      var n := |calls| - 1;
      AllAllowed(r, calls[..n]) && Allowed(Play(r, calls[..n]).keys, calls[n])
  }

  // ---- What the iterator gives ----

  ghost predicate Increasing(given: seq<nat>, bound: nat) {
    && (forall i, j | 0 <= i < j < |given| :: given[i] < given[j])
    && (forall i | 0 <= i < |given| :: given[i] < bound)
  }

  /** Nothing live lies behind the iterator that it has not given. */
  ghost predicate NothingMissed<K, I, V>(r: Run<K, I, V>) {
    && r.cursor.pos <= |r.list|
    && forall j | 0 <= j < r.cursor.pos && r.list[j].Some? :: j in r.given
  }

  /** An entry, once removed, stays removed, and entries keep their place and key. */
  lemma ListGrows<K, I, V>(r: Run<K, I, V>, call: Call<K, I, V>, j: nat)
    requires r.cursor.pos <= |r.list| && j < |r.list|
    ensures var s := Step(r, call);
            j < |s.list| && (s.list[j].Some? ==> r.list[j].Some? && s.list[j].value.0 == r.list[j].value.0)
  {
    hide Matches;
  }

  lemma StepOrdered<K, I, V>(r: Run<K, I, V>, call: Call<K, I, V>)
    requires NothingMissed(r) && Increasing(r.given, r.cursor.pos) && |r.values| == |r.given|
    ensures var s := Step(r, call);
            NothingMissed(s) && Increasing(s.given, s.cursor.pos) && |s.values| == |s.given|
    ensures var s := Step(r, call);
            |s.given| > |r.given| ==>
              var j := s.given[|r.given|];
              call == NextCall && s.given == r.given + [j] && j < |r.list| && r.list[j] == Some(s.values[|r.given|])
  {
    hide NextLive, Reached, Put, Taken, Found, Cleared;
    var s := Step(r, call);
    StepKeeps(r, call);
    forall j | 0 <= j < s.cursor.pos && s.list[j].Some? ensures j in s.given {
      ListGrows(r, call, if j < |r.list| then j else 0);
      if call.NextCall? && r.cursor.At? && r.cursor.pos <= j < NextLive(r.list, r.cursor.pos) {
        NextGap(r.list, r.cursor.pos, j);
      } else {
        assert j < r.cursor.pos || s.given == r.given + [j];
      }
    }
  }

  /** In every run of any list with a new iterator: the iterator gives positions in strictly
      increasing order, so each entry at most once and in insertion order; everything behind it
      that is still live has been given; and once it is exhausted it gives nothing more. */
  lemma {:induction false} EveryRun<K, I, V>(keys: Keys<K, I>, list: Entries<K, V>, calls: seq<Call<K, I, V>>)
    ensures var s := Play(Start(keys, list), calls);
            NothingMissed(s) && Increasing(s.given, s.cursor.pos) && |s.values| == |s.given|
    decreases |calls|
  {
    if calls != [] {
      var n := |calls| - 1;
      EveryRun(keys, list, calls[..n]);
      StepOrdered(Play(Start(keys, list), calls[..n]), calls[n]);
    }
  }

  /** What is given at a step was live at that step: no run ever gives a removed entry. */
  lemma GivenIsLive<K, I, V>(keys: Keys<K, I>, list: Entries<K, V>, calls: seq<Call<K, I, V>>, n: nat)
    requires n < |calls|
    ensures var r, s := Play(Start(keys, list), calls[..n]), Play(Start(keys, list), calls[..n + 1]);
            || (s.given == r.given && s.values == r.values)
            || (calls[n].NextCall? &&
                exists j :: 0 <= j < |r.list| && r.list[j].Some? &&
                            s.given == r.given + [j] && s.values == r.values + [r.list[j].value])
  {
    hide Play, Step, NothingMissed, Increasing;
    EveryRun(keys, list, calls[..n]);
    PlayNext(Start(keys, list), calls, n);
    StepGives(Play(Start(keys, list), calls[..n]), calls[n]);
  }

  /** A call gives nothing, or it is a step that gives a live entry. */
  lemma StepGives<K, I, V>(r: Run<K, I, V>, call: Call<K, I, V>)
    requires r.cursor.pos <= |r.list|
    ensures var s := Step(r, call);
            || (s.given == r.given && s.values == r.values)
            || (call.NextCall? && exists j :: 0 <= j < |r.list| && r.list[j].Some? &&
                                              s.given == r.given + [j] && s.values == r.values + [r.list[j].value])
  {
    hide NextLive, Put, Taken, Found, Cleared, Mark;
    if call.NextCall? && r.cursor.At? && NextLive(r.list, r.cursor.pos) < |r.list| {
      var j := NextLive(r.list, r.cursor.pos);
      assert Step(r, call).given == r.given + [j];
    }
  }

  /** An exhausted iterator has given every entry that is live at that moment. */
  lemma Exhausted<K, I, V>(keys: Keys<K, I>, list: Entries<K, V>, calls: seq<Call<K, I, V>>)
    requires calls != [] && calls[|calls| - 1].NextCall?
    requires var r := Play(Start(keys, list), calls[..|calls| - 1]); r.cursor.At?
    requires Play(Start(keys, list), calls).cursor.Done?
    ensures var s := Play(Start(keys, list), calls);
            forall j | 0 <= j < |s.list| && s.list[j].Some? :: j in s.given
  {
    EveryRun(keys, list, calls);
  }

  // ---- When it is what ECMA-262 says ----

  predicate CleanCall<K(==), I(==), V>(keys: Keys<K, I>, l: Entries<K, V>, call: Call<K, I, V>) {
    match call
    case SetCall(k, _, _) => Clean(keys, l, k)
    case DeleteCall(k) => Clean(keys, l, k)
    case GetCall(k) => Clean(keys, l, k)
    case _ => true
  }

  /** The keys of the list have settled, and no entry answers for a later one's key. */
  ghost predicate Sound<K(!new), I, V>(r: Run<K, I, V>) {
    Apart(r.keys, r.list) && Settled(r.keys, r.list) && Reflexive(r.keys) && r.cursor.pos <= |r.list|
  }

  lemma StepAgrees<K(!new), I, V>(r: Run<K, I, V>, call: Call<K, I, V>)
    requires Sound(r)
    ensures Step(r, call) == EcmaStep(r, call) <==> CleanCall(r.keys, r.list, call)
  {
    hide Matches, Clean, Put, Taken, Found, Insert, Remove, Lookup, Apart, Settled, Reflexive, Mark;
    match call
    case SetCall(k, v, _) => PutAgreesIfClean(r.keys, r.list, k, v);
    case DeleteCall(k) => AgreesIfClean(r.keys, r.list, k);
    case GetCall(k) =>
      AgreesIfClean(r.keys, r.list, k);
      assert (r.answers + [Found(r.keys, r.list, k)])[|r.answers|] == Found(r.keys, r.list, k);
      assert (r.answers + [Lookup(r.list, k)])[|r.answers|] == Lookup(r.list, k);
    case _ =>
  }

  lemma StepSound<K(!new), I, V>(r: Run<K, I, V>, call: Call<K, I, V>)
    requires Sound(r) && Allowed(r.keys, call)
    ensures Sound(Step(r, call))
  {
    StepKeeps(r, call);
    hide Matches, Put, Taken, Found, Apart, Settled, Mark, NewMark, Follows;
    match call
    case SetCall(k, v, mark) => PutSound(r.keys, r.list, k, v, mark);
    case DeleteCall(k) => TakenApart(r.keys, r.list, k);
    case ClearCall => ClearedApart(r.keys, r.list);
    case KeysCall(next) => FollowsApart(r.keys, next, r.list); SameLoose(r.keys, next);
    case _ =>
  }

  lemma SameLoose<K(!new), I>(keys: Keys<K, I>, next: Keys<K, I>)
    requires Follows(keys, next)
    ensures next.loose == keys.loose
  {
  }

  lemma PutSound<K(!new), I, V>(keys: Keys<K, I>, l: Entries<K, V>, k: K, v: V, mark: I)
    requires Apart(keys, l) && Settled(keys, l) && NewMark(keys, k, mark)
    ensures var next := Mark(keys, k, mark);
            Apart(next, Put(keys, l, k, v)) && Settled(next, Put(keys, l, k, v)) && next.loose == keys.loose
  {
    hide Apart, Settled, Matches, NewMark, Follows;
    var next, p := Mark(keys, k, mark), Reached(keys, l, k);
    MarkFollows(keys, k, mark);
    FollowsApart(keys, next, l);
    if p < |l| {
      OverwriteApart(next, l, p, v);
      OverwriteSettled(next, l, p, v);
    } else {
      MarkReached(keys, l, k, mark);
      AppendApart(next, l, k, v);
      AppendSettled(next, l, k, v);
    }
  }

  lemma TakenApart<K, I, V>(keys: Keys<K, I>, l: Entries<K, V>, k: K)
    requires Apart(keys, l) && Settled(keys, l)
    ensures Apart(keys, Taken(keys, l, k)) && Settled(keys, Taken(keys, l, k))
  {
    hide Apart, Settled, Matches;
    if Reached(keys, l, k) < |l| {
      DropApart(keys, l, Reached(keys, l, k));
      DropSettled(keys, l, Reached(keys, l, k));
    }
  }

  lemma ClearedApart<K, I, V>(keys: Keys<K, I>, l: Entries<K, V>)
    ensures Apart(keys, Cleared(l)) && Settled(keys, Cleared(l))
  {
  }

  /** The run is that of ECMA-262 at every point: lists, answers and what the iterator gave. */
  ghost predicate AlwaysAgrees<K(!new), I, V>(r: Run<K, I, V>, calls: seq<Call<K, I, V>>)
    requires r.cursor.pos <= |r.list|
    decreases |calls|
  {
    Play(r, calls) == EcmaPlay(r, calls) && (calls != [] ==> AlwaysAgrees(r, calls[..|calls| - 1]))
  }

  /** At every call, its key has a live entry of its own or nothing else answers for it. */
  predicate AllClean<K(==), I(==), V>(r: Run<K, I, V>, calls: seq<Call<K, I, V>>)
    requires r.cursor.pos <= |r.list|
    decreases |calls|
  {
    calls != [] ==>
      var n := |calls| - 1;
      var s := Play(r, calls[..n]);
      AllClean(r, calls[..n]) && CleanCall(s.keys, s.list, calls[n])
  }

  lemma {:induction false} PlaySound<K(!new), I, V>(r: Run<K, I, V>, calls: seq<Call<K, I, V>>)
    requires Sound(r) && AllAllowed(r, calls)
    ensures Sound(Play(r, calls))
    decreases |calls|
  {
    if calls != [] {
      hide Apart, Settled, Reflexive, Step, Matches, Allowed;
      var n := |calls| - 1;
      PlaySound(r, calls[..n]);
      StepSound(Play(r, calls[..n]), calls[n]);
    }
  }

  /** Over any run the map is that of ECMA-262 if and only if every call is clean. */
  lemma {:induction false} EveryRunAgrees<K(!new), I, V>(r: Run<K, I, V>, calls: seq<Call<K, I, V>>)
    requires Sound(r) && AllAllowed(r, calls)
    ensures AlwaysAgrees(r, calls) <==> AllClean(r, calls)
    decreases |calls|
  {
    hide Apart, Settled, Reflexive, Step, EcmaStep, Matches, CleanCall, Allowed;
    if calls != [] {
      var n := |calls| - 1;
      EveryRunAgrees(r, calls[..n]);
      PlaySound(r, calls[..n]);
      StepAgrees(Play(r, calls[..n]), calls[n]);
    }
  }

  /** A run of the language that is not that of ECMA-262: a value is set for a string, an object with
      that text is frozen, and then looked up. */
  lemma FrozenObjectDisagrees(id: nat, text: string, mark: IndexKey)
    ensures var r := Start<Value, IndexKey, int>(EARLY, []);
            var calls := [SetCall(Text(text), 1, mark), KeysCall(LATE), GetCall(Object(id, text))];
            Sound(r) && AllAllowed(r, calls) && !AlwaysAgrees(r, calls)
  {
    var r := Start<Value, IndexKey, int>(EARLY, []);
    var a, b, c := SetCall(Text(text), 1, mark), KeysCall(LATE), GetCall(Object(id, text));
    LanguageReflexive();
    FirstTwo(text, mark);
    NotClean(id, text);
    hide Step, Follows, Reflexive, AlwaysAgrees, Clean, Put;
    PlayOfThree(r, a, b, c);
    AllowedThree(r, a, b, c);
    EveryRunAgrees(r, [a, b, c]);
    assert [a, b, c][..2] == [a, b];
  }

  lemma FirstTwo(text: string, mark: IndexKey)
    ensures var r := Start<Value, IndexKey, int>(EARLY, []);
            var s1 := Step(r, SetCall(Text(text), 1, mark));
            s1.keys == EARLY && s1.list == [Some((Text(text), 1))] && s1.cursor == At(0) &&
            var s2 := Step(s1, KeysCall(LATE)); s2.keys == LATE && s2.list == s1.list
  {
  }

  lemma NotClean(id: nat, text: string)
    ensures !Clean(LATE, [Some((Text(text), 1))], Object(id, text))
  {
    var l: Entries<Value, int> := [Some((Text(text), 1))];
    assert Matches(LATE, Text(text), Object(id, text));
    assert Reached(LATE, l, Object(id, text)) == 0;
  }

  lemma PlayOfThree<K, I, V>(r: Run<K, I, V>, a: Call<K, I, V>, b: Call<K, I, V>, c: Call<K, I, V>)
    requires r.cursor.pos <= |r.list|
    ensures var s1 := Step(r, a);
            s1.cursor.pos <= |s1.list| && Play(r, []) == r && Play(r, [a]) == s1 && Play(r, [a, b]) == Step(s1, b)
  {
    hide Step;
    StepKeeps(r, a);
    assert [a, b, c][..2] == [a, b] && [a, b][..1] == [a] && [a][..0] == [];
    assert Play(r, [a]) == Step(Play(r, []), a);
    assert Play(r, [a, b]) == Step(Play(r, [a]), b);
  }

  lemma AllowedThree<K(!new), I, V>(r: Run<K, I, V>, a: Call<K, I, V>, b: Call<K, I, V>, c: Call<K, I, V>)
    requires r.cursor.pos <= |r.list| && Allowed(r.keys, a)
    requires var s1 := Step(r, a); s1.cursor.pos <= |s1.list| && Allowed(s1.keys, b) && Allowed(Step(s1, b).keys, c)
    ensures AllAllowed(r, [a, b, c])
  {
    hide Step, Allowed;
    PlayOfThree(r, a, b, c);
    assert [a, b, c][..2] == [a, b] && [a, b][..1] == [a] && [a][..0] == [];
    assert AllAllowed(r, []);
    assert AllAllowed(r, [a]);
    assert AllAllowed(r, [a, b]);
  }

  // ---- The heap structure plays every run ----

  /** Map `m` holds the keys and the list of `r`. */
  ghost predicate Holds<K(!new), I, V>(m: OrderedMap<K, I, V>, r: Run<K, I, V>)
    reads m
  {
    m.chain.view == r.list && m.keys == r.keys && r.cursor.pos <= |r.list|
  }

  /** Map `m` and its iterator `it` are in the state `r`. */
  ghost predicate InState<K(!new), I, V>(m: OrderedMap<K, I, V>, it: MapIterator<K, I, V>, r: Run<K, I, V>)
    reads m, m.all, it
  {
    && it.state == m && m.Valid() && it.Valid() && Holds(m, r)
    && (if it.live then r.cursor == At(it.Position()) else r.cursor.Done?)
  }

  /** A call that is not a step of the iterator. */
  method PlayChange<K(==,!new), I(==), V>(m: OrderedMap<K, I, V>, call: Call<K, I, V>, ghost r: Run<K, I, V>)
    returns (answer: Option<V>)
    requires m.Valid() && Holds(m, r) && !call.NextCall? && Allowed(r.keys, call)
    modifies m, m.all
    ensures m.Valid() && Grown(m)
    ensures r.cursor.pos <= |r.list| && Holds(m, Step(r, call))
    ensures Step(r, call).cursor == r.cursor && Step(r, call).given == r.given && Step(r, call).values == r.values
    ensures call.GetCall? ==> Step(r, call).answers == r.answers + [answer]
  {
    StepKeeps(r, call);
    hide NextLive, PrevLive, Reached, Good, IndexOk, LiveCount, Apart, Settled, NewMark, Follows, Put, Taken, Found, Mark;
    answer := None;
    match call {
      case SetCall(k, v, mark) => m.Set(k, v, mark);
      case DeleteCall(k) => var found := m.Delete(k);
      case ClearCall => m.Clear();
      case GetCall(k) => answer := m.Get(k);
      case KeysCall(next) => m.KeysChange(next);
      case NextCall =>
    }
  }

  method PlayOne<K(==,!new), I(==), V>(m: OrderedMap<K, I, V>, it: MapIterator<K, I, V>, call: Call<K, I, V>, ghost r: Run<K, I, V>)
    returns (out: Option<(K, V)>, answer: Option<V>)
    requires InState(m, it, r) && r.cursor.pos <= |r.list| && Allowed(r.keys, call)
    modifies m, m.all, it
    ensures Grown(m)
    ensures InState(m, it, Step(r, call))
    ensures Step(r, call).values == if out.Some? then r.values + [out.value] else r.values
    ensures Step(r, call).answers == if call.GetCall? then r.answers + [answer] else r.answers
  {
    hide NextLive, PrevLive, Reached, Put, Taken, Found, Good, IndexOk, LiveCount, Apart, Settled, Allowed, Mark;
    out, answer := None, None;
    if call.NextCall? {
      out := it.Next();
    } else {
      answer := PlayChange(m, call, r);
    }
  }

  /** Running the calls on the heap gives exactly what the run gives; for keys that compare equal to
      themselves, that is what ECMA-262 gives at every point if and only if every call is clean. */
  method PlayAll<K(==,!new), I(==), V>(m: OrderedMap<K, I, V>, it: MapIterator<K, I, V>, calls: seq<Call<K, I, V>>)
    returns (outs: seq<(K, V)>, answers: seq<Option<V>>)
    requires m.Valid() && it.Valid() && it.state == m && it.live && it.last == null
    requires AllAllowed(Start(m.keys, m.chain.view), calls)
    modifies m, m.all, it
    ensures var s := Play(Start(old(m.keys), old(m.chain.view)), calls);
            outs == s.values && answers == s.answers && InState(m, it, s)
    ensures var start := Start(old(m.keys), old(m.chain.view));
            Reflexive(old(m.keys)) ==> (AlwaysAgrees(start, calls) <==> AllClean(start, calls))
  {
    hide Step, Play, AllAllowed, Allowed, AlwaysAgrees, AllClean, Reflexive, Apart, Settled, Good, IndexOk;
    ghost var start := Start(m.keys, m.chain.view);
    if Reflexive(m.keys) { EveryRunAgrees(start, calls); }
    Starts(m, it);
    outs, answers := PlayHeap(m, it, calls, start);
  }

  /** The map has the entries it had, and new ones. */
  twostate predicate Grown<K(!new), I, V>(m: OrderedMap<K, I, V>)
    reads m
  {
    old(m.all) <= m.all && fresh(m.all[|old(m.all)|..])
  }

  twostate lemma SameEntries<K(!new), I, V>(m: OrderedMap<K, I, V>)
    requires m.all == old(m.all)
    ensures Grown(m)
  {
  }

  /** The entries are old or new, so that they may be changed. */
  twostate lemma MayModify<K(!new), I, V>(m: OrderedMap<K, I, V>)
    requires Grown(m)
    ensures forall e | e in m.all :: e in old(m.all) || fresh(e)
  {
    forall e | e in m.all ensures e in old(m.all) || fresh(e) {
      var i :| 0 <= i < |m.all| && m.all[i] == e;
      assert i >= |old(m.all)| ==> e == m.all[|old(m.all)|..][i - |old(m.all)|];
    }
  }

  twostate lemma GrownTwice<K(!new), I, V>(m: OrderedMap<K, I, V>, new before: seq<Entry<K, V>>)
    requires old(m.all) <= before && fresh(before[|old(m.all)|..])
    requires before <= m.all && fresh(m.all[|before|..])
    ensures Grown(m)
  {
    assert m.all[|old(m.all)|..] == before[|old(m.all)|..] + m.all[|before|..];
  }

  method PlayHeap<K(==,!new), I(==), V>(
      m: OrderedMap<K, I, V>, it: MapIterator<K, I, V>, calls: seq<Call<K, I, V>>, ghost start: Run<K, I, V>)
    returns (outs: seq<(K, V)>, answers: seq<Option<V>>)
    requires InState(m, it, start) && start.cursor.pos <= |start.list| && AllAllowed(start, calls)
    modifies m, m.all, it
    ensures Grown(m) && InState(m, it, Play(start, calls))
    ensures Play(start, calls).values == start.values + outs && Play(start, calls).answers == start.answers + answers
    decreases |calls|
  {
    hide Step, AllAllowed, Allowed, InState;
    if calls == [] {
      SameEntries(m);
      outs, answers := [], [];
    } else {
      var n := |calls| - 1;
      AllowedLast(start, calls);
      outs, answers := PlayHeap(m, it, calls[..n], start);
      ghost var before := m.all;
      MayModify(m);
      var out, answer := PlayOne(m, it, calls[n], Play(start, calls[..n]));
      GrownTwice(m, before);
      if out.Some? { outs := outs + [out.value]; }
      if calls[n].GetCall? { answers := answers + [answer]; }
    }
  }

  lemma AllowedLast<K(!new), I, V>(r: Run<K, I, V>, calls: seq<Call<K, I, V>>)
    requires r.cursor.pos <= |r.list| && AllAllowed(r, calls) && calls != []
    ensures var n := |calls| - 1; AllAllowed(r, calls[..n]) && Allowed(Play(r, calls[..n]).keys, calls[n])
  {
  }

  lemma Starts<K(!new), I, V>(m: OrderedMap<K, I, V>, it: MapIterator<K, I, V>)
    requires m.Valid() && it.Valid() && it.state == m && it.live && it.last == null
    ensures InState(m, it, Start(m.keys, m.chain.view))
  {
  }

  lemma PlayNext<K, I, V>(r: Run<K, I, V>, calls: seq<Call<K, I, V>>, n: nat)
    requires r.cursor.pos <= |r.list| && n < |calls|
    ensures Play(r, calls[..n + 1]) == Step(Play(r, calls[..n]), calls[n])
  {
    hide Step;
    assert calls[..n + 1][..n] == calls[..n];
  }

  lemma {:induction false} AllowedPrefix<K(!new), I, V>(r: Run<K, I, V>, calls: seq<Call<K, I, V>>, n: nat)
    requires r.cursor.pos <= |r.list| && AllAllowed(r, calls) && n <= |calls|
    ensures AllAllowed(r, calls[..n])
    decreases |calls|
  {
    hide Step, Allowed;
    if n < |calls| {
      AllowedPrefix(r, calls[..|calls| - 1], n);
      assert calls[..|calls| - 1][..n] == calls[..n];
    } else {
      assert calls[..n] == calls;
    }
  }

  lemma {:induction false} AllowedRest<K(!new), I, V>(r: Run<K, I, V>, a: seq<Call<K, I, V>>, b: seq<Call<K, I, V>>)
    requires r.cursor.pos <= |r.list| && AllAllowed(r, a + b)
    ensures AllAllowed(Play(r, a), b)
    decreases |b|
  {
    hide Step, Allowed, Play;
    if b != [] {
      var n := |b| - 1;
      assert (a + b)[..|a + b| - 1] == a + b[..n];
      PlayMore(r, a, b[..n]);
      AllowedRest(r, a, b[..n]);
    }
  }

  // ---- forEach ----

  /** A step, the calls the callback makes, a step, and so on, ending with a step. */
  function Visits<K, I, V>(acts: seq<seq<Call<K, I, V>>>): seq<Call<K, I, V>> {
    if acts == [] then [NextCall]
    else Visits(acts[..|acts| - 1]) + acts[|acts| - 1] + [NextCall]
  }

  lemma {:induction false} PlayMore<K, I, V>(r: Run<K, I, V>, a: seq<Call<K, I, V>>, b: seq<Call<K, I, V>>)
    requires r.cursor.pos <= |r.list|
    ensures Play(r, a + b) == Play(Play(r, a), b)
    decreases |b|
  {
    hide Step;
    if b == [] {
      assert a + b == a;
    } else {
      var n := |b| - 1;
      assert (a + b)[..|a + b| - 1] == a + b[..n];
      PlayMore(r, a, b[..n]);
    }
  }

  /** What the callback does during one visit. */
  method PlayChanges<K(==,!new), I(==), V>(m: OrderedMap<K, I, V>, calls: seq<Call<K, I, V>>, ghost r: Run<K, I, V>)
    requires m.Valid() && Holds(m, r) && AllAllowed(r, calls)
    requires forall i | 0 <= i < |calls| :: !calls[i].NextCall?
    modifies m, m.all
    ensures m.Valid() && Grown(m)
    ensures r.cursor.pos <= |r.list| && Holds(m, Play(r, calls))
    ensures var s := Play(r, calls); s.cursor == r.cursor && s.given == r.given && s.values == r.values
    decreases |calls|
  {
    hide Step, AllAllowed, Apart, Settled, Allowed, Good, IndexOk, NextLive, PrevLive, LiveCount;
    if calls != [] {
      var n := |calls| - 1;
      AllowedLast(r, calls);
      PlayChanges(m, calls[..n], r);
      ghost var before := m.all;
      MayModify(m);
      var _ := PlayChange(m, calls[n], Play(r, calls[..n]));
      GrownTwice(m, before);
    }
  }

  /** `forEach` with a callback that makes the calls `acts[i]` in its `i`th visit, observed until
      it ends or the callback's part runs out after `n` callbacks: it visits exactly the entries
      an iterator gives, and ends exactly when the iterator is exhausted. */
  method ForEach<K(==,!new), I(==), V>(m: OrderedMap<K, I, V>, acts: seq<seq<Call<K, I, V>>>)
    returns (visited: seq<(K, V)>, n: nat, ended: bool)
    requires m.Valid() && AllAllowed(Start(m.keys, m.chain.view), Visits(acts))
    requires forall i, j | 0 <= i < |acts| && 0 <= j < |acts[i]| :: !acts[i][j].NextCall?
    modifies m, m.all
    ensures m.Valid() && n <= |acts| && (!ended ==> n == |acts|)
    ensures var s := Play(Start(old(m.keys), old(m.chain.view)), Visits(acts[..n]));
            visited == s.values && m.chain.view == s.list && ended == s.cursor.Done?
  {
    hide NextLive, PrevLive, Reached, Good, IndexOk, LiveCount, Step, Apart, Settled, Visits, Play, AllAllowed;
    FromStart(m);
    ghost var start := Start(m.keys, m.chain.view);
    NotStarted(start);
    visited, n := [], 0;
    ghost var calls: seq<Call<K, I, V>> := [];
    ghost var p: nat := 0;
    var e: Entry?<K, V> := null;
    NoVisits(acts[..0]);
    while true
      invariant m.Valid() && n <= |acts| && calls + [NextCall] == Visits(acts[..n])
      invariant Grown(m)
      invariant m.Before(e, p)
      invariant Holds(m, Play(start, calls)) && Play(start, calls).cursor == At(p) && Play(start, calls).values == visited
      decreases |acts| - n
    {
      e := m.StepOn(e, p);
      Advanced(start, calls);
      if e == null {
        return visited, n, true;
      }
      visited := visited + [(e.key, e.value)];
      if n == |acts| {
        return visited, n, false;
      }
      p := e.pos + 1;
      NextVisit(start, acts, n, calls);
      ghost var before := m.all;
      MayModify(m);
      e := AfterVisit(m, e, acts[n], Play(start, calls + [NextCall]));
      GrownTwice(m, before);
      calls, n := calls + [NextCall] + acts[n], n + 1;
    }
  }

  lemma FromStart<K(!new), I, V>(m: OrderedMap<K, I, V>)
    ensures m.Before(null, 0)
  {
  }

  /** What is known before the next callback. */
  lemma NextVisit<K(!new), I, V>(start: Run<K, I, V>, acts: seq<seq<Call<K, I, V>>>, n: nat, calls: seq<Call<K, I, V>>)
    requires start.cursor.pos <= |start.list| && AllAllowed(start, Visits(acts))
    requires n < |acts| && calls + [NextCall] == Visits(acts[..n])
    ensures var s := Play(start, calls + [NextCall]);
            Play(start, calls + [NextCall] + acts[n]) == Play(s, acts[n]) && AllAllowed(s, acts[n])
    ensures Visits(acts[..n + 1]) == calls + [NextCall] + acts[n] + [NextCall]
  {
    hide Play, AllAllowed, Visits;
    var a, b := calls + [NextCall], acts[n];
    PlayMore(start, a, b);
    MoreVisits(acts, n);
    VisitsPrefix(acts, n + 1);
    assert Visits(acts)[..|a + b|] == a + b;
    AllowedPrefix(start, Visits(acts), |a + b|);
    AllowedRest(start, a, b);
  }

  lemma {:induction false} VisitsPrefix<K, I, V>(acts: seq<seq<Call<K, I, V>>>, n: nat)
    requires n <= |acts|
    ensures Visits(acts[..n]) <= Visits(acts)
    decreases |acts| - n
  {
    hide Visits;
    if n == |acts| {
      assert acts[..n] == acts;
    } else {
      VisitsPrefix(acts, n + 1);
      MoreVisits(acts, n);
    }
  }

  /** The callback for entry `e`, and the step back over what it removed. */
  method AfterVisit<K(==,!new), I(==), V>(m: OrderedMap<K, I, V>, e: Entry<K, V>, calls: seq<Call<K, I, V>>, ghost r: Run<K, I, V>)
    returns (b: Entry?<K, V>)
    requires m.Valid() && m.Mine(e) && Holds(m, r) && r.cursor == At(e.pos + 1) && AllAllowed(r, calls)
    requires forall i | 0 <= i < |calls| :: !calls[i].NextCall?
    modifies m, m.all
    ensures m.Valid() && Grown(m) && m.Before(b, e.pos + 1)
    ensures Holds(m, Play(r, calls)) && Play(r, calls).cursor == r.cursor && Play(r, calls).values == r.values
  {
    hide NextLive, PrevLive, Reached, Good, IndexOk, LiveCount, Step, Apart, Settled, Play, AllAllowed;
    assert m.all[e.pos] == e;
    ghost var before := m.all;
    PlayChanges(m, calls, r);
    assert m.all[e.pos] == before[e.pos];
    b := m.StepBack(e);
  }

  lemma NotStarted<K, I, V>(r: Run<K, I, V>)
    requires r.cursor.pos <= |r.list|
    ensures Play(r, []) == r
  {
  }

  lemma NoVisits<K, I, V>(acts: seq<seq<Call<K, I, V>>>)
    requires acts == []
    ensures [] + [NextCall] == Visits(acts)
  {
  }

  lemma MoreVisits<K, I, V>(acts: seq<seq<Call<K, I, V>>>, n: nat)
    requires n < |acts|
    ensures Visits(acts[..n + 1]) == Visits(acts[..n]) + acts[n] + [NextCall]
  {
    assert acts[..n + 1][..n] == acts[..n];
  }

  lemma Advanced<K, I, V>(r: Run<K, I, V>, calls: seq<Call<K, I, V>>)
    requires r.cursor.pos <= |r.list|
    ensures Play(r, calls + [NextCall]) == Advance(Play(r, calls))
  {
    assert (calls + [NextCall])[..|calls|] == calls;
  }
}
