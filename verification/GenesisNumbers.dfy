/**
  * Account numbers across restarts: what import leaves unique, exactly when revoked and rejected
  * accounts keep numbers of their own, and that runs, exports and imports can go on for ever.
  */
module GenesisNumbers {
  import opened Options
  import opened Accounts
  import opened AccountRuns
  import opened Genesis

  // ---- Active accounts, without any condition on the others ----

  /** Active accounts have different numbers, below the next one. */
  predicate ActiveUnique(st: Ledger) {
    NumbersBelow(st.active, Next(st)) && NumbersDiffer(st.active)
  }

  /** What one message does to the active store: nothing, one account less, or one more with the
      next number. */
  lemma ActiveChange(st: Ledger, m: Message)
    ensures var next := Step(st, m); var a := m.address;
            || (next.active == st.active && Next(next) >= Next(st))
            || (next.active == st.active - {a} && Next(next) >= Next(st))
            || (a in next.active && next.active == st.active[a := next.active[a]]
                && next.active[a].number == Next(st) && Next(next) == Next(st) + 1)
  {
    hide Trustees, ApprovalsCount, GrantedBy;
    var a := m.address;
    if Refusal(st, m).None? {
      var r, t := At(st, a), |Trustees(st.active)|;
      var c := Changed(r, t, Next(st), m);
      assert Step(st, m).active == Store(st.active, a, c.active);
      assert c.active == r.active || c.active == None || c.active.value.number == Next(st);
      assert c.active == r.active ==> Store(st.active, a, c.active) == st.active;
    }
  }

  lemma {:induction false} EveryRunActive(st: Ledger, ms: seq<Message>)
    requires ActiveUnique(st)
    ensures ActiveUnique(Run(st, ms))
    decreases |ms|
  {
    hide Step;
    if ms != [] {
      ActiveChange(st, ms[0]);
      EveryRunActive(Step(st, ms[0]), ms[1..]);
    }
  }

  /** On every chain started from a genesis state whose counter covers the accounts, whoever was
      revoked or rejected, active accounts always have different numbers, below the next one. */
  lemma ActiveFromGenesis(g: Genesis, ms: seq<Message>)
    requires CounterCovers(g)
    ensures ActiveUnique(Run(Init(g), ms))
  {
    hide Init, Run;
    InitNumbers(g);
    EveryRunActive(Init(g), ms);
  }

  // ---- The next export ----

  /** No more accounts than numbers below the next one. */
  lemma {:induction false} Counted(active: map<Address, Account>, n: nat)
    requires NumbersBelow(active, n) && NumbersDiffer(active)
    ensures |active| <= n
    decreases n
  {
    if n == 0 {
      assert active.Keys == {};
    } else if a :| a in active && active[a].number == n - 1 {
      var rest := active - {a};
      assert active.Keys == rest.Keys + {a};
      Counted(rest, n - 1);
    } else {
      Counted(active, n - 1);
    }
  }

  lemma {:induction false} OrderLength(less: KeyOrder, keys: set<Address>)
    requires StrictTotal(less)
    ensures |InOrder(less, keys)| == |keys|
    decreases |keys|
  {
    hide StrictTotal;
    if keys != {} {
      assert exists a :: IsLeast(less, keys, a) by { var a := HasLeast(less, keys); }
      var ks := InOrder(less, keys);
      assert ks[0] in keys && ks == [ks[0]] + InOrder(less, keys - {ks[0]});
      OrderLength(less, keys - {ks[0]});
    }
  }

  /** What such a chain exports is again covered by its counter, so that it can be restarted. */
  lemma ExportCovers(less: KeyOrder, g: Genesis, ms: seq<Message>)
    requires StrictTotal(less) && CounterCovers(g)
    ensures CounterCovers(Export(less, Run(Init(g), ms)))
  {
    hide Init, Run, InOrder, StrictTotal;
    var st := Run(Init(g), ms);
    ActiveFromGenesis(g, ms);
    Counted(st.active, Next(st));
    OrderLength(less, st.active.Keys);
    assert |st.active| == |st.active.Keys|;
  }

  /** A chain that runs, is exported and imported, any number of times. */
  ghost function Restarted(less: KeyOrder, g: Genesis, runs: seq<seq<Message>>): Genesis
    requires StrictTotal(less)
    decreases |runs|
  {
    if runs == [] then g else Restarted(less, Export(less, Run(Init(g), runs[0])), runs[1..])
  }

  /** However often it is restarted, active accounts have different numbers, below the next one. */
  lemma {:induction false} ActiveThroughRestarts(less: KeyOrder, g: Genesis, runs: seq<seq<Message>>, ms: seq<Message>)
    requires StrictTotal(less) && CounterCovers(g)
    ensures ActiveUnique(Run(Init(Restarted(less, g, runs)), ms))
    decreases |runs|
  {
    hide Init, Run, Export, StrictTotal, ActiveUnique;
    if runs == [] {
      ActiveFromGenesis(g, ms);
    } else {
      ExportCovers(less, g, runs[0]);
      ActiveThroughRestarts(less, Export(less, Run(Init(g), runs[0])), runs[1..], ms);
    }
  }

  // ---- Revoked and rejected accounts ----

  predicate AddressesDiffer<T>(list: seq<(Address, T)>) {
    forall i, j | 0 <= i < j < |list| :: list[i].0 != list[j].0
  }

  /** What the validation of a genesis state demands of these lists. */
  predicate Validated(g: Genesis) {
    AddressesDiffer(g.accounts) && AddressesDiffer(g.revoked) && AddressesDiffer(g.rejected)
  }

  /** The numbers the revoked and the rejected accounts bring along. */
  function KeptNumber(g: Genesis, i: nat): nat
    requires i < |g.revoked| + |g.rejected|
  {
    if i < |g.revoked| then g.revoked[i].1.account.number else g.rejected[i - |g.revoked|].1.number
  }

  /** The counter covers the accounts, and every number brought along lies between the new numbers
      of the accounts and the counter, none twice. */
  predicate NumbersFree(g: Genesis) {
    var next := if g.stat.Some? then g.stat.value else |g.accounts|;
    && CounterCovers(g)
    && (forall i | 0 <= i < |g.revoked| + |g.rejected| :: |g.accounts| <= KeptNumber(g, i) < next)
    && (forall i, j | 0 <= i < j < |g.revoked| + |g.rejected| :: KeptNumber(g, i) != KeptNumber(g, j))
  }

  lemma {:induction false} PutAllKeys<T>(store: map<Address, T>, list: seq<(Address, T)>, a: Address) returns (i: nat)
    requires a in PutAll(store, list) && a !in store
    ensures i < |list| && list[i].0 == a
    decreases |list|
  {
    if list[0].0 == a {
      i := 0;
    } else {
      i := PutAllKeys(store[list[0].0 := list[0].1], list[1..], a);
      i := i + 1;
    }
  }

  lemma {:induction false} PutAllKept<T>(store: map<Address, T>, list: seq<(Address, T)>, a: Address)
    requires a in store && forall i | 0 <= i < |list| :: list[i].0 != a
    ensures a in PutAll(store, list) && PutAll(store, list)[a] == store[a]
    decreases |list|
  {
    if list != [] { PutAllKept(store[list[0].0 := list[0].1], list[1..], a); }
  }

  lemma {:induction false} PutAllAt<T>(store: map<Address, T>, list: seq<(Address, T)>, i: nat)
    requires AddressesDiffer(list) && i < |list|
    ensures list[i].0 in PutAll(store, list) && PutAll(store, list)[list[i].0] == list[i].1
    decreases |list|
  {
    var store' := store[list[0].0 := list[0].1];
    if i == 0 {
      PutAllKept(store', list[1..], list[0].0);
    } else {
      PutAllAt(store', list[1..], i - 1);
    }
  }

  /** All the places an imported number can be: the accounts, then the revoked, then the rejected. */
  function Count(g: Genesis): nat {
    |g.accounts| + |g.revoked| + |g.rejected|
  }

  function PlaceOf(g: Genesis, i: nat): (Address, Place)
    requires i < Count(g)
  {
    var n, m := |g.accounts|, |g.accounts| + |g.revoked|;
    if i < n then (g.accounts[i].0, Active)
    else if i < m then (g.revoked[i - n].0, Revoked)
    else (g.rejected[i - m].0, Rejected)
  }

  function NumberOf(g: Genesis, i: nat): nat
    requires i < Count(g)
  {
    if i < |g.accounts| then i else KeptNumber(g, i - |g.accounts|)
  }

  lemma PlacesDiffer(g: Genesis, i: nat, j: nat)
    requires Validated(g) && i < j < Count(g)
    ensures PlaceOf(g, i) != PlaceOf(g, j)
  {
  }

  /** The number found at each place. */
  lemma FoundAt(g: Genesis, i: nat)
    requires Validated(g) && i < Count(g)
    ensures var (a, p) := PlaceOf(g, i); NumberAt(At(Init(g), a), p) == Some(NumberOf(g, i))
  {
    hide PutAll, PutAccounts;
    var n, m := |g.accounts|, |g.accounts| + |g.revoked|;
    if i < n {
      PutAt(map[], g.accounts, 0, i);
    } else if i < m {
      PutAllAt(map[], g.revoked, i - n);
    } else {
      PutAllAt(map[], g.rejected, i - m);
    }
  }

  /** There are no other places. */
  lemma PlaceIs(g: Genesis, a: Address, p: Place) returns (i: nat)
    requires NumberAt(At(Init(g), a), p).Some?
    ensures i < Count(g) && PlaceOf(g, i) == (a, p)
  {
    hide PutAll, PutAccounts;
    match p
    case Active =>
      PutKeys(map[], g.accounts, 0, a);
      i :| 0 <= i < |g.accounts| && g.accounts[i].0 == a;
    case Revoked =>
      i := PutAllKeys(map[], g.revoked, a);
      i := i + |g.accounts|;
    case Rejected =>
      i := PutAllKeys(map[], g.rejected, a);
      i := i + |g.accounts| + |g.revoked|;
  }

  /** The same condition over all places. */
  predicate PlacesFree(g: Genesis) {
    && (forall i | 0 <= i < Count(g) :: NumberOf(g, i) < Next(Init(g)))
    && (forall i, j | 0 <= i < j < Count(g) :: NumberOf(g, i) != NumberOf(g, j))
  }

  lemma KeptFree(g: Genesis, i: nat)
    requires PlacesFree(g) && i < |g.revoked| + |g.rejected|
    ensures |g.accounts| <= KeptNumber(g, i) < Next(Init(g))
  {
    hide PutAll, PutAccounts, KeptNumber, PlacesFree;
    var n, x := |g.accounts|, KeptNumber(g, i);
    NumberFree(g, n + i);
    if x < n { NumbersDistinct(g, x, n + i); }
  }

  lemma NumberFree(g: Genesis, i: nat)
    requires PlacesFree(g) && i < Count(g)
    ensures NumberOf(g, i) < Next(Init(g))
  {
  }

  lemma NumbersDistinct(g: Genesis, i: nat, j: nat)
    requires PlacesFree(g) && i < j < Count(g)
    ensures NumberOf(g, i) != NumberOf(g, j)
  {
  }

  lemma FreeIsFree(g: Genesis)
    ensures PlacesFree(g) <==> NumbersFree(g)
  {
    hide PutAll, PutAccounts, KeptNumber;
    var n := |g.accounts|;
    if PlacesFree(g) {
      if n > 0 { NumberFree(g, n - 1); }
      forall i | 0 <= i < |g.revoked| + |g.rejected| ensures n <= KeptNumber(g, i) < Next(Init(g)) {
        KeptFree(g, i);
      }
      forall i, j | 0 <= i < j < |g.revoked| + |g.rejected| ensures KeptNumber(g, i) != KeptNumber(g, j) {
        NumbersDistinct(g, n + i, n + j);
      }
    }
  }

  /** After an import all account numbers are unique, over active, revoked and rejected accounts, if
      and only if those brought along are free. */
  lemma ImportedNumbers(g: Genesis)
    requires Validated(g)
    ensures NumbersUnique(Init(g)) <==> NumbersFree(g)
  {
    hide *;
    FreeIsFree(g);
    if PlacesFree(g) { FreeIsUnique(g); }
    if NumbersUnique(Init(g)) { UniqueIsFree(g); }
  }

  lemma FreeIsUnique(g: Genesis)
    requires Validated(g) && PlacesFree(g)
    ensures NumbersUnique(Init(g))
  {
    hide NumberAt, At, Init, PlaceOf, NumberOf, Count;
    var st := Init(g);
    forall a, p, b, q | NumberAt(At(st, a), p).Some?
      ensures NumberAt(At(st, a), p).value < Next(st)
      ensures (a, p) != (b, q) ==> NumberAt(At(st, a), p) != NumberAt(At(st, b), q)
    {
      var i := PlaceIs(g, a, p);
      FoundAt(g, i);
      if NumberAt(At(st, b), q).Some? {
        var j := PlaceIs(g, b, q);
        FoundAt(g, j);
      }
    }
    forall a ensures NumbersWithin(At(st, a), Next(st)) {}
    forall a, b | a != b ensures NumbersApart(At(st, a), At(st, b)) {}
  }

  lemma UniqueIsFree(g: Genesis)
    requires Validated(g) && NumbersUnique(Init(g))
    ensures PlacesFree(g)
  {
    hide NumberAt, At, Init, PlaceOf, NumberOf, Count;
    var st := Init(g);
    forall i | 0 <= i < Count(g) ensures NumberOf(g, i) < Next(st) {
      FoundAt(g, i);
      assert NumbersWithin(At(st, PlaceOf(g, i).0), Next(st));
    }
    forall i, j | 0 <= i < j < Count(g) ensures NumberOf(g, i) != NumberOf(g, j) {
      FoundAt(g, i);
      FoundAt(g, j);
      PlacesDiffer(g, i, j);
      var (a, p) := PlaceOf(g, i);
      var (b, q) := PlaceOf(g, j);
      assert NumbersWithin(At(st, a), Next(st));
      if a != b { assert NumbersApart(At(st, a), At(st, b)); }
    }
  }

  /** A chain started from such a state never hands out a number that anybody holds. */
  lemma NumbersFromGenesis(g: Genesis, ms: seq<Message>)
    requires Validated(g) && NumbersFree(g)
    ensures NumbersUnique(Run(Init(g), ms))
  {
    hide *;
    ImportedNumbers(g);
    EveryRunNumbers(Init(g), ms);
  }

  /** An account "y" with number 1, after the account "x" with number 0 was lost to double signing. */
  function OneLost(account: Account): Ledger {
    var x, y := account.(number := 0), account.(number := 1);
    Ledger(map["y" := y], map[], map[], map["x" := RevokedAccount(x, [], MaliciousValidator)], map[], Some(2))
  }

  lemma OneLostUnique(account: Account)
    ensures NumbersUnique(OneLost(account))
  {
    var st := OneLost(account);
    forall a ensures NumbersWithin(At(st, a), Next(st)) {}
    forall a, b | a != b ensures NumbersApart(At(st, a), At(st, b)) {}
  }

  /** If that state is exported and imported, "y" gets number 0, which "x" still holds. */
  lemma NumberHeldTwice(less: KeyOrder, account: Account)
    requires StrictTotal(less)
    ensures NumbersUnique(OneLost(account)) && !NumbersUnique(Init(Export(less, OneLost(account))))
  {
    hide InOrder, Init, Export, NumbersUnique, StrictTotal;
    var st := OneLost(account);
    OneLostUnique(account);
    OneRoundTrip(less, st);
    OrderLength(less, st.active.Keys);
    var ks := InOrder(less, st.active.Keys);
    assert st.active.Keys == {"y"} && ks[0] in ks;
    SharedNumber(Init(Export(less, st)), "y", "x");
  }

  lemma SharedNumber(st: Ledger, a: Address, b: Address)
    requires a != b && a in st.active && b in st.revoked && st.active[a].number == st.revoked[b].account.number
    ensures !NumbersUnique(st)
  {
    assert NumberAt(At(st, a), Active) == NumberAt(At(st, b), Revoked);
    assert !NumbersApart(At(st, a), At(st, b));
  }
}
