/**
  * Genesis of the account module: importing a genesis state numbers the listed accounts and then
  * restores the counter; exporting lists every store in key order.
  */
module Genesis {
  import opened Options
  import opened Accounts
  import AuthKeeper

  datatype Genesis = Genesis(
    accounts: seq<(Address, Account)>, pending: seq<(Address, Account)>,
    revocations: seq<(Address, seq<Grant>)>, stat: Option<nat>,
    revoked: seq<(Address, RevokedAccount)>, rejected: seq<(Address, Account)>)

  const EMPTY := Ledger(map[], map[], map[], map[], map[], None)

  // ---- Import ----

  /** Accounts put into the store under consecutive numbers; a later one replaces an earlier one. */
  function PutAccounts(active: map<Address, Account>, list: seq<(Address, Account)>, next: nat): map<Address, Account>
    decreases |list|
  {
    if list == [] then active
    else PutAccounts(active[list[0].0 := list[0].1.(number := next)], list[1..], next + 1)
  }

  function PutAll<T>(store: map<Address, T>, list: seq<(Address, T)>): map<Address, T>
    decreases |list|
  {
    if list == [] then store else PutAll(store[list[0].0 := list[0].1], list[1..])
  }

  function Init(g: Genesis): Ledger {
    var counter := if g.stat.Some? then g.stat else if g.accounts == [] then None else Some(|g.accounts|);
    Ledger(PutAccounts(map[], g.accounts, 0), PutAll(map[], g.pending), PutAll(map[], g.revocations),
           PutAll(map[], g.revoked), PutAll(map[], g.rejected), counter)
  }

  /** The import loop, on a keeper with empty stores. */
  method InitGenesis(k: AuthKeeper.Keeper, g: Genesis)
    requires k.State() == EMPTY
    modifies k
    ensures k.State() == Init(g)
  {
    hide PutAccounts, PutAll;
    var i := 0;
    NothingPut(g);
    while i < |g.accounts|
      invariant 0 <= i <= |g.accounts| && Next(k.State()) == i && (k.counter.Some? <==> i > 0)
      invariant PutAccounts(k.active, g.accounts[i..], i) == PutAccounts(map[], g.accounts, 0)
      invariant k.State() == EMPTY.(active := k.active, counter := k.counter)
    {
      var elem := g.accounts[i];
      AccountPut(k.active, g.accounts, i);
      var number := k.NextAccountNumber();
      k.active := k.active[elem.0 := elem.1.(number := number)];
      i := i + 1;
    }
    assert g.accounts[i..] == [];
    AllPut(k.active, i);
    k.pending := Fill(g.pending);
    k.revocations := Fill(g.revocations);
    if g.stat.Some? {
      k.counter := g.stat;
    }
    k.revoked := Fill(g.revoked);
    k.rejected := Fill(g.rejected);
  }

  method Fill<T>(list: seq<(Address, T)>) returns (store: map<Address, T>)
    ensures store == PutAll(map[], list)
  {
    store := map[];
    var i := 0;
    assert list[0..] == list;
    while i < |list|
      invariant 0 <= i <= |list| && PutAll(store, list[i..]) == PutAll(map[], list)
    {
      assert list[i..][1..] == list[i + 1..];
      store := store[list[i].0 := list[i].1];
      i := i + 1;
    }
  }

  lemma NothingPut(g: Genesis)
    ensures g.accounts[0..] == g.accounts
  {
  }

  lemma AccountPut(active: map<Address, Account>, list: seq<(Address, Account)>, i: nat)
    requires i < |list|
    ensures PutAccounts(active, list[i..], i)
            == PutAccounts(active[list[i].0 := list[i].1.(number := i)], list[i + 1..], i + 1)
  {
    assert list[i..][1..] == list[i + 1..];
  }

  lemma AllPut(active: map<Address, Account>, next: nat)
    ensures PutAccounts(active, [], next) == active
  {
  }

  // ---- Numbers ----

  predicate NumbersBelow(active: map<Address, Account>, next: nat) {
    forall a | a in active :: active[a].number < next
  }

  predicate NumbersDiffer(active: map<Address, Account>) {
    forall a, b | a in active && b in active && a != b :: active[a].number != active[b].number
  }

  lemma {:induction false} PutNumbers(active: map<Address, Account>, list: seq<(Address, Account)>, next: nat)
    requires NumbersBelow(active, next) && NumbersDiffer(active)
    ensures NumbersBelow(PutAccounts(active, list, next), next + |list|) && NumbersDiffer(PutAccounts(active, list, next))
    decreases |list|
  {
    if list != [] {
      PutNumbers(active[list[0].0 := list[0].1.(number := next)], list[1..], next + 1);
    }
  }

  /** The last listed account is never replaced. */
  lemma {:induction false} LastNumber(active: map<Address, Account>, list: seq<(Address, Account)>, next: nat)
    requires list != []
    ensures var a := list[|list| - 1].0; var put := PutAccounts(active, list, next);
            a in put && put[a].number == next + |list| - 1
    decreases |list|
  {
    var active' := active[list[0].0 := list[0].1.(number := next)];
    if |list| == 1 {
      assert list[1..] == [];
    } else {
      LastNumber(active', list[1..], next + 1);
    }
  }

  /** The counter is absent, or at least the number of listed accounts. */
  predicate CounterCovers(g: Genesis) {
    g.stat.Some? ==> g.stat.value >= |g.accounts|
  }

  /** Imported accounts have different numbers, all below the next number handed out if and only if
      the counter covers them. */
  lemma InitNumbers(g: Genesis)
    ensures NumbersDiffer(Init(g).active)
    ensures NumbersBelow(Init(g).active, Next(Init(g))) <==> CounterCovers(g)
  {
    hide PutAccounts;
    PutNumbers(map[], g.accounts, 0);
    if g.accounts != [] { LastNumber(map[], g.accounts, 0); }
  }

  // ---- Preparing a genesis state ----

  /** Appends accounts to a genesis state and adds their count to the counter, absent meaning 0. */
  function AddAccounts(g: Genesis, more: seq<(Address, Account)>): Genesis {
    g.(accounts := g.accounts + more, stat := Some((if g.stat.Some? then g.stat.value else 0) + |more|))
  }

  /** A counter that covers the accounts still does afterwards, unless it was absent although
      accounts were listed. */
  lemma AddAccountsCovers(g: Genesis, more: seq<(Address, Account)>)
    requires CounterCovers(g)
    ensures CounterCovers(AddAccounts(g, more)) <==> g.stat.Some? || g.accounts == []
  {
  }

  /** One listed account and no counter: after another is added, the next account gets a number
      that is already taken. */
  lemma NumberTakenTwice(x: Account, y: Account)
    ensures var g := AddAccounts(Genesis([("x", x)], [], [], None, [], []), [("y", y)]);
            "y" in Init(g).active && Init(g).active["y"].number == Next(Init(g))
  {
    var g := AddAccounts(Genesis([("x", x)], [], [], None, [], []), [("y", y)]);
    assert g.accounts == [("x", x), ("y", y)];
    LastNumber(map[], g.accounts, 0);
  }

  /** From the default genesis state, any number of additions gives numbers that are all below the
      next one. */
  lemma {:induction false} AddedCovers(g: Genesis, batches: seq<seq<(Address, Account)>>)
    requires g.stat.Some? || g.accounts == []
    requires CounterCovers(g)
    ensures var all := AddAll(g, batches);
            CounterCovers(all) && NumbersBelow(Init(all).active, Next(Init(all)))
    decreases |batches|
  {
    if batches == [] {
      InitNumbers(g);
    } else {
      AddAccountsCovers(g, batches[0]);
      AddedCovers(AddAccounts(g, batches[0]), batches[1..]);
    }
  }

  function AddAll(g: Genesis, batches: seq<seq<(Address, Account)>>): Genesis
    decreases |batches|
  {
    if batches == [] then g else AddAll(AddAccounts(g, batches[0]), batches[1..])
  }

  // ---- Export ----

  type KeyOrder = (Address, Address) -> bool

  /** Store keys are iterated in a fixed total order. */
  ghost predicate StrictTotal(less: KeyOrder) {
    (forall a, b :: a != b ==> less(a, b) || less(b, a)) && (forall a :: !less(a, a)) &&
    (forall a, b, c :: less(a, b) && less(b, c) ==> less(a, c))
  }

  ghost predicate IsLeast(less: KeyOrder, keys: set<Address>, a: Address) {
    a in keys && forall b | b in keys && b != a :: less(a, b)
  }

  lemma {:induction false} HasLeast(less: KeyOrder, keys: set<Address>) returns (least: Address)
    requires StrictTotal(less) && keys != {}
    ensures IsLeast(less, keys, least)
    decreases |keys|
  {
    var a :| a in keys;
    var rest := keys - {a};
    if rest == {} {
      assert forall c | c in keys :: c in rest || c == a;
      least := a;
    } else {
      var b := HasLeast(less, rest);
      least := if less(a, b) then a else b;
      forall c | c in keys && c != least
        ensures less(least, c)
      {
        assert c == a || c == b || less(b, c);
      }
    }
  }

  ghost function InOrder(less: KeyOrder, keys: set<Address>): (ks: seq<Address>)
    requires StrictTotal(less)
    ensures forall a :: a in ks <==> a in keys
    ensures forall i, j | 0 <= i < j < |ks| :: ks[i] != ks[j]
    decreases |keys|
  {
    if keys == {} then []
    else
      assert exists a :: IsLeast(less, keys, a) by { var a := HasLeast(less, keys); }
      var a :| IsLeast(less, keys, a);
      [a] + InOrder(less, keys - {a})
  }

  ghost function Listing<T>(less: KeyOrder, store: map<Address, T>): (list: seq<(Address, T)>)
    requires StrictTotal(less)
  {
    var ks := InOrder(less, store.Keys);
    seq(|ks|, i requires 0 <= i < |ks| => (ks[i], store[ks[i]]))
  }

  ghost function Export(less: KeyOrder, st: Ledger): Genesis
    requires StrictTotal(less)
  {
    Genesis(Listing(less, st.active), Listing(less, st.pending), Listing(less, st.revocations), st.counter,
            Listing(less, st.revoked), Listing(less, st.rejected))
  }

  // ---- Importing what was exported ----

  lemma {:induction false} PutBack<T>(store: map<Address, T>, done: map<Address, T>, list: seq<(Address, T)>)
    requires forall i | 0 <= i < |list| :: list[i].0 in store && store[list[i].0] == list[i].1
    requires forall a | a in done :: a in store && store[a] == done[a]
    requires forall a | a in store && a !in done :: exists i | 0 <= i < |list| :: list[i].0 == a
    ensures PutAll(done, list) == store
    decreases |list|
  {
    if list == [] {
      assert done == store;
    } else {
      var done' := done[list[0].0 := list[0].1];
      forall a | a in store && a !in done'
        ensures exists i | 0 <= i < |list[1..]| :: list[1..][i].0 == a
      {
        var i :| 0 <= i < |list| && list[i].0 == a;
        assert list[1..][i - 1].0 == a;
      }
      PutBack(store, done', list[1..]);
    }
  }

  lemma ListingBack<T>(less: KeyOrder, store: map<Address, T>)
    requires StrictTotal(less)
    ensures PutAll(map[], Listing(less, store)) == store
  {
    hide InOrder;
    var ks, list := InOrder(less, store.Keys), Listing(less, store);
    forall i | 0 <= i < |list|
      ensures list[i].0 in store && store[list[i].0] == list[i].1
    {
      assert ks[i] in ks;
    }
    forall a | a in store
      ensures exists i | 0 <= i < |list| :: list[i].0 == a
    {
      assert a in ks;
      var i :| 0 <= i < |ks| && ks[i] == a;
      assert list[i].0 == a;
    }
    PutBack(store, map[], list);
  }

  predicate SameButNumbers(x: seq<(Address, Account)>, y: seq<(Address, Account)>) {
    |x| == |y| && forall i | 0 <= i < |x| :: x[i].0 == y[i].0 && x[i].1.(number := 0) == y[i].1.(number := 0)
  }

  /** Import forgets the numbers in the list. */
  lemma {:induction false} PutForgets(active: map<Address, Account>, x: seq<(Address, Account)>, y: seq<(Address, Account)>, next: nat)
    requires SameButNumbers(x, y)
    ensures PutAccounts(active, x, next) == PutAccounts(active, y, next)
    decreases |x|
  {
    if x != [] {
      assert x[0].1.(number := next) == x[0].1.(number := 0).(number := next);
      assert y[0].1.(number := next) == y[0].1.(number := 0).(number := next);
      PutForgets(active[x[0].0 := x[0].1.(number := next)], x[1..], y[1..], next + 1);
    }
  }

  predicate Lists(list: seq<(Address, Account)>, a: Address) {
    exists i | 0 <= i < |list| :: list[i].0 == a
  }

  lemma {:induction false} PutKeys(active: map<Address, Account>, list: seq<(Address, Account)>, next: nat, a: Address)
    ensures a in PutAccounts(active, list, next) <==> a in active || Lists(list, a)
    ensures a in active && !Lists(list, a) ==> PutAccounts(active, list, next)[a] == active[a]
    decreases |list|
  {
    if list != [] {
      ListsNext(list, a);
      PutKeys(active[list[0].0 := list[0].1.(number := next)], list[1..], next + 1, a);
    }
  }

  lemma ListsNext(list: seq<(Address, Account)>, a: Address)
    requires list != []
    ensures Lists(list, a) <==> list[0].0 == a || Lists(list[1..], a)
  {
    if i :| 0 <= i < |list| && list[i].0 == a {
      assert i > 0 ==> list[1..][i - 1].0 == a;
    }
    if i :| 0 <= i < |list[1..]| && list[1..][i].0 == a {
      assert list[i + 1].0 == a;
    }
  }

  /** Distinct addresses keep the number of their position. */
  lemma {:induction false} PutAt(active: map<Address, Account>, list: seq<(Address, Account)>, next: nat, i: nat)
    requires (forall j, k | 0 <= j < k < |list| :: list[j].0 != list[k].0) && i < |list|
    ensures var put := PutAccounts(active, list, next);
            list[i].0 in put && put[list[i].0] == list[i].1.(number := next + i)
    decreases |list|
  {
    var active', rest := active[list[0].0 := list[0].1.(number := next)], list[1..];
    if i == 0 {
      PutKeys(active', rest, next + 1, list[0].0);
    } else {
      PutAt(active', rest, next + 1, i - 1);
    }
  }

  /** One export and import keeps every store but the account numbers, which become positions. */
  lemma OneRoundTrip(less: KeyOrder, st: Ledger)
    requires StrictTotal(less)
    ensures var next := Init(Export(less, st)); var ks := InOrder(less, st.active.Keys);
            next.active.Keys == st.active.Keys
            && (forall i | 0 <= i < |ks| :: next.active[ks[i]] == st.active[ks[i]].(number := i))
            && next.pending == st.pending && next.revocations == st.revocations
            && next.revoked == st.revoked && next.rejected == st.rejected
  {
    hide InOrder, PutAccounts, PutAll;
    ListingBack(less, st.pending);
    ListingBack(less, st.revocations);
    ListingBack(less, st.revoked);
    ListingBack(less, st.rejected);
    Renumbered(less, st.active);
  }

  lemma Renumbered(less: KeyOrder, active: map<Address, Account>)
    requires StrictTotal(less)
    ensures var put := PutAccounts(map[], Listing(less, active), 0); var ks := InOrder(less, active.Keys);
            put.Keys == active.Keys && forall i | 0 <= i < |ks| :: put[ks[i]] == active[ks[i]].(number := i)
  {
    hide InOrder, PutAccounts;
    var ks, list := InOrder(less, active.Keys), Listing(less, active);
    var put := PutAccounts(map[], list, 0);
    forall a
      ensures a in put <==> a in active
    {
      PutKeys(map[], list, 0, a);
      if a in active {
        assert a in ks;
        var i :| 0 <= i < |ks| && ks[i] == a;
        assert list[i].0 == a;
      }
    }
    forall i | 0 <= i < |ks|
      ensures ks[i] in put && put[ks[i]] == active[ks[i]].(number := i)
    {
      PutAt(map[], list, 0, i);
    }
  }

  lemma ListingForgets(less: KeyOrder, x: map<Address, Account>, y: map<Address, Account>, ks: seq<Address>)
    requires StrictTotal(less) && x.Keys == y.Keys && ks == InOrder(less, y.Keys)
    requires forall i | 0 <= i < |ks| :: ks[i] in x && ks[i] in y && x[ks[i]] == y[ks[i]].(number := i)
    ensures SameButNumbers(Listing(less, x), Listing(less, y))
  {
    hide InOrder;
  }

  /** After one export and import, another changes nothing at all, counter included. */
  lemma RoundTripStable(less: KeyOrder, st: Ledger)
    requires StrictTotal(less)
    ensures var once := Init(Export(less, st)); Init(Export(less, once)) == once
  {
    hide InOrder, PutAccounts, PutAll;
    var once := Init(Export(less, st));
    OneRoundTrip(less, st);
    OneRoundTrip(less, once);
    var x, y := Listing(less, once.active), Listing(less, st.active);
    var ks := InOrder(less, st.active.Keys);
    assert forall i | 0 <= i < |ks| :: ks[i] in ks;
    ListingForgets(less, once.active, st.active, ks);
    PutForgets(map[], x, y, 0);
    assert |x| == 0 <==> |y| == 0;
  }
}
