/**
  * The account keeper: the stores and the message handlers that change them.
  */
module AuthKeeper {
  import opened Options
  import opened Accounts
  import opened AccountRuns
  import opened AccountAdmission

  class Keeper {
    var active: map<Address, Account>
    var pending: map<Address, Account>
    var revocations: map<Address, seq<Grant>>
    var revoked: map<Address, RevokedAccount>
    var rejected: map<Address, Account>
    var counter: Option<nat>

    function State(): Ledger
      reads this
    {
      Ledger(active, pending, revocations, revoked, rejected, counter)
    }

    constructor (start: Ledger)
      ensures State() == start
    {
      active, pending, revocations := start.active, start.pending, start.revocations;
      revoked, rejected, counter := start.revoked, start.rejected, start.counter;
    }

    /** Counts the accounts with the trustee role one by one. */
    method CountTrustees() returns (n: nat)
      ensures n == |Trustees(active)|
    {
      n := 0;
      var rest := active.Keys;
      ghost var seen: set<Address> := {};
      while rest != {}
        invariant rest <= active.Keys && n == |seen|
        invariant forall a :: a in seen <==> a in active && a !in rest && TRUSTEE in active[a].roles
        decreases |rest|
      {
        var a :| a in rest;
        if TRUSTEE in active[a].roles {
          seen := seen + {a};
          n := n + 1;
        }
        rest := rest - {a};
      }
      assert seen == Trustees(active);
    }

    method HasTrusteeRole(a: Address) returns (yes: bool)
      ensures yes == (a in Trustees(active))
    {
      if a !in active { return false; }
      return TRUSTEE in active[a].roles;
    }

    method NextAccountNumber() returns (n: nat)
      modifies this`counter
      ensures n == old(Next(State())) && counter == Some(n + 1)
    {
      n := if counter == None then 0 else counter.value;
      counter := Some(n + 1);
    }

    method ProposeAddAccount(m: Message) returns (error: Option<Error>)
      requires m.ProposeAdd?
      modifies this
      ensures error == Refusal(old(State()), m) && State() == Step(old(State()), m)
    {
      hide Trustees, ApprovalsCount, Moved, ValidBasic;
      if !ValidBasic(m) { return Some(InvalidMessage); }
      var trusted := HasTrusteeRole(m.signer);
      if !trusted { return Some(Unauthorized); }
      if VENDOR in m.roles && m.vendorId <= 0 { return Some(MissingVendorId); }
      if m.address in active { return Some(AccountExists); }
      if m.address in pending { return Some(PendingExists); }
      var trustees := CountTrustees();
      var account := Account(m.roles, m.vendorId, 0, [Grant(m.signer, m.time, m.info)], []);
      if AddQuorum(trustees, m.roles) > 1 {
        pending := pending[m.address := account];
      } else {
        var number := NextAccountNumber();
        active := active[m.address := account.(number := number)];
      }
      if m.address in rejected {
        rejected := rejected - {m.address};
      }
      Unmoved(old(State()), m.address);
      return None;
    }

    method ApproveAddAccount(m: Message) returns (error: Option<Error>)
      requires m.ApproveAdd?
      modifies this
      ensures error == Refusal(old(State()), m) && State() == Step(old(State()), m)
    {
      hide Trustees, ApprovalsCount, GrantedBy, Moved;
      var trusted := HasTrusteeRole(m.signer);
      if !trusted { return Some(Unauthorized); }
      if m.address !in pending { return Some(NoPending); }
      var account := pending[m.address];
      if GrantedBy(account.rejects, m.signer) { return Some(AlreadyRejectedBy); }
      if GrantedBy(account.approvals, m.signer) { return Some(AlreadyApprovedBy); }
      account := account.(approvals := account.approvals + [Grant(m.signer, m.time, m.info)]);
      var trustees := CountTrustees();
      if |account.approvals| >= AddQuorum(trustees, account.roles) {
        var number := NextAccountNumber();
        active := active[m.address := account.(number := number)];
        revoked := revoked - {m.address};
        pending := pending - {m.address};
      } else {
        pending := pending[m.address := account];
      }
      Unmoved(old(State()), m.address);
      return None;
    }

    method RejectAddAccount(m: Message) returns (error: Option<Error>)
      requires m.RejectAdd?
      modifies this
      ensures error == Refusal(old(State()), m) && State() == Step(old(State()), m)
    {
      hide Trustees, ApprovalsCount, GrantedBy, Moved;
      var trusted := HasTrusteeRole(m.signer);
      if !trusted { return Some(Unauthorized); }
      if m.address !in pending { return Some(NoPending); }
      var account := pending[m.address];
      if GrantedBy(account.rejects, m.signer) { return Some(AlreadyRejectedBy); }
      if GrantedBy(account.approvals, m.signer) { return Some(AlreadyApprovedBy); }
      account := account.(rejects := account.rejects + [Grant(m.signer, m.time, m.info)]);
      var trustees := CountTrustees();
      if |account.rejects| >= RejectsCount(trustees) {
        var number := NextAccountNumber();
        rejected := rejected[m.address := account.(number := number)];
        pending := pending - {m.address};
      } else {
        pending := pending[m.address := account];
      }
      Unmoved(old(State()), m.address);
      return None;
    }

    /** Moves an active account to the revoked store. */
    method MoveToRevoked(a: Address, approvals: seq<Grant>, reason: Reason) returns (found: bool)
      modifies this`active, this`revoked
      ensures found == (a in old(active))
      ensures active == old(active) - {a}
      ensures revoked == if found then old(revoked)[a := RevokedAccount(old(active)[a], approvals, reason)] else old(revoked)
    {
      if a !in active { return false; }
      revoked := revoked[a := RevokedAccount(active[a], approvals, reason)];
      active := active - {a};
      return true;
    }

    method ProposeRevokeAccount(m: Message) returns (error: Option<Error>)
      requires m.ProposeRevoke?
      modifies this
      ensures error == Refusal(old(State()), m) && State() == Step(old(State()), m)
    {
      hide Trustees, ApprovalsCount, GrantedBy;
      var trusted := HasTrusteeRole(m.signer);
      if !trusted { return Some(Unauthorized); }
      if m.address !in active { return Some(NoAccount); }
      if m.address in revocations { return Some(RevocationExists); }
      var trustees := CountTrustees();
      if RevokeQuorum(trustees) > 1 {
        revocations := revocations[m.address := [Grant(m.signer, m.time, m.info)]];
      } else {
        var _ := MoveToRevoked(m.address, [Grant(m.signer, 0, "")], TrusteeVoting);
      }
      Unmoved(old(State()), m.address);
      return None;
    }

    method ApproveRevokeAccount(m: Message) returns (error: Option<Error>)
      requires m.ApproveRevoke?
      modifies this
      ensures error == Refusal(old(State()), m) && State() == Step(old(State()), m)
    {
      hide Trustees, ApprovalsCount, GrantedBy;
      var trusted := HasTrusteeRole(m.signer);
      if !trusted { return Some(Unauthorized); }
      if m.address !in revocations { return Some(NoRevocation); }
      var approvals := revocations[m.address];
      if GrantedBy(approvals, m.signer) { return Some(AlreadyApprovedBy); }
      approvals := approvals + [Grant(m.signer, m.time, m.info)];
      var trustees := CountTrustees();
      if |approvals| >= RevokeQuorum(trustees) {
        var found := MoveToRevoked(m.address, approvals, TrusteeVoting);
        if !found { assert active == old(active); return Some(NoAccount); }
        revocations := revocations - {m.address};
      } else {
        revocations := revocations[m.address := approvals];
      }
      Unmoved(old(State()), m.address);
      return None;
    }

    method HandleDoubleSign(m: Message) returns (error: Option<Error>)
      requires m.DoubleSign?
      modifies this
      ensures error == Refusal(old(State()), m) && State() == Step(old(State()), m)
    {
      hide Trustees, ApprovalsCount, GrantedBy;
      var found := MoveToRevoked(m.address, [], MaliciousValidator);
      if !found { assert active == old(active); return Some(NoAccount); }
      Unmoved(old(State()), m.address);
      return None;
    }

    method Handle(m: Message) returns (error: Option<Error>)
      modifies this
      ensures error == Refusal(old(State()), m) && State() == Step(old(State()), m)
    {
      hide Refusal, Step;
      match m
      case ProposeAdd(_, _, _, _, _, _) => error := ProposeAddAccount(m);
      case ApproveAdd(_, _, _, _) => error := ApproveAddAccount(m);
      case RejectAdd(_, _, _, _) => error := RejectAddAccount(m);
      case ProposeRevoke(_, _, _, _) => error := ProposeRevokeAccount(m);
      case ApproveRevoke(_, _, _, _) => error := ApproveRevokeAccount(m);
      case DoubleSign(_) => error := HandleDoubleSign(m);
    }
  }

  /** Writing back what a store holds changes nothing. */
  lemma Unmoved(st: Ledger, a: Address)
    ensures Store(st.active, a, Look(st.active, a)) == st.active
    ensures Store(st.pending, a, Look(st.pending, a)) == st.pending
    ensures Store(st.revocations, a, Look(st.revocations, a)) == st.revocations
    ensures Store(st.revoked, a, Look(st.revoked, a)) == st.revoked
    ensures Store(st.rejected, a, Look(st.rejected, a)) == st.rejected
  {
  }

  /** Any run of the handlers from a sound start: no address active and pending, no vote counted
      twice, account numbers unique, every account owed to proposals and approvals for it; and the two
      conditional properties exactly when they hold. */
  method Replay(start: Ledger, ms: seq<Message>) returns (keeper: Keeper)
    requires Fair(start) && NumbersUnique(start) && Separate(start) && Anchored(start)
    ensures fresh(keeper) && keeper.State() == Run(start, ms)
    ensures Fair(keeper.State()) && NumbersUnique(keeper.State())
    ensures AlwaysSeparate(start, ms) <==> NoneAddsRevoked(start, ms)
    ensures AlwaysAnchored(start, ms) <==> NoneOrphans(start, ms)
    ensures forall a :: OwedRecords(start, ms, a, At(keeper.State(), a))
  {
    hide *;
    keeper := new Keeper(start);
    var i := 0;
    assert ms[0..] == ms;
    while i < |ms|
      invariant 0 <= i <= |ms| && fresh(keeper) && Run(keeper.State(), ms[i..]) == Run(start, ms)
    {
      RunNext(keeper.State(), ms, i);
      var _ := keeper.Handle(ms[i]);
      i := i + 1;
    }
    RunDone(keeper.State(), ms[i..]);
    EveryRunFair(start, ms);
    EveryRunNumbers(start, ms);
    EveryRunSeparate(start, ms);
    EveryRunAnchored(start, ms);
    forall a ensures OwedRecords(start, ms, a, At(Run(start, ms), a)) { EveryRunOwed(start, ms, a); }
  }

  lemma RunNext(st: Ledger, ms: seq<Message>, i: nat)
    requires i < |ms|
    ensures Run(st, ms[i..]) == Run(Step(st, ms[i]), ms[i + 1..])
  {
    hide Step;
    assert ms[i..][1..] == ms[i + 1..];
  }

  lemma RunDone(st: Ledger, ms: seq<Message>)
    requires ms == []
    ensures Run(st, ms) == st
  {
  }
}
