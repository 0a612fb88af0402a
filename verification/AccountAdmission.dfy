/**
  * Where accounts come from: which messages are accepted, exactly what a decision does with an account,
  * and that in every run each account owes its roles, its vendor id and its approvals to messages for it.
  */
module AccountAdmission {
  import opened Options
  import opened Accounts

  // ---- Which messages are accepted ----

  predicate KnownRole(role: string) {
    role in {"Vendor", "CertificationCenter", "Trustee", "NodeAdmin"}
  }

  /** What a proposed account must be like. */
  predicate Proposable(m: Message)
    requires m.ProposeAdd?
  {
    m.roles != [] && ("Vendor" in m.roles ==> m.vendorId > 0) && forall i | 0 <= i < |m.roles| :: KnownRole(m.roles[i])
  }

  /** The signer is a trustee who may take this step now. */
  predicate MayTake(st: Ledger, m: Message)
    requires !m.DoubleSign?
  {
    var a := m.address;
    match m
    case ProposeAdd(_, _, _, _, _, _) => Proposable(m) && a !in st.active && a !in st.pending
    case ApproveAdd(signer, _, _, _) =>
      a in st.pending && !GrantedBy(st.pending[a].approvals, signer) && !GrantedBy(st.pending[a].rejects, signer)
    case RejectAdd(signer, _, _, _) =>
      a in st.pending && !GrantedBy(st.pending[a].approvals, signer) && !GrantedBy(st.pending[a].rejects, signer)
    case ProposeRevoke(_, _, _, _) => a in st.active && a !in st.revocations
    case ApproveRevoke(signer, _, _, _) =>
      && a in st.revocations && !GrantedBy(st.revocations[a], signer)
      && (|st.revocations[a]| + 1 >= RevokeQuorum(|Trustees(st.active)|) ==> a in st.active)
  }

  /** A message is accepted if and only if a trustee signed it and may take the step; a double signing if
      the account is active. */
  lemma AcceptedIff(st: Ledger, m: Message)
    ensures Refusal(st, m).None? <==>
            if m.DoubleSign? then m.address in st.active else m.signer in Trustees(st.active) && MayTake(st, m)
  {
    hide Trustees, GrantedBy, RevokeQuorum, ValidBasic, Proposable;
    if m.ProposeAdd? { ProposableIff(m); } else { OtherBasic(m); }
  }

  lemma OtherBasic(m: Message)
    requires !m.ProposeAdd?
    ensures ValidBasic(m)
  {
  }

  lemma ProposableIff(m: Message)
    requires m.ProposeAdd?
    ensures Proposable(m) <==> ValidBasic(m)
    ensures Proposable(m) ==> !(VENDOR in m.roles && m.vendorId <= 0)
  {
    forall i | 0 <= i < |m.roles|
      ensures KnownRole(m.roles[i]) <==> m.roles[i] in [VENDOR, CERTIFICATION_CENTER, TRUSTEE, NODE_ADMIN]
    {
    }
  }

  /** The reason given for a refusal is a true one. */
  lemma RefusedFor(st: Ledger, m: Message, e: Error)
    requires Refusal(st, m) == Some(e)
    ensures var a := m.address;
            match e
            case InvalidMessage => m.ProposeAdd? && !Proposable(m)
            case Unauthorized => !m.DoubleSign? && m.signer !in Trustees(st.active)
            case MissingVendorId => false
            case AccountExists => m.ProposeAdd? && a in st.active
            case PendingExists => m.ProposeAdd? && a in st.pending
            case NoPending => (m.ApproveAdd? || m.RejectAdd?) && a !in st.pending
            case AlreadyRejectedBy =>
              (m.ApproveAdd? || m.RejectAdd?) && a in st.pending && GrantedBy(st.pending[a].rejects, m.signer)
            case AlreadyApprovedBy =>
              if m.ApproveRevoke? then a in st.revocations && GrantedBy(st.revocations[a], m.signer)
              else (m.ApproveAdd? || m.RejectAdd?) && a in st.pending && GrantedBy(st.pending[a].approvals, m.signer)
            case NoAccount => (m.ProposeRevoke? || m.ApproveRevoke? || m.DoubleSign?) && a !in st.active
            case RevocationExists => m.ProposeRevoke? && a in st.revocations
            case NoRevocation => m.ApproveRevoke? && a !in st.revocations
  {
    hide Trustees, GrantedBy, RevokeQuorum, ValidBasic, Proposable;
    if m.ProposeAdd? { ProposableIff(m); } else { OtherBasic(m); }
  }

  /** Only a trustee's message, or a double signing, changes anything. */
  lemma ChangeIsSigned(st: Ledger, m: Message)
    requires Step(st, m) != st
    ensures m.DoubleSign? || m.signer in Trustees(st.active)
  {
    hide With, Changed, MayTake;
    AcceptedIff(st, m);
  }

  // ---- What a decision does with an account ----

  /** An account becomes active by approval as it was proposed, with the vote added, or at once as the
      message proposes it; either way with the next number. */
  lemma AdmittedAs(st: Ledger, m: Message, a: Address)
    requires a !in st.active && a in Step(st, m).active
    ensures m.address == a && (m.ProposeAdd? || m.ApproveAdd?)
    ensures m.ProposeAdd? ==>
              Step(st, m).active[a] == Account(m.roles, m.vendorId, Next(st), [Grant(m.signer, m.time, m.info)], [])
    ensures m.ApproveAdd? ==>
              && a in st.pending
              && var p := st.pending[a];
                 Step(st, m).active[a] ==
                   Account(p.roles, p.vendorId, Next(st), p.approvals + [Grant(m.signer, m.time, m.info)], p.rejects)
  {
    hide Trustees, AddQuorum, RejectsCount, RevokeQuorum, GrantedBy, ValidBasic;
    AtStep(st, m, a);
  }

  /** An account is rejected as it was proposed, with the vote added and the next number; a rejected
      account goes only when its address is proposed again. */
  lemma RejectedAs(st: Ledger, m: Message, a: Address)
    requires Look(Step(st, m).rejected, a) != Look(st.rejected, a)
    ensures m.address == a && (m.RejectAdd? || m.ProposeAdd?)
    ensures m.ProposeAdd? ==> a !in Step(st, m).rejected
    ensures m.RejectAdd? ==>
              && a in st.pending && a in Step(st, m).rejected
              && var p := st.pending[a];
                 Step(st, m).rejected[a] ==
                   Account(p.roles, p.vendorId, Next(st), p.approvals, p.rejects + [Grant(m.signer, m.time, m.info)])
  {
    hide Trustees, AddQuorum, RejectsCount, RevokeQuorum, GrantedBy, ValidBasic;
    AtStep(st, m, a);
  }

  /** An account is revoked unchanged, with the approvals and the reason of its revocation. */
  lemma RevokedAs(st: Ledger, m: Message, a: Address)
    requires a in st.active && a !in Step(st, m).active
    ensures m.address == a && (m.DoubleSign? || m.ProposeRevoke? || m.ApproveRevoke?)
    ensures m.ApproveRevoke? ==> a in st.revocations
    ensures Look(Step(st, m).revoked, a) ==
            if m.DoubleSign? then Some(RevokedAccount(st.active[a], [], MaliciousValidator))
            else if m.ProposeRevoke? then Some(RevokedAccount(st.active[a], [Grant(m.signer, 0, "")], TrusteeVoting))
            else Some(RevokedAccount(st.active[a], st.revocations[a] + [Grant(m.signer, m.time, m.info)], TrusteeVoting))
  {
    hide Trustees, AddQuorum, RejectsCount, RevokeQuorum, GrantedBy, ValidBasic;
    AtStep(st, m, a);
  }

  /** The message decides a pending account, or admits one at once. */
  predicate Decides(st: Ledger, m: Message) {
    var a, next := m.address, Step(st, m);
    (m.ProposeAdd? && a !in st.active && a in next.active) || (a in st.pending && a !in next.pending)
  }

  /** A number is handed out exactly when an account is admitted or rejected. */
  lemma CounterMoves(st: Ledger, m: Message)
    ensures Step(st, m).counter == if Decides(st, m) then Some(Next(st) + 1) else st.counter
  {
    hide Trustees, AddQuorum, RejectsCount, RevokeQuorum, GrantedBy, ValidBasic;
    AtStep(st, m, m.address);
  }

  /** While an account is active it does not change. */
  lemma ActiveUnchanged(st: Ledger, m: Message, a: Address)
    requires a in st.active && a in Step(st, m).active && a !in st.pending
    ensures Step(st, m).active[a] == st.active[a]
  {
    hide Trustees, AddQuorum, RejectsCount, RevokeQuorum, GrantedBy, ValidBasic;
    AtStep(st, m, a);
  }

  // ---- Where accounts come from ----

  /** The message at `j` is accepted when its turn comes. */
  predicate AcceptedAt(st: Ledger, ms: seq<Message>, j: nat)
    requires j < |ms|
  {
    Refusal(Run(st, ms[..j]), ms[j]).None?
  }

  /** The message at `i` proposes an account for `a` with these roles and this vendor id. */
  predicate ProposedAt(st: Ledger, ms: seq<Message>, i: nat, a: Address, account: Account) {
    && i < |ms| && AcceptedAt(st, ms, i) && ms[i].ProposeAdd? && ms[i].address == a
    && ms[i].roles == account.roles && ms[i].vendorId == account.vendorId
  }

  /** The message at `j` is the approval `g` for `a`. */
  predicate CastAt(st: Ledger, ms: seq<Message>, j: nat, a: Address, g: Grant) {
    && j < |ms| && AcceptedAt(st, ms, j) && (ms[j].ProposeAdd? || ms[j].ApproveAdd?) && ms[j].address == a
    && g == Grant(ms[j].signer, ms[j].time, ms[j].info)
  }

  /** An account of `a` was proposed like this, in the run or before it. */
  predicate Proposed(st: Ledger, ms: seq<Message>, a: Address, account: Account) {
    || (a in st.pending && account.roles == st.pending[a].roles && account.vendorId == st.pending[a].vendorId)
    || exists i :: 0 <= i < |ms| && ProposedAt(st, ms, i, a, account)
  }

  /** An approval was given in the run or before it. */
  predicate Cast(st: Ledger, ms: seq<Message>, a: Address, g: Grant) {
    || (a in st.pending && g in st.pending[a].approvals)
    || exists j :: 0 <= j < |ms| && CastAt(st, ms, j, a, g)
  }

  predicate Owed(st: Ledger, ms: seq<Message>, a: Address, account: Account) {
    Proposed(st, ms, a, account) && forall i | 0 <= i < |account.approvals| :: Cast(st, ms, a, account.approvals[i])
  }

  /** The accounts of `a` after `ms`, where `r` is what the stores hold of it. */
  predicate OwedRecords(st: Ledger, ms: seq<Message>, a: Address, r: Records) {
    && (r.pending.Some? ==> Owed(st, ms, a, r.pending.value))
    && (r.active.Some? ==> Look(st.active, a) == r.active || Owed(st, ms, a, r.active.value))
  }

  lemma SamePrefix(st: Ledger, ms: seq<Message>, n: nat, j: nat)
    requires j < n <= |ms|
    ensures AcceptedAt(st, ms[..n], j) == AcceptedAt(st, ms, j) && ms[..n][j] == ms[j]
  {
    assert ms[..n][..j] == ms[..j];
  }

  lemma StillProposed(st: Ledger, ms: seq<Message>, n: nat, a: Address, account: Account)
    requires n <= |ms| && Proposed(st, ms[..n], a, account)
    ensures Proposed(st, ms, a, account)
  {
    hide AcceptedAt;
    if i :| 0 <= i < n && ProposedAt(st, ms[..n], i, a, account) {
      SamePrefix(st, ms, n, i);
      assert ProposedAt(st, ms, i, a, account);
    }
  }

  lemma StillCast(st: Ledger, ms: seq<Message>, n: nat, a: Address, g: Grant)
    requires n <= |ms| && Cast(st, ms[..n], a, g)
    ensures Cast(st, ms, a, g)
  {
    hide AcceptedAt;
    if j :| 0 <= j < n && CastAt(st, ms[..n], j, a, g) {
      SamePrefix(st, ms, n, j);
      assert CastAt(st, ms, j, a, g);
    }
  }

  lemma StillOwed(st: Ledger, ms: seq<Message>, n: nat, a: Address, account: Account)
    requires n <= |ms| && Owed(st, ms[..n], a, account)
    ensures Owed(st, ms, a, account)
  {
    hide Proposed, Cast;
    StillProposed(st, ms, n, a, account);
    forall i | 0 <= i < |account.approvals| ensures Cast(st, ms, a, account.approvals[i]) {
      StillCast(st, ms, n, a, account.approvals[i]);
    }
  }

  /** A proposal owes its account to itself. */
  lemma ProposalOwed(st: Ledger, ms: seq<Message>, a: Address, account: Account)
    requires ms != [] && AcceptedAt(st, ms, |ms| - 1)
    requires var m := ms[|ms| - 1];
             && m.ProposeAdd? && m.address == a && account.roles == m.roles && account.vendorId == m.vendorId
             && account.approvals == [Grant(m.signer, m.time, m.info)]
    ensures Owed(st, ms, a, account)
  {
    hide AcceptedAt;
    var n := |ms| - 1;
    assert ProposedAt(st, ms, n, a, account);
    assert CastAt(st, ms, n, a, account.approvals[0]);
  }

  /** An approval adds one grant that was cast. */
  lemma ApprovalOwed(st: Ledger, ms: seq<Message>, a: Address, p: Account, account: Account)
    requires ms != [] && AcceptedAt(st, ms, |ms| - 1) && Owed(st, ms[..|ms| - 1], a, p)
    requires var m := ms[|ms| - 1];
             && m.ApproveAdd? && m.address == a && account.roles == p.roles && account.vendorId == p.vendorId
             && account.approvals == p.approvals + [Grant(m.signer, m.time, m.info)]
    ensures Owed(st, ms, a, account)
  {
    hide AcceptedAt;
    var n := |ms| - 1;
    StillOwed(st, ms, n, a, p);
    SameOrigin(st, ms, a, p, account);
    hide Proposed, Cast;
    forall i | 0 <= i < |account.approvals| ensures Cast(st, ms, a, account.approvals[i]) {
      if i < |p.approvals| {
        assert account.approvals[i] == p.approvals[i];
      } else {
        OneCast(st, ms, a, account.approvals[i]);
      }
    }
  }

  lemma OneCast(st: Ledger, ms: seq<Message>, a: Address, g: Grant)
    requires ms != [] && CastAt(st, ms, |ms| - 1, a, g)
    ensures Cast(st, ms, a, g)
  {
  }

  lemma SameOrigin(st: Ledger, ms: seq<Message>, a: Address, p: Account, account: Account)
    requires Proposed(st, ms, a, p) && account.roles == p.roles && account.vendorId == p.vendorId
    ensures Proposed(st, ms, a, account)
  {
    hide AcceptedAt;
    if i :| 0 <= i < |ms| && ProposedAt(st, ms, i, a, p) {
      assert ProposedAt(st, ms, i, a, account);
    }
  }

  lemma RejectOwed(st: Ledger, ms: seq<Message>, a: Address, p: Account, account: Account)
    requires Owed(st, ms, a, p)
    requires account.roles == p.roles && account.vendorId == p.vendorId && account.approvals == p.approvals
    ensures Owed(st, ms, a, account)
  {
    hide Proposed, Cast;
    SameOrigin(st, ms, a, p, account);
  }

  lemma RecordsStillOwed(st: Ledger, ms: seq<Message>, n: nat, a: Address, r: Records)
    requires n <= |ms| && OwedRecords(st, ms[..n], a, r)
    ensures OwedRecords(st, ms, a, r)
  {
    hide Owed;
    if r.pending.Some? { StillOwed(st, ms, n, a, r.pending.value); }
    if r.active.Some? && Owed(st, ms[..n], a, r.active.value) { StillOwed(st, ms, n, a, r.active.value); }
  }

  /** What a message leaves of its address: the accounts it had, or ones that owe to it. */
  lemma OwedChange(st: Ledger, ms: seq<Message>, a: Address, r: Records, trustees: nat, number: nat)
    requires ms != [] && OwedRecords(st, ms[..|ms| - 1], a, r) && AcceptedAt(st, ms, |ms| - 1)
    requires ms[|ms| - 1].address == a && RecordError(r, trustees, ms[|ms| - 1]).None?
    ensures OwedRecords(st, ms, a, Changed(r, trustees, number, ms[|ms| - 1]))
  {
    hide Owed, AcceptedAt, AddQuorum, RejectsCount, RevokeQuorum, GrantedBy;
    var n := |ms| - 1;
    RecordsStillOwed(st, ms, n, a, r);
    var c := Changed(r, trustees, number, ms[n]);
    match ms[n]
    case ProposeAdd(_, _, _, _, _, _) =>
      ProposalOwed(st, ms, a, if c.pending.Some? then c.pending.value else c.active.value);
    case ApproveAdd(_, _, _, _) =>
      ApprovalOwed(st, ms, a, r.pending.value, if c.pending.Some? then c.pending.value else c.active.value);
    case RejectAdd(_, _, _, _) =>
      if c.pending.Some? { RejectOwed(st, ms, a, r.pending.value, c.pending.value); }
    case _ =>
  }

  lemma OwedStep(st: Ledger, ms: seq<Message>, a: Address)
    requires ms != [] && OwedRecords(st, ms[..|ms| - 1], a, At(Run(st, ms[..|ms| - 1]), a))
    ensures OwedRecords(st, ms, a, At(Step(Run(st, ms[..|ms| - 1]), ms[|ms| - 1]), a))
  {
    hide Run, OwedRecords, Step, RecordError, Changed, At, Trustees;
    var n := |ms| - 1;
    var before := Run(st, ms[..n]);
    AtStep(before, ms[n], a);
    RecordsStillOwed(st, ms, n, a, At(before, a));
    if Refusal(before, ms[n]).None? && ms[n].address == a {
      OwedChange(st, ms, a, At(before, a), |Trustees(before.active)|, Next(before));
    }
  }

  lemma {:induction false} RunLast(st: Ledger, ms: seq<Message>)
    requires ms != []
    ensures Run(st, ms) == Step(Run(st, ms[..|ms| - 1]), ms[|ms| - 1])
    decreases |ms|
  {
    hide Step;
    var n := |ms| - 1;
    if n == 0 {
      assert ms[1..] == [] && ms[..0] == [];
    } else {
      RunLast(Step(st, ms[0]), ms[1..]);
      assert ms[1..][..n - 1] == ms[..n][1..] && ms[1..][n - 1] == ms[n];
    }
  }

  /** In every run each pending account, and each active one that was not active as it is from the start,
      has the roles and the vendor id that were proposed for its address, and only approvals given for it. */
  lemma {:induction false} EveryRunOwed(st: Ledger, ms: seq<Message>, a: Address)
    ensures OwedRecords(st, ms, a, At(Run(st, ms), a))
    decreases |ms|
  {
    hide Run, Step, OwedRecords;
    if ms == [] {
      OwedFirst(st, ms, a);
    } else {
      var n := |ms| - 1;
      EveryRunOwed(st, ms[..n], a);
      OwedStep(st, ms, a);
      RunLast(st, ms);
    }
  }

  lemma OwedFirst(st: Ledger, ms: seq<Message>, a: Address)
    requires ms == []
    ensures OwedRecords(st, ms, a, At(Run(st, ms), a))
  {
  }

  /** From a ledger without pending accounts, nobody becomes a trustee in any run without a trustee's
      proposal, accepted in that run, of the address with that role. */
  lemma NewTrusteeProposed(st: Ledger, ms: seq<Message>, a: Address) returns (i: nat)
    requires st.pending == map[] && a in Trustees(Run(st, ms).active) && a !in Trustees(st.active)
    ensures i < |ms| && ms[i].ProposeAdd? && ms[i].address == a && "Trustee" in ms[i].roles
    ensures ms[i].signer in Trustees(Run(st, ms[..i]).active)
  {
    hide Run, CastAt, Refusal, MayTake;
    EveryRunOwed(st, ms, a);
    var account := Run(st, ms).active[a];
    i :| 0 <= i < |ms| && ProposedAt(st, ms, i, a, account);
    AcceptedIff(Run(st, ms[..i]), ms[i]);
  }

  // ---- Rejected accounts ----

  predicate RejectedApart(r: Records) {
    r.rejected.Some? ==> r.active.None? && r.pending.None?
  }

  ghost predicate AllRejectedApart(st: Ledger) {
    forall a :: RejectedApart(At(st, a)) && !(a in st.active && a in st.pending)
  }

  lemma RejectedApartChange(r: Records, trustees: nat, number: nat, m: Message)
    requires RejectedApart(r) && !(r.active.Some? && r.pending.Some?) && RecordError(r, trustees, m).None?
    ensures var c := Changed(r, trustees, number, m); RejectedApart(c) && !(c.active.Some? && c.pending.Some?)
  {
    hide AddQuorum, RejectsCount, RevokeQuorum, GrantedBy;
  }

  /** In every run a rejected address is neither active nor pending. */
  lemma {:induction false} EveryRunRejected(st: Ledger, ms: seq<Message>)
    requires AllRejectedApart(st)
    ensures AllRejectedApart(Run(st, ms))
    decreases |ms|
  {
    if ms != [] {
      RejectedStep(st, ms[0]);
      hide Step, AllRejectedApart;
      EveryRunRejected(Step(st, ms[0]), ms[1..]);
    }
  }

  lemma RejectedStep(st: Ledger, m: Message)
    requires AllRejectedApart(st)
    ensures AllRejectedApart(Step(st, m))
  {
    hide Step, Changed, RejectedApart, RecordError;
    forall a ensures RejectedApart(At(Step(st, m), a)) && !(a in Step(st, m).active && a in Step(st, m).pending) {
      AtStep(st, m, a);
      assert RejectedApart(At(st, a));
      if a == m.address && Refusal(st, m).None? {
        RejectedApartChange(At(st, a), |Trustees(st.active)|, Next(st), m);
      }
      InStores(st, a);
      InStores(Step(st, m), a);
    }
  }

  lemma InStores(st: Ledger, a: Address)
    ensures (a in st.active <==> At(st, a).active.Some?) && (a in st.pending <==> At(st, a).pending.Some?)
  {
  }
}
