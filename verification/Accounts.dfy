/**
  * The account life cycle of the ledger: trustees propose, approve and reject new accounts and
  * revocations, and a validator caught signing twice loses its account.
  */
module Accounts {
  import opened Options

  type Address = string

  const TRUSTEE := "Trustee"
  const VENDOR := "Vendor"
  const NODE_ADMIN := "NodeAdmin"
  const CERTIFICATION_CENTER := "CertificationCenter"
  const APPROVALS_PERCENT := 66
  const VENDOR_APPROVALS_PERCENT := 33

  datatype Grant = Grant(address: Address, time: int, info: string)

  datatype Account = Account(
    roles: seq<string>, vendorId: int, number: nat, approvals: seq<Grant>, rejects: seq<Grant>)

  datatype Reason = TrusteeVoting | MaliciousValidator

  datatype RevokedAccount = RevokedAccount(account: Account, approvals: seq<Grant>, reason: Reason)

  datatype Ledger = Ledger(
    active: map<Address, Account>, pending: map<Address, Account>, revocations: map<Address, seq<Grant>>,
    revoked: map<Address, RevokedAccount>, rejected: map<Address, Account>, counter: Option<nat>)

  /** What the five stores hold of one address. */
  datatype Records = Records(
    active: Option<Account>, pending: Option<Account>, revocation: Option<seq<Grant>>,
    revoked: Option<RevokedAccount>, rejected: Option<Account>)

  /** The five messages, and the confirmed double signing of a validator that `address` owns. */
  datatype Message =
    | ProposeAdd(signer: Address, address: Address, roles: seq<string>, vendorId: int, info: string, time: int)
    | ApproveAdd(signer: Address, address: Address, info: string, time: int)
    | RejectAdd(signer: Address, address: Address, info: string, time: int)
    | ProposeRevoke(signer: Address, address: Address, info: string, time: int)
    | ApproveRevoke(signer: Address, address: Address, info: string, time: int)
    | DoubleSign(address: Address)

  datatype Error =
    | InvalidMessage | Unauthorized | MissingVendorId | AccountExists | PendingExists | NoPending | AlreadyRejectedBy
    | AlreadyApprovedBy | NoAccount | RevocationExists | NoRevocation

  // ---- Quorums ----

  function Trustees(active: map<Address, Account>): set<Address> {
    set a | a in active && TRUSTEE in active[a].roles
  }

  /** The given percentage of the trustees, rounded half up, but at least one. */
  function ApprovalsCount(trustees: nat, percent: nat): nat {
    var n := (percent * trustees + 50) / 100;
    if n == 0 then 1 else n
  }

  function RejectsCount(trustees: nat): int {
    trustees - ApprovalsCount(trustees, APPROVALS_PERCENT) + 1
  }

  function AddQuorum(trustees: nat, roles: seq<string>): nat {
    ApprovalsCount(trustees, if roles == [VENDOR] then VENDOR_APPROVALS_PERCENT else APPROVALS_PERCENT)
  }

  function RevokeQuorum(trustees: nat): nat {
    ApprovalsCount(trustees, APPROVALS_PERCENT)
  }

  // ---- What a message does to the records of its address ----

  predicate GrantedBy(grants: seq<Grant>, a: Address) {
    exists i | 0 <= i < |grants| :: grants[i].address == a
  }

  function VoteError(r: Records, signer: Address): Option<Error> {
    if r.pending.None? then Some(NoPending)
    else if GrantedBy(r.pending.value.rejects, signer) then Some(AlreadyRejectedBy)
    else if GrantedBy(r.pending.value.approvals, signer) then Some(AlreadyApprovedBy)
    else None
  }

  function RecordError(r: Records, trustees: nat, m: Message): Option<Error> {
    match m
    case ProposeAdd(_, _, roles, vendorId, _, _) =>
      if VENDOR in roles && vendorId <= 0 then Some(MissingVendorId)
      else if r.active.Some? then Some(AccountExists)
      else if r.pending.Some? then Some(PendingExists)
      else None
    case ApproveAdd(signer, _, _, _) => VoteError(r, signer)
    case RejectAdd(signer, _, _, _) => VoteError(r, signer)
    case ProposeRevoke(_, _, _, _) =>
      if r.active.None? then Some(NoAccount)
      else if r.revocation.Some? then Some(RevocationExists)
      else None
    case ApproveRevoke(signer, _, _, _) =>
      if r.revocation.None? then Some(NoRevocation)
      else if GrantedBy(r.revocation.value, signer) then Some(AlreadyApprovedBy)
      else if |r.revocation.value| + 1 >= RevokeQuorum(trustees) && r.active.None? then Some(NoAccount)
      else None
    case DoubleSign(_) => if r.active.None? then Some(NoAccount) else None
  }

  function Moved(r: Records, approvals: seq<Grant>, reason: Reason): Records
    requires r.active.Some?
  {
    r.(revoked := Some(RevokedAccount(r.active.value, approvals, reason)), active := None)
  }

  /** The records after an accepted message; `number` is the next account number. */
  function Changed(r: Records, trustees: nat, number: nat, m: Message): Records
    requires RecordError(r, trustees, m).None?
  {
    match m
    case ProposeAdd(signer, _, roles, vendorId, info, time) =>
      var account := Account(roles, vendorId, 0, [Grant(signer, time, info)], []);
      if AddQuorum(trustees, roles) > 1 then r.(pending := Some(account), rejected := None)
      else r.(active := Some(account.(number := number)), rejected := None)
    case ApproveAdd(signer, _, info, time) =>
      var p := r.pending.value;
      var account := p.(approvals := p.approvals + [Grant(signer, time, info)]);
      if |account.approvals| >= AddQuorum(trustees, account.roles) then
        r.(active := Some(account.(number := number)), revoked := None, pending := None)
      else r.(pending := Some(account))
    case RejectAdd(signer, _, info, time) =>
      var p := r.pending.value;
      var account := p.(rejects := p.rejects + [Grant(signer, time, info)]);
      if |account.rejects| >= RejectsCount(trustees) then
        r.(rejected := Some(account.(number := number)), pending := None)
      else r.(pending := Some(account))
    case ProposeRevoke(signer, _, info, time) =>
      if RevokeQuorum(trustees) > 1 then r.(revocation := Some([Grant(signer, time, info)]))
      else Moved(r, [Grant(signer, 0, "")], TrusteeVoting)
    case ApproveRevoke(signer, _, info, time) =>
      var approvals := r.revocation.value + [Grant(signer, time, info)];
      if |approvals| >= RevokeQuorum(trustees) then Moved(r, approvals, TrusteeVoting).(revocation := None)
      else r.(revocation := Some(approvals))
    case DoubleSign(_) => Moved(r, [], MaliciousValidator)
  }

  /** Whether an accepted message hands out an account number. */
  predicate Numbers(r: Records, trustees: nat, m: Message)
    requires RecordError(r, trustees, m).None?
  {
    match m
    case ProposeAdd(_, _, roles, _, _, _) => AddQuorum(trustees, roles) <= 1
    case ApproveAdd(_, _, _, _) => |r.pending.value.approvals| + 1 >= AddQuorum(trustees, r.pending.value.roles)
    case RejectAdd(_, _, _, _) => |r.pending.value.rejects| + 1 >= RejectsCount(trustees)
    case ProposeRevoke(_, _, _, _) => false
    case ApproveRevoke(_, _, _, _) => false
    case DoubleSign(_) => false
  }

  // ---- Steps and runs ----

  function Look<T>(store: map<Address, T>, a: Address): Option<T> {
    if a in store then Some(store[a]) else None
  }

  function Store<T>(store: map<Address, T>, a: Address, value: Option<T>): map<Address, T> {
    if value.Some? then store[a := value.value] else store - {a}
  }

  function At(st: Ledger, a: Address): Records {
    Records(Look(st.active, a), Look(st.pending, a), Look(st.revocations, a), Look(st.revoked, a), Look(st.rejected, a))
  }

  function Next(st: Ledger): nat {
    if st.counter.Some? then st.counter.value else 0
  }

  /** The stores with the records of one address replaced. */
  function With(st: Ledger, a: Address, r: Records, counter: Option<nat>): Ledger {
    Ledger(Store(st.active, a, r.active), Store(st.pending, a, r.pending), Store(st.revocations, a, r.revocation),
           Store(st.revoked, a, r.revoked), Store(st.rejected, a, r.rejected), counter)
  }

  /** Checked before a message reaches the keeper: a proposed account has roles, all of them known, and
      a vendor has a vendor id. */
  predicate ValidBasic(m: Message) {
    m.ProposeAdd? ==>
      && m.roles != [] && (VENDOR in m.roles ==> m.vendorId > 0)
      && forall i | 0 <= i < |m.roles| :: m.roles[i] in [VENDOR, CERTIFICATION_CENTER, TRUSTEE, NODE_ADMIN]
  }

  function Refusal(st: Ledger, m: Message): Option<Error> {
    if !ValidBasic(m) then Some(InvalidMessage)
    else if !m.DoubleSign? && m.signer !in Trustees(st.active) then Some(Unauthorized)
    else RecordError(At(st, m.address), |Trustees(st.active)|, m)
  }

  /** A refused message changes nothing; an accepted one changes the records of its address, and
      the counter if it hands out a number. */
  function Step(st: Ledger, m: Message): Ledger {
    if Refusal(st, m).Some? then st
    else
      var r, t := At(st, m.address), |Trustees(st.active)|;
      With(st, m.address, Changed(r, t, Next(st), m), if Numbers(r, t, m) then Some(Next(st) + 1) else st.counter)
  }

  function Run(st: Ledger, ms: seq<Message>): Ledger
    decreases |ms|
  {
    if ms == [] then st else Run(Step(st, ms[0]), ms[1..])
  }

  lemma AtWith(st: Ledger, a: Address, r: Records, counter: Option<nat>, b: Address)
    ensures At(With(st, a, r, counter), b) == if a == b then r else At(st, b)
  {
  }

  /** The records a step leaves at any address. */
  lemma AtStep(st: Ledger, m: Message, b: Address)
    ensures At(Step(st, m), b) ==
            if b == m.address && Refusal(st, m).None?
            then Changed(At(st, b), |Trustees(st.active)|, Next(st), m) else At(st, b)
  {
    hide At, With, Changed, Numbers;
    if Refusal(st, m).None? {
      var r, t := At(st, m.address), |Trustees(st.active)|;
      AtWith(st, m.address, Changed(r, t, Next(st), m), if Numbers(r, t, m) then Some(Next(st) + 1) else st.counter, b);
    }
  }

  // ---- Quorum facts ----

  /** The quorum is the whole number nearest to the percentage, the larger one of two, unless that
      is none. */
  lemma QuorumIsNearest(trustees: nat, percent: nat, n: nat)
    requires n == ApprovalsCount(trustees, percent)
    ensures n >= 1 && if percent * trustees < 50 then n == 1 else 100 * n - 50 <= percent * trustees < 100 * n + 50
  {
  }

  /** The quorums with their percentages: 66 for accounts and revocations, 33 for accounts that are vendors
      only, and for a rejection one more than could still be missing. */
  lemma QuorumsAre(trustees: nat, roles: seq<string>)
    requires trustees > 0
    ensures 100 * RevokeQuorum(trustees) - 50 <= 66 * trustees < 100 * RevokeQuorum(trustees) + 50
    ensures var q := AddQuorum(trustees, roles);
            if roles != ["Vendor"] then q == RevokeQuorum(trustees)
            else if trustees == 1 then q == 1
            else 100 * q - 50 <= 33 * trustees < 100 * q + 50
    ensures RejectsCount(trustees) == trustees - RevokeQuorum(trustees) + 1
  {
    QuorumIsNearest(trustees, 66, RevokeQuorum(trustees));
    QuorumIsNearest(trustees, 33, ApprovalsCount(trustees, 33));
  }

  /** A quorum of trustees never needs more votes than there are trustees, and of votes that add
      up to that number exactly one of approval and rejection has its quorum. */
  lemma QuorumDecides(trustees: nat, approvals: nat, rejects: nat)
    requires trustees >= 1 && approvals + rejects == trustees
    ensures 1 <= ApprovalsCount(trustees, APPROVALS_PERCENT) <= trustees && 1 <= RejectsCount(trustees) <= trustees
    ensures approvals >= ApprovalsCount(trustees, APPROVALS_PERCENT) <==> rejects < RejectsCount(trustees)
  {
  }

  /** The vendor quorum is never the larger one, so of such votes on a vendor account too one side
      has its quorum. */
  lemma VendorQuorumDecides(trustees: nat, approvals: nat, rejects: nat)
    requires trustees >= 1 && approvals + rejects == trustees
    ensures ApprovalsCount(trustees, VENDOR_APPROVALS_PERCENT) <= ApprovalsCount(trustees, APPROVALS_PERCENT)
    ensures approvals >= ApprovalsCount(trustees, VENDOR_APPROVALS_PERCENT) || rejects >= RejectsCount(trustees)
  {
  }

  // ---- Invariants of every run ----

  /** No trustee appears twice, or on both sides. */
  predicate Distinct(grants: seq<Grant>) {
    forall i, j | 0 <= i < j < |grants| :: grants[i].address != grants[j].address
  }

  predicate VotesFair(account: Account) {
    Distinct(account.approvals + account.rejects)
  }

  predicate FairRecords(r: Records) {
    (r.active.Some? ==> VotesFair(r.active.value)) && (r.pending.Some? ==> VotesFair(r.pending.value))
    && (r.rejected.Some? ==> VotesFair(r.rejected.value))
    && (r.revocation.Some? ==> Distinct(r.revocation.value))
    && (r.revoked.Some? ==> VotesFair(r.revoked.value.account) && Distinct(r.revoked.value.approvals))
    && !(r.active.Some? && r.pending.Some?)
  }

  ghost predicate Fair(st: Ledger) {
    forall a :: FairRecords(At(st, a))
  }

  lemma VoteAdded(approvals: seq<Grant>, rejects: seq<Grant>, g: Grant)
    requires Distinct(approvals + rejects) && !GrantedBy(approvals, g.address) && !GrantedBy(rejects, g.address)
    ensures Distinct(approvals + [g] + rejects) && Distinct(approvals + (rejects + [g]))
  {
    var n, all := |approvals|, approvals + rejects;
    forall i | 0 <= i < |all|
      ensures all[i].address != g.address
    {
      assert i >= n ==> all[i] == rejects[i - n];
    }
    var x, y := approvals + [g] + rejects, approvals + (rejects + [g]);
    assert forall i | 0 <= i < |x| && i != n :: x[i] == all[if i < n then i else i - 1];
    assert forall i | 0 <= i < |all| :: y[i] == all[i];
  }

  lemma RevocationAdded(approvals: seq<Grant>, g: Grant)
    requires Distinct(approvals) && !GrantedBy(approvals, g.address)
    ensures Distinct(approvals + [g])
  {
  }

  lemma OneVote(g: Grant)
    ensures Distinct([g]) && Distinct([g] + [])
  {
  }

  lemma FairChange(r: Records, trustees: nat, number: nat, m: Message)
    requires FairRecords(r) && RecordError(r, trustees, m).None?
    ensures FairRecords(Changed(r, trustees, number, m))
  {
    hide Distinct, GrantedBy, AddQuorum, RevokeQuorum, RejectsCount;
    match m
    case ProposeAdd(signer, _, _, _, info, time) => OneVote(Grant(signer, time, info));
    case ApproveAdd(signer, _, info, time) =>
      VoteAdded(r.pending.value.approvals, r.pending.value.rejects, Grant(signer, time, info));
    case RejectAdd(signer, _, info, time) =>
      VoteAdded(r.pending.value.approvals, r.pending.value.rejects, Grant(signer, time, info));
    case ProposeRevoke(signer, _, info, time) =>
      OneVote(Grant(signer, time, info));
      OneVote(Grant(signer, 0, ""));
    case ApproveRevoke(signer, _, info, time) => RevocationAdded(r.revocation.value, Grant(signer, time, info));
    case DoubleSign(_) => assert Distinct([]) by { NoVotes(); }
  }

  lemma NoVotes()
    ensures Distinct([])
  {
  }

  /** In every run no address is both active and pending, and on every proposal, account and
      revocation no trustee voted twice or on both sides. */
  lemma {:induction false} EveryRunFair(st: Ledger, ms: seq<Message>)
    requires Fair(st)
    ensures Fair(Run(st, ms))
    decreases |ms|
  {
    hide FairRecords, Step, At, Changed;
    if ms != [] {
      forall a
        ensures FairRecords(At(Step(st, ms[0]), a))
      {
        assert FairRecords(At(st, a));
        AtStep(st, ms[0], a);
        if a == ms[0].address && Refusal(st, ms[0]).None? {
          FairChange(At(st, a), |Trustees(st.active)|, Next(st), ms[0]);
        }
      }
      EveryRunFair(Step(st, ms[0]), ms[1..]);
    }
  }
}
