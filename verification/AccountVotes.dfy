/**
  * Whether a proposed account is always decided. The quorums see to it as long as the number of
  * trustees stays the same; when it changes, an account on which every trustee has voted can stay
  * pending, with nobody to vote on it until another trustee is added.
  */
module AccountVotes {
  import opened Options
  import opened Accounts
  import opened AccountRuns

  function Voters(grants: seq<Grant>): set<Address> {
    if grants == [] then {} else Voters(grants[..|grants| - 1]) + {grants[|grants| - 1].address}
  }

  function AllVoters(account: Account): set<Address> {
    Voters(account.approvals) + Voters(account.rejects)
  }

  /** Some trustee other than `x` can still vote. */
  predicate OpenBut(trustees: set<Address>, voters: set<Address>, x: Address) {
    exists t :: t in trustees && t != x && t !in voters
  }

  /** Some trustee can still vote. */
  predicate OpenFor(trustees: set<Address>, voters: set<Address>) {
    exists t :: t in trustees && t !in voters
  }

  predicate OpenAt(st: Ledger, a: Address) {
    a in st.pending ==> OpenFor(Trustees(st.active), AllVoters(st.pending[a]))
  }

  /** Every pending account can still be voted on: once all trustees have voted, it is decided. */
  ghost predicate Open(st: Ledger) {
    forall a :: OpenAt(st, a)
  }

  /** On a pending account that is not open no proposal or vote is accepted. */
  lemma StuckRefused(st: Ledger, a: Address, m: Message)
    requires a in st.pending && !OpenAt(st, a) && m.address == a && (m.ProposeAdd? || m.ApproveAdd? || m.RejectAdd?)
    ensures Refusal(st, m).Some?
  {
    hide ValidBasic, GrantedBy, Trustees, Voters;
    if !m.ProposeAdd? && m.signer in Trustees(st.active) {
      assert m.signer in AllVoters(st.pending[a]);
      VotersAre(st.pending[a].approvals, m.signer);
      VotersAre(st.pending[a].rejects, m.signer);
    }
  }

  lemma {:induction false} VotersAre(grants: seq<Grant>, t: Address)
    ensures t in Voters(grants) <==> GrantedBy(grants, t)
    decreases |grants|
  {
    if grants != [] {
      var n := |grants| - 1;
      VotersAre(grants[..n], t);
      if i :| 0 <= i < |grants| && grants[i].address == t && i < n {
        assert grants[..n][i].address == t;
      }
    }
  }

  // ---- Exactly which messages leave an account stuck ----

  /** The vote leaves the account pending. */
  predicate LeavesPending(st: Ledger, m: Message)
    requires (m.ApproveAdd? || m.RejectAdd?) && m.address in st.pending
  {
    var account, t := st.pending[m.address], |Trustees(st.active)|;
    if m.ApproveAdd? then |account.approvals| + 1 < AddQuorum(t, account.roles)
    else |account.rejects| + 1 < RejectsCount(t)
  }

  /** The message takes its active account away. */
  predicate TakesAway(st: Ledger, m: Message)
    requires Refusal(st, m).None?
  {
    var t := |Trustees(st.active)|;
    || m.DoubleSign?
    || (m.ProposeRevoke? && RevokeQuorum(t) <= 1)
    || (m.ApproveRevoke? && |st.revocations[m.address]| + 1 >= RevokeQuorum(t))
  }

  /** The last trustee who could vote on an account votes without deciding it, or goes. */
  ghost predicate Closes(st: Ledger, m: Message) {
    && Refusal(st, m).None?
    && (|| ((m.ApproveAdd? || m.RejectAdd?) && LeavesPending(st, m)
            && !OpenBut(Trustees(st.active), AllVoters(st.pending[m.address]), m.signer))
        || (TakesAway(st, m)
            && exists a :: a in st.pending && !OpenBut(Trustees(st.active), AllVoters(st.pending[a]), m.address)))
  }

  lemma ClosesWhenGone(st: Ledger, m: Message, a: Address)
    requires Refusal(st, m).None? && TakesAway(st, m) && a in st.pending
    requires !OpenBut(Trustees(st.active), AllVoters(st.pending[a]), m.address)
    ensures Closes(st, m)
  {
    hide Trustees, OpenBut, Refusal, TakesAway;
  }

  /** What a message does to the pending account of an address. */
  lemma PendingAfter(st: Ledger, m: Message, a: Address)
    requires Refusal(st, m).None?
    ensures var p := At(Step(st, m), a).pending;
            if a != m.address then p == At(st, a).pending
            else if m.ProposeAdd? then
              p == if AddQuorum(|Trustees(st.active)|, m.roles) > 1
                   then Some(Account(m.roles, m.vendorId, 0, [Grant(m.signer, m.time, m.info)], [])) else None
            else if m.ApproveAdd? then
              a in st.pending && p == if LeavesPending(st, m)
                then Some(st.pending[a].(approvals := st.pending[a].approvals + [Grant(m.signer, m.time, m.info)])) else None
            else if m.RejectAdd? then
              a in st.pending && p == if LeavesPending(st, m)
                then Some(st.pending[a].(rejects := st.pending[a].rejects + [Grant(m.signer, m.time, m.info)])) else None
            else p == At(st, a).pending
  {
    hide Trustees, ApprovalsCount, GrantedBy, ValidBasic;
    AtStep(st, m, a);
  }

  predicate Undecided(st: Ledger, m: Message)
    requires Refusal(st, m).None?
  {
    (m.ApproveAdd? || m.RejectAdd?) && LeavesPending(st, m)
  }

  /** What a message does to the trustees. */
  lemma TrusteesAfter(st: Ledger, m: Message)
    requires Refusal(st, m).None? && FairRecords(At(st, m.address))
    ensures var before, after := Trustees(st.active), Trustees(Step(st, m).active);
            && (TakesAway(st, m) ==> after == before - {m.address})
            && (Undecided(st, m) || (m.ApproveRevoke? && !TakesAway(st, m)) ==> after == before)
            && (!TakesAway(st, m) ==> before <= after)
  {
    var a := m.address;
    var c := Changed(At(st, a), |Trustees(st.active)|, Next(st), m).active;
    ActiveAfter(st, m);
    hide Changed, Step, Trustees, LeavesPending, TakesAway, Refusal, FairRecords;
    StoreTrustees(st.active, a, c);
  }

  lemma ActiveAfter(st: Ledger, m: Message)
    requires Refusal(st, m).None? && FairRecords(At(st, m.address))
    ensures var a := m.address; var c := Changed(At(st, a), |Trustees(st.active)|, Next(st), m).active;
            && Step(st, m).active == Store(st.active, a, c)
            && (TakesAway(st, m) ==> c == None)
            && (Undecided(st, m) || (m.ApproveRevoke? && !TakesAway(st, m)) ==> c == Look(st.active, a))
            && (!TakesAway(st, m) ==> a !in st.active || c == Look(st.active, a))
  {
    hide ApprovalsCount, GrantedBy, ValidBasic, Trustees, Distinct, VotesFair;
  }

  lemma StoreTrustees(active: map<Address, Account>, a: Address, value: Option<Account>)
    ensures var before, after := Trustees(active), Trustees(Store(active, a, value));
            && (value.None? ==> after == before - {a})
            && (value == Look(active, a) ==> after == before)
            && (a !in active ==> before <= after)
  {
  }

  /** One more vote. */
  lemma VotersGrow(grants: seq<Grant>, g: Grant)
    ensures Voters(grants + [g]) == Voters(grants) + {g.address}
  {
    assert (grants + [g])[..|grants|] == grants;
  }

  lemma VoteKeepsOpen(trustees: set<Address>, account: Account, g: Grant)
    ensures OpenFor(trustees, AllVoters(account.(approvals := account.approvals + [g])))
            <==> OpenBut(trustees, AllVoters(account), g.address)
    ensures OpenFor(trustees, AllVoters(account.(rejects := account.rejects + [g])))
            <==> OpenBut(trustees, AllVoters(account), g.address)
  {
    hide Voters;
    VotersGrow(account.approvals, g);
    VotersGrow(account.rejects, g);
  }

  lemma GoneKeepsOpen(trustees: set<Address>, voters: set<Address>, x: Address)
    ensures OpenFor(trustees - {x}, voters) <==> OpenBut(trustees, voters, x)
  {
    if t :| t in trustees && t != x && t !in voters { assert t in trustees - {x}; }
  }

  lemma MoreKeepsOpen(before: set<Address>, after: set<Address>, voters: set<Address>)
    requires before <= after && OpenFor(before, voters)
    ensures OpenFor(after, voters)
  {
  }

  /** A proposal that is not accepted at once can be voted on by a second trustee. */
  lemma ProposedIsOpen(trustees: set<Address>, account: Account, g: Grant)
    requires account.approvals == [g] && account.rejects == [] && AddQuorum(|trustees|, account.roles) > 1
    ensures OpenFor(trustees, AllVoters(account))
  {
    TwoTrustees(trustees, account.roles);
    OneVoter(g);
    var t := OtherTrustee(trustees, g.address);
    assert t !in AllVoters(account);
  }

  lemma OneVoter(g: Grant)
    ensures Voters([g]) == {g.address} && Voters([]) == {}
  {
  }

  lemma OtherTrustee(trustees: set<Address>, x: Address) returns (t: Address)
    requires |trustees| >= 2
    ensures t in trustees && t != x
  {
    var rest := trustees - {x};
    assert |rest| >= 1;
    t :| t in rest;
  }

  lemma TwoTrustees(trustees: set<Address>, roles: seq<string>)
    requires AddQuorum(|trustees|, roles) > 1
    ensures |trustees| >= 2
  {
  }

  /** What the pending accounts look like afterwards, one address at a time. */
  lemma OpenAfter(st: Ledger, m: Message, a: Address)
    requires Refusal(st, m).None? && FairRecords(At(st, m.address)) && OpenAt(st, a)
    ensures var here := a == m.address && Undecided(st, m);
            var gone := a != m.address && a in st.pending && TakesAway(st, m);
            var t := Trustees(st.active);
            OpenAt(Step(st, m), a) <==>
              !(here && !OpenBut(t, AllVoters(st.pending[a]), m.signer)) && !(gone && !OpenBut(t, AllVoters(st.pending[a]), m.address))
  {
    TrusteesAfter(st, m);
    PendingAfter(st, m, a);
    NotBoth(st, m);
    hide ApprovalsCount, GrantedBy, ValidBasic, Trustees, AllVoters, OpenFor, OpenBut, FairRecords, AddQuorum, RejectsCount, RevokeQuorum, LeavesPending;
    var before, after := Trustees(st.active), Trustees(Step(st, m).active);
    if a == m.address && m.ProposeAdd? && AddQuorum(|before|, m.roles) > 1 {
      var g := Grant(m.signer, m.time, m.info);
      ProposedIsOpen(before, Account(m.roles, m.vendorId, 0, [g], []), g);
      MoreKeepsOpen(before, after, AllVoters(Account(m.roles, m.vendorId, 0, [g], [])));
    } else if a == m.address && Undecided(st, m) {
      VoteKeepsOpen(before, st.pending[a], Grant(m.signer, m.time, m.info));
    } else if a in st.pending && TakesAway(st, m) {
      GoneKeepsOpen(before, AllVoters(st.pending[a]), m.address);
    } else if a in st.pending {
      MoreKeepsOpen(before, after, AllVoters(st.pending[a]));
    }
  }

  /** An account that is taken away is not pending. */
  lemma NotBoth(st: Ledger, m: Message)
    requires Refusal(st, m).None? && FairRecords(At(st, m.address))
    ensures TakesAway(st, m) ==> m.address !in st.pending
  {
    hide ApprovalsCount, GrantedBy, ValidBasic, Trustees, VotesFair, Distinct;
  }

  /** One message keeps every pending account open if and only if it does not close one. */
  lemma OpenStep(st: Ledger, m: Message)
    requires Fair(st) && Open(st)
    ensures Open(Step(st, m)) <==> !Closes(st, m)
  {
    hide Step, OpenAt, OpenBut, Trustees, FairRecords, LeavesPending, TakesAway, Refusal;
    var next := Step(st, m);
    if Refusal(st, m).None? {
      assert FairRecords(At(st, m.address));
      NotBoth(st, m);
      forall a
        ensures OpenAt(next, a) || Closes(st, m)
      {
        assert OpenAt(st, a);
        OpenAfter(st, m, a);
        if a != m.address && a in st.pending && TakesAway(st, m) && !OpenBut(Trustees(st.active), AllVoters(st.pending[a]), m.address) {
          ClosesWhenGone(st, m, a);
        }
      }
      if Closes(st, m) {
        var a := Closed(st, m);
        assert OpenAt(st, a);
        OpenAfter(st, m, a);
        assert !OpenAt(next, a);
      }
    } else {
      assert next == st by { Refused(st, m); }
    }
  }

  lemma Refused(st: Ledger, m: Message)
    requires Refusal(st, m).Some?
    ensures Step(st, m) == st
  {
  }

  lemma Closed(st: Ledger, m: Message) returns (a: Address)
    requires Closes(st, m)
    ensures a in st.pending
    ensures || (a == m.address && Undecided(st, m) && !OpenBut(Trustees(st.active), AllVoters(st.pending[a]), m.signer))
            || (TakesAway(st, m) && !OpenBut(Trustees(st.active), AllVoters(st.pending[a]), m.address))
  {
    hide OpenBut, Trustees, LeavesPending, TakesAway;
    if Undecided(st, m) && !OpenBut(Trustees(st.active), AllVoters(st.pending[m.address]), m.signer) {
      a := m.address;
    } else {
      a :| a in st.pending && !OpenBut(Trustees(st.active), AllVoters(st.pending[a]), m.address);
    }
  }

  ghost predicate AlwaysOpen(st: Ledger, ms: seq<Message>)
    decreases |ms|
  {
    Open(st) && (ms != [] ==> AlwaysOpen(Step(st, ms[0]), ms[1..]))
  }

  ghost predicate NoneCloses(st: Ledger, ms: seq<Message>)
    decreases |ms|
  {
    ms != [] ==> !Closes(st, ms[0]) && NoneCloses(Step(st, ms[0]), ms[1..])
  }

  /** Over any run an account on which all trustees have voted is decided, if and only if no message
      leaves an account that the last trustee who could vote on it can no longer decide. */
  lemma {:induction false} EveryRunOpen(st: Ledger, ms: seq<Message>)
    requires Fair(st) && Open(st)
    ensures AlwaysOpen(st, ms) <==> NoneCloses(st, ms)
    decreases |ms|
  {
    hide Fair, Open, Closes, Step;
    if ms != [] {
      OpenStep(st, ms[0]);
      FairAfter(st, ms[0]);
      if Open(Step(st, ms[0])) {
        EveryRunOpen(Step(st, ms[0]), ms[1..]);
      } else {
        NotOpen(Step(st, ms[0]), ms[1..]);
      }
    }
  }

  lemma FairAfter(st: Ledger, m: Message)
    requires Fair(st)
    ensures Fair(Step(st, m))
  {
    hide Fair, Step;
    EveryRunFair(st, [m]);
    assert [m][1..] == [];
    assert Run(st, [m]) == Run(Step(st, m), []);
  }

  lemma NotOpen(st: Ledger, ms: seq<Message>)
    requires !Open(st)
    ensures !AlwaysOpen(st, ms)
  {
  }

  // ---- As long as the number of trustees stays the same ----

  /** Neither side has its quorum. */
  predicate TalliedAt(st: Ledger, a: Address) {
    a in st.pending ==>
      var account, t := st.pending[a], |Trustees(st.active)|;
      |account.approvals| < AddQuorum(t, account.roles) && |account.rejects| < RejectsCount(t)
  }

  ghost predicate Tallied(st: Ledger) {
    forall a :: TalliedAt(st, a)
  }

  lemma {:induction false} FewVoters(grants: seq<Grant>)
    ensures |Voters(grants)| <= |grants|
    decreases |grants|
  {
    if grants != [] { FewVoters(grants[..|grants| - 1]); }
  }

  /** If all trustees had voted, one side would have its quorum. */
  lemma TalliedIsOpen(st: Ledger, a: Address)
    requires TalliedAt(st, a)
    ensures OpenAt(st, a)
  {
    if a in st.pending {
      hide Trustees, Voters;
      var account, t := st.pending[a], Trustees(st.active);
      var v, w := Voters(account.approvals), Voters(account.rejects);
      if !OpenFor(t, AllVoters(account)) {
        FewVoters(account.approvals);
        FewVoters(account.rejects);
        SetSizes(t, v, w);
        QuorumsMeet(|t|, account.roles, |account.approvals|, |account.rejects|);
      }
    }
  }

  lemma SetSizes(t: set<Address>, v: set<Address>, w: set<Address>)
    requires t <= v + w
    ensures |t| <= |v| + |w|
  {
    Smaller(t, v + w);
    assert |v + w| + |v * w| == |v| + |w|;
  }

  lemma {:induction false} Smaller(t: set<Address>, v: set<Address>)
    requires t <= v
    ensures |t| <= |v|
    decreases |t|
  {
    if x :| x in t {
      Smaller(t - {x}, v - {x});
    }
  }

  /** Enough votes for all trustees complete a quorum on one side. */
  lemma QuorumsMeet(trustees: nat, roles: seq<string>, approvals: nat, rejects: nat)
    requires trustees <= approvals + rejects
    ensures approvals >= AddQuorum(trustees, roles) || rejects >= RejectsCount(trustees)
  {
    if trustees > 0 {
      hide ApprovalsCount;
      var a := if approvals <= trustees then approvals else trustees;
      QuorumDecides(trustees, a, trustees - a);
      VendorQuorumDecides(trustees, a, trustees - a);
    }
  }

  lemma TalliedStep(st: Ledger, m: Message, a: Address)
    requires TalliedAt(st, a) && |Trustees(Step(st, m).active)| == |Trustees(st.active)| && Trustees(st.active) != {}
    ensures TalliedAt(Step(st, m), a)
  {
    if Refusal(st, m).None? {
      PendingAfter(st, m, a);
      FirstVote(|Trustees(st.active)|);
      hide Step, Trustees, Refusal, ApprovalsCount;
    }
  }

  lemma FirstVote(trustees: nat)
    requires trustees > 0
    ensures RejectsCount(trustees) > 0
  {
  }

  predicate SameNumber(st: Ledger, ms: seq<Message>)
    decreases |ms|
  {
    ms != [] ==> |Trustees(Step(st, ms[0]).active)| == |Trustees(st.active)| && SameNumber(Step(st, ms[0]), ms[1..])
  }

  /** While the number of trustees stays the same, an account on which all of them have voted is
      decided. */
  lemma {:induction false} SameTrusteesDecide(st: Ledger, ms: seq<Message>)
    requires Tallied(st) && Trustees(st.active) != {} && SameNumber(st, ms)
    ensures AlwaysOpen(st, ms)
    decreases |ms|
  {
    hide TalliedAt, OpenAt, Step, Trustees;
    forall a ensures OpenAt(st, a) {
      assert TalliedAt(st, a);
      TalliedIsOpen(st, a);
    }
    if ms != [] {
      forall a ensures TalliedAt(Step(st, ms[0]), a) {
        assert TalliedAt(st, a);
        TalliedStep(st, ms[0], a);
      }
      SameTrusteesDecide(Step(st, ms[0]), ms[1..]);
    }
  }

  // ---- A run that leaves an account stuck ----

  /** Three trustees: "t" proposes "x" and "u" rejects it, then the two revoke "w". Both trustees left
      have voted on "x", which is still pending although the one approval is a quorum of two. */
  lemma VotedAndPending()
    ensures var run := [ProposeAdd("t", "x", [NODE_ADMIN], 0, "", 0), RejectAdd("u", "x", "", 0),
                        ProposeRevoke("t", "w", "", 0), ApproveRevoke("u", "w", "", 0)];
            var st := Run(Three([]), run);
            Open(Three([])) && !Open(st) && "x" in st.pending && !OpenAt(st, "x")
            && |st.pending["x"].approvals| >= AddQuorum(|Trustees(st.active)|, [NODE_ADMIN])
  {
    var a, b := ProposeAdd("t", "x", [NODE_ADMIN], 0, "", 0), RejectAdd("u", "x", "", 0);
    var c, d := ProposeRevoke("t", "w", "", 0), ApproveRevoke("u", "w", "", 0);
    var s0 := Three([]);
    ThreeTrustees([]);
    var x1 := Account([NODE_ADMIN], 0, 0, [Grant("t", 0, "")], []);
    var x2 := x1.(rejects := [Grant("u", 0, "")]);
    var s1 := Step(s0, a);
    Proposed(s0, x1);
    var s2 := Step(s1, b);
    RejectedOnce(s1, x1, x2);
    var s3 := Step(s2, c);
    LeavingProposed(s2, x2);
    var s4 := Step(s3, d);
    Left(s3, x2);
    hide Step;
    RunOfFour(s0, a, b, c, d);
    OneVoter(Grant("t", 0, ""));
    OneVoter(Grant("u", 0, ""));
    QuorumOfTwo();
    assert !OpenAt(s4, "x");
  }

  lemma QuorumOfTwo()
    ensures AddQuorum(2, [NODE_ADMIN]) == 1 && |{"t", "u"}| == 2
  {
  }

  lemma Proposed(st: Ledger, x: Account)
    requires Trustees(st.active) == {"t", "u", "w"} && |{"t", "u", "w"}| == 3 && st == Three([])
    requires x == Account([NODE_ADMIN], 0, 0, [Grant("t", 0, "")], [])
    ensures var next := Step(st, ProposeAdd("t", "x", [NODE_ADMIN], 0, "", 0));
            Look(next.pending, "x") == Some(x) && next.active == st.active && Look(next.revocations, "w") == None
  {
    var m := ProposeAdd("t", "x", [NODE_ADMIN], 0, "", 0);
    QuorumsOfThree();
    hide ApprovalsCount, Trustees;
    assert Refusal(st, m) == None;
  }

  lemma RejectedOnce(st: Ledger, x: Account, y: Account)
    requires Trustees(st.active) == {"t", "u", "w"} && |{"t", "u", "w"}| == 3
    requires Look(st.pending, "x") == Some(x) && x == Account([NODE_ADMIN], 0, 0, [Grant("t", 0, "")], [])
    requires y == x.(rejects := [Grant("u", 0, "")])
    ensures var next := Step(st, RejectAdd("u", "x", "", 0));
            Look(next.pending, "x") == Some(y) && next.active == st.active
            && Look(next.revocations, "w") == Look(st.revocations, "w")
  {
    var m := RejectAdd("u", "x", "", 0);
    QuorumsOfThree();
    hide ApprovalsCount, Trustees;
    assert !GrantedBy(x.approvals, "u") && !GrantedBy(x.rejects, "u");
    assert Refusal(st, m) == None;
    assert x.rejects + [Grant("u", 0, "")] == y.rejects;
  }

  lemma LeavingProposed(st: Ledger, x: Account)
    requires Trustees(st.active) == {"t", "u", "w"} && |{"t", "u", "w"}| == 3 && "w" in st.active
    requires Look(st.pending, "x") == Some(x) && Look(st.revocations, "w") == None
    ensures var next := Step(st, ProposeRevoke("t", "w", "", 0));
            Look(next.pending, "x") == Some(x) && next.active == st.active
            && Look(next.revocations, "w") == Some([Grant("t", 0, "")])
  {
    var m := ProposeRevoke("t", "w", "", 0);
    QuorumsOfThree();
    hide ApprovalsCount, Trustees;
    assert Refusal(st, m) == None;
  }

  lemma Left(st: Ledger, x: Account)
    requires Trustees(st.active) == {"t", "u", "w"} && |{"t", "u", "w"}| == 3 && "w" in st.active
    requires Look(st.pending, "x") == Some(x) && Look(st.revocations, "w") == Some([Grant("t", 0, "")])
    ensures var next := Step(st, ApproveRevoke("u", "w", "", 0));
            Look(next.pending, "x") == Some(x) && Trustees(next.active) == {"t", "u"}
  {
    var m := ApproveRevoke("u", "w", "", 0);
    QuorumsOfThree();
    StoreTrustees(st.active, "w", None);
    hide ApprovalsCount, Trustees;
    assert !GrantedBy([Grant("t", 0, "")], "u");
    assert Refusal(st, m) == None;
    assert {"t", "u", "w"} - {"w"} == {"t", "u"};
  }
}
