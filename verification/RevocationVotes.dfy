/**
  * Whether a proposed revocation can always be completed. As with pending accounts, it can as long as
  * the number of trustees stays the same; when it changes, a revocation that every trustee has
  * approved can stay pending.
  */
module RevocationVotes {
  import opened Options
  import opened Accounts
  import opened AccountRuns
  import opened AccountVotes

  /** Some trustee can still approve the revocation of `a`. */
  predicate ApprovableAt(st: Ledger, a: Address) {
    a in st.revocations ==> OpenFor(Trustees(st.active), Voters(st.revocations[a]))
  }

  /** Every pending revocation can still be approved: once all trustees have approved it, it is done. */
  ghost predicate Approvable(st: Ledger) {
    forall a :: ApprovableAt(st, a)
  }

  /** A pending revocation that no trustee can approve is neither proposed again nor approved. */
  lemma BlockedRefused(st: Ledger, a: Address, m: Message)
    requires a in st.revocations && !ApprovableAt(st, a) && m.address == a && (m.ProposeRevoke? || m.ApproveRevoke?)
    ensures Refusal(st, m).Some?
  {
    hide ValidBasic, GrantedBy, Trustees, Voters;
    if m.ApproveRevoke? && m.signer in Trustees(st.active) {
      VotersAre(st.revocations[a], m.signer);
    }
  }

  // ---- Exactly which messages block a revocation ----

  /** The approval leaves the revocation pending. */
  predicate Incomplete(st: Ledger, m: Message)
    requires Refusal(st, m).None?
  {
    m.ApproveRevoke? && !TakesAway(st, m)
  }

  /** The message takes an account away, and the revocation of `a` is still pending then. */
  predicate StaysPending(st: Ledger, m: Message, a: Address)
    requires Refusal(st, m).None?
  {
    TakesAway(st, m) && a in st.revocations && (a == m.address ==> m.DoubleSign?)
  }

  /** The last trustee who could approve a revocation does so without completing it, or goes. */
  ghost predicate Blocks(st: Ledger, m: Message) {
    && Refusal(st, m).None?
    && (|| (Incomplete(st, m) && !OpenBut(Trustees(st.active), Voters(st.revocations[m.address]), m.signer))
        || exists a :: StaysPending(st, m, a) && !OpenBut(Trustees(st.active), Voters(st.revocations[a]), m.address))
  }

  /** What a message does to the pending revocation of an address. */
  lemma RevocationAfter(st: Ledger, m: Message, a: Address)
    requires Refusal(st, m).None?
    ensures var r := At(Step(st, m), a).revocation;
            if a != m.address then r == At(st, a).revocation
            else if m.ProposeRevoke? then
              a !in st.revocations
              && r == if RevokeQuorum(|Trustees(st.active)|) > 1 then Some([Grant(m.signer, m.time, m.info)]) else None
            else if m.ApproveRevoke? then
              a in st.revocations && r == if TakesAway(st, m) then None
                else Some(st.revocations[a] + [Grant(m.signer, m.time, m.info)])
            else r == At(st, a).revocation
  {
    hide Trustees, ApprovalsCount, GrantedBy, ValidBasic;
    AtStep(st, m, a);
  }

  /** A revocation that is not completed at once can be approved by a second trustee. */
  lemma ProposedIsApprovable(trustees: set<Address>, g: Grant)
    requires RevokeQuorum(|trustees|) > 1
    ensures OpenFor(trustees, Voters([g]))
  {
    OneVoter(g);
    MoreThanOne(|trustees|);
    var t := OtherTrustee(trustees, g.address);
  }

  lemma MoreThanOne(trustees: nat)
    requires RevokeQuorum(trustees) > 1
    ensures trustees >= 2
  {
  }

  lemma ApprovableAfter(st: Ledger, m: Message, a: Address)
    requires Refusal(st, m).None? && FairRecords(At(st, m.address)) && ApprovableAt(st, a)
    ensures var t := Trustees(st.active);
            ApprovableAt(Step(st, m), a) <==>
              && !(a == m.address && Incomplete(st, m) && !OpenBut(t, Voters(st.revocations[a]), m.signer))
              && !(StaysPending(st, m, a) && !OpenBut(t, Voters(st.revocations[a]), m.address))
  {
    TrusteesAfter(st, m);
    RevocationAfter(st, m, a);
    hide Step, Refusal, Trustees, Voters, OpenFor, OpenBut, FairRecords, RevokeQuorum, Undecided, TakesAway;
    var before, after := Trustees(st.active), Trustees(Step(st, m).active);
    if a == m.address && m.ProposeRevoke? && RevokeQuorum(|before|) > 1 {
      var g := Grant(m.signer, m.time, m.info);
      NotTaken(st, m);
      ProposedIsApprovable(before, g);
      MoreKeepsOpen(before, after, Voters([g]));
    } else if a == m.address && Incomplete(st, m) {
      ApprovalKeepsOpen(before, st.revocations[a], Grant(m.signer, m.time, m.info));
    } else if a in st.revocations && TakesAway(st, m) {
      GoneKeepsOpen(before, Voters(st.revocations[a]), m.address);
    } else if a in st.revocations {
      MoreKeepsOpen(before, after, Voters(st.revocations[a]));
    }
  }

  lemma NotTaken(st: Ledger, m: Message)
    requires Refusal(st, m).None? && m.ProposeRevoke? && RevokeQuorum(|Trustees(st.active)|) > 1
    ensures !TakesAway(st, m)
  {
  }

  lemma ApprovalKeepsOpen(trustees: set<Address>, grants: seq<Grant>, g: Grant)
    ensures OpenFor(trustees, Voters(grants + [g])) <==> OpenBut(trustees, Voters(grants), g.address)
  {
    hide Voters;
    VotersGrow(grants, g);
  }

  /** One message keeps every pending revocation approvable if and only if it does not block one. */
  lemma ApprovableStep(st: Ledger, m: Message)
    requires Fair(st) && Approvable(st)
    ensures Approvable(Step(st, m)) <==> !Blocks(st, m)
  {
    hide Step, ApprovableAt, OpenBut, Trustees, Voters, FairRecords, Incomplete, StaysPending, Refusal;
    var next := Step(st, m);
    if Refusal(st, m).None? {
      assert FairRecords(At(st, m.address));
      forall a
        ensures ApprovableAt(next, a) || Blocks(st, m)
      {
        assert ApprovableAt(st, a);
        ApprovableAfter(st, m, a);
      }
      if Blocks(st, m) {
        var a := Blocked(st, m);
        assert ApprovableAt(st, a);
        ApprovableAfter(st, m, a);
        assert !ApprovableAt(next, a);
      }
    } else {
      assert next == st by { Refused(st, m); }
    }
  }

  lemma Blocked(st: Ledger, m: Message) returns (a: Address)
    requires Blocks(st, m)
    ensures a in st.revocations
    ensures || (a == m.address && Incomplete(st, m) && !OpenBut(Trustees(st.active), Voters(st.revocations[a]), m.signer))
            || (StaysPending(st, m, a) && !OpenBut(Trustees(st.active), Voters(st.revocations[a]), m.address))
  {
    hide OpenBut, Trustees, Voters, TakesAway;
    if Incomplete(st, m) && !OpenBut(Trustees(st.active), Voters(st.revocations[m.address]), m.signer) {
      a := m.address;
    } else {
      a :| StaysPending(st, m, a) && !OpenBut(Trustees(st.active), Voters(st.revocations[a]), m.address);
    }
  }

  ghost predicate AlwaysApprovable(st: Ledger, ms: seq<Message>)
    decreases |ms|
  {
    Approvable(st) && (ms != [] ==> AlwaysApprovable(Step(st, ms[0]), ms[1..]))
  }

  ghost predicate NoneBlocks(st: Ledger, ms: seq<Message>)
    decreases |ms|
  {
    ms != [] ==> !Blocks(st, ms[0]) && NoneBlocks(Step(st, ms[0]), ms[1..])
  }

  /** Over any run a revocation that all trustees have approved is done, if and only if no message
      leaves one that the last trustee who could approve it can no longer complete. */
  lemma {:induction false} EveryRunApprovable(st: Ledger, ms: seq<Message>)
    requires Fair(st) && Approvable(st)
    ensures AlwaysApprovable(st, ms) <==> NoneBlocks(st, ms)
    decreases |ms|
  {
    hide Fair, Approvable, Blocks, Step;
    if ms != [] {
      ApprovableStep(st, ms[0]);
      FairAfter(st, ms[0]);
      if Approvable(Step(st, ms[0])) {
        EveryRunApprovable(Step(st, ms[0]), ms[1..]);
      } else {
        NotApprovable(Step(st, ms[0]), ms[1..]);
      }
    }
  }

  lemma NotApprovable(st: Ledger, ms: seq<Message>)
    requires !Approvable(st)
    ensures !AlwaysApprovable(st, ms)
  {
  }

  // ---- As long as the number of trustees stays the same ----

  predicate BelowQuorumAt(st: Ledger, a: Address) {
    a in st.revocations ==> |st.revocations[a]| < RevokeQuorum(|Trustees(st.active)|)
  }

  ghost predicate BelowQuorum(st: Ledger) {
    forall a :: BelowQuorumAt(st, a)
  }

  /** If all trustees had approved, there would be a quorum. */
  lemma BelowIsApprovable(st: Ledger, a: Address)
    requires BelowQuorumAt(st, a) && Trustees(st.active) != {}
    ensures ApprovableAt(st, a)
  {
    if a in st.revocations {
      hide Trustees, Voters, ApprovalsCount;
      var grants, t := st.revocations[a], Trustees(st.active);
      if !OpenFor(t, Voters(grants)) {
        Smaller(t, Voters(grants));
        FewVoters(grants);
        QuorumDecides(|t|, |t|, 0);
      }
    }
  }

  lemma BelowStep(st: Ledger, m: Message, a: Address)
    requires BelowQuorumAt(st, a) && |Trustees(Step(st, m).active)| == |Trustees(st.active)|
    ensures BelowQuorumAt(Step(st, m), a)
  {
    if Refusal(st, m).None? {
      RevocationAfter(st, m, a);
      hide Step, Trustees, Refusal, ApprovalsCount;
    }
  }

  /** While the number of trustees stays the same, a revocation that all of them have approved is
      done. */
  lemma {:induction false} SameTrusteesComplete(st: Ledger, ms: seq<Message>)
    requires BelowQuorum(st) && Trustees(st.active) != {} && SameNumber(st, ms)
    ensures AlwaysApprovable(st, ms)
    decreases |ms|
  {
    hide BelowQuorumAt, ApprovableAt, Step, Trustees;
    forall a ensures ApprovableAt(st, a) {
      assert BelowQuorumAt(st, a);
      BelowIsApprovable(st, a);
    }
    if ms != [] {
      forall a ensures BelowQuorumAt(Step(st, ms[0]), a) {
        assert BelowQuorumAt(st, a);
        BelowStep(st, ms[0], a);
      }
      SameTrusteesComplete(Step(st, ms[0]), ms[1..]);
    }
  }

  // ---- A run that blocks a revocation ----

  /** Three trustees: "t" adds the vendor "x" and proposes to revoke it. Then "w" is revoked by the
      other two, and "u" by "t" alone. The one trustee left has approved the revocation of "x", which
      is still pending although one approval is now a quorum. */
  lemma ApprovedAndPending()
    ensures var run := [ProposeAdd("t", "x", [VENDOR], 1, "", 0), ProposeRevoke("t", "x", "", 0),
                        ProposeRevoke("t", "w", "", 0), ApproveRevoke("u", "w", "", 0), ProposeRevoke("t", "u", "", 0)];
            var st := Run(Three([]), run);
            Approvable(Three([])) && "x" in st.active && "x" in st.revocations && !ApprovableAt(st, "x")
            && Trustees(st.active) == {"t"} && |st.revocations["x"]| >= RevokeQuorum(|Trustees(st.active)|)
  {
    var a, b := ProposeAdd("t", "x", [VENDOR], 1, "", 0), ProposeRevoke("t", "x", "", 0);
    var c, d, e := ProposeRevoke("t", "w", "", 0), ApproveRevoke("u", "w", "", 0), ProposeRevoke("t", "u", "", 0);
    var s0 := Three([]);
    VendorJoins();
    hide Step, Three, Trustees, RevokeQuorum, Voters;
    var s1 := Step(s0, a);
    var s2 := Step(s1, b);
    FirstOfTwo(s1, "x");
    var s3 := Step(s2, c);
    FirstOfTwo(s2, "w");
    var s4 := Step(s3, d);
    SecondOfTwo(s3);
    var s5 := Step(s4, e);
    OneIsEnough(s4);
    RunOfFive(s0, a, b, c, d, e);
    OneVoter(Grant("t", 0, ""));
    QuorumOfOne();
  }

  lemma QuorumOfOne()
    ensures RevokeQuorum(1) == 1 && |{"t"}| == 1
  {
  }

  lemma RunOfFive(st: Ledger, a: Message, b: Message, c: Message, d: Message, e: Message)
    ensures Run(st, [a, b, c, d, e]) == Step(Step(Step(Step(Step(st, a), b), c), d), e)
  {
    hide Step;
    assert [a, b, c, d, e][1..] == [b, c, d, e];
    RunOfFour(Step(st, a), b, c, d, e);
  }

  lemma VendorJoins()
    ensures var s := Step(Three([]), ProposeAdd("t", "x", [VENDOR], 1, "", 0));
            && Trustees(s.active) == {"t", "u", "w"} && |{"t", "u", "w"}| == 3
            && "u" in s.active && "w" in s.active && "x" in s.active && s.revocations == map[]
    ensures Approvable(Three([]))
  {
    ThreeTrustees([]);
    Newcomer();
    VendorAdded(Three([]));
  }

  lemma FirstOfTwo(st: Ledger, a: Address)
    requires Trustees(st.active) == {"t", "u", "w"} && |{"t", "u", "w"}| == 3 && a in st.active && a !in st.revocations
    ensures var next := Step(st, ProposeRevoke("t", a, "", 0));
            next.active == st.active && next.revocations == st.revocations[a := [Grant("t", 0, "")]]
  {
    var m := ProposeRevoke("t", a, "", 0);
    QuorumsOfThree();
    hide ApprovalsCount, Trustees;
    assert Refusal(st, m) == None;
  }

  lemma SecondOfTwo(st: Ledger)
    requires Trustees(st.active) == {"t", "u", "w"} && |{"t", "u", "w"}| == 3 && "w" in st.active
    requires "w" in st.revocations && st.revocations["w"] == [Grant("t", 0, "")]
    ensures var next := Step(st, ApproveRevoke("u", "w", "", 0));
            Trustees(next.active) == {"t", "u"} && next.revocations == st.revocations - {"w"}
            && next.active == st.active - {"w"}
  {
    var m := ApproveRevoke("u", "w", "", 0);
    QuorumsOfThree();
    StoreTrustees(st.active, "w", None);
    hide ApprovalsCount, Trustees;
    assert !GrantedBy([Grant("t", 0, "")], "u");
    assert Refusal(st, m) == None;
    assert {"t", "u", "w"} - {"w"} == {"t", "u"};
  }

  lemma OneIsEnough(st: Ledger)
    requires Trustees(st.active) == {"t", "u"} && "u" in st.active && "u" !in st.revocations
    ensures var next := Step(st, ProposeRevoke("t", "u", "", 0));
            Trustees(next.active) == {"t"} && next.revocations == st.revocations && next.active == st.active - {"u"}
  {
    var m := ProposeRevoke("t", "u", "", 0);
    assert RevokeQuorum(2) == 1 && |{"t", "u"}| == 2;
    StoreTrustees(st.active, "u", None);
    hide ApprovalsCount, Trustees;
    assert Refusal(st, m) == None;
    assert {"t", "u"} - {"u"} == {"t"};
  }
}
