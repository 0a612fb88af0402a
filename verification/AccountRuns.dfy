/**
  * Runs of the account messages: quorums, account numbers, and exactly when an address can be both
  * active and revoked, or have a pending revocation without an account.
  */
module AccountRuns {
  import opened Options
  import opened Accounts

  // ---- Quorums ----

  /** An address becomes active only by a proposal or approval that completes a quorum of the
      trustees there are at that moment, and takes the next account number. */
  lemma AdmittedByQuorum(st: Ledger, m: Message, a: Address)
    requires a !in st.active && a in Step(st, m).active
    ensures (m.ProposeAdd? || m.ApproveAdd?) && m.address == a && m.signer in Trustees(st.active)
    ensures var account := Step(st, m).active[a];
            |account.approvals| >= AddQuorum(|Trustees(st.active)|, account.roles)
            && account.number == Next(st) && Next(Step(st, m)) == Next(st) + 1
  {
    hide Trustees, ApprovalsCount, GrantedBy;
    AtStep(st, m, a);
  }

  /** An account leaves the active store only for the revoked store, unchanged, and only by a
      quorum of trustees or for double signing. */
  lemma RevokedByQuorum(st: Ledger, m: Message, a: Address)
    requires a in st.active && a !in Step(st, m).active
    ensures var next := Step(st, m);
            a in next.revoked && next.revoked[a].account == st.active[a] &&
            if next.revoked[a].reason == MaliciousValidator then m == DoubleSign(a)
            else |next.revoked[a].approvals| >= RevokeQuorum(|Trustees(st.active)|)
  {
    hide Trustees, ApprovalsCount, GrantedBy;
    AtStep(st, m, a);
  }

  // ---- Active and revoked ----

  predicate SeparateRecords(r: Records) {
    !(r.active.Some? && r.revoked.Some?)
  }

  ghost predicate Separate(st: Ledger) {
    forall a :: SeparateRecords(At(st, a))
  }

  /** A proposal for a revoked address that one trustee alone can make active. */
  predicate AddsRevoked(st: Ledger, m: Message) {
    m.ProposeAdd? && m.address in st.revoked && AddQuorum(|Trustees(st.active)|, m.roles) <= 1 && Refusal(st, m).None?
  }

  lemma SeparateChange(r: Records, trustees: nat, number: nat, m: Message)
    requires SeparateRecords(r) && RecordError(r, trustees, m).None?
    ensures SeparateRecords(Changed(r, trustees, number, m)) <==>
            !(m.ProposeAdd? && r.revoked.Some? && AddQuorum(trustees, m.roles) <= 1)
  {
    hide GrantedBy, ApprovalsCount;
  }

  lemma SeparateStep(st: Ledger, m: Message)
    requires Separate(st)
    ensures Separate(Step(st, m)) <==> !AddsRevoked(st, m)
  {
    hide Changed, Step, SeparateRecords, RecordError;
    var next := Step(st, m);
    assert SeparateRecords(At(st, m.address));
    if Refusal(st, m).None? {
      SeparateChange(At(st, m.address), |Trustees(st.active)|, Next(st), m);
    }
    forall a
      ensures SeparateRecords(At(next, a)) <==> !(a == m.address && AddsRevoked(st, m))
    {
      assert SeparateRecords(At(st, a));
      AtStep(st, m, a);
    }
    assert SeparateRecords(At(next, m.address)) <==> !AddsRevoked(st, m);
  }

  ghost predicate AlwaysSeparate(st: Ledger, ms: seq<Message>)
    decreases |ms|
  {
    Separate(st) && (ms != [] ==> AlwaysSeparate(Step(st, ms[0]), ms[1..]))
  }

  predicate NoneAddsRevoked(st: Ledger, ms: seq<Message>)
    decreases |ms|
  {
    ms != [] ==> !AddsRevoked(st, ms[0]) && NoneAddsRevoked(Step(st, ms[0]), ms[1..])
  }

  /** Over any run no address is ever both active and revoked, if and only if no revoked address is
      proposed again while a single trustee is a quorum. */
  lemma {:induction false} EveryRunSeparate(st: Ledger, ms: seq<Message>)
    requires Separate(st)
    ensures AlwaysSeparate(st, ms) <==> NoneAddsRevoked(st, ms)
    decreases |ms|
  {
    hide Separate, AddsRevoked, Step;
    if ms != [] {
      SeparateStep(st, ms[0]);
      if Separate(Step(st, ms[0])) {
        EveryRunSeparate(Step(st, ms[0]), ms[1..]);
      } else {
        NotSeparate(Step(st, ms[0]), ms[1..]);
      }
    }
  }

  lemma NotSeparate(st: Ledger, ms: seq<Message>)
    requires !Separate(st)
    ensures !AlwaysSeparate(st, ms)
  {
  }

  // ---- Pending revocations ----

  predicate AnchoredRecords(r: Records) {
    r.revocation.Some? ==> r.active.Some?
  }

  ghost predicate Anchored(st: Ledger) {
    forall a :: AnchoredRecords(At(st, a))
  }

  /** A double signing by an account whose revocation is pending. */
  predicate Orphans(st: Ledger, m: Message) {
    m.DoubleSign? && m.address in st.active && m.address in st.revocations
  }

  lemma AnchoredChange(r: Records, trustees: nat, number: nat, m: Message)
    requires AnchoredRecords(r) && RecordError(r, trustees, m).None?
    ensures AnchoredRecords(Changed(r, trustees, number, m)) <==> !(m.DoubleSign? && r.revocation.Some?)
  {
    hide GrantedBy, ApprovalsCount;
  }

  lemma AnchoredStep(st: Ledger, m: Message)
    requires Anchored(st)
    ensures Anchored(Step(st, m)) <==> !Orphans(st, m)
  {
    hide Changed, Step, AnchoredRecords;
    var next := Step(st, m);
    assert AnchoredRecords(At(st, m.address));
    if Refusal(st, m).None? {
      AnchoredChange(At(st, m.address), |Trustees(st.active)|, Next(st), m);
    }
    forall a
      ensures AnchoredRecords(At(next, a)) <==> !(a == m.address && Orphans(st, m))
    {
      assert AnchoredRecords(At(st, a));
      AtStep(st, m, a);
    }
    assert AnchoredRecords(At(next, m.address)) <==> !Orphans(st, m);
  }

  ghost predicate AlwaysAnchored(st: Ledger, ms: seq<Message>)
    decreases |ms|
  {
    Anchored(st) && (ms != [] ==> AlwaysAnchored(Step(st, ms[0]), ms[1..]))
  }

  predicate NoneOrphans(st: Ledger, ms: seq<Message>)
    decreases |ms|
  {
    ms != [] ==> !Orphans(st, ms[0]) && NoneOrphans(Step(st, ms[0]), ms[1..])
  }

  /** Over any run every pending revocation refers to an active account, if and only if no account
      whose revocation is pending is caught signing twice. */
  lemma {:induction false} EveryRunAnchored(st: Ledger, ms: seq<Message>)
    requires Anchored(st)
    ensures AlwaysAnchored(st, ms) <==> NoneOrphans(st, ms)
    decreases |ms|
  {
    hide Anchored, Orphans, Step;
    if ms != [] {
      AnchoredStep(st, ms[0]);
      if Anchored(Step(st, ms[0])) {
        EveryRunAnchored(Step(st, ms[0]), ms[1..]);
      } else {
        NotAnchored(Step(st, ms[0]), ms[1..]);
      }
    }
  }

  lemma NotAnchored(st: Ledger, ms: seq<Message>)
    requires !Anchored(st)
    ensures !AlwaysAnchored(st, ms)
  {
  }

  /** The trustees' messages alone never leave a pending revocation without its account. */
  lemma {:induction false} MessagesAnchored(st: Ledger, ms: seq<Message>)
    requires Anchored(st) && forall i | 0 <= i < |ms| :: !ms[i].DoubleSign?
    ensures AlwaysAnchored(st, ms)
    decreases |ms|
  {
    hide Anchored, Step;
    if ms != [] {
      AnchoredStep(st, ms[0]);
      MessagesAnchored(Step(st, ms[0]), ms[1..]);
    }
  }

  // ---- Account numbers ----

  datatype Place = Active | Revoked | Rejected

  /** The account number a record holds. */
  function NumberAt(r: Records, p: Place): Option<nat> {
    match p
    case Active => if r.active.Some? then Some(r.active.value.number) else None
    case Revoked => if r.revoked.Some? then Some(r.revoked.value.account.number) else None
    case Rejected => if r.rejected.Some? then Some(r.rejected.value.number) else None
  }

  /** The numbers at one address are below the next number, and differ. */
  predicate NumbersWithin(r: Records, next: nat) {
    (forall p :: NumberAt(r, p).Some? ==> NumberAt(r, p).value < next) &&
    (forall p, q | p != q && NumberAt(r, p).Some? :: NumberAt(r, p) != NumberAt(r, q))
  }

  predicate NumbersApart(r: Records, s: Records) {
    forall p, q | NumberAt(r, p).Some? :: NumberAt(r, p) != NumberAt(s, q)
  }

  /** No two records hold the same account number, and none holds one yet to be handed out. */
  ghost predicate NumbersUnique(st: Ledger) {
    (forall a :: NumbersWithin(At(st, a), Next(st))) &&
    (forall a, b | a != b :: NumbersApart(At(st, a), At(st, b)))
  }

  /** A number after a change is one from before, or the new one. */
  lemma NumberFrom(r: Records, trustees: nat, number: nat, m: Message, p: Place)
    requires RecordError(r, trustees, m).None?
    ensures var n := NumberAt(Changed(r, trustees, number, m), p);
            n.Some? ==> (Numbers(r, trustees, m) && n.value == number)
                        || n == NumberAt(r, p) || n == NumberAt(r, Active)
  {
    hide GrantedBy, ApprovalsCount;
  }

  lemma WithinChange(r: Records, trustees: nat, number: nat, m: Message)
    requires NumbersWithin(r, number) && RecordError(r, trustees, m).None?
    ensures NumbersWithin(Changed(r, trustees, number, m), if Numbers(r, trustees, m) then number + 1 else number)
  {
    hide GrantedBy, ApprovalsCount;
    var r' := Changed(r, trustees, number, m);
    assert NumberAt(r, Active) == NumberAt(r, Active) && NumberAt(r, Revoked) == NumberAt(r, Revoked)
           && NumberAt(r, Rejected) == NumberAt(r, Rejected);
  }

  lemma ApartChange(r: Records, s: Records, trustees: nat, number: nat, m: Message)
    requires RecordError(r, trustees, m).None? && NumbersApart(r, s) && NumbersWithin(s, number)
    ensures NumbersApart(Changed(r, trustees, number, m), s)
  {
    hide Changed, Numbers, RecordError, NumberAt;
    var r' := Changed(r, trustees, number, m);
    forall p, q | NumberAt(r', p).Some?
      ensures NumberAt(r', p) != NumberAt(s, q)
    {
      NumberFrom(r, trustees, number, m, p);
    }
  }

  lemma ApartSymmetric(r: Records, s: Records)
    requires NumbersApart(r, s)
    ensures NumbersApart(s, r)
  {
    hide NumberAt;
  }

  lemma NumbersStep(st: Ledger, m: Message)
    requires NumbersUnique(st)
    ensures NumbersUnique(Step(st, m))
  {
    var next := Step(st, m);
    if Refusal(st, m).None? {
      var c, r, t := m.address, At(st, m.address), |Trustees(st.active)|;
      assert Next(next) == if Numbers(r, t, m) then Next(st) + 1 else Next(st);
      hide Changed, Step, NumbersWithin, NumbersApart, At, Numbers, RecordError, Refusal;
      AtStep(st, m, c);
      WithinChange(r, t, Next(st), m);
      forall a
        ensures NumbersWithin(At(next, a), Next(next))
      {
        AtStep(st, m, a);
        WithinGrows(At(st, a), Next(st), Next(next));
      }
      forall a, b | a != b
        ensures NumbersApart(At(next, a), At(next, b))
      {
        AtStep(st, m, a);
        AtStep(st, m, b);
        if a == c {
          ApartChange(r, At(st, b), t, Next(st), m);
        } else if b == c {
          ApartSymmetric(At(st, a), At(st, b));
          ApartChange(r, At(st, a), t, Next(st), m);
          ApartSymmetric(At(next, b), At(next, a));
        }
      }
    }
  }

  lemma WithinGrows(r: Records, n: nat, n': nat)
    requires NumbersWithin(r, n) && n <= n'
    ensures NumbersWithin(r, n')
  {
    hide NumberAt;
  }

  /** In every run account numbers stay unique over active, revoked and rejected accounts. */
  lemma {:induction false} EveryRunNumbers(st: Ledger, ms: seq<Message>)
    requires NumbersUnique(st)
    ensures NumbersUnique(Run(st, ms))
    decreases |ms|
  {
    hide NumbersUnique, Step;
    if ms != [] {
      NumbersStep(st, ms[0]);
      EveryRunNumbers(Step(st, ms[0]), ms[1..]);
    }
  }

  // ---- Runs that show the two conditions are met ----

  function Member(roles: seq<string>, number: nat): Account {
    Account(roles, 0, number, [], [])
  }

  /** Three trustees, one of whom may have a second role. */
  function Three(more: seq<string>): Ledger {
    Ledger(map["t" := Member([TRUSTEE], 0), "u" := Member([TRUSTEE], 1), "w" := Member([TRUSTEE] + more, 2)],
           map[], map[], map[], map[], Some(3))
  }

  lemma ThreeTrustees(more: seq<string>)
    ensures Trustees(Three(more).active) == {"t", "u", "w"} && |{"t", "u", "w"}| == 3
    ensures Fair(Three(more)) && NumbersUnique(Three(more)) && Separate(Three(more)) && Anchored(Three(more))
  {
    var st := Three(more);
    forall a ensures NumbersWithin(At(st, a), Next(st)) {}
    forall a, b | a != b ensures NumbersApart(At(st, a), At(st, b)) {}
  }

  lemma QuorumsOfThree()
    ensures RevokeQuorum(3) == 2 && AddQuorum(3, [VENDOR]) == 1 && AddQuorum(3, [NODE_ADMIN]) == 2
    ensures RejectsCount(3) == 2
  {
  }

  /** With three trustees a vendor needs one approval. A vendor that was added, revoked by two
      trustees and added again is active and revoked. */
  lemma AddedAgain()
    ensures var add := ProposeAdd("t", "x", [VENDOR], 1, "", 0);
            var revoke, approve := ProposeRevoke("t", "x", "", 0), ApproveRevoke("u", "x", "", 0);
            Separate(Three([])) && !Separate(Run(Three([]), [add, revoke, approve, add]))
  {
    var s0 := Three([]);
    var add := ProposeAdd("t", "x", [VENDOR], 1, "", 0);
    var revoke, approve := ProposeRevoke("t", "x", "", 0), ApproveRevoke("u", "x", "", 0);
    ThreeTrustees([]);
    hide Step, Three;
    assert "x" !in s0.active && "x" !in s0.pending && "x" !in s0.revocations by { Newcomer(); }
    var s1 := Step(s0, add);
    VendorAdded(s0);
    var s2 := Step(s1, revoke);
    RevocationProposed(s1);
    var s3 := Step(s2, approve);
    RevocationApproved(s2);
    VendorAdded(s3);
    RunOfFour(s0, add, revoke, approve, add);
    assert !SeparateRecords(At(Step(s3, add), "x"));
  }

  lemma Newcomer()
    ensures "x" !in Three([]).active && "x" !in Three([]).pending && "x" !in Three([]).revocations
  {
  }

  /** A change of the records of "x" leaves the trustees alone if it gives or takes no trustee role. */
  lemma TrusteesSame(st: Ledger, active: map<Address, Account>)
    requires TRUSTEE !in (if "x" in st.active then st.active["x"].roles else [])
    requires active == st.active - {"x"} || ("x" in active && active == st.active["x" := active["x"]] && TRUSTEE !in active["x"].roles)
    ensures Trustees(active) == Trustees(st.active)
  {
  }

  lemma VendorAdded(st: Ledger)
    requires Trustees(st.active) == {"t", "u", "w"} && |{"t", "u", "w"}| == 3
    requires "x" !in st.active && "x" !in st.pending
    ensures var next := Step(st, ProposeAdd("t", "x", [VENDOR], 1, "", 0));
            "x" in next.active && TRUSTEE !in next.active["x"].roles && "x" !in next.pending
            && Look(next.revocations, "x") == Look(st.revocations, "x") && Look(next.revoked, "x") == Look(st.revoked, "x")
            && Trustees(next.active) == {"t", "u", "w"}
  {
    var m := ProposeAdd("t", "x", [VENDOR], 1, "", 0);
    QuorumsOfThree();
    hide ApprovalsCount, Trustees;
    assert Refusal(st, m) == None;
    TrusteesSame(st, Step(st, m).active);
  }

  lemma RevocationProposed(st: Ledger)
    requires Trustees(st.active) == {"t", "u", "w"} && |{"t", "u", "w"}| == 3
    requires "x" in st.active && "x" !in st.revocations && "x" !in st.pending
    ensures var next := Step(st, ProposeRevoke("t", "x", "", 0));
            next.active == st.active && "x" in next.revocations && next.revocations["x"] == [Grant("t", 0, "")]
            && "x" !in next.pending
  {
    var m := ProposeRevoke("t", "x", "", 0);
    QuorumsOfThree();
    hide ApprovalsCount, Trustees;
    assert Refusal(st, m) == None;
  }

  lemma RevocationApproved(st: Ledger)
    requires Trustees(st.active) == {"t", "u", "w"} && |{"t", "u", "w"}| == 3
    requires "x" in st.active && TRUSTEE !in st.active["x"].roles && "x" !in st.pending
    requires "x" in st.revocations && st.revocations["x"] == [Grant("t", 0, "")]
    ensures var next := Step(st, ApproveRevoke("u", "x", "", 0));
            "x" !in next.active && "x" in next.revoked && "x" !in next.pending && Trustees(next.active) == {"t", "u", "w"}
  {
    var m := ApproveRevoke("u", "x", "", 0);
    QuorumsOfThree();
    hide ApprovalsCount, Trustees;
    assert !GrantedBy([Grant("t", 0, "")], "u");
    assert Refusal(st, m) == None;
    TrusteesSame(st, Step(st, m).active);
  }

  lemma RunOfFour(st: Ledger, a: Message, b: Message, c: Message, d: Message)
    ensures Run(st, [a, b, c, d]) == Step(Step(Step(Step(st, a), b), c), d)
  {
    hide Step;
    var s1, s2, s3 := Step(st, a), Step(Step(st, a), b), Step(Step(Step(st, a), b), c);
    assert [a, b, c, d][1..] == [b, c, d] && [b, c, d][1..] == [c, d] && [c, d][1..] == [d] && [d][1..] == [];
    assert Run(st, [a, b, c, d]) == Run(s1, [b, c, d]);
    assert Run(s1, [b, c, d]) == Run(s2, [c, d]);
    assert Run(s2, [c, d]) == Run(s3, [d]);
    assert Run(s3, [d]) == Run(Step(s3, d), []);
  }

  /** A validator caught signing twice while its revocation is pending leaves the revocation behind. */
  lemma RevocationLeftBehind(st: Ledger, a: Address)
    requires a in st.active && a in st.revocations
    ensures var next := Run(st, [DoubleSign(a)]);
            a !in next.active && a in next.revocations && !Anchored(next)
  {
    var next := Step(st, DoubleSign(a));
    assert Run(st, [DoubleSign(a)]) == Run(next, []) by { assert [DoubleSign(a)][1..] == []; }
    AtStep(st, DoubleSign(a), a);
    assert !AnchoredRecords(At(next, a));
  }

  /** Three trustees, one of them a node admin, so that it can own a validator. Its revocation is
      proposed and stays pending; then it is caught signing twice. */
  lemma RevocationOrphaned()
    ensures var start := Three([NODE_ADMIN]);
            Anchored(start) && NumbersUnique(start)
            && !Anchored(Run(start, [ProposeRevoke("t", "w", "", 0), DoubleSign("w")]))
  {
    var s0, a, b := Three([NODE_ADMIN]), ProposeRevoke("t", "w", "", 0), DoubleSign("w");
    ThreeTrustees([NODE_ADMIN]);
    QuorumsOfThree();
    hide Changed, Trustees, ApprovalsCount, NumbersUnique;
    assert Refusal(s0, a) == None;
    PendingRevocation(s0, a);
    RevocationLeftBehind(Step(s0, a), "w");
    assert [a, b][1..] == [b];
    assert Run(s0, [a, b]) == Run(Step(s0, a), [b]);
  }

  lemma PendingRevocation(st: Ledger, m: Message)
    requires m.ProposeRevoke? && Refusal(st, m).None? && RevokeQuorum(|Trustees(st.active)|) > 1
    ensures m.address in Step(st, m).active && m.address in Step(st, m).revocations
  {
    hide Trustees, ApprovalsCount;
    AtStep(st, m, m.address);
  }
}
