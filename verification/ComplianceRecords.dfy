/**
  * What every compliance record owes to the messages that were accepted for it: who may change it, and
  * how each of its fields comes from the first, the last or all of them.
  */
module ComplianceRecords {
  import opened Options
  import opened Compliance

  /** The signer is a certification center, the date can be read, a certificate id is given where there is
      one, and a certified or revoked model version is on the ledger under that version string. */
  predicate Proper(m: Message) {
    && m.authorized && m.date.time.Some? && (!m.Revoke? ==> m.cdId != "")
    && (!m.Provision? ==> m.model == Some(m.versionString))
  }

  /** The codes of the three statuses. */
  function Code(m: Message): int {
    if m.Provision? then 1 else if m.Certify? then 2 else 3
  }

  /** The message goes with the record there is: there is none, or it has another status and no
      later date; a provision needs that there is none. */
  predicate Timely(st: Ledger, m: Message) {
    m.key in st.infos ==>
      var info := st.infos[m.key];
      && !m.Provision? && info.status != Code(m)
      && info.date.time.Some? && m.date.time.Some? && info.date.time.value <= m.date.time.value
  }

  /** A message is accepted if and only if it is proper and timely. */
  lemma AcceptedIff(st: Ledger, m: Message)
    ensures Refusal(st, m).None? <==> Proper(m) && Timely(st, m)
  {
  }

  /** The reason given for a refusal is a true one. */
  lemma RefusedFor(st: Ledger, m: Message, e: Error)
    requires Refusal(st, m) == Some(e)
    ensures match e
            case InvalidMessage => m.date.time.None? || (!m.Revoke? && m.cdId == "")
            case Unauthorized => !m.authorized
            case NoModelVersion => !m.Provision? && m.model == None
            case VersionStringMismatch => !m.Provision? && m.model != None && m.model != Some(m.versionString)
            case AlreadyProvisional => m.Provision? && m.key in st.infos && st.infos[m.key].status == 1
            case AlreadyCertified => !m.Revoke? && m.key in st.infos && st.infos[m.key].status == 2
            case AlreadyRevoked => !m.Certify? && m.key in st.infos && st.infos[m.key].status == 3
            case AlreadyExists => m.Provision? && m.key in st.infos && st.infos[m.key].status !in {1, 2, 3}
            case InvalidDate => !m.Provision? && m.key in st.infos && st.infos[m.key].date.time == None
            case InconsistentDates =>
              && !m.Provision? && m.key in st.infos && m.date.time.Some? && st.infos[m.key].date.time.Some?
              && m.date.time.value < st.infos[m.key].date.time.value
  {
  }

  /** Only a proper message changes anything. */
  lemma ChangeIsProper(st: Ledger, m: Message)
    requires Step(st, m) != st
    ensures m.authorized && (!m.Provision? ==> m.model == Some(m.versionString))
  {
    hide Accept;
    AcceptedIff(st, m);
  }

  // ---- The messages accepted for a key ----

  /** The message at `j` is accepted when its turn comes. */
  predicate AcceptedAt(ms: seq<Message>, j: nat)
    requires j < |ms|
  {
    Refusal(Run(EMPTY, ms[..j]), ms[j]).None?
  }

  function Accepted(ms: seq<Message>, k: Key): seq<Message>
    decreases |ms|
  {
    if ms == [] then []
    else
      var n := |ms| - 1;
      Accepted(ms[..n], k) + if ms[n].key == k && AcceptedAt(ms, n) then [ms[n]] else []
  }

  /** They are proper messages of the run for that key, accepted when their turn came. */
  lemma {:induction false} AcceptedAmong(ms: seq<Message>, k: Key, i: nat) returns (j: nat)
    requires i < |Accepted(ms, k)|
    ensures j < |ms| && ms[j] == Accepted(ms, k)[i] && ms[j].key == k && AcceptedAt(ms, j) && Proper(ms[j])
    decreases |ms|
  {
    hide AcceptedAt, Proper;
    var n := |ms| - 1;
    if i < |Accepted(ms[..n], k)| {
      j := AcceptedAmong(ms[..n], k, i);
      SamePrefix(ms, n, j);
    } else {
      j := n;
      assert Accepted(ms, k)[i] == ms[n];
    }
    ProperAt(ms, j);
  }

  lemma SamePrefix(ms: seq<Message>, n: nat, j: nat)
    requires j < n <= |ms|
    ensures AcceptedAt(ms[..n], j) == AcceptedAt(ms, j)
  {
    assert ms[..n][..j] == ms[..j];
  }

  lemma ProperAt(ms: seq<Message>, j: nat)
    requires j < |ms| && AcceptedAt(ms, j)
    ensures Proper(ms[j])
  {
    hide Run;
    AcceptedIff(Run(EMPTY, ms[..j]), ms[j]);
  }

  // ---- The record they make ----

  /** The certificate id last given. */
  function LastId(given: seq<Message>): string {
    if given == [] then ""
    else
      var n := |given| - 1;
      if given[n].Revoke? then LastId(given[..n]) else given[n].cdId
  }

  function Field(options: map<string, string>, f: string): string {
    if f in options then options[f] else ""
  }

  /** The text last given for an optional field. */
  function LastText(given: seq<Message>, f: string): string {
    if given == [] then ""
    else
      var n := |given| - 1;
      if !given[n].Revoke? && Field(given[n].options, f) != "" then Field(given[n].options, f)
      else LastText(given[..n], f)
  }

  /** Status, date and reason are those of the last message, owner, version string and CD version those of
      the first; the history is all messages but the last. */
  predicate Made(info: Info, given: seq<Message>)
    requires given != []
  {
    var first, last := given[0], given[|given| - 1];
    && info.key == first.key && info.owner == first.signer
    && info.versionString == first.versionString && info.cdVersion == first.cdVersion
    && info.status == Code(last) && info.date == last.date && info.reason == last.reason
    && |info.history| == |given| - 1
    && (forall i | 0 <= i < |given| - 1 ::
          info.history[i] == HistoryItem(Code(given[i]), given[i].date, given[i].reason, first.cdVersion))
    && info.cdId == LastId(given)
  }

  ghost predicate FieldsMade(info: Info, given: seq<Message>) {
    forall f :: Field(info.options, f) == LastText(given, f)
  }

  ghost predicate RecordOf(st: Ledger, k: Key, given: seq<Message>) {
    && (k in st.infos <==> given != [])
    && (given != [] ==> given[0].key == k && Made(st.infos[k], given) && FieldsMade(st.infos[k], given))
  }

  lemma FirstMade(st: Ledger, m: Message)
    requires m.key !in st.infos
    ensures Made(NewInfo(st, m), [m])
  {
    assert [m][..0] == [];
  }

  lemma NextMade(st: Ledger, m: Message, given: seq<Message>)
    requires m.key in st.infos && given != [] && Made(st.infos[m.key], given) && !m.Provision?
    ensures Made(NewInfo(st, m), given + [m])
  {
    var info, more := st.infos[m.key], given + [m];
    assert more[..|given|] == given;
    assert NewInfo(st, m).history == info.history + [HistoryItem(info.status, info.date, info.reason, info.cdVersion)];
    forall i | 0 <= i < |given| ensures more[i] == given[i] {}
  }

  lemma FieldsAfter(st: Ledger, m: Message, given: seq<Message>, f: string)
    requires m.key in st.infos && Field(st.infos[m.key].options, f) == LastText(given, f) && !m.Provision?
    ensures Field(NewInfo(st, m).options, f) == LastText(given + [m], f)
  {
    assert (given + [m])[..|given|] == given;
  }

  lemma FirstFields(st: Ledger, m: Message, f: string)
    requires m.key !in st.infos
    ensures Field(NewInfo(st, m).options, f) == LastText([m], f)
  {
    assert [m][..0] == [];
  }

  lemma RecordStep(st: Ledger, m: Message, k: Key, given: seq<Message>)
    requires RecordOf(st, k, given)
    ensures RecordOf(Step(st, m), k, given + if m.key == k && Refusal(st, m).None? then [m] else [])
  {
    if Refusal(st, m).Some? || m.key != k {
      assert given + [] == given;
      if Refusal(st, m).None? { OtherRecord(st, m, k); }
    } else {
      AcceptedIff(st, m);
      OwnRecord(st, m);
      hide Refusal, Accept, NewInfo, Made, Field, LastText, Step;
      if k in st.infos {
        NextMade(st, m, given);
        forall f ensures Field(NewInfo(st, m).options, f) == LastText(given + [m], f) { FieldsAfter(st, m, given, f); }
      } else {
        assert given + [m] == [m];
        FirstMade(st, m);
        forall f ensures Field(NewInfo(st, m).options, f) == LastText([m], f) { FirstFields(st, m, f); }
      }
    }
  }

  lemma OtherRecord(st: Ledger, m: Message, k: Key)
    requires k != m.key
    ensures var next := Accept(st, m);
            (k in next.infos <==> k in st.infos) && (k in st.infos ==> next.infos[k] == st.infos[k])
  {
    Elsewhere(st, m, k);
  }

  lemma OwnRecord(st: Ledger, m: Message)
    requires Refusal(st, m).None?
    ensures m.key in Step(st, m).infos && Step(st, m).infos[m.key] == NewInfo(st, m)
  {
    hide NewInfo, Refusal;
  }

  lemma {:induction false} RunLast(st: Ledger, ms: seq<Message>)
    requires ms != []
    ensures Run(st, ms) == Step(Run(st, ms[..|ms| - 1]), ms[|ms| - 1])
    decreases |ms|
  {
    hide Step;
    var n := |ms| - 1;
    if n == 0 {
      assert ms[1..] == [] && ms[..0] == [];
    } else {
      RunLast(Step(st, ms[0]), ms[1..]);
      assert ms[1..][..n - 1] == ms[..n][1..] && ms[1..][n - 1] == ms[n];
    }
  }

  /** After every run there is a record for exactly those keys for which a message was accepted, and it is
      made by those messages. */
  lemma {:induction false} EveryRunRecords(ms: seq<Message>, k: Key)
    ensures RecordOf(Run(EMPTY, ms), k, Accepted(ms, k))
    decreases |ms|
  {
    hide RecordOf, Step, Run;
    if ms == [] {
      NoRecords(ms, k);
    } else {
      var n := |ms| - 1;
      EveryRunRecords(ms[..n], k);
      RecordStep(Run(EMPTY, ms[..n]), ms[n], k, Accepted(ms[..n], k));
      RunLast(EMPTY, ms);
    }
  }

  lemma NoRecords(ms: seq<Message>, k: Key)
    requires ms == []
    ensures RecordOf(Run(EMPTY, ms), k, [])
  {
  }

  /** Every record has its status, date and reason from an authorized message of the run for its key, and
      its owner, version string and CD version from the first one that was accepted. */
  lemma EveryRecordAuthorized(ms: seq<Message>, k: Key) returns (i: nat, j: nat)
    requires k in Run(EMPTY, ms).infos
    ensures var info := Run(EMPTY, ms).infos[k];
            && i <= j < |ms| && AcceptedAt(ms, i) && AcceptedAt(ms, j)
            && Proper(ms[i]) && Proper(ms[j]) && ms[i].key == k && ms[j].key == k
            && info.status == Code(ms[j]) && info.date == ms[j].date && info.reason == ms[j].reason
            && info.owner == ms[i].signer && info.versionString == ms[i].versionString && info.cdVersion == ms[i].cdVersion
    ensures forall l | 0 <= l < |ms| && ms[l].key == k && AcceptedAt(ms, l) :: i <= l <= j
  {
    hide Run, AcceptedAt, Proper, Code, FieldsMade;
    EveryRunRecords(ms, k);
    i, j := Bounds(ms, k);
    ProperAt(ms, i);
    ProperAt(ms, j);
  }

  /** The places of the first and the last message accepted for a key. */
  lemma {:induction false} Bounds(ms: seq<Message>, k: Key) returns (i: nat, j: nat)
    requires Accepted(ms, k) != []
    ensures var given := Accepted(ms, k);
            i <= j < |ms| && ms[i] == given[0] && ms[j] == given[|given| - 1] && ms[i].key == k && ms[j].key == k
    ensures AcceptedAt(ms, i) && AcceptedAt(ms, j)
    ensures forall l | 0 <= l < |ms| && ms[l].key == k && AcceptedAt(ms, l) :: i <= l <= j
    decreases |ms|
  {
    hide AcceptedAt;
    var n := |ms| - 1;
    forall l | 0 <= l < n ensures AcceptedAt(ms[..n], l) == AcceptedAt(ms, l) { SamePrefix(ms, n, l); }
    if Accepted(ms[..n], k) == [] {
      NoneBefore(ms[..n], k);
      i, j := n, n;
      assert forall l | 0 <= l < n :: ms[..n][l] == ms[l];
    } else {
      i, j := Bounds(ms[..n], k);
      if ms[n].key == k && AcceptedAt(ms, n) { j := n; }
      forall l | 0 <= l < |ms| && ms[l].key == k && AcceptedAt(ms, l) ensures i <= l <= j {
        if l < n { assert ms[..n][l] == ms[l]; }
      }
    }
  }

  lemma {:induction false} NoneBefore(ms: seq<Message>, k: Key)
    requires Accepted(ms, k) == []
    ensures forall l | 0 <= l < |ms| && ms[l].key == k :: !AcceptedAt(ms, l)
    decreases |ms|
  {
    hide AcceptedAt;
    if ms != [] {
      var n := |ms| - 1;
      NoneBefore(ms[..n], k);
      forall l | 0 <= l < |ms| && ms[l].key == k ensures !AcceptedAt(ms, l) {
        if l < n {
          SamePrefix(ms, n, l);
          assert ms[..n][l] == ms[l];
        }
      }
    }
  }
}
