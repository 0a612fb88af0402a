/**
  * The compliance status machine of the ledger: one status record per model version and
  * certification type, three flag stores, and an index of certified records by CD certificate id.
  * Certify, revoke and provision are the only messages that change them.
  */
module Compliance {
  import opened Options

  const PROVISIONAL := 1
  const CERTIFIED := 2
  const REVOKED := 3

  /** A date as written, and the time it stands for if it is a valid RFC 3339 date. */
  datatype Date = Date(text: string, time: Option<int>)

  datatype Key = Key(vid: int, pid: int, version: int, kind: string)

  datatype HistoryItem = HistoryItem(status: int, date: Date, reason: string, cdVersion: int)

  datatype Info = Info(
    key: Key, versionString: string, date: Date, reason: string, owner: string, status: int,
    history: seq<HistoryItem>, cdVersion: int, cdId: string, options: map<string, string>)

  datatype Ledger = Ledger(
    infos: map<Key, Info>,
    certified: map<Key, bool>, revoked: map<Key, bool>, provisional: map<Key, bool>,
    index: map<string, seq<Info>>)

  /** A message, with what the role and model modules answer for it: whether the signer is a
      certification center, and the version string of the model version, if it is on the ledger. */
  datatype Message =
    | Certify(authorized: bool, model: Option<string>, key: Key, versionString: string, date: Date,
              reason: string, signer: string, cdVersion: int, cdId: string, options: map<string, string>)
    | Revoke(authorized: bool, model: Option<string>, key: Key, versionString: string, date: Date,
             reason: string, signer: string, cdVersion: int)
    | Provision(authorized: bool, key: Key, versionString: string, date: Date,
                reason: string, signer: string, cdVersion: int, cdId: string, options: map<string, string>)

  datatype Error =
    | InvalidMessage | Unauthorized | NoModelVersion | VersionStringMismatch | AlreadyCertified
    | AlreadyRevoked | AlreadyProvisional | AlreadyExists | InvalidDate | InconsistentDates

  // ---- Refusals, in the order they are checked ----

  /** Checked before a message reaches the keeper: the date, and the certificate id where it has one. */
  predicate ValidBasic(m: Message) {
    m.date.time.Some? && (m.Revoke? || m.cdId != "")
  }

  function DateError(current: Date, next: Date): Option<Error> {
    if next.time.None? || current.time.None? then Some(InvalidDate)
    else if next.time.value < current.time.value then Some(InconsistentDates)
    else None
  }

  function ModelError(m: Message): Option<Error>
    requires !m.Provision?
  {
    if m.model.None? then Some(NoModelVersion)
    else if m.model.value != m.versionString then Some(VersionStringMismatch)
    else None
  }

  function StatusError(st: Ledger, m: Message): Option<Error> {
    if m.key !in st.infos then None
    else
      var info := st.infos[m.key];
      match m
      case Certify(_, _, _, _, date, _, _, _, _, _) =>
        if info.status == CERTIFIED then Some(AlreadyCertified) else DateError(info.date, date)
      case Revoke(_, _, _, _, date, _, _, _) =>
        if info.status == REVOKED then Some(AlreadyRevoked) else DateError(info.date, date)
      case Provision(_, _, _, _, _, _, _, _, _) =>
        if info.status == PROVISIONAL then Some(AlreadyProvisional)
        else if info.status == CERTIFIED then Some(AlreadyCertified)
        else if info.status == REVOKED then Some(AlreadyRevoked)
        else Some(AlreadyExists)
  }

  function Refusal(st: Ledger, m: Message): Option<Error> {
    if !ValidBasic(m) then Some(InvalidMessage)
    else if !m.authorized then Some(Unauthorized)
    else if !m.Provision? && ModelError(m).Some? then ModelError(m)
    else StatusError(st, m)
  }

  // ---- Records ----

  /** The optional text fields, by name: those the message leaves empty keep their value. */
  function Overlay(current: map<string, string>, given: map<string, string>): map<string, string> {
    map k | k in current.Keys + given.Keys ::
      if k in given && (given[k] != "" || k !in current) then given[k] else current[k]
  }

  /** The record with its present status moved to the history and a new one in its place. */
  function Superseded(info: Info, status: int, date: Date, reason: string): Info {
    info.(history := info.history + [HistoryItem(info.status, info.date, info.reason, info.cdVersion)],
          status := status, date := date, reason := reason)
  }

  function StatusAfter(m: Message): int {
    if m.Certify? then CERTIFIED else if m.Revoke? then REVOKED else PROVISIONAL
  }

  /** The record a message leaves. */
  function NewInfo(st: Ledger, m: Message): (info: Info)
    ensures info.status == StatusAfter(m)
  {
    match m
    case Certify(_, _, key, versionString, date, reason, signer, cdVersion, cdId, options) =>
      if key in st.infos then
        var info := Superseded(st.infos[key], CERTIFIED, date, reason);
        info.(cdId := cdId, options := Overlay(info.options, options))
      else
        Info(key, versionString, date, reason, signer, CERTIFIED, [], cdVersion, cdId, options)
    case Revoke(_, _, key, versionString, date, reason, signer, cdVersion) =>
      if key in st.infos then Superseded(st.infos[key], REVOKED, date, reason)
      else Info(key, versionString, date, reason, signer, REVOKED, [], cdVersion, "", map[])
    case Provision(_, key, versionString, date, reason, signer, cdVersion, cdId, options) =>
      Info(key, versionString, date, reason, signer, PROVISIONAL, [], cdVersion, cdId, options)
  }

  // ---- The index ----

  function Entries(index: map<string, seq<Info>>, id: string): seq<Info> {
    if id in index then index[id] else []
  }

  /** The lookup compares everything but the certification type. */
  predicate Matches(info: Info, key: Key, versionString: string) {
    info.key.vid == key.vid && info.key.pid == key.pid && info.key.version == key.version
    && info.versionString == versionString
  }

  /** The first matching entry, or the length if there is none. */
  function FirstMatch(es: seq<Info>, key: Key, versionString: string): (i: nat)
    ensures i <= |es| && (i < |es| ==> Matches(es[i], key, versionString))
    ensures forall j | 0 <= j < i :: !Matches(es[j], key, versionString)
  {
    if es == [] || Matches(es[0], key, versionString) then 0
    else 1 + FirstMatch(es[1..], key, versionString)
  }

  function Without<T>(s: seq<T>, i: nat): seq<T> {
    if i < |s| then s[..i] + s[i + 1..] else s
  }

  /** The index after a record with certificate id `id` was revoked: the first match goes, and so
      does an empty list. If there is no list, the empty one is written and removed under the
      empty id. */
  function Unlisted(index: map<string, seq<Info>>, id: string, key: Key, versionString: string): map<string, seq<Info>> {
    if id !in index then index - {""}
    else
      var es := Without(index[id], FirstMatch(index[id], key, versionString));
      if es == [] then index - {id} else index[id := es]
  }

  // ---- Steps and runs ----

  function Accept(st: Ledger, m: Message): Ledger {
    var k, info := m.key, NewInfo(st, m);
    var infos := st.infos[k := info];
    match m
    case Certify(_, _, _, _, _, _, _, _, cdId, _) =>
      Ledger(infos, st.certified[k := true], st.revoked[k := false], st.provisional[k := false],
             st.index[cdId := Entries(st.index, cdId) + [info]])
    case Revoke(_, _, _, versionString, _, _, _, _) =>
      if k in st.infos then
        Ledger(infos, st.certified[k := false], st.revoked[k := true], st.provisional[k := false],
               Unlisted(st.index, info.cdId, k, versionString))
      else
        st.(infos := infos, revoked := st.revoked[k := true])
    case Provision(_, _, _, _, _, _, _, _, _) =>
      st.(infos := infos, provisional := st.provisional[k := true])
  }

  /** A refused message changes nothing. */
  function Step(st: Ledger, m: Message): Ledger {
    if Refusal(st, m).Some? then st else Accept(st, m)
  }

  function Run(st: Ledger, ms: seq<Message>): Ledger
    decreases |ms|
  {
    if ms == [] then st else Run(Step(st, ms[0]), ms[1..])
  }

  const EMPTY := Ledger(map[], map[], map[], map[], map[])

  predicate IsStatus(status: int) {
    status == PROVISIONAL || status == CERTIFIED || status == REVOKED
  }

  // ---- Flags ----

  /** A flag store says of `k` what the record says: true exactly if the record has that status. */
  predicate FlagIs(flags: map<Key, bool>, k: Key, value: bool) {
    if k in flags then flags[k] == value else !value
  }

  predicate FlagsOf(st: Ledger, k: Key) {
    if k in st.infos then
      st.infos[k].key == k && IsStatus(st.infos[k].status)
      && FlagIs(st.certified, k, st.infos[k].status == CERTIFIED)
      && FlagIs(st.revoked, k, st.infos[k].status == REVOKED)
      && FlagIs(st.provisional, k, st.infos[k].status == PROVISIONAL)
    else k !in st.certified && k !in st.revoked && k !in st.provisional
  }

  ghost predicate FlagsAgree(st: Ledger) {
    forall k :: FlagsOf(st, k)
  }

  lemma KeepsKey(st: Ledger, m: Message)
    requires m.key in st.infos && st.infos[m.key].key == m.key
    ensures NewInfo(st, m).key == m.key
  {
  }

  lemma TakesKey(st: Ledger, m: Message)
    requires m.key !in st.infos
    ensures NewInfo(st, m).key == m.key
  {
  }

  lemma ProvisionFresh(st: Ledger, m: Message)
    requires Refusal(st, m).None?
    ensures m.Provision? ==> m.key !in st.infos
  {
  }

  lemma AcceptFlags(st: Ledger, m: Message, k: Key)
    requires FlagsOf(st, k) && FlagsOf(st, m.key) && Refusal(st, m).None?
    ensures FlagsOf(Accept(st, m), k)
  {
    hide *;
    if k == m.key { OwnFlags(st, m); } else { OtherFlags(st, m, k); }
  }

  lemma OwnFlags(st: Ledger, m: Message)
    requires FlagsOf(st, m.key) && Refusal(st, m).None?
    ensures FlagsOf(Accept(st, m), m.key)
  {
    ProvisionFresh(st, m);
    if m.key in st.infos { KeepsKey(st, m); } else { TakesKey(st, m); }
    hide NewInfo, Unlisted, Entries, Refusal;
  }

  lemma OtherFlags(st: Ledger, m: Message, k: Key)
    requires FlagsOf(st, k) && k != m.key
    ensures FlagsOf(Accept(st, m), k)
  {
    hide Accept, FlagIs;
    Elsewhere(st, m, k);
  }

  /** What a message leaves alone. */
  lemma Elsewhere(st: Ledger, m: Message, k: Key)
    requires k != m.key
    ensures var next := Accept(st, m);
            (k in next.infos <==> k in st.infos) && (k in st.infos ==> next.infos[k] == st.infos[k])
            && SameFlag(next.certified, st.certified, k) && SameFlag(next.revoked, st.revoked, k)
            && SameFlag(next.provisional, st.provisional, k)
  {
    hide NewInfo, Unlisted, Entries;
  }

  predicate SameFlag(a: map<Key, bool>, b: map<Key, bool>, k: Key)
    ensures SameFlag(a, b, k) ==> (k in a <==> k in b) && forall v :: FlagIs(a, k, v) == FlagIs(b, k, v)
  {
    (k in a <==> k in b) && (k in a ==> a[k] == b[k])
  }

  /** In every run at most one flag is true for a key, and it is the one its status names. */
  lemma {:induction false} EveryRunFlags(st: Ledger, ms: seq<Message>)
    requires FlagsAgree(st)
    ensures FlagsAgree(Run(st, ms))
    decreases |ms|
  {
    if ms != [] {
      var next := Step(st, ms[0]);
      forall k
        ensures FlagsOf(next, k)
      {
        assert FlagsOf(st, k) && FlagsOf(st, ms[0].key);
        if Refusal(st, ms[0]).None? { AcceptFlags(st, ms[0], k); }
      }
      EveryRunFlags(next, ms[1..]);
    }
  }

  /** What a list query answers: the keys whose flag is true. */
  function Listed(flags: map<Key, bool>): set<Key> {
    set k | k in flags && flags[k]
  }

  function WithStatus(st: Ledger, status: int): set<Key> {
    set k | k in st.infos && st.infos[k].status == status
  }

  /** After any run from the empty ledger the three lists are the keys by status, and every record is
      in one of them. */
  lemma EveryRunLists(ms: seq<Message>)
    ensures var st := Run(EMPTY, ms);
            Listed(st.certified) == WithStatus(st, CERTIFIED) && Listed(st.revoked) == WithStatus(st, REVOKED)
            && Listed(st.provisional) == WithStatus(st, PROVISIONAL)
            && st.infos.Keys == Listed(st.certified) + Listed(st.revoked) + Listed(st.provisional)
  {
    EveryRunFlags(EMPTY, ms);
    ListsByStatus(Run(EMPTY, ms));
  }

  lemma ListsByStatus(st: Ledger)
    requires FlagsAgree(st)
    ensures Listed(st.certified) == WithStatus(st, CERTIFIED) && Listed(st.revoked) == WithStatus(st, REVOKED)
    ensures Listed(st.provisional) == WithStatus(st, PROVISIONAL)
    ensures st.infos.Keys == Listed(st.certified) + Listed(st.revoked) + Listed(st.provisional)
  {
    forall k
      ensures k in Listed(st.certified) <==> k in WithStatus(st, CERTIFIED)
      ensures k in Listed(st.revoked) <==> k in WithStatus(st, REVOKED)
      ensures k in Listed(st.provisional) <==> k in WithStatus(st, PROVISIONAL)
      ensures k in st.infos ==> k in Listed(st.certified) + Listed(st.revoked) + Listed(st.provisional)
    {
      assert FlagsOf(st, k);
    }
  }

  // ---- Timelines ----

  /** The statuses a record went through, oldest first, its present one last. */
  function Timeline(info: Info): seq<HistoryItem> {
    info.history + [HistoryItem(info.status, info.date, info.reason, info.cdVersion)]
  }

  /** Every change goes to another status, never back to provisional, and never back in time. */
  predicate ChangesAllowed(t: seq<HistoryItem>) {
    (forall i | 0 <= i < |t| :: t[i].date.time.Some? && IsStatus(t[i].status)) &&
    (forall i | 0 < i < |t| :: t[i - 1].status != t[i].status && t[i].status != PROVISIONAL
                               && t[i - 1].date.time.value <= t[i].date.time.value)
  }

  predicate TimelineOf(st: Ledger, k: Key) {
    k in st.infos ==> ChangesAllowed(Timeline(st.infos[k]))
  }

  ghost predicate TimelinesAllowed(st: Ledger) {
    forall k :: TimelineOf(st, k)
  }

  lemma AcceptTimeline(st: Ledger, m: Message)
    requires TimelineOf(st, m.key) && Refusal(st, m).None?
    ensures TimelineOf(Accept(st, m), m.key)
    ensures m.key in st.infos ==> Timeline(st.infos[m.key]) == Accept(st, m).infos[m.key].history
  {
    hide Unlisted, Entries, Overlay, ModelError;
    if m.key in st.infos {
      TimelineGrows(st.infos[m.key], StatusAfter(m), m.date, m.reason);
    }
  }

  lemma TimelineGrows(info: Info, status: int, date: Date, reason: string)
    requires ChangesAllowed(Timeline(info)) && DateError(info.date, date).None?
    requires status != info.status && status in {CERTIFIED, REVOKED}
    ensures ChangesAllowed(Timeline(Superseded(info, status, date, reason)))
  {
    var t, t' := Timeline(info), Timeline(Superseded(info, status, date, reason));
    assert t' == t + [HistoryItem(status, date, reason, info.cdVersion)];
    assert t[|t| - 1].status == info.status && t[|t| - 1].date == info.date;
  }

  /** In every run the statuses a record goes through never repeat in a row, never go back to
      provisional and never go back in time. */
  lemma {:induction false} EveryRunTimelines(st: Ledger, ms: seq<Message>)
    requires TimelinesAllowed(st)
    ensures TimelinesAllowed(Run(st, ms))
    decreases |ms|
  {
    if ms != [] {
      var m, next := ms[0], Step(st, ms[0]);
      assert TimelineOf(st, m.key);
      if Refusal(st, m).None? { AcceptTimeline(st, m); }
      forall k
        ensures TimelineOf(next, k)
      {
        assert TimelineOf(st, k);
      }
      EveryRunTimelines(next, ms[1..]);
    }
  }

  lemma StepTimeline(st: Ledger, m: Message, k: Key)
    requires k in st.infos && TimelinesAllowed(st)
    ensures var next := Step(st, m);
            k in next.infos && Timeline(st.infos[k]) <= Timeline(next.infos[k])
  {
    hide Accept, Timeline;
    assert TimelineOf(st, m.key);
    if Refusal(st, m).None? {
      AcceptHas(st, m);
      if k == m.key {
        AcceptTimeline(st, m);
        HistoryFirst(Accept(st, m).infos[k]);
      } else {
        Elsewhere(st, m, k);
      }
    }
  }

  lemma AcceptHas(st: Ledger, m: Message)
    ensures m.key in Accept(st, m).infos
  {
  }

  lemma HistoryFirst(info: Info)
    ensures info.history <= Timeline(info)
  {
  }

  /** In every run a record stays, and the statuses it has gone through at one point are the first
      ones it has gone through at any later point: its history is exactly its earlier statuses. */
  lemma {:induction false} EveryRunHistory(st: Ledger, ms: seq<Message>, k: Key)
    requires k in st.infos && TimelinesAllowed(st)
    ensures var later := Run(st, ms);
            k in later.infos && Timeline(st.infos[k]) <= Timeline(later.infos[k])
    decreases |ms|
  {
    hide Step, Timeline, TimelinesAllowed;
    if ms != [] {
      StepTimeline(st, ms[0], k);
      EveryRunTimelines(st, [ms[0]]);
      OneStep(st, ms[0]);
      EveryRunHistory(Step(st, ms[0]), ms[1..], k);
    }
  }

  lemma OneStep(st: Ledger, m: Message)
    ensures Run(st, [m]) == Step(st, m)
  {
    hide Step;
    assert [m][1..] == [];
    assert Run(st, [m]) == Run(Step(st, m), []);
  }

  // ---- Optional fields ----

  /** The record of `k` has a text in field `f`. */
  predicate HasOption(st: Ledger, k: Key, f: string) {
    k in st.infos && f in st.infos[k].options && st.infos[k].options[f] != ""
  }

  lemma AcceptOption(st: Ledger, m: Message, k: Key, f: string)
    requires Refusal(st, m).None? && HasOption(st, k, f)
    ensures HasOption(Accept(st, m), k, f)
    ensures Accept(st, m).infos[k].options[f] != st.infos[k].options[f] ==>
              m.Certify? && m.key == k && f in m.options && m.options[f] == Accept(st, m).infos[k].options[f]
  {
    hide Unlisted, Entries, ModelError, DateError, ValidBasic;
  }

  /** In every run a field of a record that has a text keeps one. */
  lemma {:induction false} EveryRunOptions(st: Ledger, ms: seq<Message>, k: Key, f: string)
    requires HasOption(st, k, f)
    ensures HasOption(Run(st, ms), k, f)
    decreases |ms|
  {
    hide HasOption, Accept;
    if ms != [] {
      if Refusal(st, ms[0]).None? { AcceptOption(st, ms[0], k, f); }
      EveryRunOptions(Step(st, ms[0]), ms[1..], k, f);
    }
  }

  // ---- The index against the records ----

  /** An entry of the list under `id` is a certified record with that id. */
  predicate EntryExact(st: Ledger, id: string, e: Info) {
    e.key in st.infos && st.infos[e.key] == e && e.status == CERTIFIED && e.cdId == id
  }

  predicate NoneTwice(es: seq<Info>) {
    forall i, j | 0 <= i < j < |es| :: es[i].key != es[j].key
  }

  /** The list under `id` holds exactly the certified records with that id, each once, and there
      is a list only if there is such a record. */
  ghost predicate ListExact(st: Ledger, id: string) {
    var es := Entries(st.index, id);
    (forall e | e in es :: EntryExact(st, id, e)) && NoneTwice(es) && (id in st.index ==> es != []) &&
    (forall k | k in st.infos && st.infos[k].status == CERTIFIED && st.infos[k].cdId == id :: st.infos[k] in es)
  }

  ghost predicate IndexExact(st: Ledger) {
    forall id :: ListExact(st, id)
  }

  /** Records are stored under their own key, and certified ones have an id. */
  predicate RecordsKeyed(st: Ledger) {
    forall k | k in st.infos :: st.infos[k].key == k && (st.infos[k].status == CERTIFIED ==> st.infos[k].cdId != "")
  }

  /** The key of the entry that revoking `m.key` takes out of the index. */
  function Target(st: Ledger, m: Message): Option<Key>
    requires m.Revoke? && m.key in st.infos
  {
    var es := Entries(st.index, st.infos[m.key].cdId);
    var i := FirstMatch(es, m.key, m.versionString);
    if i < |es| then Some(es[i].key) else None
  }

  /** The message takes out its own entry if it has one, and otherwise none. */
  predicate Clean(st: Ledger, m: Message) {
    m.Revoke? && m.key in st.infos && Refusal(st, m).None? ==>
      Target(st, m) == if st.infos[m.key].status == CERTIFIED then Some(m.key) else None
  }

  lemma StepKeyed(st: Ledger, m: Message)
    requires RecordsKeyed(st)
    ensures RecordsKeyed(Step(st, m))
  {
    hide Unlisted, Entries, Overlay, ModelError, DateError;
  }

  /** Certifying always keeps the index exact. */
  lemma CertifyExact(st: Ledger, m: Message, id: string)
    requires RecordsKeyed(st) && m.Certify? && Refusal(st, m).None?
    requires ListExact(st, id)
    ensures ListExact(Accept(st, m), id)
  {
    hide NewInfo, ModelError, DateError, ValidBasic;
    var next, info := Accept(st, m), NewInfo(st, m);
    CertifiedInfo(st, m);
    var es := Entries(st.index, id);
    assert forall e | e in es :: EntryExact(st, id, e) && e.key != m.key;
    assert Entries(next.index, id) == if id == m.cdId then es + [info] else es;
    forall e | e in es
      ensures EntryExact(next, id, e)
    {
      assert EntryExact(st, id, e);
    }
  }

  lemma CertifiedInfo(st: Ledger, m: Message)
    requires RecordsKeyed(st) && m.Certify?
    ensures NewInfo(st, m).key == m.key && NewInfo(st, m).cdId == m.cdId && NewInfo(st, m).status == CERTIFIED
  {
  }

  /** A message that touches no list, on a key that is not certified before or after, keeps it. */
  lemma UntouchedExact(st: Ledger, m: Message, id: string)
    requires RecordsKeyed(st) && Refusal(st, m).None? && ListExact(st, id)
    requires m.Provision? || (m.Revoke? && m.key !in st.infos)
    ensures ListExact(Accept(st, m), id)
  {
    hide NewInfo, ModelError, DateError, ValidBasic;
    var next := Accept(st, m);
    forall e | e in Entries(st.index, id)
      ensures EntryExact(next, id, e)
    {
      assert EntryExact(st, id, e);
    }
  }

  lemma WithoutMembers(es: seq<Info>, i: nat)
    requires i < |es| && NoneTwice(es)
    ensures NoneTwice(Without(es, i)) && es[i] !in Without(es, i)
    ensures forall e :: e in Without(es, i) <==> e in es && e.key != es[i].key
  {
    var r := Without(es, i);
    assert forall j | 0 <= j < |r| :: r[j] == es[if j < i then j else j + 1];
    forall e | e in es && e.key != es[i].key
      ensures e in r
    {
      var j :| 0 <= j < |es| && es[j] == e;
      assert r[if j < i then j else j - 1] == e;
    }
    forall e | e in r
      ensures e in es && e.key != es[i].key
    {
      var j :| 0 <= j < |r| && r[j] == e;
      assert e == es[if j < i then j else j + 1];
    }
  }

  /** A clean revocation keeps the list of every id exact. */
  lemma RevokeExact(st: Ledger, m: Message, id: string)
    requires RecordsKeyed(st) && m.Revoke? && m.key in st.infos && Refusal(st, m).None? && Clean(st, m)
    requires ListExact(st, id) && ListExact(st, "") && ListExact(st, st.infos[m.key].cdId)
    ensures ListExact(Accept(st, m), id)
  {
    hide FirstMatch, ModelError, DateError, ValidBasic, Without;
    var info, next := st.infos[m.key], Accept(st, m);
    var own, es, es' := Entries(st.index, info.cdId), Entries(st.index, id), Entries(next.index, id);
    NoEmptyId(st);
    assert forall e | e in es :: EntryExact(st, id, e);
    var i := FirstMatch(own, m.key, m.versionString);
    if id == info.cdId && i < |own| {
      WithoutMembers(own, i);
    } else {
      WithoutNone(own, i);
      assert es' == es;
    }
    forall e | e in es'
      ensures EntryExact(next, id, e)
    {
      assert EntryExact(st, id, e);
    }
  }

  lemma WithoutNone<T>(s: seq<T>, i: nat)
    ensures i >= |s| ==> Without(s, i) == s
  {
  }

  lemma FirstEntry(st: Ledger, id: string)
    requires ListExact(st, id) && id in st.index
    ensures exists k :: k in st.infos && st.infos[k].status == CERTIFIED && st.infos[k].cdId == id
  {
    var e := st.index[id][0];
    assert e in Entries(st.index, id);
    assert EntryExact(st, id, e);
  }

  lemma NoEmptyId(st: Ledger)
    requires RecordsKeyed(st) && ListExact(st, "")
    ensures "" !in st.index
  {
    if "" in st.index { FirstEntry(st, ""); }
  }

  /** A revocation that is not clean never does: it leaves its own entry behind, or takes out that
      of a record which is still certified. */
  lemma RevokeBreaks(st: Ledger, m: Message)
    requires RecordsKeyed(st) && m.Revoke? && m.key in st.infos && Refusal(st, m).None? && !Clean(st, m)
    requires ListExact(st, st.infos[m.key].cdId)
    ensures !ListExact(Accept(st, m), st.infos[m.key].cdId)
  {
    hide FirstMatch, ModelError, DateError, ValidBasic, Without;
    var info, next := st.infos[m.key], Accept(st, m);
    var own := Entries(st.index, info.cdId);
    assert forall e | e in own :: EntryExact(st, info.cdId, e);
    var i := FirstMatch(own, m.key, m.versionString);
    if i < |own| {
      WithoutMembers(own, i);
      assert own[i] in own && own[i].key != m.key;
    } else {
      WithoutNone(own, i);
    }
    if info.status == CERTIFIED {
      assert info in Entries(next.index, info.cdId) && next.infos[m.key] != info;
    } else {
      assert next.infos[own[i].key] == own[i];
    }
  }

  /** One step keeps the index exact if and only if it is clean. */
  lemma StepExact(st: Ledger, m: Message)
    requires RecordsKeyed(st) && IndexExact(st)
    ensures IndexExact(Step(st, m)) <==> Clean(st, m)
  {
    hide ListExact, Clean, Accept, Refusal;
    if Refusal(st, m).None? {
      if m.Revoke? && m.key in st.infos {
        if Clean(st, m) {
          forall id ensures ListExact(Accept(st, m), id) { RevokeExact(st, m, id); }
        } else {
          RevokeBreaks(st, m);
        }
      } else {
        AlwaysClean(st, m);
        forall id
          ensures ListExact(Accept(st, m), id)
        {
          if m.Certify? { CertifyExact(st, m, id); } else { UntouchedExact(st, m, id); }
        }
      }
    } else {
      AlwaysClean(st, m);
    }
  }

  lemma AlwaysClean(st: Ledger, m: Message)
    ensures Refusal(st, m).Some? || !m.Revoke? || m.key !in st.infos ==> Clean(st, m)
  {
  }

  /** The index is exact at the start and after every message of the run. */
  ghost predicate AlwaysExact(st: Ledger, ms: seq<Message>)
    decreases |ms|
  {
    IndexExact(st) && (ms != [] ==> AlwaysExact(Step(st, ms[0]), ms[1..]))
  }

  predicate AllClean(st: Ledger, ms: seq<Message>)
    decreases |ms|
  {
    ms != [] ==> Clean(st, ms[0]) && AllClean(Step(st, ms[0]), ms[1..])
  }

  /** Over any run the index stays exact if and only if every revocation in it is clean. */
  lemma {:induction false} EveryRunIndex(st: Ledger, ms: seq<Message>)
    requires RecordsKeyed(st) && IndexExact(st)
    ensures AlwaysExact(st, ms) <==> AllClean(st, ms)
    decreases |ms|
  {
    hide IndexExact, RecordsKeyed, Clean, Step;
    if ms != [] {
      StepKeyed(st, ms[0]);
      StepExact(st, ms[0]);
      if Clean(st, ms[0]) {
        EveryRunIndex(Step(st, ms[0]), ms[1..]);
      } else {
        NotExactNow(Step(st, ms[0]), ms[1..]);
      }
    }
  }

  lemma NotExactNow(st: Ledger, ms: seq<Message>)
    requires !IndexExact(st)
    ensures !AlwaysExact(st, ms)
  {
  }

  /** The start of the ledger. */
  lemma EmptyIsExact()
    ensures RecordsKeyed(EMPTY) && IndexExact(EMPTY) && FlagsAgree(EMPTY) && TimelinesAllowed(EMPTY)
  {
  }
}
