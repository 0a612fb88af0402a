/**
  * The compliance keeper: the stores and the three message handlers that change them.
  */
module ComplianceKeeper {
  import opened Options
  import opened Compliance
  import opened ComplianceRecords

  class Keeper {
    var infos: map<Key, Info>
    var certified: map<Key, bool>
    var revoked: map<Key, bool>
    var provisional: map<Key, bool>
    var index: map<string, seq<Info>>

    function State(): Ledger
      reads this
    {
      Ledger(infos, certified, revoked, provisional, index)
    }

    constructor ()
      ensures State() == EMPTY
    {
      infos, index := map[], map[];
      certified, revoked, provisional := map[], map[], map[];
    }

    method CertifyModel(m: Message) returns (error: Option<Error>)
      requires m.Certify?
      modifies this
      ensures error == Refusal(old(State()), m) && State() == Step(old(State()), m)
    {
      if !ValidBasic(m) { return Some(InvalidMessage); }
      if !m.authorized { return Some(Unauthorized); }
      if m.model == None { return Some(NoModelVersion); }
      if m.model.value != m.versionString { return Some(VersionStringMismatch); }
      var info: Info;
      if m.key in infos {
        info := infos[m.key];
        if info.status == CERTIFIED { return Some(AlreadyCertified); }
        error := DateError(info.date, m.date);
        if error != None { return; }
        info := Superseded(info, CERTIFIED, m.date, m.reason).(cdId := m.cdId);
        info := info.(options := Overlay(info.options, m.options));
      } else {
        info := Info(m.key, m.versionString, m.date, m.reason, m.signer, CERTIFIED, [], m.cdVersion, m.cdId, m.options);
      }
      infos := infos[m.key := info];
      index := index[m.cdId := Entries(index, m.cdId) + [info]];
      certified := certified[m.key := true];
      revoked := revoked[m.key := false];
      provisional := provisional[m.key := false];
      return None;
    }

    /** The position of the first matching entry of a list. */
    static method FindEntry(es: seq<Info>, key: Key, versionString: string) returns (i: nat, found: bool)
      ensures i == FirstMatch(es, key, versionString) && found == (i < |es|)
    {
      i := 0;
      while i < |es|
        invariant i <= |es| && forall j | 0 <= j < i :: !Matches(es[j], key, versionString)
      {
        if Matches(es[i], key, versionString) { return i, true; }
        i := i + 1;
      }
      return i, false;
    }

    method RevokeModel(m: Message) returns (error: Option<Error>)
      requires m.Revoke?
      modifies this
      ensures error == Refusal(old(State()), m) && State() == Step(old(State()), m)
    {
      if !ValidBasic(m) { return Some(InvalidMessage); }
      if !m.authorized { return Some(Unauthorized); }
      if m.model == None { return Some(NoModelVersion); }
      if m.model.value != m.versionString { return Some(VersionStringMismatch); }
      var info: Info;
      if m.key in infos {
        info := infos[m.key];
        if info.status == REVOKED { return Some(AlreadyRevoked); }
        error := DateError(info.date, m.date);
        if error != None { return; }
        info := Superseded(info, REVOKED, m.date, m.reason);
        RemoveEntry(info.cdId, m.key, m.versionString);
        certified := certified[m.key := false];
        provisional := provisional[m.key := false];
      } else {
        info := Info(m.key, m.versionString, m.date, m.reason, m.signer, REVOKED, [], m.cdVersion, "", map[]);
      }
      infos := infos[m.key := info];
      revoked := revoked[m.key := true];
      return None;
    }

    /** Reads the list under `id` (the zero value, with the empty id, if there is none), takes the
        first match out, writes the list back, and removes it if it is empty. */
    method RemoveEntry(id: string, key: Key, versionString: string)
      modifies this`index
      ensures index == Unlisted(old(index), id, key, versionString)
    {
      var listId, es := "", [];
      if id in index {
        listId, es := id, index[id];
        var i, found := FindEntry(es, key, versionString);
        if found {
          es := es[..i] + es[i + 1..];
        }
      }
      index := index[listId := es];
      if |es| == 0 {
        index := index - {listId};
      }
    }

    method ProvisionModel(m: Message) returns (error: Option<Error>)
      requires m.Provision?
      modifies this
      ensures error == Refusal(old(State()), m) && State() == Step(old(State()), m)
    {
      if !ValidBasic(m) { return Some(InvalidMessage); }
      if !m.authorized { return Some(Unauthorized); }
      if m.key in infos {
        var status := infos[m.key].status;
        if status == PROVISIONAL { return Some(AlreadyProvisional); }
        if status == CERTIFIED { return Some(AlreadyCertified); }
        if status == REVOKED { return Some(AlreadyRevoked); }
        return Some(AlreadyExists);
      }
      var info := Info(m.key, m.versionString, m.date, m.reason, m.signer, PROVISIONAL, [], m.cdVersion, m.cdId, m.options);
      infos := infos[m.key := info];
      provisional := provisional[m.key := true];
      return None;
    }

    method Handle(m: Message) returns (error: Option<Error>)
      modifies this
      ensures error == Refusal(old(State()), m) && State() == Step(old(State()), m)
    {
      match m
      case Certify(_, _, _, _, _, _, _, _, _, _) => error := CertifyModel(m);
      case Revoke(_, _, _, _, _, _, _, _) => error := RevokeModel(m);
      case Provision(_, _, _, _, _, _, _, _, _) => error := ProvisionModel(m);
    }
  }

  /** Any run of the handlers from an empty store: the flags name the statuses, the histories are in
      order, every record is made by the messages accepted for it, and the index was exact throughout if
      and only if every revocation was clean. */
  method Replay(ms: seq<Message>) returns (keeper: Keeper)
    ensures fresh(keeper) && keeper.State() == Run(EMPTY, ms)
    ensures FlagsAgree(keeper.State()) && TimelinesAllowed(keeper.State())
    ensures AlwaysExact(EMPTY, ms) <==> AllClean(EMPTY, ms)
    ensures forall k :: RecordOf(keeper.State(), k, Accepted(ms, k))
  {
    hide *;
    keeper := new Keeper();
    var i := 0;
    assert ms[0..] == ms;
    while i < |ms|
      invariant 0 <= i <= |ms| && fresh(keeper) && Run(keeper.State(), ms[i..]) == Run(EMPTY, ms)
    {
      RunNext(keeper.State(), ms, i);
      var _ := keeper.Handle(ms[i]);
      i := i + 1;
    }
    RunDone(keeper.State(), ms[i..]);
    EmptyIsExact();
    EveryRunFlags(EMPTY, ms);
    EveryRunTimelines(EMPTY, ms);
    EveryRunIndex(EMPTY, ms);
    forall k ensures RecordOf(Run(EMPTY, ms), k, Accepted(ms, k)) { EveryRunRecords(ms, k); }
  }

  lemma RunNext(st: Ledger, ms: seq<Message>, i: nat)
    requires i < |ms|
    ensures Run(st, ms[i..]) == Run(Step(st, ms[i]), ms[i + 1..])
  {
    hide Step;
    assert ms[i..][1..] == ms[i + 1..];
  }

  lemma RunDone(st: Ledger, ms: seq<Message>)
    requires ms == []
    ensures Run(st, ms) == st
  {
  }
}
