/**
  * Runs of the compliance messages: those on which the index stays exact, and the shortest ones
  * on which it does not.
  */
module ComplianceRuns {
  import opened Options
  import opened Compliance

  // ---- Runs with one version string and one certification type per model version ----

  type Naming = Key -> (string, string)

  /** The version string and the certification type depend on the model version alone. */
  predicate Named(name: Naming, key: Key, versionString: string) {
    name(key.(kind := "")) == (versionString, key.kind)
  }

  predicate Uniform(name: Naming, st: Ledger) {
    forall k | k in st.infos :: Named(name, k, st.infos[k].versionString)
  }

  lemma UniformStep(name: Naming, st: Ledger, m: Message)
    requires Uniform(name, st) && Named(name, m.key, m.versionString)
    ensures Uniform(name, Step(st, m))
  {
    hide Unlisted, Entries, Overlay, Refusal, Named;
  }

  lemma UniformMatch(name: Naming, info: Info, m: Message)
    requires Named(name, info.key, info.versionString) && Named(name, m.key, m.versionString)
    ensures Matches(info, m.key, m.versionString) <==> info.key == m.key
  {
    if Matches(info, m.key, m.versionString) {
      assert info.key.(kind := "") == m.key.(kind := "");
    }
  }

  lemma UniformIsClean(name: Naming, st: Ledger, m: Message)
    requires Uniform(name, st) && Named(name, m.key, m.versionString)
    requires RecordsKeyed(st) && IndexExact(st)
    ensures Clean(st, m)
  {
    hide Named, Matches, FirstMatch, Refusal;
    if m.Revoke? && m.key in st.infos {
      var info := st.infos[m.key];
      assert ListExact(st, info.cdId);
      var es := Entries(st.index, info.cdId);
      forall i | 0 <= i < |es|
        ensures Matches(es[i], m.key, m.versionString) <==> es[i].key == m.key
        ensures es[i].key == m.key ==> info.status == CERTIFIED
      {
        assert es[i] in es;
        assert EntryExact(st, info.cdId, es[i]);
        UniformMatch(name, es[i], m);
      }
      if info.status == CERTIFIED {
        assert info in es;
        var i :| 0 <= i < |es| && es[i] == info;
        assert FirstMatch(es, m.key, m.versionString) <= i;
      }
    }
  }

  /** If every model version is only ever certified, revoked or provisioned under one certification
      type and one version string, the index is exact after every message, from the empty ledger on. */
  lemma {:induction false} UniformRun(name: Naming, st: Ledger, ms: seq<Message>)
    requires forall i | 0 <= i < |ms| :: Named(name, ms[i].key, ms[i].versionString)
    requires Uniform(name, st) && RecordsKeyed(st) && IndexExact(st)
    ensures AlwaysExact(st, ms)
    decreases |ms|
  {
    hide Named, Uniform, IndexExact, RecordsKeyed, Step;
    if ms != [] {
      var m := ms[0];
      assert Named(name, m.key, m.versionString);
      UniformIsClean(name, st, m);
      UniformStep(name, st, m);
      StepKeyed(st, m);
      StepExact(st, m);
      UniformRun(name, Step(st, m), ms[1..]);
    }
  }

  // ---- Runs that leave the index wrong ----

  const DAY := Date("2020-01-01T00:00:00Z", Some(0))
  const ZIGBEE := Key(1, 1, 1, "zigbee")
  const MATTER := Key(1, 1, 1, "matter")

  function CertifyOf(key: Key): Message {
    Certify(true, Some("1.0"), key, "1.0", DAY, "", "center", 0, "id", map[])
  }

  function RevokeOf(key: Key): Message {
    Revoke(true, Some("1.0"), key, "1.0", DAY, "", "center", 0)
  }

  function ProvisionOf(key: Key, versionString: string): Message {
    Provision(true, key, versionString, DAY, "", "center", 0, "id", map[])
  }

  lemma RunOfThree(st: Ledger, a: Message, b: Message, c: Message)
    ensures Run(st, [a, b, c]) == Step(Step(Step(st, a), b), c)
  {
    hide Step;
    var s1, s2 := Step(st, a), Step(Step(st, a), b);
    assert [a, b, c][1..] == [b, c] && [b, c][1..] == [c] && [c][1..] == [];
    assert Run(st, [a, b, c]) == Run(s1, [b, c]);
    assert Run(s1, [b, c]) == Run(s2, [c]);
    assert Run(s2, [c]) == Run(Step(s2, c), []);
  }

  /** The record a first certification makes, and one that was provisional before. */
  function Fresh(key: Key): Info {
    Info(key, "1.0", DAY, "", "center", CERTIFIED, [], 0, "id", map[])
  }

  function AfterProvision(key: Key, versionString: string): Info {
    Info(key, versionString, DAY, "", "center", CERTIFIED, [HistoryItem(PROVISIONAL, DAY, "", 0)], 0, "id", map[])
  }

  lemma CertifyFresh(st: Ledger, key: Key)
    requires key !in st.infos
    ensures var next := Step(st, CertifyOf(key));
            next.infos == st.infos[key := Fresh(key)]
            && next.index == st.index["id" := Entries(st.index, "id") + [Fresh(key)]]
  {
  }

  lemma ProvisionFirst(st: Ledger, key: Key, versionString: string)
    requires key !in st.infos
    ensures var next := Step(st, ProvisionOf(key, versionString));
            next.infos == st.infos[key := Info(key, versionString, DAY, "", "center", PROVISIONAL, [], 0, "id", map[])]
            && next.index == st.index
  {
  }

  lemma CertifyProvisional(st: Ledger, key: Key, versionString: string)
    requires key in st.infos
    requires st.infos[key] == Info(key, versionString, DAY, "", "center", PROVISIONAL, [], 0, "id", map[])
    ensures var next := Step(st, CertifyOf(key));
            next.infos == st.infos[key := AfterProvision(key, versionString)]
            && next.index == st.index["id" := Entries(st.index, "id") + [AfterProvision(key, versionString)]]
  {
    assert Overlay(map[], map[]) == map[];
    assert NewInfo(st, CertifyOf(key)) == AfterProvision(key, versionString);
  }

  /** What revoking does to the list under "id". */
  lemma RevokeIn(st: Ledger, key: Key)
    requires key in st.infos && st.infos[key].date == DAY && st.infos[key].cdId == "id" && st.infos[key].status != REVOKED
    ensures var next := Step(st, RevokeOf(key));
            key in next.infos && next.infos[key].status == REVOKED
            && next.infos == st.infos[key := next.infos[key]] && next.index == Unlisted(st.index, "id", key, "1.0")
  {
    hide Unlisted;
  }

  /** Revoking one of two certification types under the same id takes out the entry of the other. */
  lemma OtherTypeTakenOut()
    ensures var st := Run(EMPTY, [CertifyOf(ZIGBEE), CertifyOf(MATTER), RevokeOf(MATTER)]);
            !IndexExact(st) && ZIGBEE in st.infos && st.infos[ZIGBEE].status == CERTIFIED
            && st.infos[ZIGBEE] !in Entries(st.index, "id")
  {
    hide Step;
    var a, b, c := CertifyOf(ZIGBEE), CertifyOf(MATTER), RevokeOf(MATTER);
    var s1 := Step(EMPTY, a);
    CertifyFresh(EMPTY, ZIGBEE);
    var s2 := Step(s1, b);
    CertifyFresh(s1, MATTER);
    assert s2.index["id"] == [Fresh(ZIGBEE), Fresh(MATTER)];
    var s3 := Step(s2, c);
    RevokeIn(s2, MATTER);
    assert Entries(s3.index, "id") == [Fresh(MATTER)];
    RunOfThree(EMPTY, a, b, c);
    assert s3.infos[ZIGBEE] == Fresh(ZIGBEE) && Fresh(ZIGBEE) !in Entries(s3.index, "id");
    assert !ListExact(s3, "id");
  }

  /** So does revoking a record that was only provisional. */
  lemma ProvisionalTakesOut()
    ensures var st := Run(EMPTY, [ProvisionOf(MATTER, "1.0"), CertifyOf(ZIGBEE), RevokeOf(MATTER)]);
            !IndexExact(st) && ZIGBEE in st.infos && st.infos[ZIGBEE].status == CERTIFIED && "id" !in st.index
  {
    hide Step;
    var a, b, c := ProvisionOf(MATTER, "1.0"), CertifyOf(ZIGBEE), RevokeOf(MATTER);
    var s1 := Step(EMPTY, a);
    ProvisionFirst(EMPTY, MATTER, "1.0");
    var s2 := Step(s1, b);
    CertifyFresh(s1, ZIGBEE);
    assert s2.index["id"] == [Fresh(ZIGBEE)];
    RevokeIn(s2, MATTER);
    RunOfThree(EMPTY, a, b, c);
    var s3 := Step(s2, c);
    assert s3.infos[ZIGBEE] == Fresh(ZIGBEE) && Entries(s3.index, "id") == [];
    assert !ListExact(s3, "id");
  }

  /** Provisioning does not compare the version string with the model version; an entry made from
      such a record is never taken out. */
  lemma OwnEntryLeftBehind()
    ensures var st := Run(EMPTY, [ProvisionOf(ZIGBEE, "0.9"), CertifyOf(ZIGBEE), RevokeOf(ZIGBEE)]);
            !IndexExact(st) && ZIGBEE in st.infos && st.infos[ZIGBEE].status == REVOKED && Entries(st.index, "id") != []
  {
    hide Step;
    var a, b, c := ProvisionOf(ZIGBEE, "0.9"), CertifyOf(ZIGBEE), RevokeOf(ZIGBEE);
    var s1 := Step(EMPTY, a);
    ProvisionFirst(EMPTY, ZIGBEE, "0.9");
    var s2 := Step(s1, b);
    CertifyProvisional(s1, ZIGBEE, "0.9");
    var e := AfterProvision(ZIGBEE, "0.9");
    assert s2.index["id"] == [e];
    var s3 := Step(s2, c);
    RevokeIn(s2, ZIGBEE);
    assert Entries(s3.index, "id") == [e];
    RunOfThree(EMPTY, a, b, c);
    assert e in Entries(s3.index, "id") && !EntryExact(s3, "id", e);
    assert !ListExact(s3, "id");
  }
}
