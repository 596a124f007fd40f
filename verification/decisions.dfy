/**
 The append-only log of review decisions and its four views: the live records of each site key, the
 decision in effect, the restored keys, and the restored keys not yet decided.
 */
module Decisions {
  import opened Sequences

  datatype State =
    | Confirmed | Ignored | FalsePositive | TechDebtNow | TechDebtLater | MergedInto(target: string) | EngineRestored

  datatype Scope = Site | Node(node: string)

  datatype SampleVerdict = Duplicate(of: string) | FalseAlarm | Fine

  /** The columns no view reads. */
  datatype Details = Details(decidedBy: string, decidedAt: string, runId: string, engineVersion: string,
                             neededMe: Option<bool>, sampleVerdict: Option<SampleVerdict>)

  datatype Decision = Decision(id: string, key: string, state: State, reason: string, scope: Scope,
                               appliesTo: seq<string>, leftOut: seq<string>, inheritedFrom: Option<string>,
                               details: Details, revokedAt: Option<string>)
  {
    predicate IsActive() { revokedAt.None? }

    predicate IsNodeRecord() { scope.Node? }
  }

  type Log = seq<Decision>

  // ---- The live records ----

  /** The members each live group record covers; of two records with one id the later one counts. */
  function Groups(log: Log): map<string, set<string>>
  {
    if log == [] then map[]
    else
      var before, d := Groups(log[..|log| - 1]), log[|log| - 1];
      if d.IsActive() && d.IsNodeRecord() then before[d.id := set key | key in d.appliesTo] else before
  }

  predicate IsLive(groups: map<string, set<string>>, d: Decision)
  {
    && d.IsActive() && !d.IsNodeRecord()
    && (d.inheritedFrom.Some? ==> d.inheritedFrom.value in groups && d.key in groups[d.inheritedFrom.value])
  }

  /** The records that are live under `groups` and carry `key`, oldest first. */
  function LiveUnder(log: Log, groups: map<string, set<string>>, key: string): seq<Decision>
  {
    if log == [] then []
    else
      var before, d := LiveUnder(log[..|log| - 1], groups, key), log[|log| - 1];
      if IsLive(groups, d) && d.key == key then before + [d] else before
  }

  function LiveRecords(log: Log, key: string): seq<Decision>
  {
    LiveUnder(log, Groups(log), key)
  }

  function LiveKeys(log: Log): set<string>
  {
    set d | d in log && IsLive(Groups(log), d) :: d.key
  }

  // ---- The views ----

  lemma {:induction false} LiveUnderHolds(log: Log, groups: map<string, set<string>>, key: string)
    ensures forall d :: d in LiveUnder(log, groups, key) <==> d in log && IsLive(groups, d) && d.key == key
  {
    hide IsLive;
    if log != [] {
      LiveUnderHolds(log[..|log| - 1], groups, key);
      assert log == log[..|log| - 1] + [log[|log| - 1]];
    }
  }

  /** A key has live records exactly when some live record carries it. */
  lemma LiveKeysHaveRecords(log: Log)
    ensures forall key :: key in LiveKeys(log) <==> LiveRecords(log, key) != []
  {
    hide IsLive;
    forall key ensures key in LiveKeys(log) <==> LiveRecords(log, key) != [] {
      LiveUnderHolds(log, Groups(log), key);
      if LiveRecords(log, key) != [] { assert LiveRecords(log, key)[0] in LiveRecords(log, key); }
    }
  }

  /** `latest_by_key`. */
  function LatestByKey(log: Log): map<string, Decision>
  {
    LiveKeysHaveRecords(log);
    map key | key in LiveKeys(log) :: LiveRecords(log, key)[|LiveRecords(log, key)| - 1]
  }

  /** `effective_by_key`: the keys whose latest live record decides something. */
  function EffectiveByKey(log: Log): map<string, Decision>
  {
    map key | key in LatestByKey(log) && LatestByKey(log)[key].state != EngineRestored :: LatestByKey(log)[key]
  }

  /** `restored_undecided_keys`. */
  function RestoredUndecidedKeys(log: Log): set<string>
  {
    set key | key in LatestByKey(log) && LatestByKey(log)[key].state == EngineRestored
  }

  /** `restored_keys`. */
  function RestoredKeys(log: Log): set<string>
  {
    set key | key in LiveKeys(log) && exists d :: d in LiveRecords(log, key) && d.state == EngineRestored
  }

  lemma Snoc(log: Log, n: nat)
    requires n < |log|
    ensures log[..n + 1] == log[..n] + [log[n]]
    ensures log[..n + 1][..|log[..n + 1]| - 1] == log[..n] && log[..n + 1][|log[..n + 1]| - 1] == log[n]
  {
  }

  lemma LiveUnderStep(log: Log, n: nat, groups: map<string, set<string>>)
    requires n < |log|
    ensures forall key :: LiveUnder(log[..n + 1], groups, key) ==
                          LiveUnder(log[..n], groups, key) +
                          (if IsLive(groups, log[n]) && log[n].key == key then [log[n]] else [])
  {
    hide IsLive;
    Snoc(log, n);
  }

  /** The live records, as the program files them. */
  method LiveByKey(log: Log) returns (byKey: map<string, seq<Decision>>)
    ensures forall key :: key in byKey <==> LiveRecords(log, key) != []
    ensures forall key :: key in byKey ==> byKey[key] == LiveRecords(log, key)
  {
    hide IsLive;
    var groups := map[];
    for n := 0 to |log|
      invariant groups == Groups(log[..n])
    {
      Snoc(log, n);
      var d := log[n];
      if d.IsActive() && d.IsNodeRecord() { groups := groups[d.id := set key | key in d.appliesTo]; }
    }
    byKey := map[];
    for n := 0 to |log|
      invariant forall key :: (if key in byKey then byKey[key] else []) == LiveUnder(log[..n], groups, key)
      invariant forall key :: key in byKey ==> byKey[key] != []
    {
      LiveUnderStep(log, n, groups);
      hide LiveUnder;
      var d := log[n];
      if IsLive(groups, d) {
        byKey := byKey[d.key := (if d.key in byKey then byKey[d.key] else []) + [d]];
      }
    }
    assert log[..|log|] == log;
  }

  // ---- What the views say about each other ----

  /** The four views read nothing but the live records. */
  lemma ViewsFollowLiveRecords(log: Log, log': Log)
    requires forall key :: LiveRecords(log, key) == LiveRecords(log', key)
    ensures LatestByKey(log) == LatestByKey(log') && EffectiveByKey(log) == EffectiveByKey(log')
    ensures RestoredUndecidedKeys(log) == RestoredUndecidedKeys(log') && RestoredKeys(log) == RestoredKeys(log')
    ensures LiveKeys(log) == LiveKeys(log')
  {
    LiveKeysHaveRecords(log);
    LiveKeysHaveRecords(log');
    hide LiveRecords;
    assert forall key :: key in LiveKeys(log) <==> key in LiveKeys(log');
  }

  /** A key with live records is in effect or restored and undecided, never both; the latter are restored. */
  lemma ViewsPartitionLiveKeys(log: Log)
    ensures LiveKeys(log) == EffectiveByKey(log).Keys + RestoredUndecidedKeys(log)
    ensures EffectiveByKey(log).Keys !! RestoredUndecidedKeys(log)
    ensures RestoredUndecidedKeys(log) <= RestoredKeys(log)
  {
    LiveKeysHaveRecords(log);
    hide LiveRecords;
    forall key | key in RestoredUndecidedKeys(log) ensures key in RestoredKeys(log) {
      var records := LiveRecords(log, key);
      assert records[|records| - 1] in records;
    }
  }

  // ---- Undoing ----

  ghost predicate UniqueIds(log: Log)
  {
    forall i, j :: 0 <= i < j < |log| ==> log[i].id != log[j].id
  }

  /** The log with one record stamped as revoked. */
  function RevokeRecord(log: Log, i: nat, at: string): Log
    requires i < |log|
  {
    log[i := log[i].(revokedAt := Some(at))]
  }

  predicate OfGroup(d: Decision, id: string)
  {
    d.id == id || d.inheritedFrom == Some(id)
  }

  /** Every active record of the group stamped (`revoke`). */
  function RevokeGroup(log: Log, id: string, at: string): Log
  {
    seq(|log|, i requires 0 <= i < |log| =>
      if log[i].IsActive() && OfGroup(log[i], id) then log[i].(revokedAt := Some(at)) else log[i])
  }

  /** The log as if the group had never been written. */
  function WithoutGroup(log: Log, id: string): Log
  {
    if log == [] then []
    else
      var before, d := WithoutGroup(log[..|log| - 1], id), log[|log| - 1];
      if OfGroup(d, id) then before else before + [d]
  }

  /** Group records are written at the top level, never inherited. */
  ghost predicate GroupsAreTopLevel(log: Log)
  {
    forall i :: 0 <= i < |log| && log[i].IsNodeRecord() ==> log[i].inheritedFrom.None?
  }

  lemma {:induction false} GroupsWithoutGroup(log: Log, id: string)
    requires GroupsAreTopLevel(log)
    ensures Groups(WithoutGroup(log, id)) == Groups(log) - {id}
  {
    if log != [] {
      var init := log[..|log| - 1];
      GroupsWithoutGroup(init, id);
      var w := WithoutGroup(init, id);
      assert (w + [log[|log| - 1]])[..|w|] == w;
    }
  }

  /** `stamped` is `log` with some records of the group revoked, and the group record among them. */
  ghost predicate GroupStamped(log: Log, stamped: Log, id: string)
  {
    && |stamped| == |log|
    && forall i :: 0 <= i < |log| ==>
         && (stamped[i] == log[i] || (OfGroup(log[i], id) && stamped[i] == log[i].(revokedAt := stamped[i].revokedAt)
                                      && stamped[i].revokedAt.Some?))
         && (log[i].id == id ==> stamped[i].revokedAt.Some?)
  }

  lemma {:induction false} GroupsStamped(log: Log, stamped: Log, id: string)
    requires GroupsAreTopLevel(log) && GroupStamped(log, stamped, id)
    ensures Groups(stamped) == Groups(log) - {id}
  {
    if log != [] {
      var n := |log| - 1;
      GroupsStamped(log[..n], stamped[..n], id);
    }
  }

  lemma {:induction false} LiveStamped(log: Log, stamped: Log, id: string, groups: map<string, set<string>>, key: string)
    requires GroupStamped(log, stamped, id) && id !in groups
    ensures LiveUnder(stamped, groups, key) == LiveUnder(WithoutGroup(log, id), groups, key)
  {
    if log != [] {
      var n := |log| - 1;
      LiveStamped(log[..n], stamped[..n], id, groups, key);
      var w := WithoutGroup(log[..n], id);
      assert (w + [log[n]])[..|w|] == w;
    }
  }

  /** Stamping the group record is enough: what its members inherited dies with it. */
  lemma StampedIsDeleted(log: Log, stamped: Log, id: string, key: string)
    requires GroupsAreTopLevel(log) && GroupStamped(log, stamped, id)
    ensures LiveRecords(stamped, key) == LiveRecords(WithoutGroup(log, id), key)
  {
    GroupsStamped(log, stamped, id);
    GroupsWithoutGroup(log, id);
    LiveStamped(log, stamped, id, Groups(stamped), key);
  }

  /**
   With unique ids, revoking only a group record leaves the live records that deleting it and every
   record inherited from it would leave.
   */
  lemma RevokingTheRecordIsDeletingTheGroup(log: Log, i: nat, at: string, key: string)
    requires UniqueIds(log) && GroupsAreTopLevel(log) && i < |log|
    ensures LiveRecords(RevokeRecord(log, i, at), key) == LiveRecords(WithoutGroup(log, log[i].id), key)
  {
    StampedIsDeleted(log, RevokeRecord(log, i, at), log[i].id, key);
  }

  /** Revoking the group with all its records comes to the same. */
  lemma RevokingTheGroupIsDeletingIt(log: Log, id: string, at: string, key: string)
    requires GroupsAreTopLevel(log)
    ensures LiveRecords(RevokeGroup(log, id, at), key) == LiveRecords(WithoutGroup(log, id), key)
  {
    StampedIsDeleted(log, RevokeGroup(log, id, at), id, key);
  }

  /** No record of the log belongs to the group. */
  ghost predicate IsFresh(log: Log, id: string)
  {
    forall i :: 0 <= i < |log| ==> !OfGroup(log[i], id)
  }

  lemma {:induction false} WithoutWritten(log: Log, written: Log, id: string)
    requires IsFresh(log, id) && forall i :: 0 <= i < |written| ==> OfGroup(written[i], id)
    ensures WithoutGroup(log + written, id) == log
    decreases |log| + |written|
  {
    var all := log + written;
    if written != [] {
      var n := |written| - 1;
      assert all[..|all| - 1] == log + written[..n];
      WithoutWritten(log, written[..n], id);
    } else if log != [] {
      var n := |log| - 1;
      assert all == log && log[..n] + [] == log[..n];
      WithoutWritten(log[..n], [], id);
      assert log[..n] + [log[n]] == log;
    }
  }

  /** Writing records under a fresh id and then revoking that id returns every view to what it was. */
  lemma WriteThenRevoke(log: Log, written: Log, id: string, at: string)
    requires GroupsAreTopLevel(log + written) && IsFresh(log, id)
    requires forall i :: 0 <= i < |written| ==> OfGroup(written[i], id)
    ensures var undone := RevokeGroup(log + written, id, at);
            && (forall key :: LiveRecords(undone, key) == LiveRecords(log, key))
            && LatestByKey(undone) == LatestByKey(log) && EffectiveByKey(undone) == EffectiveByKey(log)
            && RestoredKeys(undone) == RestoredKeys(log)
            && RestoredUndecidedKeys(undone) == RestoredUndecidedKeys(log)
  {
    var undone := RevokeGroup(log + written, id, at);
    WithoutWritten(log, written, id);
    forall key ensures LiveRecords(undone, key) == LiveRecords(log, key) {
      RevokingTheGroupIsDeletingIt(log + written, id, at, key);
    }
    ViewsFollowLiveRecords(undone, log);
  }

  // ---- Appending ----

  lemma {:induction false} LiveUnderSameGroup(log: Log, groups: map<string, set<string>>, groups': map<string, set<string>>,
                                              key: string)
    requires forall i :: 0 <= i < |log| ==> IsLive(groups, log[i]) == IsLive(groups', log[i])
    ensures LiveUnder(log, groups, key) == LiveUnder(log, groups', key)
  {
    if log != [] {
      var n := |log| - 1;
      assert forall i :: 0 <= i < n ==> log[..n][i] == log[i];
      LiveUnderSameGroup(log[..n], groups, groups', key);
    }
  }

  /** Appending a record under a fresh id adds at most that record, under its own key. */
  lemma AppendFrame(log: Log, d: Decision, key: string)
    requires IsFresh(log, d.id)
    ensures LiveRecords(log + [d], key) ==
            LiveRecords(log, key) + (if IsLive(Groups(log + [d]), d) && d.key == key then [d] else [])
  {
    var all := log + [d];
    assert all[..|all| - 1] == log;
    forall i | 0 <= i < |log| ensures IsLive(Groups(all), log[i]) == IsLive(Groups(log), log[i]) {
      assert !OfGroup(log[i], d.id);
    }
    LiveUnderSameGroup(log, Groups(all), Groups(log), key);
  }

  ghost predicate IsFreshSiteRecord(log: Log, d: Decision)
  {
    IsFresh(log, d.id) && d.IsActive() && !d.IsNodeRecord() && d.inheritedFrom.None?
  }

  lemma FreshLiveRecords(log: Log, d: Decision, key: string)
    requires IsFreshSiteRecord(log, d)
    ensures LiveRecords(log + [d], key) == LiveRecords(log, key) + (if d.key == key then [d] else [])
    ensures key in LiveKeys(log + [d]) <==> key in LiveKeys(log) || key == d.key
  {
    AppendFrame(log, d, key);
    LiveKeysHaveRecords(log);
    LiveKeysHaveRecords(log + [d]);
  }

  lemma FreshLatest(log: Log, d: Decision)
    requires IsFreshSiteRecord(log, d)
    ensures LatestByKey(log + [d]) == LatestByKey(log)[d.key := d]
  {
    var latest, latest' := LatestByKey(log), LatestByKey(log + [d]);
    hide LiveRecords, LiveKeys, IsFresh;
    forall key ensures key in latest' <==> key in latest || key == d.key { FreshLiveRecords(log, d, key); }
    forall key | key in latest' ensures latest'[key] == if key == d.key then d else latest[key] {
      FreshLiveRecords(log, d, key);
    }
  }

  lemma FreshRestored(log: Log, d: Decision)
    requires IsFreshSiteRecord(log, d)
    ensures RestoredKeys(log + [d]) == RestoredKeys(log) + (if d.state == EngineRestored then {d.key} else {})
  {
    hide LiveRecords, LiveKeys, IsFresh;
    LiveKeysHaveRecords(log);
    forall key
      ensures key in RestoredKeys(log + [d]) <==> key in RestoredKeys(log) || (key == d.key && d.state == EngineRestored)
    {
      FreshLiveRecords(log, d, key);
      var before, after := LiveRecords(log, key), LiveRecords(log + [d], key);
      if key == d.key { assert d in after && forall r :: r in after <==> r in before || r == d; }
    }
  }

  /**
   A fresh ruling or restore on one site changes the views at its key only, where it becomes the latest
   record: a ruling takes effect, a restore puts the key back in review.
   */
  lemma FreshSiteRecordChangesOneKey(log: Log, d: Decision)
    requires IsFreshSiteRecord(log, d)
    ensures forall key :: key != d.key ==> LiveRecords(log + [d], key) == LiveRecords(log, key)
    ensures EffectiveByKey(log + [d]) ==
            if d.state == EngineRestored then EffectiveByKey(log) - {d.key} else EffectiveByKey(log)[d.key := d]
    ensures RestoredUndecidedKeys(log + [d]) ==
            if d.state == EngineRestored then RestoredUndecidedKeys(log) + {d.key}
            else RestoredUndecidedKeys(log) - {d.key}
    ensures RestoredKeys(log + [d]) == RestoredKeys(log) + (if d.state == EngineRestored then {d.key} else {})
  {
    hide LiveRecords, LatestByKey, RestoredKeys, IsFreshSiteRecord;
    forall key | key != d.key ensures LiveRecords(log + [d], key) == LiveRecords(log, key) {
      FreshLiveRecords(log, d, key);
    }
    FreshLatest(log, d);
    FreshRestored(log, d);
  }

  /** `d` does not take the id of a group that is in force. */
  predicate KeepsGroupIds(log: Log, d: Decision)
  {
    d.IsActive() && d.IsNodeRecord() ==> d.id !in Groups(log)
  }

  /** `d` is a new live group record that takes over the id `r` inherits from and drops the key of `r`. */
  predicate Overrides(d: Decision, r: Decision)
  {
    d.IsActive() && d.IsNodeRecord() && r.inheritedFrom == Some(d.id) && r.key !in d.appliesTo
  }

  /** A live record stays live over an append exactly when the new record does not override it. */
  lemma LiveAfterAppend(log: Log, d: Decision, r: Decision)
    requires IsLive(Groups(log), r)
    ensures IsLive(Groups(log + [d]), r) <==> !Overrides(d, r)
  {
    var all := log + [d];
    assert all[..|all| - 1] == log;
  }

  lemma {:induction false} GroupIdsAreInLog(log: Log, id: string)
    requires id in Groups(log)
    ensures exists i :: 0 <= i < |log| && log[i].id == id
  {
    var n := |log| - 1;
    if log[n].id != id {
      GroupIdsAreInLog(log[..n], id);
      var i :| 0 <= i < n && log[..n][i].id == id;
      assert log[i].id == id;
    }
  }

  /** `r` is a live restore of `key`. */
  predicate IsRestore(log: Log, key: string, r: Decision)
  {
    r in LiveRecords(log, key) && r.state == EngineRestored
  }

  lemma RestoredHasRestore(log: Log, key: string)
    ensures key in RestoredKeys(log) <==> exists r :: IsRestore(log, key, r)
  {
    LiveKeysHaveRecords(log);
    hide LiveRecords, LiveKeys;
    if key in RestoredKeys(log) {
      var r :| r in LiveRecords(log, key) && r.state == EngineRestored;
      assert IsRestore(log, key, r);
    }
    if r :| IsRestore(log, key, r) { assert LiveRecords(log, key) != []; }
  }

  /** A restored key stays restored over an append exactly when some live restore of it is not overridden. */
  lemma RestoredAfterAppend(log: Log, d: Decision, key: string)
    requires key in RestoredKeys(log)
    ensures key in RestoredKeys(log + [d]) <==> exists r :: IsRestore(log, key, r) && !Overrides(d, r)
  {
    var all := log + [d];
    RestoredHasRestore(log, key);
    RestoredHasRestore(all, key);
    LiveUnderHolds(log, Groups(log), key);
    LiveUnderHolds(all, Groups(all), key);
    assert all[..|all| - 1] == log;
    hide RestoredKeys, LiveUnder;
    forall r | IsRestore(log, key, r) ensures IsRestore(all, key, r) <==> !Overrides(d, r) {
      LiveAfterAppend(log, d, r);
    }
    if r' :| IsRestore(all, key, r') && !IsRestore(log, key, r') {
      var r :| IsRestore(log, key, r);
      assert !Overrides(d, r);
    }
  }

  /** Exactly which appends lose no restored key. */
  lemma AppendKeepsRestoredIff(log: Log, d: Decision)
    ensures RestoredKeys(log) <= RestoredKeys(log + [d]) <==>
            forall key :: key in RestoredKeys(log) ==> exists r :: IsRestore(log, key, r) && !Overrides(d, r)
  {
    hide RestoredKeys, IsRestore, Overrides;
    forall key | key in RestoredKeys(log)
      ensures key in RestoredKeys(log + [d]) <==> exists r :: IsRestore(log, key, r) && !Overrides(d, r)
    {
      RestoredAfterAppend(log, d, key);
    }
  }

  /** In particular, none that keeps group ids apart. */
  lemma AppendKeepsRestored(log: Log, d: Decision)
    requires KeepsGroupIds(log, d)
    ensures RestoredKeys(log) <= RestoredKeys(log + [d])
  {
    AppendKeepsRestoredIff(log, d);
    forall key | key in RestoredKeys(log) ensures exists r :: IsRestore(log, key, r) && !Overrides(d, r) {
      RestoredHasRestore(log, key);
      LiveUnderHolds(log, Groups(log), key);
      var r :| IsRestore(log, key, r);
      assert IsLive(Groups(log), r);
    }
  }

  /** Reusing a group's id can take a restored key out: the later record replaces the members covered. */
  lemma ReusedGroupIdLosesRestore(details: Details)
    ensures var node := Decision("g", "n", EngineRestored, "why", Node("n"), ["k"], [], None, details, None);
            var member := Decision("g.0", "k", EngineRestored, "why", Site, [], [], Some("g"), details, None);
            var again := node.(appliesTo := []);
            "k" in RestoredKeys([node, member]) && "k" !in RestoredKeys([node, member] + [again])
  {
    var node := Decision("g", "n", EngineRestored, "why", Node("n"), ["k"], [], None, details, None);
    var member := Decision("g.0", "k", EngineRestored, "why", Site, [], [], Some("g"), details, None);
    var again := node.(appliesTo := []);
    var log, all := [node, member], [node, member] + [again];
    assert log[..1] == [node] && log[..1][..0] == [] && all[..2] == log;
    assert "k" in Groups([node])["g"];
    assert IsLive(Groups(log), member) && !IsLive(Groups(all), member);
    LiveKeysHaveRecords(log);
    LiveKeysHaveRecords(all);
    LiveUnderHolds(log, Groups(log), "k");
    LiveUnderHolds(all, Groups(all), "k");
  }

  // ---- The live records, in the log's own columns ----

  /** Record `i` is the last live group record with the id. */
  ghost predicate IsGroupInForce(log: Log, id: string, i: nat)
  {
    && i < |log| && log[i].id == id && log[i].revokedAt.None? && log[i].scope.Node?
    && forall j :: i < j < |log| ==> !(log[j].id == id && log[j].revokedAt.None? && log[j].scope.Node?)
  }

  lemma {:induction false} GroupsInForce(log: Log, id: string)
    ensures id in Groups(log) <==> exists i: nat :: IsGroupInForce(log, id, i)
    ensures forall i: nat, key :: IsGroupInForce(log, id, i) ==> (key in Groups(log)[id] <==> key in log[i].appliesTo)
  {
    if log != [] {
      var (n, init) := (|log| - 1, log[..|log| - 1]);
      GroupsInForce(init, id);
      if log[n].id == id && log[n].revokedAt.None? && log[n].scope.Node? {
        assert IsGroupInForce(log, id, n);
      } else {
        assert forall i: nat :: IsGroupInForce(log, id, i) <==> IsGroupInForce(init, id, i) by {
          forall i: nat ensures IsGroupInForce(log, id, i) <==> IsGroupInForce(init, id, i) {
            assert forall j :: 0 <= j < n ==> init[j] == log[j];
          }
        }
      }
    }
  }

  /**
   Which records are live for a key: those in the log for it that are not revoked and not group records,
   and, when written by a group decision, only while that decision is in force and lists the key.
   */
  lemma LiveIs(log: Log, key: string, d: Decision)
    ensures d in LiveRecords(log, key) <==>
            && d in log && d.key == key && d.revokedAt.None? && d.scope.Site?
            && match d.inheritedFrom
               case None => true
               case Some(parent) => exists i: nat :: IsGroupInForce(log, parent, i) && key in log[i].appliesTo
  {
    LiveUnderHolds(log, Groups(log), key);
    if d.inheritedFrom.Some? { GroupsInForce(log, d.inheritedFrom.value); }
    hide Groups, LiveUnder, IsGroupInForce;
  }

  lemma {:induction false} LiveUnderConcat(a: Log, b: Log, groups: map<string, set<string>>, key: string)
    ensures LiveUnder(a + b, groups, key) == LiveUnder(a, groups, key) + LiveUnder(b, groups, key)
    decreases |b|
  {
    hide IsLive;
    if b == [] {
      assert a + b == a;
    } else {
      var n := |b| - 1;
      assert (a + b)[..|a + b| - 1] == a + b[..n];
      LiveUnderConcat(a, b[..n], groups, key);
    }
  }

  lemma OneRecordLive(d: Decision, groups: map<string, set<string>>, key: string)
    ensures LiveUnder([d], groups, key) == if IsLive(groups, d) && d.key == key then [d] else []
  {
    assert [d][..0] == [];
  }

  /** The live records of a log stand in the order of the log. */
  lemma LiveInOrder(log: Log, key: string, d: Decision, e: Decision, i: nat, j: nat)
    requires i < j < |log| && log[i] == d && log[j] == e && d in LiveRecords(log, key) && e in LiveRecords(log, key)
    ensures exists a, b, c: Log :: LiveRecords(log, key) == a + [d] + b + [e] + c
  {
    var groups := Groups(log);
    LiveUnderHolds(log, groups, key);
    var (a, b, c) := (log[..i], log[i + 1..j], log[j + 1..]);
    assert log == a + [d] + b + [e] + c;
    LiveUnderConcat(a + [d] + b + [e], c, groups, key);
    LiveUnderConcat(a + [d] + b, [e], groups, key);
    LiveUnderConcat(a + [d], b, groups, key);
    LiveUnderConcat(a, [d], groups, key);
    OneRecordLive(d, groups, key);
    OneRecordLive(e, groups, key);
    hide Groups, LiveUnder, IsLive;
    assert LiveRecords(log, key) ==
           LiveUnder(a, groups, key) + [d] + LiveUnder(b, groups, key) + [e] + LiveUnder(c, groups, key);
  }
}
