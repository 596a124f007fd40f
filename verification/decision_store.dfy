/**
 The server's decision store: the log it appends to, the ids it hands out and the revocation it
 performs. Recording, revoking and migrating records without a parent keep the ids unique, so the undo
 theorems of `Decisions` apply to every log these operations reach.
 */
module DecisionStore {
  import opened Sequences
  import opened Text
  import opened Digits
  import opened Decisions

  datatype StoreError =
    | KeyRequired | MergeTargetInvalid | ReasonRequired | NodeMerge
    | EmptyNode(node: string) | NotFound(id: string) | AlreadyRevoked(id: string)

  datatype Result<+T> = Ok(value: T) | Err(error: StoreError)

  // ---- Ids ----

  function IsTopLevel(): Decision -> bool
  {
    (d: Decision) => d.inheritedFrom.None?
  }

  function TopLevelCount(log: Log): nat
  {
    Count(log, IsTopLevel())
  }

  function TopId(n: nat): string
  {
    "dec-" + Padded(n, 6)
  }

  function NextId(log: Log): string
  {
    TopId(TopLevelCount(log) + 1)
  }

  function MemberId(group: string, i: nat): string
  {
    group + "." + Padded(i, 5)
  }

  lemma PaddedInjective(m: nat, n: nat, width: nat)
    requires Padded(m, width) == Padded(n, width)
    ensures m == n
  {
    PaddedValue(m, width);
    PaddedValue(n, width);
  }

  lemma TopIdInjective(m: nat, n: nat)
    requires TopId(m) == TopId(n)
    ensures m == n
  {
    hide Padded;
    assert TopId(m)[4..] == Padded(m, 6) && TopId(n)[4..] == Padded(n, 6);
    PaddedInjective(m, n, 6);
  }

  lemma TopIdHasNoDot(n: nat)
    ensures '.' !in TopId(n)
  {
    hide Padded;
    PaddedValue(n, 6);
    assert forall c :: c in Padded(n, 6) ==> c != '.';
  }

  lemma MemberIdInjective(c: nat, i: nat, d: nat, j: nat)
    ensures MemberId(TopId(c), i) == MemberId(TopId(d), j) ==> c == d && i == j
    ensures MemberId(TopId(c), i) != TopId(d)
  {
    TopIdHasNoDot(c);
    TopIdHasNoDot(d);
    assert MemberId(TopId(c), i)[|TopId(c)|] == '.';
    hide TopId, Padded;
    if MemberId(TopId(c), i) == MemberId(TopId(d), j) {
      FirstSeparator(TopId(c), Padded(i, 5), TopId(d), Padded(j, 5), '.');
      TopIdInjective(c, d);
      PaddedInjective(i, j, 5);
    }
  }

  // ---- What every reachable log keeps ----

  /** The record `d` written after `before`: numbered in turn, or a numbered member of an earlier group. */
  ghost predicate WellNumbered(before: Log, d: Decision)
  {
    if d.inheritedFrom.None? then d.id == NextId(before)
    else
      && !d.IsNodeRecord()
      && exists c: nat, m: nat ::
           1 <= c <= TopLevelCount(before) && d.inheritedFrom == Some(TopId(c)) && d.id == MemberId(TopId(c), m)
  }

  ghost predicate Kept(log: Log)
  {
    UniqueIds(log) && forall i :: 0 <= i < |log| ==> WellNumbered(log[..i], log[i])
  }

  lemma TopLevelCountPrefix(log: Log, i: nat)
    requires i < |log|
    ensures TopLevelCount(log[..i]) + (if log[i].inheritedFrom.None? then 1 else 0) <= TopLevelCount(log)
  {
    assert log == log[..i] + ([log[i]] + log[i + 1..]);
    CountConcat(log[..i], [log[i]] + log[i + 1..], IsTopLevel());
  }

  /** The next id is used by no record, and no record inherits from it. */
  lemma NextIdIsFresh(log: Log)
    requires Kept(log)
    ensures IsFresh(log, NextId(log)) && GroupsAreTopLevel(log)
  {
    hide TopId, MemberId, TopLevelCount;
    var next := TopLevelCount(log) + 1;
    forall i | 0 <= i < |log|
      ensures !OfGroup(log[i], NextId(log)) && (log[i].IsNodeRecord() ==> log[i].inheritedFrom.None?)
    {
      TopLevelCountPrefix(log, i);
      assert WellNumbered(log[..i], log[i]);
      if log[i].inheritedFrom.None? {
        if log[i].id == NextId(log) { TopIdInjective(TopLevelCount(log[..i]) + 1, next); }
      } else {
        var c: nat, m: nat :| 1 <= c <= TopLevelCount(log[..i]) && log[i].inheritedFrom == Some(TopId(c))
                              && log[i].id == MemberId(TopId(c), m);
        MemberIdInjective(c, m, next, 0);
        if TopId(c) == TopId(next) { TopIdInjective(c, next); }
      }
    }
  }

  /** Some record of the log carries the id the next record will get. */
  ghost predicate HandsOutAgain(log: Log)
  {
    exists i :: 0 <= i < |log| && log[i].id == NextId(log)
  }

  lemma KeptHandsOutFresh(log: Log)
    requires Kept(log)
    ensures !HandsOutAgain(log)
  {
    NextIdIsFresh(log);
    hide NextId;
  }

  lemma KeptAppend(log: Log, d: Decision)
    requires Kept(log) && WellNumbered(log, d) && forall i :: 0 <= i < |log| ==> log[i].id != d.id
    ensures Kept(log + [d])
  {
    hide WellNumbered;
    var all := log + [d];
    forall i | 0 <= i < |all| ensures WellNumbered(all[..i], all[i]) {
      assert all[..i] == log[..i];
      if i == |log| { assert log[..i] == log; }
    }
  }

  // ---- Writing ----

  /** A request to record a decision. */
  datatype Request = Request(key: string, state: State, reason: string, decidedBy: string, neededMe: Option<bool>,
                             sampleVerdict: Option<SampleVerdict>, except: seq<string>, runId: string,
                             decidedAt: string)

  /** What the server knows when it writes; `isTime` stands for the RFC 3339 parser. */
  datatype Context = Context(now: string, runId: string, engineVersion: string, isTime: string -> bool)

  function Decider(who: string): string
  {
    if Trim(who) == "" then "reviewer" else Trim(who)
  }

  function StampTime(decidedAt: string, ctx: Context): string
  {
    if Trim(decidedAt) != "" && ctx.isTime(Trim(decidedAt)) then Trim(decidedAt) else ctx.now
  }

  function SiteDetails(req: Request, ctx: Context): Details
  {
    var runId := if Trim(req.runId) == "" then ctx.runId else Trim(req.runId);
    Details(Decider(req.decidedBy), StampTime(req.decidedAt, ctx), runId, ctx.engineVersion, req.neededMe,
            req.sampleVerdict)
  }

  function GroupDetails(req: Request, ctx: Context): Details
  {
    Details(Decider(req.decidedBy), ctx.now, ctx.runId, ctx.engineVersion, None, None)
  }

  predicate NeedsReason(state: State)
  {
    state.Ignored? || state.FalsePositive? || state.MergedInto? || state.EngineRestored?
  }

  function SiteRecord(log: Log, req: Request, ctx: Context): Decision
  {
    Decision(NextId(log), Trim(req.key), req.state, Trim(req.reason), Site, [], [], None, SiteDetails(req, ctx), None)
  }

  function SiteError(req: Request): Option<StoreError>
  {
    if Trim(req.key) == "" then Some(KeyRequired)
    else if req.state.MergedInto? && (Trim(req.state.target) == "" || req.state.target == Trim(req.key)) then
      Some(MergeTargetInvalid)
    else if NeedsReason(req.state) && Trim(req.reason) == "" then Some(ReasonRequired)
    else None
  }

  /** The members in `except` or not in it, in order. */
  function Members(members: seq<string>, except: seq<string>, excepted: bool): seq<string>
  {
    if members == [] then []
    else (if (members[0] in except) == excepted then [members[0]] else []) + Members(members[1..], except, excepted)
  }

  function GroupRecord(log: Log, node: string, members: seq<string>, req: Request, ctx: Context): Decision
  {
    Decision(NextId(log), node, req.state, Trim(req.reason), Node(node), Members(members, req.except, false),
             Members(members, req.except, true), None, GroupDetails(req, ctx), None)
  }

  function MemberRecord(group: Decision, i: nat): Decision
    requires i < |group.appliesTo|
  {
    Decision(MemberId(group.id, i), group.appliesTo[i], group.state, group.reason, Site, [], [], Some(group.id),
             group.details, None)
  }

  /** The group record and the records of its first `n` members. */
  function GroupRecords(group: Decision, n: nat): seq<Decision>
    requires n <= |group.appliesTo|
  {
    [group] + seq(n, i requires 0 <= i < n => MemberRecord(group, i))
  }

  function NodeError(node: string, members: seq<string>, req: Request): Option<StoreError>
  {
    if req.state.MergedInto? then Some(NodeMerge)
    else if Trim(req.reason) == "" then Some(ReasonRequired)
    else if Members(members, req.except, false) == [] then Some(EmptyNode(node))
    else None
  }

  /** The records of a migration, numbered from `first`. */
  function Numbered(records: Log, first: nat): Log
  {
    seq(|records|, i requires 0 <= i < |records| => records[i].(id := TopId(first + i)))
  }

  predicate AllTopLevel(records: Log)
  {
    forall i :: 0 <= i < |records| ==> records[i].inheritedFrom.None?
  }

  function FindId(log: Log, id: string): Option<Decision>
  {
    if log == [] then None else if log[0].id == id then Some(log[0]) else FindId(log[1..], id)
  }

  function RevokeError(log: Log, id: string): Option<StoreError>
  {
    match FindId(log, id)
    case None => Some(NotFound(id))
    case Some(d) => if d.revokedAt.Some? then Some(AlreadyRevoked(id)) else None
  }

  /** The ids of the records that revoking `id` stamps, in order. */
  function StampedIds(log: Log, id: string): seq<string>
  {
    if log == [] then []
    else
      var before, d := StampedIds(log[..|log| - 1], id), log[|log| - 1];
      if d.IsActive() && OfGroup(d, id) then before + [d.id] else before
  }

  lemma KeptTopLevel(log: Log, d: Decision)
    requires Kept(log) && d.id == NextId(log) && d.inheritedFrom.None?
    ensures Kept(log + [d])
  {
    NextIdIsFresh(log);
    hide NextId;
    KeptAppend(log, d);
  }

  lemma KeptSiteRecord(log: Log, req: Request, ctx: Context)
    requires Kept(log)
    ensures Kept(log + [SiteRecord(log, req, ctx)])
  {
    hide NextId, Trim, Kept, SiteDetails;
    KeptTopLevel(log, SiteRecord(log, req, ctx));
  }

  /** The log holds only the first `n` member numbers of a group. */
  ghost predicate MembersBelow(log: Log, group: string, n: nat)
  {
    forall i, m: nat :: 0 <= i < |log| && log[i].id == MemberId(group, m) ==> m < n
  }

  lemma KeptMember(log: Log, group: Decision, c: nat, n: nat)
    requires Kept(log) && 1 <= c <= TopLevelCount(log) && group.id == TopId(c)
    requires MembersBelow(log, group.id, n) && n < |group.appliesTo|
    ensures var all := log + [MemberRecord(group, n)];
            Kept(all) && MembersBelow(all, group.id, n + 1) && TopLevelCount(all) == TopLevelCount(log)
  {
    var d := MemberRecord(group, n);
    CountConcat(log, [d], IsTopLevel());
    hide TopId, MemberId, TopLevelCount;
    assert WellNumbered(log, d);
    KeptAppend(log, d);
    forall m: nat | d.id == MemberId(group.id, m) ensures m == n { MemberIdInjective(c, m, c, n); }
  }

  lemma NoMembersYet(log: Log, group: Decision)
    requires Kept(log) && group.id == NextId(log)
    ensures MembersBelow(log + [group], group.id, 0)
  {
    hide TopId, MemberId, TopLevelCount;
    var next := TopLevelCount(log) + 1;
    forall i, m: nat | 0 <= i < |log + [group]| ensures (log + [group])[i].id != MemberId(group.id, m) {
      if i < |log| {
        TopLevelCountPrefix(log, i);
        assert WellNumbered(log[..i], log[i]);
        if log[i].inheritedFrom.None? {
          MemberIdInjective(next, m, TopLevelCount(log[..i]) + 1, 0);
        } else {
          var c: nat, k: nat :| 1 <= c <= TopLevelCount(log[..i]) && log[i].inheritedFrom == Some(TopId(c))
                                && log[i].id == MemberId(TopId(c), k);
          MemberIdInjective(next, m, c, k);
        }
      } else {
        MemberIdInjective(next, m, next, 0);
      }
    }
  }

  lemma {:induction false} KeptGroupRecords(log: Log, group: Decision, n: nat)
    requires Kept(log) && n <= |group.appliesTo|
    requires group.id == NextId(log) && group.inheritedFrom.None?
    ensures var all := log + GroupRecords(group, n);
            Kept(all) && MembersBelow(all, group.id, n) && TopLevelCount(all) == TopLevelCount(log) + 1
  {
    hide TopId, MemberId, Kept, WellNumbered;
    if n == 0 {
      assert GroupRecords(group, 0) == [group];
      CountConcat(log, [group], IsTopLevel());
      KeptTopLevel(log, group);
      NoMembersYet(log, group);
    } else {
      KeptGroupRecords(log, group, n - 1);
      var before := log + GroupRecords(group, n - 1);
      assert log + GroupRecords(group, n) == before + [MemberRecord(group, n - 1)];
      hide TopLevelCount, MembersBelow;
      KeptMember(before, group, TopLevelCount(log) + 1, n - 1);
    }
  }

  lemma CountTopLevel(log: Log, d: Decision)
    requires d.inheritedFrom.None?
    ensures TopLevelCount(log + [d]) == TopLevelCount(log) + 1
  {
    CountConcat(log, [d], IsTopLevel());
  }

  /** A migration of top-level records keeps the numbering. */
  lemma {:induction false} KeptNumbered(log: Log, records: Log)
    requires Kept(log) && AllTopLevel(records)
    ensures var all := log + Numbered(records, TopLevelCount(log) + 1);
            Kept(all) && TopLevelCount(all) == TopLevelCount(log) + |records|
    decreases |records|
  {
    hide Kept, TopId, TopLevelCount;
    var first := TopLevelCount(log) + 1;
    if records == [] {
      assert log + Numbered(records, first) == log;
    } else {
      var n := |records| - 1;
      var before, d := log + Numbered(records[..n], first), records[n].(id := TopId(first + n));
      KeptNumbered(log, records[..n]);
      assert log + Numbered(records, first) == before + [d];
      KeptTopLevel(before, d);
      CountTopLevel(before, d);
    }
  }

  /** And only such a migration does. */
  lemma KeptNumberedOnlyTopLevel(log: Log, records: Log, first: nat)
    requires Kept(log + Numbered(records, first))
    ensures AllTopLevel(records)
  {
    var all := log + Numbered(records, first);
    hide TopId, MemberId, TopLevelCount, UniqueIds;
    forall i | 0 <= i < |records| ensures records[i].inheritedFrom.None? {
      var d := all[|log| + i];
      assert d == records[i].(id := TopId(first + i)) && WellNumbered(all[..|log| + i], d);
      if d.inheritedFrom.Some? {
        var c: nat, m: nat :| 1 <= c <= TopLevelCount(all[..|log| + i]) && d.id == MemberId(TopId(c), m);
        MemberIdInjective(c, m, first + i, 0);
        assert false;
      }
    }
  }

  lemma {:induction false} CountSameShape(log: Log, log': Log)
    requires |log| == |log'| && forall i :: 0 <= i < |log| ==> log[i].inheritedFrom == log'[i].inheritedFrom
    ensures TopLevelCount(log) == TopLevelCount(log')
  {
    if log != [] {
      assert forall i :: 0 <= i < |log| - 1 ==> log[1..][i] == log[i + 1] && log'[1..][i] == log'[i + 1];
      CountSameShape(log[1..], log'[1..]);
    }
  }

  /** How many of the records have no parent does not depend on their ids. */
  lemma TopLevelCountNumbered(log: Log, records: Log, first: nat)
    ensures TopLevelCount(log + Numbered(records, first)) == TopLevelCount(log) + TopLevelCount(records)
  {
    CountConcat(log, Numbered(records, first), IsTopLevel());
    CountSameShape(records, Numbered(records, first));
  }

  lemma {:induction false} ParentedIsNotCounted(records: Log)
    ensures TopLevelCount(records) <= |records|
    ensures TopLevelCount(records) == |records| <==> AllTopLevel(records)
  {
    if records != [] {
      ParentedIsNotCounted(records[1..]);
      assert forall i :: 0 <= i < |records| - 1 ==> records[1..][i] == records[i + 1];
      assert AllTopLevel(records) <==> records[0].inheritedFrom.None? && AllTopLevel(records[1..]) by {
        if records[0].inheritedFrom.None? && AllTopLevel(records[1..]) {
          forall i | 0 <= i < |records| ensures records[i].inheritedFrom.None? {
            if i > 0 { assert records[i] == records[1..][i - 1]; }
          }
        }
      }
    }
  }

  /** After a migration some id will be handed out again exactly when a migrated record has a parent. */
  lemma MigrationReusesIdIff(log: Log, records: Log)
    requires Kept(log)
    ensures HandsOutAgain(log + Numbered(records, TopLevelCount(log) + 1)) <==> !AllTopLevel(records)
  {
    var first := TopLevelCount(log) + 1;
    var all := log + Numbered(records, first);
    hide TopId, Kept, AllTopLevel, TopLevelCount;
    if AllTopLevel(records) {
      KeptNumbered(log, records);
      NextIdIsFresh(all);
    } else {
      var counted := TopLevelCount(records);
      ParentedIsNotCounted(records);
      TopLevelCountNumbered(log, records, first);
      assert all[|log| + counted] == Numbered(records, first)[counted];
      assert all[|log| + counted].id == TopId(first + counted);
    }
  }

  /** One migrated record with a parent, in an empty log: its own id is the next one. */
  lemma InheritedMigrationReusesId(d: Decision)
    requires d.inheritedFrom.Some?
    ensures NextId(Numbered([d], 1)) == Numbered([d], 1)[0].id
  {
    hide TopId;
    var log := Numbered([d], 1);
    assert !IsTopLevel()(log[0]) && log[1..] == [];
    assert TopLevelCount(log) == Count(log[1..], IsTopLevel());
  }

  // ---- Revoking ----

  /** Revoking stamps records and renumbers none. */
  lemma KeptRevoke(log: Log, id: string, at: string)
    requires Kept(log)
    ensures Kept(RevokeGroup(log, id, at))
  {
    var stamped := RevokeGroup(log, id, at);
    hide TopId, MemberId, TopLevelCount;
    forall i | 0 <= i < |log| ensures WellNumbered(stamped[..i], stamped[i]) {
      assert WellNumbered(log[..i], log[i]);
      CountSameShape(log[..i], stamped[..i]);
    }
  }

  // ---- The store ----

  class Store {
    var decisions: Log
    var migratedAt: Option<string>

    constructor ()
      ensures decisions == [] && migratedAt == None && Kept(decisions)
    {
      decisions, migratedAt := [], None;
    }

    /** `record_site`. */
    method RecordSite(req: Request, ctx: Context) returns (r: Result<Decision>)
      requires Kept(decisions)
      modifies this`decisions
      ensures Kept(decisions)
      ensures match SiteError(req)
              case Some(e) => r == Err(e) && decisions == old(decisions)
              case None => r == Ok(SiteRecord(old(decisions), req, ctx)) && decisions == old(decisions) + [r.value]
    {
      hide Kept;
      var error := SiteError(req);
      if error.Some? { return Err(error.value); }
      var d := SiteRecord(decisions, req, ctx);
      KeptSiteRecord(decisions, req, ctx);
      decisions := decisions + [d];
      return Ok(d);
    }

    /** `record_node`: the group record, then one record for each covered member. */
    method RecordNode(node: string, members: seq<string>, req: Request, ctx: Context) returns (r: Result<(Decision, nat)>)
      requires Kept(decisions)
      modifies this`decisions
      ensures Kept(decisions)
      ensures match NodeError(node, members, req)
              case Some(e) => r == Err(e) && decisions == old(decisions)
              case None =>
                var group := GroupRecord(old(decisions), node, members, req, ctx);
                && r == Ok((group, |group.appliesTo|))
                && decisions == old(decisions) + GroupRecords(group, |group.appliesTo|)
    {
      hide Kept, NextId, Trim, Padded, GroupDetails;
      var error := NodeError(node, members, req);
      if error.Some? { return Err(error.value); }
      var group := GroupRecord(decisions, node, members, req, ctx);
      decisions := decisions + [group];
      for i := 0 to |group.appliesTo|
        invariant decisions == old(decisions) + GroupRecords(group, i)
      {
        assert GroupRecords(group, i + 1) == GroupRecords(group, i) + [MemberRecord(group, i)];
        decisions := decisions + [MemberRecord(group, i)];
      }
      KeptGroupRecords(old(decisions), group, |group.appliesTo|);
      return Ok((group, |group.appliesTo|));
    }

    /**
     `record_migration`: once only, the records of an old draft under new ids. The numbering is kept, and no
     id handed out again, exactly when none of them has a parent.
     */
    method RecordMigration(records: Log, now: string) returns (done: bool)
      requires Kept(decisions)
      modifies this
      ensures done == old(migratedAt).None?
      ensures !done ==> decisions == old(decisions) && migratedAt == old(migratedAt)
      ensures done ==> decisions == old(decisions) + Numbered(records, TopLevelCount(old(decisions)) + 1)
      ensures done ==> migratedAt == Some(now)
      ensures Kept(decisions) <==> (done ==> AllTopLevel(records))
      ensures HandsOutAgain(decisions) <==> done && !AllTopLevel(records)
    {
      hide Kept, TopId, TopLevelCount, AllTopLevel, HandsOutAgain;
      KeptHandsOutFresh(decisions);
      if migratedAt.Some? { return false; }
      var first := TopLevelCount(decisions) + 1;
      for i := 0 to |records|
        invariant decisions == old(decisions) + Numbered(records[..i], first)
      {
        assert Numbered(records[..i + 1], first) == Numbered(records[..i], first) + [records[i].(id := TopId(first + i))];
        decisions := decisions + [records[i].(id := TopId(first + i))];
      }
      assert records[..|records|] == records;
      migratedAt := Some(now);
      if AllTopLevel(records) { KeptNumbered(old(decisions), records); }
      if Kept(decisions) { KeptNumberedOnlyTopLevel(old(decisions), records, first); }
      MigrationReusesIdIff(old(decisions), records);
      return true;
    }

    /** `revoke`: stamp the decision, and with a group decision every active record it wrote. */
    method Revoke(id: string, now: string) returns (r: Result<seq<string>>)
      requires Kept(decisions)
      modifies this`decisions
      ensures Kept(decisions)
      ensures match RevokeError(old(decisions), id)
              case Some(e) => r == Err(e) && decisions == old(decisions)
              case None => r == Ok(StampedIds(old(decisions), id)) && decisions == RevokeGroup(old(decisions), id, now)
    {
      hide Kept, RevokeError;
      var error := RevokeError(decisions, id);
      if error.Some? { return Err(error.value); }
      KeptRevoke(decisions, id, now);
      var revoked: seq<string> := [];
      for i := 0 to |decisions|
        invariant |decisions| == |old(decisions)|
        invariant forall j :: 0 <= j < |decisions| ==>
                    decisions[j] == if j < i then RevokeGroup(old(decisions), id, now)[j] else old(decisions)[j]
        invariant revoked == StampedIds(old(decisions)[..i], id)
      {
        Snoc(old(decisions), i);
        var d := decisions[i];
        if d.IsActive() && OfGroup(d, id) {
          decisions := decisions[i := d.(revokedAt := Some(now))];
          revoked := revoked + [d.id];
        }
      }
      assert old(decisions)[..|decisions|] == old(decisions);
      assert decisions == RevokeGroup(old(decisions), id, now);
      return Ok(revoked);
    }
  }

  // ---- Undoing on any reachable log ----

  lemma {:induction false} FindAppended(log: Log, written: Log, id: string)
    requires IsFresh(log, id) && written != [] && written[0].id == id
    ensures FindId(log + written, id) == Some(written[0])
  {
    var all := log + written;
    if log == [] {
      assert all == written;
    } else {
      assert !OfGroup(log[0], id) && all[1..] == log[1..] + written;
      forall i | 0 <= i < |log| - 1 ensures !OfGroup(log[1..][i], id) { assert log[1..][i] == log[i + 1]; }
      FindAppended(log[1..], written, id);
    }
  }

  function Ids(log: Log): seq<string>
  {
    seq(|log|, i requires 0 <= i < |log| => log[i].id)
  }

  lemma {:induction false} StampedAreWritten(log: Log, written: Log, id: string)
    requires IsFresh(log, id)
    requires forall i :: 0 <= i < |written| ==> written[i].IsActive() && OfGroup(written[i], id)
    ensures StampedIds(log + written, id) == Ids(written)
    decreases |log| + |written|
  {
    var all := log + written;
    if written != [] {
      var n := |written| - 1;
      assert all[..|all| - 1] == log + written[..n];
      StampedAreWritten(log, written[..n], id);
      assert Ids(written) == Ids(written[..n]) + [written[n].id];
    } else if log != [] {
      var n := |log| - 1;
      assert all == log && log[..n] + [] == log[..n] && !OfGroup(log[n], id);
      StampedAreWritten(log[..n], [], id);
    }
  }

  /** `undone` shows in every view what `log` shows. */
  ghost predicate SameViews(undone: Log, log: Log)
  {
    && (forall key :: LiveRecords(undone, key) == LiveRecords(log, key))
    && LatestByKey(undone) == LatestByKey(log) && EffectiveByKey(undone) == EffectiveByKey(log)
    && RestoredKeys(undone) == RestoredKeys(log)
    && RestoredUndecidedKeys(undone) == RestoredUndecidedKeys(log)
  }

  /**
   Records written under the next id can be revoked by that id: the store accepts it, stamps exactly those
   records, and every view is what it was.
   */
  lemma WrittenIsUndone(log: Log, written: Log, at: string)
    requires Kept(log) && written != [] && written[0].id == NextId(log) && GroupsAreTopLevel(written)
    requires forall i :: 0 <= i < |written| ==> written[i].IsActive() && OfGroup(written[i], NextId(log))
    ensures var (all, id) := (log + written, NextId(log));
            && RevokeError(all, id).None? && StampedIds(all, id) == Ids(written)
            && SameViews(RevokeGroup(all, id, at), log)
  {
    hide NextId, LiveRecords, LatestByKey, EffectiveByKey, RestoredKeys, RestoredUndecidedKeys, Kept;
    NextIdIsFresh(log);
    FindAppended(log, written, NextId(log));
    StampedAreWritten(log, written, NextId(log));
    WriteThenRevoke(log, written, NextId(log), at);
  }

  /** Recording a group decision and revoking it: `RecordNode`, then `Revoke`. */
  lemma GroupDecisionIsUndone(log: Log, node: string, members: seq<string>, req: Request, ctx: Context, at: string)
    requires Kept(log)
    ensures var group := GroupRecord(log, node, members, req, ctx);
            var written := GroupRecords(group, |group.appliesTo|);
            && RevokeError(log + written, group.id).None? && StampedIds(log + written, group.id) == Ids(written)
            && SameViews(RevokeGroup(log + written, group.id, at), log)
  {
    hide NextId, Trim, SameViews, Kept, GroupDetails;
    var group := GroupRecord(log, node, members, req, ctx);
    WrittenIsUndone(log, GroupRecords(group, |group.appliesTo|), at);
  }

  /** The same for a decision on one site: revoking it brings the previous decision back. */
  lemma SiteDecisionIsUndone(log: Log, req: Request, ctx: Context, at: string)
    requires Kept(log)
    ensures var d := SiteRecord(log, req, ctx);
            && RevokeError(log + [d], d.id).None? && StampedIds(log + [d], d.id) == [d.id]
            && SameViews(RevokeGroup(log + [d], d.id, at), log)
  {
    hide NextId, Trim, SameViews, Kept, SiteDetails;
    var d := SiteRecord(log, req, ctx);
    WrittenIsUndone(log, [d], at);
    assert Ids([d]) == [d.id];
  }

  // ---- Revoking one site of a group ----

  lemma MembersAreNoParents(log: Log, i: nat, j: nat)
    requires Kept(log) && i < |log| && j < |log| && log[i].inheritedFrom.Some?
    ensures log[j].inheritedFrom != Some(log[i].id) && !log[i].IsNodeRecord()
  {
    hide TopId, MemberId, TopLevelCount, UniqueIds;
    assert WellNumbered(log[..i], log[i]) && WellNumbered(log[..j], log[j]);
    var c: nat, m: nat :| log[i].id == MemberId(TopId(c), m);
    if log[j].inheritedFrom.Some? {
      var d: nat :| log[j].inheritedFrom == Some(TopId(d));
      MemberIdInjective(c, m, d, 0);
    }
  }

  /** The records that are live under `groups` and carry `key`, the `i`-th of the log left out. */
  function LiveUnderWithout(log: Log, groups: map<string, set<string>>, key: string, i: nat): seq<Decision>
    requires i < |log|
  {
    LiveUnder(log[..i] + log[i + 1..], groups, key)
  }

  lemma {:induction false} SiteRecordsMakeNoGroups(log: Log, i: nat, at: string)
    requires i < |log| && !log[i].IsNodeRecord()
    ensures Groups(RevokeRecord(log, i, at)) == Groups(log)
  {
    var n := |log| - 1;
    var stamped := RevokeRecord(log, i, at);
    if i < n {
      assert stamped[..n] == RevokeRecord(log[..n], i, at);
      SiteRecordsMakeNoGroups(log[..n], i, at);
    } else {
      assert stamped[..n] == log[..n];
    }
  }

  lemma StampedIsLeftOut(log: Log, groups: map<string, set<string>>, i: nat, at: string, key: string)
    requires i < |log|
    ensures LiveUnder(RevokeRecord(log, i, at), groups, key) == LiveUnderWithout(log, groups, key, i)
    ensures log[i].key != key ==> LiveUnderWithout(log, groups, key, i) == LiveUnder(log, groups, key)
  {
    var d := log[i].(revokedAt := Some(at));
    assert RevokeRecord(log, i, at) == log[..i] + [d] + log[i + 1..];
    assert log == log[..i] + [log[i]] + log[i + 1..];
    LiveUnderConcat(log[..i] + [d], log[i + 1..], groups, key);
    LiveUnderConcat(log[..i], [d], groups, key);
    LiveUnderConcat(log[..i] + [log[i]], log[i + 1..], groups, key);
    LiveUnderConcat(log[..i], [log[i]], groups, key);
    LiveUnderConcat(log[..i], log[i + 1..], groups, key);
    OneRecordLive(d, groups, key);
    OneRecordLive(log[i], groups, key);
  }

  /**
   Revoking the record a group decision wrote for one site undoes that site only: no other record changes,
   the group decision included, and the live records of every key are what they were without that one.
   */
  lemma MemberRevokedAlone(log: Log, i: nat, at: string, key: string)
    requires Kept(log) && i < |log| && log[i].IsActive() && log[i].inheritedFrom.Some?
    ensures var undone := RevokeGroup(log, log[i].id, at);
            && undone == RevokeRecord(log, i, at) && Groups(undone) == Groups(log)
            && LiveRecords(undone, key) == LiveUnderWithout(log, Groups(log), key, i)
            && (key != log[i].key ==> LiveRecords(undone, key) == LiveRecords(log, key))
  {
    hide Groups, LiveUnder, LiveUnderWithout, WellNumbered;
    forall j | 0 <= j < |log| ensures OfGroup(log[j], log[i].id) <==> j == i { MembersAreNoParents(log, i, j); }
    assert RevokeGroup(log, log[i].id, at) == RevokeRecord(log, i, at);
    MembersAreNoParents(log, i, i);
    SiteRecordsMakeNoGroups(log, i, at);
    StampedIsLeftOut(log, Groups(log), i, at, key);
  }

  // ---- Restores on any reachable log ----

  lemma FreshIdKeepsRestored(log: Log, d: Decision)
    requires forall i :: 0 <= i < |log| ==> log[i].id != d.id
    ensures RestoredKeys(log) <= RestoredKeys(log + [d])
  {
    hide RestoredKeys;
    if d.id in Groups(log) { GroupIdsAreInLog(log, d.id); }
    AppendKeepsRestored(log, d);
  }

  lemma NextMemberIsFresh(log: Log, group: string, n: nat)
    requires MembersBelow(log, group, n)
    ensures forall i :: 0 <= i < |log| ==> log[i].id != MemberId(group, n)
  {
    hide MemberId;
  }

  lemma {:induction false} GroupRecordsKeepRestored(log: Log, group: Decision, n: nat)
    requires Kept(log) && n <= |group.appliesTo| && group.id == NextId(log) && group.inheritedFrom.None?
    ensures RestoredKeys(log) <= RestoredKeys(log + GroupRecords(group, n))
  {
    hide RestoredKeys, NextId, TopLevelCount, MemberId, Kept, MembersBelow;
    if n == 0 {
      NextIdIsFresh(log);
      assert GroupRecords(group, 0) == [group];
      FreshIdKeepsRestored(log, group);
    } else {
      GroupRecordsKeepRestored(log, group, n - 1);
      KeptGroupRecords(log, group, n - 1);
      var before, d := log + GroupRecords(group, n - 1), MemberRecord(group, n - 1);
      assert log + GroupRecords(group, n) == before + [d];
      NextMemberIsFresh(before, group.id, n - 1);
      FreshIdKeepsRestored(before, d);
    }
  }

  lemma {:induction false} MigrationKeepsRestored(log: Log, records: Log)
    requires Kept(log) && AllTopLevel(records)
    ensures RestoredKeys(log) <= RestoredKeys(log + Numbered(records, TopLevelCount(log) + 1))
    decreases |records|
  {
    hide RestoredKeys, Kept, TopId, TopLevelCount;
    var first := TopLevelCount(log) + 1;
    if records == [] {
      assert log + Numbered(records, first) == log;
    } else {
      var n := |records| - 1;
      var before, d := log + Numbered(records[..n], first), records[n].(id := TopId(first + n));
      MigrationKeepsRestored(log, records[..n]);
      KeptNumbered(log, records[..n]);
      assert log + Numbered(records, first) == before + [d];
      NextIdIsFresh(before);
      FreshIdKeepsRestored(before, d);
    }
  }

  /** Nothing the store records takes a key out of the restored set. */
  lemma RecordingNeverLosesRestore(log: Log, node: string, members: seq<string>, req: Request, ctx: Context, records: Log)
    requires Kept(log)
    ensures RestoredKeys(log) <= RestoredKeys(log + [SiteRecord(log, req, ctx)])
    ensures var group := GroupRecord(log, node, members, req, ctx);
            RestoredKeys(log) <= RestoredKeys(log + GroupRecords(group, |group.appliesTo|))
    ensures AllTopLevel(records) ==>
              RestoredKeys(log) <= RestoredKeys(log + Numbered(records, TopLevelCount(log) + 1))
  {
    hide NextId, Trim, RestoredKeys, Kept, TopLevelCount, SiteDetails, GroupDetails, AllTopLevel;
    NextIdIsFresh(log);
    FreshIdKeepsRestored(log, SiteRecord(log, req, ctx));
    var group := GroupRecord(log, node, members, req, ctx);
    GroupRecordsKeepRestored(log, group, |group.appliesTo|);
    if AllTopLevel(records) { MigrationKeepsRestored(log, records); }
  }

  // ---- What recording does to the views ----

  /** The covered members are those not left out, the others are left out; both in order. */
  lemma {:induction false} MembersIs(members: seq<string>, except: seq<string>, excepted: bool, key: string)
    ensures key in Members(members, except, excepted) <==> key in members && (key in except <==> excepted)
  {
    if members != [] {
      MembersIs(members[1..], except, excepted, key);
      assert members == [members[0]] + members[1..];
    }
  }

  lemma MembersCons(key: string, members: seq<string>, except: seq<string>, excepted: bool)
    ensures Members([key] + members, except, excepted) ==
            (if key in except <==> excepted then [key] else []) + Members(members, except, excepted)
    ensures Members([], except, excepted) == []
  {
    assert ([key] + members)[1..] == members;
  }

  lemma {:induction false} MembersInOrder(a: seq<string>, key: string, b: seq<string>, except: seq<string>, excepted: bool)
    ensures Members(a + [key] + b, except, excepted) ==
            Members(a, except, excepted) + (if key in except <==> excepted then [key] else []) +
            Members(b, except, excepted)
  {
    if a == [] {
      assert a + [key] + b == [key] + b;
      MembersCons(key, b, except, excepted);
    } else {
      assert a + [key] + b == [a[0]] + (a[1..] + [key] + b) && a == [a[0]] + a[1..];
      MembersCons(a[0], a[1..] + [key] + b, except, excepted);
      MembersCons(a[0], a[1..], except, excepted);
      MembersInOrder(a[1..], key, b, except, excepted);
      hide Members;
    }
  }

  /** A group decision covers the members not excepted and leaves out the others; nothing else. */
  lemma GroupCovers(log: Log, node: string, members: seq<string>, req: Request, ctx: Context, key: string)
    ensures var group := GroupRecord(log, node, members, req, ctx);
            && (key in group.appliesTo <==> key in members && key !in req.except)
            && (key in group.leftOut <==> key in members && key in req.except)
  {
    MembersIs(members, req.except, false, key);
    MembersIs(members, req.except, true, key);
  }

  /** The member records of a group, with its state and reason. */
  ghost predicate IsWrittenBy(group: Decision, d: Decision, key: string)
  {
    && d.key == key && d.state == group.state && d.reason == group.reason && d.scope == Site && d.revokedAt.None?
    && d.inheritedFrom == Some(group.id)
  }

  lemma {:induction false} MembersAreLive(group: Decision, n: nat, groups: map<string, set<string>>, key: string)
    requires n <= |group.appliesTo| && group.IsNodeRecord()
    requires group.id in groups && groups[group.id] == set k | k in group.appliesTo
    ensures var live := LiveUnder(GroupRecords(group, n), groups, key);
            && (live != [] <==> key in group.appliesTo[..n]) && forall d :: d in live ==> IsWrittenBy(group, d, key)
  {
    hide MemberId, LiveUnder;
    if n == 0 {
      assert GroupRecords(group, 0) == [group];
      OneRecordLive(group, groups, key);
    } else {
      var d := MemberRecord(group, n - 1);
      MembersAreLive(group, n - 1, groups, key);
      assert GroupRecords(group, n) == GroupRecords(group, n - 1) + [d];
      LiveUnderConcat(GroupRecords(group, n - 1), [d], groups, key);
      OneRecordLive(d, groups, key);
      assert group.appliesTo[..n] == group.appliesTo[..n - 1] + [d.key];
    }
  }

  lemma {:induction false} GroupsAfterRecording(log: Log, group: Decision, n: nat)
    requires n <= |group.appliesTo| && group.IsNodeRecord() && group.IsActive()
    ensures Groups(log + GroupRecords(group, n)) == Groups(log)[group.id := set k | k in group.appliesTo]
  {
    hide MemberId;
    var all := log + GroupRecords(group, n);
    if n == 0 {
      assert all == log + [group] && all[..|all| - 1] == log;
    } else {
      GroupsAfterRecording(log, group, n - 1);
      assert all == log + GroupRecords(group, n - 1) + [MemberRecord(group, n - 1)];
      assert all[..|all| - 1] == log + GroupRecords(group, n - 1);
    }
  }

  /** Recording a group decision adds its own records to the live ones of each key, and none to a key it does not cover. */
  lemma LiveAfterGroup(log: Log, group: Decision, key: string)
    requires GroupsAreTopLevel(log) && IsFresh(log, group.id) && group.IsNodeRecord() && group.IsActive()
    ensures var (n, all) := (|group.appliesTo|, log + GroupRecords(group, |group.appliesTo|));
            LiveRecords(all, key) == LiveRecords(log, key) + LiveUnder(GroupRecords(group, n), Groups(all), key)
  {
    var n := |group.appliesTo|;
    var all := log + GroupRecords(group, n);
    GroupsAfterRecording(log, group, n);
    LiveUnderConcat(log, GroupRecords(group, n), Groups(all), key);
    forall i | 0 <= i < |log| ensures IsLive(Groups(all), log[i]) == IsLive(Groups(log), log[i]) {
      assert !OfGroup(log[i], group.id);
    }
    LiveUnderSameGroup(log, Groups(all), Groups(log), key);
  }

  lemma LatestIsLast(log: Log, key: string)
    requires LiveRecords(log, key) != []
    ensures key in LatestByKey(log) && LatestByKey(log)[key] == LiveRecords(log, key)[|LiveRecords(log, key)| - 1]
  {
    LiveKeysHaveRecords(log);
    hide LiveRecords, LiveKeys;
  }

  lemma LatestAfterGroup(log: Log, group: Decision, key: string)
    requires GroupsAreTopLevel(log) && IsFresh(log, group.id) && group.IsNodeRecord() && group.IsActive()
    ensures var all := log + GroupRecords(group, |group.appliesTo|);
            if key in group.appliesTo then key in LatestByKey(all) && IsWrittenBy(group, LatestByKey(all)[key], key)
            else LiveRecords(all, key) == LiveRecords(log, key)
  {
    var n := |group.appliesTo|;
    var all := log + GroupRecords(group, n);
    LiveAfterGroup(log, group, key);
    GroupsAfterRecording(log, group, n);
    MembersAreLive(group, n, Groups(all), key);
    assert group.appliesTo[..n] == group.appliesTo;
    hide Groups, LiveUnder, LiveRecords, LatestByKey, GroupRecords, IsWrittenBy;
    if key in group.appliesTo {
      var written := LiveUnder(GroupRecords(group, n), Groups(all), key);
      assert written[|written| - 1] in written;
      assert LiveRecords(all, key)[|LiveRecords(all, key)| - 1] == written[|written| - 1];
      LatestIsLast(all, key);
    }
  }

  /**
   On any log the store keeps, a recorded group decision is the latest record of each key it covers, with its
   state and trimmed reason; every key it does not cover keeps its live records.
   */
  lemma GroupDecisionChangesViews(log: Log, node: string, members: seq<string>, req: Request, ctx: Context, key: string)
    requires Kept(log)
    ensures var group := GroupRecord(log, node, members, req, ctx);
            var all := log + GroupRecords(group, |group.appliesTo|);
            if key in members && key !in req.except then
              && key in LatestByKey(all) && LatestByKey(all)[key].state == req.state
              && LatestByKey(all)[key].reason == Trim(req.reason) && LatestByKey(all)[key].inheritedFrom == Some(group.id)
            else LiveRecords(all, key) == LiveRecords(log, key)
  {
    hide NextId, Trim, GroupDetails, GroupRecords, Members, Kept, LatestByKey, LiveRecords;
    GroupCovers(log, node, members, req, ctx, key);
    NextIdIsFresh(log);
    LatestAfterGroup(log, GroupRecord(log, node, members, req, ctx), key);
  }

  /** A recorded site decision is the latest record of its key; every other key keeps its live records. */
  lemma SiteDecisionChangesViews(log: Log, req: Request, ctx: Context, key: string)
    requires Kept(log)
    ensures var d := SiteRecord(log, req, ctx);
            if key == Trim(req.key) then
              && key in LatestByKey(log + [d]) && LatestByKey(log + [d])[key] == d
              && d.state == req.state && d.reason == Trim(req.reason) && d.inheritedFrom.None?
            else LiveRecords(log + [d], key) == LiveRecords(log, key)
  {
    NextIdIsFresh(log);
    var d := SiteRecord(log, req, ctx);
    FreshLatest(log, d);
    FreshLiveRecords(log, d, key);
  }

  // ---- The columns and the refusals ----

  /** The first ids of a log. */
  lemma FirstIds()
    ensures NextId([]) == "dec-000001" && MemberId("dec-000001", 0) == "dec-000001.00000"
  {
    assert Decimal(1) == "1" && Decimal(0) == "0";
    assert Zeros(5) == "00000" && Zeros(4) == "0000";
  }

  lemma BlankIsTrimmedAway(s: string)
    ensures Trim(s) == "" <==> AllWhitespace(s)
  {
    TrimIs(s);
    var lead, tail :| AllWhitespace(lead) && AllWhitespace(tail) && s == lead + Trim(s) + tail;
    hide Trim, IsWhitespace;
    if Trim(s) == "" {
      assert s == lead + tail;
    } else {
      assert s[|lead|] == Trim(s)[0];
    }
  }

  /** What else a site record and the records of a group hold. */
  lemma OtherColumns(log: Log, node: string, members: seq<string>, req: Request, ctx: Context, i: nat)
    requires i < |GroupRecord(log, node, members, req, ctx).appliesTo|
    ensures var d := SiteRecord(log, req, ctx);
            && d.id == NextId(log) && d.key == Trim(req.key) && d.scope == Site && d.appliesTo == [] && d.leftOut == []
            && d.details == SiteDetails(req, ctx) && d.revokedAt == None
    ensures var group := GroupRecord(log, node, members, req, ctx);
            && group.id == NextId(log) && group.key == node && group.scope == Node(node) && group.state == req.state
            && group.inheritedFrom == None && group.revokedAt == None
            && group.details.decidedBy == (if AllWhitespace(req.decidedBy) then "reviewer" else Trim(req.decidedBy))
            && group.details.decidedAt == ctx.now && group.details.runId == ctx.runId
            && group.details.engineVersion == ctx.engineVersion
            && group.details.neededMe == None && group.details.sampleVerdict == None
            && MemberRecord(group, i).details == group.details && MemberRecord(group, i).appliesTo == []
            && MemberRecord(group, i).leftOut == [] && MemberRecord(group, i).id == MemberId(group.id, i)
  {
    BlankIsTrimmedAway(req.decidedBy);
    hide NextId, Trim, Members, MemberId;
  }

  /** The details of a site decision: blank fields take the server's values, the others are trimmed. */
  lemma SiteColumns(req: Request, ctx: Context)
    ensures var d := SiteDetails(req, ctx);
            && d.decidedBy == (if AllWhitespace(req.decidedBy) then "reviewer" else Trim(req.decidedBy))
            && d.runId == (if AllWhitespace(req.runId) then ctx.runId else Trim(req.runId))
            && d.decidedAt == (if AllWhitespace(req.decidedAt) || !ctx.isTime(Trim(req.decidedAt)) then ctx.now
                               else Trim(req.decidedAt))
            && d.engineVersion == ctx.engineVersion && d.neededMe == req.neededMe && d.sampleVerdict == req.sampleVerdict
  {
    BlankIsTrimmedAway(req.decidedBy);
    BlankIsTrimmedAway(req.runId);
    BlankIsTrimmedAway(req.decidedAt);
  }

  /** A site decision is refused for a blank key, a merge into nothing or itself, or a missing reason, in that order. */
  lemma SiteRefusals(req: Request)
    ensures SiteError(req) == Some(KeyRequired) <==> AllWhitespace(req.key)
    ensures SiteError(req) == Some(MergeTargetInvalid) <==>
            && !AllWhitespace(req.key) && req.state.MergedInto?
            && (AllWhitespace(req.state.target) || req.state.target == Trim(req.key))
    ensures SiteError(req) == None ==>
              (AllWhitespace(req.reason) <==> Trim(req.reason) == "") &&
              (AllWhitespace(req.reason) ==> req.state in {Confirmed, TechDebtNow, TechDebtLater})
    ensures SiteError(req).Some? ==>
              || SiteError(req) in {Some(KeyRequired), Some(MergeTargetInvalid)}
              || (SiteError(req) == Some(ReasonRequired) && AllWhitespace(req.reason)
                  && req.state !in {Confirmed, TechDebtNow, TechDebtLater})
  {
    BlankIsTrimmedAway(req.key);
    BlankIsTrimmedAway(req.reason);
    if req.state.MergedInto? { BlankIsTrimmedAway(req.state.target); }
  }

  /** A group decision is refused for a merge, a missing reason, or when it would cover nobody, in that order. */
  lemma NodeRefusals(node: string, members: seq<string>, req: Request)
    ensures NodeError(node, members, req) == Some(NodeMerge) <==> req.state.MergedInto?
    ensures NodeError(node, members, req) == Some(ReasonRequired) <==> !req.state.MergedInto? && AllWhitespace(req.reason)
    ensures NodeError(node, members, req) == Some(EmptyNode(node)) <==>
            !req.state.MergedInto? && !AllWhitespace(req.reason) && forall key :: key in members ==> key in req.except
    ensures NodeError(node, members, req) in {None, Some(NodeMerge), Some(ReasonRequired), Some(EmptyNode(node))}
  {
    BlankIsTrimmedAway(req.reason);
    forall key ensures key in Members(members, req.except, false) <==> key in members && key !in req.except {
      MembersIs(members, req.except, false, key);
    }
    var covered := Members(members, req.except, false);
    if covered != [] { assert covered[0] in covered; }
  }

  lemma {:induction false} FindIdIsFirst(log: Log, id: string)
    ensures match FindId(log, id)
            case None => forall d :: d in log ==> d.id != id
            case Some(d) => exists i :: 0 <= i < |log| && log[i] == d && d.id == id && forall j :: 0 <= j < i ==> log[j].id != id
  {
    if log != [] && log[0].id != id {
      FindIdIsFirst(log[1..], id);
      assert log == [log[0]] + log[1..];
      if FindId(log[1..], id).Some? {
        var d := FindId(log[1..], id).value;
        var i :| 0 <= i < |log| - 1 && log[1..][i] == d && d.id == id && forall j :: 0 <= j < i ==> log[1..][j].id != id;
        assert log[i + 1] == d;
        assert forall j :: 1 <= j < i + 1 ==> log[j] == log[1..][j - 1];
      }
    }
  }

  /** A revocation is refused when no record has the id, or the record that has it is revoked already. */
  lemma RevokeRefusals(log: Log, id: string)
    requires UniqueIds(log)
    ensures RevokeError(log, id) == Some(NotFound(id)) <==> forall d :: d in log ==> d.id != id
    ensures RevokeError(log, id) == Some(AlreadyRevoked(id)) <==> exists d :: d in log && d.id == id && d.revokedAt.Some?
    ensures RevokeError(log, id).None? <==> exists d :: d in log && d.id == id && d.revokedAt.None?
  {
    FindIdIsFirst(log, id);
    forall d, e | d in log && e in log && d.id == e.id ensures d == e {
      var i :| 0 <= i < |log| && log[i] == d;
      var j :| 0 <= j < |log| && log[j] == e;
      assert i == j;
    }
  }
}
