/**
 The project's ruleset: carrying rule-drift baselines over a re-save, merging custom rules, and the id
 of the next memory entry.
 */
module Projects {
  import opened Sequences
  import opened Digits

  datatype Selection = Selection(ruleId: string, chosenOption: Option<string>, repos: seq<string>,
                                 appliedHash: Option<string>, appliedDirective: Option<string>,
                                 appliedVersion: Option<nat>)
  {
    predicate IsBaselined() { appliedHash.Some? }
  }

  datatype CustomRule = CustomRule(name: string, body: string, domain: string, repos: seq<string>)

  // ---- Inheriting baselines ----

  /** `prior` carries a baseline for the decision `sel` makes: same rule, same option. */
  predicate SameDecision(sel: Selection, prior: Selection)
  {
    prior.IsBaselined() && sel.ruleId == prior.ruleId && sel.chosenOption == prior.chosenOption
  }

  function WithBaselineOf(sel: Selection, prior: Selection): Selection
  {
    sel.(appliedHash := prior.appliedHash, appliedDirective := prior.appliedDirective,
         appliedVersion := prior.appliedVersion)
  }

  /** `inherit_baseline_from`: the selection after the call, and whether it inherited. */
  function InheritFrom(sel: Selection, prior: Selection): (Selection, bool)
  {
    if sel.IsBaselined() || !prior.IsBaselined() || sel.ruleId != prior.ruleId
       || sel.chosenOption != prior.chosenOption
    then (sel, false)
    else (WithBaselineOf(sel, prior), true)
  }

  /** The first entry from `k` on that satisfies `p`, or the length of the list. */
  function FirstWhere(existing: seq<Selection>, p: Selection -> bool, k: nat): (i: nat)
    requires k <= |existing|
    ensures k <= i <= |existing|
    ensures i < |existing| ==> p(existing[i])
    ensures forall j :: k <= j < i ==> !p(existing[j])
    decreases |existing| - k
  {
    if k == |existing| || p(existing[k]) then k else FirstWhere(existing, p, k + 1)
  }

  function Decides(sel: Selection): Selection -> bool
  {
    (prior: Selection) => SameDecision(sel, prior)
  }

  function PlacedLike(sel: Selection): Selection -> bool
  {
    (prior: Selection) => prior.repos == sel.repos
  }

  /** The entry a bare selection takes its baseline from, or the length of the list. */
  function Source(sel: Selection, existing: seq<Selection>): nat
  {
    var placed := FirstWhere(existing, PlacedLike(sel), 0);
    if placed < |existing| && SameDecision(sel, existing[placed]) then placed
    else FirstWhere(existing, Decides(sel), 0)
  }

  function Inherited(sel: Selection, existing: seq<Selection>): Selection
  {
    var i := Source(sel, existing);
    if sel.IsBaselined() || i >= |existing| then sel else WithBaselineOf(sel, existing[i])
  }

  function InheritAll(incoming: seq<Selection>, existing: seq<Selection>): seq<Selection>
  {
    seq(|incoming|, i requires 0 <= i < |incoming| => Inherited(incoming[i], existing))
  }

  /** `inherit_baselines`, in place. */
  method InheritBaselines(incoming: array<Selection>, existing: seq<Selection>)
    modifies incoming
    ensures incoming[..] == InheritAll(old(incoming[..]), existing)
  {
    for n := 0 to incoming.Length
      invariant forall i :: 0 <= i < incoming.Length ==>
                  incoming[i] == if i < n then Inherited(old(incoming[i]), existing) else old(incoming[i])
    {
      if incoming[n].IsBaselined() { continue; }
      var placed := FirstWhere(existing, PlacedLike(incoming[n]), 0);
      if placed < |existing| {
        var (sel, inherited) := InheritFrom(incoming[n], existing[placed]);
        incoming[n] := sel;
        if inherited { continue; }
      }
      var k := 0;
      while k < |existing| && !InheritFrom(incoming[n], existing[k]).1
        invariant 0 <= k <= |existing|
        invariant forall j :: 0 <= j < k ==> !SameDecision(incoming[n], existing[j])
      {
        k := k + 1;
      }
      if k < |existing| { incoming[n] := InheritFrom(incoming[n], existing[k]).0; }
    }
  }

  /** A re-save changes no rule, option or placement, and never an own baseline. */
  lemma InheritKeepsTheDecision(sel: Selection, existing: seq<Selection>)
    ensures var out := Inherited(sel, existing);
            && out.ruleId == sel.ruleId && out.chosenOption == sel.chosenOption && out.repos == sel.repos
            && (sel.IsBaselined() ==> out == sel)
  {
  }

  /** A selection ends baselined exactly when it was, or the old list holds a baseline for its decision. */
  lemma BaselinedIff(sel: Selection, existing: seq<Selection>)
    ensures Inherited(sel, existing).IsBaselined() <==>
            sel.IsBaselined() || exists prior :: prior in existing && SameDecision(sel, prior)
  {
    var i := FirstWhere(existing, Decides(sel), 0);
    if prior :| prior in existing && SameDecision(sel, prior) {
      var j :| 0 <= j < |existing| && existing[j] == prior;
      assert Decides(sel)(existing[j]);
    }
  }

  /** The baseline is that of the first equal-repos entry when it qualifies, otherwise of the first that does. */
  lemma BaselineComesFrom(sel: Selection, existing: seq<Selection>, i: nat)
    requires !sel.IsBaselined() && i < |existing| && SameDecision(sel, existing[i])
    requires || (existing[i].repos == sel.repos && forall j :: 0 <= j < i ==> existing[j].repos != sel.repos)
             || ((forall j :: 0 <= j < i ==> !SameDecision(sel, existing[j])) &&
                 forall k :: 0 <= k < |existing| && existing[k].repos == sel.repos &&
                             (forall j :: 0 <= j < k ==> existing[j].repos != sel.repos) ==>
                   !SameDecision(sel, existing[k]))
    ensures Inherited(sel, existing) == WithBaselineOf(sel, existing[i])
  {
    var placed := FirstWhere(existing, PlacedLike(sel), 0);
    var decided := FirstWhere(existing, Decides(sel), 0);
    assert Decides(sel)(existing[i]);
    assert forall j :: 0 <= j < placed ==> !PlacedLike(sel)(existing[j]);
    assert forall j :: 0 <= j < decided ==> !Decides(sel)(existing[j]);
  }

  function DecidesHere(sel: Selection): Selection -> bool
  {
    (prior: Selection) => SameDecision(sel, prior) && prior.repos == sel.repos
  }

  /**
   "The placement with the same repos wins" holds exactly when the first entry with those repos, of
   whatever rule, qualifies, or the first qualifying entry happens to have those repos.
   */
  lemma SamePlacementWinsIff(sel: Selection, existing: seq<Selection>)
    requires exists prior :: prior in existing && DecidesHere(sel)(prior)
    ensures var placed := FirstWhere(existing, PlacedLike(sel), 0);
            var decided := FirstWhere(existing, Decides(sel), 0);
            && placed < |existing| && decided < |existing|
            && (Source(sel, existing) == FirstWhere(existing, DecidesHere(sel), 0) <==>
                SameDecision(sel, existing[placed]) || existing[decided].repos == sel.repos)
  {
    var here := FirstWhere(existing, DecidesHere(sel), 0);
    var prior :| prior in existing && DecidesHere(sel)(prior);
    var j :| 0 <= j < |existing| && existing[j] == prior;
    assert DecidesHere(sel)(existing[j]);
    assert PlacedLike(sel)(existing[here]) && Decides(sel)(existing[here]);
    var placed := FirstWhere(existing, PlacedLike(sel), 0);
    var decided := FirstWhere(existing, Decides(sel), 0);
    assert DecidesHere(sel)(existing[decided]) <==> existing[decided].repos == sel.repos;
    assert DecidesHere(sel)(existing[placed]) <==> SameDecision(sel, existing[placed]);
  }

  /** Another rule placed on the same repos makes a rule take the baseline of its other placement. */
  lemma OtherRuleHidesPlacement()
    ensures var other := Selection("B", None, ["r"], None, None, None);
            var elsewhere := Selection("A", None, ["q"], Some("old"), None, None);
            var here := Selection("A", None, ["r"], Some("new"), None, None);
            Inherited(Selection("A", None, ["r"], None, None, None), [other, elsewhere, here]).appliedHash == Some("old")
  {
    var other := Selection("B", None, ["r"], None, None, None);
    var elsewhere := Selection("A", None, ["q"], Some("old"), None, None);
    var here := Selection("A", None, ["r"], Some("new"), None, None);
    var sel := Selection("A", None, ["r"], None, None, None);
    assert "A" != "B" by { assert "A"[0] != "B"[0]; }
    assert PlacedLike(sel)(other) && !Decides(sel)(other) && Decides(sel)(elsewhere);
  }

  // ---- Any number of re-saves ----

  /** The list after a run of saves. */
  function AfterSaves(existing: seq<Selection>, saves: seq<seq<Selection>>): seq<Selection>
    decreases |saves|
  {
    if saves == [] then existing else AfterSaves(InheritAll(saves[0], existing), saves[1..])
  }

  /** Some entry of the list makes this decision. */
  ghost predicate Mentions(list: seq<Selection>, ruleId: string, option: Option<string>)
  {
    exists i :: 0 <= i < |list| && list[i].ruleId == ruleId && list[i].chosenOption == option
  }

  ghost predicate HoldsBaseline(list: seq<Selection>, ruleId: string, option: Option<string>)
  {
    exists i :: 0 <= i < |list| && list[i].ruleId == ruleId && list[i].chosenOption == option && list[i].IsBaselined()
  }

  /** One save: every entry of a baselined decision comes out baselined. */
  lemma SaveKeepsBaseline(incoming: seq<Selection>, existing: seq<Selection>, ruleId: string, option: Option<string>)
    requires HoldsBaseline(existing, ruleId, option)
    ensures forall i :: 0 <= i < |incoming| && incoming[i].ruleId == ruleId && incoming[i].chosenOption == option ==>
              InheritAll(incoming, existing)[i].IsBaselined()
    ensures Mentions(incoming, ruleId, option) ==> HoldsBaseline(InheritAll(incoming, existing), ruleId, option)
  {
    var k :| 0 <= k < |existing| && existing[k].ruleId == ruleId && existing[k].chosenOption == option
             && existing[k].IsBaselined();
    forall i | 0 <= i < |incoming| && incoming[i].ruleId == ruleId && incoming[i].chosenOption == option
      ensures InheritAll(incoming, existing)[i].IsBaselined()
    {
      assert existing[k] in existing && SameDecision(incoming[i], existing[k]);
      BaselinedIff(incoming[i], existing);
    }
    if Mentions(incoming, ruleId, option) {
      var i :| 0 <= i < |incoming| && incoming[i].ruleId == ruleId && incoming[i].chosenOption == option;
      var out := InheritAll(incoming, existing);
      InheritKeepsTheDecision(incoming[i], existing);
      assert out[i].ruleId == ruleId && out[i].chosenOption == option && out[i].IsBaselined();
    }
  }

  /** No run of saves that keep a decision in the list ever loses its baseline. */
  lemma {:induction false} ResavesNeverLoseBaseline(existing: seq<Selection>, saves: seq<seq<Selection>>, ruleId: string,
                                                    option: Option<string>)
    requires HoldsBaseline(existing, ruleId, option)
    requires forall n :: 0 <= n < |saves| ==> Mentions(saves[n], ruleId, option)
    ensures HoldsBaseline(AfterSaves(existing, saves), ruleId, option)
    decreases |saves|
  {
    hide HoldsBaseline, Mentions;
    if saves != [] {
      SaveKeepsBaseline(saves[0], existing, ruleId, option);
      assert forall n :: 0 <= n < |saves| - 1 ==> saves[1..][n] == saves[n + 1];
      ResavesNeverLoseBaseline(InheritAll(saves[0], existing), saves[1..], ruleId, option);
    }
  }

  predicate SameBaseline(a: Selection, b: Selection)
  {
    && a.ruleId == b.ruleId && a.chosenOption == b.chosenOption && a.appliedHash == b.appliedHash
    && a.appliedDirective == b.appliedDirective && a.appliedVersion == b.appliedVersion
  }

  lemma BareInheritsOld(sel: Selection, existing: seq<Selection>)
    requires !sel.IsBaselined() && Inherited(sel, existing).IsBaselined()
    ensures exists prior :: prior in existing && SameBaseline(Inherited(sel, existing), prior)
  {
    var i := Source(sel, existing);
    assert existing[i] in existing && SameBaseline(Inherited(sel, existing), existing[i]);
  }

  /** Bare re-saves invent no baseline: each one at the end stood at the start, for the same decision. */
  lemma {:induction false} BareResavesInventNothing(existing: seq<Selection>, saves: seq<seq<Selection>>, out: Selection)
    requires forall n :: 0 <= n < |saves| ==> forall sel :: sel in saves[n] ==> !sel.IsBaselined()
    requires out in AfterSaves(existing, saves) && out.IsBaselined()
    ensures exists prior :: prior in existing && SameBaseline(out, prior)
    decreases |saves|
  {
    if saves == [] {
      assert SameBaseline(out, out);
    } else {
      assert forall n :: 0 <= n < |saves| - 1 ==> saves[1..][n] == saves[n + 1];
      var saved := InheritAll(saves[0], existing);
      BareResavesInventNothing(saved, saves[1..], out);
      var middle :| middle in saved && SameBaseline(out, middle);
      var i :| 0 <= i < |saved| && saved[i] == middle;
      assert saves[0][i] in saves[0];
      BareInheritsOld(saves[0][i], existing);
    }
  }

  // ---- Custom rules ----

  /** The first rule of that name, or the length of the list. */
  function Named(custom: seq<CustomRule>, name: string): (i: nat)
    ensures i <= |custom|
    ensures i < |custom| ==> custom[i].name == name
    ensures forall j :: 0 <= j < i ==> custom[j].name != name
  {
    if custom == [] || custom[0].name == name then 0 else 1 + Named(custom[1..], name)
  }

  function Put(custom: seq<CustomRule>, c: CustomRule): seq<CustomRule>
  {
    var i := Named(custom, c.name);
    if i < |custom| then custom[i := c] else custom + [c]
  }

  function Merged(custom: seq<CustomRule>, incoming: seq<CustomRule>): seq<CustomRule>
  {
    if incoming == [] then custom else Put(Merged(custom, incoming[..|incoming| - 1]), incoming[|incoming| - 1])
  }

  /** The last incoming rule of that name. */
  function LastNamed(incoming: seq<CustomRule>, name: string): Option<CustomRule>
  {
    if incoming == [] then None
    else if incoming[|incoming| - 1].name == name then Some(incoming[|incoming| - 1])
    else LastNamed(incoming[..|incoming| - 1], name)
  }

  function FindRule(custom: seq<CustomRule>, name: string): Option<CustomRule>
  {
    var i := Named(custom, name);
    if i < |custom| then Some(custom[i]) else None
  }

  lemma NamedIs(custom: seq<CustomRule>, name: string, i: nat)
    requires i <= |custom| && (i < |custom| ==> custom[i].name == name)
    requires forall j :: 0 <= j < i ==> custom[j].name != name
    ensures Named(custom, name) == i
  {
  }

  /** Putting a rule moves no other: the names before it stay where they are. */
  lemma NamedAfterPut(custom: seq<CustomRule>, c: CustomRule, name: string)
    ensures var i := Named(custom, name);
            Named(Put(custom, c), name) ==
            if i < |custom| || name == c.name then i else |Put(custom, c)|
  {
    var i := Named(custom, name);
    NamedIs(Put(custom, c), name, if i < |custom| || name == c.name then i else |Put(custom, c)|);
  }

  /** After a merge a name stands for the last incoming rule of that name, or for what it stood for before. */
  lemma {:induction false} MergedMeaning(custom: seq<CustomRule>, incoming: seq<CustomRule>, name: string)
    ensures FindRule(Merged(custom, incoming), name) ==
            if LastNamed(incoming, name).Some? then LastNamed(incoming, name) else FindRule(custom, name)
  {
    hide Named;
    if incoming != [] {
      var init, c := incoming[..|incoming| - 1], incoming[|incoming| - 1];
      MergedMeaning(custom, init, name);
      NamedAfterPut(Merged(custom, init), c, name);
    }
  }

  /** A merge drops no rule and moves none; a rule changes only when it is the first of an incoming name. */
  lemma {:induction false} MergeKeepsPlaces(custom: seq<CustomRule>, incoming: seq<CustomRule>, i: nat)
    requires i < |custom|
    ensures var merged := Merged(custom, incoming);
            && i < |merged| && merged[i].name == custom[i].name
            && Named(merged, custom[i].name) == Named(custom, custom[i].name)
            && (LastNamed(incoming, custom[i].name).None? || Named(custom, custom[i].name) != i ==> merged[i] == custom[i])
  {
    hide Named;
    if incoming != [] {
      var init, c := incoming[..|incoming| - 1], incoming[|incoming| - 1];
      MergeKeepsPlaces(custom, init, i);
      NamedAfterPut(Merged(custom, init), c, custom[i].name);
    }
  }

  /** The rules a merge adds are the first of their name, and their name is incoming. */
  lemma {:induction false} MergeAddsNewNames(custom: seq<CustomRule>, incoming: seq<CustomRule>, i: nat)
    requires |custom| <= i < |Merged(custom, incoming)|
    ensures var name := Merged(custom, incoming)[i].name;
            Named(Merged(custom, incoming), name) == i && LastNamed(incoming, name).Some?
  {
    hide Named;
    if incoming != [] {
      var init, c := incoming[..|incoming| - 1], incoming[|incoming| - 1];
      var before := Merged(custom, init);
      if i < |before| {
        MergeAddsNewNames(custom, init, i);
        NamedAfterPut(before, c, before[i].name);
      } else {
        NamedAfterPut(before, c, c.name);
      }
    }
  }

  /** Merging again changes nothing. */
  lemma MergeIsIdempotent(custom: seq<CustomRule>, incoming: seq<CustomRule>)
    ensures Merged(Merged(custom, incoming), incoming) == Merged(custom, incoming)
  {
    var merged := Merged(custom, incoming);
    var again := Merged(merged, incoming);
    hide Merged;
    if |again| > |merged| {
      var name := again[|merged|].name;
      MergeAddsNewNames(merged, incoming, |merged|);
      MergedMeaning(custom, incoming, name);
      MergeKeepsPlaces(merged, incoming, Named(merged, name));
    }
    forall i: nat | i < |merged| ensures i < |again| && again[i] == merged[i] {
      MergeKeepsPlaces(merged, incoming, i);
      MergedMeaning(custom, incoming, merged[i].name);
      MergedMeaning(merged, incoming, merged[i].name);
    }
    if |merged| > 0 { MergeKeepsPlaces(merged, incoming, |merged| - 1); }
  }

  // ---- Memory ids ----

  const USIZE_MAX: nat := 0xFFFF_FFFF_FFFF_FFFF

  /** The number of a `mem-N` id. */
  function MemoryNumber(id: string): Option<nat>
  {
    if "mem-" <= id then ParseUnsigned(id[4..], USIZE_MAX) else None
  }

  function LargestNumber(ids: seq<string>): nat
  {
    if ids == [] then 0
    else
      var rest := LargestNumber(ids[1..]);
      match MemoryNumber(ids[0])
      case Some(n) => if n > rest then n else rest
      case None => rest
  }

  /** `next_memory_id`; the addition wraps, as it does in a build without overflow checks. */
  function NextMemoryId(ids: seq<string>): string
  {
    "mem-" + Decimal((LargestNumber(ids) + 1) % (USIZE_MAX + 1))
  }

  lemma {:induction false} LargestBounds(ids: seq<string>, id: string)
    requires id in ids && MemoryNumber(id).Some?
    ensures MemoryNumber(id).value <= LargestNumber(ids)
  {
    hide MemoryNumber;
    if ids[0] != id { LargestBounds(ids[1..], id); }
  }

  lemma {:induction false} LargestFits(ids: seq<string>)
    ensures LargestNumber(ids) <= USIZE_MAX
  {
    hide DigitsValue;
    if ids != [] { LargestFits(ids[1..]); }
  }

  lemma MemoryNumberOf(n: nat)
    requires n <= USIZE_MAX
    ensures MemoryNumber("mem-" + Decimal(n)) == Some(n)
  {
    hide Decimal, DigitsValue;
    DecimalValue(n);
    assert IsDigit(Decimal(n)[0]);
    assert ("mem-" + Decimal(n))[4..] == Decimal(n);
  }

  lemma LastWraps()
    ensures "mem-" + Decimal((USIZE_MAX + 1) % (USIZE_MAX + 1)) == "mem-0"
  {
  }

  /** The next id is in use exactly when the numbers have run out and `mem-0` is taken, whatever the ids look like. */
  lemma NextMemoryIdInUseIff(ids: seq<string>)
    ensures NextMemoryId(ids) in ids <==> LargestNumber(ids) == USIZE_MAX && "mem-0" in ids
  {
    LargestFits(ids);
    LastWraps();
    hide Decimal, MemoryNumber, LargestNumber;
    var largest := LargestNumber(ids);
    if largest < USIZE_MAX {
      assert (largest + 1) % (USIZE_MAX + 1) == largest + 1;
      MemoryNumberOf(largest + 1);
      if NextMemoryId(ids) in ids { LargestBounds(ids, NextMemoryId(ids)); }
    }
  }

  /** The largest number is some entry's, unless no entry has a number. */
  lemma {:induction false} LargestIsAttained(ids: seq<string>)
    ensures LargestNumber(ids) == 0 || exists id :: id in ids && MemoryNumber(id) == Some(LargestNumber(ids))
  {
    hide MemoryNumber;
    if ids != [] {
      LargestIsAttained(ids[1..]);
      assert ids == [ids[0]] + ids[1..] && ids[0] in ids;
    }
  }

  /** Short of the last number, the next id is numbered one above the largest. */
  lemma NextIsOneMore(ids: seq<string>)
    requires LargestNumber(ids) < USIZE_MAX
    ensures MemoryNumber(NextMemoryId(ids)) == Some(LargestNumber(ids) + 1)
  {
    hide Decimal, MemoryNumber, LargestNumber;
    var next := LargestNumber(ids) + 1;
    assert next % (USIZE_MAX + 1) == next;
    MemoryNumberOf(next);
  }

  /** The first entry is `mem-1`. */
  lemma FirstMemoryId()
    ensures NextMemoryId([]) == "mem-1"
  {
    assert Decimal(1) == "1";
    hide Decimal;
    assert LargestNumber([]) == 0;
  }

  lemma LargestTextHead()
    ensures DigitsValue("184467440737") == 184467440737
  {
    assert "184467440737"[..11] == "18446744073" && "18446744073"[..10] == "1844674407";
    assert "1844674407"[..9] == "184467440" && "184467440"[..8] == "18446744";
    assert DigitsValue("18446744") == 18446744 by {
      assert "18446744"[..7] == "1844674" && "1844674"[..6] == "184467" && "184467"[..5] == "18446";
      assert "18446"[..4] == "1844" && "1844"[..3] == "184" && "184"[..2] == "18" && "18"[..1] == "1" && "1"[..0] == "";
    }
  }

  lemma LargestTextStart()
    ensures DigitsValue("1844674407370955") == 1844674407370955
  {
    assert "1844674407370955"[..15] == "184467440737095" && "184467440737095"[..14] == "18446744073709";
    assert "18446744073709"[..13] == "1844674407370" && "1844674407370"[..12] == "184467440737";
    LargestTextHead();
  }

  lemma LargestText()
    ensures AllDigits("18446744073709551615") && DigitsValue("18446744073709551615") == USIZE_MAX
  {
    var all := "18446744073709551615";
    assert all[..19] == "1844674407370955161" && "1844674407370955161"[..18] == "184467440737095516";
    assert "184467440737095516"[..17] == "18446744073709551" && "18446744073709551"[..16] == "1844674407370955";
    LargestTextStart();
  }

  /** Beside the largest number, an entry `mem-0` has its id handed out again. */
  lemma NextMemoryIdWitness()
    ensures NextMemoryId(["mem-0", "mem-18446744073709551615"]) == "mem-0"
  {
    var last := "mem-18446744073709551615";
    var ids := ["mem-0", last];
    LargestText();
    assert last[4..] == "18446744073709551615" && "mem-" <= last && IsDigit(last[4]);
    assert MemoryNumber(last) == Some(USIZE_MAX);
    hide Decimal, MemoryNumber, LargestNumber, DigitsValue;
    assert ids[1] == last;
    LargestBounds(ids, last);
    LargestFits(ids);
    LastWraps();
  }

  // ---- The project ----

  class Project {
    var selections: seq<Selection>
    var crossRepo: seq<Selection>
    var process: seq<Selection>
    var custom: seq<CustomRule>
    var memory: seq<string>

    constructor ()
      ensures selections == [] && crossRepo == [] && process == [] && custom == [] && memory == []
    {
      selections, crossRepo, process, custom, memory := [], [], [], [], [];
    }

    /** `upsert_base_rules`; the three lists are handed over, so no two are one array. */
    method UpsertBaseRules(selections: array<Selection>, crossRepo: array<Selection>, process: array<Selection>)
      requires selections != crossRepo && crossRepo != process && selections != process
      modifies this, selections, crossRepo, process
      ensures this.selections == InheritAll(old(selections[..]), old(this.selections))
      ensures this.crossRepo == InheritAll(old(crossRepo[..]), old(this.crossRepo))
      ensures this.process == InheritAll(old(process[..]), old(this.process))
      ensures custom == old(custom) && memory == old(memory)
    {
      InheritBaselines(selections, this.selections);
      InheritBaselines(crossRepo, this.crossRepo);
      InheritBaselines(process, this.process);
      this.selections := selections[..];
      this.crossRepo := crossRepo[..];
      this.process := process[..];
    }

    /** `merge_custom`. */
    method MergeCustom(incoming: seq<CustomRule>)
      modifies `custom
      ensures custom == Merged(old(custom), incoming)
    {
      for n := 0 to |incoming|
        invariant custom == Merged(old(custom), incoming[..n])
      {
        assert incoming[..n + 1][..n] == incoming[..n];
        var i := Named(custom, incoming[n].name);
        custom := if i < |custom| then custom[i := incoming[n]] else custom + [incoming[n]];
      }
      assert incoming[..|incoming|] == incoming;
    }
  }
}
