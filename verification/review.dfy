/**
 The escalation line of the review tree: how many slots one run sends to the architect, and which
 candidates stand inside that number.
 */
module Review {
  import opened Sequences
  import opened Text

  datatype Reason =
    | UnauthenticatedReach | SecretExposure | DataLoss | CrossTenant | AuthorizationBypass | Injection
    | ConflictingVerdicts | LikelyFalseAlarmAtHighSeverity | OutlierInGroup | RuleMisfit
    | EvidenceUnverified | NeedsMoreCode

  predicate IsSevereAtHigh(r: Reason)
  {
    r.SecretExposure? || r.DataLoss? || r.CrossTenant? || r.AuthorizationBypass? || r.Injection?
  }

  /** `eq_ignore_ascii_case`. */
  predicate EqIgnoreCase(a: string, b: string)
  {
    Lower(a) == Lower(b)
  }

  predicate MayExceedBudget(r: Reason, severity: string, allowed: seq<Reason>)
  {
    || r.EvidenceUnverified?
    || (r in allowed &&
        (EqIgnoreCase(severity, "critical") || (IsSevereAtHigh(r) && EqIgnoreCase(severity, "high"))))
  }

  datatype Candidate = Candidate(key: string, nodeId: string, reason: Reason, severity: string,
                                 stage2Severity: Option<string>, stage2Rank: nat, globalRank: nat, slot: nat,
                                 escalated: bool, overBudgetReason: Option<Reason>, why: string)

  function SeverityWeight(severity: string): nat
  {
    var s := Lower(severity);
    if s == "critical" then 3 else if s == "high" then 2 else if s == "medium" then 1 else 0
  }

  function OrderingSeverity(c: Candidate): string
  {
    match c.stage2Severity
    case Some(s2) => if SeverityWeight(s2) > SeverityWeight(c.severity) then s2 else c.severity
    case None => c.severity
  }

  predicate Eligible(c: Candidate, allowed: seq<Reason>)
  {
    MayExceedBudget(c.reason, OrderingSeverity(c), allowed)
  }

  function Max(a: nat, b: nat): nat
  {
    if a >= b then a else b
  }

  function HigherWeight(c: Candidate): nat
  {
    var own := SeverityWeight(c.severity);
    match c.stage2Severity case Some(s2) => Max(own, SeverityWeight(s2)) case None => own
  }

  /** The severity that orders a row is the higher of the two, the row's own on a tie. */
  lemma OrderingSeverityIsHigher(c: Candidate)
    ensures SeverityWeight(OrderingSeverity(c)) == HigherWeight(c)
    ensures SeverityWeight(c.severity) == HigherWeight(c) ==> OrderingSeverity(c) == c.severity
  {
  }

  /** The four weights: the three names in any casing, and everything else. */
  lemma SeverityTable(severity: string)
    ensures SeverityWeight(severity) == 3 <==> EqIgnoreCase(severity, "critical")
    ensures SeverityWeight(severity) == 2 <==> EqIgnoreCase(severity, "high")
    ensures SeverityWeight(severity) == 1 <==> EqIgnoreCase(severity, "medium")
    ensures SeverityWeight(severity) <= 3
  {
    assert Lower("critical") == "critical" && Lower("high") == "high" && Lower("medium") == "medium";
    assert |"critical"| == 8 && |"high"| == 4 && |"medium"| == 6;
  }

  /** Equal up to the case of ASCII letters, character by character. */
  lemma EqIgnoreCaseIs(a: string, b: string)
    ensures EqIgnoreCase(a, b) <==> |a| == |b| && forall i :: 0 <= i < |a| ==> LowerChar(a[i]) == LowerChar(b[i])
  {
    assert forall i :: 0 <= i < |a| ==> Lower(a)[i] == LowerChar(a[i]);
    assert forall i :: 0 <= i < |b| ==> Lower(b)[i] == LowerChar(b[i]);
    assert |Lower(a)| == |a| && |Lower(b)| == |b|;
  }

  /** A row may exceed the budget by the higher of its two severities: critical, or high for the five severe reasons. */
  lemma EligibleByWeight(c: Candidate, allowed: seq<Reason>)
    ensures Eligible(c, allowed) <==>
            c.reason == EvidenceUnverified ||
            (c.reason in allowed &&
             (HigherWeight(c) == 3 ||
              (HigherWeight(c) == 2 &&
               c.reason in {SecretExposure, DataLoss, CrossTenant, AuthorizationBypass, Injection})))
  {
    OrderingSeverityIsHigher(c);
    assert Lower("critical") == "critical" && Lower("high") == "high";
    assert "critical" != "high" by { assert |"critical"| != |"high"|; }
  }

  /** A row stored before slots existed gets a slot to itself, which no stored slot number can meet. */
  function SlotId(c: Candidate, position: nat): (bool, nat)
  {
    if c.slot == 0 then (false, position) else (true, c.slot)
  }

  // ---- The budget ----

  /** The rate to three decimal places, half rounded up; a negative rate is zero. */
  function RateMilli(rate: real): nat
  {
    if rate < 0.0 then 0 else (rate * 1000.0 + 0.5).Floor
  }

  function DivCeil(a: nat, b: nat): nat
    requires b > 0
  {
    a / b + (if a % b > 0 then 1 else 0)
  }

  function ComputeBudget(rate: real, floor: nat, countedLines: nat): nat
  {
    Max(floor, DivCeil(countedLines * RateMilli(rate), 1_000_000))
  }

  /** The budget is the smallest number that is no less than the floor and no less than the exact rate. */
  lemma BudgetIsExactCeiling(rate: real, floor: nat, countedLines: nat, n: nat)
    ensures n >= ComputeBudget(rate, floor, countedLines) <==>
            n >= floor && n * 1_000_000 >= countedLines * RateMilli(rate)
  {
  }

  /** The milli-rate is the whole number nearest to a thousand times the rate, the upper one of two. */
  lemma RateIsRounded(rate: real)
    ensures rate >= 0.0 ==> rate * 1000.0 - 0.5 < RateMilli(rate) as real <= rate * 1000.0 + 0.5
    ensures rate < 0.0 ==> RateMilli(rate) == 0
  {
  }

  /** At a rate of 0.3, ten thousand lines allow 3 and one line more allows 4; a floor of 5 allows 5. */
  lemma BudgetWitness()
    ensures ComputeBudget(0.3, 0, 10_000) == 3 && ComputeBudget(0.3, 0, 10_001) == 4 && ComputeBudget(0.3, 5, 10_000) == 5
  {
    assert RateMilli(0.3) == 300;
  }

  lemma ProductMonotone(a: nat, b: nat, a': nat, b': nat)
    requires a <= a' && b <= b'
    ensures a * b <= a' * b'
  {
    assert a * b <= a' * b && a' * b <= a' * b';
  }

  lemma BudgetMonotone(rate: real, floor: nat, lines: nat, rate': real, floor': nat, lines': nat)
    requires rate <= rate' && floor <= floor' && lines <= lines'
    ensures ComputeBudget(rate, floor, lines) <= ComputeBudget(rate', floor', lines')
  {
    ProductMonotone(lines, RateMilli(rate), lines', RateMilli(rate'));
    BudgetIsExactCeiling(rate, floor, lines, ComputeBudget(rate', floor', lines'));
    BudgetIsExactCeiling(rate', floor', lines', ComputeBudget(rate', floor', lines'));
  }

  // ---- Slots, by first appearance ----

  predicate SameSlot(cs: seq<Candidate>, i: nat, j: nat)
    requires i < |cs| && j < |cs|
  {
    SlotId(cs[i], i) == SlotId(cs[j], j)
  }

  /** Rows share a slot exactly when they carry one stored slot number; a row stored without one is alone. */
  lemma SameSlotIff(cs: seq<Candidate>, i: nat, j: nat)
    requires i < |cs| && j < |cs|
    ensures SameSlot(cs, i, j) <==> i == j || (cs[i].slot != 0 && cs[i].slot == cs[j].slot)
  {
  }

  /** Row `i` is the first row of its slot. */
  predicate Leads(cs: seq<Candidate>, i: nat)
    requires i < |cs|
  {
    forall j: nat :: j < i ==> !SameSlot(cs, j, i)
  }

  /** The first rows of the slots that start before row `n`. */
  function Leaders(cs: seq<Candidate>, n: nat): seq<nat>
    requires n <= |cs|
  {
    if n == 0 then [] else Leaders(cs, n - 1) + (if Leads(cs, n - 1) then [n - 1] else [])
  }

  /** The first row of the slot of row `i`. */
  function First(cs: seq<Candidate>, i: nat, from: nat): (f: nat)
    requires from <= i < |cs|
    ensures from <= f <= i && SameSlot(cs, f, i)
    ensures forall j: nat :: from <= j < f ==> !SameSlot(cs, j, i)
    decreases i - from
  {
    if SameSlot(cs, from, i) then from else First(cs, i, from + 1)
  }

  /** The place of the slot of row `i` in the order of first appearance. */
  function SlotRank(cs: seq<Candidate>, i: nat): nat
    requires i < |cs|
  {
    |Leaders(cs, First(cs, i, 0))|
  }

  /** The reason of the first of the first `n` rows that lets the slot of row `i` past the budget. */
  function FirstReason(cs: seq<Candidate>, i: nat, allowed: seq<Reason>, n: nat): Option<Reason>
    requires i < |cs| && n <= |cs|
  {
    if n == 0 then None
    else
      var before := FirstReason(cs, i, allowed, n - 1);
      if before.Some? then before
      else if SameSlot(cs, i, n - 1) && Eligible(cs[n - 1], allowed) then Some(cs[n - 1].reason)
      else None
  }

  predicate Escalated(cs: seq<Candidate>, i: nat, budget: nat, allowed: seq<Reason>)
    requires i < |cs|
  {
    SlotRank(cs, i) < budget || FirstReason(cs, i, allowed, |cs|).Some?
  }

  function OverReason(cs: seq<Candidate>, i: nat, budget: nat, allowed: seq<Reason>): Option<Reason>
    requires i < |cs|
  {
    if SlotRank(cs, i) < budget then None else FirstReason(cs, i, allowed, |cs|)
  }

  /** The list with the line drawn at `budget` slots. */
  function Marked(cs: seq<Candidate>, budget: nat, allowed: seq<Reason>): seq<Candidate>
  {
    seq(|cs|, i requires 0 <= i < |cs| =>
      cs[i].(escalated := Escalated(cs, i, budget, allowed), overBudgetReason := OverReason(cs, i, budget, allowed)))
  }

  function InQueue(cs: seq<Candidate>, budget: nat, allowed: seq<Reason>): nat -> bool
  {
    (i: nat) => i < |cs| && Escalated(cs, i, budget, allowed)
  }

  function EscalatedSlots(cs: seq<Candidate>, budget: nat, allowed: seq<Reason>): nat
  {
    Count(Leaders(cs, |cs|), InQueue(cs, budget, allowed))
  }

  lemma {:induction false} LeadersAscend(cs: seq<Candidate>, n: nat)
    requires n <= |cs|
    ensures forall a :: 0 <= a < |Leaders(cs, n)| ==> Leaders(cs, n)[a] < n
    ensures forall a, b :: 0 <= a < b < |Leaders(cs, n)| ==> Leaders(cs, n)[a] < Leaders(cs, n)[b]
    ensures forall i: nat :: i in Leaders(cs, n) <==> i < n && Leads(cs, i)
  {
    hide Leads;
    if n > 0 { LeadersAscend(cs, n - 1); }
  }

  lemma {:induction false} LeadersPrefix(cs: seq<Candidate>, m: nat, n: nat)
    requires m <= n <= |cs|
    ensures |Leaders(cs, m)| <= |Leaders(cs, n)| && Leaders(cs, n)[..|Leaders(cs, m)|] == Leaders(cs, m)
  {
    if m < n { LeadersPrefix(cs, m, n - 1); }
  }

  /** The slot of row `i` is led by the leader at its rank. */
  lemma RankIsLeaderPosition(cs: seq<Candidate>, i: nat)
    requires i < |cs|
    ensures var leaders := Leaders(cs, |cs|);
            SlotRank(cs, i) < |leaders| && leaders[SlotRank(cs, i)] == First(cs, i, 0)
  {
    var f := First(cs, i, 0);
    forall j: nat | j < f ensures !SameSlot(cs, j, f) { assert !SameSlot(cs, j, i); }
    LeadersPrefix(cs, f + 1, |cs|);
  }

  lemma LeaderRank(cs: seq<Candidate>, a: nat)
    requires a < |Leaders(cs, |cs|)|
    ensures Leaders(cs, |cs|)[a] < |cs| && SlotRank(cs, Leaders(cs, |cs|)[a]) == a
  {
    LeadersAscend(cs, |cs|);
    var i := Leaders(cs, |cs|)[a];
    assert i in Leaders(cs, |cs|);
    assert First(cs, i, 0) == i;
    RankIsLeaderPosition(cs, i);
  }

  /** Equal ranks are equal slots. */
  lemma SameSlotSameRank(cs: seq<Candidate>, i: nat, j: nat)
    requires i < |cs| && j < |cs|
    ensures SlotRank(cs, i) == SlotRank(cs, j) <==> SameSlot(cs, i, j)
  {
    RankIsLeaderPosition(cs, i);
    RankIsLeaderPosition(cs, j);
    var f, g := First(cs, i, 0), First(cs, j, 0);
    assert SameSlot(cs, f, i) && SameSlot(cs, g, j);
    if SameSlot(cs, i, j) {
      assert SameSlot(cs, f, j) && SameSlot(cs, g, i);
    }
  }

  // ---- What the marks promise ----

  lemma {:induction false} FirstReasonOfSlot(cs: seq<Candidate>, i: nat, i': nat, allowed: seq<Reason>, n: nat)
    requires i < |cs| && i' < |cs| && n <= |cs| && SameSlot(cs, i, i')
    ensures FirstReason(cs, i, allowed, n) == FirstReason(cs, i', allowed, n)
  {
    if n > 0 { FirstReasonOfSlot(cs, i, i', allowed, n - 1); }
  }

  /** Every row of a slot, adjacent or not, carries the same marks. */
  lemma SlotsAreMarkedWhole(cs: seq<Candidate>, budget: nat, allowed: seq<Reason>, i: nat, j: nat)
    requires i < |cs| && j < |cs| && SameSlot(cs, i, j)
    ensures var marked := Marked(cs, budget, allowed);
            && marked[i].escalated == marked[j].escalated
            && marked[i].overBudgetReason == marked[j].overBudgetReason
  {
    SameSlotSameRank(cs, i, j);
    FirstReasonOfSlot(cs, i, j, allowed, |cs|);
  }

  /** In stored slot numbers: the rows of one stored slot are marked alike. */
  lemma StoredSlotsAreMarkedWhole(cs: seq<Candidate>, budget: nat, allowed: seq<Reason>, i: nat, j: nat)
    requires i < |cs| && j < |cs| && cs[i].slot != 0 && cs[i].slot == cs[j].slot
    ensures var marked := Marked(cs, budget, allowed);
            && marked[i].escalated == marked[j].escalated
            && marked[i].overBudgetReason == marked[j].overBudgetReason
  {
    SlotsAreMarkedWhole(cs, budget, allowed, i, j);
  }

  /** The stored slot numbers of the first `n` rows, and the rows stored without one. */
  function StoredSlots(cs: seq<Candidate>, n: nat): set<nat>
    requires n <= |cs|
  {
    set i | 0 <= i < n && cs[i].slot != 0 :: cs[i].slot
  }

  function Unslotted(cs: seq<Candidate>, n: nat): set<nat>
    requires n <= |cs|
  {
    set i | 0 <= i < n && cs[i].slot == 0 :: i
  }

  lemma LeadsIff(cs: seq<Candidate>, i: nat)
    requires i < |cs|
    ensures Leads(cs, i) <==> cs[i].slot == 0 || cs[i].slot !in StoredSlots(cs, i)
  {
    hide SameSlot;
    forall j: nat | j < i ensures SameSlot(cs, j, i) <==> cs[i].slot != 0 && cs[j].slot == cs[i].slot {
      SameSlotIff(cs, j, i);
    }
    if cs[i].slot != 0 && cs[i].slot in StoredSlots(cs, i) {
      var j :| 0 <= j < i && cs[j].slot == cs[i].slot;
      assert SameSlot(cs, j, i);
    }
  }

  lemma StoredSlotsStep(cs: seq<Candidate>, i: nat)
    requires i < |cs|
    ensures StoredSlots(cs, i + 1) == StoredSlots(cs, i) + (if cs[i].slot == 0 then {} else {cs[i].slot})
    ensures Unslotted(cs, i + 1) == Unslotted(cs, i) + (if cs[i].slot == 0 then {i} else {})
  {
  }

  /** There are as many slots as stored slot numbers, and one more for each row stored without one. */
  lemma {:induction false} SlotsAreStoredNumbers(cs: seq<Candidate>, n: nat)
    requires n <= |cs|
    ensures |Leaders(cs, n)| == |StoredSlots(cs, n)| + |Unslotted(cs, n)|
  {
    if n > 0 {
      var i: nat := n - 1;
      SlotsAreStoredNumbers(cs, i);
      StoredSlotsStep(cs, i);
      LeadsIff(cs, i);
      assert i !in Unslotted(cs, i);
      hide Leads, StoredSlots, Unslotted;
      if cs[i].slot in StoredSlots(cs, i) { assert StoredSlots(cs, i) + {cs[i].slot} == StoredSlots(cs, i); }
    }
  }

  /** The rank of a row's slot counts the stored slots and unslotted rows before the slot's first row. */
  lemma RankCountsEarlierSlots(cs: seq<Candidate>, i: nat) returns (f: nat)
    requires i < |cs|
    ensures f <= i && (f == i || (cs[i].slot != 0 && cs[f].slot == cs[i].slot))
    ensures cs[i].slot != 0 ==> forall j: nat :: j < f ==> cs[j].slot != cs[i].slot
    ensures SlotRank(cs, i) == |StoredSlots(cs, f)| + |Unslotted(cs, f)|
  {
    f := First(cs, i, 0);
    SameSlotIff(cs, f, i);
    SlotsAreStoredNumbers(cs, f);
    forall j: nat | j < f ensures cs[i].slot != 0 ==> cs[j].slot != cs[i].slot { SameSlotIff(cs, j, i); }
  }

  lemma {:induction false} FirstReasonIsFirst(cs: seq<Candidate>, i: nat, allowed: seq<Reason>, n: nat)
    requires i < |cs| && n <= |cs|
    ensures match FirstReason(cs, i, allowed, n)
            case Some(r) =>
              exists m: nat :: && m < n && SameSlot(cs, i, m) && Eligible(cs[m], allowed) && cs[m].reason == r
                               && forall k: nat :: k < m && SameSlot(cs, i, k) ==> !Eligible(cs[k], allowed)
            case None => forall k: nat :: k < n && SameSlot(cs, i, k) ==> !Eligible(cs[k], allowed)
  {
    if n > 0 { FirstReasonIsFirst(cs, i, allowed, n - 1); }
  }

  /**
   A row is in the queue exactly when its slot is among the first `budget` or some row of the slot may
   exceed the budget; the reason recorded is none inside the line, and otherwise the first such row's.
   */
  lemma MarksAreTheLine(cs: seq<Candidate>, budget: nat, allowed: seq<Reason>, i: nat)
    requires i < |cs|
    ensures var row := Marked(cs, budget, allowed)[i];
            && (row.escalated <==> SlotRank(cs, i) < budget ||
                                   exists m: nat :: m < |cs| && SameSlot(cs, i, m) && Eligible(cs[m], allowed))
            && (SlotRank(cs, i) < budget ==> row.overBudgetReason == None)
            && (SlotRank(cs, i) >= budget && row.escalated ==>
                  exists m: nat :: && m < |cs| && SameSlot(cs, i, m) && Eligible(cs[m], allowed)
                                   && row.overBudgetReason == Some(cs[m].reason)
                                   && forall k: nat :: k < m && SameSlot(cs, i, k) ==> !Eligible(cs[k], allowed))
  {
    FirstReasonIsFirst(cs, i, allowed, |cs|);
  }

  /** A row with its marks taken off. */
  function Bare(c: Candidate): Candidate
  {
    c.(escalated := false, overBudgetReason := None)
  }

  ghost predicate SameRows(cs: seq<Candidate>, ds: seq<Candidate>)
  {
    |cs| == |ds| && forall i :: 0 <= i < |cs| ==> Bare(cs[i]) == Bare(ds[i])
  }

  lemma SameRowsSameIds(cs: seq<Candidate>, ds: seq<Candidate>, i: nat)
    requires SameRows(cs, ds) && i < |cs|
    ensures SlotId(cs[i], i) == SlotId(ds[i], i)
    ensures forall allowed :: Eligible(cs[i], allowed) == Eligible(ds[i], allowed)
    ensures cs[i].reason == ds[i].reason
  {
    assert Bare(cs[i]).reason == Bare(ds[i]).reason && Bare(cs[i]).slot == Bare(ds[i]).slot;
    assert Bare(cs[i]).severity == Bare(ds[i]).severity && Bare(cs[i]).stage2Severity == Bare(ds[i]).stage2Severity;
  }

  lemma {:induction false} SameRowsSameLeaders(cs: seq<Candidate>, ds: seq<Candidate>, n: nat)
    requires SameRows(cs, ds) && n <= |cs|
    ensures Leaders(cs, n) == Leaders(ds, n)
  {
    if n > 0 {
      SameRowsSameLeaders(cs, ds, n - 1);
      var last := n - 1;
      SameRowsSameIds(cs, ds, last);
      forall j: nat | j < last ensures SameSlot(cs, j, last) == SameSlot(ds, j, last) {
        SameRowsSameIds(cs, ds, j);
      }
    }
  }

  lemma {:induction false} SameRowsSameFirst(cs: seq<Candidate>, ds: seq<Candidate>, i: nat, from: nat)
    requires SameRows(cs, ds) && from <= i < |cs|
    ensures First(cs, i, from) == First(ds, i, from)
    decreases i - from
  {
    SameRowsSameIds(cs, ds, from);
    SameRowsSameIds(cs, ds, i);
    if from < i { SameRowsSameFirst(cs, ds, i, from + 1); }
  }

  lemma {:induction false} SameRowsSameReason(cs: seq<Candidate>, ds: seq<Candidate>, i: nat, allowed: seq<Reason>, n: nat)
    requires SameRows(cs, ds) && i < |cs| && n <= |cs|
    ensures FirstReason(cs, i, allowed, n) == FirstReason(ds, i, allowed, n)
  {
    if n > 0 {
      SameRowsSameIds(cs, ds, i);
      SameRowsSameIds(cs, ds, n - 1);
      SameRowsSameReason(cs, ds, i, allowed, n - 1);
    }
  }

  /** Drawing the line looks at no earlier mark: lists that differ only in their marks end up the same. */
  lemma MarksForgetTheOldLine(cs: seq<Candidate>, ds: seq<Candidate>, budget: nat, allowed: seq<Reason>)
    requires SameRows(cs, ds)
    ensures Marked(cs, budget, allowed) == Marked(ds, budget, allowed)
  {
    forall i: nat | i < |cs| ensures Marked(cs, budget, allowed)[i] == Marked(ds, budget, allowed)[i] {
      SameRowsSameFirst(cs, ds, i, 0);
      SameRowsSameLeaders(cs, ds, First(cs, i, 0));
      SameRowsSameReason(cs, ds, i, allowed, |cs|);
      assert Bare(cs[i]) == Bare(ds[i]);
    }
  }

  /** Moving the line away and back restores the marks; drawing it twice is drawing it once. */
  lemma MovingTheLineBackRestoresIt(cs: seq<Candidate>, budget: nat, budget': nat,
                                    allowed: seq<Reason>, allowed': seq<Reason>)
    ensures Marked(Marked(cs, budget', allowed'), budget, allowed) == Marked(cs, budget, allowed)
  {
    var moved := Marked(cs, budget', allowed');
    assert forall i :: 0 <= i < |cs| ==> Bare(moved[i]) == Bare(cs[i]);
    MarksForgetTheOldLine(moved, cs, budget, allowed);
  }

  lemma {:induction false} ReasonMonotone(cs: seq<Candidate>, i: nat, allowed: seq<Reason>, allowed': seq<Reason>, n: nat)
    requires i < |cs| && n <= |cs|
    requires forall r :: r in allowed ==> r in allowed'
    ensures FirstReason(cs, i, allowed, n).Some? ==> FirstReason(cs, i, allowed', n).Some?
  {
    if n > 0 { ReasonMonotone(cs, i, allowed, allowed', n - 1); }
  }

  /** Raising the floor, the rate or the counted lines, or allowing more reasons, takes no row out of the queue. */
  lemma RaisingTheLineKeepsRows(cs: seq<Candidate>, i: nat, rate: real, floor: nat, lines: nat, allowed: seq<Reason>,
                                rate': real, floor': nat, lines': nat, allowed': seq<Reason>)
    requires i < |cs| && rate <= rate' && floor <= floor' && lines <= lines'
    requires forall r :: r in allowed ==> r in allowed'
    requires Marked(cs, ComputeBudget(rate, floor, lines), allowed)[i].escalated
    ensures Marked(cs, ComputeBudget(rate', floor', lines'), allowed')[i].escalated
  {
    BudgetMonotone(rate, floor, lines, rate', floor', lines');
    ReasonMonotone(cs, i, allowed, allowed', |cs|);
  }

  /** The counts add up: the queue is the slots inside the line plus those over it. */
  lemma QueueIsLinePlusOver(cs: seq<Candidate>, budget: nat, allowed: seq<Reason>)
    ensures var (slots, escalated) := (|Leaders(cs, |cs|)|, EscalatedSlots(cs, budget, allowed));
            && escalated <= slots
            && escalated == (if budget <= slots then budget else slots) + (if escalated > budget then escalated - budget else 0)
  {
    var leaders := Leaders(cs, |cs|);
    var p := InQueue(cs, budget, allowed);
    var inside := if budget <= |leaders| then budget else |leaders|;
    assert leaders == leaders[..inside] + leaders[inside..];
    CountConcat(leaders[..inside], leaders[inside..], p);
    forall i | i in leaders[..inside] ensures p(i) {
      var a :| 0 <= a < inside && leaders[..inside][a] == i;
      LeaderRank(cs, a);
    }
    CountAll(leaders[..inside], p);
    CountAtMost(leaders, p);
  }

  // ---- The line, as the program draws it ----

  class EscalationBudget {
    var rate: real
    var floor: nat
    var countedLines: nat
    var budget: nat
    var escalated: nat
    var overBudget: nat
    var candidates: nat

    /** `EscalationBudget::compute`. */
    constructor Compute(rate: real, floor: nat, countedLines: nat)
      ensures this.rate == rate && this.floor == floor && this.countedLines == countedLines
      ensures budget == ComputeBudget(rate, floor, countedLines)
      ensures escalated == 0 && overBudget == 0 && candidates == 0
    {
      this.rate, this.floor, this.countedLines := rate, floor, countedLines;
      budget := ComputeBudget(rate, floor, countedLines);
      escalated, overBudget, candidates := 0, 0, 0;
    }
  }

  /** The rows below `n` that share the slot of row `i`, in order. */
  function RowsOf(cs: seq<Candidate>, i: nat, n: nat): seq<nat>
    requires i < |cs| && n <= |cs|
  {
    if n == 0 then []
    else if SameSlot(cs, i, n - 1) then RowsOf(cs, i, n - 1) + [n - 1]
    else RowsOf(cs, i, n - 1)
  }

  ghost predicate RowsBelow(members: seq<nat>, n: nat)
  {
    forall x :: 0 <= x < |members| ==> members[x] < n
  }

  lemma {:induction false} RowsOfMembers(cs: seq<Candidate>, i: nat, n: nat)
    requires i < |cs| && n <= |cs|
    ensures RowsBelow(RowsOf(cs, i, n), n)
    ensures forall j: nat :: j in RowsOf(cs, i, n) <==> j < n && SameSlot(cs, i, j)
  {
    hide SameSlot;
    if n > 0 { RowsOfMembers(cs, i, n - 1); }
  }

  /** The first member that may go over the budget, by its reason. */
  function FindReason(cs: seq<Candidate>, members: seq<nat>, allowed: seq<Reason>): Option<Reason>
    requires RowsBelow(members, |cs|)
  {
    if members == [] then None
    else if Eligible(cs[members[0]], allowed) then Some(cs[members[0]].reason)
    else FindReason(cs, members[1..], allowed)
  }

  lemma {:induction false} FindReasonAppend(cs: seq<Candidate>, members: seq<nat>, m: nat, allowed: seq<Reason>)
    requires m < |cs| && RowsBelow(members, |cs|)
    ensures FindReason(cs, members + [m], allowed) ==
            if FindReason(cs, members, allowed).Some? then FindReason(cs, members, allowed)
            else if Eligible(cs[m], allowed) then Some(cs[m].reason) else None
  {
    if members == [] {
      assert members + [m] == [m];
    } else {
      assert (members + [m])[1..] == members[1..] + [m];
      FindReasonAppend(cs, members[1..], m, allowed);
    }
  }

  lemma {:induction false} FindIsFirstReason(cs: seq<Candidate>, i: nat, allowed: seq<Reason>, n: nat)
    requires i < |cs| && n <= |cs|
    ensures RowsBelow(RowsOf(cs, i, n), |cs|)
    ensures FindReason(cs, RowsOf(cs, i, n), allowed) == FirstReason(cs, i, allowed, n)
  {
    hide Eligible;
    if n > 0 {
      FindIsFirstReason(cs, i, allowed, n - 1);
      FindReasonAppend(cs, RowsOf(cs, i, n - 1), n - 1, allowed);
    }
  }

  lemma {:induction false} FindReasonReads(cs: seq<Candidate>, ds: seq<Candidate>, members: seq<nat>, allowed: seq<Reason>)
    requires |cs| == |ds| && RowsBelow(members, |cs|)
    requires forall x :: 0 <= x < |members| ==> cs[members[x]] == ds[members[x]]
    ensures FindReason(cs, members, allowed) == FindReason(ds, members, allowed)
  {
    if members != [] { FindReasonReads(cs, ds, members[1..], allowed); }
  }

  ghost predicate RowsBySlot(cs: seq<Candidate>, n: nat, slots: seq<seq<nat>>)
    requires n <= |cs|
  {
    var leaders := Leaders(cs, n);
    && |slots| == |leaders|
    && forall a :: 0 <= a < |slots| ==> leaders[a] < n && slots[a] == RowsOf(cs, leaders[a], n)
  }

  /** `ordinal` sends the id of each slot seen so far to the place of the slot. */
  ghost predicate FindsSlots(cs: seq<Candidate>, n: nat, ordinal: map<(bool, nat), nat>)
    requires n <= |cs|
  {
    var leaders := Leaders(cs, n);
    && (forall a :: 0 <= a < |leaders| ==>
          && leaders[a] < n && SlotId(cs[leaders[a]], leaders[a]) in ordinal
          && ordinal[SlotId(cs[leaders[a]], leaders[a])] == a)
    && (forall id :: id in ordinal ==>
          ordinal[id] < |leaders| && SlotId(cs[leaders[ordinal[id]]], leaders[ordinal[id]]) == id)
  }

  /** A row opens a slot exactly when its slot has not been seen. */
  lemma OpensWhenUnseen(cs: seq<Candidate>, n: nat, ordinal: map<(bool, nat), nat>)
    requires n < |cs| && FindsSlots(cs, n, ordinal)
    ensures Leads(cs, n) <==> SlotId(cs[n], n) !in ordinal
  {
    var id, leaders := SlotId(cs[n], n), Leaders(cs, n);
    if id in ordinal {
      assert SameSlot(cs, leaders[ordinal[id]], n);
    } else {
      forall j: nat | j < n ensures !SameSlot(cs, j, n) {
        var f := First(cs, j, 0);
        LeadersAscend(cs, n);
        forall k: nat | k < f ensures !SameSlot(cs, k, f) { assert !SameSlot(cs, k, j); }
        assert f in leaders;
      }
    }
  }

  lemma FindsSlotsStep(cs: seq<Candidate>, n: nat, ordinal: map<(bool, nat), nat>)
    requires n < |cs| && FindsSlots(cs, n, ordinal)
    ensures SlotId(cs[n], n) in ordinal ==> FindsSlots(cs, n + 1, ordinal)
    ensures SlotId(cs[n], n) !in ordinal ==> FindsSlots(cs, n + 1, ordinal[SlotId(cs[n], n) := |Leaders(cs, n)|])
  {
    OpensWhenUnseen(cs, n, ordinal);
    hide Leads;
    assert Leaders(cs, n) + [] == Leaders(cs, n);
  }

  lemma {:induction false} NoRowsBefore(cs: seq<Candidate>, i: nat, n: nat)
    requires n <= i < |cs| && Leads(cs, i)
    ensures RowsOf(cs, i, n) == []
  {
    if n > 0 {
      assert !SameSlot(cs, n - 1, i);
      NoRowsBefore(cs, i, n - 1);
    }
  }

  lemma RowsGrow(cs: seq<Candidate>, n: nat, ordinal: map<(bool, nat), nat>, slots: seq<seq<nat>>, a: nat)
    requires n < |cs| && FindsSlots(cs, n, ordinal) && RowsBySlot(cs, n, slots) && a < |slots|
    ensures var id := SlotId(cs[n], n);
            && Leaders(cs, n)[a] < n
            && RowsOf(cs, Leaders(cs, n)[a], n + 1) == if id in ordinal && ordinal[id] == a then slots[a] + [n] else slots[a]
  {
    var leader := Leaders(cs, n)[a];
    assert SameSlot(cs, leader, n) <==> SlotId(cs[n], n) in ordinal && ordinal[SlotId(cs[n], n)] == a;
  }

  /** Putting a row in the slot it belongs to keeps every slot's rows complete. */
  lemma RowsBySlotStep(cs: seq<Candidate>, n: nat, ordinal: map<(bool, nat), nat>, slots: seq<seq<nat>>)
    requires n < |cs| && FindsSlots(cs, n, ordinal) && RowsBySlot(cs, n, slots)
    ensures |slots| == |Leaders(cs, n)|
    ensures var id := SlotId(cs[n], n);
            id in ordinal ==> ordinal[id] < |slots| && RowsBySlot(cs, n + 1, slots[ordinal[id] := slots[ordinal[id]] + [n]])
    ensures SlotId(cs[n], n) !in ordinal ==> RowsBySlot(cs, n + 1, slots + [[n]])
  {
    var id, leaders := SlotId(cs[n], n), Leaders(cs, n);
    OpensWhenUnseen(cs, n, ordinal);
    assert id in ordinal ==> ordinal[id] < |slots|;
    hide FindsSlots, SameSlot, SlotId;
    var grown := if id in ordinal then slots[ordinal[id] := slots[ordinal[id]] + [n]] else slots + [[n]];
    var all := Leaders(cs, n + 1);
    assert all == leaders + (if Leads(cs, n) then [n] else []);
    if Leads(cs, n) { NoRowsBefore(cs, n, n); }
    forall a | 0 <= a < |all| ensures all[a] < n + 1 && grown[a] == RowsOf(cs, all[a], n + 1) {
      if a < |slots| {
        RowsGrow(cs, n, ordinal, slots, a);
      } else {
        assert all[a] == n && RowsOf(cs, n, n + 1) == [n];
      }
    }
  }

  /** Every slot's rows, slots sorted by their first row. */
  method GroupRows(cs: seq<Candidate>) returns (slots: seq<seq<nat>>)
    ensures RowsBySlot(cs, |cs|, slots)
  {
    var ordinal: map<(bool, nat), nat> := map[];
    slots := [];
    assert FindsSlots(cs, 0, ordinal) && RowsBySlot(cs, 0, slots);
    hide FindsSlots, RowsBySlot, Leaders, SlotId;
    for position := 0 to |cs|
      invariant FindsSlots(cs, position, ordinal) && RowsBySlot(cs, position, slots)
    {
      FindsSlotsStep(cs, position, ordinal);
      RowsBySlotStep(cs, position, ordinal, slots);
      var id := SlotId(cs[position], position);
      if id !in ordinal {
        ordinal := ordinal[id := |slots|];
        slots := slots + [[position]];
      } else {
        slots := slots[ordinal[id] := slots[ordinal[id]] + [position]];
      }
    }
  }

  /** What the loop over slots needs to know about the slot at place `at`. */
  lemma SlotAtPlace(cs: seq<Candidate>, allowed: seq<Reason>, at: nat)
    requires at < |Leaders(cs, |cs|)|
    ensures Leaders(cs, |cs|)[at] < |cs|
    ensures var leader := Leaders(cs, |cs|)[at];
            var members := RowsOf(cs, leader, |cs|);
            && RowsBelow(members, |cs|)
            && (forall i: nat :: i < |cs| ==> (i in members <==> SlotRank(cs, i) == at))
            && FindReason(cs, members, allowed) == FirstReason(cs, leader, allowed, |cs|)
            && SlotRank(cs, leader) == at
  {
    LeaderRank(cs, at);
    var leader := Leaders(cs, |cs|)[at];
    RowsOfMembers(cs, leader, |cs|);
    FindIsFirstReason(cs, leader, allowed, |cs|);
    hide SlotRank, FirstReason, FindReason, RowsOf, Leaders;
    forall i: nat | i < |cs| ensures i in RowsOf(cs, leader, |cs|) <==> SlotRank(cs, i) == at {
      SameSlotSameRank(cs, leader, i);
    }
  }

  /** The marks of every row of the slot at place `at`, from its leader. */
  lemma MarksAtPlace(cs: seq<Candidate>, budget: nat, allowed: seq<Reason>, at: nat, i: nat)
    requires at < |Leaders(cs, |cs|)| && i < |cs| && SlotRank(cs, i) == at
    ensures Leaders(cs, |cs|)[at] < |cs|
    ensures var over := FirstReason(cs, Leaders(cs, |cs|)[at], allowed, |cs|);
            Marked(cs, budget, allowed)[i] ==
            cs[i].(escalated := at < budget || over.Some?, overBudgetReason := if at < budget then None else over)
  {
    LeaderRank(cs, at);
    var leader := Leaders(cs, |cs|)[at];
    SameSlotSameRank(cs, leader, i);
    FirstReasonOfSlot(cs, leader, i, allowed, |cs|);
  }

  /** The rows of the slots before place `at` carry their marks; the others are as they were. */
  ghost predicate WrittenTo(rows: seq<Candidate>, cs: seq<Candidate>, marked: seq<Candidate>, at: nat)
  {
    |rows| == |cs| == |marked| &&
    forall i :: 0 <= i < |cs| ==> rows[i] == if SlotRank(cs, i) < at then marked[i] else cs[i]
  }

  /** `rows'` is `rows` with these marks on the members and nothing else changed. */
  ghost predicate MarksWritten(rows: seq<Candidate>, rows': seq<Candidate>, members: seq<nat>, escalated: bool,
                               over: Option<Reason>)
  {
    |rows'| == |rows| &&
    forall i :: 0 <= i < |rows| ==>
      rows'[i] == if i in members then rows[i].(escalated := escalated, overBudgetReason := over) else rows[i]
  }

  /** Write the marks of one slot on each of its rows. */
  method WriteMarks(candidates: array<Candidate>, members: seq<nat>, escalated: bool, over: Option<Reason>)
    requires RowsBelow(members, candidates.Length)
    modifies candidates
    ensures MarksWritten(old(candidates[..]), candidates[..], members, escalated, over)
  {
    for t := 0 to |members|
      invariant MarksWritten(old(candidates[..]), candidates[..], members[..t], escalated, over)
    {
      candidates[members[t]] := candidates[members[t]].(escalated := escalated, overBudgetReason := over);
    }
    assert members[..|members|] == members;
  }

  lemma MembersAdvance(rows: seq<Candidate>, rows': seq<Candidate>, cs: seq<Candidate>, marked: seq<Candidate>, at: nat,
                       members: seq<nat>, escalated: bool, over: Option<Reason>)
    requires WrittenTo(rows, cs, marked, at) && MarksWritten(rows, rows', members, escalated, over)
    requires |marked| == |cs|
    requires forall i: nat :: i < |cs| ==> (i in members <==> SlotRank(cs, i) == at)
    requires forall i: nat :: i < |cs| && SlotRank(cs, i) == at ==>
               marked[i] == cs[i].(escalated := escalated, overBudgetReason := over)
    ensures WrittenTo(rows', cs, marked, at + 1)
  {
    hide SlotRank;
  }

  /** Marking the slot at place `at` as the loop does moves the written part one slot on. */
  lemma WrittenStep(rows: seq<Candidate>, rows': seq<Candidate>, cs: seq<Candidate>, budget: nat, allowed: seq<Reason>,
                    at: nat)
    requires at < |Leaders(cs, |cs|)| && WrittenTo(rows, cs, Marked(cs, budget, allowed), at)
    requires Leaders(cs, |cs|)[at] < |cs|
    requires var over := if at < budget then None else FirstReason(cs, Leaders(cs, |cs|)[at], allowed, |cs|);
             MarksWritten(rows, rows', RowsOf(cs, Leaders(cs, |cs|)[at], |cs|), at < budget || over.Some?, over)
    ensures WrittenTo(rows', cs, Marked(cs, budget, allowed), at + 1)
  {
    SlotAtPlace(cs, allowed, at);
    var members := RowsOf(cs, Leaders(cs, |cs|)[at], |cs|);
    var over := if at < budget then None else FirstReason(cs, Leaders(cs, |cs|)[at], allowed, |cs|);
    hide SlotRank, FirstReason, Marked, RowsOf, Leaders, FindReason, WrittenTo, MarksWritten;
    forall i: nat | i < |cs| && SlotRank(cs, i) == at
      ensures |Marked(cs, budget, allowed)| == |cs|
      ensures Marked(cs, budget, allowed)[i] ==
              cs[i].(escalated := at < budget || over.Some?, overBudgetReason := over)
    {
      MarksAtPlace(cs, budget, allowed, at, i);
    }
    MembersAdvance(rows, rows', cs, Marked(cs, budget, allowed), at, members, at < budget || over.Some?, over);
  }

  lemma QueueCountStep(cs: seq<Candidate>, budget: nat, allowed: seq<Reason>, at: nat)
    requires at < |Leaders(cs, |cs|)| && Leaders(cs, |cs|)[at] < |cs|
    ensures var leaders := Leaders(cs, |cs|);
            Count(leaders[..at + 1], InQueue(cs, budget, allowed)) ==
            Count(leaders[..at], InQueue(cs, budget, allowed)) +
            (if at < budget || FirstReason(cs, leaders[at], allowed, |cs|).Some? then 1 else 0)
  {
    var leaders := Leaders(cs, |cs|);
    LeaderRank(cs, at);
    assert leaders[..at + 1] == leaders[..at] + [leaders[at]];
    CountConcat(leaders[..at], [leaders[at]], InQueue(cs, budget, allowed));
  }

  lemma UnwrittenRows(rows: seq<Candidate>, cs: seq<Candidate>, marked: seq<Candidate>, at: nat, members: seq<nat>)
    requires WrittenTo(rows, cs, marked, at) && RowsBelow(members, |cs|)
    requires forall x :: 0 <= x < |members| ==> SlotRank(cs, members[x]) == at
    ensures |rows| == |cs| && forall x :: 0 <= x < |members| ==> rows[members[x]] == cs[members[x]]
  {
    hide SlotRank;
  }

  /** The search over the rows as they stand gives the reason the unmarked rows give. */
  lemma SearchReadsUnwrittenRows(rows: seq<Candidate>, cs: seq<Candidate>, budget: nat, allowed: seq<Reason>, at: nat,
                                 slots: seq<seq<nat>>)
    requires RowsBySlot(cs, |cs|, slots) && at < |slots| && WrittenTo(rows, cs, Marked(cs, budget, allowed), at)
    ensures at < |Leaders(cs, |cs|)| && |rows| == |cs|
    ensures Leaders(cs, |cs|)[at] < |cs| && slots[at] == RowsOf(cs, Leaders(cs, |cs|)[at], |cs|)
    ensures RowsBelow(slots[at], |rows|)
    ensures FindReason(rows, slots[at], allowed) == FirstReason(cs, Leaders(cs, |cs|)[at], allowed, |cs|)
  {
    SlotAtPlace(cs, allowed, at);
    hide SlotRank, FirstReason, Marked, RowsOf, FindReason, Leaders, WrittenTo;
    var members := slots[at];
    forall x | 0 <= x < |members| ensures SlotRank(cs, members[x]) == at { assert members[x] in members; }
    UnwrittenRows(rows, cs, Marked(cs, budget, allowed), at, members);
    FindReasonReads(rows, cs, members, allowed);
  }

  lemma WrittenEnds(rows: seq<Candidate>, cs: seq<Candidate>, budget: nat, allowed: seq<Reason>)
    ensures WrittenTo(cs, cs, Marked(cs, budget, allowed), 0)
    ensures WrittenTo(rows, cs, Marked(cs, budget, allowed), |Leaders(cs, |cs|)|) ==> rows == Marked(cs, budget, allowed)
  {
    forall i: nat | i < |cs| ensures SlotRank(cs, i) < |Leaders(cs, |cs|)| { RankIsLeaderPosition(cs, i); }
  }

  /** One pass of the loop over slots: decide the slot at place `at` and write its marks. */
  method MarkSlot(candidates: array<Candidate>, line: nat, allowed: seq<Reason>, at: nat, slots: seq<seq<nat>>,
                  ghost cs: seq<Candidate>)
    returns (isEscalated: bool)
    requires RowsBySlot(cs, |cs|, slots) && at < |slots|
    requires WrittenTo(candidates[..], cs, Marked(cs, line, allowed), at)
    modifies candidates
    ensures WrittenTo(candidates[..], cs, Marked(cs, line, allowed), at + 1)
    ensures Count(Leaders(cs, |cs|)[..at + 1], InQueue(cs, line, allowed)) ==
            Count(Leaders(cs, |cs|)[..at], InQueue(cs, line, allowed)) + (if isEscalated then 1 else 0)
  {
    ghost var rows := candidates[..];
    SearchReadsUnwrittenRows(rows, cs, line, allowed, at, slots);
    var members := slots[at];
    var over := if at < line then None else FindReason(candidates[..], members, allowed);
    isEscalated := at < line || over.Some?;
    hide RowsBySlot, WrittenTo, Marked, Leaders, FindReason, FirstReason, RowsOf, InQueue, Count, MarksWritten;
    WriteMarks(candidates, members, isEscalated, over);
    WrittenStep(rows, candidates[..], cs, line, allowed, at);
    QueueCountStep(cs, line, allowed, at);
  }

  lemma CountNone<T>(s: seq<T>, p: T -> bool)
    ensures Count(s[..0], p) == 0
  {
  }

  /** `re_mark`. */
  method ReMark(candidates: array<Candidate>, budget: EscalationBudget, allowed: seq<Reason>)
    modifies candidates, budget
    ensures budget.rate == old(budget.rate) && budget.floor == old(budget.floor)
    ensures budget.countedLines == old(budget.countedLines)
    ensures budget.budget == ComputeBudget(old(budget.rate), old(budget.floor), old(budget.countedLines))
    ensures candidates[..] == Marked(old(candidates[..]), budget.budget, allowed)
    ensures budget.escalated == EscalatedSlots(old(candidates[..]), budget.budget, allowed)
    ensures budget.candidates == |Leaders(old(candidates[..]), candidates.Length)|
    ensures budget.overBudget == if budget.escalated > budget.budget then budget.escalated - budget.budget else 0
  {
    hide Marked, Leaders, WrittenTo, InQueue, ComputeBudget, Count;
    var line := ComputeBudget(budget.rate, budget.floor, budget.countedLines);
    budget.budget := line;
    ghost var cs := candidates[..];
    var slots := GroupRows(candidates[..]);
    var escalated := 0;
    WrittenEnds(cs, cs, line, allowed);
    CountNone(Leaders(cs, |cs|), InQueue(cs, line, allowed));
    for at := 0 to |slots|
      invariant WrittenTo(candidates[..], cs, Marked(cs, line, allowed), at)
      invariant escalated == Count(Leaders(cs, |cs|)[..at], InQueue(cs, line, allowed))
      modifies candidates
    {
      var isEscalated := MarkSlot(candidates, line, allowed, at, slots, cs);
      escalated := escalated + if isEscalated then 1 else 0;
    }
    WrittenEnds(candidates[..], cs, line, allowed);
    assert Leaders(cs, |cs|)[..|slots|] == Leaders(cs, |cs|);
    budget.escalated := escalated;
    budget.overBudget := if escalated > line then escalated - line else 0;
    budget.candidates := |slots|;
  }

  // ---- Counting the slots independently ----

  /** Some row of the slot led by row `l` is marked escalated. */
  function HasEscalatedRow(cs: seq<Candidate>): nat -> bool
  {
    (l: nat) => l < |cs| && exists j: nat :: j < |cs| && SameSlot(cs, l, j) && cs[j].escalated
  }

  ghost predicate SeenBelow(cs: seq<Candidate>, n: nat, seen: map<(bool, nat), bool>)
    requires n <= |cs|
  {
    && (forall j: nat :: j < n ==> SlotId(cs[j], j) in seen && (cs[j].escalated ==> seen[SlotId(cs[j], j)]))
    && (forall id :: id in seen ==> exists j: nat :: j < n && SlotId(cs[j], j) == id && (seen[id] ==> cs[j].escalated))
  }

  lemma SeenStep(cs: seq<Candidate>, n: nat, seen: map<(bool, nat), bool>)
    requires n < |cs| && SeenBelow(cs, n, seen)
    ensures var id := SlotId(cs[n], n);
            && (Leads(cs, n) <==> id !in seen)
            && SeenBelow(cs, n + 1, seen[id := (id in seen && seen[id]) || cs[n].escalated])
  {
    var id := SlotId(cs[n], n);
    if id in seen {
      var j: nat :| j < n && SlotId(cs[j], j) == id && (seen[id] ==> cs[j].escalated);
      assert SameSlot(cs, j, n);
    } else {
      assert forall j: nat :: j < n ==> !SameSlot(cs, j, n);
    }
    hide Leads;
    var next := seen[id := (id in seen && seen[id]) || cs[n].escalated];
    forall k | k in next
      ensures exists j: nat :: j < n + 1 && SlotId(cs[j], j) == k && (next[k] ==> cs[j].escalated)
    {
      if k != id || (k in seen && seen[k]) {
        var j: nat :| j < n && SlotId(cs[j], j) == k && (seen[k] ==> cs[j].escalated);
      } else {
        assert SlotId(cs[n], n) == k;
      }
    }
  }

  /** The ids of the leaders before row `n` that satisfy `p`. */
  function LeaderIds(cs: seq<Candidate>, n: nat, p: nat -> bool): set<(bool, nat)>
    requires n <= |cs|
  {
    if n == 0 then {}
    else LeaderIds(cs, n - 1, p) + (if Leads(cs, n - 1) && p(n - 1) then {SlotId(cs[n - 1], n - 1)} else {})
  }

  lemma {:induction false} LeaderIdsMembers(cs: seq<Candidate>, n: nat, p: nat -> bool, id: (bool, nat))
    requires n <= |cs|
    ensures id in LeaderIds(cs, n, p) <==> exists l: nat :: l < n && Leads(cs, l) && p(l) && SlotId(cs[l], l) == id
  {
    hide Leads;
    if n > 0 {
      LeaderIdsMembers(cs, n - 1, p, id);
      if Leads(cs, n - 1) && p(n - 1) && SlotId(cs[n - 1], n - 1) == id { assert id in LeaderIds(cs, n, p); }
    }
  }

  /** Leaders have distinct ids, so counting the ids is counting the leaders. */
  lemma {:induction false} LeaderIdsCount(cs: seq<Candidate>, n: nat, p: nat -> bool)
    requires n <= |cs|
    ensures |LeaderIds(cs, n, p)| == Count(Leaders(cs, n), p)
  {
    if n > 0 {
      var last: nat := n - 1;
      LeaderIdsCount(cs, last, p);
      CountConcat<nat>(Leaders(cs, last), [last], p);
      if Leads(cs, last) {
        var id := SlotId(cs[last], last);
        LeaderIdsMembers(cs, last, p, id);
        assert forall l: nat :: l < last && SlotId(cs[l], l) == id ==> SameSlot(cs, l, last);
        assert id !in LeaderIds(cs, last, p);
      }
      assert Leaders(cs, last) + [] == Leaders(cs, last);
    }
  }

  lemma SeenIsLeaderIds(cs: seq<Candidate>, seen: map<(bool, nat), bool>)
    requires SeenBelow(cs, |cs|, seen)
    ensures (set id | id in seen && seen[id]) == LeaderIds(cs, |cs|, HasEscalatedRow(cs))
  {
    var p := HasEscalatedRow(cs);
    forall id ensures id in (set id | id in seen && seen[id]) <==> id in LeaderIds(cs, |cs|, p) {
      LeaderIdsMembers(cs, |cs|, p, id);
      if id in seen && seen[id] {
        var j: nat :| j < |cs| && SlotId(cs[j], j) == id && (seen[id] ==> cs[j].escalated);
        RankIsLeaderPosition(cs, j);
        LeadersAscend(cs, |cs|);
        var f := First(cs, j, 0);
        assert f in Leaders(cs, |cs|) && SameSlot(cs, f, j) && p(f);
      }
    }
  }

  lemma NothingSeen(cs: seq<Candidate>)
    ensures SeenBelow(cs, 0, map[])
  {
  }

  /** `count_slots`. */
  method CountSlots(cs: seq<Candidate>) returns (slots: nat, escalated: nat)
    ensures slots == |Leaders(cs, |cs|)| == |StoredSlots(cs, |cs|)| + |Unslotted(cs, |cs|)|
    ensures escalated == Count(Leaders(cs, |cs|), HasEscalatedRow(cs))
  {
    hide Leads, SameSlot, HasEscalatedRow, SeenBelow;
    var seen: map<(bool, nat), bool> := map[];
    NothingSeen(cs);
    for position := 0 to |cs|
      invariant SeenBelow(cs, position, seen) && |seen| == |Leaders(cs, position)|
    {
      SeenStep(cs, position, seen);
      var id := SlotId(cs[position], position);
      seen := seen[id := (id in seen && seen[id]) || cs[position].escalated];
    }
    SeenIsLeaderIds(cs, seen);
    LeaderIdsCount(cs, |cs|, HasEscalatedRow(cs));
    SlotsAreStoredNumbers(cs, |cs|);
    return |seen|, |set id | id in seen && seen[id]|;
  }

  /** The counts written while the line is drawn are the counts the marked rows give when recounted. */
  lemma RecountAgrees(cs: seq<Candidate>, budget: nat, allowed: seq<Reason>)
    ensures var marked := Marked(cs, budget, allowed);
            && |Leaders(marked, |marked|)| == |Leaders(cs, |cs|)|
            && Count(Leaders(marked, |marked|), HasEscalatedRow(marked)) == EscalatedSlots(cs, budget, allowed)
  {
    var marked := Marked(cs, budget, allowed);
    assert SameRows(marked, cs) by { assert forall i :: 0 <= i < |cs| ==> Bare(marked[i]) == Bare(cs[i]); }
    SameRowsSameLeaders(marked, cs, |cs|);
    LeadersAscend(cs, |cs|);
    forall l | l in Leaders(cs, |cs|) ensures HasEscalatedRow(marked)(l) == InQueue(cs, budget, allowed)(l) {
      assert SameSlot(marked, l, l);
      forall j: nat | j < |cs| && SameSlot(marked, l, j) ensures marked[j].escalated == marked[l].escalated {
        SameRowsSameIds(marked, cs, l);
        SameRowsSameIds(marked, cs, j);
        assert SameSlot(cs, l, j);
        SlotsAreMarkedWhole(cs, budget, allowed, l, j);
      }
    }
    CountAgrees(Leaders(cs, |cs|), HasEscalatedRow(marked), InQueue(cs, budget, allowed));
  }
}
