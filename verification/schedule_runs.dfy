/**
 Runs of the auto-fire loop: a routine is looked at on every tick and stamped with the tick's time
 when it fires. What the stamping promises, over whole runs, however the clock is set and the routine
 edited between ticks.
 */
module ScheduleRuns {
  import opened Sequences
  import opened Calendar
  import opened Schedules

  // ---- One decision ----

  /** A slot the look-back returns is always the greatest one, weekly schedules included. */
  lemma LatestWhenSome(sched: Schedule, now: Instant)
    requires MostRecent(sched, now).Some?
    ensures IsLatestSlot(sched, now, MostRecent(sched, now).value)
  {
    if sched.Weekly? {
      WeeklyLatest(sched.days, sched.h, sched.m, now);
    } else {
      MostRecentExact(sched, now);
    }
  }

  /** `t` is a slot at or before `now` that is newer than the last fire. */
  predicate Pending(sched: Schedule, now: Instant, last: Option<Instant>, t: Instant)
  {
    IsSlot(sched, t) && AtOrBefore(t, now) && (last.None? || Earlier(last.value, t))
  }

  /** The one state in which a weekly schedule overlooks a slot. */
  predicate InLookBackGap(sched: Schedule, now: Instant)
  {
    sched.Weekly? && OnlyTodayAhead(sched.days, sched.h, sched.m, now)
  }

  /** Due means exactly that some slot is pending, outside the weekly look-back's gap. */
  lemma DueExact(sched: Schedule, now: Instant, last: Option<Instant>)
    ensures IsDue(sched, now, last) <==>
            (exists t: Instant :: Pending(sched, now, last, t)) && !InLookBackGap(sched, now)
  {
    var slot := MostRecent(sched, now);
    if slot.Some? {
      LatestWhenSome(sched, now);
      if IsDue(sched, now, last) { assert Pending(sched, now, last, slot.value); }
    }
    if sched.Weekly? {
      if sched.days != [] && sched.h < 24 && sched.m < 60 {
        WeeklyLookBackGap(sched.days, sched.h, sched.m, now);
      }
    } else {
      MostRecentExact(sched, now);
    }
  }

  /**
   The dashboard's next-fire time is the truth about firing: after a fire at `fired`, a later tick is
   due exactly from the next slot on, outside the weekly look-back's gap.
   */
  lemma NextFirePredictsDue(sched: Schedule, fired: Instant, now: Instant)
    ensures IsDue(sched, now, Some(fired)) <==>
            (Next(sched, fired).Some? && AtOrBefore(Next(sched, fired).value, now) && !InLookBackGap(sched, now))
  {
    NextExact(sched, fired);
    DueExact(sched, now, Some(fired));
    var next := Next(sched, fired);
    if next.Some? && AtOrBefore(next.value, now) {
      assert Pending(sched, now, Some(fired), next.value);
    }
  }

  /** Outside the gap the look-back finds a slot whenever there is one. */
  lemma FindsSlotIff(sched: Schedule, now: Instant)
    ensures MostRecent(sched, now).Some? <==>
            (exists t: Instant :: IsSlot(sched, t) && AtOrBefore(t, now)) && !InLookBackGap(sched, now)
  {
    DueExact(sched, now, None);
    hide MostRecent, IsSlot, InLookBackGap;
    if t: Instant :| IsSlot(sched, t) && AtOrBefore(t, now) { assert Pending(sched, now, None, t); }
  }

  /** The look-back's answer in terms of slots alone. */
  lemma MostRecentIff(sched: Schedule, now: Instant, s: Instant)
    ensures MostRecent(sched, now) == Some(s) <==> IsLatestSlot(sched, now, s) && !InLookBackGap(sched, now)
  {
    FindsSlotIff(sched, now);
    hide MostRecent, IsSlot, InLookBackGap;
    if MostRecent(sched, now).Some? {
      var t := MostRecent(sched, now).value;
      LatestWhenSome(sched, now);
      if IsLatestSlot(sched, now, s) { assert AtOrBefore(s, t) && AtOrBefore(t, s); }
    }
  }

  // ---- A run, as values ----

  /** One tick: the local clock, and the routine as the tick finds it. */
  datatype Look = Look(now: Instant, sched: Schedule, provisioned: bool, enabled: bool)
  {
    predicate Armed() { provisioned && enabled }
  }

  /** The stamp before tick `i`. */
  function LastBefore(looks: seq<Look>, last: Option<Instant>, i: nat): Option<Instant>
    requires i <= |looks|
    decreases i, 0
  {
    if i == 0 then last
    else if Fires(looks, last, i - 1) then Some(looks[i - 1].now)
    else LastBefore(looks, last, i - 1)
  }

  predicate Fires(looks: seq<Look>, last: Option<Instant>, i: nat)
    requires i < |looks|
    decreases i, 1
  {
    looks[i].Armed() && IsDue(looks[i].sched, looks[i].now, LastBefore(looks, last, i))
  }

  // ---- The loop ----

  class Routine {
    var sched: Schedule
    var provisioned: bool
    var enabled: bool
    var lastFired: Option<Instant>

    constructor (sched: Schedule, provisioned: bool, enabled: bool, lastFired: Option<Instant>)
      ensures this.sched == sched && this.provisioned == provisioned && this.enabled == enabled
      ensures this.lastFired == lastFired
    {
      this.sched := sched;
      this.provisioned := provisioned;
      this.enabled := enabled;
      this.lastFired := lastFired;
    }

    /** One pass over this routine: fire it when it is due, and stamp the fire. */
    method Tick(now: Instant) returns (fired: bool)
      modifies this`lastFired
      ensures fired == (provisioned && enabled && IsDue(sched, now, old(lastFired)))
      ensures lastFired == if fired then Some(now) else old(lastFired)
    {
      if !provisioned || !enabled { return false; }
      var slot := MostRecentSlot(sched, now);
      fired := slot.Some? && (lastFired.None? || Earlier(lastFired.value, slot.value));
      if fired { lastFired := Some(now); }
    }

    /** What the user changes between ticks; the stamp stays. */
    method Edit(look: Look)
      modifies this`sched, this`provisioned, this`enabled
      ensures sched == look.sched && provisioned == look.provisioned && enabled == look.enabled
    {
      sched, provisioned, enabled := look.sched, look.provisioned, look.enabled;
    }

    /** The loop over a finite run of ticks, with the routine as the user has it at each. */
    method Run(looks: seq<Look>) returns (fired: seq<bool>)
      modifies this
      ensures |fired| == |looks|
      ensures looks != [] ==>
                var l := looks[|looks| - 1]; sched == l.sched && provisioned == l.provisioned && enabled == l.enabled
      ensures looks == [] ==> sched == old(sched) && provisioned == old(provisioned) && enabled == old(enabled)
      ensures lastFired == LastBefore(looks, old(lastFired), |looks|)
      ensures forall i :: 0 <= i < |looks| ==> fired[i] == Fires(looks, old(lastFired), i)
    {
      fired := [];
      for k := 0 to |looks|
        invariant |fired| == k
        invariant k == 0 ==> sched == old(sched) && provisioned == old(provisioned) && enabled == old(enabled)
        invariant k > 0 ==>
                    var l := looks[k - 1]; sched == l.sched && provisioned == l.provisioned && enabled == l.enabled
        invariant lastFired == LastBefore(looks, old(lastFired), k)
        invariant forall i :: 0 <= i < k ==> fired[i] == Fires(looks, old(lastFired), i)
      {
        Edit(looks[k]);
        var now := Tick(looks[k].now);
        fired := fired + [now];
      }
    }
  }

  // ---- Whole runs, whatever the clock and the user do ----

  /** `stamp` is no older than `last`. */
  predicate NoOlder(last: Option<Instant>, stamp: Option<Instant>)
  {
    last.Some? ==> stamp.Some? && AtOrBefore(last.value, stamp.value)
  }

  /** Every fire is later than the stamp it replaces, so the stamp never goes back, even when the clock does. */
  lemma {:induction false} StampNeverGoesBack(looks: seq<Look>, last: Option<Instant>, i: nat, j: nat)
    requires i <= j <= |looks|
    ensures NoOlder(LastBefore(looks, last, i), LastBefore(looks, last, j))
    decreases j
  {
    hide MostRecent;
    if i < j {
      StampNeverGoesBack(looks, last, i, j - 1);
      if Fires(looks, last, j - 1) { LatestWhenSome(looks[j - 1].sched, looks[j - 1].now); }
    }
  }

  /** Between any two fires lies a slot of its own for the later one: fires inject into slots, in order. */
  lemma FiresHaveTheirOwnSlots(looks: seq<Look>, last: Option<Instant>, i: nat, j: nat)
    requires i < j < |looks| && Fires(looks, last, i) && Fires(looks, last, j)
    ensures var (a, b) := (looks[i], looks[j]);
            var (s, t) := (MostRecent(a.sched, a.now).value, MostRecent(b.sched, b.now).value);
            && IsLatestSlot(a.sched, a.now, s) && IsLatestSlot(b.sched, b.now, t)
            && AtOrBefore(s, a.now) && Earlier(a.now, t) && AtOrBefore(t, b.now)
  {
    hide MostRecent;
    StampNeverGoesBack(looks, last, i + 1, j);
    LatestWhenSome(looks[i].sched, looks[i].now);
    LatestWhenSome(looks[j].sched, looks[j].now);
  }

  /** Tick `i` fires for the slot `s`. */
  predicate FiresFor(looks: seq<Look>, last: Option<Instant>, i: nat, s: Instant)
    requires i < |looks|
  {
    Fires(looks, last, i) && MostRecent(looks[i].sched, looks[i].now) == Some(s)
  }

  /** No slot is fired for twice. */
  lemma EverySlotFiresAtMostOnce(looks: seq<Look>, last: Option<Instant>, i: nat, j: nat, s: Instant)
    requires i < |looks| && j < |looks| && FiresFor(looks, last, i, s) && FiresFor(looks, last, j, s)
    ensures i == j
  {
    hide Fires;
    if i < j { FiresHaveTheirOwnSlots(looks, last, i, j); }
    if j < i { FiresHaveTheirOwnSlots(looks, last, j, i); }
  }

  lemma {:induction false} LastIsInitialOrFire(looks: seq<Look>, last: Option<Instant>, i: nat) returns (j: nat)
    requires i <= |looks|
    ensures LastBefore(looks, last, i) == last ||
            (j < i && Fires(looks, last, j) && LastBefore(looks, last, i) == Some(looks[j].now))
    decreases i
  {
    hide IsDue;
    j := 0;
    if i > 0 {
      if Fires(looks, last, i - 1) { j := i - 1; } else { j := LastIsInitialOrFire(looks, last, i - 1); }
    }
  }

  /** The tick finds the routine armed, and `s` is the greatest slot of its schedule; the gap is not in the way. */
  ghost predicate Sees(look: Look, s: Instant)
  {
    look.Armed() && IsLatestSlot(look.sched, look.now, s) && !InLookBackGap(look.sched, look.now)
  }

  /**
   Exactly when a tick fires for a slot, in any run: the slot is newer than the starting stamp, the tick
   sees it, and every earlier fire was before it, however the clock was set and the schedule edited.
   */
  lemma FiresExactlyUnlessOvertaken(looks: seq<Look>, last: Option<Instant>, i: nat, s: Instant)
    requires i < |looks|
    ensures FiresFor(looks, last, i, s) <==>
            && (last.None? || Earlier(last.value, s)) && Sees(looks[i], s)
            && forall j :: 0 <= j < i && Fires(looks, last, j) ==> Earlier(looks[j].now, s)
  {
    MostRecentIff(looks[i].sched, looks[i].now, s);
    hide MostRecent, IsLatestSlot, InLookBackGap;
    if FiresFor(looks, last, i, s) {
      StampNeverGoesBack(looks, last, 0, i);
      forall j | 0 <= j < i && Fires(looks, last, j) ensures Earlier(looks[j].now, s) {
        StampNeverGoesBack(looks, last, j + 1, i);
      }
    } else {
      var j := LastIsInitialOrFire(looks, last, i);
    }
  }

  /** The tick finds the routine armed and the clock at or past `s`, outside the gap. */
  predicate LooksPast(look: Look, s: Instant)
  {
    look.Armed() && !InLookBackGap(look.sched, look.now) && AtOrBefore(s, look.now)
  }

  /** Tick `i` is the first of the run to look past the new slot `s`, and sees it: slots, clock and flags alone say so. */
  ghost predicate FirstToReach(looks: seq<Look>, last: Option<Instant>, i: nat, s: Instant)
    requires i < |looks|
  {
    && (last.None? || Earlier(last.value, s)) && Sees(looks[i], s)
    && forall j :: 0 <= j < i ==> !LooksPast(looks[j], s)
  }

  /** If `s` is a slot at tick `i`, it was one at every earlier tick: no edit brought it in. */
  ghost predicate SlotKept(looks: seq<Look>, i: nat, s: Instant)
    requires i < |looks|
  {
    IsSlot(looks[i].sched, s) ==> forall j :: 0 <= j < i && looks[j].Armed() ==> IsSlot(looks[j].sched, s)
  }

  /** Looking past a slot leaves a stamp no older than the slot, whether the look fires or not. */
  lemma LookingPastStamps(looks: seq<Look>, last: Option<Instant>, j: nat, s: Instant)
    requires j < |looks| && LooksPast(looks[j], s) && IsSlot(looks[j].sched, s)
    ensures NoOlder(Some(s), LastBefore(looks, last, j + 1))
  {
    FindsSlotIff(looks[j].sched, looks[j].now);
    hide MostRecent, IsSlot, InLookBackGap;
    LatestWhenSome(looks[j].sched, looks[j].now);
  }

  /** A slot that no edit brought in is fired for exactly by the tick that is the first to reach it. */
  lemma FiresExactlyAtFirstReach(looks: seq<Look>, last: Option<Instant>, i: nat, s: Instant)
    requires i < |looks| && SlotKept(looks, i, s)
    ensures FiresFor(looks, last, i, s) <==> FirstToReach(looks, last, i, s)
  {
    FiresExactlyUnlessOvertaken(looks, last, i, s);
    hide MostRecent, FiresFor, IsSlot, InLookBackGap;
    if FiresFor(looks, last, i, s) {
      forall j | 0 <= j < i ensures !LooksPast(looks[j], s) {
        if LooksPast(looks[j], s) {
          LookingPastStamps(looks, last, j, s);
          var f := LastIsInitialOrFire(looks, last, j + 1);
        }
      }
    }
    if FirstToReach(looks, last, i, s) {
      forall j | 0 <= j < i && Fires(looks, last, j) ensures Earlier(looks[j].now, s) {
        FindsSlotIff(looks[j].sched, looks[j].now);
        assert !LooksPast(looks[j], s);
      }
    }
  }

  /** Such a slot is fired for, and then by one tick only, exactly when some tick is the first to reach it. */
  lemma SlotFiresIff(looks: seq<Look>, last: Option<Instant>, s: Instant)
    requires forall i :: 0 <= i < |looks| ==> SlotKept(looks, i, s)
    ensures (exists i :: 0 <= i < |looks| && FiresFor(looks, last, i, s)) <==>
            (exists i :: 0 <= i < |looks| && FirstToReach(looks, last, i, s))
    ensures forall i, j :: 0 <= i < |looks| && 0 <= j < |looks| ==>
              (FiresFor(looks, last, i, s) && FiresFor(looks, last, j, s) ==> i == j)
  {
    hide FiresFor, FirstToReach, SlotKept;
    forall i: nat | i < |looks| ensures FiresFor(looks, last, i, s) <==> FirstToReach(looks, last, i, s) {
      FiresExactlyAtFirstReach(looks, last, i, s);
    }
    forall i: nat, j: nat | i < |looks| && j < |looks| && FiresFor(looks, last, i, s) && FiresFor(looks, last, j, s)
      ensures i == j
    {
      EverySlotFiresAtMostOnce(looks, last, i, j, s);
    }
  }

  /** A one-off schedule fires at most once ever, whatever happens between the two ticks. */
  lemma OnceFiresAtMostOnce(date: CivilDate, h: nat, m: nat, looks: seq<Look>, last: Option<Instant>, i: nat, j: nat)
    requires i < j < |looks| && looks[i].sched == looks[j].sched == Once(date, h, m) && Fires(looks, last, i)
    ensures !Fires(looks, last, j)
  {
    StampNeverGoesBack(looks, last, i + 1, j);
  }

  // ---- Runs of one schedule on a clock that is never set back ----

  lemma {:induction false} FirstSight(looks: seq<Look>, k: nat, s: Instant) returns (i: nat)
    requires k < |looks| && Sees(looks[k], s)
    ensures i <= k && Sees(looks[i], s) && forall j :: 0 <= j < i ==> !Sees(looks[j], s)
  {
    hide Sees;
    i := k;
    if j :| 0 <= j < k && Sees(looks[j], s) { i := FirstSight(looks, j, s); }
  }

  lemma PastIsSeen(earlier: Look, later: Look, s: Instant)
    requires earlier.sched == later.sched && AtOrBefore(earlier.now, later.now)
    requires LooksPast(earlier, s) && Sees(later, s)
    ensures Sees(earlier, s)
  {
  }

  /** While the clock is not set back nor the schedule edited, the first tick that sees a new slot fires for it. */
  lemma FirstSightFires(looks: seq<Look>, last: Option<Instant>, i: nat, s: Instant)
    requires i < |looks| && Sees(looks[i], s)
    requires forall j :: 0 <= j < i ==> AtOrBefore(looks[j].now, looks[i].now) && looks[j].sched == looks[i].sched
    requires forall j :: 0 <= j < i ==> !Sees(looks[j], s)
    requires last.None? || Earlier(last.value, s)
    ensures FiresFor(looks, last, i, s)
  {
    hide MostRecent, FiresFor, IsSlot, InLookBackGap;
    forall j | 0 <= j < i ensures !LooksPast(looks[j], s) {
      if LooksPast(looks[j], s) { PastIsSeen(looks[j], looks[i], s); }
    }
    FiresExactlyAtFirstReach(looks, last, i, s);
  }

  /**
   Exactly once: a slot newer than the starting stamp that some tick sees, the clock not set back and the
   schedule not edited until then, is fired for by one tick and by no other of the whole run.
   */
  lemma EverySlotSeenFiresExactlyOnce(looks: seq<Look>, last: Option<Instant>, k: nat, s: Instant) returns (i: nat)
    requires k < |looks| && Sees(looks[k], s)
    requires forall i, j :: 0 <= i < j <= k ==> AtOrBefore(looks[i].now, looks[j].now)
    requires forall j :: 0 <= j < k ==> looks[j].sched == looks[k].sched
    requires last.None? || Earlier(last.value, s)
    ensures i <= k && FiresFor(looks, last, i, s)
    ensures forall j :: 0 <= j < |looks| && FiresFor(looks, last, j, s) ==> j == i
  {
    hide FiresFor, Sees;
    i := FirstSight(looks, k, s);
    FirstSightFires(looks, last, i, s);
    forall j | 0 <= j < |looks| && FiresFor(looks, last, j, s) ensures j == i {
      EverySlotFiresAtMostOnce(looks, last, i, j, s);
    }
  }

  // ---- Where a slot is lost ----

  /**
   With the clock set back a slot can be lost: a fire on Tuesday morning, then the clock set to Monday
   noon, and Monday's slot is seen and not fired for.
   */
  lemma SetBackClockLosesSlot()
    ensures var (monday, tuesday) := (Date(2026, 6, 29), Date(2026, 6, 30));
            var slot: Instant := DateTime(monday, 9 * 3600, 0);
            var looks := [Look(DateTime(tuesday, 9 * 3600 + 60, 0), Daily(9, 0), true, true),
                          Look(DateTime(monday, 12 * 3600, 0), Daily(9, 0), true, true)];
            && Fires(looks, None, 0) && Sees(looks[1], slot)
            && forall i :: 0 <= i < 2 ==> !FiresFor(looks, None, i, slot)
  {
    var early: Instant := DateTime(Date(2026, 6, 30), 9 * 3600 + 60, 0);
    assert MostRecent(Daily(9, 0), early) == Some(DateTime(Date(2026, 6, 30), 9 * 3600, 0));
    MostRecentIff(Daily(9, 0), DateTime(Date(2026, 6, 29), 12 * 3600, 0), DateTime(Date(2026, 6, 29), 9 * 3600, 0));
  }

  /** So it can by an edit: a fire at ten, then the time moved back to nine, and today's new slot is passed over. */
  lemma EditedScheduleLosesSlot()
    ensures var slot: Instant := DateTime(Date(2026, 6, 29), 9 * 3600, 0);
            var looks := [Look(DateTime(Date(2026, 6, 29), 10 * 3600, 0), Daily(10, 0), true, true),
                          Look(DateTime(Date(2026, 6, 29), 10 * 3600 + 60, 0), Daily(9, 0), true, true)];
            && Fires(looks, None, 0) && Sees(looks[1], slot)
            && forall i :: 0 <= i < 2 ==> !FiresFor(looks, None, i, slot)
  {
    var ten: Instant := DateTime(Date(2026, 6, 29), 10 * 3600, 0);
    assert MostRecent(Daily(10, 0), ten) == Some(ten);
    MostRecentIff(Daily(9, 0), DateTime(Date(2026, 6, 29), 10 * 3600 + 60, 0), DateTime(Date(2026, 6, 29), 9 * 3600, 0));
  }
}
