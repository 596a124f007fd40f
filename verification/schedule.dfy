/**
 The routine scheduler: the slots a schedule names, the search for the most recent and the next one,
 and the decision whether a routine is due.
 */
module Schedules {
  import opened Sequences
  import opened Calendar

  const NANOS: int := 2_000_000_000

  /** A `NaiveDateTime`: the fraction reaches two seconds because chrono stores leap seconds there. */
  datatype DateTimeRecord = DateTime(date: CivilDate, second: int, nano: int)

  type Instant = t: DateTimeRecord | 0 <= t.second < 86400 && 0 <= t.nano < NANOS
    witness DateTime(Date(1, 1, 1), 0, 0)

  datatype Schedule =
    | Daily(h: nat, m: nat)
    | Weekly(days: seq<Weekday>, h: nat, m: nat)
    | Monthly(day: nat, h: nat, m: nat)
    | Once(date: CivilDate, h: nat, m: nat)
    | Manual

  /** The order of `NaiveDateTime`: field by field. */
  predicate Earlier(a: DateTimeRecord, b: DateTimeRecord)
  {
    || DateLess(a.date, b.date)
    || (a.date == b.date && a.second < b.second)
    || (a.date == b.date && a.second == b.second && a.nano < b.nano)
  }

  predicate AtOrBefore(a: DateTimeRecord, b: DateTimeRecord)
  {
    !Earlier(b, a)
  }

  /** `NaiveDate::from_ymd_opt`. */
  function FromYmd(year: int, month: int, day: int): Option<CivilDate>
  {
    if IsDate(Date(year, month, day)) then Some(Date(year, month, day)) else None
  }

  /** The day before the first of the next month. */
  function LastDayOfMonth(year: int, month: int): int
  {
    var (ny, nm) := if month == 12 then (year + 1, 1) else (year, month + 1);
    match FromYmd(ny, nm, 1)
    case Some(first) => Pred(first).day
    case None => 28
  }

  function At(date: CivilDate, h: nat, m: nat): Option<Instant>
  {
    if h < 24 && m < 60 then Some(DateTime(date, h * 3600 + m * 60, 0)) else None
  }

  function AtOn(date: Option<CivilDate>, h: nat, m: nat): Option<Instant>
  {
    match date case Some(d) => At(d, h, m) case None => None
  }

  function Min(a: int, b: int): int
  {
    if a <= b then a else b
  }

  /** The slot of a monthly schedule in one month, clamped to the month's last day. */
  function MonthSlot(year: int, month: int, day: nat, h: nat, m: nat): Option<Instant>
  {
    AtOn(FromYmd(year, month, Min(day, LastDayOfMonth(year, month))), h, m)
  }

  // ---- The searches, as values ----

  /** The first of `n` dates, walking back from `date`, that holds a slot at or before `now`. */
  function WalkBack(days: seq<Weekday>, h: nat, m: nat, now: Instant, date: CivilDate, n: nat): Option<Instant>
    decreases n
  {
    if n == 0 then None
    else
      var slot := At(date, h, m);
      if WeekdayOf(date) in days && slot.Some? && AtOrBefore(slot.value, now) then slot
      else WalkBack(days, h, m, now, Pred(date), n - 1)
  }

  /** The first of `n` dates, walking forward from `date`, that holds a slot after `now`. */
  function WalkForward(days: seq<Weekday>, h: nat, m: nat, now: Instant, date: CivilDate, n: nat): Option<Instant>
    decreases n
  {
    if n == 0 then None
    else
      var slot := At(date, h, m);
      if WeekdayOf(date) in days && slot.Some? && Earlier(now, slot.value) then slot
      else WalkForward(days, h, m, now, Succ(date), n - 1)
  }

  function MostRecent(sched: Schedule, now: Instant): Option<Instant>
  {
    match sched
    case Manual => None
    case Daily(h, m) =>
      var today := At(now.date, h, m);
      if today.Some? && Earlier(now, today.value) then At(Pred(now.date), h, m) else today
    case Weekly(days, h, m) => WalkBack(days, h, m, now, now.date, 7)
    case Monthly(day, h, m) =>
      var (y, mo) := (now.date.year, now.date.month);
      var here := MonthSlot(y, mo, day, h, m);
      var (py, pm) := if mo == 1 then (y - 1, 12) else (y, mo - 1);
      if here.Some? && Earlier(now, here.value) then MonthSlot(py, pm, day, h, m) else here
    case Once(date, h, m) =>
      var slot := At(date, h, m);
      if slot.Some? && AtOrBefore(slot.value, now) then slot else None
  }

  function Next(sched: Schedule, now: Instant): Option<Instant>
  {
    match sched
    case Manual => None
    case Daily(h, m) =>
      var today := At(now.date, h, m);
      if today.Some? && AtOrBefore(today.value, now) then At(Succ(now.date), h, m) else today
    case Weekly(days, h, m) => WalkForward(days, h, m, now, now.date, 8)
    case Monthly(day, h, m) =>
      var (y, mo) := (now.date.year, now.date.month);
      var here := MonthSlot(y, mo, day, h, m);
      var (ny, nm) := if mo == 12 then (y + 1, 1) else (y, mo + 1);
      if here.Some? && AtOrBefore(here.value, now) then MonthSlot(ny, nm, day, h, m) else here
    case Once(date, h, m) =>
      var slot := At(date, h, m);
      if slot.Some? && Earlier(now, slot.value) then slot else None
  }

  predicate IsDue(sched: Schedule, now: Instant, lastFired: Option<Instant>)
  {
    match MostRecent(sched, now)
    case Some(slot) => lastFired.None? || Earlier(lastFired.value, slot)
    case None => false
  }

  // ---- The searches, as the program runs them ----

  method MostRecentSlot(sched: Schedule, now: Instant) returns (slot: Option<Instant>)
    ensures slot == MostRecent(sched, now)
  {
    hide DayNumber, Earlier, WeekdayOf;
    match sched
    case Manual => return None;
    case Daily(h, m) =>
      var today := At(now.date, h, m);
      if today.None? { return None; }
      if AtOrBefore(today.value, now) { return today; }
      return At(Pred(now.date), h, m);
    case Weekly(days, h, m) =>
      var date := now.date;
      for k := 0 to 7
        invariant MostRecent(sched, now) == WalkBack(days, h, m, now, date, 7 - k)
      {
        if WeekdayOf(date) in days {
          var there := At(date, h, m);
          if there.Some? && AtOrBefore(there.value, now) { return there; }
        }
        date := Pred(date);
      }
      return None;
    case Monthly(day, h, m) =>
      var y, mo := now.date.year, now.date.month;
      var here := MonthSlot(y, mo, day, h, m);
      if here.None? { return None; }
      if AtOrBefore(here.value, now) { return here; }
      var (py, pm) := if mo == 1 then (y - 1, 12) else (y, mo - 1);
      return MonthSlot(py, pm, day, h, m);
    case Once(date, h, m) =>
      var there := At(date, h, m);
      if there.None? { return None; }
      return if AtOrBefore(there.value, now) then there else None;
  }

  method NextSlot(sched: Schedule, now: Instant) returns (slot: Option<Instant>)
    ensures slot == Next(sched, now)
  {
    hide DayNumber, Earlier, WeekdayOf;
    match sched
    case Manual => return None;
    case Daily(h, m) =>
      var today := At(now.date, h, m);
      if today.None? { return None; }
      if Earlier(now, today.value) { return today; }
      return At(Succ(now.date), h, m);
    case Weekly(days, h, m) =>
      var date := now.date;
      for k := 0 to 8
        invariant Next(sched, now) == WalkForward(days, h, m, now, date, 8 - k)
      {
        if WeekdayOf(date) in days {
          var there := At(date, h, m);
          if there.Some? && Earlier(now, there.value) { return there; }
        }
        date := Succ(date);
      }
      return None;
    case Monthly(day, h, m) =>
      var y, mo := now.date.year, now.date.month;
      var here := MonthSlot(y, mo, day, h, m);
      if here.None? { return None; }
      if Earlier(now, here.value) { return here; }
      var (ny, nm) := if mo == 12 then (y + 1, 1) else (y, mo + 1);
      return MonthSlot(ny, nm, day, h, m);
    case Once(date, h, m) =>
      var there := At(date, h, m);
      if there.None? { return None; }
      return if Earlier(now, there.value) then there else None;
  }

  // ---- What a schedule means: the set of its slots ----

  predicate HasTime(t: Instant, h: nat, m: nat)
  {
    h < 24 && m < 60 && t.second == h * 3600 + m * 60 && t.nano == 0
  }

  /** The instants `sched` names; infinitely many for the recurring schedules. */
  predicate IsSlot(sched: Schedule, t: Instant)
  {
    match sched
    case Manual => false
    case Daily(h, m) => HasTime(t, h, m)
    case Weekly(days, h, m) => HasTime(t, h, m) && WeekdayOf(t.date) in days
    case Monthly(day, h, m) =>
      HasTime(t, h, m) && t.date.day == Min(day, DaysInMonth(t.date.year, t.date.month))
    case Once(date, h, m) => HasTime(t, h, m) && t.date == date
  }

  ghost predicate IsLatestSlot(sched: Schedule, now: Instant, s: Instant)
  {
    && IsSlot(sched, s) && AtOrBefore(s, now)
    && forall t: Instant :: IsSlot(sched, t) && AtOrBefore(t, now) ==> AtOrBefore(t, s)
  }

  ghost predicate IsEarliestSlot(sched: Schedule, now: Instant, s: Instant)
  {
    && IsSlot(sched, s) && Earlier(now, s)
    && forall t: Instant :: IsSlot(sched, t) && Earlier(now, t) ==> AtOrBefore(s, t)
  }

  /** The computed last day is the length of the month, leap years and December included. */
  lemma LastDayIsMonthLength(year: int, month: int)
    requires 1 <= month <= 12
    ensures LastDayOfMonth(year, month) == DaysInMonth(year, month)
  {
  }

  lemma SameTimeOrder(a: Instant, b: Instant, h: nat, m: nat)
    requires HasTime(a, h, m) && HasTime(b, h, m)
    ensures AtOrBefore(a, b) <==> DayNumber(a.date) <= DayNumber(b.date)
  {
    hide DayNumber;
    DayNumberOrder(b.date, a.date);
  }

  lemma DaysOrder(a: Instant, b: Instant)
    ensures DayNumber(a.date) < DayNumber(b.date) ==> Earlier(a, b)
  {
    hide DayNumber;
    DayNumberOrder(a.date, b.date);
  }

  // ---- Daily, monthly and one-off schedules ----

  /** The slots of one time of day: the last one up to `now` is today's, or yesterday's before its time. */
  lemma DailyLatest(h: nat, m: nat, now: Instant)
    requires h < 24 && m < 60
    ensures MostRecent(Daily(h, m), now).Some?
    ensures IsLatestSlot(Daily(h, m), now, MostRecent(Daily(h, m), now).value)
  {
    hide DayNumber;
    var s := MostRecent(Daily(h, m), now).value;
    PredIsPreviousDay(now.date);
    DaysOrder(s, now);
    forall t: Instant | IsSlot(Daily(h, m), t) && AtOrBefore(t, now) ensures AtOrBefore(t, s) {
      DaysOrder(now, t);
      SameTimeOrder(t, s, h, m);
      SameTimeOrder(At(now.date, h, m).value, t, h, m);
    }
  }

  lemma DailyEarliest(h: nat, m: nat, now: Instant)
    requires h < 24 && m < 60
    ensures Next(Daily(h, m), now).Some?
    ensures IsEarliestSlot(Daily(h, m), now, Next(Daily(h, m), now).value)
  {
    hide DayNumber;
    var s := Next(Daily(h, m), now).value;
    SuccIsNextDay(now.date);
    DaysOrder(now, s);
    forall t: Instant | IsSlot(Daily(h, m), t) && Earlier(now, t) ensures AtOrBefore(s, t) {
      DaysOrder(t, now);
      SameTimeOrder(s, t, h, m);
      SameTimeOrder(t, At(now.date, h, m).value, h, m);
    }
  }

  predicate MonthBefore(y: int, mo: int, y': int, mo': int)
  {
    y < y' || (y == y' && mo < mo')
  }

  /** Slots of one month come before those of every later month, and a month has only one. */
  lemma MonthSlotOrder(day: nat, h: nat, m: nat, a: Instant, b: Instant)
    requires IsSlot(Monthly(day, h, m), a) && IsSlot(Monthly(day, h, m), b)
    ensures MonthBefore(a.date.year, a.date.month, b.date.year, b.date.month) ==> Earlier(a, b)
    ensures a.date.year == b.date.year && a.date.month == b.date.month ==> a == b
  {
    DayNumberOrder(a.date, b.date);
    DaysOrder(a, b);
  }

  lemma MonthSlotIsSlot(year: int, month: int, day: nat, h: nat, m: nat)
    requires 1 <= month <= 12
    ensures MonthSlot(year, month, day, h, m).Some? <==> day >= 1 && h < 24 && m < 60
    ensures var s := MonthSlot(year, month, day, h, m);
            s.Some? ==> IsSlot(Monthly(day, h, m), s.value) && s.value.date.year == year && s.value.date.month == month
  {
    LastDayIsMonthLength(year, month);
  }

  lemma MonthlyLatest(day: nat, h: nat, m: nat, now: Instant)
    requires day >= 1 && h < 24 && m < 60
    ensures MostRecent(Monthly(day, h, m), now).Some?
    ensures IsLatestSlot(Monthly(day, h, m), now, MostRecent(Monthly(day, h, m), now).value)
  {
    hide DayNumber, LastDayOfMonth;
    var sched := Monthly(day, h, m);
    var (y, mo) := (now.date.year, now.date.month);
    var (py, pm) := if mo == 1 then (y - 1, 12) else (y, mo - 1);
    MonthSlotIsSlot(y, mo, day, h, m);
    MonthSlotIsSlot(py, pm, day, h, m);
    var s := MostRecent(sched, now).value;
    DayNumberOrder(s.date, now.date);
    DaysOrder(s, now);
    forall t: Instant | IsSlot(sched, t) && AtOrBefore(t, now) ensures AtOrBefore(t, s) {
      DayNumberOrder(now.date, t.date);
      DaysOrder(now, t);
      MonthSlotOrder(day, h, m, t, s);
      MonthSlotOrder(day, h, m, t, MonthSlot(y, mo, day, h, m).value);
    }
  }

  lemma MonthlyEarliest(day: nat, h: nat, m: nat, now: Instant)
    requires day >= 1 && h < 24 && m < 60
    ensures Next(Monthly(day, h, m), now).Some?
    ensures IsEarliestSlot(Monthly(day, h, m), now, Next(Monthly(day, h, m), now).value)
  {
    hide DayNumber, LastDayOfMonth;
    var sched := Monthly(day, h, m);
    var (y, mo) := (now.date.year, now.date.month);
    var (ny, nm) := if mo == 12 then (y + 1, 1) else (y, mo + 1);
    MonthSlotIsSlot(y, mo, day, h, m);
    MonthSlotIsSlot(ny, nm, day, h, m);
    var s := Next(sched, now).value;
    DayNumberOrder(now.date, s.date);
    DaysOrder(now, s);
    forall t: Instant | IsSlot(sched, t) && Earlier(now, t) ensures AtOrBefore(s, t) {
      DayNumberOrder(t.date, now.date);
      DaysOrder(t, now);
      MonthSlotOrder(day, h, m, s, t);
      MonthSlotOrder(day, h, m, t, MonthSlot(y, mo, day, h, m).value);
    }
  }

  lemma OnceUnique(date: CivilDate, h: nat, m: nat, t: Instant)
    ensures IsSlot(Once(date, h, m), t) <==> At(date, h, m) == Some(t)
  {
  }

  /**
   The look-back of every schedule that is not weekly: the greatest slot at or before `now`, and
   nothing exactly when there is no such slot.
   */
  lemma MostRecentExact(sched: Schedule, now: Instant)
    requires !sched.Weekly?
    ensures match MostRecent(sched, now)
            case Some(s) => IsLatestSlot(sched, now, s)
            case None => forall t: Instant :: IsSlot(sched, t) ==> Earlier(now, t)
  {
    match sched
    case Manual =>
    case Daily(h, m) => if h < 24 && m < 60 { DailyLatest(h, m, now); }
    case Monthly(day, h, m) =>
      if day >= 1 && h < 24 && m < 60 {
        MonthlyLatest(day, h, m, now);
      } else {
        MonthSlotIsSlot(now.date.year, now.date.month, day, h, m);
      }
    case Once(date, h, m) =>
      forall t: Instant ensures IsSlot(sched, t) <==> At(date, h, m) == Some(t) { OnceUnique(date, h, m, t); }
  }

  // ---- Weekly schedules ----

  lemma {:induction false} WalkBackSound(days: seq<Weekday>, h: nat, m: nat, now: Instant, date: CivilDate, n: nat)
    requires WalkBack(days, h, m, now, date, n).Some?
    ensures var s := WalkBack(days, h, m, now, date, n).value;
            && IsSlot(Weekly(days, h, m), s) && AtOrBefore(s, now)
            && DayNumber(date) - n < DayNumber(s.date) <= DayNumber(date)
    decreases n
  {
    hide DayNumber;
    var slot := At(date, h, m);
    if !(WeekdayOf(date) in days && slot.Some? && AtOrBefore(slot.value, now)) {
      PredIsPreviousDay(date);
      WalkBackSound(days, h, m, now, Pred(date), n - 1);
    }
  }

  /** The walk back passes over no slot. */
  lemma {:induction false} WalkBackComplete(days: seq<Weekday>, h: nat, m: nat, now: Instant, date: CivilDate, n: nat,
                                            t: Instant)
    requires IsSlot(Weekly(days, h, m), t) && AtOrBefore(t, now)
    requires DayNumber(date) - n < DayNumber(t.date) <= DayNumber(date)
    ensures WalkBack(days, h, m, now, date, n).Some?
    ensures DayNumber(t.date) <= DayNumber(WalkBack(days, h, m, now, date, n).value.date)
    decreases n
  {
    hide DayNumber;
    var slot := At(date, h, m);
    if !(WeekdayOf(date) in days && slot.Some? && AtOrBefore(slot.value, now)) {
      DayNumberOrder(t.date, date);
      PredIsPreviousDay(date);
      WalkBackComplete(days, h, m, now, Pred(date), n - 1, t);
    }
  }

  lemma {:induction false} WalkForwardSound(days: seq<Weekday>, h: nat, m: nat, now: Instant, date: CivilDate, n: nat)
    requires WalkForward(days, h, m, now, date, n).Some?
    ensures var s := WalkForward(days, h, m, now, date, n).value;
            && IsSlot(Weekly(days, h, m), s) && Earlier(now, s)
            && DayNumber(date) <= DayNumber(s.date) < DayNumber(date) + n
    decreases n
  {
    hide DayNumber;
    var slot := At(date, h, m);
    if !(WeekdayOf(date) in days && slot.Some? && Earlier(now, slot.value)) {
      SuccIsNextDay(date);
      WalkForwardSound(days, h, m, now, Succ(date), n - 1);
    }
  }

  /** The walk forward passes over no slot. */
  lemma {:induction false} WalkForwardComplete(days: seq<Weekday>, h: nat, m: nat, now: Instant, date: CivilDate,
                                               n: nat, t: Instant)
    requires IsSlot(Weekly(days, h, m), t) && Earlier(now, t)
    requires DayNumber(date) <= DayNumber(t.date) < DayNumber(date) + n
    ensures WalkForward(days, h, m, now, date, n).Some?
    ensures DayNumber(WalkForward(days, h, m, now, date, n).value.date) <= DayNumber(t.date)
    decreases n
  {
    hide DayNumber;
    var slot := At(date, h, m);
    if !(WeekdayOf(date) in days && slot.Some? && Earlier(now, slot.value)) {
      DayNumberOrder(t.date, date);
      SuccIsNextDay(date);
      WalkForwardComplete(days, h, m, now, Succ(date), n - 1, t);
    }
  }

  /** Whatever the backward walk of seven dates returns is the greatest slot at or before `now`. */
  lemma WeeklyLatest(days: seq<Weekday>, h: nat, m: nat, now: Instant)
    requires MostRecent(Weekly(days, h, m), now).Some?
    ensures IsLatestSlot(Weekly(days, h, m), now, MostRecent(Weekly(days, h, m), now).value)
  {
    var sched := Weekly(days, h, m);
    var s := MostRecent(sched, now).value;
    WalkBackSound(days, h, m, now, now.date, 7);
    forall t: Instant | IsSlot(sched, t) && AtOrBefore(t, now) ensures AtOrBefore(t, s) {
      DaysOrder(now, t);
      SameTimeOrder(t, s, h, m);
      if DayNumber(now.date) - 7 < DayNumber(t.date) {
        WalkBackComplete(days, h, m, now, now.date, 7, t);
      }
    }
  }

  /** `k` days before or after a date. */
  function DaysFrom(date: CivilDate, k: int): CivilDate
    decreases if k < 0 then -k else k
  {
    if k == 0 then date else if k > 0 then Succ(DaysFrom(date, k - 1)) else Pred(DaysFrom(date, k + 1))
  }

  lemma {:induction false} DaysFromNumber(date: CivilDate, k: int)
    ensures DayNumber(DaysFrom(date, k)) == DayNumber(date) + k
    decreases if k < 0 then -k else k
  {
    if k > 0 {
      DaysFromNumber(date, k - 1);
      SuccIsNextDay(DaysFrom(date, k - 1));
    } else if k < 0 {
      DaysFromNumber(date, k + 1);
      PredIsPreviousDay(DaysFrom(date, k + 1));
    }
  }

  /** A weekday `w` listed in `days` has a slot on one of the seven dates up to any date. */
  lemma WeeklySlotWithin(days: seq<Weekday>, h: nat, m: nat, date: CivilDate, w: Weekday) returns (t: Instant)
    requires h < 24 && m < 60 && w in days
    ensures IsSlot(Weekly(days, h, m), t) && WeekdayOf(t.date) == w
    ensures DayNumber(date) - 7 < DayNumber(t.date) <= DayNumber(date)
  {
    hide DayNumber;
    var k := WeekdayWithin(DayNumber(date), w);
    DaysFromNumber(date, -k);
    t := At(DaysFrom(date, -k), h, m).value;
  }

  /** Today's weekday is the only one listed, and today's time is still ahead. */
  predicate OnlyTodayAhead(days: seq<Weekday>, h: nat, m: nat, now: Instant)
  {
    && (forall w :: w in days ==> w == WeekdayOf(now.date))
    && (now.second < h * 3600 + m * 60)
  }

  lemma OnlyWholeWeeks(days: seq<Weekday>, h: nat, m: nat, now: Instant, t: Instant)
    requires OnlyTodayAhead(days, h, m, now)
    requires IsSlot(Weekly(days, h, m), t) && AtOrBefore(t, now)
    ensures DayNumber(t.date) <= DayNumber(now.date) - 7
  {
    hide DayNumber;
    DaysOrder(now, t);
    DayNumberOrder(t.date, now.date);
    WeekdayPeriod(DayNumber(t.date), DayNumber(now.date));
  }

  /** With only today's weekday listed and its time ahead, the greatest slot is the one a week ago. */
  lemma LastWeekIsLatest(days: seq<Weekday>, h: nat, m: nat, now: Instant)
    requires days != [] && h < 24 && m < 60 && OnlyTodayAhead(days, h, m, now)
    ensures var lastWeek := At(DaysFrom(now.date, -7), h, m).value;
            && DayNumber(lastWeek.date) == DayNumber(now.date) - 7
            && IsLatestSlot(Weekly(days, h, m), now, lastWeek)
  {
    hide DayNumber;
    var lastWeek := At(DaysFrom(now.date, -7), h, m).value;
    DaysFromNumber(now.date, -7);
    WeekdayPeriod(DayNumber(lastWeek.date), DayNumber(now.date));
    assert days[0] in days;
    DaysOrder(lastWeek, now);
    forall t: Instant | IsSlot(Weekly(days, h, m), t) && AtOrBefore(t, now) ensures AtOrBefore(t, lastWeek) {
      OnlyWholeWeeks(days, h, m, now, t);
      SameTimeOrder(t, lastWeek, h, m);
    }
  }

  lemma GapIsEmpty(days: seq<Weekday>, h: nat, m: nat, now: Instant)
    requires OnlyTodayAhead(days, h, m, now)
    ensures MostRecent(Weekly(days, h, m), now).None?
  {
    hide DayNumber, Earlier, WeekdayOfNumber;
    if MostRecent(Weekly(days, h, m), now).Some? {
      WalkBackSound(days, h, m, now, now.date, 7);
      OnlyWholeWeeks(days, h, m, now, MostRecent(Weekly(days, h, m), now).value);
    }
  }

  /**
   The backward walk comes up empty on a non-empty list exactly when today's weekday is the only one
   listed and its time is still ahead: the slot it then misses is the one a week ago.
   */
  lemma WeeklyLookBackGap(days: seq<Weekday>, h: nat, m: nat, now: Instant)
    requires days != [] && h < 24 && m < 60
    ensures MostRecent(Weekly(days, h, m), now).None? <==> OnlyTodayAhead(days, h, m, now)
    ensures OnlyTodayAhead(days, h, m, now) ==>
              IsLatestSlot(Weekly(days, h, m), now, At(DaysFrom(now.date, -7), h, m).value)
  {
    hide DayNumber;
    if OnlyTodayAhead(days, h, m, now) {
      LastWeekIsLatest(days, h, m, now);
      GapIsEmpty(days, h, m, now);
    } else if exists w :: w in days && w != WeekdayOf(now.date) {
      var w :| w in days && w != WeekdayOf(now.date);
      var t := WeeklySlotWithin(days, h, m, now.date, w);
      DaysOrder(t, now);
      WalkBackComplete(days, h, m, now, now.date, 7, t);
    } else {
      assert days[0] in days;
      WalkBackComplete(days, h, m, now, now.date, 7, At(now.date, h, m).value);
    }
  }

  /** "weekly Mon 09:00" on Monday 29 June 2026 at 08:00: no most recent slot, though 22 June had one. */
  lemma WeeklyLookBackWitness()
    ensures var now := DateTime(Date(2026, 6, 29), 8 * 3600, 0);
            var sched := Weekly([Mon], 9, 0);
            && MostRecent(sched, now) == None
            && IsLatestSlot(sched, now, DateTime(Date(2026, 6, 22), 9 * 3600, 0))
  {
    var now: Instant := DateTime(Date(2026, 6, 29), 8 * 3600, 0);
    assert DaysBeforeMonth(2026, 3) == 59;
    assert DayNumber(now.date) == 739796;
    WeeklyLookBackGap([Mon], 9, 0, now);
    assert DaysFrom(now.date, -3) == Date(2026, 6, 26);
    assert DaysFrom(now.date, -5) == Date(2026, 6, 24);
    assert DaysFrom(now.date, -7) == Date(2026, 6, 22);
  }

  /** The forward walk of eight dates always finds the least later slot. */
  lemma WeeklyEarliest(days: seq<Weekday>, h: nat, m: nat, now: Instant)
    requires days != [] && h < 24 && m < 60
    ensures Next(Weekly(days, h, m), now).Some?
    ensures IsEarliestSlot(Weekly(days, h, m), now, Next(Weekly(days, h, m), now).value)
  {
    var sched := Weekly(days, h, m);
    var tomorrow := DaysFrom(now.date, 7);
    DaysFromNumber(now.date, 7);
    var u := WeeklySlotWithin(days, h, m, tomorrow, days[0]);
    DaysOrder(now, u);
    WalkForwardComplete(days, h, m, now, now.date, 8, u);
    WalkForwardSound(days, h, m, now, now.date, 8);
    var s := Next(sched, now).value;
    forall t: Instant | IsSlot(sched, t) && Earlier(now, t) ensures AtOrBefore(s, t) {
      DaysOrder(t, now);
      SameTimeOrder(s, t, h, m);
      if DayNumber(t.date) < DayNumber(now.date) + 8 {
        WalkForwardComplete(days, h, m, now, now.date, 8, t);
      }
    }
  }

  /**
   The forward search of every schedule: the least slot strictly after `now`, and nothing exactly
   when no later slot exists.
   */
  lemma NextExact(sched: Schedule, now: Instant)
    ensures match Next(sched, now)
            case Some(s) => IsEarliestSlot(sched, now, s)
            case None => forall t: Instant :: IsSlot(sched, t) ==> AtOrBefore(t, now)
  {
    match sched
    case Manual =>
    case Daily(h, m) => if h < 24 && m < 60 { DailyEarliest(h, m, now); }
    case Weekly(days, h, m) =>
      if days != [] && h < 24 && m < 60 {
        WeeklyEarliest(days, h, m, now);
      } else if Next(sched, now).Some? {
        WalkForwardSound(days, h, m, now, now.date, 8);
        assert false;
      }
    case Monthly(day, h, m) =>
      if day >= 1 && h < 24 && m < 60 {
        MonthlyEarliest(day, h, m, now);
      } else {
        MonthSlotIsSlot(now.date.year, now.date.month, day, h, m);
      }
    case Once(date, h, m) =>
      forall t: Instant ensures IsSlot(sched, t) <==> At(date, h, m) == Some(t) { OnceUnique(date, h, m, t); }
  }

  // ---- What a slot is, from outside ----

  /** An instant as one number: nanoseconds, days twice as fine as the leap-second fraction needs. */
  function Stamp(t: Instant): int
  {
    (DayNumber(t.date) * 86400 + t.second) * NANOS + t.nano
  }

  lemma DigitsOrder(a: int, r: int, b: int, q: int, k: int)
    requires 0 <= r < k && 0 <= q < k
    ensures a * k + r < b * k + q <==> a < b || (a == b && r < q)
  {
    if a < b { assert (a + 1) * k <= b * k; }
    if b < a { assert (b + 1) * k <= a * k; }
  }

  /** The field-by-field order is the order of time. */
  lemma EarlierIsNumeric(a: Instant, b: Instant)
    ensures Earlier(a, b) <==> Stamp(a) < Stamp(b)
  {
    DayNumberOrder(a.date, b.date);
    hide DayNumber, DateLess;
    var (x, y) := (DayNumber(a.date) * 86400 + a.second, DayNumber(b.date) * 86400 + b.second);
    DigitsOrder(x, a.nano, y, b.nano, NANOS);
    DigitsOrder(y, b.nano, x, a.nano, NANOS);
    DigitsOrder(DayNumber(a.date), a.second, DayNumber(b.date), b.second, 86400);
    DigitsOrder(DayNumber(b.date), b.second, DayNumber(a.date), a.second, 86400);
  }

  /** A slot of a monthly schedule is on its day, or on the month's last when the month is shorter. */
  lemma MonthlySlotDay(day: nat, h: nat, m: nat, t: Instant)
    ensures IsSlot(Monthly(day, h, m), t) <==>
            && HasTime(t, h, m)
            && (t.date.day == day || (t.date.day < day && Succ(t.date).day == 1))
  {
  }

  lemma DatedWeekdays()
    ensures WeekdayOf(Date(2026, 6, 29)) == Mon && WeekdayOf(Date(2026, 6, 30)) == Tue
  {
    assert DaysBeforeMonth(2026, 3) == 59;
    assert DaysBeforeMonth(2026, 6) == 151;
  }

  /** Dated slots: Monday 29 June 2026 at ten. */
  lemma DatedSlots()
    ensures var now := DateTime(Date(2026, 6, 29), 10 * 3600, 0);
            && Next(Daily(9, 0), now) == Some(DateTime(Date(2026, 6, 30), 9 * 3600, 0))
            && Next(Daily(14, 0), now) == Some(DateTime(Date(2026, 6, 29), 14 * 3600, 0))
            && Next(Monthly(15, 9, 0), now) == Some(DateTime(Date(2026, 7, 15), 9 * 3600, 0))
            && Next(Monthly(30, 9, 0), now) == Some(DateTime(Date(2026, 6, 30), 9 * 3600, 0))
            && Next(Once(Date(2026, 7, 4), 12, 0), now) == Some(DateTime(Date(2026, 7, 4), 12 * 3600, 0))
            && Next(Once(Date(2026, 6, 1), 12, 0), now) == None
            && Next(Weekly([Tue], 9, 0), now) == Some(DateTime(Date(2026, 6, 30), 9 * 3600, 0))
  {
    DatedWeekdays();
    hide WeekdayOf;
    assert Mon != Tue && Succ(Date(2026, 6, 29)) == Date(2026, 6, 30);
  }
}
