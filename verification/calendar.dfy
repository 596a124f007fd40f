/**
 Civil dates of the proleptic Gregorian calendar, as `chrono::NaiveDate` has them: month lengths and
 leap years follow section 5.7 and Appendix C of RFC 3339. A date is a civil triple; its day number
 counts days so that weekdays and neighbouring dates can be compared across month and year ends.
 */
module Calendar {
  datatype DateRecord = Date(year: int, month: int, day: int)

  predicate IsLeap(year: int)
  {
    year % 4 == 0 && (year % 100 != 0 || year % 400 == 0)
  }

  function DaysInMonth(year: int, month: int): int
  {
    if month == 2 then (if IsLeap(year) then 29 else 28)
    else if month == 4 || month == 6 || month == 9 || month == 11 then 30
    else 31
  }

  predicate IsDate(d: DateRecord)
  {
    1 <= d.month <= 12 && 1 <= d.day <= DaysInMonth(d.year, d.month)
  }

  /** A `NaiveDate`: always a real calendar day. */
  type CivilDate = d: DateRecord | IsDate(d) witness Date(1, 1, 1)

  datatype Weekday = Mon | Tue | Wed | Thu | Fri | Sat | Sun

  /** `NaiveDate::succ_opt`, without chrono's upper bound on years. */
  function Succ(d: CivilDate): CivilDate
  {
    if d.day < DaysInMonth(d.year, d.month) then Date(d.year, d.month, d.day + 1)
    else if d.month < 12 then Date(d.year, d.month + 1, 1)
    else Date(d.year + 1, 1, 1)
  }

  /** `NaiveDate::pred_opt`, without chrono's lower bound on years. */
  function Pred(d: CivilDate): CivilDate
  {
    if d.day > 1 then Date(d.year, d.month, d.day - 1)
    else if d.month > 1 then Date(d.year, d.month - 1, DaysInMonth(d.year, d.month - 1))
    else Date(d.year - 1, 12, 31)
  }

  /** The order of `NaiveDate`: by year, then month, then day. */
  predicate DateLess(a: DateRecord, b: DateRecord)
  {
    || a.year < b.year
    || (a.year == b.year && a.month < b.month)
    || (a.year == b.year && a.month == b.month && a.day < b.day)
  }

  // ---- Day numbers ----

  /** The days before 1 January of `year`, counted from 1 January of year 1. */
  function DaysBeforeYear(year: int): int
  {
    365 * (year - 1) + (year - 1) / 4 - (year - 1) / 100 + (year - 1) / 400
  }

  function DaysBeforeMonth(year: int, month: int): int
    decreases month
  {
    if month <= 1 then 0 else DaysBeforeMonth(year, month - 1) + DaysInMonth(year, month - 1)
  }

  /** 1 January of year 1 is day 1 (`num_days_from_ce`). */
  function DayNumber(d: DateRecord): int
  {
    DaysBeforeYear(d.year) + DaysBeforeMonth(d.year, d.month) + d.day
  }

  /** Day 1 is a Monday. */
  function WeekdayOfNumber(n: int): Weekday
  {
    match (n - 1) % 7
    case 0 => Mon
    case 1 => Tue
    case 2 => Wed
    case 3 => Thu
    case 4 => Fri
    case 5 => Sat
    case _ => Sun
  }

  function WeekdayOf(d: DateRecord): Weekday
  {
    WeekdayOfNumber(DayNumber(d))
  }

  lemma MonthTable(year: int)
    ensures DaysBeforeMonth(year, 12) == if IsLeap(year) then 335 else 334
  {
    assert DaysBeforeMonth(year, 4) == 59 + 31 + (if IsLeap(year) then 1 else 0);
    assert DaysBeforeMonth(year, 8) == DaysBeforeMonth(year, 4) + 122;
  }

  lemma Multiples(d: int, k: int)
    requires k > 0
    ensures d >= 1 ==> d * k >= k
    ensures d <= -1 ==> d * k <= -k
  {
  }

  lemma QuotientIs(n: int, k: int, q: int, r: int)
    requires k > 0 && n == q * k + r && 0 <= r < k
    ensures n / k == q
  {
    var d := n / k - q;
    assert d * k == r - n % k;
    Multiples(d, k);
  }

  lemma QuotientStep(n: int, k: int)
    requires k > 0
    ensures n / k == (n - 1) / k + (if n % k == 0 then 1 else 0)
  {
    if n % k == 0 {
      QuotientIs(n - 1, k, n / k - 1, k - 1);
    } else {
      QuotientIs(n - 1, k, n / k, n % k - 1);
    }
  }

  lemma YearsStep(year: int)
    ensures DaysBeforeYear(year + 1) - DaysBeforeYear(year) ==
            365 + (if year % 4 == 0 then 1 else 0) - (if year % 100 == 0 then 1 else 0)
            + (if year % 400 == 0 then 1 else 0)
  {
    QuotientStep(year, 4);
    QuotientStep(year, 100);
    QuotientStep(year, 400);
  }

  lemma MultipleIs(n: int, k: int, q: int)
    requires k > 0 && n == q * k
    ensures n % k == 0
  {
    QuotientIs(n, k, q, 0);
  }

  lemma LeapFacts(year: int)
    ensures year % 400 == 0 ==> year % 100 == 0
    ensures year % 100 == 0 ==> year % 4 == 0
  {
    if year % 400 == 0 { MultipleIs(year, 100, 4 * (year / 400)); }
    if year % 100 == 0 { MultipleIs(year, 4, 25 * (year / 100)); }
  }

  lemma YearLength(year: int)
    ensures DaysBeforeYear(year + 1) - DaysBeforeYear(year) == if IsLeap(year) then 366 else 365
    ensures DaysBeforeMonth(year, 12) + 31 == if IsLeap(year) then 366 else 365
  {
    MonthTable(year);
    YearsStep(year);
    hide DaysBeforeYear, DaysBeforeMonth;
    LeapFacts(year);
  }

  /** Civil succession is exactly one day, across month ends, year ends and leap days. */
  lemma SuccIsNextDay(d: CivilDate)
    ensures DayNumber(Succ(d)) == DayNumber(d) + 1
  {
    if d.month == 12 && d.day == 31 { YearLength(d.year); }
  }

  lemma SuccPredInverse(d: CivilDate)
    ensures Pred(Succ(d)) == d && Succ(Pred(d)) == d
  {
  }

  lemma PredIsPreviousDay(d: CivilDate)
    ensures DayNumber(Pred(d)) == DayNumber(d) - 1
  {
    SuccIsNextDay(Pred(d));
    SuccPredInverse(d);
  }

  lemma MonthsPositive(year: int, n: int)
    ensures DaysBeforeMonth(year, n) >= 0
    decreases n
  {
  }

  lemma {:induction false} MonthsEnd(year: int, n: int)
    requires 1 <= n <= 12
    ensures DaysBeforeMonth(year, n) >= 0
    ensures DaysBeforeMonth(year, n) + DaysInMonth(year, n) <= if IsLeap(year) then 366 else 365
    decreases 12 - n
  {
    MonthTable(year);
    if n < 12 { MonthsEnd(year, n + 1); }
    MonthsPositive(year, n);
  }

  lemma {:induction false} MonthsAscend(year: int, m: int, n: int)
    requires 1 <= m < n <= 12
    ensures DaysBeforeMonth(year, m) + DaysInMonth(year, m) <= DaysBeforeMonth(year, n)
    ensures DaysBeforeMonth(year, n) + DaysInMonth(year, n) <= if IsLeap(year) then 366 else 365
    decreases n
  {
    if m + 1 < n { MonthsAscend(year, m, n - 1); }
    MonthTable(year);
    if n < 12 { MonthsEnd(year, n); }
  }

  lemma {:induction false} YearsAscend(y: int, z: int)
    requires y < z
    ensures DaysBeforeYear(y) + (if IsLeap(y) then 366 else 365) <= DaysBeforeYear(z)
    decreases z - y
  {
    YearLength(y);
    if y + 1 < z { YearsAscend(y + 1, z); }
  }

  lemma LessIsSmaller(a: CivilDate, b: CivilDate)
    requires DateLess(a, b)
    ensures DayNumber(a) < DayNumber(b)
  {
    MonthsEnd(a.year, a.month);
    MonthsEnd(b.year, b.month);
    if a.year < b.year {
      YearsAscend(a.year, b.year);
    } else if a.month < b.month {
      MonthsAscend(a.year, a.month, b.month);
    }
  }

  /** Day numbers order dates as their fields do. */
  lemma DayNumberOrder(a: CivilDate, b: CivilDate)
    ensures DateLess(a, b) <==> DayNumber(a) < DayNumber(b)
    ensures a == b <==> DayNumber(a) == DayNumber(b)
  {
    if DateLess(a, b) {
      LessIsSmaller(a, b);
    } else if DateLess(b, a) {
      LessIsSmaller(b, a);
    }
  }

  /** The week repeats: equal weekdays are exactly the day numbers that differ by whole weeks. */
  lemma WeekdayPeriod(m: int, n: int)
    ensures WeekdayOfNumber(m) == WeekdayOfNumber(n) <==> (m - n) % 7 == 0
  {
  }

  /** Every weekday occurs on one of the seven days up to `n`. */
  lemma WeekdayWithin(n: int, w: Weekday) returns (k: int)
    ensures 0 <= k < 7 && WeekdayOfNumber(n - k) == w
  {
    var index := match w case Mon => 0 case Tue => 1 case Wed => 2 case Thu => 3 case Fri => 4 case Sat => 5 case Sun => 6;
    k := (n - 1 - index) % 7;
    assert (n - k - 1) % 7 == index;
  }

  // ---- The calendar's constants, from outside ----

  /** The lengths of the months, January to December (RFC 3339, section 5.7). */
  lemma MonthLengths(year: int, month: int)
    requires 1 <= month <= 12
    ensures DaysInMonth(year, month) ==
            [31, if IsLeap(year) then 29 else 28, 31, 30, 31, 30, 31, 31, 30, 31, 30, 31][month - 1]
  {
  }

  lemma SameRemainder(n: int, k: int, q: int, r: int)
    requires k > 0 && n == k * q + r
    ensures n % k == r % k
  {
    assert r == r / k * k + r % k;
    assert n == (q + r / k) * k + r % k;
    QuotientIs(n, k, q + r / k, r % k);
  }

  /** Of every 400 years the leap years are the multiples of four but for three centuries (RFC 3339, Appendix C). */
  lemma LeapYears(cycle: int, r: int)
    requires 0 <= r < 400
    ensures IsLeap(400 * cycle + r) <==> r % 4 == 0 && r !in {100, 200, 300}
  {
    var year := 400 * cycle + r;
    assert year == 4 * (100 * cycle) + r && year == 100 * (4 * cycle) + r;
    SameRemainder(year, 4, 100 * cycle, r);
    SameRemainder(year, 100, 4 * cycle, r);
    SameRemainder(year, 400, cycle, r);
  }

  function Following(w: Weekday): Weekday
  {
    match w
    case Mon => Tue
    case Tue => Wed
    case Wed => Thu
    case Thu => Fri
    case Fri => Sat
    case Sat => Sun
    case Sun => Mon
  }

  /** Each date falls on the weekday after that of the date before. */
  lemma WeekdayFollows(d: CivilDate)
    ensures WeekdayOf(Succ(d)) == Following(WeekdayOf(d))
  {
    SuccIsNextDay(d);
    hide DayNumber;
    assert WeekdayOfNumber(DayNumber(d) + 1) == Following(WeekdayOfNumber(DayNumber(d)));
  }

  /** 18 June 2026 is a Thursday, and day numbers count from 1 January of year 1. */
  lemma CalendarAnchor()
    ensures WeekdayOf(Date(2026, 6, 18)) == Thu && DayNumber(Date(2026, 6, 18)) == 739785
    ensures DayNumber(Date(1, 1, 1)) == 1
  {
    assert DaysBeforeMonth(2026, 3) == 59;
    assert DaysBeforeMonth(2026, 6) == 151;
  }
}
