/** The schedule string: what the scheduler reads, and what the schedule picker writes. */
module ScheduleText {
  import opened Sequences
  import opened Text
  import opened Digits
  import opened Calendar
  import opened Schedules

  const U32_MAX: nat := 0xFFFF_FFFF

  /** `NaiveDate::parse_from_str(_, "%Y-%m-%d")`: chrono's own parser is a parameter of the model. */
  type DateParser = string -> Option<CivilDate>

  /** `str::split_once`. */
  function SplitOnce(s: string, sep: char): Option<(string, string)>
  {
    if s == [] then None
    else if s[0] == sep then Some(("", s[1..]))
    else match SplitOnce(s[1..], sep)
         case None => None
         case Some((a, b)) => Some(([s[0]] + a, b))
  }

  function ParseHm(s: string): Option<(nat, nat)>
  {
    match SplitOnce(s, ':')
    case None => None
    case Some((left, right)) =>
      match (ParseUnsigned(Trim(left), U32_MAX), ParseUnsigned(Trim(right), U32_MAX))
      case (Some(h), Some(m)) => if h < 24 && m < 60 then Some((h, m)) else None
      case _ => None
  }

  function ParseWeekday(s: string): Option<Weekday>
  {
    var t := Trim(s);
    if t == "Mon" then Some(Mon)
    else if t == "Tue" then Some(Tue)
    else if t == "Wed" then Some(Wed)
    else if t == "Thu" then Some(Thu)
    else if t == "Fri" then Some(Fri)
    else if t == "Sat" then Some(Sat)
    else if t == "Sun" then Some(Sun)
    else None
  }

  /** `filter_map(parse_weekday)`. */
  function ParseWeekdays(parts: seq<string>): seq<Weekday>
  {
    if parts == [] then []
    else match ParseWeekday(parts[0])
         case Some(w) => [w] + ParseWeekdays(parts[1..])
         case None => ParseWeekdays(parts[1..])
  }

  /** What the `k`-th call of the token iterator's `next` gives. */
  function Token(tokens: seq<string>, k: nat): Option<string>
  {
    if k < |tokens| then Some(tokens[k]) else None
  }

  function TokenHm(tokens: seq<string>, k: nat): Option<(nat, nat)>
  {
    match Token(tokens, k) case Some(t) => ParseHm(t) case None => None
  }

  function ParseWeekly(tokens: seq<string>): Schedule
  {
    var days := ParseWeekdays(Split(if |tokens| > 1 then tokens[1] else "", ','));
    match TokenHm(tokens, 2)
    case Some((h, m)) => if days == [] then Manual else Weekly(days, h, m)
    case None => Manual
  }

  function ParseMonthly(tokens: seq<string>): Schedule
  {
    if Token(tokens, 1) != Some("day") || |tokens| < 3 then Manual
    else match (ParseUnsigned(tokens[2], U32_MAX), TokenHm(tokens, 3))
         case (Some(day), Some((h, m))) => if 1 <= day <= 31 then Monthly(day, h, m) else Manual
         case _ => Manual
  }

  function ParseTokens(tokens: seq<string>, dateOf: DateParser): Schedule
  {
    match Token(tokens, 0)
    case None => Manual
    case Some(kind) =>
      if kind == "daily" then
        match TokenHm(tokens, 1) case Some((h, m)) => Daily(h, m) case None => Manual
      else if kind == "weekly" then ParseWeekly(tokens)
      else if kind == "monthly" then ParseMonthly(tokens)
      else if kind == "once" && |tokens| > 1 then
        match (dateOf(tokens[1]), TokenHm(tokens, 2))
        case (Some(date), Some((h, m))) => Once(date, h, m)
        case _ => Manual
      else Manual
  }

  /** Anything unrecognised or malformed is `Manual`, which never fires. */
  function Parse(s: string, dateOf: DateParser): Schedule
  {
    ParseTokens(Words(Trim(s)), dateOf)
  }

  /** The token iterator's `next`: the front token, and the iterator after it. */
  function Advance(rest: seq<string>): (Option<string>, seq<string>)
  {
    if rest == [] then (None, []) else (Some(rest[0]), rest[1..])
  }

  function HmOf(token: Option<string>): Option<(nat, nat)>
  {
    match token case Some(t) => ParseHm(t) case None => None
  }

  /** `parse`, advancing one token iterator. */
  method ParseSchedule(s: string, dateOf: DateParser) returns (sched: Schedule)
    ensures sched == Parse(s, dateOf)
  {
    hide ParseHm, ParseWeekdays, ParseUnsigned, Words, Trim, Split;
    var (kind, rest) := Advance(Words(Trim(s)));
    if kind == Some("daily") {
      var (time, _) := Advance(rest);
      var hm := HmOf(time);
      return if hm.Some? then Daily(hm.value.0, hm.value.1) else Manual;
    } else if kind == Some("weekly") {
      var (list, afterList) := Advance(rest);
      var days := ParseWeekdays(Split(if list.Some? then list.value else "", ','));
      var (time, _) := Advance(afterList);
      var hm := HmOf(time);
      return if days != [] && hm.Some? then Weekly(days, hm.value.0, hm.value.1) else Manual;
    } else if kind == Some("monthly") {
      var (word, afterWord) := Advance(rest);
      if word != Some("day") { return Manual; }
      var (number, afterNumber) := Advance(afterWord);
      var day := if number.Some? then ParseUnsigned(number.value, U32_MAX) else None;
      var (time, _) := Advance(afterNumber);
      var hm := HmOf(time);
      return if day.Some? && hm.Some? && 1 <= day.value <= 31 then Monthly(day.value, hm.value.0, hm.value.1)
             else Manual;
    } else if kind == Some("once") {
      var (text, afterText) := Advance(rest);
      var date := if text.Some? then dateOf(text.value) else None;
      var (time, _) := Advance(afterText);
      var hm := HmOf(time);
      return if date.Some? && hm.Some? then Once(date.value, hm.value.0, hm.value.1) else Manual;
    }
    return Manual;
  }

  /** `next_fire`. */
  function NextFire(s: string, now: Instant, dateOf: DateParser): Option<Instant>
  {
    Next(Parse(s, dateOf), now)
  }

  // ---- The picker ----

  const LABELS: seq<string> := ["Sun", "Mon", "Tue", "Wed", "Thu", "Fri", "Sat"]
  const LABEL_DAYS: seq<Weekday> := [Sun, Mon, Tue, Wed, Thu, Fri, Sat]

  /** The labels of the toggles that are on, from toggle `k`. */
  function Chosen<T>(labels: seq<T>, on: seq<bool>, k: nat): seq<T>
    requires |on| <= |labels|
    decreases |on| - k
  {
    if k >= |on| then [] else (if on[k] then [labels[k]] else []) + Chosen(labels, on, k + 1)
  }

  function BuildSchedule(freq: string, time: string, date: string, weekdays: seq<bool>, monthday: nat): string
    requires |weekdays| <= 7
  {
    var t := if time == "" then "09:00" else time;
    if freq == "once" then
      (if date == "" then "once " + t else "once " + date + " " + t)
    else if freq == "weekly" then
      var days := Chosen(LABELS, weekdays, 0);
      "weekly " + (if days == [] then "Mon" else Join(days, ",")) + " " + t
    else if freq == "monthly" then "monthly day " + Decimal(monthday) + " " + t
    else "daily " + t
  }

  // ---- What parsing promises ----

  /** What the rest of the scheduler may rely on for any string: real clock times, days and dates. */
  predicate WellFormed(sched: Schedule)
  {
    match sched
    case Manual => true
    case Daily(h, m) => h < 24 && m < 60
    case Weekly(days, h, m) => days != [] && h < 24 && m < 60
    case Monthly(day, h, m) => 1 <= day <= 31 && h < 24 && m < 60
    case Once(_, h, m) => h < 24 && m < 60
  }

  /** The text is cut at its first separator, if it has one. */
  lemma {:induction false} SplitOnceIff(s: string, sep: char, left: string, right: string)
    ensures SplitOnce(s, sep) == Some((left, right)) <==> s == left + [sep] + right && sep !in left
  {
    if s != [] {
      if s[0] == sep {
        assert s == [sep] + s[1..];
        assert left != "" ==> (left + [sep] + right)[0] == left[0];
      } else {
        assert s == [s[0]] + s[1..];
        if left != "" {
          SplitOnceIff(s[1..], sep, left[1..], right);
          assert left == [left[0]] + left[1..];
          if s == left + [sep] + right { assert s[1..] == left[1..] + [sep] + right; }
          if SplitOnce(s[1..], sep) == Some((left[1..], right)) { assert s[1..] == left[1..] + [sep] + right; }
        } else if SplitOnce(s, sep).Some? {
          assert SplitOnce(s, sep).value.0 != "";
        }
      }
    }
  }

  /** Exactly which texts are clock times: an hour and a minute around the first colon, with white space allowed. */
  lemma ParseHmIff(s: string, h: nat, m: nat)
    ensures ParseHm(s) == Some((h, m)) <==>
            && h < 24 && m < 60
            && exists left, right ::
                 && s == left + ":" + right && ':' !in left
                 && ParseUnsigned(Trim(left), U32_MAX) == Some(h) && ParseUnsigned(Trim(right), U32_MAX) == Some(m)
  {
    hide ParseUnsigned, Trim;
    match SplitOnce(s, ':')
    case Some((left, right)) =>
      SplitOnceIff(s, ':', left, right);
      forall l, r | s == l + ":" + r && ':' !in l ensures l == left && r == right { SplitOnceIff(s, ':', l, r); }
    case None =>
      forall l, r | s == l + ":" + r && ':' !in l ensures false { SplitOnceIff(s, ':', l, r); }
  }

  /** A weekday is named by its label and by nothing else. */
  lemma ParseWeekdayIff(s: string, w: Weekday)
    ensures ParseWeekday(s) == Some(w) <==>
            Trim(s) == match w case Mon => "Mon" case Tue => "Tue" case Wed => "Wed" case Thu => "Thu"
                               case Fri => "Fri" case Sat => "Sat" case Sun => "Sun"
  {
    hide Trim;
    var t := Trim(s);
    if |t| >= 3 {
      assert t == "Mon" || t[0] != 'M' || t[1] != 'o' || t[2] != 'n' || |t| != 3;
      assert t == "Tue" ==> t[1] == 'u';
      assert t == "Thu" ==> t[1] == 'h';
      assert t == "Sat" ==> t[1] == 'a';
      assert t == "Sun" ==> t[1] == 'u';
    }
  }

  /** The other way round: every text of one of the four shapes is read, whatever follows it. */
  lemma ShapedTextIsRead(s: string, rest: seq<string>, time: string, h: nat, m: nat, dateOf: DateParser)
    requires ParseHm(time) == Some((h, m))
    ensures Words(s) == ["daily", time] + rest ==> Parse(s, dateOf) == Daily(h, m)
    ensures forall days :: Words(s) == ["weekly", days, time] + rest && ParseWeekdays(Split(days, ',')) != [] ==>
              Parse(s, dateOf) == Weekly(ParseWeekdays(Split(days, ',')), h, m)
    ensures forall day: nat, number :: Words(s) == ["monthly", "day", number, time] + rest
                                       && ParseUnsigned(number, U32_MAX) == Some(day) && 1 <= day <= 31 ==>
              Parse(s, dateOf) == Monthly(day, h, m)
    ensures forall day :: Words(s) == ["once", day, time] + rest && dateOf(day).Some? ==>
              Parse(s, dateOf) == Once(dateOf(day).value, h, m)
  {
    hide ParseHm, Words, Split, ParseWeekdays, ParseUnsigned, Trim;
    WordsOfTrim(s);
  }

  lemma ParsedIsWellFormed(s: string, dateOf: DateParser)
    ensures WellFormed(Parse(s, dateOf))
  {
  }

  lemma {:induction false} WeekdaysOfPieces(parts: seq<string>)
    ensures forall w :: w in ParseWeekdays(parts) <==> exists piece :: piece in parts && ParseWeekday(piece) == Some(w)
  {
    hide ParseWeekday;
    if parts != [] {
      WeekdaysOfPieces(parts[1..]);
      assert parts == [parts[0]] + parts[1..];
    }
  }

  /**
   Nothing is made up: a schedule that can fire has its kind from the first token, its clock time from a
   later one, and its weekdays, day of the month or date from the token between.
   */
  lemma ScheduleComesFromText(s: string, dateOf: DateParser)
    requires Parse(s, dateOf) != Manual
    ensures var (tokens, sched) := (Words(Trim(s)), Parse(s, dateOf));
            var k := if sched.Daily? then 1 else if sched.Monthly? then 3 else 2;
            && |tokens| > k && ParseHm(tokens[k]) == Some((sched.h, sched.m))
            && match sched
               case Daily(_, _) => tokens[0] == "daily"
               case Weekly(days, _, _) =>
                 && tokens[0] == "weekly"
                 && forall w :: w in days <==> exists piece :: piece in Split(tokens[1], ',') && ParseWeekday(piece) == Some(w)
               case Monthly(day, _, _) =>
                 tokens[0] == "monthly" && tokens[1] == "day" && ParseUnsigned(tokens[2], U32_MAX) == Some(day)
               case Once(date, _, _) => tokens[0] == "once" && dateOf(tokens[1]) == Some(date)
  {
    hide Words, Trim, ParseHm, ParseWeekdays, ParseWeekday, Split, ParseUnsigned;
    var tokens := Words(Trim(s));
    if |tokens| > 1 { WeekdaysOfPieces(Split(tokens[1], ',')); }
  }

  /** A string that parses to a recurring schedule always has a next fire, and it is the least later slot. */
  lemma ParsedRecurringNeverRunsOut(s: string, dateOf: DateParser, now: Instant)
    requires var sched := Parse(s, dateOf); sched.Daily? || sched.Weekly? || sched.Monthly?
    ensures NextFire(s, now, dateOf).Some?
    ensures IsEarliestSlot(Parse(s, dateOf), now, NextFire(s, now, dateOf).value)
  {
    ParsedIsWellFormed(s, dateOf);
    hide ParseTokens, DaysInMonth, Earlier;
    NextExact(Parse(s, dateOf), now);
    match Parse(s, dateOf)
    case Daily(h, m) => DailyEarliest(h, m, now);
    case Weekly(days, h, m) => WeeklyEarliest(days, h, m, now);
    case Monthly(day, h, m) => MonthlyEarliest(day, h, m, now);
    case _ =>
  }

  // ---- The picker and the scheduler agree ----

  lemma DigitsAreNoWhitespace(s: string)
    requires AllDigits(s)
    ensures NoWhitespace(s) && ':' !in s
  {
  }

  lemma {:induction false} SplitOnceAt(left: string, sep: char, right: string)
    requires sep !in left
    ensures SplitOnce(left + [sep] + right, sep) == Some((left, right))
  {
    var s := left + [sep] + right;
    if left == [] {
      assert s[1..] == right;
    } else {
      assert s[1..] == left[1..] + [sep] + right;
      SplitOnceAt(left[1..], sep, right);
      assert [left[0]] + left[1..] == left;
    }
  }

  lemma TrimOfWord(s: string)
    requires NoWhitespace(s)
    ensures Trim(s) == s
  {
  }

  /** Every clock time the picker can show is one the scheduler can read. */
  lemma ClockTextParses(h: nat, m: nat)
    requires h < 24 && m < 60
    ensures ParseHm(Padded(h, 2) + ":" + Padded(m, 2)) == Some((h, m))
    ensures IsWord(Padded(h, 2) + ":" + Padded(m, 2))
  {
    hide Decimal, Padded;
    var left, right := Padded(h, 2), Padded(m, 2);
    PaddedValue(h, 2);
    PaddedValue(m, 2);
    DigitsAreNoWhitespace(left);
    DigitsAreNoWhitespace(right);
    SplitOnceAt(left, ':', right);
    TrimOfWord(left);
    TrimOfWord(right);
    ParsePadded(h, 2, U32_MAX);
    ParsePadded(m, 2, U32_MAX);
  }

  /** The picked days are those whose toggle is on, in the order of the toggles. */
  lemma {:induction false} ChosenIs<T>(labels: seq<T>, on: seq<bool>, k: nat, j: nat)
    requires k <= j < |on| <= |labels|
    ensures Chosen(labels, on, k) ==
            Chosen(labels[..j], on[..j], k) + (if on[j] then [labels[j]] else []) + Chosen(labels, on, j + 1)
    decreases j - k
  {
    if k < j {
      ChosenIs(labels, on, k + 1, j);
    } else {
      assert Chosen(labels[..j], on[..j], k) == [];
    }
  }

  lemma LabelParses(k: nat)
    requires k < 7
    ensures ParseWeekday(LABELS[k]) == Some(LABEL_DAYS[k]) && IsWord(LABELS[k]) && ',' !in LABELS[k]
  {
    TrimOfWord(LABELS[k]);
  }

  lemma {:induction false} ChosenLabels(on: seq<bool>, k: nat)
    requires k <= |on| <= 7
    ensures ParseWeekdays(Chosen(LABELS, on, k)) == Chosen(LABEL_DAYS, on, k)
    ensures |Chosen(LABELS, on, k)| == |Chosen(LABEL_DAYS, on, k)|
    ensures forall i :: 0 <= i < |Chosen(LABELS, on, k)| ==>
              ',' !in Chosen(LABELS, on, k)[i] && IsWord(Chosen(LABELS, on, k)[i])
    decreases |on| - k
  {
    if k < |on| {
      ChosenLabels(on, k + 1);
      LabelParses(k);
      var rest := Chosen(LABELS, on, k + 1);
      hide ParseWeekday;
      assert ([LABELS[k]] + rest)[1..] == rest && [] + rest == rest;
    }
  }

  lemma {:induction false} JoinIsWord(parts: seq<string>)
    requires parts != [] && AllWords(parts)
    ensures IsWord(Join(parts, ","))
  {
    if |parts| > 1 {
      assert AllWords(parts[1..]) by { assert forall i :: 0 <= i < |parts| - 1 ==> parts[1..][i] == parts[i + 1]; }
      JoinIsWord(parts[1..]);
    }
  }

  lemma WordIsOneWord(w: string)
    requires IsWord(w)
    ensures Words(w) == [w]
  {
    WordsOfWord(w, "");
    assert w + "" == w;
  }

  /** A text that starts with a word is read as that word and the words of the rest. */
  lemma WordThen(w: string, rest: string)
    requires IsWord(w)
    ensures Words(w + " " + rest) == [w] + Words(rest)
  {
    WordIsOneWord(w);
    WordsAcrossSpace(w, rest);
  }

  lemma ParseReadsWords(s: string, words: seq<string>, dateOf: DateParser)
    requires Words(s) == words
    ensures Parse(s, dateOf) == ParseTokens(words, dateOf)
  {
    WordsOfTrim(s);
  }

  /** The weekdays a list of toggles stands for: Monday when none is on. */
  function PickedDays(on: seq<bool>): seq<Weekday>
    requires |on| <= 7
  {
    if Chosen(LABEL_DAYS, on, 0) == [] then [Mon] else Chosen(LABEL_DAYS, on, 0)
  }

  /** The schedule the picker's controls stand for; without a date, a clock time or a day of the month, none. */
  function Picked(freq: string, hm: Option<(nat, nat)>, date: Option<CivilDate>, on: seq<bool>, monthday: nat): Schedule
    requires |on| <= 7
  {
    match hm
    case None => Manual
    case Some((h, m)) =>
      if freq == "once" then (match date case Some(day) => Once(day, h, m) case None => Manual)
      else if freq == "weekly" then Weekly(PickedDays(on), h, m)
      else if freq == "monthly" then (if 1 <= monthday <= 31 then Monthly(monthday, h, m) else Manual)
      else Daily(h, m)
  }

  /** The picker's text fields as words: the one-off's date, then the time, 09:00 when it is empty. */
  function FieldWords(freq: string, time: string, date: string): seq<string>
  {
    (if freq == "once" then Words(date) else []) + Words(if time == "" then "09:00" else time)
  }

  lemma DailyText(time: string, dateOf: DateParser)
    ensures Parse("daily " + time, dateOf) ==
            match TokenHm(Words(time), 0) case Some((h, m)) => Daily(h, m) case None => Manual
  {
    hide ParseHm, Parse;
    assert IsWord("daily") && "daily " == "daily" + " ";
    WordThen("daily", time);
    ParseReadsWords("daily " + time, ["daily"] + Words(time), dateOf);
  }

  lemma OnceText(fields: string, dateOf: DateParser)
    ensures Parse("once " + fields, dateOf) ==
            var words := Words(fields);
            if |words| < 2 then Manual
            else match (dateOf(words[0]), ParseHm(words[1]))
                 case (Some(day), Some((h, m))) => Once(day, h, m)
                 case _ => Manual
  {
    hide ParseHm, Parse;
    assert IsWord("once") && "once " == "once" + " ";
    WordThen("once", fields);
    ParseReadsWords("once " + fields, ["once"] + Words(fields), dateOf);
  }

  lemma WeeklyText(parts: seq<string>, time: string, dateOf: DateParser)
    requires parts != [] && AllWords(parts) && (forall i :: 0 <= i < |parts| ==> ',' !in parts[i])
    requires ParseWeekdays(parts) != []
    ensures Parse("weekly " + Join(parts, ",") + " " + time, dateOf) ==
            match TokenHm(Words(time), 0) case Some((h, m)) => Weekly(ParseWeekdays(parts), h, m) case None => Manual
  {
    hide ParseHm, Parse, Join, ParseWeekdays, Split, AllWords, Words;
    var days := Join(parts, ",");
    JoinIsWord(parts);
    SplitOfJoin(parts, ',');
    assert IsWord("weekly") && "weekly " + days + " " + time == "weekly" + " " + (days + " " + time);
    WordThen("weekly", days + " " + time);
    WordThen(days, time);
    var words := ["weekly"] + ([days] + Words(time));
    ParseReadsWords("weekly " + days + " " + time, words, dateOf);
    assert words[0] == "weekly" && words[1] == days && Token(words, 2) == Token(Words(time), 0);
  }

  lemma ThreeWordsThen(a: string, b: string, c: string, rest: string)
    requires IsWord(a) && IsWord(b) && IsWord(c)
    ensures Words(a + " " + b + " " + c + " " + rest) == [a, b, c] + Words(rest)
  {
    hide Words, IsWord;
    assert a + " " + b + " " + c + " " + rest == a + " " + (b + " " + (c + " " + rest));
    WordThen(a, b + " " + (c + " " + rest));
    WordThen(b, c + " " + rest);
    WordThen(c, rest);
    assert [a] + ([b] + ([c] + Words(rest))) == [a, b, c] + Words(rest);
  }

  lemma MonthlyText(time: string, monthday: nat, dateOf: DateParser)
    ensures Parse("monthly day " + Decimal(monthday) + " " + time, dateOf) ==
            match TokenHm(Words(time), 0)
            case Some((h, m)) => if 1 <= monthday <= 31 then Monthly(monthday, h, m) else Manual
            case None => Manual
  {
    hide ParseHm, Parse, Decimal;
    var day := Decimal(monthday);
    DecimalValue(monthday);
    assert IsDigit(day[0]) && IsWord(day) && IsWord("monthly") && IsWord("day");
    ThreeWordsThen("monthly", "day", day, time);
    assert "monthly" + " " + "day" + " " == "monthly day ";
    hide Words, IsWord;
    ParseReadsWords("monthly day " + day + " " + time, ["monthly", "day", day] + Words(time), dateOf);
  }

  lemma NoWords()
    ensures forall ws: seq<string> :: Words("") + ws == ws
  {
    assert Words("") == [];
  }

  /**
   Every schedule the picker writes is read back by the scheduler as the one its controls and the words of
   its text fields stand for, whatever the user typed.
   */
  lemma PickerRoundTrip(freq: string, time: string, date: string, on: seq<bool>, monthday: nat, dateOf: DateParser)
    requires |on| <= 7
    ensures var words := FieldWords(freq, time, date);
            Parse(BuildSchedule(freq, time, date, on, monthday), dateOf) ==
            if freq == "once" then
              Picked(freq, TokenHm(words, 1), if |words| > 0 then dateOf(words[0]) else None, on, monthday)
            else Picked(freq, TokenHm(words, 0), None, on, monthday)
  {
    var t := if time == "" then "09:00" else time;
    hide ParseHm, Parse, Chosen, ParseWeekday, Words, Decimal;
    if freq == "once" {
      if date == "" {
        NoWords();
        OnceText(t, dateOf);
      } else {
        WordsAcrossSpace(date, t);
        assert "once " + date + " " + t == "once " + (date + " " + t);
        OnceText(date + " " + t, dateOf);
      }
    } else if freq == "weekly" {
      ChosenLabels(on, 0);
      LabelParses(1);
      assert ParseWeekdays(["Mon"]) == [Mon];
      var labels := Chosen(LABELS, on, 0);
      WeeklyText(if labels == [] then ["Mon"] else labels, t, dateOf);
    } else if freq == "monthly" {
      MonthlyText(t, monthday, dateOf);
    } else {
      DailyText(t, dateOf);
    }
  }

  lemma DefaultTime()
    ensures ParseHm("09:00") == Some((9, 0)) && IsWord("09:00")
  {
    ClockTextParses(9, 0);
    assert Padded(9, 2) == "09" && Padded(0, 2) == "00";
    assert "09" + ":" + "00" == "09:00";
  }

  lemma OneWordFields(freq: string, time: string, date: string)
    requires NoWhitespace(time) && (freq == "once" ==> NoWhitespace(date))
    ensures FieldWords(freq, time, date) ==
            (if freq == "once" && date != "" then [date] else []) + [if time == "" then "09:00" else time]
  {
    DefaultTime();
    WordIsOneWord(if time == "" then "09:00" else time);
    if date != "" && NoWhitespace(date) { WordIsOneWord(date); }
    assert Words("") == [];
  }

  /** Fields of one word each, as the picker's own controls give them, are read back as they stand. */
  lemma OneWordFieldsRoundTrip(freq: string, time: string, date: string, on: seq<bool>, monthday: nat,
                               dateOf: DateParser)
    requires |on| <= 7 && NoWhitespace(time) && (freq == "once" ==> NoWhitespace(date))
    ensures Parse(BuildSchedule(freq, time, date, on, monthday), dateOf) ==
            Picked(freq, if time == "" then Some((9, 0)) else ParseHm(time),
                   if date == "" then None else dateOf(date), on, monthday)
  {
    hide ParseHm, Parse, BuildSchedule, FieldWords, PickedDays, IsWhitespace;
    DefaultTime();
    OneWordFields(freq, time, date);
    PickerRoundTrip(freq, time, date, on, monthday, dateOf);
    var t := if time == "" then "09:00" else time;
    var words := FieldWords(freq, time, date);
    if freq == "once" && date != "" {
      assert words == [date, t];
    } else {
      assert words == [t];
    }
  }
}
