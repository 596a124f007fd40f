# Verification model of the Camerata orchestrator's core algorithms

The project models the core algorithms of the orchestrator below and proves what its comments and tests promise
of them, for every input and every run.

- **The routine scheduler** (`calendar.dfy`, `schedule.dfy`, `schedule_runs.dfy`, `schedule_text.dfy`). A
  schedule names a set of instants, its slots. The look-back and the forward search are proved exact against
  that set; a run of ticks is proved to fire exactly where a tick is the first to reach a
  slot, and at most once for each; the picker's strings are
  proved to be read back as picked. Dates are real Gregorian dates, and instants are ordered field by field.
- **The overlap filter on clone candidates** (`clone_rules.dfy`). The greedy pass over a re-sorted order with a
  map from paths to kept candidates is proved equal to the quadratic definition of dominance.
- **The escalation line** (`review.dfy`). Marking slots in place against a budget, and counting them again.
- **Stable identity of findings** (`fingerprint.dfy`, `site_key.dfy`). FNV-1a modulo 2^64, ordinals inside a
  group, and the keys built from both.
- **The decision log** (`decisions.dfy`, `decision_store.dfy`). Four views of an append-only log, what revoking
  undoes, and the numbering that recording, revoking and migrating keep, so that the undo theorems hold on every
  log these reach.
- **Reviewer-addressed text** (`reviewer_injection.dfy`). The cheap check on a whole file against the scan of
  its lines.
- **Rule baselines, custom rules and memory ids** (`project.dfy`).
- **Branch and repository names** (`names.dfy`).

`text.dfy`, `digits.dfy` and `sequences.dfy` hold the standard-library operations the code calls: string
splitting and joining, UTF-8, decimal formatting and parsing, and the stable sort of an index vector.

Where the source changes state step by step, a method with that loop or that object is proved equal to a
function, and the theorems are about the function: `MostRecentSlot` and `MostRecent`, `DropOverlapped` and
`Survivors`, `ReMark` and `Marked`, `AssignOrdinals` and `Ordinal`, `LiveByKey` and `LiveRecords`,
`InheritBaselines` and `InheritAll`, `Store.Revoke` and `RevokeGroup`.

## Where the code and its comments part company

The model follows the code in each case; the exact theorem and a concrete input are in the table.

- The weekly look-back walks seven dates (`crates/app-core/src/schedule.rs:151`) and the forward search eight
  (`crates/app-core/src/schedule.rs:200`). With a single listed weekday, early on that day, the look-back finds
  nothing, although last week's slot exists. A slot missed until then is not caught up on such a tick
  (`WeeklyLookBackGap`, `DueExact`).
- `inherit_baselines` looks for the same placement by repos alone (`crates/app-core/src/project.rs:184`), so
  "the one with the same repos wins" fails when another rule comes first on those repos
  (`SamePlacementWinsIff`).
- The check on a whole file reads the raw content while a line's text joins its quoted segments with a space
  (`crates/checks/src/ai_reviewer_injection_checker.rs:257-260`), so a phrase split over two segments is hidden
  (`FilterIsExact`, `HiddenPhraseCrossesSegments`, `SplitPhraseWitness`).
- The stamp of a fire keeps each slot from firing twice whatever the clock does (`EverySlotFiresAtMostOnce`), but
  the loop reads the local clock (`crates/server/src/auto_fire.rs:50-51`), and after the clock is set back a slot
  can pass without a fire (`FiresExactlyAtFirstReach`, `SetBackClockLosesSlot`). So it can after the schedule is
  edited, which keeps the stamp (`crates/server/src/routine.rs:241`) (`FiresExactlyUnlessOvertaken`,
  `EditedScheduleLosesSlot`).
- "The same set of rows always gets the same ordinals" (`crates/api-types/src/site_key.rs:12-14`) is true of the
  rows together; a single row that ties with another on line and advisory gets another ordinal in another order
  (`ReorderingKeepsTheKeys`, `RowKeepsItsKeyIff`).
- `record_migration` numbers its records as if none had a parent (`crates/server/src/decisions.rs:535-539`). Its one
  caller writes none (`crates/server/src/decisions/routes.rs:327`) (`MigrationReusesIdIff`,
  `InheritedMigrationReusesId`).
- Distinct slug-like branches are said to have distinct directories (`crates/server/src/workspace.rs:1118-1121`);
  `a/b` and `a__b` are accepted and share one (`SlugsGetTheirOwnDirectories`, `OwnDirectoryIff`,
  `SharedDirectoryWitness`).
- A finding's identity is "the rule plus the offending snippet" (`crates/api-types/src/fingerprint.rs:3-4`), but the
  bar between the two is not escaped, so a rule id with a bar in it can meet another (`BarIsNotEscaped`).

## Model

| member | source | states |
|---|---|---|
| Schedules.MostRecentSlot | crates/app-core/src/schedule.rs:136-180 | the program's look-back, weekly loop included, returns the value every look-back theorem below is about |
| Schedules.NextSlot | crates/app-core/src/schedule.rs:185-229 | the program's forward search, weekly loop included, returns the value every forward theorem below is about |
| Schedules.MostRecentExact | crates/app-core/src/schedule.rs:136-180 | for daily, monthly, one-off and manual schedules the look-back returns the greatest slot at or before any instant, and nothing exactly when every slot is later |
| Schedules.NextExact | crates/app-core/src/schedule.rs:185-229 | for every schedule the forward search returns the least slot strictly after any instant, and nothing exactly when no later slot exists |
| Schedules.MonthlyLatest | crates/app-core/src/schedule.rs:163-174 | a monthly schedule always has a most recent slot: this month's, clamped to the month's last day, or the previous month's across year ends |
| Schedules.MonthlyEarliest | crates/app-core/src/schedule.rs:212-223 | a monthly schedule always has a next slot, clamped likewise |
| Schedules.LastDayIsMonthLength | crates/app-core/src/schedule.rs:117-128 | the last day, computed as the day before the first of the next month, is the Gregorian month length (RFC 3339, section 5.7 and Appendix C) |
| Schedules.WeeklyLatest | crates/app-core/src/schedule.rs:147-162 | whatever slot the backward walk of seven dates returns is the greatest at or before now |
| Schedules.WeeklyEarliest | crates/app-core/src/schedule.rs:196-211 | the forward walk of eight dates always finds the least later slot of a non-empty weekday list |
| Schedules.WeeklyLookBackGap | crates/app-core/src/schedule.rs:147-162 | on a non-empty list the look-back comes up empty if and only if today's weekday is the only one listed and its time is still ahead, and then the slot it misses is the one seven days ago |
| Schedules.WeeklyLookBackWitness | crates/app-core/src/schedule.rs:147-162 | weekly Mon 09:00 on Monday 29 June 2026 at 08:00 has no most recent slot, though 22 June 09:00 is one |
| Schedules.WalkBackComplete | crates/app-core/src/schedule.rs:150-160 | the backward walk passes over no slot inside its window |
| Schedules.WalkForwardComplete | crates/app-core/src/schedule.rs:199-209 | the forward walk passes over no slot inside its window |
| Calendar.DayNumberOrder | crates/app-core/src/schedule.rs:117-132 | day numbers order and identify civil dates as chrono's field order does |
| Calendar.SuccIsNextDay | crates/app-core/src/schedule.rs:117-132 | the next civil date is exactly one day on, across months, years and leap days |
| Calendar.WeekdayFollows | crates/app-core/src/schedule.rs:147-162 | each civil date falls on the weekday after that of the date before, Monday to Sunday |
| Calendar.CalendarAnchor | crates/app-core/src/schedule.rs:366-368 | 18 June 2026 is a Thursday, as the tests have it, and day numbers count from 1 January of year 1 |
| Calendar.MonthLengths | crates/app-core/src/schedule.rs:117-128 | the month lengths, January to December (RFC 3339, section 5.7) |
| Calendar.LeapYears | crates/app-core/src/schedule.rs:117-128 | of every 400 years the leap years are the multiples of four but for three centuries (RFC 3339, Appendix C) |
| Schedules.EarlierIsNumeric | crates/app-core/src/schedule.rs:136-229 | the field-by-field order of instants is the order of time in nanoseconds |
| Schedules.MonthlySlotDay | crates/app-core/src/schedule.rs:163-174 | a monthly slot is on its day, or on the month's last day when the month is shorter |
| Schedules.DatedSlots | crates/app-core/src/schedule.rs:261-297 | the dated next slots of the tests, and weekly Tue 09:00 on Monday 29 June 2026 at ten is next on 30 June |
| ScheduleRuns.MostRecentIff | crates/app-core/src/schedule.rs:136-180 | for every schedule the look-back returns an instant if and only if it is the greatest slot at or before now and the weekly gap is not in the way |
| ScheduleRuns.DueExact | crates/app-core/src/schedule.rs:242-247 | a routine is due if and only if some slot newer than its last fire is at or before now, outside the weekly look-back's gap |
| ScheduleRuns.NextFirePredictsDue | crates/app-core/src/schedule.rs:231-247 | after a fire, later ticks are due exactly from the displayed next-fire time on, outside the gap |
| ScheduleRuns.Routine.Tick | crates/server/src/auto_fire.rs:48-78 | one tick of the loop: a provisioned, enabled and due routine fires and is stamped with the tick; nothing else changes |
| ScheduleRuns.Routine.Run | crates/server/src/auto_fire.rs:36-58 | a whole run of ticks, with the schedule and the flags as each tick finds them, fires and stamps exactly where the run's values say |
| ScheduleRuns.FiresHaveTheirOwnSlots | crates/app-core/src/schedule.rs:237-247 | over any run, the clock set back and the schedule edited or not, between two fires lies a slot of the later one's own: fires inject into slots in order |
| ScheduleRuns.EverySlotFiresAtMostOnce | crates/app-core/src/schedule.rs:237-247 | over any run no slot is fired for twice |
| ScheduleRuns.FiresExactlyUnlessOvertaken | crates/app-core/src/schedule.rs:237-247 | over any run a tick fires for a slot if and only if the slot is newer than the starting stamp, the armed tick sees it as the greatest, and every earlier fire was before it |
| ScheduleRuns.FiresExactlyAtFirstReach | crates/app-core/src/schedule.rs:237-247 | for a slot that no edit brought in, over any clock, slots, clock and flags alone decide: the tick sees the slot and no earlier armed tick outside the gap stood at or past it |
| ScheduleRuns.SlotFiresIff | crates/app-core/src/schedule.rs:237-247 | over any run a slot that no edit brought in is fired for, by one tick only, if and only if some tick is the first to reach it |
| ScheduleRuns.SetBackClockLosesSlot | crates/app-core/src/schedule.rs:237-247 | a run whose clock is set back after a fire sees a new slot and never fires for it |
| ScheduleRuns.EditedScheduleLosesSlot | crates/server/src/routine.rs:240-244 | a run whose schedule is edited to an earlier time after a fire sees today's new slot and never fires for it |
| ScheduleRuns.EverySlotSeenFiresExactlyOnce | crates/app-core/src/schedule.rs:237-247 | a new slot that some armed tick sees, the clock not set back and the schedule not edited before, is fired for by exactly one tick of the whole run |
| ScheduleRuns.OnceFiresAtMostOnce | crates/app-core/src/schedule.rs:176-179 | a one-off schedule fires at most once ever, whatever the clock does and whatever the routine is edited to in between |
| ScheduleText.ParseSchedule | crates/app-core/src/schedule.rs:71-113 | the token-by-token parser returns the schedule the theorems below are about |
| ScheduleText.ParsedIsWellFormed | crates/app-core/src/schedule.rs:68-113 | any string parses to manual or to a schedule with a real clock time, a non-empty day list, a day of 1 to 31, a real date |
| ScheduleText.ScheduleComesFromText | crates/app-core/src/schedule.rs:71-113 | a parsed schedule has its kind from the first token, its clock time from the last one its shape has, and exactly the weekdays named in the comma list, the day of the month or the date from the token between |
| ScheduleText.ShapedTextIsRead | crates/app-core/src/schedule.rs:71-113 | the other way round: every text of one of the four shapes is read as that schedule, whatever follows it |
| ScheduleText.ParseHmIff | crates/app-core/src/schedule.rs:44-53 | a text is a clock time if and only if it is an hour and a minute in range around its first colon |
| ScheduleText.ParseWeekdayIff | crates/app-core/src/schedule.rs:55-66 | a weekday is named by its three-letter label and by nothing else |
| Digits.ParseUnsignedIff | crates/app-core/src/schedule.rs:46-47 | a text is read as a number if and only if it is digits with that value, after an optional plus, within the limit |
| Digits.DigitsAsWritten | crates/api-types/src/site_key.rs:25 | numbers are written in decimal, most significant digit first, without leading zeros |
| Digits.PaddedIs | crates/server/src/decisions.rs:704 | padding adds zeros in front up to the width and no further |
| ScheduleText.ParsedRecurringNeverRunsOut | crates/app-core/src/schedule.rs:231-235 | a string that parses to a recurring schedule always has a next fire, and it is the least later slot |
| ScheduleText.ClockTextParses | crates/app-core/src/schedule.rs:44-53 | every two-digit HH:MM text is read back as that clock time |
| ScheduleText.PickerRoundTrip | crates/ui-core/src/schedule.rs:12-45 | every schedule string the picker builds, from any text typed, is parsed to the schedule its controls and the words of its fields stand for, 09:00 for an empty time; no clock time, no date or an impossible day of the month never fires |
| ScheduleText.ChosenIs | crates/ui-core/src/schedule.rs:31-37 | the picked days are those whose toggle is on, in the order of the toggles |
| ScheduleText.OneWordFieldsRoundTrip | crates/ui-core/src/schedule.rs:12-45 | fields of one word each, as the controls give them, are read back as they stand |
| CloneRules.DropOverlapped | crates/checks/src/clone_rules.rs:234-272 | the greedy pass with its path-keyed map keeps exactly the candidates no earlier one in (widest, coverage, rank) order covers, in input order |
| CloneRules.LookupAgrees | crates/checks/src/clone_rules.rs:243-251 | looking under the candidate's first path finds a kept container if and only if any earlier candidate, kept or dropped, covers it |
| CloneRules.KeptDominator | crates/checks/src/clone_rules.rs:229-251 | a candidate with an earlier dominator has an earlier kept one, by transitivity of covering |
| CloneRules.CoveredTransitive | crates/checks/src/clone_rules.rs:194-207 | covering is transitive |
| CloneRules.CoverWidens | crates/checks/src/clone_rules.rs:194-217 | a container's widest site is at least as long as that of what it covers |
| CloneRules.OrderVisits | crates/checks/src/clone_rules.rs:235-241 | the sorted order visits before each position exactly what precedes it |
| CloneRules.DroppedIsCoveredByKept | crates/checks/src/clone_rules.rs:229-231 | every dropped candidate is covered by a kept one considered before it |
| CloneRules.KeptOverlap | crates/checks/src/clone_rules.rs:229-241 | a kept candidate covered by another has equal widest site, no smaller coverage, and comes first |
| CloneRules.WiderContainerWins | crates/checks/src/clone_rules.rs:231-233 | a strictly wider container always drops what it covers, whatever the ranks |
| CloneRules.LongerStretchWins | crates/checks/src/clone_rules.rs:194-241 | in paths and line numbers: if every site of a candidate lies inside a site of another that has a stretch longer than any of its own, it is dropped at any rank |
| CloneRules.OneMoreSiteWins | crates/checks/src/clone_rules.rs:220-241 | of two equally wide candidates the one with one site more drops the other at any rank |
| CloneRules.FirstRankWins | crates/checks/src/clone_rules.rs:234-251 | of two candidates with the same sites the one ranked first drops the other |
| CloneRules.UncoveredIsKept | crates/checks/src/clone_rules.rs:194-265 | a candidate without sites, or that lies inside no other, is kept |
| CloneRules.CoverageAddsLines | crates/checks/src/clone_rules.rs:220-227 | the coverage adds up the number of lines of the sites, one for a site that ends before it starts |
| CloneRules.RankingDoesNotLosePlaces | crates/checks/src/clone_rules.rs:229-233 | every survivor of one ranking is covered by a survivor of any other ranking of the same candidates |
| CloneRules.SurvivorsAreSubsequence | crates/checks/src/clone_rules.rs:267-271 | the survivors stand at strictly rising positions of the ranked list |
| CloneRules.FilterIsIdempotent | crates/checks/src/clone_rules.rs:234-272 | filtering the survivors again changes nothing |
| CloneRules.RankAndCap | crates/checks/src/clone_rules.rs:274-291 | at most max are kept, each with its position as rank, the rest counted: kept, over the cap and overlapped add up to the ranked list |
| CloneRules.EveryCandidateIsAccountedFor | crates/checks/src/clone_rules.rs:274-291 | survivors and dominated candidates add up to the list |
| Review.ReMark | crates/api-types/src/review.rs:410-449 | marks the rows in place as the line at the recomputed budget says and rewrites the counts in slots; rate, floor and lines stay |
| Review.MarksAreTheLine | crates/api-types/src/review.rs:427-444 | a row is escalated if and only if its slot is among the first budget or some row of the slot may exceed it; the reason is none inside the line and otherwise the first eligible row's |
| Review.SlotsAreMarkedWhole | crates/api-types/src/review.rs:440-443 | all rows of a slot, adjacent or not, carry the same marks |
| Review.SameSlotIff | crates/api-types/src/review.rs:381-390 | rows share a slot if and only if they carry one stored slot number; a row stored without one is alone |
| Review.StoredSlotsAreMarkedWhole | crates/api-types/src/review.rs:440-443 | rows with one stored slot number carry the same marks |
| Review.SlotsAreStoredNumbers | crates/api-types/src/review.rs:393-402 | there are as many slots as distinct stored numbers and rows without one |
| Review.RankCountsEarlierSlots | crates/api-types/src/review.rs:416-426 | the place of a slot is the number of distinct slots seen before its first row |
| Review.SameSlotSameRank | crates/api-types/src/review.rs:416-426 | two rows have one first-appearance rank if and only if they share a slot |
| Review.GroupRows | crates/api-types/src/review.rs:416-426 | the grouping pass puts every row in its slot, slots in order of first appearance, rows in order |
| Review.CountSlots | crates/api-types/src/review.rs:393-402 | counts the slots, and those with an escalated row |
| Review.RecountAgrees | crates/api-types/src/review.rs:393-449 | recounting the marked rows gives the counts the marking wrote |
| Review.QueueIsLinePlusOver | crates/api-types/src/review.rs:445-448 | the escalated slots are the smaller of budget and slots plus those over budget |
| Review.MarksForgetTheOldLine | crates/api-types/src/review.rs:404-449 | the marks depend on no earlier mark |
| Review.MovingTheLineBackRestoresIt | crates/api-types/src/review.rs:404-449 | moving the line away and back restores the marks, and marking twice is marking once |
| Review.RaisingTheLineKeepsRows | crates/api-types/src/review.rs:292-449 | raising floor, rate or lines, or allowing more reasons, takes no row out of the queue |
| Review.BudgetIsExactCeiling | crates/api-types/src/review.rs:288-304 | the budget is the least number no less than the floor and no less than lines times the milli-rate over a million |
| Review.BudgetMonotone | crates/api-types/src/review.rs:292-304 | the budget grows with rate, floor and lines |
| Review.EscalationBudget.Compute | crates/api-types/src/review.rs:292-304 | a fresh budget has the computed line and no escalations placed |
| Review.OrderingSeverityIsHigher | crates/api-types/src/review.rs:361-369 | the ordering severity is the higher of the two, the row's own on a tie |
| Review.EligibleByWeight | crates/api-types/src/review.rs:120-169 | a row may exceed the budget if and only if its evidence is unverified, or its reason is allowed and its higher severity is critical, or high for the five severe reasons |
| Review.SeverityTable | crates/api-types/src/review.rs:351-359 | the weights 3, 2 and 1 are those of critical, high and medium in any casing |
| Review.EqIgnoreCaseIs | crates/api-types/src/review.rs:162-169 | severities are compared character by character, ASCII letters in any casing |
| Review.RateIsRounded | crates/api-types/src/review.rs:293 | the milli-rate is the whole number nearest to a thousand times the rate, a half upwards, and zero for a negative rate |
| Review.BudgetWitness | crates/api-types/src/review.rs:288-294 | 0.3 per thousand of 10,000 lines is 3, of one line more 4, and a floor of 5 holds |
| SiteKeys.AssignOrdinals | crates/api-types/src/site_key.rs:47-64 | each row's ordinal is the number of rows of its group before it by line, advisory, arrival |
| SiteKeys.AllSiteKeys | crates/api-types/src/site_key.rs:67-73 | the keys, in the order of the rows |
| SiteKeys.OrdinalsFollowLines | crates/api-types/src/site_key.rs:44-62 | inside a group ordinals follow the lines, then the advisories in dictionary order, then arrival |
| SiteKeys.LoneRowKey | crates/api-types/src/site_key.rs:23-46 | a row alone in its group has ordinal 0, and its key is repo, path, fingerprint and 0 with NUL between |
| SiteKeys.RulesNumberApart | crates/api-types/src/site_key.rs:47-64 | two rules on one line, their ids one byte apart, do not number each other |
| SiteKeys.PlaceIsOrdinal | crates/api-types/src/site_key.rs:56-62 | the row at place k of its stably sorted group has ordinal k |
| SiteKeys.OrdinalsCoverGroup | crates/api-types/src/site_key.rs:44-46 | ordinals inside a group are below its size and all different |
| SiteKeys.EveryOrdinalIsTaken | crates/api-types/src/site_key.rs:44-46 | every number below a group's size is some row's ordinal |
| SiteKeys.SiteKeyInjective | crates/api-types/src/site_key.rs:23-28 | without NUL in repo and path a key gives back repo, path, fingerprint and ordinal |
| SiteKeys.KeysAreDistinct | crates/api-types/src/site_key.rs:21-73 | all keys of a run are different when no repo or path has a NUL, fingerprint collisions included |
| SiteKeys.ReorderingKeepsTheKeys | crates/api-types/src/site_key.rs:14-17 | the same rows in any order get the same multiset of keys |
| SiteKeys.RowKeepsItsKeyIff | crates/api-types/src/site_key.rs:12-17 | a row keeps its own key in every order of the same rows if and only if no other row of its group has both its line and its advisory |
| SiteKeys.ReorderingKeepsEachKey | crates/api-types/src/site_key.rs:12-17 | a row that ties with no other keeps its key in any order, whatever ties the other rows have |
| SiteKeys.TiedRowsSwapKeys | crates/api-types/src/site_key.rs:12-17 | two tied rows that change places change keys |
| SiteKeys.LayoutTieWitness | crates/api-types/src/site_key.rs:12-17 | two rows on one line whose snippets differ in layout only change keys when the order changes |
| SiteKeys.MovingLinesKeepsKeys | crates/api-types/src/site_key.rs:4-8 | moving lines without reordering a group changes no key |
| Fingerprints.Fnv1a | crates/api-types/src/fingerprint.rs:19-26 | the hashing loop computes the FNV-1a fold |
| Fingerprints.StepInjective | crates/api-types/src/fingerprint.rs:22-24 | one step modulo 2^64 is injective in the state and in the byte |
| Fingerprints.MulPrimeUndone | crates/api-types/src/fingerprint.rs:24 | multiplying by the prime is undone by its inverse modulo 2^64 |
| Fingerprints.OneByteNeverCollides | crates/api-types/src/fingerprint.rs:19-26 | two inputs that differ in exactly one byte never collide |
| Fingerprints.PublishedVectors | crates/api-types/src/fingerprint.rs:42-45 | the published values for the empty input and for a |
| Fingerprints.Hex16Injective | crates/api-types/src/fingerprint.rs:33 | the sixteen digits determine the hash |
| Fingerprints.RelayoutKeepsFingerprint | crates/api-types/src/fingerprint.rs:28-34 | laying the same words out with any other whitespace keeps the fingerprint |
| Fingerprints.OneByteEditChangesFingerprint | crates/api-types/src/fingerprint.rs:28-34 | replacing one byte of the collapsed snippet always changes the fingerprint |
| Fingerprints.OneCharacterEditChangesFingerprint | crates/api-types/src/fingerprint.rs:28-34 | so does replacing one ASCII character |
| Fingerprints.OneByteRuleEditChangesFingerprint | crates/api-types/src/fingerprint.rs:28-34 | two rules whose ids differ in one byte give one snippet different fingerprints |
| Fingerprints.PinnedFingerprint | crates/api-types/src/fingerprint.rs:50-62 | the committed value of rule R on fn foo () {}, in both layouts of the tests |
| Fingerprints.BarIsNotEscaped | crates/api-types/src/fingerprint.rs:33 | the bar between rule and snippet is not escaped: rule a|b on c has the fingerprint of rule a on b|c |
| Fingerprints.HexVector | crates/api-types/src/fingerprint.rs:33 | the sixteen digits from the most significant on, in small letters |
| Text.Utf8Decodes | crates/api-types/src/fingerprint.rs:21 | a character is read back from its bytes (RFC 3629, section 3) |
| Text.WhitespaceTable | crates/api-types/src/fingerprint.rs:32 | the 25 characters that count as white space |
| Text.LowerCharIs | crates/api-types/src/review.rs:353 | ASCII capitals go to their small letters and nothing else changes |
| Decisions.LiveByKey | crates/api-types/src/decisions.rs:127-154 | the live records of every key, oldest first |
| Decisions.LiveIs | crates/api-types/src/decisions.rs:123-154 | a record is live for its key if and only if it is neither revoked nor a group record and, when inherited, the last live group record of that id lists the key |
| Decisions.LiveInOrder | crates/api-types/src/decisions.rs:123-154 | the live records of a key stand in the order of the log |
| Decisions.LiveKeysHaveRecords | crates/api-types/src/decisions.rs:127-154 | a key has live records exactly when some live record carries it |
| Decisions.ViewsFollowLiveRecords | crates/api-types/src/decisions.rs:156-199 | logs with the same live records have the same four views |
| Decisions.ViewsPartitionLiveKeys | crates/api-types/src/decisions.rs:156-199 | the live keys are the disjoint union of the effective and the restored undecided ones, the latter within the restored |
| Decisions.RevokingTheRecordIsDeletingTheGroup | crates/api-types/src/decisions.rs:124-151 | with unique ids, revoking only a group record leaves the live records that deleting it and all it wrote would leave |
| Decisions.RevokingTheGroupIsDeletingIt | crates/server/src/decisions.rs:413-440 | so does revoking it with every record it wrote |
| Decisions.WriteThenRevoke | crates/server/src/decisions.rs:413-440 | records written under a fresh id and then revoked leave all views as they were |
| Decisions.FreshSiteRecordChangesOneKey | crates/api-types/src/decisions.rs:156-199 | a fresh ruling or restore changes the views at its key only, and says how |
| Decisions.LiveAfterAppend | crates/api-types/src/decisions.rs:127-154 | a live record stays live over an append if and only if the new record is no live group record that reuses the id it inherits from and drops its key |
| Decisions.RestoredAfterAppend | crates/api-types/src/decisions.rs:186-199 | a restored key stays restored over an append if and only if some live restore of it is not overridden by the new record |
| Decisions.AppendKeepsRestoredIff | crates/api-types/src/decisions.rs:186-199 | an append removes no restored key if and only if every restored key has a live restore the new record does not override |
| Decisions.AppendKeepsRestored | crates/api-types/src/decisions.rs:186-199 | in particular no append that keeps group ids apart removes a restored key |
| Decisions.ReusedGroupIdLosesRestore | crates/api-types/src/decisions.rs:127-154 | a log where reusing a group id removes one |
| DecisionStore.NextIdIsFresh | crates/server/src/decisions.rs:701-712 | in every log that recording, revoking and migrating top-level records reach, the next id belongs to no record and to no parent |
| DecisionStore.Store.RecordSite | crates/server/src/decisions.rs:263-322 | recording on one site: the refusals, or one record appended with every column trimmed or defaulted; the numbering is kept |
| DecisionStore.Store.RecordNode | crates/server/src/decisions.rs:329-411 | recording on a group: the three refusals, or the group record and one per covered member; the numbering is kept |
| DecisionStore.GroupCovers | crates/server/src/decisions.rs:349-360 | a group decision covers exactly the members not excepted and leaves out exactly the others |
| DecisionStore.GroupDecisionChangesViews | crates/server/src/decisions.rs:329-411 | a recorded group decision is the latest record of each key it covers, with its state and trimmed reason, and every other key keeps its live records |
| DecisionStore.SiteDecisionChangesViews | crates/server/src/decisions.rs:263-322 | a recorded site decision is the latest record of its key, and every other key keeps its live records |
| DecisionStore.SiteColumns | crates/server/src/decisions.rs:305-319 | blank author, run and time take the server's values, the others are trimmed; a time must be one |
| DecisionStore.OtherColumns | crates/server/src/decisions.rs:295-408 | the other columns of the site record, the group record and its member records |
| DecisionStore.SiteRefusals | crates/server/src/decisions.rs:269-294 | a site decision is refused for a blank key, a merge into nothing or itself, or a missing reason where one is needed |
| DecisionStore.NodeRefusals | crates/server/src/decisions.rs:337-364 | a group decision is refused for a merge, for a missing reason, and when every member is excepted |
| DecisionStore.RevokeRefusals | crates/server/src/decisions.rs:419-426 | a revocation is refused if and only if no record has the id or the record that has it is revoked |
| DecisionStore.FirstIds | crates/server/src/decisions.rs:391-408 | the first ids are dec-000001 and dec-000001.00000 |
| DecisionStore.Store.RecordMigration | crates/server/src/decisions.rs:523-543 | a migration runs once and appends the records under new ids; the numbering is kept, and no id will be handed out again, if and only if none of them has a parent |
| DecisionStore.MigrationReusesIdIff | crates/server/src/decisions.rs:701-712 | after a migration some id is handed out again if and only if a migrated record has a parent |
| DecisionStore.MemberRevokedAlone | crates/server/src/decisions.rs:413-440 | revoking one member's record changes no other record, the group decision included, and takes only that record out of the live ones |
| DecisionStore.InheritedMigrationReusesId | crates/server/src/decisions.rs:534-540 | a migrated record with a parent is not counted, and its id is handed out again |
| DecisionStore.Store.Revoke | crates/server/src/decisions.rs:417-440 | revoking: not found, already revoked, or every active record of the group stamped and returned; the numbering is kept |
| DecisionStore.GroupDecisionIsUndone | crates/server/src/decisions.rs:329-440 | on any log the store keeps, a recorded group decision can be revoked by its id, exactly the records it wrote are stamped, and all views are as they were |
| DecisionStore.SiteDecisionIsUndone | crates/server/src/decisions.rs:263-440 | the same for a decision on one site: revoking it brings the previous one back in every view |
| DecisionStore.RecordingNeverLosesRestore | crates/api-types/src/decisions.rs:186-199 | nothing the store records or migrates without a parent takes a key out of the restored set |
| ReviewerInjection.NormalizeMonotone | crates/checks/src/ai_reviewer_injection_checker.rs:161-166 | for lower-casing character by character, the normal form of a contiguous slice is contained in the normal form of the whole |
| ReviewerInjection.NormalizeIdempotent | crates/checks/src/ai_reviewer_injection_checker.rs:161-166 | normalising is idempotent |
| ReviewerInjection.AudienceIsWholeWord | crates/checks/src/ai_reviewer_injection_checker.rs:169-173 | an audience word counts exactly when it stands between non-alphanumeric characters or the ends |
| ReviewerInjection.PhraseInIff | crates/checks/src/ai_reviewer_injection_checker.rs:177-190 | a text is reported if and only if it holds a reviewer phrase, or a qualified phrase and an audience word |
| ReviewerInjection.FoundIsFirst | crates/checks/src/ai_reviewer_injection_checker.rs:177-190 | the phrase reported is the first of the list that the text holds |
| ReviewerInjection.ScanInOrder | crates/checks/src/ai_reviewer_injection_checker.rs:206-212 | each line that holds a phrase is reported once, with its number and phrase, in the order of the lines |
| ReviewerInjection.NormalizeOfLayout | crates/checks/src/ai_reviewer_injection_checker.rs:161-166 | however its words are laid out, a text's normal form is the lower-cased words with single spaces between |
| ReviewerInjection.SliceIsNeverHidden | crates/checks/src/ai_reviewer_injection_checker.rs:192-212 | a phrase inside one contiguous slice is always seen by the check on the whole file |
| ReviewerInjection.FilterIsExact | crates/checks/src/ai_reviewer_injection_checker.rs:204-212 | the filtered scan is the unfiltered one if and only if the file may hold a phrase or no line of several segments holds one |
| ReviewerInjection.HiddenPhraseCrossesSegments | crates/checks/src/ai_reviewer_injection_checker.rs:192-212 | a phrase that the check on the file hides is in the line's joined text and in none of its segments, and holds a space |
| ReviewerInjection.SpacelessIsNeverHidden | crates/checks/src/ai_reviewer_injection_checker.rs:192-212 | a phrase without a space, such as a chat delimiter, is never hidden |
| ReviewerInjection.LexicalSegmentsAreSlices | crates/checks/src/ai_reviewer_injection_checker.rs:245-263 | every segment the lexical fallback reads is one slice of the file |
| ReviewerInjection.FileLinesAre | crates/checks/src/ai_reviewer_injection_checker.rs:246-247 | the lines of a file whatever their terminators; what follows the last terminator is a line if it is not empty |
| ReviewerInjection.LineSegmentsAre | crates/checks/src/ai_reviewer_injection_checker.rs:249-259 | of a line that starts with one of the five comment markers all is read, of any other the quoted segments |
| ReviewerInjection.QuotedIsEverySecond | crates/checks/src/ai_reviewer_injection_checker.rs:258 | the quoted segments are the second piece, the fourth, and so on |
| ReviewerInjection.NumberedLinesAre | crates/checks/src/ai_reviewer_injection_checker.rs:248-260 | a line is listed, under its own number from 1, if and only if it has a segment |
| ReviewerInjection.LexicalFilterIsExact | crates/checks/src/ai_reviewer_injection_checker.rs:204-263 | the same equivalence on the fallback's own lines, with no hypothesis |
| ReviewerInjection.SplitPhraseWitness | crates/checks/src/ai_reviewer_injection_checker.rs:257-260 | a phrase split over two quoted segments is seen on the line and hidden by the check on the file |
| Projects.InheritBaselines | crates/app-core/src/project.rs:182-196 | every selection of the list ends, in place, with the baseline the rules below give it |
| Projects.InheritKeepsTheDecision | crates/app-core/src/project.rs:164-178 | inheriting changes no rule, option or placement, and no own baseline |
| Projects.BaselinedIff | crates/app-core/src/project.rs:182-196 | a selection ends baselined if and only if it was, or the old list holds a baseline of the same rule and option |
| Projects.BaselineComesFrom | crates/app-core/src/project.rs:182-196 | the baseline is that of the first equal-repos entry when it qualifies, otherwise of the first qualifying entry |
| Projects.SamePlacementWinsIff | crates/app-core/src/project.rs:179-189 | the qualifying entry with the same repos wins if and only if the first equal-repos entry of any rule qualifies or the first qualifying entry has those repos |
| Projects.OtherRuleHidesPlacement | crates/app-core/src/project.rs:184-189 | another rule on the same repos makes a rule take its other placement's baseline |
| Projects.ResavesNeverLoseBaseline | crates/app-core/src/project.rs:626-635 | no run of saves that keep a decision in the list loses its baseline |
| Projects.BareResavesInventNothing | crates/app-core/src/project.rs:626-635 | every baseline after a run of bare saves stood at the start, for the same decision |
| Projects.Project.UpsertBaseRules | crates/app-core/src/project.rs:636-649 | the three lists are replaced by their inherited forms; custom rules stay |
| Projects.Project.MergeCustom | crates/app-core/src/project.rs:656-664 | the merge loop puts each incoming rule by name |
| Projects.MergedMeaning | crates/app-core/src/project.rs:651-664 | after a merge a name stands for the last incoming rule of that name, or for what it stood for |
| Projects.MergeKeepsPlaces | crates/app-core/src/project.rs:651-664 | a merge drops and moves no rule, and changes only the first of an incoming name |
| Projects.MergeAddsNewNames | crates/app-core/src/project.rs:651-664 | the rules a merge adds have new names, once each |
| Projects.MergeIsIdempotent | crates/app-core/src/project.rs:651-664 | merging again changes nothing |
| Projects.NextMemoryIdInUseIff | crates/app-core/src/project.rs:720-730 | the next memory id is some entry's id if and only if the largest possible number is in use and so is mem-0, to which the addition wraps |
| Projects.NextIsOneMore | crates/app-core/src/project.rs:720-730 | short of the last number the next id is one above the largest in use |
| Projects.LargestIsAttained | crates/app-core/src/project.rs:722-728 | the largest number is some entry's, unless no entry has one |
| Projects.FirstMemoryId | crates/app-core/src/project.rs:720-730 | the first id is mem-1 |
| Projects.NextMemoryIdWitness | crates/app-core/src/project.rs:720-730 | an entry with the largest number beside mem-0 makes the next id mem-0 |
| Names.BranchNameIff | crates/api-types/src/uow.rs:228-274 | a branch name is accepted if and only if its length and ends are right and every segment between slashes is non-empty, starts with no dot, ends in no .lock and holds no refused pair or character |
| Names.BranchVerdictIs | crates/api-types/src/uow.rs:228-274 | the reason given is the first of the nine defects, in the order they are looked for, that the name has |
| Names.BadChars | crates/api-types/src/uow.rs:255-260 | the refused characters: seven signs, control characters and white space |
| Names.EmptyPieces | crates/api-types/src/uow.rs:244-246 | the three whole-string slash checks find exactly the names with an empty segment |
| Names.PairInPiece | crates/api-types/src/uow.rs:250-255 | a pair of characters without the separator is in the whole exactly when it is in some segment |
| Names.BranchStaysBelowRoot | crates/api-types/src/uow.rs:217-227 | resolving an accepted branch name only ever pushes, and ends strictly below any root |
| Names.WorktreeIsOneComponent | crates/server/src/workspace.rs:1122-1153 | the flattened directory name of an accepted branch is one plain path component |
| Names.SlugsGetTheirOwnDirectories | crates/server/src/workspace.rs:1118-1135 | slug-like names, with no underscore next to another or to a slash, share a directory only when they are equal |
| Names.OwnDirectoryIff | crates/server/src/workspace.rs:1118-1148 | an accepted name shares its directory with another accepted name if and only if it holds a character shown as a dash, a slash, or two underscores that a slash may stand for; only a name with a slash must be short of the length limit |
| Names.SharedIsAmbiguous | crates/server/src/workspace.rs:1118-1148 | one half of it for names of every length: a name whose directory another accepted name has is ambiguous in that way |
| Names.SharedDirectoryWitness | crates/server/src/workspace.rs:1118-1148 | a/b and a__b are both accepted and have one directory, a__b |
| Names.EmptyBranchDirectory | crates/server/src/workspace.rs:1131-1133 | an empty name would get the directory uow |
| Names.RepoNameIff | crates/api-types/src/uow.rs:287-316 | a repository name is accepted if and only if it is two plain segments of the allowed characters, short enough |
| Names.RepoVerdictIs | crates/api-types/src/uow.rs:287-316 | the reason given is the length, the number of segments, or what is wrong with the first refused segment |
| Names.RepoChars | crates/api-types/src/uow.rs:306-313 | the characters of a repository name |
| Names.RepoIsTwoLevelsDown | crates/api-types/src/uow.rs:276-286 | an accepted repository name resolves exactly two levels below any root |

## Left out

- Machine limits: chrono's range of years, `u32`, `usize` and `u128` overflow; numbers are unbounded except in the 64-bit hash, in memory ids and where a parser refuses a number that is too large.
- Floating point: the escalation rate is a real number; the product of an `f32` by 1000 is exact in the `f64` the code uses, so rounding happens only where the code rounds, half up. NaN and infinite rates are not part of the model.
- chrono's parser of `YYYY-MM-DD` is a parameter of `Parse`; theorems hold for any such parser that returns real dates.
- Unicode tables: lower case and alphanumeric classes are parameters of the phrase match. `str::to_lowercase` treats a word-final sigma by its context, which a per-character table cannot; no phrase holds one. White space and control characters are the Unicode sets.
- Sorting: `sort_by` and `sort_by_key` on index vectors are a stable insertion sort; only its order and stability are used.
- Hash maps: iteration order is arbitrary in the model, as it is in the program.
- ScheduleRuns.EverySlotSeenFiresExactlyOnce: is the case of a clock not set back and a schedule not edited before the slot is seen; `FiresExactlyUnlessOvertaken` is the exact statement for every run. Both count the slots that are the most recent one at some tick; a slot that passed between two ticks unseen is dropped by design, as the code catches up one missed slot only.
- Decisions.AppendKeepsRestored: is a sufficient condition; `AppendKeepsRestoredIff` is the exact one, and `RecordingNeverLosesRestore` shows the store always meets it.
- Projects.NextMemoryIdInUseIff: speaks of a build without overflow checks, where the addition wraps; with them the last number stops the program instead.
- Names.OwnDirectoryIff: for a name with a slash that is exactly at the length limit only one half is stated (`SharedIsAmbiguous`), as writing two underscores for the slash would be too long. Which pairs of names meet is not classified beyond `SlugsGetTheirOwnDirectories`.
- The clone detector, the per-rule rankings and the module roll-up: the ranked list is any list of candidates.
- The syntax highlighter: the lines and segments it yields are any lines whose segments are slices of the file.
- Persistence, locking and file formats of the stores; the request and response shapes; the client acknowledgement and the needed-me flag, which touch no column a view reads.
- The texts of error messages and of the reported violation; verdicts carry the reason only.
- Subprocesses, prompts, model calls, the lifecycle and readiness tables: plumbing and small tables that would only add easy members.
