# Interview Scheduler: a verified model of the scheduling core

This project models the part of the Interview Scheduler back end that picks interview times, plus the small helpers around it. It is written in Dafny.

- `MergeTimeSlots` normalizes one participant's availability. It sorts the windows by start and merges any that overlap or touch.
- `FindMatchingSlots` takes the availability of a candidate and an interviewer and looks at every pair of windows. A pair whose overlap is long enough proposes the earliest window of the required length. Proposals that repeat a start time are dropped, the first one being kept. Each proposal gets a heuristic score from 0 to 100, and the three best come back in order of score, ties kept in discovery order.

The companion helpers are also modelled:

- the time predicates and the `validateTimeSlot` guard chain of the back end's time utilities;
- the reasonableness pass over slots returned by the language-model parser, and the all-or-nothing check on the parsed slot list;
- the file name, the date arrays and the event record of a calendar invite;
- the `datetime-local` formatting and duration rounding of the front end.

Modules:

| module | file | models |
|---|---|---|
| `Wrappers` | `wrappers.dfy` | `Option` and `Result` |
| `TimeUtils` | `time_utils.dfy` | `backend/src/utils/timeUtils.js` |
| `StableSort` | `stable_sort.dfy` | `Array.prototype.sort`, which is stable, as a stable insertion sort by an integer key |
| `MatchingAlgorithm` | `matching_algorithm.dfy` | `backend/src/services/matchingAlgorithm.js` |
| `AiParser` | `ai_parser.dfy` | `backend/src/services/aiParser.js` |
| `CalendarService` | `calendar_service.dfy` | `backend/src/services/calendarService.js` |
| `FrontendUtils` | `frontend_utils.dfy` | `frontend/lib/utils.ts` |

**Representation.**

- A `Date` is its `getTime()` value, an integer count of milliseconds.
- Durations are in milliseconds. A required duration in minutes becomes `minutes * 60000`.
- `Math.round(p / q)` for a positive `q` is computed exactly as `(2p + q) / (2q)` in floor division. It rounds halves up, as `Math.round` does.
- The local weekday and hour (`getDay`, `getHours`) depend on the time zone. They are a `LocalClock`, a pair of functions into `0..6` and `0..23`, passed in by the caller.
- The local calendar fields of a date are likewise a `localDateOf` view passed in.
- The wall clock (`new Date()`) becomes a `now` parameter. The six-months-ahead horizon of the parser becomes a `maxFutureDate` parameter.

**Imperative parts.** These are methods with loops or step-by-step updates, as in the source. Each one is proved equal to a pure specification function, and the properties are proved about that function:

- the nested pair loops of `findMatchingSlots`;
- the step-by-step score of `calculateSlotScore`;
- the merge loop of `mergeTimeSlots`;
- the issue loop of `validateParsedSlots`;
- the `+=` construction of the invite description.

A proposal ends `requiredMs = requiredDuration * 60 * 1000` milliseconds after `overlapStart` (`backend/src/services/matchingAlgorithm.js`, lines 15 and 30), and so does each slot of the model.

## Model

| member | source | states |
|---|---|---|
| `TimeUtils.IsPast` | backend/src/utils/timeUtils.js:10-12 | the date is strictly before `now`; `AcceptedSlotIsReasonable` shows an accepted slot is not in the past |
| `TimeUtils.IsBusinessHours` | backend/src/utils/timeUtils.js:19-22 | the local hour is in 9..17; `ScoringAgreesWithCalendarPredicates` relates it to the scorer's hour table |
| `TimeUtils.IsWeekday` | backend/src/utils/timeUtils.js:29-32 | the local day is Monday..Friday; `WeekdayIsNotWeekend` states it is exactly "not Sunday or Saturday" |
| `TimeUtils.SlotsOverlap` | backend/src/utils/timeUtils.js:60-62 | strict overlap; `OverlapIsNonEmptyIntersection` and `PairTestIsSlotsOverlap` state its meaning |
| `TimeUtils.RoundQuotient` | backend/src/utils/timeUtils.js:51 | the result is the nearest integer to p/q, halves rounded up: 2rq <= 2p+q < 2rq+2q |
| `TimeUtils.WeekdayIsNotWeekend` | backend/src/utils/timeUtils.js:29-32 | `isWeekday` holds exactly when the local day is neither Sunday (0) nor Saturday (6) |
| `TimeUtils.AddMinutes` | backend/src/utils/timeUtils.js:40-42 | the result lies exactly `minutes * 60000` ms after the date |
| `TimeUtils.GetDurationMinutes` | backend/src/utils/timeUtils.js:50-52 | the result is the duration rounded to whole minutes: within half a minute of end - start, halves rounded up |
| `TimeUtils.DurationOfAddMinutes` | backend/src/utils/timeUtils.js:40-52 | measuring the duration after adding m whole minutes gives m back |
| `TimeUtils.OverlapIsNonEmptyIntersection` | backend/src/utils/timeUtils.js:60-62 | overlap is symmetric; max(starts) < min(ends) implies overlap; for well-formed slots overlap implies max(starts) < min(ends), so touching slots do not overlap |
| `TimeUtils.RoundToInterval` | backend/src/utils/timeUtils.js:70-73 | a zero interval gives no valid date; otherwise the result is a multiple of the interval in ms and at most half an interval from the date, with the bounds mirrored for a negative interval |
| `TimeUtils.ValidateTimeSlot` | backend/src/utils/timeUtils.js:81-108 | "not a Date" exactly when either argument is not a Date; "invalid values" exactly when both are Dates and one is NaN; accepted exactly when both are valid, start >= now and 870000 <= end - start < 28830000 |
| `TimeUtils.ValidateTimeSlotOrder` | backend/src/utils/timeUtils.js:90-105 | each later error is returned exactly when every earlier check passed and its own check fails |
| `TimeUtils.AcceptedSlotIsReasonable` | backend/src/utils/timeUtils.js:90-107 | an accepted slot ends after it starts, does not start before now, and rounds to 15..480 minutes |
| `TimeUtils.FourteenAndAHalfMinutesPasses` | backend/src/utils/timeUtils.js:98-101 | because of rounding, a 14.5-minute slot starting at or after now is accepted |
| `StableSort.SortBy` | backend/src/services/matchingAlgorithm.js:56 | the comparator sort; `SortByFacts` states it is ordered, a permutation and stable |
| `StableSort.SortSorted` | backend/src/services/matchingAlgorithm.js:56 | the sorted sequence is ordered by its key |
| `StableSort.SortPermutes` | backend/src/services/matchingAlgorithm.js:56 | the sorted sequence is a permutation of the input |
| `StableSort.SortStable` | backend/src/services/matchingAlgorithm.js:56 | for every key value, the elements with that key keep their input order |
| `StableSort.SortByFacts` | backend/src/services/matchingAlgorithm.js:56 | sorted, a permutation, same length, and stable |
| `StableSort.SortSortedIsIdentity` | backend/src/services/matchingAlgorithm.js:148 | sorting a sequence that is already ordered leaves it unchanged |
| `StableSort.SortDistinct` | backend/src/services/matchingAlgorithm.js:56 | sorting keeps a field that was pairwise distinct pairwise distinct |
| `StableSort.SortedTail` | backend/src/services/matchingAlgorithm.js:56 | the tail of an ordered sequence is ordered and no element is below the first |
| `StableSort.SortLength` | backend/src/services/matchingAlgorithm.js:56 | sorting keeps the length |
| `StableSort.InsertMembers` | backend/src/services/matchingAlgorithm.js:56 | every element after one insertion step is the inserted element or one of the old ones |
| `MatchingAlgorithm.PairMatch` | backend/src/services/matchingAlgorithm.js:20-37 | one pair's proposal; `PairMatchCases` states when there is one and what it holds |
| `MatchingAlgorithm.AllMatches` | backend/src/services/matchingAlgorithm.js:14-40 | the proposals in loop order; `AllMatchesSound` and `AllMatchesComplete` state that they are exactly the pair proposals |
| `MatchingAlgorithm.PairMatchCases` | backend/src/services/matchingAlgorithm.js:20-37 | a pair proposes at most one slot, exactly when its overlap is positive and at least the required length; the slot starts at max(starts), lasts exactly the required length and records the whole overlap |
| `MatchingAlgorithm.NoMatchWhenTouchingOrShort` | backend/src/services/matchingAlgorithm.js:24-28 | an overlap that only touches, or is shorter than required, proposes nothing |
| `MatchingAlgorithm.PairTestIsSlotsOverlap` | backend/src/services/matchingAlgorithm.js:20-24 | for well-formed slots, a proposal implies `slotsOverlap`; with no minimum length the pair test is exactly `slotsOverlap` |
| `MatchingAlgorithm.RowMatchesSound` | backend/src/services/matchingAlgorithm.js:19-39 | every proposal of one candidate row comes from that candidate slot and some interviewer slot |
| `MatchingAlgorithm.AllMatchesSound` | backend/src/services/matchingAlgorithm.js:18-40 | every proposal of the nested loops comes from some (candidate, interviewer) pair |
| `MatchingAlgorithm.RowMatchesComplete` | backend/src/services/matchingAlgorithm.js:19-39 | every pair proposal of a row is collected |
| `MatchingAlgorithm.AllMatchesComplete` | backend/src/services/matchingAlgorithm.js:18-40 | every pair proposal of the two lists is collected |
| `MatchingAlgorithm.RowMatchesOfNoInterviewer` | backend/src/services/matchingAlgorithm.js:18-40 | with no interviewer slots there are no proposals |
| `MatchingAlgorithm.SomeSlotCovers` | backend/src/services/matchingAlgorithm.js:130-134 | true exactly when some slot starts at or before the proposed start and ends at or after the proposed end |
| `MatchingAlgorithm.IsSlotAvailable` | backend/src/services/matchingAlgorithm.js:129-137 | true exactly when a candidate slot and an interviewer slot both contain the proposal |
| `MatchingAlgorithm.ProposalIsAvailable` | backend/src/services/matchingAlgorithm.js:20-36 | a proposal lies inside both source slots, so `isSlotAvailable` holds of it on the same inputs |
| `MatchingAlgorithm.FindIndexByStart` | backend/src/services/matchingAlgorithm.js:45 | the first index with the given start, or -1 when there is none |
| `MatchingAlgorithm.KeepFirstStartsAreFirst` | backend/src/services/matchingAlgorithm.js:43-46 | every kept proposal is the first one in the list with its start |
| `MatchingAlgorithm.KeepFirstStartsInPrefix` | backend/src/services/matchingAlgorithm.js:43-46 | every kept proposal comes from the scanned prefix |
| `MatchingAlgorithm.KeepFirstStartsAtFirstIndex` | backend/src/services/matchingAlgorithm.js:43-46 | every kept proposal is the one at the first index with its start |
| `MatchingAlgorithm.FirstOfItsStartIsNew` | backend/src/services/matchingAlgorithm.js:45 | a proposal found first at its own index has a start no earlier kept proposal has |
| `MatchingAlgorithm.KeepFirstStartsDistinct` | backend/src/services/matchingAlgorithm.js:43-46 | kept proposals have pairwise distinct starts |
| `MatchingAlgorithm.KeepFirstStartsComplete` | backend/src/services/matchingAlgorithm.js:43-46 | every start time of the scanned prefix is kept |
| `MatchingAlgorithm.UniqueByStart` | backend/src/services/matchingAlgorithm.js:43-46 | the `findIndex` filter; `UniqueByStartFacts` states it keeps exactly the first proposal per start |
| `MatchingAlgorithm.UniqueByStartFacts` | backend/src/services/matchingAlgorithm.js:43-46 | one proposal per start time, the first in loop order, and no start time lost |
| `MatchingAlgorithm.Clamp` | backend/src/services/matchingAlgorithm.js:118 | the result is in 0..100; unchanged inside the range, 0 below it, 100 above it |
| `MatchingAlgorithm.SlotScore` | backend/src/services/matchingAlgorithm.js:67-118 | the clamped sum of base, weekday, hour, lead-time and buffer terms lies in 0..100 |
| `MatchingAlgorithm.CalculateSlotScore` | backend/src/services/matchingAlgorithm.js:67-118 | the step-by-step score equals the table-driven `SlotScore`, and lies in 0..100 |
| `MatchingAlgorithm.HourAdjustmentByBand` | backend/src/services/matchingAlgorithm.js:80-102 | the 24-entry hour table is the band rule (+20 / +10 / -15), plus 10 for 10..13, minus 10 before 8, minus 5 from 18 |
| `MatchingAlgorithm.ScoreOfPrimeSlot` | backend/src/services/matchingAlgorithm.js:67-118 | a weekday slot at hour 10, within 14 days, with more than 90 minutes of overlap sums to 115 and scores 100 |
| `MatchingAlgorithm.ScoreOfEarlySlot` | backend/src/services/matchingAlgorithm.js:67-118 | a weekday slot at hour 7 scores 50 + 20 - 15 - 10 plus the lead-time and buffer terms |
| `MatchingAlgorithm.ScoringAgreesWithCalendarPredicates` | backend/src/services/matchingAlgorithm.js:73-87 | the weekday bonus is positive exactly on `isWeekday` days; business hours never get less than +10 from the hour table, other hours never more |
| `MatchingAlgorithm.ScoreAll` | backend/src/services/matchingAlgorithm.js:49-52 | one scored entry for each proposal |
| `MatchingAlgorithm.RankedIsStableSort` | backend/src/services/matchingAlgorithm.js:55-56 | ranked scores never increase; the ranking is a permutation of the scored proposals; equal scores keep discovery order |
| `MatchingAlgorithm.RankedEntriesAreScoredProposals` | backend/src/services/matchingAlgorithm.js:49-56 | as many ranked entries as unique proposals, each one a unique proposal with its own score |
| `MatchingAlgorithm.RankedStartsDistinct` | backend/src/services/matchingAlgorithm.js:43-56 | ranked entries have pairwise distinct starts |
| `MatchingAlgorithm.RankedContains` | backend/src/services/matchingAlgorithm.js:49-56 | every unique proposal appears in the ranking with its score |
| `MatchingAlgorithm.Rank` | backend/src/services/matchingAlgorithm.js:43-58 | the filter/map/sort/slice chain; `RankFacts` states its length, contents, order and that nothing better is dropped |
| `MatchingAlgorithm.RankFacts` | backend/src/services/matchingAlgorithm.js:43-58 | min(3, unique) results; each a unique proposal with its score and without `availableDuration`; scores non-increasing and starts distinct; every proposal left out scores no higher than the last one kept |
| `MatchingAlgorithm.RankEntries` | backend/src/services/matchingAlgorithm.js:49-58 | min(3, unique) results, each the ranked entry without `availableDuration`, i.e. a unique proposal with its own score |
| `MatchingAlgorithm.RankOrder` | backend/src/services/matchingAlgorithm.js:43-58 | result scores never increase and result starts are pairwise distinct |
| `MatchingAlgorithm.RankKeepsBest` | backend/src/services/matchingAlgorithm.js:55-58 | every unique proposal either is among the results (by start) or scores no higher than the last result |
| `MatchingAlgorithm.RankKeepsBestAt` | backend/src/services/matchingAlgorithm.js:55-58 | the same for one unique proposal at a given ranked position |
| `MatchingAlgorithm.FindMatchingSlots` | backend/src/services/matchingAlgorithm.js:13-59 | the loops compute the specification ranking; at most 3 results, none if either list is empty; each lasts exactly the required minutes, scores 0..100, is available to both sides and starts at max of some pair's starts; scores non-increasing, starts distinct |
| `MatchingAlgorithm.CollectOverlaps` | backend/src/services/matchingAlgorithm.js:14-40 | the nested loops push exactly the pair proposals, in (candidate, interviewer) order |
| `MatchingAlgorithm.RowStep` | backend/src/services/matchingAlgorithm.js:19-39 | one turn of the inner loop appends exactly that pair's proposal to the row |
| `MatchingAlgorithm.CandidateStep` | backend/src/services/matchingAlgorithm.js:18-40 | one turn of the outer loop appends exactly that candidate slot's row |
| `MatchingAlgorithm.MatchingSlotsFacts` | backend/src/services/matchingAlgorithm.js:13-59 | the same properties for the specification ranking, for any required length |
| `MatchingAlgorithm.RankedSlotsComeFromPairs` | backend/src/services/matchingAlgorithm.js:13-59 | each result lasts the required length, scores 0..100, is available to both sides and starts at max of some pair's starts |
| `MatchingAlgorithm.PairOfSingletons` | backend/src/services/matchingAlgorithm.js:18-40 | one candidate slot and one interviewer slot give exactly that pair's proposal |
| `MatchingAlgorithm.TwoRows` | backend/src/services/matchingAlgorithm.js:18-40 | two candidate slots against one interviewer slot give the first row's proposal, then the second's |
| `MatchingAlgorithm.SecondWithSameStartDropped` | backend/src/services/matchingAlgorithm.js:43-46 | of two proposals with the same start only the first is kept |
| `MatchingAlgorithm.RankOfOne` | backend/src/services/matchingAlgorithm.js:43-58 | a single proposal is returned alone, with its score |
| `MatchingAlgorithm.DisjointWindowsGiveNothing` | backend/src/services/matchingAlgorithm.js:18-40 | windows 9-10 and 14-15 of the same day give no result for 30 minutes |
| `MatchingAlgorithm.SimpleMatch` | backend/src/services/matchingAlgorithm.js:13-59 | windows 9-12 and 10-11 on a weekday give the single result 10:00-10:30 scoring clamp(100 + lead-time term) |
| `MatchingAlgorithm.DuplicateStartsCollapse` | backend/src/services/matchingAlgorithm.js:43-46 | two candidate windows proposing the same start give one result: the first proposal, without the second one's buffer bonus |
| `MatchingAlgorithm.MergeSortedLength` | backend/src/services/matchingAlgorithm.js:149-163 | the merge scan never lengthens the list, and keeps at least one slot of a non-empty list |
| `MatchingAlgorithm.MergeSortedGaps` | backend/src/services/matchingAlgorithm.js:156-162 | each merged slot ends strictly before the next one starts |
| `MatchingAlgorithm.MergeSortedStarts` | backend/src/services/matchingAlgorithm.js:148-162 | on sorted input, merged starts are ordered and none is after the last input start |
| `MatchingAlgorithm.AbsorbStarts` | backend/src/services/matchingAlgorithm.js:151-162 | one merge step keeps the starts ordered and bounded by the absorbed slot's start |
| `MatchingAlgorithm.MergeSortedShape` | backend/src/services/matchingAlgorithm.js:148-162 | on sorted input, the merge is no longer than its input, non-empty for non-empty input, and separated |
| `MatchingAlgorithm.MergeSortedCovers` | backend/src/services/matchingAlgorithm.js:150-163 | on sorted input, an instant is covered by the merge exactly when it is covered by the input |
| `MatchingAlgorithm.AbsorbCovers` | backend/src/services/matchingAlgorithm.js:151-162 | one merge step covers exactly the instants covered before plus those of the absorbed slot |
| `MatchingAlgorithm.MergeSortedOfSeparated` | backend/src/services/matchingAlgorithm.js:150-163 | a separated list is its own merge |
| `MatchingAlgorithm.Normalized` | backend/src/services/matchingAlgorithm.js:144-166 | sort by start, then merge; `NormalizedFacts` states its shape, coverage and idempotence |
| `MatchingAlgorithm.NormalizedFacts` | backend/src/services/matchingAlgorithm.js:144-166 | empty exactly for empty input; no longer than the input; sorted and separated by gaps; same covered instants; idempotent |
| `MatchingAlgorithm.NormalizedWellFormed` | backend/src/services/matchingAlgorithm.js:144-166 | well-formed input gives well-formed slots, each ending before any later one starts |
| `MatchingAlgorithm.SortKeepsWellFormed` | backend/src/services/matchingAlgorithm.js:148 | sorting well-formed slots keeps every slot well formed |
| `MatchingAlgorithm.MergeSortedWellFormed` | backend/src/services/matchingAlgorithm.js:156-162 | merging keeps every slot's end after its start |
| `MatchingAlgorithm.TouchingSlotsMerge` | backend/src/services/matchingAlgorithm.js:156-158 | touching slots a-b and b-c merge into a-c |
| `MatchingAlgorithm.MergeTimeSlots` | backend/src/services/matchingAlgorithm.js:144-166 | the loop computes the normalized list: empty exactly for empty input, no longer than the input, separated, covering exactly the input's instants |
| `MatchingAlgorithm.MergeStep` | backend/src/services/matchingAlgorithm.js:151-162 | one turn of the merge loop absorbs the next sorted slot into the merged list |
| `AiParser.ValidateParsedSlots` | backend/src/services/aiParser.js:112-148 | the loop accumulates the issues slot by slot; `isValid` exactly when there are none, exactly when every slot is reasonable |
| `AiParser.SlotIssues` | backend/src/services/aiParser.js:121-141 | the four checks of one slot; `SlotIssuesCases` states when each issue is raised |
| `AiParser.IssuesOf` | backend/src/services/aiParser.js:112-148 | the issues slot by slot; `IssuesOfAppend` and `NoIssuesIffReasonable` state their meaning |
| `AiParser.SlotIssuesCases` | backend/src/services/aiParser.js:120-141 | "past" exactly when start < now, "too far" exactly when start > maxFutureDate, "too short" below 15 unrounded minutes, "too long" above 480; no issue exactly for a reasonable slot |
| `AiParser.AtMostTwoIssuesPerSlot` | backend/src/services/aiParser.js:120-142 | when now <= maxFutureDate a slot raises at most 2 issues |
| `AiParser.IssuesOfAppend` | backend/src/services/aiParser.js:118-142 | the issues of a + b are those of a followed by those of b |
| `AiParser.AtMostTwoIssuesEach` | backend/src/services/aiParser.js:118-142 | when now <= maxFutureDate a list raises at most twice as many issues as it has slots |
| `AiParser.NoIssuesIffReasonable` | backend/src/services/aiParser.js:118-147 | no issues exactly when every slot is reasonable; the empty list is valid |
| `AiParser.FourteenAndAHalfMinutesIsFlagged` | backend/src/services/aiParser.js:132-141 | a 14.5-minute slot passes `validateTimeSlot` but is flagged too short here |
| `AiParser.ConvertSlots` | backend/src/services/aiParser.js:72-85 | success exactly when every slot has two valid dates and ends after it starts, keeping every slot in order; otherwise the error of the first bad slot |
| `AiParser.FailureOutcome` | backend/src/services/aiParser.js:97-103 | no slots, confidence 0, not parsed by the model, the error recorded, and the interpretation "Failed to parse: <message>. Please use structured time picker." |
| `AiParser.EffectiveConfidence` | backend/src/services/aiParser.js:89 | a missing or zero confidence becomes 0.5; any other value is kept |
| `AiParser.EffectiveInterpretation` | backend/src/services/aiParser.js:90 | a missing or empty interpretation becomes "Parsed successfully" |
| `AiParser.RawSlotError` | backend/src/services/aiParser.js:73-82 | the invalid-date check before the order check; `ConvertSlots` states the conversion succeeds exactly when no slot has an error |
| `AiParser.CheckParsedResponse` | backend/src/services/aiParser.js:67-103 | the post-parse check; `CheckParsedResponseAllOrNothing` states it is all or nothing |
| `AiParser.CheckParsedResponseAllOrNothing` | backend/src/services/aiParser.js:67-103 | accepted exactly when the list is present and every slot is good; accepted exactly when there is no error; a rejection keeps no slots and has confidence 0; an acceptance keeps every parsed slot in order, each ending after it starts, with the defaulted confidence and interpretation |
| `AiParser.OneBadSlotRejectsAll` | backend/src/services/aiParser.js:72-103 | one slot ending at or before its start rejects the whole list, wherever it sits |
| `CalendarService.SanitizeName` | backend/src/services/calendarService.js:140 | same length as the name; each ASCII letter or digit stays where it was, every other character becomes `_` |
| `CalendarService.SanitizedNameIsSafe` | backend/src/services/calendarService.js:140 | a sanitized name holds only ASCII letters, digits and `_` |
| `CalendarService.SanitizeIdempotent` | backend/src/services/calendarService.js:140 | sanitizing twice equals sanitizing once, and a safe name is unchanged |
| `CalendarService.GenerateCalendarFilename` | backend/src/services/calendarService.js:138-142 | the name is "interview_", the sanitized name, "_", the date text and ".ics", at those exact positions |
| `CalendarService.FilenameIsSafe` | backend/src/services/calendarService.js:138-142 | when the date text is digits and dashes, the file name holds only letters, digits, `_`, `-` and `.` |
| `CalendarService.FilenamesCollideIffSanitisedNamesAgree` | backend/src/services/calendarService.js:140-141 | two names give the same file for a date exactly when they sanitize alike |
| `CalendarService.DateToArray` | backend/src/services/calendarService.js:108-116 | five entries; month in 1..12, day in 1..31, hour in 0..23, minute in 0..59 |
| `CalendarService.ArrayToDate` | backend/src/services/calendarService.js:108-116 | the inverse reading: defined exactly on five-entry arrays in the library's ranges |
| `CalendarService.DateArrayRoundTrip` | backend/src/services/calendarService.js:108-116 | reading the array back gives the date; the month is `getMonth() + 1` and the other fields pass through unchanged |
| `CalendarService.ArrayDateRoundTrip` | backend/src/services/calendarService.js:108-116 | an array in the library's layout is the array of the date read from it |
| `CalendarService.OrElse` | backend/src/services/calendarService.js:37 | `a || b` on an optional string: a when a is truthy, b otherwise |
| `CalendarService.EventLocation` | backend/src/services/calendarService.js:55 | the location, or else the meeting link, or else "Virtual Meeting" |
| `CalendarService.Description` | backend/src/services/calendarService.js:36-47 | the description text; `DescriptionFrame`, `LinkLineOnlyWhenTruthy` and `NotesLineOnlyWhenTruthy` state its lines |
| `CalendarService.BuildDescription` | backend/src/services/calendarService.js:36-47 | the appends build exactly the description: participants, type, the link line if the link is truthy, the notes line if the notes are, then the closing sentence |
| `CalendarService.GenerateCalendarInvite` | backend/src/services/calendarService.js:14-90 | the record handed to the library: start and end arrays, title, description, location, CONFIRMED / BUSY, the interviewer as organizer, two attendees (candidate NEEDS-ACTION, interviewer ACCEPTED) and two display alarms 15 and 5 minutes before |
| `CalendarService.DescriptionFrame` | backend/src/services/calendarService.js:36-47 | every description starts with the participants and the type and ends with the automated-invite sentence |
| `CalendarService.LinkLineOnlyWhenTruthy` | backend/src/services/calendarService.js:39-41 | dropping the link changes the description exactly when the link is truthy, and then it is longer by exactly the length of the link line |
| `CalendarService.NotesLineOnlyWhenTruthy` | backend/src/services/calendarService.js:43-45 | dropping the notes changes the description exactly when the notes are truthy, and then it is longer by exactly the length of the notes line |
| `FrontendUtils.DigitChar` | frontend/lib/utils.ts:52 | a digit character whose value is the digit |
| `FrontendUtils.NatToString` | frontend/lib/utils.ts:52-55 | `String(n)`: decimal digits only, no leading zero, and as many digits as the decade of n requires |
| `FrontendUtils.NatToStringRoundTrip` | frontend/lib/utils.ts:52-55 | reading the digits back gives n |
| `FrontendUtils.NatToStringLength` | frontend/lib/utils.ts:51 | a number in [10^(k-1), 10^k) has exactly k digits |
| `FrontendUtils.IntToString` | frontend/lib/utils.ts:51 | a non-negative year is its digits; a negative one has a minus sign before the digits of its magnitude |
| `FrontendUtils.PadStart` | frontend/lib/utils.ts:52-55 | length max(\|s\|, width); s at the end; only fill characters before it |
| `FrontendUtils.Pad2` | frontend/lib/utils.ts:52-55 | `String(n).padStart(2, '0')`; `Pad2Facts` states its length, leading zero and value |
| `FrontendUtils.Pad2Facts` | frontend/lib/utils.ts:52-55 | below 100 the field is exactly two digits, with a leading 0 exactly below 10, and it reads back as the number |
| `FrontendUtils.ToDateTimeLocal` | frontend/lib/utils.ts:49-58 | the year text followed by exactly 12 characters |
| `FrontendUtils.ReadDateTimeLocal` | frontend/lib/utils.ts:57 | the numbers read from a 16-character `yyyy-MM-ddTHH:mm` text: a year in 0..9999, a month and a day in 0..99 |
| `FrontendUtils.ToDateTimeLocalRoundTrip` | frontend/lib/utils.ts:51-57 | for a four-digit year: 16 characters, `-` `-` `T` `:` at 4, 7, 10 and 13, and every field reads back, the month as the zero-based month plus 1 |
| `FrontendUtils.LayoutOfFields` | frontend/lib/utils.ts:57 | the positions of the fields and separators in the assembled text |
| `FrontendUtils.MonthFieldRange` | frontend/lib/utils.ts:52 | the month field reads as 01..12 |
| `FrontendUtils.GetDurationMinutes` | frontend/lib/utils.ts:63-68 | `Math.round((end - start) / 60000)` written as `(end - start + 30000) / 60000` agrees with the back end's `getDurationMinutes` |

## Left out

- `parseAvailabilityText`'s call to the language model, the JSON extraction by regular expression, and `JSON.parse` (aiParser.js:14-64) are external calls; the model starts from the parsed object. The structure check and every later step are modelled.
- The text of parser issues embeds `toISOString()` output and floating-point minute counts. Issues are tags carrying the start or the duration in milliseconds.
- `new Date(string)` on the model's output is not modelled; a slot arrives as an optional timestamp, `None` standing for `NaN`.
- `maxFutureDate` is calendar-month arithmetic (`setMonth(getMonth() + 6)`); it is a parameter.
- MergeTimeSlots: does not model that `lastMerged.end = …` assigns into the caller's own slot objects through the shallow copy. The model works on values and returns the merged list without changing its input.
- FindMatchingSlots: `requiredDuration` is an integer number of minutes; a fractional duration is not modelled. The default of 60 minutes is kept.
- CalculateSlotScore: `new Date()` is read once per scored slot in the source; the model takes one `now` for the whole call.
- `ics.createEvent` and its error path (calendarService.js:93-100) are a library call. The model stops at the event record.
- `durationMinutes` in `generateCalendarInvite` (calendarService.js:33) is computed and never used, so it is not modelled.
- The date text inside the invite file name comes from date-fns `format(startTime, 'yyyy-MM-dd')`; it is a parameter of `GenerateCalendarFilename`. `formatTimeSlot`, `formatDate`, `formatTime` and `cn` are display formatting and are not modelled.
- SanitizeName: the regular expression runs over UTF-16 code units, so a character outside the Basic Multilingual Plane becomes two underscores in the source and one in the model, where a string is a sequence of characters.
- Interpolating a missing name or e-mail into the invite yields the text "undefined" in the source; names and e-mails are required strings in the model.
- The front end's `toDateTimeLocal` and `getDurationMinutes` also accept strings and parse them with `new Date`; the model takes the date fields and the timestamps.
- The invite's `start` and `end` arrays use the local fields of the dates, a `localDateOf` view the caller supplies.
