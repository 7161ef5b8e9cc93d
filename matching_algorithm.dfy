/**
 * The interval-scheduling engine (backend/src/services/matchingAlgorithm.js).
 *
 * Each participant's availability is first normalized by `MergeTimeSlots`; then
 * `FindMatchingSlots` enumerates the overlap of every (candidate, interviewer)
 * pair, keeps the first proposal per start time, scores each proposal and returns
 * the three best, ties kept in discovery order.
 */
module MatchingAlgorithm {

  import opened TimeUtils
  import opened StableSort

  /** An overlap found by the pair loop: the proposed interview window and the length of the whole overlap. */
  datatype Match = Match(start: int, end: int, availableDuration: int)

  /** A proposal together with its score (`{...match, score}`). */
  datatype ScoredMatch = ScoredMatch(slot: Match, score: int)

  /** A returned proposal: `availableDuration` is stripped. */
  datatype ScoredSlot = ScoredSlot(start: int, end: int, score: int)

  // ----- Overlap enumeration -----

  /** The proposal one (candidate, interviewer) pair yields, if any: the earliest window of the required length. */
  function PairMatch(candSlot: TimeSlot, intSlot: TimeSlot, requiredMs: int): seq<Match>
  {
    var overlapStart := Max(candSlot.start, intSlot.start);
    var overlapEnd := Min(candSlot.end, intSlot.end);
    if overlapEnd > overlapStart && overlapEnd - overlapStart >= requiredMs then
      [Match(overlapStart, overlapStart + requiredMs, overlapEnd - overlapStart)]
    else []
  }

  /** The proposals of one candidate slot against the interviewer slots, in loop order. */
  function RowMatches(candSlot: TimeSlot, interviewerSlots: seq<TimeSlot>, requiredMs: int): seq<Match>
  {
    if interviewerSlots == [] then []
    else
      RowMatches(candSlot, interviewerSlots[..|interviewerSlots| - 1], requiredMs)
      + PairMatch(candSlot, interviewerSlots[|interviewerSlots| - 1], requiredMs)
  }

  /** Every proposal of the nested loops, in (candidate, interviewer) loop order. */
  function AllMatches(candidateSlots: seq<TimeSlot>, interviewerSlots: seq<TimeSlot>, requiredMs: int): seq<Match>
  {
    if candidateSlots == [] then []
    else
      AllMatches(candidateSlots[..|candidateSlots| - 1], interviewerSlots, requiredMs)
      + RowMatches(candidateSlots[|candidateSlots| - 1], interviewerSlots, requiredMs)
  }

  /** `m` is the proposal the pair (c, i) yields. */
  ghost predicate FromPair(m: Match, c: TimeSlot, i: TimeSlot, requiredMs: int)
  {
    && m.start == Max(c.start, i.start)
    && m.end == m.start + requiredMs
    && m.availableDuration == Min(c.end, i.end) - m.start
    && m.availableDuration > 0
    && m.availableDuration >= requiredMs
  }

  /** A pair yields a proposal exactly when its overlap is non-empty and at least the required length. */
  lemma PairMatchCases(c: TimeSlot, i: TimeSlot, requiredMs: int)
    ensures |PairMatch(c, i, requiredMs)| <= 1
    ensures PairMatch(c, i, requiredMs) != [] <==>
      Min(c.end, i.end) > Max(c.start, i.start) && Min(c.end, i.end) - Max(c.start, i.start) >= requiredMs
    ensures forall m :: m in PairMatch(c, i, requiredMs) ==> FromPair(m, c, i, requiredMs)
  {
  }

  /** Slots that only touch, or that overlap by less than the required length, yield nothing. */
  lemma NoMatchWhenTouchingOrShort(c: TimeSlot, i: TimeSlot, requiredMs: int)
    requires Min(c.end, i.end) == Max(c.start, i.start) || Min(c.end, i.end) - Max(c.start, i.start) < requiredMs
    ensures PairMatch(c, i, requiredMs) == []
  {
  }

  /** For well-formed slots the pair test is the `slotsOverlap` test of the time helpers. */
  lemma PairTestIsSlotsOverlap(c: TimeSlot, i: TimeSlot, requiredMs: int)
    requires c.start < c.end && i.start < i.end
    ensures PairMatch(c, i, requiredMs) != [] ==> SlotsOverlap(c, i)
    ensures requiredMs <= 0 ==> (PairMatch(c, i, requiredMs) != [] <==> SlotsOverlap(c, i))
  {
    OverlapIsNonEmptyIntersection(c, i);
  }

  lemma {:induction false} RowMatchesSound(c: TimeSlot, ints: seq<TimeSlot>, requiredMs: int)
    ensures forall m :: m in RowMatches(c, ints, requiredMs) ==>
      exists i :: i in ints && FromPair(m, c, i, requiredMs)
  {
    if ints != [] {
      var init, last := ints[..|ints| - 1], ints[|ints| - 1];
      RowMatchesSound(c, init, requiredMs);
      assert forall i :: i in init ==> i in ints;
      PairMatchCases(c, last, requiredMs);
    }
  }

  /** Every enumerated proposal comes from some (candidate, interviewer) pair. */
  lemma {:induction false} AllMatchesSound(cands: seq<TimeSlot>, ints: seq<TimeSlot>, requiredMs: int)
    ensures forall m :: m in AllMatches(cands, ints, requiredMs) ==>
      exists c, i :: c in cands && i in ints && FromPair(m, c, i, requiredMs)
  {
    if cands != [] {
      var init, last := cands[..|cands| - 1], cands[|cands| - 1];
      AllMatchesSound(init, ints, requiredMs);
      assert forall c :: c in init ==> c in cands;
      RowMatchesSound(last, ints, requiredMs);
    }
  }

  lemma {:induction false} RowMatchesComplete(c: TimeSlot, ints: seq<TimeSlot>, requiredMs: int)
    ensures forall i :: i in ints ==> forall m :: m in PairMatch(c, i, requiredMs) ==> m in RowMatches(c, ints, requiredMs)
  {
    if ints != [] {
      var init, last := ints[..|ints| - 1], ints[|ints| - 1];
      RowMatchesComplete(c, init, requiredMs);
      assert ints == init + [last];
    }
  }

  /** Every pair whose overlap is long enough contributes its proposal. */
  lemma {:induction false} AllMatchesComplete(cands: seq<TimeSlot>, ints: seq<TimeSlot>, requiredMs: int)
    ensures forall c, i :: c in cands && i in ints ==>
      forall m :: m in PairMatch(c, i, requiredMs) ==> m in AllMatches(cands, ints, requiredMs)
  {
    if cands != [] {
      var init, last := cands[..|cands| - 1], cands[|cands| - 1];
      AllMatchesComplete(init, ints, requiredMs);
      RowMatchesComplete(last, ints, requiredMs);
      assert cands == init + [last];
    }
  }

  lemma {:induction false} RowMatchesOfNoInterviewer(cands: seq<TimeSlot>, requiredMs: int)
    ensures AllMatches(cands, [], requiredMs) == []
  {
    if cands != [] {
      RowMatchesOfNoInterviewer(cands[..|cands| - 1], requiredMs);
    }
  }

  // ----- isSlotAvailable -----

  /** `slots.some(slot => slot.start <= proposedStart && slot.end >= proposedEnd)`. */
  function SomeSlotCovers(slots: seq<TimeSlot>, proposedStart: int, proposedEnd: int): (r: bool)
    ensures r <==> exists k :: 0 <= k < |slots| && slots[k].start <= proposedStart && slots[k].end >= proposedEnd
  {
    if slots == [] then false
    else
      (slots[0].start <= proposedStart && slots[0].end >= proposedEnd)
      || SomeSlotCovers(slots[1..], proposedStart, proposedEnd)
  }

  /** Both participants have one slot containing the proposed window. */
  function IsSlotAvailable(proposedStart: int, proposedEnd: int, candidateSlots: seq<TimeSlot>, interviewerSlots: seq<TimeSlot>): (r: bool)
    ensures r <==>
      (exists c :: c in candidateSlots && c.start <= proposedStart && proposedEnd <= c.end) &&
      (exists i :: i in interviewerSlots && i.start <= proposedStart && proposedEnd <= i.end)
  {
    SomeSlotCovers(candidateSlots, proposedStart, proposedEnd) && SomeSlotCovers(interviewerSlots, proposedStart, proposedEnd)
  }

  /** A pair's proposal lies inside both slots of the pair, so it is available to both participants. */
  lemma ProposalIsAvailable(m: Match, c: TimeSlot, i: TimeSlot, cands: seq<TimeSlot>, ints: seq<TimeSlot>, requiredMs: int)
    requires c in cands && i in ints && FromPair(m, c, i, requiredMs)
    ensures c.start <= m.start && m.end <= c.end && i.start <= m.start && m.end <= i.end
    ensures IsSlotAvailable(m.start, m.end, cands, ints)
  {
  }

  // ----- Deduplication -----

  /** `findIndex(m => m.start === t)`: the first index with start `t`, or -1. */
  function FindIndexByStart(ms: seq<Match>, t: int): (r: int)
    ensures -1 <= r < |ms|
    ensures r >= 0 ==> ms[r].start == t
    ensures forall k :: 0 <= k < |ms| && (r == -1 || k < r) ==> ms[k].start != t
  {
    if ms == [] then -1
    else if ms[0].start == t then 0
    else
      var r := FindIndexByStart(ms[1..], t);
      if r == -1 then -1 else r + 1
  }

  /** The filter `index === self.findIndex(...)` over the first `n` proposals. */
  function KeepFirstStarts(ms: seq<Match>, n: nat): seq<Match>
    requires n <= |ms|
  {
    if n == 0 then []
    else KeepFirstStarts(ms, n - 1) + (if FindIndexByStart(ms, ms[n - 1].start) == n - 1 then [ms[n - 1]] else [])
  }

  /** The proposals that are first with their start time, in their order. */
  function UniqueByStart(ms: seq<Match>): seq<Match>
  {
    KeepFirstStarts(ms, |ms|)
  }

  ghost predicate DistinctStarts(us: seq<Match>)
  {
    forall p, q :: 0 <= p < q < |us| ==> us[p].start != us[q].start
  }

  lemma KeepFirstStartsAreFirst(ms: seq<Match>, n: nat)
    requires n <= |ms|
    ensures forall u :: u in KeepFirstStarts(ms, n) ==>
      u in ms[..n] && FindIndexByStart(ms, u.start) >= 0 && u == ms[FindIndexByStart(ms, u.start)]
  {
    KeepFirstStartsInPrefix(ms, n);
    KeepFirstStartsAtFirstIndex(ms, n);
  }

  lemma {:induction false} KeepFirstStartsInPrefix(ms: seq<Match>, n: nat)
    requires n <= |ms|
    ensures forall u :: u in KeepFirstStarts(ms, n) ==> u in ms[..n]
  {
    if n > 0 {
      var prev := KeepFirstStarts(ms, n - 1);
      var added := if FindIndexByStart(ms, ms[n - 1].start) == n - 1 then [ms[n - 1]] else [];
      KeepFirstStartsInPrefix(ms, n - 1);
      assert KeepFirstStarts(ms, n) == prev + added;
      assert ms[..n] == ms[..n - 1] + [ms[n - 1]];
    }
  }

  lemma {:induction false} KeepFirstStartsAtFirstIndex(ms: seq<Match>, n: nat)
    requires n <= |ms|
    ensures forall u :: u in KeepFirstStarts(ms, n) ==>
      FindIndexByStart(ms, u.start) >= 0 && u == ms[FindIndexByStart(ms, u.start)]
  {
    if n > 0 {
      var prev := KeepFirstStarts(ms, n - 1);
      var added := if FindIndexByStart(ms, ms[n - 1].start) == n - 1 then [ms[n - 1]] else [];
      KeepFirstStartsAtFirstIndex(ms, n - 1);
      assert KeepFirstStarts(ms, n) == prev + added;
    }
  }

  lemma {:induction false} KeepFirstStartsDistinct(ms: seq<Match>, n: nat)
    requires n <= |ms|
    ensures DistinctStarts(KeepFirstStarts(ms, n))
  {
    if n > 0 {
      var prev := KeepFirstStarts(ms, n - 1);
      KeepFirstStartsDistinct(ms, n - 1);
      if FindIndexByStart(ms, ms[n - 1].start) == n - 1 {
        var cur := prev + [ms[n - 1]];
        assert KeepFirstStarts(ms, n) == cur;
        FirstOfItsStartIsNew(ms, n - 1);
        forall p, q | 0 <= p < q < |cur| ensures cur[p].start != cur[q].start {
          assert cur[p] == prev[p];
          if q < |prev| {
            assert cur[q] == prev[q];
          }
        }
      } else {
        assert KeepFirstStarts(ms, n) == prev + [];
        assert prev + [] == prev;
      }
    }
  }

  /** A proposal that is the first with its start has a start no earlier kept proposal has. */
  lemma FirstOfItsStartIsNew(ms: seq<Match>, n: nat)
    requires n < |ms| && FindIndexByStart(ms, ms[n].start) == n
    ensures forall p :: 0 <= p < |KeepFirstStarts(ms, n)| ==> KeepFirstStarts(ms, n)[p].start != ms[n].start
  {
    var prev := KeepFirstStarts(ms, n);
    KeepFirstStartsAreFirst(ms, n);
    forall p | 0 <= p < |prev| ensures prev[p].start != ms[n].start {
      assert prev[p] in prev;
      assert prev[p] in ms[..n];
      var k :| 0 <= k < n && ms[k] == prev[p];
    }
  }

  lemma {:induction false} KeepFirstStartsComplete(ms: seq<Match>, n: nat)
    requires n <= |ms|
    ensures forall k :: 0 <= k < n ==> exists u :: u in KeepFirstStarts(ms, n) && u.start == ms[k].start
  {
    if n > 0 {
      var prev := KeepFirstStarts(ms, n - 1);
      KeepFirstStartsComplete(ms, n - 1);
      var cur := KeepFirstStarts(ms, n);
      assert forall u :: u in prev ==> u in cur;
      var j := FindIndexByStart(ms, ms[n - 1].start);
      if j == n - 1 {
        assert ms[n - 1] in cur;
      } else {
        assert 0 <= j < n - 1 && ms[j].start == ms[n - 1].start;
      }
    }
  }

  /** Deduplication keeps one proposal per start time, the first in loop order, and loses no start time. */
  lemma UniqueByStartFacts(ms: seq<Match>)
    ensures DistinctStarts(UniqueByStart(ms))
    ensures forall u :: u in UniqueByStart(ms) ==>
      u in ms && FindIndexByStart(ms, u.start) >= 0 && u == ms[FindIndexByStart(ms, u.start)]
    ensures forall m :: m in ms ==> exists u :: u in UniqueByStart(ms) && u.start == m.start
  {
    KeepFirstStartsAreFirst(ms, |ms|);
    KeepFirstStartsDistinct(ms, |ms|);
    KeepFirstStartsComplete(ms, |ms|);
    assert ms[..|ms|] == ms;
  }

  // ----- Scoring -----

  const BaseScore: int := 50

  /** Score change by local weekday, Sunday first: weekdays +20, weekends -10. */
  const WeekdayAdjustment: seq<int> := [-10, 20, 20, 20, 20, 20, -10]

  /**
   * Score change by local start hour, all hour rules together: the bands 9-16 (+20),
   * 8 and 17 (+10) and otherwise -15, plus 10-13 (+10), before 8 (-10) and from 18 (-5).
   */
  const HourAdjustment: seq<int> :=
    [-25, -25, -25, -25, -25, -25, -25, -25, 10, 20, 30, 30, 30, 30, 20, 20, 20, 10, -20, -20, -20, -20, -20, -20]

  /** Lead time: +10 up to 14 days ahead (or in the past), -5 beyond 30 days. */
  function LeadTimeAdjustment(msUntilSlot: int): int
  {
    if msUntilSlot <= 14 * MsPerDay then 10 else if msUntilSlot > 30 * MsPerDay then -5 else 0
  }

  /** Buffer: +5 when the whole overlap exceeds 90 minutes. */
  function BufferAdjustment(availableDuration: int): int
  {
    if availableDuration > 90 * MsPerMinute then 5 else 0
  }

  /** `Math.max(0, Math.min(100, score))`. */
  function Clamp(score: int): (r: int)
    ensures 0 <= r <= 100
    ensures 0 <= score <= 100 ==> r == score
    ensures score < 0 ==> r == 0
    ensures score > 100 ==> r == 100
  {
    Max(0, Min(100, score))
  }

  /** The sum of base score and adjustments before clamping. */
  function RawScore(slot: Match, now: int, clock: LocalClock): int
  {
    BaseScore
    + WeekdayAdjustment[clock.weekdayOf(slot.start)]
    + HourAdjustment[clock.hourOf(slot.start)]
    + LeadTimeAdjustment(slot.start - now)
    + BufferAdjustment(slot.availableDuration)
  }

  /** The desirability of a proposal: the clamped sum of its adjustments, from 0 to 100. */
  function SlotScore(slot: Match, now: int, clock: LocalClock): (score: int)
    ensures 0 <= score <= 100
  {
    Clamp(RawScore(slot, now, clock))
  }

  /**
   * `calculateSlotScore`, updating the score step by step as the source does.
   * `daysUntilSlot` is the exact quotient of the millisecond difference by a day.
   */
  method CalculateSlotScore(slot: Match, now: int, clock: LocalClock) returns (score: int)
    ensures score == SlotScore(slot, now, clock)
    ensures 0 <= score <= 100
  {
    score := 50;
    var dayOfWeek := clock.weekdayOf(slot.start);
    var hour := clock.hourOf(slot.start);

    if dayOfWeek >= 1 && dayOfWeek <= 5 {
      score := score + 20;
    } else {
      score := score - 10;
    }

    if hour >= 9 && hour < 17 {
      score := score + 20;
    } else if hour >= 8 && hour < 18 {
      score := score + 10;
    } else {
      score := score - 15;
    }

    if hour >= 10 && hour < 14 {
      score := score + 10;
    }

    if hour < 8 {
      score := score - 10;
    }

    if hour >= 18 {
      score := score - 5;
    }

    var daysUntilSlot: real := (slot.start - now) as real / (1000 * 60 * 60 * 24) as real;
    if daysUntilSlot <= 14.0 {
      score := score + 10;
    } else if daysUntilSlot > 30.0 {
      score := score - 5;
    }

    if slot.availableDuration > 90 * 60 * 1000 {
      score := score + 5;
    }

    HourAdjustmentByBand(hour);
    score := Max(0, Min(100, score));
  }

  /** The hour table agrees with the source's hour rules. */
  lemma HourAdjustmentByBand(hour: Hour)
    ensures HourAdjustment[hour] ==
      (if 9 <= hour < 17 then 20 else if 8 <= hour < 18 then 10 else -15)
      + (if 10 <= hour < 14 then 10 else 0)
      + (if hour < 8 then -10 else 0)
      + (if hour >= 18 then -5 else 0)
  {
  }

  /** A weekday mid-morning slot soon, with a long overlap, sums to 115 and is clamped to 100. */
  lemma ScoreOfPrimeSlot(slot: Match, now: int, clock: LocalClock)
    requires 1 <= clock.weekdayOf(slot.start) <= 5 && clock.hourOf(slot.start) == 10
    requires slot.start - now <= 14 * MsPerDay && slot.availableDuration > 90 * MsPerMinute
    ensures RawScore(slot, now, clock) == 115
    ensures SlotScore(slot, now, clock) == 100
  {
  }

  /** A weekday slot at 7 in the morning: 50 + 20 - 15 - 10, plus the lead-time and buffer terms. */
  lemma ScoreOfEarlySlot(slot: Match, now: int, clock: LocalClock)
    requires 1 <= clock.weekdayOf(slot.start) <= 5 && clock.hourOf(slot.start) == 7
    ensures SlotScore(slot, now, clock) ==
      45 + LeadTimeAdjustment(slot.start - now) + BufferAdjustment(slot.availableDuration)
  {
  }

  /** The weekday rule of the scorer is `isWeekday`; `isBusinessHours` (9-17) is not the scorer's core band (9-16). */
  lemma ScoringAgreesWithCalendarPredicates(slot: Match, clock: LocalClock)
    ensures WeekdayAdjustment[clock.weekdayOf(slot.start)] > 0 <==> IsWeekday(clock, slot.start)
    ensures IsBusinessHours(clock, slot.start) ==> HourAdjustment[clock.hourOf(slot.start)] >= 10
    ensures !IsBusinessHours(clock, slot.start) ==> HourAdjustment[clock.hourOf(slot.start)] <= 10
  {
    HourAdjustmentByBand(clock.hourOf(slot.start));
  }

  // ----- Ranking -----

  function ScoreAll(us: seq<Match>, now: int, clock: LocalClock): (r: seq<ScoredMatch>)
    ensures |r| == |us|
  {
    seq(|us|, k requires 0 <= k < |us| => ScoredMatch(us[k], SlotScore(us[k], now, clock)))
  }

  /** The sort key of `(a, b) => b.score - a.score`: higher scores first. */
  function NegatedScore(s: ScoredMatch): int
  {
    -s.score
  }

  function SlotStart(s: ScoredMatch): int
  {
    s.slot.start
  }

  /** The deduplicated proposals with their scores, stably sorted by descending score. */
  function Ranked(ms: seq<Match>, now: int, clock: LocalClock): seq<ScoredMatch>
  {
    SortBy(ScoreAll(UniqueByStart(ms), now, clock), NegatedScore)
  }

  function Strip(s: ScoredMatch): ScoredSlot
  {
    ScoredSlot(s.slot.start, s.slot.end, s.score)
  }

  /** The filter/map/sort/slice/map chain: the first three ranked proposals without `availableDuration`. */
  function Rank(ms: seq<Match>, now: int, clock: LocalClock): seq<ScoredSlot>
  {
    var ranked := Ranked(ms, now, clock);
    var top := ranked[..Min(3, |ranked|)];
    seq(|top|, k requires 0 <= k < |top| => Strip(top[k]))
  }

  /** The ranking is a stable sort by descending score: a permutation in which each score's proposals keep discovery order. */
  lemma RankedIsStableSort(ms: seq<Match>, now: int, clock: LocalClock)
    ensures forall j, k :: 0 <= j < k < |Ranked(ms, now, clock)| ==>
      Ranked(ms, now, clock)[j].score >= Ranked(ms, now, clock)[k].score
    ensures multiset(Ranked(ms, now, clock)) == multiset(ScoreAll(UniqueByStart(ms), now, clock))
    ensures forall v :: (KeyClass(Ranked(ms, now, clock), NegatedScore, v) ==
      KeyClass(ScoreAll(UniqueByStart(ms), now, clock), NegatedScore, v))
  {
    var scored := ScoreAll(UniqueByStart(ms), now, clock);
    SortByFacts(scored, NegatedScore);
    forall j, k | 0 <= j < k < |Ranked(ms, now, clock)|
      ensures Ranked(ms, now, clock)[j].score >= Ranked(ms, now, clock)[k].score
    {
      assert NegatedScore(Ranked(ms, now, clock)[j]) <= NegatedScore(Ranked(ms, now, clock)[k]);
    }
  }

  /** Every ranked entry is a deduplicated proposal with its own score. */
  lemma RankedEntriesAreScoredProposals(ms: seq<Match>, now: int, clock: LocalClock)
    ensures |Ranked(ms, now, clock)| == |UniqueByStart(ms)|
    ensures forall k :: 0 <= k < |Ranked(ms, now, clock)| ==>
      exists u :: u in UniqueByStart(ms) && Ranked(ms, now, clock)[k] == ScoredMatch(u, SlotScore(u, now, clock))
  {
    var us := UniqueByStart(ms);
    var scored := ScoreAll(us, now, clock);
    var ranked := Ranked(ms, now, clock);
    SortPermutes(scored, NegatedScore);
    forall k | 0 <= k < |ranked|
      ensures exists u :: u in us && ranked[k] == ScoredMatch(u, SlotScore(u, now, clock))
    {
      assert ranked[k] in multiset(scored);
      var idx :| 0 <= idx < |scored| && scored[idx] == ranked[k];
      assert us[idx] in us;
    }
  }

  /** No two ranked entries share a start time. */
  lemma RankedStartsDistinct(ms: seq<Match>, now: int, clock: LocalClock)
    ensures DistinctBy(Ranked(ms, now, clock), SlotStart)
  {
    var us := UniqueByStart(ms);
    var scored := ScoreAll(us, now, clock);
    UniqueByStartFacts(ms);
    forall i, j | 0 <= i < j < |scored| ensures SlotStart(scored[i]) != SlotStart(scored[j]) {
      assert scored[i].slot == us[i] && scored[j].slot == us[j];
    }
    SortDistinct(scored, NegatedScore, SlotStart);
  }

  /** A deduplicated proposal appears in the ranking at some position, with its score. */
  lemma RankedContains(ms: seq<Match>, now: int, clock: LocalClock, u: Match) returns (p: nat)
    requires u in UniqueByStart(ms)
    ensures p < |Ranked(ms, now, clock)| && Ranked(ms, now, clock)[p] == ScoredMatch(u, SlotScore(u, now, clock))
  {
    var us := UniqueByStart(ms);
    var scored := ScoreAll(us, now, clock);
    var ranked := Ranked(ms, now, clock);
    SortPermutes(scored, NegatedScore);
    var idx :| 0 <= idx < |us| && us[idx] == u;
    assert scored[idx] == ScoredMatch(u, SlotScore(u, now, clock));
    assert scored[idx] in multiset(ranked);
    p :| 0 <= p < |ranked| && ranked[p] == scored[idx];
  }

  /**
   * At most three results, one per start time, with non-increasing scores; each is a
   * deduplicated proposal with its score; every proposal left out scores no higher
   * than the last one kept.
   */
  lemma RankFacts(ms: seq<Match>, now: int, clock: LocalClock)
    ensures |Rank(ms, now, clock)| == Min(3, |UniqueByStart(ms)|)
    ensures forall k :: 0 <= k < |Rank(ms, now, clock)| ==>
      exists u :: u in UniqueByStart(ms) && Rank(ms, now, clock)[k] == ScoredSlot(u.start, u.end, SlotScore(u, now, clock))
    ensures forall j, k :: 0 <= j < k < |Rank(ms, now, clock)| ==>
      Rank(ms, now, clock)[j].score >= Rank(ms, now, clock)[k].score &&
      Rank(ms, now, clock)[j].start != Rank(ms, now, clock)[k].start
    ensures forall u :: u in UniqueByStart(ms) ==> (|Rank(ms, now, clock)| > 0 &&
      ((exists k :: 0 <= k < |Rank(ms, now, clock)| && Rank(ms, now, clock)[k].start == u.start) ||
       SlotScore(u, now, clock) <= Rank(ms, now, clock)[|Rank(ms, now, clock)| - 1].score))
  {
    RankEntries(ms, now, clock);
    RankOrder(ms, now, clock);
    RankKeepsBest(ms, now, clock);
  }

  /** The results are the first (at most) three ranked entries, each a unique proposal with its score. */
  lemma RankEntries(ms: seq<Match>, now: int, clock: LocalClock)
    ensures |Rank(ms, now, clock)| == Min(3, |UniqueByStart(ms)|)
    ensures forall k :: 0 <= k < |Rank(ms, now, clock)| ==> Rank(ms, now, clock)[k] == Strip(Ranked(ms, now, clock)[k])
    ensures forall k :: 0 <= k < |Rank(ms, now, clock)| ==>
      exists u :: u in UniqueByStart(ms) && Rank(ms, now, clock)[k] == ScoredSlot(u.start, u.end, SlotScore(u, now, clock))
  {
    var ranked := Ranked(ms, now, clock);
    var r := Rank(ms, now, clock);
    RankedEntriesAreScoredProposals(ms, now, clock);
    assert |r| == Min(3, |ranked|);
    forall k | 0 <= k < |r|
      ensures exists u :: u in UniqueByStart(ms) && r[k] == ScoredSlot(u.start, u.end, SlotScore(u, now, clock))
    {
      var u :| u in UniqueByStart(ms) && ranked[k] == ScoredMatch(u, SlotScore(u, now, clock));
      assert r[k] == Strip(ranked[k]);
    }
  }

  /** Result scores never increase and result starts are pairwise distinct. */
  lemma RankOrder(ms: seq<Match>, now: int, clock: LocalClock)
    ensures forall j, k :: 0 <= j < k < |Rank(ms, now, clock)| ==>
      Rank(ms, now, clock)[j].score >= Rank(ms, now, clock)[k].score &&
      Rank(ms, now, clock)[j].start != Rank(ms, now, clock)[k].start
  {
    var ranked := Ranked(ms, now, clock);
    var r := Rank(ms, now, clock);
    RankEntries(ms, now, clock);
    RankedIsStableSort(ms, now, clock);
    RankedStartsDistinct(ms, now, clock);
    forall j, k | 0 <= j < k < |r|
      ensures r[j].score >= r[k].score && r[j].start != r[k].start
    {
      assert r[j] == Strip(ranked[j]) && r[k] == Strip(ranked[k]);
      assert SlotStart(ranked[j]) != SlotStart(ranked[k]);
    }
  }

  /** A unique proposal left out of the results scores no higher than the last result. */
  lemma RankKeepsBest(ms: seq<Match>, now: int, clock: LocalClock)
    ensures forall u :: u in UniqueByStart(ms) ==> (|Rank(ms, now, clock)| > 0 &&
      ((exists k :: 0 <= k < |Rank(ms, now, clock)| && Rank(ms, now, clock)[k].start == u.start) ||
       SlotScore(u, now, clock) <= Rank(ms, now, clock)[|Rank(ms, now, clock)| - 1].score))
  {
    forall u | u in UniqueByStart(ms)
      ensures |Rank(ms, now, clock)| > 0 &&
        ((exists k :: 0 <= k < |Rank(ms, now, clock)| && Rank(ms, now, clock)[k].start == u.start) ||
         SlotScore(u, now, clock) <= Rank(ms, now, clock)[|Rank(ms, now, clock)| - 1].score)
    {
      var p := RankedContains(ms, now, clock, u);
      RankKeepsBestAt(ms, now, clock, u, p);
    }
  }

  lemma RankKeepsBestAt(ms: seq<Match>, now: int, clock: LocalClock, u: Match, p: nat)
    requires p < |Ranked(ms, now, clock)| && Ranked(ms, now, clock)[p] == ScoredMatch(u, SlotScore(u, now, clock))
    ensures |Rank(ms, now, clock)| > 0
    ensures (exists k :: 0 <= k < |Rank(ms, now, clock)| && Rank(ms, now, clock)[k].start == u.start) ||
      SlotScore(u, now, clock) <= Rank(ms, now, clock)[|Rank(ms, now, clock)| - 1].score
  {
    var ranked := Ranked(ms, now, clock);
    var r := Rank(ms, now, clock);
    RankEntries(ms, now, clock);
    if p < |r| {
      assert r[p] == Strip(ranked[p]);
      assert r[p].start == u.start;
    } else {
      RankedIsStableSort(ms, now, clock);
      assert r[|r| - 1] == Strip(ranked[|r| - 1]);
      assert ranked[|r| - 1].score >= ranked[p].score;
    }
  }

  /**
   * `findMatchingSlots`: the nested loops collect the proposals of every pair, then the
   * deduplicate/score/sort/slice chain selects the results.
   */
  method FindMatchingSlots(candidateSlots: seq<TimeSlot>, interviewerSlots: seq<TimeSlot>, now: int, clock: LocalClock, requiredDuration: int := 60)
    returns (slots: seq<ScoredSlot>)
    ensures slots == Rank(AllMatches(candidateSlots, interviewerSlots, requiredDuration * MsPerMinute), now, clock)
    ensures |slots| <= 3
    ensures candidateSlots == [] || interviewerSlots == [] ==> slots == []
    ensures forall k :: 0 <= k < |slots| ==>
      && slots[k].end - slots[k].start == requiredDuration * MsPerMinute
      && 0 <= slots[k].score <= 100
      && IsSlotAvailable(slots[k].start, slots[k].end, candidateSlots, interviewerSlots)
      && exists c, i :: c in candidateSlots && i in interviewerSlots && slots[k].start == Max(c.start, i.start)
    ensures forall j, k :: 0 <= j < k < |slots| ==> slots[j].score >= slots[k].score && slots[j].start != slots[k].start
  {
    var requiredMs := requiredDuration * 60 * 1000;
    assert requiredMs == requiredDuration * MsPerMinute;
    var matches := CollectOverlaps(candidateSlots, interviewerSlots, requiredMs);
    slots := Rank(matches, now, clock);
    MatchingSlotsFacts(candidateSlots, interviewerSlots, requiredMs, now, clock);
  }

  /** The nested loops of `findMatchingSlots`, pushing each pair's proposal in loop order. */
  method CollectOverlaps(candidateSlots: seq<TimeSlot>, interviewerSlots: seq<TimeSlot>, requiredMs: int)
    returns (matches: seq<Match>)
    ensures matches == AllMatches(candidateSlots, interviewerSlots, requiredMs)
  {
    matches := [];
    for ci := 0 to |candidateSlots|
      invariant matches == AllMatches(candidateSlots[..ci], interviewerSlots, requiredMs)
    {
      var candSlot := candidateSlots[ci];
      ghost var done := matches;
      for ii := 0 to |interviewerSlots|
        invariant matches == done + RowMatches(candSlot, interviewerSlots[..ii], requiredMs)
      {
        var intSlot := interviewerSlots[ii];
        ghost var before := matches;
        var overlapStart := Max(candSlot.start, intSlot.start);
        var overlapEnd := Min(candSlot.end, intSlot.end);
        if overlapEnd > overlapStart {
          var overlapDuration := overlapEnd - overlapStart;
          if overlapDuration >= requiredMs {
            var interviewEnd := overlapStart + requiredMs;
            matches := matches + [Match(overlapStart, interviewEnd, overlapDuration)];
          }
        }
        assert matches == before + PairMatch(candSlot, intSlot, requiredMs);
        RowStep(candSlot, interviewerSlots, ii, requiredMs);
        AppendAssoc(done, RowMatches(candSlot, interviewerSlots[..ii], requiredMs), PairMatch(candSlot, intSlot, requiredMs));
      }
      assert interviewerSlots[..|interviewerSlots|] == interviewerSlots;
      assert matches == done + RowMatches(candSlot, interviewerSlots, requiredMs);
      CandidateStep(candidateSlots, interviewerSlots, ci, requiredMs);
    }
    assert candidateSlots[..|candidateSlots|] == candidateSlots;
  }

  lemma MatchingSlotsFacts(cands: seq<TimeSlot>, ints: seq<TimeSlot>, requiredMs: int, now: int, clock: LocalClock)
    ensures |Rank(AllMatches(cands, ints, requiredMs), now, clock)| <= 3
    ensures cands == [] || ints == [] ==> Rank(AllMatches(cands, ints, requiredMs), now, clock) == []
    ensures forall k :: 0 <= k < |Rank(AllMatches(cands, ints, requiredMs), now, clock)| ==>
      var slot := Rank(AllMatches(cands, ints, requiredMs), now, clock)[k];
      && slot.end - slot.start == requiredMs
      && 0 <= slot.score <= 100
      && IsSlotAvailable(slot.start, slot.end, cands, ints)
      && exists c, i :: c in cands && i in ints && slot.start == Max(c.start, i.start)
    ensures forall j, k :: 0 <= j < k < |Rank(AllMatches(cands, ints, requiredMs), now, clock)| ==>
      Rank(AllMatches(cands, ints, requiredMs), now, clock)[j].score >= Rank(AllMatches(cands, ints, requiredMs), now, clock)[k].score &&
      Rank(AllMatches(cands, ints, requiredMs), now, clock)[j].start != Rank(AllMatches(cands, ints, requiredMs), now, clock)[k].start
  {
    var matches := AllMatches(cands, ints, requiredMs);
    RankEntries(matches, now, clock);
    RankOrder(matches, now, clock);
    RankedSlotsComeFromPairs(cands, ints, requiredMs, now, clock);
    if cands == [] || ints == [] {
      if ints == [] {
        RowMatchesOfNoInterviewer(cands, requiredMs);
      }
      assert matches == [];
      assert UniqueByStart(matches) == [];
    }
  }

  /** One turn of the inner loop appends that pair's proposal to the row. */
  lemma RowStep(c: TimeSlot, ints: seq<TimeSlot>, ii: int, requiredMs: int)
    requires 0 <= ii < |ints|
    ensures RowMatches(c, ints[..ii + 1], requiredMs) == RowMatches(c, ints[..ii], requiredMs) + PairMatch(c, ints[ii], requiredMs)
  {
    assert ints[..ii + 1][..ii] == ints[..ii];
  }

  lemma AppendAssoc(a: seq<Match>, b: seq<Match>, c: seq<Match>)
    ensures (a + b) + c == a + (b + c)
  {
  }

  /** One turn of the outer loop appends that candidate slot's row. */
  lemma CandidateStep(cands: seq<TimeSlot>, ints: seq<TimeSlot>, ci: int, requiredMs: int)
    requires 0 <= ci < |cands|
    ensures AllMatches(cands[..ci + 1], ints, requiredMs) == AllMatches(cands[..ci], ints, requiredMs) + RowMatches(cands[ci], ints, requiredMs)
  {
    assert cands[..ci + 1][..ci] == cands[..ci];
  }

  /** Each result lasts the required length, is available to both sides, and starts where some pair's overlap starts. */
  lemma RankedSlotsComeFromPairs(cands: seq<TimeSlot>, ints: seq<TimeSlot>, requiredMs: int, now: int, clock: LocalClock)
    ensures forall k :: 0 <= k < |Rank(AllMatches(cands, ints, requiredMs), now, clock)| ==>
      var slot := Rank(AllMatches(cands, ints, requiredMs), now, clock)[k];
      && slot.end - slot.start == requiredMs
      && 0 <= slot.score <= 100
      && IsSlotAvailable(slot.start, slot.end, cands, ints)
      && exists c, i :: c in cands && i in ints && slot.start == Max(c.start, i.start)
  {
    var matches := AllMatches(cands, ints, requiredMs);
    var slots := Rank(matches, now, clock);
    RankEntries(matches, now, clock);
    UniqueByStartFacts(matches);
    AllMatchesSound(cands, ints, requiredMs);
    forall k | 0 <= k < |slots|
      ensures slots[k].end - slots[k].start == requiredMs
      ensures 0 <= slots[k].score <= 100
      ensures IsSlotAvailable(slots[k].start, slots[k].end, cands, ints)
      ensures exists c, i :: c in cands && i in ints && slots[k].start == Max(c.start, i.start)
    {
      var u :| u in UniqueByStart(matches) && slots[k] == ScoredSlot(u.start, u.end, SlotScore(u, now, clock));
      assert u in matches;
      var c, i :| c in cands && i in ints && FromPair(u, c, i, requiredMs);
      ProposalIsAvailable(u, c, i, cands, ints, requiredMs);
    }
  }

  // ----- Worked examples -----

  const MsPerHour: int := 60 * MsPerMinute

  /** The ranking of a single proposal is that proposal with its score. */
  lemma RankOfOne(m: Match, now: int, clock: LocalClock)
    ensures UniqueByStart([m]) == [m]
    ensures Rank([m], now, clock) == [ScoredSlot(m.start, m.end, SlotScore(m, now, clock))]
  {
    assert UniqueByStart([m]) == [m] by {
      assert FindIndexByStart([m], m.start) == 0;
      assert KeepFirstStarts([m], 0) == [];
    }
    var scored := ScoreAll([m], now, clock);
    assert scored == [ScoredMatch(m, SlotScore(m, now, clock))];
    assert scored[..0] == [];
    assert SortBy(scored, NegatedScore) == scored;
  }

  lemma PairOfSingletons(c: TimeSlot, i: TimeSlot, requiredMs: int)
    ensures AllMatches([c], [i], requiredMs) == PairMatch(c, i, requiredMs)
  {
    assert [c][..0] == [] && [i][..0] == [];
    assert RowMatches(c, [i], requiredMs) == RowMatches(c, [], requiredMs) + PairMatch(c, i, requiredMs);
    assert AllMatches([c], [i], requiredMs) == AllMatches([], [i], requiredMs) + RowMatches(c, [i], requiredMs);
  }

  lemma TwoRows(c1: TimeSlot, c2: TimeSlot, i: TimeSlot, requiredMs: int)
    ensures AllMatches([c1, c2], [i], requiredMs) == PairMatch(c1, i, requiredMs) + PairMatch(c2, i, requiredMs)
  {
    PairOfSingletons(c1, i, requiredMs);
    assert [c1, c2][..1] == [c1] && [i][..0] == [];
    assert RowMatches(c2, [i], requiredMs) == RowMatches(c2, [], requiredMs) + PairMatch(c2, i, requiredMs);
    assert AllMatches([c1, c2], [i], requiredMs) == AllMatches([c1], [i], requiredMs) + RowMatches(c2, [i], requiredMs);
  }

  lemma SecondWithSameStartDropped(m1: Match, m2: Match)
    requires m1.start == m2.start
    ensures UniqueByStart([m1, m2]) == [m1]
  {
    assert FindIndexByStart([m1, m2], m1.start) == 0;
    assert KeepFirstStarts([m1, m2], 0) == [];
    assert KeepFirstStarts([m1, m2], 1) == [m1];
  }

  /** Windows of the same day that do not meet (9-10 and 14-15) give no proposal. */
  lemma DisjointWindowsGiveNothing(day: int, now: int, clock: LocalClock)
    ensures Rank(AllMatches([TimeSlot(day + 9 * MsPerHour, day + 10 * MsPerHour)],
                            [TimeSlot(day + 14 * MsPerHour, day + 15 * MsPerHour)], 30 * MsPerMinute), now, clock) == []
  {
    PairOfSingletons(TimeSlot(day + 9 * MsPerHour, day + 10 * MsPerHour),
                     TimeSlot(day + 14 * MsPerHour, day + 15 * MsPerHour), 30 * MsPerMinute);
    assert UniqueByStart([]) == [];
    assert SortBy(ScoreAll([], now, clock), NegatedScore) == [];
  }

  /**
   * Windows 9-12 and 10-11 on a weekday with a 30-minute interview: the single proposal
   * is 10:00-10:30, scoring 50 + 20 (weekday) + 30 (hour 10) before the lead-time term.
   */
  lemma SimpleMatch(day: int, now: int, clock: LocalClock)
    requires 1 <= clock.weekdayOf(day + 10 * MsPerHour) <= 5 && clock.hourOf(day + 10 * MsPerHour) == 10
    ensures Rank(AllMatches([TimeSlot(day + 9 * MsPerHour, day + 12 * MsPerHour)],
                            [TimeSlot(day + 10 * MsPerHour, day + 11 * MsPerHour)], 30 * MsPerMinute), now, clock)
      == [ScoredSlot(day + 10 * MsPerHour, day + 10 * MsPerHour + 30 * MsPerMinute,
                     Clamp(100 + LeadTimeAdjustment(day + 10 * MsPerHour - now)))]
  {
    var m := Match(day + 10 * MsPerHour, day + 10 * MsPerHour + 30 * MsPerMinute, MsPerHour);
    PairOfSingletons(TimeSlot(day + 9 * MsPerHour, day + 12 * MsPerHour),
                     TimeSlot(day + 10 * MsPerHour, day + 11 * MsPerHour), 30 * MsPerMinute);
    RankOfOne(m, now, clock);
  }

  /**
   * Two candidate windows (-1h..+1h and 0..+3h around `b`) meeting the interviewer window
   * 0..+2h both propose `b`: only the first proposal is kept, with its one-hour overlap
   * and so without the buffer bonus of the second.
   */
  lemma DuplicateStartsCollapse(b: int, now: int, clock: LocalClock)
    ensures Rank(AllMatches([TimeSlot(b - MsPerHour, b + MsPerHour), TimeSlot(b, b + 3 * MsPerHour)],
                            [TimeSlot(b, b + 2 * MsPerHour)], 30 * MsPerMinute), now, clock)
      == [ScoredSlot(b, b + 30 * MsPerMinute, SlotScore(Match(b, b + 30 * MsPerMinute, MsPerHour), now, clock))]
  {
    var c1, c2 := TimeSlot(b - MsPerHour, b + MsPerHour), TimeSlot(b, b + 3 * MsPerHour);
    var i := TimeSlot(b, b + 2 * MsPerHour);
    var m1 := Match(b, b + 30 * MsPerMinute, MsPerHour);
    var m2 := Match(b, b + 30 * MsPerMinute, 2 * MsPerHour);
    TwoRows(c1, c2, i, 30 * MsPerMinute);
    assert PairMatch(c1, i, 30 * MsPerMinute) == [m1];
    assert PairMatch(c2, i, 30 * MsPerMinute) == [m2];
    assert AllMatches([c1, c2], [i], 30 * MsPerMinute) == [m1, m2];
    SecondWithSameStartDropped(m1, m2);
    RankOfOne(m1, now, clock);
    assert Ranked([m1, m2], now, clock) == Ranked([m1], now, clock);
  }

  // ----- mergeTimeSlots -----

  function StartOf(s: TimeSlot): int
  {
    s.start
  }

  /** The loop body: extend the last merged slot when the next one starts no later than its end, else append. */
  function Absorb(merged: seq<TimeSlot>, current: TimeSlot): seq<TimeSlot>
  {
    if merged != [] && current.start <= merged[|merged| - 1].end then
      var lastMerged := merged[|merged| - 1];
      merged[..|merged| - 1] + [TimeSlot(lastMerged.start, Max(lastMerged.end, current.end))]
    else merged + [current]
  }

  /** Merging a sequence already sorted by start, slot by slot. */
  function MergeSorted(sorted: seq<TimeSlot>): seq<TimeSlot>
  {
    if sorted == [] then [] else Absorb(MergeSorted(sorted[..|sorted| - 1]), sorted[|sorted| - 1])
  }

  /** What `mergeTimeSlots` returns: the stable sort by start, then the merge. */
  function Normalized(slots: seq<TimeSlot>): seq<TimeSlot>
  {
    MergeSorted(SortBy(slots, StartOf))
  }

  /** Sorted by start, and each slot ends strictly before the next one starts. */
  ghost predicate Separated(s: seq<TimeSlot>)
  {
    && (forall i, j :: 0 <= i < j < |s| ==> s[i].start <= s[j].start)
    && (forall k :: 0 <= k < |s| - 1 ==> s[k].end < s[k + 1].start)
  }

  /** The instant `t` lies in some slot (slots are half-open, `[start, end)`). */
  ghost predicate Covered(s: seq<TimeSlot>, t: int)
  {
    exists x :: x in s && x.start <= t < x.end
  }

  lemma {:induction false} MergeSortedLength(sorted: seq<TimeSlot>)
    ensures |MergeSorted(sorted)| <= |sorted|
    ensures sorted != [] ==> |MergeSorted(sorted)| >= 1
  {
    if sorted != [] {
      MergeSortedLength(sorted[..|sorted| - 1]);
    }
  }

  /** Each merged slot ends strictly before the next one starts, whatever the input order. */
  lemma {:induction false} MergeSortedGaps(sorted: seq<TimeSlot>)
    ensures forall k :: 0 <= k < |MergeSorted(sorted)| - 1 ==> MergeSorted(sorted)[k].end < MergeSorted(sorted)[k + 1].start
  {
    if sorted != [] {
      MergeSortedGaps(sorted[..|sorted| - 1]);
    }
  }

  /** On sorted input the merged starts are sorted and bounded by the last input start. */
  lemma {:induction false} MergeSortedStarts(sorted: seq<TimeSlot>)
    requires SortedBy(sorted, StartOf)
    ensures forall i, j :: 0 <= i < j < |MergeSorted(sorted)| ==> MergeSorted(sorted)[i].start <= MergeSorted(sorted)[j].start
    ensures forall k :: 0 <= k < |MergeSorted(sorted)| ==> MergeSorted(sorted)[k].start <= sorted[|sorted| - 1].start
  {
    if sorted != [] {
      var init, current := sorted[..|sorted| - 1], sorted[|sorted| - 1];
      SortedInit(sorted, StartOf);
      MergeSortedStarts(init);
      var m := MergeSorted(init);
      if init != [] {
        assert init[|init| - 1].start <= current.start;
      }
      assert forall k :: 0 <= k < |m| ==> m[k].start <= current.start;
      AbsorbStarts(m, current);
    }
  }

  /** Absorbing a slot that starts no earlier than every merged one keeps the starts ordered and bounded by its start. */
  lemma AbsorbStarts(m: seq<TimeSlot>, current: TimeSlot)
    requires forall i, j :: 0 <= i < j < |m| ==> m[i].start <= m[j].start
    requires forall k :: 0 <= k < |m| ==> m[k].start <= current.start
    ensures forall i, j :: 0 <= i < j < |Absorb(m, current)| ==> Absorb(m, current)[i].start <= Absorb(m, current)[j].start
    ensures forall k :: 0 <= k < |Absorb(m, current)| ==> Absorb(m, current)[k].start <= current.start
  {
    var r := Absorb(m, current);
    if m != [] && current.start <= m[|m| - 1].end {
      assert |r| == |m|;
      assert forall k :: 0 <= k < |r| ==> r[k].start == m[k].start;
    } else {
      assert r == m + [current];
    }
  }

  lemma MergeSortedShape(sorted: seq<TimeSlot>)
    requires SortedBy(sorted, StartOf)
    ensures |MergeSorted(sorted)| <= |sorted|
    ensures sorted != [] ==> (|MergeSorted(sorted)| >= 1 &&
      MergeSorted(sorted)[|MergeSorted(sorted)| - 1].start <= sorted[|sorted| - 1].start)
    ensures Separated(MergeSorted(sorted))
  {
    MergeSortedLength(sorted);
    MergeSortedGaps(sorted);
    MergeSortedStarts(sorted);
  }

  lemma {:induction false} MergeSortedCovers(sorted: seq<TimeSlot>, t: int)
    requires SortedBy(sorted, StartOf)
    ensures Covered(MergeSorted(sorted), t) <==> Covered(sorted, t)
  {
    if sorted != [] {
      var init, current := sorted[..|sorted| - 1], sorted[|sorted| - 1];
      var m := MergeSorted(init);
      SortedInit(sorted, StartOf);
      MergeSortedCovers(init, t);
      assert sorted == init + [current];
      CoveredSnoc(init, current, t);
      if m != [] {
        assert init != [];
        MergeSortedStarts(init);
        assert m[|m| - 1].start <= init[|init| - 1].start <= current.start;
      }
      AbsorbCovers(m, current, t);
    }
  }

  /** Absorbing a slot that starts no earlier than the last merged one adds exactly its instants. */
  lemma AbsorbCovers(m: seq<TimeSlot>, current: TimeSlot, t: int)
    requires m != [] ==> m[|m| - 1].start <= current.start
    ensures Covered(Absorb(m, current), t) <==> Covered(m, t) || current.start <= t < current.end
  {
    if m != [] && current.start <= m[|m| - 1].end {
      var lastMerged := m[|m| - 1];
      var grown := TimeSlot(lastMerged.start, Max(lastMerged.end, current.end));
      assert m == m[..|m| - 1] + [lastMerged];
      CoveredSnoc(m[..|m| - 1], lastMerged, t);
      CoveredSnoc(m[..|m| - 1], grown, t);
    } else {
      CoveredSnoc(m, current, t);
    }
  }

  lemma CoveredSnoc(s: seq<TimeSlot>, x: TimeSlot, t: int)
    ensures Covered(s + [x], t) <==> Covered(s, t) || x.start <= t < x.end
  {
    if Covered(s + [x], t) {
      var y :| y in s + [x] && y.start <= t < y.end;
      if y != x {
        assert y in s;
      }
    }
    if Covered(s, t) {
      var y :| y in s && y.start <= t < y.end;
      assert y in s + [x];
    }
    if x.start <= t < x.end {
      assert x in s + [x];
    }
  }

  lemma {:induction false} MergeSortedOfSeparated(s: seq<TimeSlot>)
    requires Separated(s)
    ensures MergeSorted(s) == s
  {
    if s != [] {
      MergeSortedOfSeparated(s[..|s| - 1]);
      assert s == s[..|s| - 1] + [s[|s| - 1]];
    }
  }

  /**
   * The merged output is sorted and separated by gaps (touching slots are merged), is
   * no longer than the input, covers exactly the instants the input covers, and merging
   * it again changes nothing.
   */
  lemma NormalizedFacts(slots: seq<TimeSlot>)
    ensures slots == [] <==> Normalized(slots) == []
    ensures |Normalized(slots)| <= |slots|
    ensures Separated(Normalized(slots))
    ensures forall t :: Covered(Normalized(slots), t) <==> Covered(slots, t)
    ensures Normalized(Normalized(slots)) == Normalized(slots)
  {
    var sorted := SortBy(slots, StartOf);
    SortSorted(slots, StartOf);
    SortPermutes(slots, StartOf);
    MergeSortedShape(sorted);
    forall t ensures Covered(Normalized(slots), t) <==> Covered(slots, t) {
      MergeSortedCovers(sorted, t);
      assert forall x :: x in sorted <==> x in slots by {
        forall x ensures x in sorted <==> x in slots {
          assert x in sorted <==> x in multiset(sorted);
        }
      }
    }
    var m := Normalized(slots);
    assert SortedBy(m, StartOf) by {
      forall i, j | 0 <= i < j < |m| ensures StartOf(m[i]) <= StartOf(m[j]) { }
    }
    SortSortedIsIdentity(m, StartOf);
    MergeSortedOfSeparated(m);
  }

  /** For well-formed slots the output is well formed and pairwise disjoint, with a gap between any two. */
  lemma NormalizedWellFormed(slots: seq<TimeSlot>)
    requires forall k :: 0 <= k < |slots| ==> slots[k].start < slots[k].end
    ensures forall k :: 0 <= k < |Normalized(slots)| ==> Normalized(slots)[k].start < Normalized(slots)[k].end
    ensures forall i, j :: 0 <= i < j < |Normalized(slots)| ==> Normalized(slots)[i].end < Normalized(slots)[j].start
  {
    var sorted := SortBy(slots, StartOf);
    SortKeepsWellFormed(slots);
    MergeSortedWellFormed(sorted);
    MergeSortedGaps(sorted);
    var m := Normalized(slots);
    forall i, j | 0 <= i < j < |m| ensures m[i].end < m[j].start {
      GapsChain(m, i, j);
    }
  }

  lemma SortKeepsWellFormed(slots: seq<TimeSlot>)
    requires forall k :: 0 <= k < |slots| ==> slots[k].start < slots[k].end
    ensures forall k :: 0 <= k < |SortBy(slots, StartOf)| ==> SortBy(slots, StartOf)[k].start < SortBy(slots, StartOf)[k].end
  {
    var sorted := SortBy(slots, StartOf);
    SortPermutes(slots, StartOf);
    forall k | 0 <= k < |sorted| ensures sorted[k].start < sorted[k].end {
      assert sorted[k] in multiset(slots);
    }
  }

  lemma {:induction false} MergeSortedWellFormed(sorted: seq<TimeSlot>)
    requires forall k :: 0 <= k < |sorted| ==> sorted[k].start < sorted[k].end
    ensures forall k :: 0 <= k < |MergeSorted(sorted)| ==> MergeSorted(sorted)[k].start < MergeSorted(sorted)[k].end
  {
    if sorted != [] {
      MergeSortedWellFormed(sorted[..|sorted| - 1]);
    }
  }

  lemma {:induction false} GapsChain(m: seq<TimeSlot>, i: int, j: int)
    requires 0 <= i < j < |m|
    requires forall k :: 0 <= k < |m| ==> m[k].start < m[k].end
    requires forall k :: 0 <= k < |m| - 1 ==> m[k].end < m[k + 1].start
    ensures m[i].end < m[j].start
  {
    if j > i + 1 {
      GapsChain(m, i, j - 1);
    }
  }

  /** Two slots that touch are merged into one. */
  lemma TouchingSlotsMerge(a: int, b: int, c: int)
    requires a < b < c
    ensures Normalized([TimeSlot(a, b), TimeSlot(b, c)]) == [TimeSlot(a, c)]
  {
    var s := [TimeSlot(a, b), TimeSlot(b, c)];
    assert s[..1] == [TimeSlot(a, b)] && s[..1][..0] == [];
    assert SortedBy(s, StartOf);
    SortSortedIsIdentity(s, StartOf);
    assert MergeSorted(s[..1]) == [TimeSlot(a, b)];
    assert MergeSorted(s) == Absorb([TimeSlot(a, b)], TimeSlot(b, c));
  }

  /**
   * `mergeTimeSlots`: sort a copy by start, then fold it, extending the last merged
   * slot when the next one starts no later than its end.
   */
  method MergeTimeSlots(slots: seq<TimeSlot>) returns (merged: seq<TimeSlot>)
    ensures merged == Normalized(slots)
    ensures slots == [] <==> merged == []
    ensures |merged| <= |slots|
    ensures Separated(merged)
    ensures forall t :: Covered(merged, t) <==> Covered(slots, t)
  {
    if |slots| == 0 {
      NormalizedFacts(slots);
      return [];
    }

    var sorted := SortBy(slots, StartOf);
    SortLength(slots, StartOf);
    merged := [sorted[0]];
    MergeStep(sorted, 0);
    assert sorted[..0] == [];

    for i := 1 to |sorted|
      invariant merged == MergeSorted(sorted[..i])
      invariant merged != []
    {
      var current := sorted[i];
      var lastMerged := merged[|merged| - 1];
      ghost var before := merged;
      if current.start <= lastMerged.end {
        merged := merged[..|merged| - 1] + [TimeSlot(lastMerged.start, Max(lastMerged.end, current.end))];
      } else {
        merged := merged + [current];
      }
      assert merged == Absorb(before, current);
      MergeStep(sorted, i);
    }
    assert sorted[..|sorted|] == sorted;
    assert merged == Normalized(slots);
    NormalizedFacts(slots);
  }

  /** One turn of the merge loop: absorbing the next sorted slot, which leaves the result non-empty. */
  lemma MergeStep(sorted: seq<TimeSlot>, i: int)
    requires 0 <= i < |sorted|
    ensures MergeSorted(sorted[..i + 1]) == Absorb(MergeSorted(sorted[..i]), sorted[i])
    ensures MergeSorted(sorted[..i + 1]) != []
  {
    assert sorted[..i + 1][..i] == sorted[..i];
  }
}
