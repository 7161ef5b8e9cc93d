/**
 * The deterministic parts of the availability parser (backend/src/services/aiParser.js):
 * the check applied to the slot list the language model returned, and the
 * `validateParsedSlots` reasonableness pass.
 *
 * The model call and the JSON extraction are not part of this model; the parsed
 * response is an input. Issue messages embed `toISOString()` text and floating-point
 * minute counts, so issues are tags carrying the timestamp or the duration in ms.
 */
module AiParser {

  import opened Wrappers
  import opened TimeUtils

  const MaxFutureMonths: int := 6
  /** 15 minutes: `durationMinutes < 15` on the exact quotient is `durationMs < 900000`. */
  const MinDurationMs: int := 15 * MsPerMinute
  /** 480 minutes: `durationMinutes > 480` is `durationMs > 28800000`. */
  const MaxDurationMs: int := 480 * MsPerMinute

  // ---------------------------------------------------------------------------
  // validateParsedSlots
  // ---------------------------------------------------------------------------

  datatype Issue =
    | PastStart(start: int)          // "Time slot … is in the past"
    | FarFutureStart(start: int)     // "Time slot … is more than 6 months in the future"
    | ShortDuration(durationMs: int) // "Time slot is too short (… minutes)"
    | LongDuration(durationMs: int)  // "Time slot is too long (… minutes)"

  /** The issues one slot contributes, in the order the four checks run. */
  function SlotIssues(slot: TimeSlot, now: int, maxFutureDate: int): seq<Issue>
  {
    var durationMs := slot.end - slot.start;
    (if slot.start < now then [PastStart(slot.start)] else []) +
    (if slot.start > maxFutureDate then [FarFutureStart(slot.start)] else []) +
    (if durationMs < MinDurationMs then [ShortDuration(durationMs)] else []) +
    (if durationMs > MaxDurationMs then [LongDuration(durationMs)] else [])
  }

  /** The issues of a whole list, accumulated slot by slot. */
  function IssuesOf(slots: seq<TimeSlot>, now: int, maxFutureDate: int): seq<Issue>
  {
    if |slots| == 0 then []
    else IssuesOf(slots[..|slots| - 1], now, maxFutureDate) + SlotIssues(slots[|slots| - 1], now, maxFutureDate)
  }

  /** A slot that raises no issue: it starts within [now, maxFutureDate] and lasts 15 minutes to 8 hours. */
  predicate Reasonable(slot: TimeSlot, now: int, maxFutureDate: int)
  {
    now <= slot.start <= maxFutureDate && MinDurationMs <= slot.end - slot.start <= MaxDurationMs
  }

  /**
   * `validateParsedSlots`, with the wall clock and the six-months-ahead date as parameters.
   * `isValid` is exactly "no issues", which is exactly "every slot is reasonable".
   */
  method ValidateParsedSlots(timeSlots: seq<TimeSlot>, now: int, maxFutureDate: int)
    returns (isValid: bool, issues: seq<Issue>)
    ensures issues == IssuesOf(timeSlots, now, maxFutureDate)
    ensures isValid <==> issues == []
    ensures isValid <==> forall i :: 0 <= i < |timeSlots| ==> Reasonable(timeSlots[i], now, maxFutureDate)
  {
    issues := [];
    for i := 0 to |timeSlots|
      invariant issues == IssuesOf(timeSlots[..i], now, maxFutureDate)
    {
      var slot := timeSlots[i];
      ghost var before := issues;
      ghost var durationMs' := slot.end - slot.start;
      ghost var past := if slot.start < now then [PastStart(slot.start)] else [];
      ghost var far := if slot.start > maxFutureDate then [FarFutureStart(slot.start)] else [];
      ghost var short := if durationMs' < MinDurationMs then [ShortDuration(durationMs')] else [];
      ghost var long := if durationMs' > MaxDurationMs then [LongDuration(durationMs')] else [];
      if slot.start < now {
        issues := issues + [PastStart(slot.start)];
      }
      assert issues == before + past;
      if slot.start > maxFutureDate {
        issues := issues + [FarFutureStart(slot.start)];
      }
      assert issues == before + past + far;
      var durationMs := slot.end - slot.start;
      if durationMs < MinDurationMs {
        issues := issues + [ShortDuration(durationMs)];
      }
      assert issues == before + past + far + short;
      if durationMs > MaxDurationMs {
        issues := issues + [LongDuration(durationMs)];
      }
      assert issues == before + past + far + short + long;
      AppendFour(before, past, far, short, long);
      assert SlotIssues(slot, now, maxFutureDate) == past + far + short + long;
      assert timeSlots[..i + 1][..i] == timeSlots[..i];
    }
    assert timeSlots[..|timeSlots|] == timeSlots;
    isValid := |issues| == 0;
    NoIssuesIffReasonable(timeSlots, now, maxFutureDate);
  }

  lemma AppendFour(x: seq<Issue>, a: seq<Issue>, b: seq<Issue>, c: seq<Issue>, d: seq<Issue>)
    ensures x + a + b + c + d == x + (a + b + c + d)
  {
  }

  /** Each check fires exactly on its condition. */
  lemma SlotIssuesCases(slot: TimeSlot, now: int, maxFutureDate: int)
    ensures PastStart(slot.start) in SlotIssues(slot, now, maxFutureDate) <==> slot.start < now
    ensures FarFutureStart(slot.start) in SlotIssues(slot, now, maxFutureDate) <==> slot.start > maxFutureDate
    ensures ShortDuration(slot.end - slot.start) in SlotIssues(slot, now, maxFutureDate) <==>
      slot.end - slot.start < MinDurationMs
    ensures LongDuration(slot.end - slot.start) in SlotIssues(slot, now, maxFutureDate) <==>
      slot.end - slot.start > MaxDurationMs
    ensures SlotIssues(slot, now, maxFutureDate) == [] <==> Reasonable(slot, now, maxFutureDate)
  {
  }

  /** With a horizon not before `now`, a slot is never both past and too far, nor both short and long. */
  lemma AtMostTwoIssuesPerSlot(slot: TimeSlot, now: int, maxFutureDate: int)
    requires now <= maxFutureDate
    ensures |SlotIssues(slot, now, maxFutureDate)| <= 2
  {
  }

  /** Issues accumulate list by list: those of `a + b` are those of `a` followed by those of `b`. */
  lemma {:induction false} IssuesOfAppend(a: seq<TimeSlot>, b: seq<TimeSlot>, now: int, maxFutureDate: int)
    ensures IssuesOf(a + b, now, maxFutureDate) == IssuesOf(a, now, maxFutureDate) + IssuesOf(b, now, maxFutureDate)
    decreases |b|
  {
    if |b| == 0 {
      assert a + b == a;
    } else {
      var b', last := b[..|b| - 1], b[|b| - 1];
      assert (a + b)[..|a + b| - 1] == a + b';
      assert (a + b)[|a + b| - 1] == last;
      assert IssuesOf(a + b, now, maxFutureDate) == IssuesOf(a + b', now, maxFutureDate) + SlotIssues(last, now, maxFutureDate);
      assert IssuesOf(b, now, maxFutureDate) == IssuesOf(b', now, maxFutureDate) + SlotIssues(last, now, maxFutureDate);
      IssuesOfAppend(a, b', now, maxFutureDate);
    }
  }

  /** The number of issues is at most twice the number of slots when `now <= maxFutureDate`. */
  lemma {:induction false} AtMostTwoIssuesEach(slots: seq<TimeSlot>, now: int, maxFutureDate: int)
    requires now <= maxFutureDate
    ensures |IssuesOf(slots, now, maxFutureDate)| <= 2 * |slots|
    decreases |slots|
  {
    if |slots| > 0 {
      AtMostTwoIssuesEach(slots[..|slots| - 1], now, maxFutureDate);
      AtMostTwoIssuesPerSlot(slots[|slots| - 1], now, maxFutureDate);
    }
  }

  /** A list has no issues exactly when every slot in it is reasonable; in particular `[]` is valid. */
  lemma {:induction false} NoIssuesIffReasonable(slots: seq<TimeSlot>, now: int, maxFutureDate: int)
    ensures IssuesOf(slots, now, maxFutureDate) == [] <==>
      forall i :: 0 <= i < |slots| ==> Reasonable(slots[i], now, maxFutureDate)
    decreases |slots|
  {
    if |slots| > 0 {
      var init := slots[..|slots| - 1];
      NoIssuesIffReasonable(init, now, maxFutureDate);
      SlotIssuesCases(slots[|slots| - 1], now, maxFutureDate);
      if forall i :: 0 <= i < |slots| ==> Reasonable(slots[i], now, maxFutureDate) {
        assert forall i :: 0 <= i < |init| ==> init[i] == slots[i];
      }
      if IssuesOf(slots, now, maxFutureDate) == [] {
        forall i | 0 <= i < |slots|
          ensures Reasonable(slots[i], now, maxFutureDate)
        {
          if i < |init| {
            assert init[i] == slots[i];
          }
        }
      }
    }
  }

  /**
   * The unrounded 15-minute floor here disagrees with the rounded one of
   * `validateTimeSlot`: a 14.5-minute slot is accepted there and flagged here.
   */
  lemma FourteenAndAHalfMinutesIsFlagged(start: int, now: int, maxFutureDate: int)
    requires now <= start <= maxFutureDate
    ensures ValidateTimeSlot(Date(start), Date(start + 870000), now) == Accepted
    ensures SlotIssues(TimeSlot(start, start + 870000), now, maxFutureDate) == [ShortDuration(870000)]
  {
  }

  // ---------------------------------------------------------------------------
  // The post-parse check in parseAvailabilityText
  // ---------------------------------------------------------------------------

  /**
   * One slot of the model's JSON after `new Date(slot.start)` / `new Date(slot.end)`:
   * `None` is a `Date` whose `getTime()` is NaN.
   */
  datatype RawSlot = RawSlot(start: Option<int>, end: Option<int>)

  /**
   * The parsed JSON object. `timeSlots` is `None` when the field is missing, falsy or
   * not an array; `confidence` and `interpretation` are `None` when missing.
   */
  datatype ParsedResponse = ParsedResponse(
    timeSlots: Option<seq<RawSlot>>,
    confidence: Option<real>,
    interpretation: Option<string>)

  datatype ParseError = InvalidStructure | InvalidDateFormat | SlotEndNotAfterStart

  function ParseErrorMessage(e: ParseError): string
  {
    match e
    case InvalidStructure => "Invalid time slots structure from AI"
    case InvalidDateFormat => "Invalid date format in parsed slots"
    case SlotEndNotAfterStart => "End time must be after start time"
  }

  /** What the `.map` callback throws for one slot, if anything: the date check runs first. */
  function RawSlotError(raw: RawSlot): Option<ParseError>
  {
    if raw.start.None? || raw.end.None? then Some(InvalidDateFormat)
    else if raw.end.value <= raw.start.value then Some(SlotEndNotAfterStart)
    else None
  }

  /**
   * The `.map` over the parsed slots: each slot becomes a `{start, end}` pair, and the
   * first slot that fails throws, so nothing after it is looked at.
   */
  function ConvertSlots(raws: seq<RawSlot>): (r: Result<seq<TimeSlot>, ParseError>)
    ensures r.Success? <==> forall i :: 0 <= i < |raws| ==> RawSlotError(raws[i]).None?
    ensures r.Success? ==> |r.value| == |raws|
    ensures r.Success? ==>
      forall i :: 0 <= i < |raws| ==>
        raws[i].start == Some(r.value[i].start) && raws[i].end == Some(r.value[i].end) &&
        r.value[i].start < r.value[i].end
    ensures r.Failure? ==>
      exists k :: (0 <= k < |raws| && RawSlotError(raws[k]) == Some(r.error) &&
        forall i :: 0 <= i < k ==> RawSlotError(raws[i]).None?)
  {
    if |raws| == 0 then Success([])
    else
      match RawSlotError(raws[0])
      case Some(e) => Failure(e)
      case None =>
        var rest := ConvertSlots(raws[1..]);
        if rest.Failure? then
          ghost var k :| 0 <= k < |raws[1..]| && RawSlotError(raws[1..][k]) == Some(rest.error) &&
            forall i :: 0 <= i < k ==> RawSlotError(raws[1..][i]).None?;
          assert RawSlotError(raws[k + 1]) == Some(rest.error);
          Failure(rest.error)
        else
          Success([TimeSlot(raws[0].start.value, raws[0].end.value)] + rest.value)
  }

  /** The object `parseAvailabilityText` returns. */
  datatype ParseOutcome = ParseOutcome(
    timeSlots: seq<TimeSlot>,
    confidence: real,
    interpretation: string,
    parsedByAI: bool,
    error: Option<string>)

  /** The `catch` branch: no slots, zero confidence, and the message twice. */
  function FailureOutcome(message: string): (r: ParseOutcome)
    ensures r.timeSlots == [] && r.confidence == 0.0 && !r.parsedByAI && r.error == Some(message)
    ensures |r.interpretation| == 17 + |message| + 36
    ensures r.interpretation[..17] == "Failed to parse: "
    ensures r.interpretation[17..17 + |message|] == message
    ensures r.interpretation[17 + |message|..] == ". Please use structured time picker."
  {
    ParseOutcome([], 0.0, "Failed to parse: " + message + ". Please use structured time picker.", false, Some(message))
  }

  /** `parsed.confidence || 0.5`: a missing or zero confidence becomes 0.5. */
  function EffectiveConfidence(confidence: Option<real>): (c: real)
    ensures confidence.Some? && confidence.value != 0.0 ==> c == confidence.value
    ensures confidence.None? || confidence.value == 0.0 ==> c == 0.5
  {
    if confidence.Some? && confidence.value != 0.0 then confidence.value else 0.5
  }

  /** `parsed.interpretation || 'Parsed successfully'`: a missing or empty text becomes the default. */
  function EffectiveInterpretation(interpretation: Option<string>): (s: string)
    ensures interpretation.Some? && interpretation.value != "" ==> s == interpretation.value
    ensures interpretation.None? || interpretation.value == "" ==> s == "Parsed successfully"
  {
    if interpretation.Some? && interpretation.value != "" then interpretation.value else "Parsed successfully"
  }

  /** The structure check, the slot conversion and the two ways the result is built. */
  function CheckParsedResponse(parsed: ParsedResponse): ParseOutcome
  {
    if parsed.timeSlots.None? then FailureOutcome(ParseErrorMessage(InvalidStructure))
    else
      match ConvertSlots(parsed.timeSlots.value)
      case Failure(e) => FailureOutcome(ParseErrorMessage(e))
      case Success(slots) =>
        ParseOutcome(slots, EffectiveConfidence(parsed.confidence),
                     EffectiveInterpretation(parsed.interpretation), true, None)
  }

  /**
   * All or nothing: the result is accepted exactly when the list is present and every
   * slot has two valid dates with the end after the start; then it holds every slot in
   * order, with the defaulted confidence and interpretation, and otherwise it holds none, with zero confidence and an error.
   */
  lemma CheckParsedResponseAllOrNothing(parsed: ParsedResponse)
    ensures CheckParsedResponse(parsed).parsedByAI <==>
      parsed.timeSlots.Some? &&
      forall i :: 0 <= i < |parsed.timeSlots.value| ==> RawSlotError(parsed.timeSlots.value[i]).None?
    ensures CheckParsedResponse(parsed).parsedByAI <==> CheckParsedResponse(parsed).error.None?
    ensures !CheckParsedResponse(parsed).parsedByAI ==>
      CheckParsedResponse(parsed).timeSlots == [] && CheckParsedResponse(parsed).confidence == 0.0
    ensures CheckParsedResponse(parsed).parsedByAI ==>
      var slots := CheckParsedResponse(parsed).timeSlots;
      |slots| == |parsed.timeSlots.value| &&
      (forall i :: 0 <= i < |slots| ==>
        parsed.timeSlots.value[i] == RawSlot(Some(slots[i].start), Some(slots[i].end)) &&
        slots[i].start < slots[i].end) &&
      CheckParsedResponse(parsed).confidence == EffectiveConfidence(parsed.confidence) &&
      CheckParsedResponse(parsed).interpretation == EffectiveInterpretation(parsed.interpretation)
  {
  }

  /** A single slot whose end is not after its start rejects the whole list, whatever else it holds. */
  lemma OneBadSlotRejectsAll(before: seq<RawSlot>, start: int, end: int, after: seq<RawSlot>,
                             confidence: Option<real>, interpretation: Option<string>)
    requires end <= start
    ensures var r := CheckParsedResponse(ParsedResponse(Some(before + [RawSlot(Some(start), Some(end))] + after),
                                                        confidence, interpretation));
      r.timeSlots == [] && r.confidence == 0.0 && !r.parsedByAI && r.error.Some?
  {
    var raws := before + [RawSlot(Some(start), Some(end))] + after;
    assert RawSlotError(raws[|before|]).Some?;
  }
}
