/**
 * Time and date helpers of the back end (backend/src/utils/timeUtils.js).
 *
 * A JavaScript `Date` is modelled by its `getTime()` value: an integer number of
 * milliseconds since the epoch. Reading the local weekday and hour (`getDay`,
 * `getHours`) depends on the ambient time zone, so it is a `LocalClock` passed in
 * by the caller; reading the wall clock (`new Date()`) becomes a `now` parameter.
 */
module TimeUtils {

  import opened Wrappers

  const MsPerMinute: int := 60000
  const MsPerDay: int := 86400000

  /** `getDay()`: 0 is Sunday, 6 is Saturday. */
  type Weekday = d: int | 0 <= d <= 6
  /** `getHours()`. */
  type Hour = h: int | 0 <= h <= 23
  type Minute = m: int | 0 <= m <= 59
  /** `getMonth()`: zero-based, 0 is January. */
  type Month0 = m: int | 0 <= m <= 11
  /** `getDate()`. */
  type DayOfMonth = d: int | 1 <= d <= 31 witness 1

  /** The local-time view of instants: what `getDay` and `getHours` return for a timestamp. */
  datatype LocalClock = LocalClock(weekdayOf: int -> Weekday, hourOf: int -> Hour)

  /** The local calendar fields of one `Date` (`getFullYear`, `getMonth`, `getDate`, `getHours`, `getMinutes`). */
  datatype LocalDate = LocalDate(year: int, month: Month0, day: DayOfMonth, hours: Hour, minutes: Minute)

  /** A `{start, end}` pair of timestamps. */
  datatype TimeSlot = TimeSlot(start: int, end: int)

  function Max(a: int, b: int): int { if a >= b then a else b }
  function Min(a: int, b: int): int { if a <= b then a else b }

  /** `Math.round(p / q)` for a positive divisor: the nearest integer, halves rounded up. */
  function RoundQuotient(p: int, q: int): (r: int)
    requires q > 0
    ensures 2 * (r * q) <= 2 * p + q < 2 * (r * q) + 2 * q
  {
    (2 * p + q) / (2 * q)
  }

  /** `isPast`, with the wall clock passed in. */
  predicate IsPast(date: int, now: int)
  {
    date < now
  }

  predicate IsBusinessHours(clock: LocalClock, date: int)
  {
    var hour := clock.hourOf(date);
    hour >= 9 && hour < 18
  }

  predicate IsWeekday(clock: LocalClock, date: int)
  {
    var day := clock.weekdayOf(date);
    day >= 1 && day <= 5
  }

  /** Saturday (6) and Sunday (0) are exactly the days that are not weekdays. */
  lemma WeekdayIsNotWeekend(clock: LocalClock, date: int)
    ensures IsWeekday(clock, date) <==> clock.weekdayOf(date) != 0 && clock.weekdayOf(date) != 6
  {
  }

  function AddMinutes(date: int, minutes: int): (r: int)
    ensures r - date == minutes * MsPerMinute
  {
    date + minutes * 60 * 1000
  }

  /** `Math.round((end - start) / 60000)`: the duration to the nearest whole minute, half a minute rounding up. */
  function GetDurationMinutes(start: int, end: int): (minutes: int)
    ensures minutes * MsPerMinute - 30000 <= end - start < minutes * MsPerMinute + 30000
  {
    RoundQuotient(end - start, 1000 * 60)
  }

  /** Adding whole minutes and measuring the duration back gives those minutes. */
  lemma {:induction false} DurationOfAddMinutes(date: int, minutes: int)
    ensures GetDurationMinutes(date, AddMinutes(date, minutes)) == minutes
  {
    var r := GetDurationMinutes(date, AddMinutes(date, minutes));
    assert r * MsPerMinute - 30000 <= minutes * MsPerMinute < r * MsPerMinute + 30000;
  }

  /** Two slots overlap when each starts before the other ends; touching slots do not overlap. */
  predicate SlotsOverlap(slot1: TimeSlot, slot2: TimeSlot)
  {
    slot1.start < slot2.end && slot2.start < slot1.end
  }

  /** Overlap is symmetric and holds exactly when the intersection window is non-empty. */
  lemma OverlapIsNonEmptyIntersection(a: TimeSlot, b: TimeSlot)
    ensures SlotsOverlap(a, b) == SlotsOverlap(b, a)
    ensures Max(a.start, b.start) < Min(a.end, b.end) ==> SlotsOverlap(a, b)
    ensures a.start < a.end && b.start < b.end && SlotsOverlap(a, b) ==>
      Max(a.start, b.start) < Min(a.end, b.end)
  {
  }

  /**
   * `roundToInterval`: the nearest multiple of the interval (halves rounded up).
   * With a zero interval the source divides by zero and builds an invalid `Date`: `None`.
   */
  function RoundToInterval(date: int, intervalMinutes: int := 15): (r: Option<int>)
    ensures r.None? <==> intervalMinutes == 0
    ensures r.Some? ==> r.value % (intervalMinutes * MsPerMinute) == 0
    ensures r.Some? && intervalMinutes > 0 ==>
      date - intervalMinutes * 30000 < r.value <= date + intervalMinutes * 30000
    ensures r.Some? && intervalMinutes < 0 ==>
      date + intervalMinutes * 30000 <= r.value < date - intervalMinutes * 30000
  {
    var ms := 1000 * 60 * intervalMinutes;
    if ms == 0 then None
    else
      // Math.round(date / ms) with a negative ms is the rounded quotient of the negated operands
      var n := if ms > 0 then RoundQuotient(date, ms) else RoundQuotient(-date, -ms);
      MultipleHasNoRemainder(n, ms);
      assert n * ms == if ms > 0 then n * ms else -(n * -ms);
      Some(n * ms)
  }

  lemma MultipleHasNoRemainder(n: int, m: int)
    requires m != 0
    ensures (n * m) % m == 0
  {
    var b := if m > 0 then m else -m;
    var q, rem := (n * m) / m, (n * m) % m;
    assert n * m == q * m + rem && 0 <= rem < b;
    assert (n - q) * m == rem;
    var x := if m > 0 then n - q else q - n;
    assert x * b == rem;
    if x >= 1 {
      ProductAtLeastFactor(x, b);
    }
  }

  lemma ProductAtLeastFactor(x: int, b: int)
    requires x >= 1 && b > 0
    ensures x * b >= b
  {
  }

  /** A `Date` argument as `validateTimeSlot` sees it: not a `Date` at all, an invalid `Date` (NaN), or a timestamp. */
  datatype DateInput = NotADate | InvalidDate | Date(time: int)

  datatype SlotError =
    | InvalidDateObjects
    | InvalidDateValues
    | EndNotAfterStart
    | StartInPast
    | TooShort
    | TooLong

  datatype SlotCheck = Accepted | Rejected(error: SlotError)

  /** The message text the source returns for each failure. */
  function ErrorMessage(e: SlotError): string
  {
    match e
    case InvalidDateObjects => "Invalid date objects"
    case InvalidDateValues => "Invalid date values"
    case EndNotAfterStart => "End time must be after start time"
    case StartInPast => "Start time cannot be in the past"
    case TooShort => "Time slot must be at least 15 minutes"
    case TooLong => "Time slot cannot exceed 8 hours"
  }

  /**
   * `validateTimeSlot`, with `now` in place of the `isPast` wall-clock read.
   * The checks run in a fixed order and the first failure is returned; the duration
   * bounds are checked on the ROUNDED minutes, so acceptance is exactly
   * 870000 <= end - start < 28830000 (14.5 minutes up to just under 480.5 minutes).
   */
  function ValidateTimeSlot(start: DateInput, end: DateInput, now: int): (r: SlotCheck)
    ensures r == Rejected(InvalidDateObjects) <==> start.NotADate? || end.NotADate?
    ensures r == Rejected(InvalidDateValues) <==>
      !start.NotADate? && !end.NotADate? && (start.InvalidDate? || end.InvalidDate?)
    ensures r == Accepted <==>
      start.Date? && end.Date? && start.time >= now &&
      15 * MsPerMinute - 30000 <= end.time - start.time < 480 * MsPerMinute + 30000
  {
    if start.NotADate? || end.NotADate? then Rejected(InvalidDateObjects)
    else if start.InvalidDate? || end.InvalidDate? then Rejected(InvalidDateValues)
    else if end.time <= start.time then Rejected(EndNotAfterStart)
    else if IsPast(start.time, now) then Rejected(StartInPast)
    else
      var durationMinutes := GetDurationMinutes(start.time, end.time);
      if durationMinutes < 15 then Rejected(TooShort)
      else if durationMinutes > 480 then Rejected(TooLong)
      else Accepted
  }

  /** Each later check fires only when every earlier one passed. */
  lemma ValidateTimeSlotOrder(start: DateInput, end: DateInput, now: int)
    ensures ValidateTimeSlot(start, end, now) == Rejected(EndNotAfterStart) <==>
      start.Date? && end.Date? && end.time <= start.time
    ensures ValidateTimeSlot(start, end, now) == Rejected(StartInPast) <==>
      start.Date? && end.Date? && end.time > start.time && start.time < now
    ensures ValidateTimeSlot(start, end, now) == Rejected(TooShort) <==>
      start.Date? && end.Date? && end.time > start.time && start.time >= now &&
      GetDurationMinutes(start.time, end.time) < 15
    ensures ValidateTimeSlot(start, end, now) == Rejected(TooLong) <==>
      start.Date? && end.Date? && end.time > start.time && start.time >= now &&
      GetDurationMinutes(start.time, end.time) > 480
  {
  }

  /** An accepted slot ends after it starts, does not start in the past and rounds to 15..480 minutes. */
  lemma AcceptedSlotIsReasonable(start: DateInput, end: DateInput, now: int)
    requires ValidateTimeSlot(start, end, now) == Accepted
    ensures start.Date? && end.Date?
    ensures end.time > start.time && start.time >= now
    ensures 15 <= GetDurationMinutes(start.time, end.time) <= 480
  {
  }

  /** Rounding lets a 14.5-minute slot through the 15-minute floor. */
  lemma FourteenAndAHalfMinutesPasses(start: int, now: int)
    requires start >= now
    ensures ValidateTimeSlot(Date(start), Date(start + 870000), now) == Accepted
  {
  }
}
