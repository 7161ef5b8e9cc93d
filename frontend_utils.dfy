/**
 * The date helpers of the front end (frontend/lib/utils.ts): the value of a
 * `datetime-local` input field, and the rounded duration of a slot.
 *
 * A `Date` is given by its local calendar fields (for `toDateTimeLocal`) or by its
 * timestamp (for `getDurationMinutes`); parsing a string argument with `new Date`
 * is not part of this model.
 */
module FrontendUtils {

  import opened TimeUtils

  // ---------------------------------------------------------------------------
  // Decimal text: String(n) and padStart
  // ---------------------------------------------------------------------------

  predicate IsDigit(c: char)
  {
    '0' <= c <= '9'
  }

  function DigitChar(d: int): (c: char)
    requires 0 <= d <= 9
    ensures IsDigit(c) && c as int - '0' as int == d
  {
    (('0' as int) + d) as char
  }

  /** The value of a string of decimal digits, most significant first. */
  function DigitsValue(s: string): int
    requires forall i :: 0 <= i < |s| ==> IsDigit(s[i])
  {
    if |s| == 0 then 0
    else 10 * DigitsValue(s[..|s| - 1]) + (s[|s| - 1] as int - '0' as int)
  }

  function Pow10(k: nat): (p: int)
    ensures p >= 1
  {
    if k == 0 then 1 else 10 * Pow10(k - 1)
  }

  /** `String(n)` for a non-negative integer: its decimal digits, with no leading zero. */
  function NatToString(n: nat): (s: string)
    ensures |s| >= 1
    ensures forall i :: 0 <= i < |s| ==> IsDigit(s[i])
    ensures |s| > 1 ==> s[0] != '0'
    ensures Pow10(|s| - 1) <= n || n == 0
    ensures n < Pow10(|s|)
  {
    if n < 10 then [DigitChar(n)]
    else NatToString(n / 10) + [DigitChar(n % 10)]
  }

  /** Reading the digits back gives the number. */
  lemma {:induction false} NatToStringRoundTrip(n: nat)
    ensures DigitsValue(NatToString(n)) == n
  {
    if n >= 10 {
      var s := NatToString(n / 10);
      NatToStringRoundTrip(n / 10);
      assert (s + [DigitChar(n % 10)])[..|s|] == s;
    }
  }

  /** The number of digits is fixed by the decade the number lies in. */
  lemma {:induction false} NatToStringLength(n: nat, k: nat)
    requires k >= 1 && Pow10(k - 1) <= n < Pow10(k)
    ensures |NatToString(n)| == k
  {
    var s := NatToString(n);
    if |s| < k {
      PowMonotone(|s|, k - 1);
    } else if |s| > k {
      PowMonotone(k, |s| - 1);
    }
  }

  lemma {:induction false} PowMonotone(a: nat, b: nat)
    requires a <= b
    ensures Pow10(a) <= Pow10(b)
    decreases b - a
  {
    if a < b {
      PowMonotone(a + 1, b);
    }
  }

  /** `String(n)` for any integer: a minus sign before the digits of a negative number. */
  function IntToString(n: int): (s: string)
    ensures n >= 0 ==> s == NatToString(n)
    ensures n < 0 ==> |s| >= 2 && s[0] == '-' && s[1..] == NatToString(-n)
  {
    if n < 0 then "-" + NatToString(-n) else NatToString(n)
  }

  /** `s.padStart(width, fill)` with a one-character fill. */
  function PadStart(s: string, width: nat, fill: char): (r: string)
    ensures |r| == if |s| >= width then |s| else width
    ensures r[|r| - |s|..] == s
    ensures forall i :: 0 <= i < |r| - |s| ==> r[i] == fill
  {
    if |s| >= width then s else seq(width - |s|, _ => fill) + s
  }

  /** `String(n).padStart(2, '0')`. */
  function Pad2(n: nat): string
  {
    PadStart(NatToString(n), 2, '0')
  }

  /** Below 100 the padded field is exactly two digits, with a leading `0` exactly below 10, and it reads back as `n`. */
  lemma Pad2Facts(n: nat)
    requires n < 100
    ensures |Pad2(n)| == 2
    ensures IsDigit(Pad2(n)[0]) && IsDigit(Pad2(n)[1])
    ensures Pad2(n)[0] == '0' <==> n < 10
    ensures DigitsValue(Pad2(n)) == n
  {
    var s := NatToString(n);
    NatToStringRoundTrip(n);
    if n < 10 {
      assert Pad2(n) == ['0', DigitChar(n)];
      assert Pad2(n)[..1] == ['0'];
    } else {
      assert Pow10(2) == 10 * Pow10(1) && Pow10(1) == 10 * Pow10(0);
      NatToStringLength(n, 2);
      assert Pad2(n) == s;
    }
  }

  // ---------------------------------------------------------------------------
  // toDateTimeLocal
  // ---------------------------------------------------------------------------

  /** `${year}-${month}-${day}T${hours}:${minutes}`, the month one-based and every field but the year padded to two digits. */
  function ToDateTimeLocal(d: LocalDate): (r: string)
    ensures |r| == |IntToString(d.year)| + 12
    ensures r[..|IntToString(d.year)|] == IntToString(d.year)
  {
    var year := IntToString(d.year);
    var month := Pad2(d.month + 1);
    var day := Pad2(d.day);
    var hours := Pad2(d.hours);
    var minutes := Pad2(d.minutes);
    Pad2Facts(d.month + 1);
    Pad2Facts(d.day);
    Pad2Facts(d.hours);
    Pad2Facts(d.minutes);
    var rest := "-" + month + "-" + day + "T" + hours + ":" + minutes;
    assert |rest| == 12;
    year + rest
  }

  /** The fields of a `yyyy-MM-ddTHH:mm` text, as numbers, the month still one-based. */
  datatype Fields = Fields(year: int, month: int, day: int, hours: int, minutes: int)

  predicate DigitsAt(s: string, from: int, to: int)
    requires 0 <= from <= to <= |s|
  {
    forall i :: from <= i < to ==> IsDigit(s[i])
  }

  /** Reading a 16-character `yyyy-MM-ddTHH:mm` text back into its numbers. */
  function ReadDateTimeLocal(s: string): (f: Fields)
    requires |s| == 16 && DigitsAt(s, 0, 4) && DigitsAt(s, 5, 7) && DigitsAt(s, 8, 10) &&
             DigitsAt(s, 11, 13) && DigitsAt(s, 14, 16)
    ensures 0 <= f.year <= 9999 && 0 <= f.month <= 99 && 0 <= f.day <= 99
  {
    DigitsBound(s[..4]);
    DigitsBound(s[5..7]);
    DigitsBound(s[8..10]);
    Fields(DigitsValue(s[..4]), DigitsValue(s[5..7]), DigitsValue(s[8..10]),
           DigitsValue(s[11..13]), DigitsValue(s[14..16]))
  }

  lemma {:induction false} DigitsBound(s: string)
    requires forall i :: 0 <= i < |s| ==> IsDigit(s[i])
    ensures 0 <= DigitsValue(s) < Pow10(|s|)
  {
    if |s| > 0 {
      DigitsBound(s[..|s| - 1]);
    }
  }

  /**
   * For a four-digit year the text is 16 characters long, with the separators at
   * fixed places, and every field reads back: the month as the zero-based month plus 1.
   */
  lemma ToDateTimeLocalRoundTrip(d: LocalDate)
    requires 1000 <= d.year <= 9999
    ensures var r := ToDateTimeLocal(d);
      |r| == 16 && r[4] == '-' && r[7] == '-' && r[10] == 'T' && r[13] == ':' &&
      DigitsAt(r, 0, 4) && DigitsAt(r, 5, 7) && DigitsAt(r, 8, 10) && DigitsAt(r, 11, 13) && DigitsAt(r, 14, 16) &&
      ReadDateTimeLocal(r) == Fields(d.year, d.month + 1, d.day, d.hours, d.minutes)
  {
    var year := NatToString(d.year);
    assert Pow10(4) == 10 * Pow10(3) && Pow10(3) == 10 * Pow10(2);
    assert Pow10(2) == 10 * Pow10(1) && Pow10(1) == 10 * Pow10(0);
    NatToStringLength(d.year, 4);
    NatToStringRoundTrip(d.year);
    var month, day, hours, minutes := Pad2(d.month + 1), Pad2(d.day), Pad2(d.hours), Pad2(d.minutes);
    Pad2Facts(d.month + 1);
    Pad2Facts(d.day);
    Pad2Facts(d.hours);
    Pad2Facts(d.minutes);
    assert ToDateTimeLocal(d) == year + ("-" + month + "-" + day + "T" + hours + ":" + minutes);
    LayoutOfFields(year, month, day, hours, minutes);
    ReadBackFields(ToDateTimeLocal(d), year, month, day, hours, minutes);
  }

  /** Where the five fields and the four separators of the text lie when the fields have their usual widths. */
  lemma LayoutOfFields(year: string, month: string, day: string, hours: string, minutes: string)
    requires |year| == 4 && |month| == 2 && |day| == 2 && |hours| == 2 && |minutes| == 2
    ensures var r := year + ("-" + month + "-" + day + "T" + hours + ":" + minutes);
      |r| == 16 && r[4] == '-' && r[7] == '-' && r[10] == 'T' && r[13] == ':' &&
      r[..4] == year && r[5..7] == month && r[8..10] == day && r[11..13] == hours && r[14..16] == minutes
  {
    var r := year + ("-" + month + "-" + day + "T" + hours + ":" + minutes);
    assert r == year + ("-" + (month + ("-" + (day + ("T" + (hours + (":" + minutes)))))));
  }

  /** The digits of the five fields, read off a text that holds them at their places. */
  lemma ReadBackFields(r: string, year: string, month: string, day: string, hours: string, minutes: string)
    requires |r| == 16
    requires r[..4] == year && r[5..7] == month && r[8..10] == day && r[11..13] == hours && r[14..16] == minutes
    requires forall i :: 0 <= i < 4 ==> IsDigit(year[i])
    requires IsDigit(month[0]) && IsDigit(month[1]) && IsDigit(day[0]) && IsDigit(day[1])
    requires IsDigit(hours[0]) && IsDigit(hours[1]) && IsDigit(minutes[0]) && IsDigit(minutes[1])
    ensures DigitsAt(r, 0, 4) && DigitsAt(r, 5, 7) && DigitsAt(r, 8, 10) && DigitsAt(r, 11, 13) && DigitsAt(r, 14, 16)
    ensures ReadDateTimeLocal(r) ==
      Fields(DigitsValue(year), DigitsValue(month), DigitsValue(day), DigitsValue(hours), DigitsValue(minutes))
  {
    assert forall i :: 0 <= i < 4 ==> r[i] == r[..4][i];
    assert r[5] == r[5..7][0] && r[6] == r[5..7][1];
    assert r[8] == r[8..10][0] && r[9] == r[8..10][1];
    assert r[11] == r[11..13][0] && r[12] == r[11..13][1];
    assert r[14] == r[14..16][0] && r[15] == r[14..16][1];
  }

  /** The month field lies in `01`..`12`. */
  lemma MonthFieldRange(d: LocalDate)
    requires 1000 <= d.year <= 9999
    ensures var r := ToDateTimeLocal(d);
      |r| == 16 && DigitsAt(r, 5, 7) && 1 <= DigitsValue(r[5..7]) <= 12
  {
    ToDateTimeLocalRoundTrip(d);
  }

  // ---------------------------------------------------------------------------
  // getDurationMinutes
  // ---------------------------------------------------------------------------

  /** `Math.round((end - start) / 60000)`; it agrees with the back end's helper of the same name. */
  function GetDurationMinutes(start: int, end: int): (minutes: int)
    ensures minutes == TimeUtils.GetDurationMinutes(start, end)
  {
    var m := (end - start + 30000) / 60000;
    var b := TimeUtils.GetDurationMinutes(start, end);
    assert m * 60000 - 30000 <= end - start < m * 60000 + 30000;
    m
  }
}
