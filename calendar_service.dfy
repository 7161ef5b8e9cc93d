/**
 * The calendar-invite helpers (backend/src/services/calendarService.js): the file
 * name of an invite, the `[year, month, day, hour, minute]` arrays the iCalendar
 * library expects, and the event record handed to that library.
 *
 * A `Date` is its timestamp; its local calendar fields come from a `localDateOf`
 * view passed by the caller, in the same way as the local clock of the matcher.
 * The formatted date inside the file name (`format(startTime, 'yyyy-MM-dd')`) is an
 * input. Optional fields of the interview are `None` when missing; the source treats
 * an empty string like a missing one, since both are falsy.
 */
module CalendarService {

  import opened Wrappers
  import opened TimeUtils

  // ---------------------------------------------------------------------------
  // generateCalendarFilename
  // ---------------------------------------------------------------------------

  /** The class `[a-zA-Z0-9]`. */
  predicate IsAsciiAlnum(c: char)
  {
    ('a' <= c <= 'z') || ('A' <= c <= 'Z') || ('0' <= c <= '9')
  }

  /** `replace(/[^a-zA-Z0-9]/g, '_')`: every character outside the class becomes `_`, the rest stay. */
  function SanitizeName(name: string): (safe: string)
    ensures |safe| == |name|
    ensures forall i :: 0 <= i < |name| ==>
      safe[i] == (if IsAsciiAlnum(name[i]) then name[i] else '_')
  {
    if |name| == 0 then ""
    else [if IsAsciiAlnum(name[0]) then name[0] else '_'] + SanitizeName(name[1..])
  }

  /** A sanitised name holds only letters, digits and `_`. */
  lemma SanitizedNameIsSafe(name: string)
    ensures forall i :: 0 <= i < |name| ==> IsAsciiAlnum(SanitizeName(name)[i]) || SanitizeName(name)[i] == '_'
  {
  }

  /** Sanitising is idempotent, and it changes nothing in a name that is already safe. */
  lemma {:induction false} SanitizeIdempotent(name: string)
    ensures SanitizeName(SanitizeName(name)) == SanitizeName(name)
    ensures (forall i :: 0 <= i < |name| ==> IsAsciiAlnum(name[i])) ==> SanitizeName(name) == name
  {
    var once := SanitizeName(name);
    var twice := SanitizeName(once);
    assert forall i :: 0 <= i < |name| ==> twice[i] == once[i];
    if forall i :: 0 <= i < |name| ==> IsAsciiAlnum(name[i]) {
      assert forall i :: 0 <= i < |name| ==> once[i] == name[i];
    }
  }

  /** `interview_${safeName}_${dateStr}.ics`. */
  function GenerateCalendarFilename(candidateName: string, dateStr: string): (f: string)
    ensures |f| == 10 + |candidateName| + 1 + |dateStr| + 4
    ensures f[..10] == "interview_"
    ensures f[10..10 + |candidateName|] == SanitizeName(candidateName)
    ensures f[10 + |candidateName|] == '_'
    ensures f[11 + |candidateName|..11 + |candidateName| + |dateStr|] == dateStr
    ensures f[|f| - 4..] == ".ics"
  {
    var safeName := SanitizeName(candidateName);
    "interview_" + safeName + "_" + dateStr + ".ics"
  }

  /** A character that may appear in the file name when the date text is made of digits and dashes. */
  predicate IsFilenameChar(c: char)
  {
    IsAsciiAlnum(c) || c == '_' || c == '-' || c == '.'
  }

  /** Whatever the candidate is called, the file name holds no separator or other unsafe character. */
  lemma FilenameIsSafe(candidateName: string, dateStr: string)
    requires forall i :: 0 <= i < |dateStr| ==> IsAsciiAlnum(dateStr[i]) || dateStr[i] == '-'
    ensures forall i :: 0 <= i < |GenerateCalendarFilename(candidateName, dateStr)| ==>
      IsFilenameChar(GenerateCalendarFilename(candidateName, dateStr)[i])
  {
    var f := GenerateCalendarFilename(candidateName, dateStr);
    var n := |candidateName|;
    forall i | 0 <= i < |f|
      ensures IsFilenameChar(f[i])
    {
      if i < 10 {
        assert f[i] == f[..10][i];
      } else if i < 10 + n {
        assert f[i] == f[10..10 + n][i - 10];
      } else if i == 10 + n {
      } else if i < 11 + n + |dateStr| {
        assert f[i] == f[11 + n..11 + n + |dateStr|][i - 11 - n];
      } else {
        assert f[i] == f[|f| - 4..][i - (|f| - 4)];
      }
    }
  }

  /** Two names give the same file for a date exactly when they sanitise alike. */
  lemma FilenamesCollideIffSanitisedNamesAgree(name1: string, name2: string, dateStr: string)
    ensures GenerateCalendarFilename(name1, dateStr) == GenerateCalendarFilename(name2, dateStr) <==>
      SanitizeName(name1) == SanitizeName(name2)
  {
    var f1, f2 := GenerateCalendarFilename(name1, dateStr), GenerateCalendarFilename(name2, dateStr);
    if f1 == f2 {
      assert |name1| == |name2|;
      assert f1[10..10 + |name1|] == f2[10..10 + |name2|];
    }
  }

  // ---------------------------------------------------------------------------
  // dateToArray
  // ---------------------------------------------------------------------------

  /** `[getFullYear(), getMonth() + 1, getDate(), getHours(), getMinutes()]`. */
  function DateToArray(d: LocalDate): (a: seq<int>)
    ensures |a| == 5
    ensures 1 <= a[1] <= 12 && 1 <= a[2] <= 31 && 0 <= a[3] <= 23 && 0 <= a[4] <= 59
  {
    [d.year, d.month + 1, d.day, d.hours, d.minutes]
  }

  /** Reads an array in that layout back; the month is shifted back to zero-based. */
  function ArrayToDate(a: seq<int>): (d: Option<LocalDate>)
    ensures d.Some? <==>
      |a| == 5 && 1 <= a[1] <= 12 && 1 <= a[2] <= 31 && 0 <= a[3] <= 23 && 0 <= a[4] <= 59
  {
    if |a| == 5 && 1 <= a[1] <= 12 && 1 <= a[2] <= 31 && 0 <= a[3] <= 23 && 0 <= a[4] <= 59
    then Some(LocalDate(a[0], a[1] - 1, a[2], a[3], a[4]))
    else None
  }

  /** The array loses nothing: the date's fields can be read back from it, and only the month is shifted. */
  lemma DateArrayRoundTrip(d: LocalDate)
    ensures ArrayToDate(DateToArray(d)) == Some(d)
    ensures DateToArray(d)[1] == d.month + 1
    ensures DateToArray(d)[0] == d.year && DateToArray(d)[2] == d.day
    ensures DateToArray(d)[3] == d.hours && DateToArray(d)[4] == d.minutes
  {
  }

  /** And an array in the library's layout is the array of the date read from it. */
  lemma ArrayDateRoundTrip(a: seq<int>)
    requires ArrayToDate(a).Some?
    ensures DateToArray(ArrayToDate(a).value) == a
  {
  }

  // ---------------------------------------------------------------------------
  // The event record of generateCalendarInvite
  // ---------------------------------------------------------------------------

  datatype InterviewDetails = InterviewDetails(
    candidateName: string,
    candidateEmail: string,
    interviewerName: string,
    interviewerEmail: string,
    startTime: int,
    endTime: int,
    meetingLink: Option<string>,
    location: Option<string>,
    interviewType: Option<string>,
    notes: Option<string>)

  datatype Person = Person(name: string, email: string)

  datatype Attendee = Attendee(name: string, email: string, rsvp: bool, partstat: string, role: string)

  datatype Alarm = Alarm(action: string, description: string, triggerMinutes: int, before: bool)

  /** The object passed to `ics.createEvent`. */
  datatype CalendarEvent = CalendarEvent(
    start: seq<int>,
    end: seq<int>,
    title: string,
    description: string,
    location: string,
    status: string,
    busyStatus: string,
    organizer: Person,
    attendees: seq<Attendee>,
    alarms: seq<Alarm>)

  /** A JavaScript truthiness test on an optional string: present and not empty. */
  predicate Truthy(s: Option<string>)
  {
    s.Some? && s.value != ""
  }

  /** `a || b` on optional strings. */
  function OrElse(a: Option<string>, b: string): (r: string)
    ensures Truthy(a) ==> r == a.value
    ensures !Truthy(a) ==> r == b
  {
    if Truthy(a) then a.value else b
  }

  /** `location || meetingLink || 'Virtual Meeting'`. */
  function EventLocation(details: InterviewDetails): (r: string)
    ensures Truthy(details.location) ==> r == details.location.value
    ensures !Truthy(details.location) && Truthy(details.meetingLink) ==> r == details.meetingLink.value
    ensures !Truthy(details.location) && !Truthy(details.meetingLink) ==> r == "Virtual Meeting"
  {
    OrElse(details.location, OrElse(details.meetingLink, "Virtual Meeting"))
  }

  /**
   * The description: the participants, the interview type, a meeting-link line when
   * the link is truthy, a notes line when the notes are, and a closing sentence. The
   * source writes `\\n` inside its template literals, so each line break is the two
   * characters backslash and `n`, which the iCalendar format reads as an escaped newline.
   */
  function Description(details: InterviewDetails): string
  {
    HeaderLine(details) + TypeLine(details) +
    OptionalLine(details.meetingLink, LinkLine) +
    OptionalLine(details.notes, NotesLine) +
    FooterLine
  }

  function HeaderLine(details: InterviewDetails): string
  {
    "Interview between " + details.candidateName + " (Candidate) and " + details.interviewerName +
    " (Interviewer)\\n\\n"
  }

  function TypeLine(details: InterviewDetails): string
  {
    "Type: " + OrElse(details.interviewType, "Technical Interview") + "\\n"
  }

  function LinkLine(meetingLink: string): string
  {
    "\\nMeeting Link: " + meetingLink + "\\n"
  }

  function NotesLine(notes: string): string
  {
    "\\nNotes: " + notes + "\\n"
  }

  /** The line for an optional field, or nothing when the field is falsy. */
  function OptionalLine(field: Option<string>, line: string -> string): string
  {
    if Truthy(field) then line(field.value) else ""
  }

  const FooterLine: string := "\\nThis is an automated calendar invite from Interview Scheduler."

  /** The description, built by successive appends as `generateCalendarInvite` does. */
  method BuildDescription(details: InterviewDetails) returns (description: string)
    ensures description == Description(details)
  {
    description := HeaderLine(details);
    description := description + TypeLine(details);
    if Truthy(details.meetingLink) {
      description := description + LinkLine(details.meetingLink.value);
    }
    if Truthy(details.notes) {
      description := description + NotesLine(details.notes.value);
    }
    description := description + FooterLine;
  }

  /**
   * The event record: the description as built above, and the object literal
   * around it.
   */
  method GenerateCalendarInvite(details: InterviewDetails, localDateOf: int -> LocalDate)
    returns (event: CalendarEvent)
    ensures event.description == Description(details)
    ensures event.start == DateToArray(localDateOf(details.startTime))
    ensures event.end == DateToArray(localDateOf(details.endTime))
    ensures event.title == "Interview: " + details.candidateName + " & " + details.interviewerName
    ensures event.location == EventLocation(details)
    ensures event.status == "CONFIRMED" && event.busyStatus == "BUSY"
    ensures event.organizer == Person(details.interviewerName, details.interviewerEmail)
    ensures event.attendees == [
      Attendee(details.candidateName, details.candidateEmail, true, "NEEDS-ACTION", "REQ-PARTICIPANT"),
      Attendee(details.interviewerName, details.interviewerEmail, true, "ACCEPTED", "REQ-PARTICIPANT")]
    ensures event.alarms == [
      Alarm("display", "Interview reminder", 15, true),
      Alarm("display", "Interview starting soon", 5, true)]
  {
    var start := DateToArray(localDateOf(details.startTime));
    var end := DateToArray(localDateOf(details.endTime));

    var description := BuildDescription(details);

    event := CalendarEvent(
      start, end,
      "Interview: " + details.candidateName + " & " + details.interviewerName,
      description,
      EventLocation(details),
      "CONFIRMED", "BUSY",
      Person(details.interviewerName, details.interviewerEmail),
      [Attendee(details.candidateName, details.candidateEmail, true, "NEEDS-ACTION", "REQ-PARTICIPANT"),
       Attendee(details.interviewerName, details.interviewerEmail, true, "ACCEPTED", "REQ-PARTICIPANT")],
      [Alarm("display", "Interview reminder", 15, true),
       Alarm("display", "Interview starting soon", 5, true)]);
  }

  /** Every description opens with the participants and the type and closes with the automated-invite sentence. */
  lemma DescriptionFrame(details: InterviewDetails)
    ensures var d := Description(details);
      var head := HeaderLine(details) + TypeLine(details);
      |d| >= |head| + |FooterLine| &&
      d[..|head|] == head &&
      d[|d| - |FooterLine|..] == FooterLine
    ensures HeaderLine(details)[..18] == "Interview between "
  {
    var head := HeaderLine(details) + TypeLine(details);
    PrefixAndSuffix(head, OptionalLine(details.meetingLink, LinkLine), OptionalLine(details.notes, NotesLine), FooterLine);
    HeaderLineOpens(details);
  }

  lemma HeaderLineOpens(details: InterviewDetails)
    ensures HeaderLine(details)[..18] == "Interview between "
  {
    var opening := "Interview between ";
    var name := details.candidateName + " (Candidate) and " + details.interviewerName + " (Interviewer)\\n\\n";
    assert |opening| == 18;
    assert HeaderLine(details) == opening + name;
    assert (opening + name)[..18] == opening;
  }

  lemma PrefixAndSuffix(a: string, b: string, c: string, e: string)
    ensures |a + b + c + e| == |a| + |b| + |c| + |e|
    ensures (a + b + c + e)[..|a|] == a
    ensures (a + b + c + e)[|a + b + c + e| - |e|..] == e
  {
    var r := a + b + c + e;
    assert r == a + (b + c + e);
    assert r == (a + b + c) + e;
  }

  /**
   * The meeting-link line is there exactly when the link is truthy: dropping the link
   * changes the description only then, and by exactly that line.
   */
  lemma LinkLineOnlyWhenTruthy(details: InterviewDetails)
    ensures Description(details) == Description(details.(meetingLink := None)) <==> !Truthy(details.meetingLink)
    ensures Truthy(details.meetingLink) ==>
      |Description(details)| == |Description(details.(meetingLink := None))| + |LinkLine(details.meetingLink.value)|
  {
    var without := details.(meetingLink := None);
    assert HeaderLine(without) == HeaderLine(details) && TypeLine(without) == TypeLine(details);
    assert OptionalLine(without.notes, NotesLine) == OptionalLine(details.notes, NotesLine);
    if Truthy(details.meetingLink) {
      assert |LinkLine(details.meetingLink.value)| > 0;
    }
  }

  /** The notes line is there exactly when the notes are truthy. */
  lemma NotesLineOnlyWhenTruthy(details: InterviewDetails)
    ensures Description(details) == Description(details.(notes := None)) <==> !Truthy(details.notes)
    ensures Truthy(details.notes) ==>
      |Description(details)| == |Description(details.(notes := None))| + |NotesLine(details.notes.value)|
  {
    var without := details.(notes := None);
    assert HeaderLine(without) == HeaderLine(details) && TypeLine(without) == TypeLine(details);
    assert OptionalLine(without.meetingLink, LinkLine) == OptionalLine(details.meetingLink, LinkLine);
    if Truthy(details.notes) {
      assert |NotesLine(details.notes.value)| > 0;
    }
  }
}
