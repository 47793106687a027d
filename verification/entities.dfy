/** The persisted records of the scheduler: subjects, timetable entries,
    faculty preferences, and the request a timetable is generated from.
    Every reference-typed Java field is an `Option`, `None` standing for null. */
module Entities {
  import opened Wrappers
  import opened JavaText

  /** The five teaching days both scheduling engines use, in order. */
  const Weekdays: seq<string> := ["Monday", "Tuesday", "Wednesday", "Thursday", "Friday"]

  lemma WeekdaysDistinct()
    ensures forall a, b :: 0 <= a < b < |Weekdays| ==> Weekdays[a] != Weekdays[b]
  {
  }

  // ---------------------------------------------------------------------------
  // Subject
  // ---------------------------------------------------------------------------

  datatype Subject = Subject(
    name: Option<string>,
    code: Option<string>,
    faculty: Option<string>,
    hoursPerWeek: int,
    labRequired: bool,
    department: Option<string>,
    available: bool,
    alternateFaculty: Option<string>)

  /** `new Subject()`: every reference null, numbers zero, and `available`
      true from its field initialiser. */
  function NewSubject(): (s: Subject)
    ensures s.name.None? && s.code.None? && s.faculty.None?
    ensures s.department.None? && s.alternateFaculty.None?
    ensures s.hoursPerWeek == 0 && !s.labRequired && s.available
  {
    Subject(None, None, None, 0, false, None, true, None)
  }

  /** The six-argument constructor: the given fields, `available` true and
      no alternate faculty. */
  function SubjectOf(name: Option<string>, code: Option<string>, faculty: Option<string>,
                     hoursPerWeek: int, labRequired: bool, department: Option<string>): (s: Subject)
    ensures s.name == name && s.code == code && s.faculty == faculty
    ensures s.hoursPerWeek == hoursPerWeek && s.labRequired == labRequired
    ensures s.department == department
    ensures s.available && s.alternateFaculty.None?
  {
    Subject(name, code, faculty, hoursPerWeek, labRequired, department, true, None)
  }

  /** A code is blank when it is null or nothing is left of it after `trim`. */
  predicate CodeIsBlank(code: Option<string>) {
    code.None? || Trim(code.value) == ""
  }

  /** The code generated from a name: its regex whitespace removed, upper-cased. */
  function AutoCode(name: string): (c: string)
    ensures |c| <= |name|
    ensures forall k :: 0 <= k < |c| ==> !IsRegexSpace(c[k]) && !('a' <= c[k] <= 'z')
  {
    ToUpperAscii(RemoveWhitespace(name))
  }

  /** `Subject.setName`: the name is always replaced; a blank code is replaced
      by the code generated from the new name. Generating a code from a null
      name throws a `NullPointerException`. */
  function SetName(s: Subject, name: Option<string>): (r: Result<Subject, string>)
    ensures r.Success? <==> name.Some? || !CodeIsBlank(s.code)
    ensures r.Success? ==> r.value.name == name
    ensures r.Success? && !CodeIsBlank(s.code) ==> r.value.code == s.code
    ensures r.Success? && CodeIsBlank(s.code) ==>
              r.value.code == Some(AutoCode(name.value)) && |r.value.code.value| <= |name.value|
    ensures r.Success? ==> r.value == s.(name := name, code := r.value.code)
  {
    if !CodeIsBlank(s.code) then Success(s.(name := name))
    else if name.None? then Failure("NullPointerException")
    else Success(s.(name := name, code := Some(AutoCode(name.value))))
  }

  /** Code generation works character by character: the code of a
      concatenation is the codes of its parts, one after the other. */
  lemma AutoCodeAppend(a: string, b: string)
    ensures AutoCode(a + b) == AutoCode(a) + AutoCode(b)
  {
    RemoveWhitespaceAppend(a, b);
    ToUpperAsciiAppend(RemoveWhitespace(a), RemoveWhitespace(b));
  }

  /** A whitespace character contributes nothing to a code, and any other
      character contributes itself upper-cased. */
  lemma AutoCodeChar(c: char)
    ensures AutoCode([c]) == if IsRegexSpace(c) then [] else [UpperAscii(c)]
  {
    RemoveWhitespaceChar(c);
  }

  /** `Subject.setCode`: the code is overwritten, blank or not. */
  function SetCode(s: Subject, code: Option<string>): (r: Subject)
    ensures r.code == code
    ensures r == s.(code := code)
  {
    s.(code := code)
  }

  /** A generated code is already in generated form: generating again changes nothing. */
  lemma AutoCodeIdempotent(name: string)
    ensures AutoCode(AutoCode(name)) == AutoCode(name)
  {
    var c := AutoCode(name);
    RemoveWhitespaceKeepsClean(c);
    var u := ToUpperAscii(c);
    assert |u| == |c|;
    forall k | 0 <= k < |c| ensures u[k] == c[k] {
      assert !('a' <= c[k] <= 'z');
    }
  }

  /** Text without regex whitespace passes through whitespace removal unchanged. */
  lemma {:induction false} RemoveWhitespaceKeepsClean(s: string)
    requires forall k :: 0 <= k < |s| ==> !IsRegexSpace(s[k])
    ensures RemoveWhitespace(s) == s
  {
    if s != [] {
      RemoveWhitespaceKeepsClean(s[1..]);
      assert s == [s[0]] + s[1..];
    }
  }

  /** A name with at least one visible character generates a non-blank code. */
  lemma AutoCodeOfVisibleName(name: string, k: nat)
    requires k < |name| && name[k] > ' '
    ensures !CodeIsBlank(Some(AutoCode(name)))
  {
    var w := RemoveWhitespace(name);
    assert !IsRegexSpace(name[k]);
    assert name[k] in w;
    var m :| 0 <= m < |w| && w[m] == name[k];
    assert AutoCode(name)[m] == UpperAscii(name[k]) > ' ';
  }

  /** Setting the same name twice is the same as setting it once. */
  lemma SetNameIdempotent(s: Subject, name: string)
    ensures SetName(s, Some(name)).Success?
    ensures SetName(SetName(s, Some(name)).value, Some(name)) == SetName(s, Some(name))
  {
    if CodeIsBlank(s.code) {
      AutoCodeIdempotent(name);
    }
  }

  /** Once a non-blank code is set, `setName` and `setCode` can be applied in either order. */
  lemma SetNameSetCodeCommute(s: Subject, name: string, code: string)
    requires !CodeIsBlank(Some(code))
    ensures SetName(SetCode(s, Some(code)), Some(name))
         == Success(SetCode(SetName(s, Some(name)).value, Some(code)))
  {
  }

  // ---------------------------------------------------------------------------
  // TimetableEntry
  // ---------------------------------------------------------------------------

  /** One (day, session) cell of a stored timetable. `labFlag` is the stored
      `isLabSession` column, which nothing in the scheduler sets. */
  datatype TimetableEntry = TimetableEntry(
    day: Option<string>,
    sessionNumber: int,
    subject: Option<string>,
    labFlag: bool)

  const MinSession := 1
  const MaxSession := 11
  const SessionRangeMessage := "Session number must be between 1 and 11"

  /** `new TimetableEntry()`: the lab flag starts false from its field initialiser. */
  function NewEntry(): (e: TimetableEntry)
    ensures e.day.None? && e.subject.None? && e.sessionNumber == 0 && !e.labFlag
  {
    TimetableEntry(None, 0, None, false)
  }

  /** The three-argument constructor, which stores the session number without
      a range check and sets the lab flag to false. */
  function EntryOf(day: Option<string>, sessionNumber: int, subject: Option<string>): (e: TimetableEntry)
    ensures e.day == day && e.sessionNumber == sessionNumber && e.subject == subject
    ensures !e.labFlag
  {
    TimetableEntry(day, sessionNumber, subject, false)
  }

  /** `setSessionNumber`: stores `n` when it is a valid session number and
      otherwise throws, leaving the entry as it was. */
  function SetSessionNumber(e: TimetableEntry, n: int): (r: Result<TimetableEntry, string>)
    ensures r.Success? <==> MinSession <= n <= MaxSession
    ensures r.Success? ==> r.value.sessionNumber == n && r.value == e.(sessionNumber := n)
    ensures r.Failure? ==> r.error == SessionRangeMessage
  {
    if n < 1 || n > 11 then Failure(SessionRangeMessage)
    else Success(e.(sessionNumber := n))
  }

  /** Two successful settings in a row keep only the later number. */
  lemma SetSessionNumberTwice(e: TimetableEntry, m: int, n: int)
    requires SetSessionNumber(e, m).Success?
    ensures SetSessionNumber(SetSessionNumber(e, m).value, n).Success?
         == SetSessionNumber(e, n).Success?
    ensures SetSessionNumber(e, n).Success? ==>
              SetSessionNumber(SetSessionNumber(e, m).value, n) == SetSessionNumber(e, n)
  {
  }

  /** `isLabSession()`: derived from the subject text, independent of the stored flag. */
  predicate IsLabSession(e: TimetableEntry) {
    e.subject.Some? && Contains(e.subject.value, "Lab")
  }

  /** An entry is a lab session exactly when its subject has "Lab" at some position. */
  lemma IsLabSessionIffOccurs(e: TimetableEntry)
    ensures IsLabSession(e) <==> e.subject.Some? && exists i :: OccursAt(e.subject.value, "Lab", i)
  {
    if e.subject.Some? {
      ContainsIffOccurs(e.subject.value, "Lab");
    }
  }

  // ---------------------------------------------------------------------------
  // FacultyPreference and TimetableRequest
  // ---------------------------------------------------------------------------

  datatype FacultyPreference = FacultyPreference(
    faculty: Option<string>,
    preferredDays: Option<seq<string>>,
    preferredTime: Option<seq<string>>)

  /** The two-argument constructor, which leaves the preferred times null. */
  function PreferenceOf(faculty: Option<string>, preferredDays: Option<seq<string>>): (p: FacultyPreference)
    ensures p.faculty == faculty && p.preferredDays == preferredDays && p.preferredTime.None?
  {
    FacultyPreference(faculty, preferredDays, None)
  }

  /** The body of a timetable generation request. `desiredFreePeriods` is read
      by the grid engine although the request class does not declare it; a
      request that omits it reads as null. */
  datatype TimetableRequest = TimetableRequest(
    department: Option<string>,
    semester: Option<string>,
    maxSessionsPerDay: Option<int>,
    subjects: Option<seq<Subject>>,
    facultyPreferences: Option<seq<FacultyPreference>>,
    availableTimeSlots: Option<seq<string>>,
    breakTimes: Option<seq<string>>,
    desiredFreePeriods: Option<int>)
}
