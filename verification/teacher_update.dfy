/** `updateTeacherAvailability` of `TimetableService.java`: when a teacher
    becomes unavailable, every stored timetable entry naming the teacher is
    handed to a replacement teacher or freed, the subjects taught by the
    teacher change faculty, and the old timetable may be dropped. */
module TeacherUpdate {
  import opened Wrappers
  import opened JavaText
  import opened Entities
  import opened Grid

  /** What the two repositories hold. */
  datatype Store = Store(entries: seq<TimetableEntry>, subjects: seq<Subject>)

  /** The service runs in one transaction, so a null pointer dereference
      rolls back every write and leaves the store as it was. */
  const NullSubjectError := "NullPointerException: a timetable entry has no subject"
  const NullFacultyError := "NullPointerException: a subject has no faculty"

  /** A replacement teacher that is neither null nor empty. */
  predicate HasReplacement(newTeacher: Option<string>) {
    newTeacher.Some? && newTeacher.value != ""
  }

  /** The subject text after the update: an entry naming an unavailable
      teacher has every occurrence of the name replaced by the replacement
      teacher, or becomes a free period when there is none. */
  function RewriteSubject(text: string, teacher: string, available: bool, newTeacher: Option<string>): string {
    if !Contains(text, teacher) || available then text
    else if HasReplacement(newTeacher) then Replace(text, teacher, newTeacher.value)
    else FreePeriod
  }

  /** The loop over the stored entries; `None` when an entry without a
      subject makes `contains` throw. */
  function RewriteEntries(entries: seq<TimetableEntry>, teacher: string, available: bool, newTeacher: Option<string>)
    : (r: Option<seq<TimetableEntry>>)
    ensures r.Some? <==> forall i :: 0 <= i < |entries| ==> entries[i].subject.Some?
    ensures r.Some? ==> |r.value| == |entries|
  {
    if entries == [] then Some([])
    else if entries[0].subject.None? then None
    else match RewriteEntries(entries[1..], teacher, available, newTeacher)
      case None => None
      case Some(rest) =>
        var e := entries[0];
        Some([e.(subject := Some(RewriteSubject(e.subject.value, teacher, available, newTeacher)))] + rest)
  }

  /** The loop over the stored subjects, run only when a replacement teacher
      is given; `None` when a subject without a faculty makes `equals` throw. */
  function ReassignSubjects(subjects: seq<Subject>, teacher: string, newTeacher: string): (r: Option<seq<Subject>>)
    ensures r.Some? <==> forall i :: 0 <= i < |subjects| ==> subjects[i].faculty.Some?
    ensures r.Some? ==> |r.value| == |subjects|
  {
    if subjects == [] then Some([])
    else if subjects[0].faculty.None? then None
    else match ReassignSubjects(subjects[1..], teacher, newTeacher)
      case None => None
      case Some(rest) =>
        var s := subjects[0];
        Some([if s.faculty.value == teacher then s.(faculty := Some(newTeacher)) else s] + rest)
  }

  /** `updateTeacherAvailability(teacher, available, newTeacher, updateOldTimetable)`.
      It fails exactly when an entry has no subject, or when the subjects are
      reassigned and one has no faculty; when it succeeds the entries keep
      their number unless the old timetable is dropped, and the subjects
      keep theirs. */
  function UpdateTeacherAvailability(store: Store, teacher: string, available: bool, newTeacher: Option<string>, updateOldTimetable: bool)
    : (r: Result<Store, string>)
    ensures r.Failure? <==>
              (exists i :: 0 <= i < |store.entries| && store.entries[i].subject.None?)
              || (!available && HasReplacement(newTeacher)
                  && exists i :: 0 <= i < |store.subjects| && store.subjects[i].faculty.None?)
    ensures r.Success? ==>
              |r.value.entries| == (if updateOldTimetable then |store.entries| else 0)
              && |r.value.subjects| == |store.subjects|
  {
    match RewriteEntries(store.entries, teacher, available, newTeacher)
    case None => Failure(NullSubjectError)
    case Some(entries) =>
      var subjects :=
        if !available && HasReplacement(newTeacher) then ReassignSubjects(store.subjects, teacher, newTeacher.value)
        else Some(store.subjects);
      match subjects
      case None => Failure(NullFacultyError)
      case Some(ss) => Success(Store(if updateOldTimetable then entries else [], ss))
  }

  // ---------------------------------------------------------------------------
  // The entries
  // ---------------------------------------------------------------------------

  /** Entry `i` after the loop: only its subject changes, as `RewriteSubject` says. */
  lemma {:induction false} RewriteEntriesAt(entries: seq<TimetableEntry>, teacher: string, available: bool, newTeacher: Option<string>, i: nat)
    requires i < |entries|
    requires RewriteEntries(entries, teacher, available, newTeacher).Some?
    ensures var e := entries[i];
            var r := RewriteEntries(entries, teacher, available, newTeacher).value[i];
            r.day == e.day && r.sessionNumber == e.sessionNumber && r.labFlag == e.labFlag
            && e.subject.Some?
            && r.subject == Some(RewriteSubject(e.subject.value, teacher, available, newTeacher))
  {
    if i > 0 {
      RewriteEntriesAt(entries[1..], teacher, available, newTeacher, i - 1);
    }
  }

  /** An entry that does not name the teacher is left exactly as it was, and
      so is every entry while the teacher stays available. */
  lemma RewriteKeepsOthers(entries: seq<TimetableEntry>, teacher: string, available: bool, newTeacher: Option<string>, i: nat)
    requires i < |entries|
    requires RewriteEntries(entries, teacher, available, newTeacher).Some?
    requires available || !Contains(entries[i].subject.value, teacher)
    ensures RewriteEntries(entries, teacher, available, newTeacher).value[i] == entries[i]
  {
    RewriteEntriesAt(entries, teacher, available, newTeacher, i);
  }

  /** Without a replacement teacher, an unavailable teacher disappears from
      the timetable: every entry either never named them or is now free. */
  lemma FreedTeacherDisappears(entries: seq<TimetableEntry>, teacher: string, newTeacher: Option<string>, i: nat)
    requires i < |entries| && !HasReplacement(newTeacher)
    requires RewriteEntries(entries, teacher, false, newTeacher).Some?
    ensures var r := RewriteEntries(entries, teacher, false, newTeacher).value[i];
            r.subject.Some? && (r.subject.value == FreePeriod || !Contains(r.subject.value, teacher))
  {
    RewriteEntriesAt(entries, teacher, false, newTeacher, i);
  }

  /** Handing the lessons of a teacher to the same teacher changes nothing. */
  lemma SelfReplacementKeepsEntries(entries: seq<TimetableEntry>, teacher: string, i: nat)
    requires i < |entries| && teacher != ""
    requires RewriteEntries(entries, teacher, false, Some(teacher)).Some?
    ensures RewriteEntries(entries, teacher, false, Some(teacher)).value[i] == entries[i]
  {
    RewriteEntriesAt(entries, teacher, false, Some(teacher), i);
    ReplaceWithItself(entries[i].subject.value, teacher);
  }

  // ---------------------------------------------------------------------------
  // The subjects
  // ---------------------------------------------------------------------------

  /** Subject `i` after the loop: the teacher's subjects now name the
      replacement, and every other subject is unchanged. */
  lemma {:induction false} ReassignSubjectsAt(subjects: seq<Subject>, teacher: string, newTeacher: string, i: nat)
    requires i < |subjects|
    requires ReassignSubjects(subjects, teacher, newTeacher).Some?
    ensures var s := subjects[i];
            var r := ReassignSubjects(subjects, teacher, newTeacher).value[i];
            (s.faculty == Some(teacher) ==> r == s.(faculty := Some(newTeacher)))
            && (s.faculty != Some(teacher) ==> r == s)
  {
    if i > 0 {
      ReassignSubjectsAt(subjects[1..], teacher, newTeacher, i - 1);
    }
  }

  /** After the reassignment no subject is taught by the old teacher, unless
      the replacement is the old teacher. */
  lemma ReassignRemovesTeacher(subjects: seq<Subject>, teacher: string, newTeacher: string, i: nat)
    requires i < |subjects| && newTeacher != teacher
    requires ReassignSubjects(subjects, teacher, newTeacher).Some?
    ensures ReassignSubjects(subjects, teacher, newTeacher).value[i].faculty != Some(teacher)
  {
    ReassignSubjectsAt(subjects, teacher, newTeacher, i);
  }

  // ---------------------------------------------------------------------------
  // The whole update
  // ---------------------------------------------------------------------------

  /** While the teacher stays available, a successful update changes no
      subject, and changes no entry unless it drops the old timetable. */
  lemma AvailableKeepsStore(store: Store, teacher: string, newTeacher: Option<string>)
    requires UpdateTeacherAvailability(store, teacher, true, newTeacher, true).Success?
    ensures UpdateTeacherAvailability(store, teacher, true, newTeacher, true).value == store
  {
    var es := RewriteEntries(store.entries, teacher, true, newTeacher).value;
    forall i | 0 <= i < |store.entries| ensures es[i] == store.entries[i] {
      RewriteKeepsOthers(store.entries, teacher, true, newTeacher, i);
    }
  }
}
