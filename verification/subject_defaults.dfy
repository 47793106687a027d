/** The defaults the `generateSchedule` endpoint of `Timetablecontroller.java`
    applies before scheduling: each subject of the request whose code is not
    stored yet gets three weekly hours when it gives none, and the request's
    department when it names none, and is then stored. Subjects whose code is
    already stored are left as they are. The endpoint is not transactional:
    when the store rejects a subject, the subjects saved before it stay saved
    and no timetable is generated. */
module SubjectDefaults {
  import opened Wrappers
  import opened Entities

  /** The weekly hours a new subject gets when it gives none. */
  const DefaultHours := 3

  /** `findByCode(code) != null`. A null code matches a subject stored
      without a code, as the derived query compares with `is null`. */
  predicate Stored(store: seq<Subject>, code: Option<string>) {
    exists i :: 0 <= i < |store| && store[i].code == code
  }

  /** No two stored subjects share a code: the code column is unique. */
  predicate UniqueCodes(store: seq<Subject>) {
    forall i, j :: 0 <= i < j < |store| ==> store[i].code != store[j].code
  }

  /** The store accepts a subject only with a name, a code and a faculty:
      those columns are not nullable. */
  predicate Savable(s: Subject) {
    s.name.Some? && s.code.Some? && s.faculty.Some?
  }

  /** What the store's columns demand of everything it holds. */
  predicate WellFormedStore(store: seq<Subject>) {
    UniqueCodes(store) && forall i :: 0 <= i < |store| ==> Savable(store[i])
  }

  function WithDefaults(s: Subject, department: Option<string>): Subject {
    s.(hoursPerWeek := if s.hoursPerWeek == 0 then DefaultHours else s.hoursPerWeek,
       department := if s.department.None? then department else s.department)
  }

  /** The loop over the request's subjects. On success: the subjects as the
      scheduler then sees them, and the store afterwards; on a rejected save:
      the store as the subjects saved before it left it. A subject saved
      earlier in the loop counts as stored for the later ones. */
  function SaveNewSubjects(subjects: seq<Subject>, department: Option<string>, store: seq<Subject>)
    : (r: Result<(seq<Subject>, seq<Subject>), seq<Subject>>)
    ensures r.Success? ==> |r.value.0| == |subjects|
    ensures |store| <= |StoreAfter(r)| && StoreAfter(r)[..|store|] == store
    ensures (forall i :: 0 <= i < |subjects| ==> Savable(subjects[i])) ==> r.Success?
  {
    if subjects == [] then Success(([], store))
    else
      var s := subjects[0];
      if Stored(store, s.code) then
        match SaveNewSubjects(subjects[1..], department, store)
        case Failure(partial) => Failure(partial)
        case Success(t) => Success(([s] + t.0, t.1))
      else if !Savable(s) then Failure(store)
      else
        var d := WithDefaults(s, department);
        var t := SaveNewSubjects(subjects[1..], department, store + [d]);
        assert StoreAfter(t)[..|store|] == (store + [d])[..|store|];
        match t
        case Failure(partial) => Failure(partial)
        case Success(t) => Success(([d] + t.0, t.1))
  }

  /** The store after the loop, whether it ran to the end or not. */
  function StoreAfter(r: Result<(seq<Subject>, seq<Subject>), seq<Subject>>): seq<Subject> {
    match r
    case Success(t) => t.1
    case Failure(partial) => partial
  }

  /** The endpoint's first step: the request the scheduler then receives and
      the store afterwards, or the store a rejected save leaves. A request
      without subjects changes nothing. */
  function DefaultRequestSubjects(request: TimetableRequest, store: seq<Subject>)
    : (r: Result<(TimetableRequest, seq<Subject>), seq<Subject>>)
    ensures request.subjects.None? ==> r == Success((request, store))
    ensures r.Success? ==> r.value.0 == request.(subjects := r.value.0.subjects)
  {
    match request.subjects
    case None => Success((request, store))
    case Some(subjects) =>
      match SaveNewSubjects(subjects, request.department, store)
      case Failure(partial) => Failure(partial)
      case Success(t) => Success((request.(subjects := Some(t.0)), t.1))
  }

  // ---------------------------------------------------------------------------
  // Which subjects change
  // ---------------------------------------------------------------------------

  /** Each subject is either left as it was or given the defaults; a subject
      whose code was stored before the loop is always left as it was. */
  lemma {:induction false} SaveNewSubjectsAt(subjects: seq<Subject>, department: Option<string>, store: seq<Subject>, i: nat)
    requires i < |subjects|
    requires SaveNewSubjects(subjects, department, store).Success?
    ensures var r := SaveNewSubjects(subjects, department, store).value.0[i];
            r == subjects[i] || r == WithDefaults(subjects[i], department)
    ensures Stored(store, subjects[i].code) ==> SaveNewSubjects(subjects, department, store).value.0[i] == subjects[i]
  {
    if i > 0 {
      var s := subjects[0];
      var next := if Stored(store, s.code) then store else store + [WithDefaults(s, department)];
      SaveNewSubjectsAt(subjects[1..], department, next, i - 1);
      if Stored(store, subjects[i].code) {
        var k :| 0 <= k < |store| && store[k].code == subjects[i].code;
        assert next[k] == store[k];
      }
    }
  }

  // ---------------------------------------------------------------------------
  // When a save is rejected
  // ---------------------------------------------------------------------------

  /** Subject `i` is the first of its code in the request, its code is not
      stored, and the store would reject it. */
  predicate RejectedAt(subjects: seq<Subject>, store: seq<Subject>, i: nat)
    requires i < |subjects|
  {
    !Savable(subjects[i]) && !Stored(store, subjects[i].code)
    && forall j :: 0 <= j < i ==> subjects[j].code != subjects[i].code
  }

  /** The loop stops on a rejected save exactly when some subject would be
      saved and is rejected. */
  lemma {:induction false} SaveNewSubjectsFails(subjects: seq<Subject>, department: Option<string>, store: seq<Subject>)
    ensures SaveNewSubjects(subjects, department, store).Failure? <==>
              exists i :: 0 <= i < |subjects| && RejectedAt(subjects, store, i)
  {
    if subjects != [] {
      var s := subjects[0];
      var next := if Stored(store, s.code) then store else store + [WithDefaults(s, department)];
      assert Stored(next, s.code) by {
        if !Stored(store, s.code) {
          assert next[|store|].code == s.code;
        }
      }
      if !Stored(store, s.code) && !Savable(s) {
        assert RejectedAt(subjects, store, 0);
      } else {
        var tail := subjects[1..];
        SaveNewSubjectsFails(tail, department, next);
        if SaveNewSubjects(subjects, department, store).Failure? {
          var i :| 0 <= i < |tail| && RejectedAt(tail, next, i);
          assert tail[i] == subjects[i + 1];
          forall k | 0 <= k < |store| ensures store[k].code != tail[i].code {
            assert next[k] == store[k];
          }
          assert subjects[0].code != tail[i].code;
          forall j | 0 <= j < i + 1 ensures subjects[j].code != subjects[i + 1].code {
            if j > 0 {
              assert subjects[j] == tail[j - 1];
            }
          }
          assert RejectedAt(subjects, store, i + 1);
        }
        if exists i :: 0 <= i < |subjects| && RejectedAt(subjects, store, i) {
          var i :| 0 <= i < |subjects| && RejectedAt(subjects, store, i);
          assert i != 0;
          assert subjects[i] == tail[i - 1];
          assert subjects[0].code != subjects[i].code;
          forall k | 0 <= k < |next| ensures next[k].code != tail[i - 1].code {
            if k < |store| {
              assert next[k] == store[k];
            }
          }
          forall j | 0 <= j < i - 1 ensures tail[j].code != tail[i - 1].code {
            assert tail[j] == subjects[j + 1];
          }
          assert RejectedAt(tail, next, i - 1);
        }
      }
    }
  }

  /** A subject without a code is never stored in a well-formed store, so a
      request holding one stops at it or before it. */
  lemma CodelessSubjectFails(subjects: seq<Subject>, department: Option<string>, store: seq<Subject>, i: nat)
    requires WellFormedStore(store) && i < |subjects| && subjects[i].code.None?
    ensures SaveNewSubjects(subjects, department, store).Failure?
  {
    var first := FirstCodeless(subjects, i);
    assert RejectedAt(subjects, store, first);
    SaveNewSubjectsFails(subjects, department, store);
  }

  /** The first subject without a code, at or before `i`. */
  lemma {:induction false} FirstCodeless(subjects: seq<Subject>, i: nat) returns (first: nat)
    requires i < |subjects| && subjects[i].code.None?
    ensures first <= i && subjects[first].code.None?
    ensures forall j :: 0 <= j < first ==> subjects[j].code.Some?
    decreases i
  {
    if j :| 0 <= j < i && subjects[j].code.None? {
      first := FirstCodeless(subjects, j);
    } else {
      first := i;
    }
  }

  // ---------------------------------------------------------------------------
  // The store
  // ---------------------------------------------------------------------------

  /** Every subject saved has weekly hours and, when the request names one, a department. */
  predicate Defaulted(s: Subject, department: Option<string>) {
    s.hoursPerWeek != 0 && (department.Some? ==> s.department.Some?)
  }

  /** Saving a subject whose code is not stored keeps the store well-formed. */
  lemma SaveKeepsWellFormed(store: seq<Subject>, d: Subject)
    requires WellFormedStore(store) && Savable(d) && !Stored(store, d.code)
    ensures WellFormedStore(store + [d])
  {
    var next := store + [d];
    forall i, j | 0 <= i < j < |next| ensures next[i].code != next[j].code {
      if j == |store| {
        assert next[i] == store[i];
      }
    }
  }

  /** The loop, whether it stops or not, keeps the store well-formed. */
  lemma {:induction false} SaveNewSubjectsStore(subjects: seq<Subject>, department: Option<string>, store: seq<Subject>)
    requires WellFormedStore(store)
    ensures WellFormedStore(StoreAfter(SaveNewSubjects(subjects, department, store)))
  {
    if subjects != [] {
      var s := subjects[0];
      if Stored(store, s.code) {
        SaveNewSubjectsStore(subjects[1..], department, store);
      } else if Savable(s) {
        var d := WithDefaults(s, department);
        SaveKeepsWellFormed(store, d);
        SaveNewSubjectsStore(subjects[1..], department, store + [d]);
      }
    }
  }

  /** Each subject the loop adds to the store carries the defaults. */
  lemma {:induction false} SaveNewSubjectsDefaults(subjects: seq<Subject>, department: Option<string>, store: seq<Subject>, k: nat)
    requires var after := StoreAfter(SaveNewSubjects(subjects, department, store));
             |store| <= k < |after|
    ensures Defaulted(StoreAfter(SaveNewSubjects(subjects, department, store))[k], department)
  {
    var s := subjects[0];
    var after := StoreAfter(SaveNewSubjects(subjects, department, store));
    if Stored(store, s.code) {
      SaveNewSubjectsDefaults(subjects[1..], department, store, k);
    } else {
      var next := store + [WithDefaults(s, department)];
      assert after == StoreAfter(SaveNewSubjects(subjects[1..], department, next));
      if k == |store| {
        assert after[k] == next[k];
      } else {
        SaveNewSubjectsDefaults(subjects[1..], department, next, k);
      }
    }
  }

  /** A run that goes through leaves every code of the request stored. */
  lemma {:induction false} SaveNewSubjectsStoresAll(subjects: seq<Subject>, department: Option<string>, store: seq<Subject>, i: nat)
    requires i < |subjects|
    requires SaveNewSubjects(subjects, department, store).Success?
    ensures Stored(SaveNewSubjects(subjects, department, store).value.1, subjects[i].code)
  {
    var s := subjects[0];
    var next := if Stored(store, s.code) then store else store + [WithDefaults(s, department)];
    var after := SaveNewSubjects(subjects, department, store).value.1;
    assert after == SaveNewSubjects(subjects[1..], department, next).value.1;
    if i > 0 {
      SaveNewSubjectsStoresAll(subjects[1..], department, next, i - 1);
    } else if Stored(store, s.code) {
      var k :| 0 <= k < |store| && store[k].code == s.code;
      assert after[k] == store[k];
    } else {
      assert after[|store|] == next[|store|];
    }
  }

  /** When every code is stored already, the loop stores nothing and changes nothing. */
  lemma {:induction false} AllStoredKeepsStore(subjects: seq<Subject>, department: Option<string>, store: seq<Subject>)
    requires forall i :: 0 <= i < |subjects| ==> Stored(store, subjects[i].code)
    ensures SaveNewSubjects(subjects, department, store) == Success((subjects, store))
  {
    if subjects != [] {
      assert Stored(store, subjects[0].code);
      forall i | 0 <= i < |subjects| - 1 ensures Stored(store, subjects[1..][i].code) {
        assert subjects[1..][i] == subjects[i + 1];
      }
      AllStoredKeepsStore(subjects[1..], department, store);
      assert [subjects[0]] + subjects[1..] == subjects;
    }
  }

  /** Sending the same subjects again, after a run that went through, stores
      nothing more and leaves every subject as it was sent. */
  lemma SaveNewSubjectsIdempotent(subjects: seq<Subject>, department: Option<string>, store: seq<Subject>)
    requires SaveNewSubjects(subjects, department, store).Success?
    ensures var after := SaveNewSubjects(subjects, department, store).value.1;
            SaveNewSubjects(subjects, department, after) == Success((subjects, after))
  {
    forall i | 0 <= i < |subjects|
      ensures Stored(SaveNewSubjects(subjects, department, store).value.1, subjects[i].code)
    {
      SaveNewSubjectsStoresAll(subjects, department, store, i);
    }
    AllStoredKeepsStore(subjects, department, SaveNewSubjects(subjects, department, store).value.1);
  }
}
