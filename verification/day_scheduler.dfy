/** The deterministic backtracking scheduler of `Timetableservice.java`: for
    each weekday it marks the break slots, fills every other slot by a
    depth-first search under a per-day cap, an hours cap and the faculty's
    preferred days, and renders the day as timetable entries. */
module DayScheduler {
  import opened Wrappers
  import opened JavaText
  import opened Choice
  import opened Entities

  const DefaultMaxSessions := 2
  const DefaultHours := 3
  const BreakText := "BREAK"
  const FreeText := "Free Period"

  /** The time slots used when the request gives none. */
  const DefaultTimeSlots: seq<string> := [
    "8:45am - 9:45am", "9:45am - 10:15am", "10:15am - 11:00am",
    "11:30am - 12:15pm", "12:15pm - 1:00pm", "1:00pm - 1:45pm",
    "2:30pm - 3:15pm", "3:15pm - 4:00pm", "4:00pm - 4:45pm"]

  /** The break slots used when the request gives none. */
  const DefaultBreaks: seq<string> := ["10:15am - 11:00am", "1:00pm - 1:45pm"]

  /** Sessions placed so far today, per subject code (a null code is a key too). */
  type Counts = map<Option<string>, int>

  /** The subject placed in each slot of the day, `None` for an empty or break slot. */
  type Assignment = seq<Option<Subject>>

  /** What stays fixed during one day's search. */
  datatype Day = Day(
    isBreak: seq<bool>,
    subjects: seq<Subject>,
    maxSessions: int,
    day: string,
    prefs: map<Option<string>, FacultyPreference>)

  // ---------------------------------------------------------------------------
  // Request defaults
  // ---------------------------------------------------------------------------

  /** The daily cap per subject: the request's value, or two when it gives none. */
  function MaxSessionsOf(req: TimetableRequest): (cap: int)
    ensures req.maxSessionsPerDay.None? ==> cap == DefaultMaxSessions
    ensures req.maxSessionsPerDay.Some? ==> cap == req.maxSessionsPerDay.value
  {
    req.maxSessionsPerDay.GetOr(DefaultMaxSessions)
  }

  /** The request's time slots, or the defaults when they are null or empty. */
  function TimeSlotsOf(req: TimetableRequest): (slots: seq<string>)
    ensures slots == DefaultTimeSlots || (req.availableTimeSlots.Some? && slots == req.availableTimeSlots.value)
    ensures slots != []
  {
    if req.availableTimeSlots.Some? && req.availableTimeSlots.value != [] then req.availableTimeSlots.value
    else DefaultTimeSlots
  }

  /** The request's break labels, or the defaults when they are null or empty. */
  function BreaksOf(req: TimetableRequest): (breaks: seq<string>)
    ensures breaks == DefaultBreaks || (req.breakTimes.Some? && breaks == req.breakTimes.value)
    ensures breaks != []
  {
    if req.breakTimes.Some? && req.breakTimes.value != [] then req.breakTimes.value
    else DefaultBreaks
  }

  /** A subject with no hours given is scheduled as a three-hour subject. */
  function WithDefaultHours(s: Subject): (r: Subject)
    ensures r.hoursPerWeek == if s.hoursPerWeek == 0 then DefaultHours else s.hoursPerWeek
    ensures r == s.(hoursPerWeek := r.hoursPerWeek)
  {
    if s.hoursPerWeek == 0 then s.(hoursPerWeek := DefaultHours) else s
  }

  function DefaultAllHours(subjects: seq<Subject>): (r: seq<Subject>)
    ensures |r| == |subjects|
    ensures forall k :: 0 <= k < |r| ==> r[k] == WithDefaultHours(subjects[k])
  {
    seq(|subjects|, k requires 0 <= k < |subjects| => WithDefaultHours(subjects[k]))
  }

  function CodesOf(subjects: seq<Subject>): set<Option<string>> {
    set s | s in subjects :: s.code
  }

  /** Every subject code starts the day at zero. */
  function ZeroCounts(subjects: seq<Subject>): (counts: Counts)
    ensures CodesTracked(subjects, counts)
    ensures forall c :: c in counts ==> counts[c] == 0
  {
    map c | c in CodesOf(subjects) :: 0
  }

  /** The position of the last preference for faculty `f`, or -1 when there is none. */
  function LastFor(prefs: seq<FacultyPreference>, f: Option<string>): (k: int)
    ensures -1 <= k < |prefs|
    ensures k >= 0 ==> prefs[k].faculty == f
    ensures forall j :: k < j < |prefs| ==> prefs[j].faculty != f
  {
    if prefs == [] then -1
    else if prefs[|prefs| - 1].faculty == f then |prefs| - 1
    else LastFor(prefs[..|prefs| - 1], f)
  }

  /** The preferences keyed by faculty, built by `put` in list order, so a
      later preference for the same faculty replaces an earlier one. */
  function PreferenceMap(prefs: seq<FacultyPreference>): (m: map<Option<string>, FacultyPreference>)
  {
    if prefs == [] then map[]
    else
      var last := prefs[|prefs| - 1];
      PreferenceMap(prefs[..|prefs| - 1])[last.faculty := last]
  }

  /** The map holds, for each faculty that has a preference, the last one given. */
  lemma {:induction false} PreferenceMapLastWins(prefs: seq<FacultyPreference>, f: Option<string>)
    ensures f in PreferenceMap(prefs) <==> LastFor(prefs, f) >= 0
    ensures f in PreferenceMap(prefs) ==> PreferenceMap(prefs)[f] == prefs[LastFor(prefs, f)]
  {
    if prefs != [] {
      PreferenceMapLastWins(prefs[..|prefs| - 1], f);
    }
  }

  // ---------------------------------------------------------------------------
  // Breaks
  // ---------------------------------------------------------------------------

  /** A slot is a break when its trimmed label equals some trimmed break label, ignoring case. */
  predicate IsBreakSlot(slot: string, breaks: seq<string>) {
    exists k :: 0 <= k < |breaks| && EqualsIgnoreCase(Trim(breaks[k]), Trim(slot))
  }

  /** The scan `breakSlots.stream().anyMatch(...)`, from the first break label on. */
  function AnyBreakMatches(slot: string, breaks: seq<string>): (b: bool)
    ensures b <==> IsBreakSlot(slot, breaks)
  {
    if breaks == [] then false
    else
      assert forall k :: 1 <= k < |breaks| ==> breaks[1..][k - 1] == breaks[k];
      EqualsIgnoreCase(Trim(breaks[0]), Trim(slot)) || AnyBreakMatches(slot, breaks[1..])
  }

  function BreakMask(slots: seq<string>, breaks: seq<string>): (mask: seq<bool>)
    ensures |mask| == |slots|
    ensures forall i :: 0 <= i < |slots| ==> (mask[i] <==> IsBreakSlot(slots[i], breaks))
  {
    seq(|slots|, i requires 0 <= i < |slots| => AnyBreakMatches(slots[i], breaks))
  }

  // ---------------------------------------------------------------------------
  // Candidates for one slot
  // ---------------------------------------------------------------------------

  predicate CodesTracked(subjects: seq<Subject>, counts: Counts) {
    forall s :: s in subjects ==> s.code in counts
  }

  /** Today passes the faculty's preferred-day filter: no preference, no day
      list, or a day list that names today. */
  predicate DayAllowed(d: Day, s: Subject) {
    s.faculty !in d.prefs
    || d.prefs[s.faculty].preferredDays.None?
    || d.day in d.prefs[s.faculty].preferredDays.value
  }

  /** The subject's code is below both its weekly hours and the daily cap. */
  predicate UnderCaps(d: Day, counts: Counts, s: Subject) {
    s.code in counts && counts[s.code] < s.hoursPerWeek && counts[s.code] < d.maxSessions
  }

  /** The subjects that pass both stream filters, in list order. */
  function Admissible(d: Day, counts: Counts, subjects: seq<Subject>): (cands: seq<Subject>)
    ensures forall s :: s in cands <==> s in subjects && DayAllowed(d, s) && UnderCaps(d, counts, s)
  {
    if subjects == [] then []
    else
      var s := subjects[0];
      (if DayAllowed(d, s) && UnderCaps(d, counts, s) then [s] else []) + Admissible(d, counts, subjects[1..])
  }

  /** The candidates of a slot: the day's subjects allowed today and below both caps. */
  function Candidates(d: Day, counts: Counts): (cands: seq<Subject>)
    ensures forall s :: s in cands <==> s in d.subjects && DayAllowed(d, s) && UnderCaps(d, counts, s)
  {
    Admissible(d, counts, d.subjects)
  }

  /** The faculty of `s` differs from the previous teaching slot's faculty,
      or there is no previous faculty. */
  predicate Differs(prevFaculty: Option<string>, s: Subject) {
    prevFaculty.None? || prevFaculty != s.faculty
  }

  function CountOf(counts: Counts, code: Option<string>): int {
    if code in counts then counts[code] else 0
  }

  /** The pool of candidates the search orders: those whose faculty differs
      from the previous one, or all of them when none does. */
  function Pool(cands: seq<Subject>, prevFaculty: Option<string>): seq<Subject> {
    var preferred := Differing(cands, prevFaculty);
    if preferred == [] then cands else preferred
  }

  /** The candidates whose faculty differs from `prevFaculty`, in order. */
  function Differing(cands: seq<Subject>, prevFaculty: Option<string>): (r: seq<Subject>)
    ensures forall s :: s in r <==> s in cands && Differs(prevFaculty, s)
  {
    if cands == [] then []
    else (if Differs(prevFaculty, cands[0]) then [cands[0]] else []) + Differing(cands[1..], prevFaculty)
  }

  /** Puts `s` in front of the first subject with a count not smaller, so
      that `s` stays ahead of subjects with an equal count. */
  function InsertByCount(s: Subject, xs: seq<Subject>, counts: Counts): seq<Subject> {
    if xs == [] || CountOf(counts, s.code) <= CountOf(counts, xs[0].code) then [s] + xs
    else [xs[0]] + InsertByCount(s, xs[1..], counts)
  }

  /** `sort(Comparator.comparingInt(counts::get))`: a stable insertion sort by today's count. */
  function SortByCount(xs: seq<Subject>, counts: Counts): seq<Subject> {
    if xs == [] then [] else InsertByCount(xs[0], SortByCount(xs[1..], counts), counts)
  }

  predicate SortedByCount(xs: seq<Subject>, counts: Counts) {
    forall i, j :: 0 <= i < j < |xs| ==> CountOf(counts, xs[i].code) <= CountOf(counts, xs[j].code)
  }

  /** The sort key: today's count of a subject's code. */
  function CountKey(counts: Counts): Subject -> int {
    (s: Subject) => CountOf(counts, s.code)
  }

  /** The search's insertion is the general one, keyed by today's count. */
  lemma {:induction false} InsertByCountIsInsert(s: Subject, xs: seq<Subject>, counts: Counts)
    ensures InsertByCount(s, xs, counts) == Insert(s, xs, CountKey(counts))
  {
    if xs != [] && CountOf(counts, s.code) > CountOf(counts, xs[0].code) {
      InsertByCountIsInsert(s, xs[1..], counts);
    }
  }

  /** The search's sort is the general stable sort, keyed by today's count. */
  lemma {:induction false} SortByCountIsSortBy(xs: seq<Subject>, counts: Counts)
    ensures SortByCount(xs, counts) == SortBy(xs, CountKey(counts))
  {
    if xs != [] {
      SortByCountIsSortBy(xs[1..], counts);
      InsertByCountIsInsert(xs[0], SortByCount(xs[1..], counts), counts);
    }
  }

  /** The sort is a permutation of its input, in ascending order of today's
      count, and stable: subjects with equal counts keep their input order. */
  lemma SortByCountSpec(xs: seq<Subject>, counts: Counts)
    ensures multiset(SortByCount(xs, counts)) == multiset(xs)
    ensures SortedByCount(SortByCount(xs, counts), counts)
    ensures forall v :: WithKey(SortByCount(xs, counts), CountKey(counts), v) == WithKey(xs, CountKey(counts), v)
  {
    var key := CountKey(counts);
    var r := SortByCount(xs, counts);
    SortByCountIsSortBy(xs, counts);
    SortBySpec(xs, key);
    forall i, j | 0 <= i < j < |r| ensures CountOf(counts, r[i].code) <= CountOf(counts, r[j].code) {
      assert key(r[i]) <= key(r[j]);
    }
  }

  /** The order in which the search tries the candidates of a slot: the pool,
      stably sorted by today's count. */
  function Ordered(cands: seq<Subject>, counts: Counts, prevFaculty: Option<string>): (r: seq<Subject>)
    ensures forall s :: s in r ==> s in cands
  {
    var r := SortByCount(Pool(cands, prevFaculty), counts);
    SortByCountSpec(Pool(cands, prevFaculty), counts);
    SameMembers(r, Pool(cands, prevFaculty));
    r
  }

  /** The order puts candidates with fewer sessions today first; it keeps
      every candidate whose faculty differs from the previous slot's and,
      when there is one, only those; when there is none, it keeps all. */
  lemma OrderedSpec(cands: seq<Subject>, counts: Counts, prevFaculty: Option<string>)
    ensures var r := Ordered(cands, counts, prevFaculty);
            SortedByCount(r, counts)
            && multiset(r) == multiset(Pool(cands, prevFaculty))
            && (forall s :: s in r ==> s in cands)
            && (forall s :: s in cands && Differs(prevFaculty, s) ==> s in r)
            && ((exists s :: s in cands && Differs(prevFaculty, s)) ==> forall s :: s in r ==> Differs(prevFaculty, s))
            && ((forall s :: s in cands ==> !Differs(prevFaculty, s)) ==> forall s :: s in cands ==> s in r)
  {
    var preferred := Differing(cands, prevFaculty);
    var pool := Pool(cands, prevFaculty);
    var r := Ordered(cands, counts, prevFaculty);
    SortByCountSpec(pool, counts);
    SameMembers(r, pool);
    if preferred != [] {
      assert preferred[0] in preferred;
    }
    if exists s :: s in cands && Differs(prevFaculty, s) {
      var t :| t in cands && Differs(prevFaculty, t);
      assert t in preferred;
    }
  }

  /** The last slot before `index` that is not a break, or -1 when there is none. */
  function PrevTeaching(isBreak: seq<bool>, index: int): (p: int)
    requires 0 <= index <= |isBreak|
    ensures -1 <= p < index
    ensures p >= 0 ==> !isBreak[p]
    ensures forall k :: p < k < index ==> isBreak[k]
    decreases index
  {
    if index == 0 then -1
    else if isBreak[index - 1] then PrevTeaching(isBreak, index - 1)
    else index - 1
  }

  function PrevFaculty(d: Day, asg: Assignment, index: nat): Option<string>
    requires |asg| == |d.isBreak| && index <= |asg|
  {
    var p := PrevTeaching(d.isBreak, index);
    if p >= 0 && asg[p].Some? then asg[p].value.faculty else None
  }

  // ---------------------------------------------------------------------------
  // The search
  // ---------------------------------------------------------------------------

  datatype Search = Search(found: bool, asg: Assignment, counts: Counts)

  /** `backtrackAssign(index, ...)`: fills the slots from `index` on. */
  function Backtrack(d: Day, index: nat, asg: Assignment, counts: Counts): (r: Search)
    requires |asg| == |d.isBreak| && index <= |asg|
    requires CodesTracked(d.subjects, counts)
    ensures |r.asg| == |asg| && CodesTracked(d.subjects, r.counts)
    decreases |d.isBreak| - index, 1
  {
    if index >= |asg| then Search(true, asg, counts)
    else if d.isBreak[index] then Backtrack(d, index + 1, asg, counts)
    else TryEach(d, index, asg, counts, Ordered(Candidates(d, counts), counts, PrevFaculty(d, asg, index)))
  }

  /** The loop over the ordered candidates of slot `index`: place one, search
      on, and on failure take it back out before trying the next. */
  function TryEach(d: Day, index: nat, asg: Assignment, counts: Counts, cands: seq<Subject>): (r: Search)
    requires |asg| == |d.isBreak| && index < |asg|
    requires CodesTracked(d.subjects, counts)
    requires forall s :: s in cands ==> s in d.subjects
    ensures |r.asg| == |asg| && CodesTracked(d.subjects, r.counts)
    decreases |d.isBreak| - index, 0, |cands|
  {
    if cands == [] then Search(false, asg, counts)
    else
      var s := cands[0];
      var r := Backtrack(d, index + 1, asg[index := Some(s)], counts[s.code := counts[s.code] + 1]);
      if r.found then r
      else TryEach(d, index, r.asg[index := None], r.counts[s.code := r.counts[s.code] - 1], cands[1..])
  }

  // ---------------------------------------------------------------------------
  // What the search guarantees
  // ---------------------------------------------------------------------------

  /** Number of slots holding a subject with code `c`. */
  function CodeCount(asg: Assignment, c: Option<string>): (n: nat)
    ensures n <= |asg|
  {
    if asg == [] then 0
    else (if asg[0].Some? && asg[0].value.code == c then 1 else 0) + CodeCount(asg[1..], c)
  }

  lemma CodeCountCons(asg: Assignment, i: nat, j: nat, c: Option<string>)
    requires i < j <= |asg|
    ensures CodeCount(asg[i..j], c)
         == (if asg[i].Some? && asg[i].value.code == c then 1 else 0) + CodeCount(asg[i + 1..j], c)
  {
    assert asg[i..j][1..] == asg[i + 1..j];
  }

  predicate EmptyFrom(asg: Assignment, index: nat) {
    forall j :: index <= j < |asg| ==> asg[j].None?
  }

  /** The subject in slot `j` was admissible when it was placed: one of the
      day's subjects, allowed today, and below both caps counting the
      sessions placed before it. */
  predicate PlacedWithinCaps(d: Day, counts: Counts, asg: Assignment, index: nat, j: nat)
    requires index <= j < |asg| && asg[j].Some?
  {
    var s := asg[j].value;
    s in d.subjects && DayAllowed(d, s) && s.code in counts
    && counts[s.code] + CodeCount(asg[index..j], s.code) < s.hoursPerWeek
    && counts[s.code] + CodeCount(asg[index..j], s.code) < d.maxSessions
  }

  /** The contract of the search from slot `index` on. */
  predicate Sound(d: Day, index: nat, asg: Assignment, counts: Counts, r: Search)
    requires |asg| == |d.isBreak| && index <= |asg|
  {
    |r.asg| == |asg| && r.asg[..index] == asg[..index]
    && (!r.found ==> r.asg == asg && r.counts == counts)
    && (r.found ==>
          (forall j :: index <= j < |asg| ==> (r.asg[j].Some? <==> !d.isBreak[j]))
          && (forall j :: index <= j < |asg| && r.asg[j].Some? ==> PlacedWithinCaps(d, counts, r.asg, index, j))
          && (forall c :: c in counts ==> c in r.counts && r.counts[c] == counts[c] + CodeCount(r.asg[index..], c)))
  }

  /** On success every slot from `index` on is a filled teaching slot or an
      empty break, each placement respected the caps and the preferred days,
      and the counts record exactly the placements; on failure nothing changed. */
  lemma {:induction false} BacktrackSound(d: Day, index: nat, asg: Assignment, counts: Counts)
    requires |asg| == |d.isBreak| && index <= |asg|
    requires CodesTracked(d.subjects, counts)
    requires EmptyFrom(asg, index)
    ensures Sound(d, index, asg, counts, Backtrack(d, index, asg, counts))
    decreases |d.isBreak| - index, 1
  {
    var r := Backtrack(d, index, asg, counts);
    if index >= |asg| {
      assert r.asg[index..] == [];
    } else if d.isBreak[index] {
      BacktrackSound(d, index + 1, asg, counts);
      if r.found {
        BreakLift(d, index, asg, counts, r);
      }
    } else {
      var cands := Ordered(Candidates(d, counts), counts, PrevFaculty(d, asg, index));
      TryEachSound(d, index, asg, counts, cands);
    }
  }

  lemma {:induction false} TryEachSound(d: Day, index: nat, asg: Assignment, counts: Counts, cands: seq<Subject>)
    requires |asg| == |d.isBreak| && index < |asg| && !d.isBreak[index]
    requires CodesTracked(d.subjects, counts)
    requires EmptyFrom(asg, index)
    requires forall s :: s in cands ==> s in d.subjects && DayAllowed(d, s) && UnderCaps(d, counts, s)
    ensures Sound(d, index, asg, counts, TryEach(d, index, asg, counts, cands))
    decreases |d.isBreak| - index, 0, |cands|
  {
    if cands != [] {
      var s := cands[0];
      var asg1 := asg[index := Some(s)];
      var counts1 := counts[s.code := counts[s.code] + 1];
      assert EmptyFrom(asg1, index + 1);
      BacktrackSound(d, index + 1, asg1, counts1);
      var r := Backtrack(d, index + 1, asg1, counts1);
      TryEachUnfold(d, index, asg, counts, cands, s, counts1, r);
      if r.found {
        TryEachLift(d, index, asg, counts, s, r);
        assert TryEach(d, index, asg, counts, cands) == r;
      } else {
        FailedTurnRestores(d, index, asg, counts, s, r);
        TryEachSound(d, index, asg, counts, cands[1..]);
        assert TryEach(d, index, asg, counts, cands) == TryEach(d, index, asg, counts, cands[1..]);
      }
    }
  }

  /** One turn of the candidate loop, as the function takes it. */
  lemma TryEachUnfold(d: Day, index: nat, asg: Assignment, counts: Counts, cands: seq<Subject>,
                       s: Subject, counts1: Counts, r: Search)
    requires |asg| == |d.isBreak| && index < |asg|
    requires CodesTracked(d.subjects, counts)
    requires cands != [] && forall x :: x in cands ==> x in d.subjects
    requires s == cands[0] && counts1 == counts[s.code := counts[s.code] + 1]
    requires CodesTracked(d.subjects, counts1)
    requires r == Backtrack(d, index + 1, asg[index := Some(s)], counts1)
    ensures TryEach(d, index, asg, counts, cands)
         == if r.found then r
            else TryEach(d, index, r.asg[index := None], r.counts[s.code := r.counts[s.code] - 1], cands[1..])
  {
  }

  /** A failed turn of the loop, once its placement is taken back out, leaves
      the slots and the counts exactly as the turn found them. */
  lemma FailedTurnRestores(d: Day, index: nat, asg: Assignment, counts: Counts, s: Subject, r: Search)
    requires |asg| == |d.isBreak| && index < |asg| && asg[index].None? && s.code in counts
    requires !r.found && Sound(d, index + 1, asg[index := Some(s)], counts[s.code := counts[s.code] + 1], r)
    ensures r.asg[index := None] == asg && r.counts[s.code := r.counts[s.code] - 1] == counts
  {
    UndoRestores(asg, counts, index, s);
  }

  /** A successful search from `index + 1` is one from `index` when slot
      `index` is a break left empty. */
  lemma BreakLift(d: Day, index: nat, asg: Assignment, counts: Counts, r: Search)
    requires |asg| == |d.isBreak| && index < |asg| && d.isBreak[index]
    requires EmptyFrom(asg, index)
    requires r.found
    requires Sound(d, index + 1, asg, counts, r)
    ensures Sound(d, index, asg, counts, r)
  {
    assert r.asg[..index + 1] == asg[..index + 1];
    assert r.asg[index] == asg[index];
    forall c | c in counts ensures r.counts[c] == counts[c] + CodeCount(r.asg[index..], c) {
      CodeCountCons(r.asg, index, |asg|, c);
      assert r.asg[index..|asg|] == r.asg[index..];
      assert r.asg[index + 1..|asg|] == r.asg[index + 1..];
    }
    forall j | index <= j < |asg| && r.asg[j].Some?
      ensures PlacedWithinCaps(d, counts, r.asg, index, j)
    {
      assert j > index;
      assert PlacedWithinCaps(d, counts, r.asg, index + 1, j);
      CodeCountCons(r.asg, index, j, r.asg[j].value.code);
    }
  }

  /** Taking a placement back out restores the slot and the count. */
  lemma UndoRestores(asg: Assignment, counts: Counts, index: nat, s: Subject)
    requires index < |asg| && asg[index].None? && s.code in counts
    ensures asg[index := Some(s)][index := None] == asg
    ensures var c1 := counts[s.code := counts[s.code] + 1]; c1[s.code := c1[s.code] - 1] == counts
  {
  }

  /** A successful search from `index + 1`, after placing `s` at `index`, is a
      successful search from `index`. */
  lemma TryEachLift(d: Day, index: nat, asg: Assignment, counts: Counts, s: Subject, r: Search)
    requires |asg| == |d.isBreak| && index < |asg| && !d.isBreak[index]
    requires EmptyFrom(asg, index)
    requires s in d.subjects && DayAllowed(d, s) && UnderCaps(d, counts, s)
    requires r.found
    requires Sound(d, index + 1, asg[index := Some(s)], counts[s.code := counts[s.code] + 1], r)
    ensures Sound(d, index, asg, counts, r)
  {
    var counts1 := counts[s.code := counts[s.code] + 1];
    assert r.asg[..index + 1] == asg[index := Some(s)][..index + 1];
    assert r.asg[index] == Some(s);
    assert r.asg[..index] == asg[..index];
    forall c | c in counts ensures r.counts[c] == counts[c] + CodeCount(r.asg[index..], c) {
      CodeCountCons(r.asg, index, |asg|, c);
      assert r.asg[index..|asg|] == r.asg[index..];
      assert r.asg[index + 1..|asg|] == r.asg[index + 1..];
      assert c in counts1;
    }
    forall j | index <= j < |asg| && r.asg[j].Some?
      ensures PlacedWithinCaps(d, counts, r.asg, index, j)
    {
      if j > index {
        assert PlacedWithinCaps(d, counts1, r.asg, index + 1, j);
        CodeCountCons(r.asg, index, j, r.asg[j].value.code);
      } else {
        assert r.asg[index..index] == [];
      }
    }
  }

  // ---------------------------------------------------------------------------
  // One day
  // ---------------------------------------------------------------------------

  function EmptyDay(n: nat): (asg: Assignment)
    ensures |asg| == n && EmptyFrom(asg, 0)
  {
    seq(n, _ => None)
  }

  /** The day's search, started at slot 0 with nothing placed and every count at zero. */
  function ScheduleDay(d: Day): Search
  {
    Backtrack(d, 0, EmptyDay(|d.isBreak|), ZeroCounts(d.subjects))
  }

  /** A day is either fully taught (every non-break slot filled, every break
      empty) or, when the search fails, left entirely empty. */
  lemma DayFilledOrEmpty(d: Day)
    ensures var r := ScheduleDay(d);
            |r.asg| == |d.isBreak|
            && (r.found ==> forall j :: 0 <= j < |d.isBreak| ==> (r.asg[j].Some? <==> !d.isBreak[j]))
            && (!r.found ==> forall j :: 0 <= j < |d.isBreak| ==> r.asg[j].None?)
  {
    BacktrackSound(d, 0, EmptyDay(|d.isBreak|), ZeroCounts(d.subjects));
  }

  /** Every subject placed on a day is one of the day's subjects, and its
      faculty's preferred days, when given, include the day. */
  lemma DayRespectsPreferences(d: Day, j: nat)
    requires j < |d.isBreak|
    requires ScheduleDay(d).asg[j].Some?
    ensures ScheduleDay(d).asg[j].value in d.subjects
    ensures DayAllowed(d, ScheduleDay(d).asg[j].value)
  {
    var counts := ZeroCounts(d.subjects);
    BacktrackSound(d, 0, EmptyDay(|d.isBreak|), counts);
    var r := ScheduleDay(d);
    assert r.found;
    assert PlacedWithinCaps(d, counts, r.asg, 0, j);
  }

  /** Because each day starts from zero counts, the slots given to subjects
      with one code never exceed the daily cap; when codes are unique, they
      also never exceed that subject's weekly hours. */
  lemma DailyCaps(d: Day, s: Subject)
    requires s in d.subjects
    requires forall t :: t in d.subjects && t.code == s.code ==> t == s
    ensures var n := CodeCount(ScheduleDay(d).asg, s.code);
            n == 0 || (n <= s.hoursPerWeek && n <= d.maxSessions)
  {
    var counts := ZeroCounts(d.subjects);
    BacktrackSound(d, 0, EmptyDay(|d.isBreak|), counts);
    var r := ScheduleDay(d);
    if r.found {
      PrefixCaps(d, counts, r.asg, s, |r.asg|);
      assert r.asg[..|r.asg|] == r.asg;
      assert r.asg[0..] == r.asg;
    } else {
      NoneCount(r.asg, s.code);
    }
  }

  lemma {:induction false} NoneCount(asg: Assignment, c: Option<string>)
    requires forall j :: 0 <= j < |asg| ==> asg[j].None?
    ensures CodeCount(asg, c) == 0
  {
    if asg != [] {
      NoneCount(asg[1..], c);
    }
  }

  lemma {:induction false} PrefixCaps(d: Day, counts: Counts, asg: Assignment, s: Subject, n: nat)
    requires n <= |asg|
    requires forall c :: c in counts ==> counts[c] == 0
    requires forall t :: t in d.subjects && t.code == s.code ==> t == s
    requires forall j :: 0 <= j < |asg| && asg[j].Some? ==> PlacedWithinCaps(d, counts, asg, 0, j)
    ensures var k := CodeCount(asg[..n], s.code);
            k == 0 || (k <= s.hoursPerWeek && k <= d.maxSessions)
    decreases n
  {
    if n > 0 {
      PrefixCaps(d, counts, asg, s, n - 1);
      CodeCountSnoc(asg, n - 1, s.code);
      if asg[n - 1].Some? && asg[n - 1].value.code == s.code {
        assert PlacedWithinCaps(d, counts, asg, 0, n - 1);
        assert asg[0..n - 1] == asg[..n - 1];
      }
    }
  }

  /** Counting over a prefix that grows by one slot. */
  lemma CodeCountSnoc(asg: Assignment, k: nat, c: Option<string>)
    requires k < |asg|
    ensures CodeCount(asg[..k + 1], c)
         == CodeCount(asg[..k], c) + (if asg[k].Some? && asg[k].value.code == c then 1 else 0)
  {
    CodeCountAppend(asg[..k], [asg[k]], c);
    assert asg[..k + 1] == asg[..k] + [asg[k]];
  }

  lemma {:induction false} CodeCountAppend(a: Assignment, b: Assignment, c: Option<string>)
    ensures CodeCount(a + b, c) == CodeCount(a, c) + CodeCount(b, c)
  {
    if a == [] {
      assert a + b == b;
    } else {
      assert (a + b)[1..] == a[1..] + b;
      CodeCountAppend(a[1..], b, c);
    }
  }

  // ---------------------------------------------------------------------------
  // Rendering and the whole week
  // ---------------------------------------------------------------------------

  /** The subject text of one slot: "BREAK", "<name> (<faculty>)", or "Free Period". */
  function SlotText(isBreak: bool, a: Option<Subject>): string {
    if isBreak then BreakText
    else if a.Some? then JavaString(a.value.name) + " (" + JavaString(a.value.faculty) + ")"
    else FreeText
  }

  function DayOf(req: TimetableRequest, subjects: seq<Subject>, day: string): Day {
    Day(BreakMask(TimeSlotsOf(req), BreaksOf(req)), subjects, MaxSessionsOf(req), day,
        if req.facultyPreferences.Some? then PreferenceMap(req.facultyPreferences.value) else map[])
  }

  /** The entries of one day, numbered from 1 in slot order. */
  function RenderDay(day: string, isBreak: seq<bool>, asg: Assignment): (es: seq<TimetableEntry>)
    requires |asg| == |isBreak|
    ensures |es| == |isBreak|
    ensures forall i :: 0 <= i < |es| ==> es[i].day == Some(day)
  {
    seq(|isBreak|, i requires 0 <= i < |isBreak| =>
      TimetableEntry(Some(day), i + 1, Some(SlotText(isBreak[i], asg[i])), false))
  }

  function DayEntries(d: Day): (es: seq<TimetableEntry>)
    ensures |es| == |d.isBreak|
    ensures forall i :: 0 <= i < |es| ==> es[i].day == Some(d.day)
  {
    RenderDay(d.day, d.isBreak, ScheduleDay(d).asg)
  }

  /** The entries of all weekdays, day by day. */
  function WeekBlocks(req: TimetableRequest, subjects: seq<Subject>): (blocks: seq<seq<TimetableEntry>>)
    ensures |blocks| == |Weekdays|
  {
    seq(|Weekdays|, k requires 0 <= k < |Weekdays| => DayEntries(DayOf(req, subjects, Weekdays[k])))
  }

  /** `generateSchedule`: a null subject list throws, and so does a time-slot
      list longer than 11 (its twelfth entry fails the session-number check);
      otherwise one entry per weekday and slot. */
  function Generate(req: TimetableRequest): (r: Result<seq<TimetableEntry>, string>)
    ensures r.Success? <==> req.subjects.Some? && |TimeSlotsOf(req)| <= MaxSession
    ensures r.Failure? && req.subjects.Some? ==> r.error == SessionRangeMessage
  {
    if req.subjects.None? then Failure("NullPointerException")
    else if |TimeSlotsOf(req)| > MaxSession then Failure(SessionRangeMessage)
    else Success(Concat(WeekBlocks(req, DefaultAllHours(req.subjects.value))))
  }
}
