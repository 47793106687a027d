/** The grid of the heuristic engine in `TimetableService.java`: five weekdays
    of eleven slots, each holding a text label, and the deterministic helpers
    that build, read and write it. Wherever the engine shuffles, the outcome
    arrives as a `picks` parameter (see `Choice.Shuffle`). */
module Grid {
  import opened Wrappers
  import opened JavaText
  import opened Choice
  import opened Entities
  import opened SlotMatrix

  /** One weekday's slots, by slot index. */
  type Row = seq<string>
  /** One row per weekday, in `Weekdays` order. */
  type Grid = seq<Row>

  const FreePeriod := "Free Period"
  const ShortBreak := "Short Break (11:00-11:30)"
  const LongBreak := "Long Break (1:45-2:30)"
  const Unallocated := "UNALLOCATED"
  const MorningBreakIndex := 3
  const AfternoonBreakIndex := 7
  const MaxSessionsPerDay := 2
  const MaxFreePeriodsPerDay := 3
  /** A lab occupies three consecutive slots and counts three hours. */
  const LabLength := 3

  /** `getTimeSlots()`. */
  const GridTimeSlots: seq<string> := [
    "8:45am - 9:30am", "9:30am - 10:15am", "10:15am - 11:00am", "11:00am - 11:30am",
    "11:30am - 12:15pm", "12:15pm - 1:00pm", "1:00pm - 1:45pm", "1:45pm - 2:30pm",
    "2:30pm - 3:15pm", "3:15pm - 4:00pm", "4:00pm - 4:45pm"]

  const SlotsPerDay: nat := |GridTimeSlots|

  // ---------------------------------------------------------------------------
  // Labels
  // ---------------------------------------------------------------------------

  /** `faculty + " - " + name`: the label of one theory session. */
  function TheoryLabel(s: Subject): string {
    JavaString(s.faculty) + " - " + JavaString(s.name)
  }

  /** The label of each slot of a lab block. */
  function LabLabel(s: Subject): string {
    TheoryLabel(s) + " Lab"
  }

  predicate IsBreakLabel(l: string) {
    l == ShortBreak || l == LongBreak
  }

  /** A slot `isFree` accepts: not yet allocated, or a free period. */
  predicate IsFreeLabel(l: string) {
    l == Unallocated || l == FreePeriod
  }

  /** A label the repairs treat as a theory session: neither a free period,
      a break nor part of a lab. A slot still unallocated counts as one. */
  predicate IsSessionLabel(text: string) {
    text != FreePeriod && !IsBreakLabel(text) && !Contains(text, "Lab")
  }

  /** Every lab label contains "Lab", so the repairs that skip labs skip it. */
  lemma LabLabelContainsLab(s: Subject)
    ensures Contains(LabLabel(s), "Lab")
  {
    assert LabLabel(s) == (TheoryLabel(s) + " ") + "Lab";
    assert StartsWith("Lab", "Lab");
    ContainsInSuffix(TheoryLabel(s) + " ", "Lab", "Lab");
  }

  // ---------------------------------------------------------------------------
  // Counting over the grid
  // ---------------------------------------------------------------------------

  /** Occurrences of `x` over the whole grid, day after day. */
  function GridCount(g: Grid, x: string): nat {
    if g == [] then 0 else GridCount(g[..|g| - 1], x) + Count(g[|g| - 1], x)
  }

  /** Replacing one day changes the grid's count by that day's difference. */
  lemma {:induction false} GridCountUpdate(g: Grid, d: nat, r: Row, x: string)
    requires d < |g|
    ensures GridCount(g[d := r], x) == GridCount(g, x) - Count(g[d], x) + Count(r, x)
  {
    var h := g[d := r];
    if d == |g| - 1 {
      assert h[..|h| - 1] == g[..|g| - 1];
    } else {
      assert h[..|h| - 1] == g[..|g| - 1][d := r];
      GridCountUpdate(g[..|g| - 1], d, r, x);
    }
  }

  /** `countTotalFreePeriods` and the first loop of `countActualHours`: every
      slot of every day is visited once. */
  method CountInGrid(g: Grid, x: string) returns (n: nat)
    ensures n == GridCount(g, x)
  {
    n := 0;
    var d := 0;
    while d < |g|
      invariant 0 <= d <= |g|
      invariant n == GridCount(g[..d], x)
    {
      var i := 0;
      var m := n;
      while i < |g[d]|
        invariant 0 <= i <= |g[d]|
        invariant n == m + Count(g[d][..i], x)
      {
        CountPrefixStep(g[d], i, x);
        if g[d][i] == x {
          n := n + 1;
        }
        i := i + 1;
      }
      assert g[d][..|g[d]|] == g[d];
      assert g[..d + 1][..d] == g[..d];
      d := d + 1;
    }
    assert g[..|g|] == g;
  }

  /** `countSessionsForSubject`: the slots of one day holding the subject's theory label. */
  method CountSessionsForSubject(row: Row, s: Subject) returns (n: nat)
    ensures n == Count(row, TheoryLabel(s))
  {
    var text := TheoryLabel(s);
    n := 0;
    var i := 0;
    while i < |row|
      invariant 0 <= i <= |row|
      invariant n == Count(row[..i], text)
    {
      CountPrefixStep(row, i, text);
      if row[i] == text {
        n := n + 1;
      }
      i := i + 1;
    }
    assert row[..|row|] == row;
  }

  /** Some day of the grid holds `x`. */
  predicate Appears(g: Grid, x: string) {
    exists d :: 0 <= d < |g| && x in g[d]
  }

  /** The hours a subject holds in the grid: its theory sessions anywhere in
      the week, plus one lab block's three hours when its lab label appears
      on any day, however many lab slots there are. */
  function ActualHours(g: Grid, s: Subject): int {
    GridCount(g, TheoryLabel(s)) + (if Appears(g, LabLabel(s)) then LabLength else 0)
  }

  /** `countActualHours`: one pass over every slot for the theory label, then
      a search for the lab label that stops at its first sighting. */
  method CountActualHours(g: Grid, s: Subject) returns (n: int)
    ensures n == ActualHours(g, s)
  {
    n := CountInGrid(g, TheoryLabel(s));
    var lab := LabLabel(s);
    var found := false;
    var d := 0;
    while d < |g| && !found
      invariant 0 <= d <= |g|
      invariant found ==> Appears(g, lab)
      invariant !found ==> forall e :: 0 <= e < d ==> lab !in g[e]
      invariant n == GridCount(g, TheoryLabel(s)) + (if found then LabLength else 0)
    {
      var i := 0;
      while i < |g[d]| && !found
        invariant 0 <= i <= |g[d]|
        invariant found ==> lab in g[d]
        invariant !found ==> lab !in g[d][..i]
      {
        if g[d][i] == lab {
          found := true;
        }
        assert g[d][..i + 1] == g[d][..i] + [g[d][i]];
        i := i + 1;
      }
      if found {
        n := n + LabLength;
      } else {
        assert g[d][..|g[d]|] == g[d];
      }
      d := d + 1;
    }
  }

  // ---------------------------------------------------------------------------
  // The initial grid and the free-period budget
  // ---------------------------------------------------------------------------

  /** One day as the initialisation loop leaves it: the short break at slot
      3, the long break at slot 7, every other slot unallocated. */
  const InitialDay: Row := [Unallocated, Unallocated, Unallocated, ShortBreak,
                            Unallocated, Unallocated, Unallocated, LongBreak,
                            Unallocated, Unallocated, Unallocated]

  /** The grid `generateSchedule` starts from. */
  function InitialGrid(): (g: Grid)
    ensures |g| == |Weekdays|
  {
    seq(|Weekdays|, _ => InitialDay)
  }

  /** Every day of the initial grid has one slot per time slot, the short
      break exactly at slot 3, the long break exactly at slot 7, and every
      other slot unallocated. */
  lemma InitialGridShape(d: nat, i: nat)
    requires d < |Weekdays|
    ensures |InitialGrid()[d]| == SlotsPerDay == 11
    ensures i < SlotsPerDay ==>
              (InitialGrid()[d][i] == ShortBreak <==> i == MorningBreakIndex)
              && (InitialGrid()[d][i] == LongBreak <==> i == AfternoonBreakIndex)
              && (InitialGrid()[d][i] == Unallocated <==> i != MorningBreakIndex && i != AfternoonBreakIndex)
  {
    assert InitialGrid()[d] == InitialDay;
  }

  const TotalSlots: int := |Weekdays| * SlotsPerDay
  const BreakSlots: int := |Weekdays| * 2
  /** The slots that can hold a session: 45. */
  const EffectiveSlots: int := TotalSlots - BreakSlots

  /** Each initial day has nine unallocated slots and no free period. */
  lemma InitialRowCounts()
    ensures Count(InitialDay, Unallocated) == 9
    ensures Count(InitialDay, FreePeriod) == 0
  {
    var u := Unallocated;
    var three := [u, u, u];
    assert InitialDay == three + [ShortBreak] + three + [LongBreak] + three;
    assert Count(three, u) == 3 by {
      assert three[1..] == [u, u];
      assert three[1..][1..] == [u];
    }
    assert Count([ShortBreak], u) == 0;
    assert Count([LongBreak], u) == 0;
    CountAppend(three + [ShortBreak] + three + [LongBreak], three, u);
    CountAppend(three + [ShortBreak] + three, [LongBreak], u);
    CountAppend(three + [ShortBreak], three, u);
    CountAppend(three, [ShortBreak], u);
    assert FreePeriod !in InitialDay;
  }

  /** A grid whose days all equal `row` holds `|g|` times the row's count. */
  lemma {:induction false} GridCountUniform(g: Grid, row: Row, x: string)
    requires forall d :: 0 <= d < |g| ==> g[d] == row
    ensures GridCount(g, x) == |g| * Count(row, x)
  {
    if g != [] {
      GridCountUniform(g[..|g| - 1], row, x);
      assert |g| * Count(row, x) == (|g| - 1) * Count(row, x) + Count(row, x);
    }
  }

  /** The initial grid has exactly `EffectiveSlots` unallocated slots and no
      free period, so the budget arithmetic counts the slots to be filled. */
  lemma InitialGridBudget()
    ensures GridCount(InitialGrid(), Unallocated) == EffectiveSlots == 45
    ensures GridCount(InitialGrid(), FreePeriod) == 0
  {
    InitialRowCounts();
    GridCountUniform(InitialGrid(), InitialDay, Unallocated);
    GridCountUniform(InitialGrid(), InitialDay, FreePeriod);
  }

  function SumHours(subjects: seq<Subject>): int {
    if subjects == [] then 0
    else SumHours(subjects[..|subjects| - 1]) + subjects[|subjects| - 1].hoursPerWeek
  }

  function LabCount(subjects: seq<Subject>): nat {
    if subjects == [] then 0
    else LabCount(subjects[..|subjects| - 1]) + (if subjects[|subjects| - 1].labRequired then 1 else 0)
  }

  /** The free periods the engine aims for: the effective slots left after
      every subject's hours and three per lab, capped by the requested number
      when the request gives one. */
  function FreePeriodBudget(subjects: seq<Subject>, requested: Option<int>): int {
    var available := EffectiveSlots - (SumHours(subjects) + LabLength * LabCount(subjects));
    if requested.Some? && requested.value < available then requested.value else available
  }

  /** The budget never exceeds what the subjects leave over, nor the request,
      and is one of the two. */
  lemma FreePeriodBudgetBounds(subjects: seq<Subject>, requested: Option<int>)
    ensures var available := EffectiveSlots - (SumHours(subjects) + LabLength * LabCount(subjects));
            var b := FreePeriodBudget(subjects, requested);
            b <= available
            && (requested.Some? ==> b <= requested.value && (b == requested.value || b == available))
            && (requested.None? ==> b == available)
  {
  }

  /** Lines 106-118 of `generateSchedule`: the subject hours summed in one
      loop, three extra per lab, and `Math.min` with the request. */
  method DesiredFreePeriods(subjects: seq<Subject>, requested: Option<int>) returns (desired: int)
    ensures desired == FreePeriodBudget(subjects, requested)
  {
    var total := 0;
    var k := 0;
    while k < |subjects|
      invariant 0 <= k <= |subjects|
      invariant total == SumHours(subjects[..k]) + LabLength * LabCount(subjects[..k])
    {
      assert subjects[..k + 1][..k] == subjects[..k];
      total := total + subjects[k].hoursPerWeek;
      if subjects[k].labRequired {
        total := total + LabLength;
      }
      k := k + 1;
    }
    assert subjects[..|subjects|] == subjects;
    var available := EffectiveSlots - total;
    if requested.Some? {
      desired := if requested.value <= available then requested.value else available;
    } else {
      desired := available;
    }
  }

  // ---------------------------------------------------------------------------
  // isFree and lab blocks
  // ---------------------------------------------------------------------------

  /** The `count` slots from `start` all lie within the day and are free. */
  predicate FreeWindow(row: Row, start: int, count: int) {
    start + count <= |row|
    && forall i :: start <= i < start + count ==> 0 <= i < |row| && IsFreeLabel(row[i])
  }

  /** `isFree(slots, start, count)`. */
  method IsFree(row: Row, start: nat, count: int) returns (b: bool)
    ensures b <==> FreeWindow(row, start, count)
  {
    if start + count > |row| {
      return false;
    }
    var i := start;
    while i < start + count
      invariant start <= i
      invariant i <= start + count || i == start
      invariant forall j :: start <= j < i ==> 0 <= j < |row| && IsFreeLabel(row[j])
    {
      if !IsFreeLabel(row[i]) {
        return false;
      }
      i := i + 1;
    }
    return true;
  }

  /** The three slots from `i` would contain one of the two break indices. */
  predicate SpansBreak(i: int) {
    (i <= MorningBreakIndex < i + LabLength) || (i <= AfternoonBreakIndex < i + LabLength)
  }

  /** A start `tryPlaceLabOnDay` accepts: within the day's first `length - 2`
      slots, not spanning a break, with three free slots. */
  predicate ValidLabStart(row: Row, i: int) {
    0 <= i < |row| - 2 && !SpansBreak(i) && FreeWindow(row, i, LabLength)
  }

  /** The loop collecting the valid start positions, from `from` on. */
  function LabStarts(row: Row, from: nat): (starts: seq<nat>)
    ensures forall i: nat :: i in starts <==> from <= i && ValidLabStart(row, i)
    decreases |row| - from
  {
    if from + 2 >= |row| then []
    else (if !SpansBreak(from) && FreeWindow(row, from, LabLength) then [from] else []) + LabStarts(row, from + 1)
  }

  /** `r` is `row` with the lab label written over the three slots from `st`. */
  predicate LabWritten(row: Row, r: Row, st: int, text: string) {
    |r| == |row|
    && forall j :: 0 <= j < |r| ==> r[j] == (if st <= j < st + LabLength then text else row[j])
  }

  /** `tryPlaceLabOnDay`: `None` when no start is valid; otherwise the label
      written at the head of the shuffled valid starts. */
  function TryPlaceLab(row: Row, text: string, pick: seq<nat>): Option<Row> {
    var starts := LabStarts(row, 0);
    if starts == [] then None
    else
      var st := starts[PickIndex(pick, |starts|)];
      assert st in starts;
      Some(row[st := text][st + 1 := text][st + 2 := text])
  }

  /** A lab block is placed exactly when the day has a valid start, and then
      fills three consecutive free slots clear of both breaks and changes
      nothing else. */
  lemma TryPlaceLabSpec(row: Row, text: string, pick: seq<nat>)
    ensures TryPlaceLab(row, text, pick).None? <==> forall i :: !ValidLabStart(row, i)
    ensures TryPlaceLab(row, text, pick).Some? ==>
              exists st :: ValidLabStart(row, st) && LabWritten(row, TryPlaceLab(row, text, pick).value, st, text)
  {
    var starts := LabStarts(row, 0);
    if starts != [] {
      var st := starts[PickIndex(pick, |starts|)];
      assert ValidLabStart(row, st);
      assert LabWritten(row, TryPlaceLab(row, text, pick).value, st, text);
    }
  }

  /** Every valid start is the outcome of some shuffle. */
  lemma TryPlaceLabReaches(row: Row, text: string, st: nat) returns (pick: seq<nat>)
    requires ValidLabStart(row, st)
    ensures TryPlaceLab(row, text, pick).Some?
    ensures LabWritten(row, TryPlaceLab(row, text, pick).value, st, text)
  {
    var starts := LabStarts(row, 0);
    var k := IndexOf(starts, st);
    pick := [k];
    assert PickIndex(pick, |starts|) == k;
  }

  /** On an eleven-slot day the only starts clear of slots 3 and 7 are 0, 4 and 8. */
  lemma LabStartsOfFullDay(row: Row, i: int)
    requires |row| == SlotsPerDay && ValidLabStart(row, i)
    ensures i == 0 || i == 4 || i == 8
  {
  }

  /** Day indices `0 .. n - 1` in order. */
  function DayIndices(n: nat): (r: seq<nat>)
    ensures |r| == n && forall k :: 0 <= k < n ==> r[k] == k
  {
    seq(n, k => k)
  }

  /** The first day of `order` on which a lab block fits, skipping days that
      already hold a lab when `onlyLabless` is set. */
  function FirstFit(g: Grid, order: seq<nat>, hasLab: seq<bool>, onlyLabless: bool): (r: Option<nat>)
    requires |hasLab| == |g| && forall k :: k in order ==> k < |g|
    ensures r.Some? ==> r.value in order && r.value < |g| && (onlyLabless ==> !hasLab[r.value])
                        && exists i :: ValidLabStart(g[r.value], i)
    ensures r.None? ==> forall k, i :: k in order && (onlyLabless ==> !hasLab[k]) ==> !ValidLabStart(g[k], i)
  {
    if order == [] then None
    else
      var k := order[0];
      assert k in order;
      assert forall j :: j in order[1..] ==> j in order;
      var starts := LabStarts(g[k], 0);
      if (!onlyLabless || !hasLab[k]) && starts != [] then
        assert ValidLabStart(g[k], starts[0]);
        Some(k)
      else
        FirstFit(g, order[1..], hasLab, onlyLabless)
  }

  /** `placeLabBlock`: the days in the shuffled order `dayPicks` gives, first
      those without a lab and then all of them; the block goes on the first
      day where it fits, at the start `startPick` chooses. */
  function PlaceLabBlock(g: Grid, hasLab: seq<bool>, s: Subject, dayPicks: seq<nat>, startPick: seq<nat>)
    : (r: (Grid, seq<bool>))
    requires |hasLab| == |g|
  {
    if !s.labRequired then (g, hasLab)
    else
      var order := Shuffle(DayIndices(|g|), dayPicks);
      ShuffleMembers(DayIndices(|g|), dayPicks);
      var first := FirstFit(g, order, hasLab, true);
      var day := if first.Some? then first else FirstFit(g, order, hasLab, false);
      if day.None? then (g, hasLab)
      else
        var k := day.value;
        TryPlaceLabSpec(g[k], LabLabel(s), startPick);
        (g[k := TryPlaceLab(g[k], LabLabel(s), startPick).value], hasLab[k := true])
  }

  /** A lab subject's block lands on exactly one day, as `tryPlaceLabOnDay`
      writes it, and that day is marked; a day that already had a lab is used
      only when no lab-free day has room; nothing changes only when no day has
      room or the subject needs no lab. */
  lemma PlaceLabBlockSpec(g: Grid, hasLab: seq<bool>, s: Subject, dayPicks: seq<nat>, startPick: seq<nat>)
    requires |hasLab| == |g|
    ensures var r := PlaceLabBlock(g, hasLab, s, dayPicks, startPick);
            (!s.labRequired ==> r == (g, hasLab))
            && (s.labRequired ==>
                  (r == (g, hasLab) && forall k, i :: 0 <= k < |g| ==> !ValidLabStart(g[k], i))
                  || (exists k, st :: 0 <= k < |g| && ValidLabStart(g[k], st)
                        && LabWritten(g[k], r.0[k], st, LabLabel(s))
                        && r.0 == g[k := r.0[k]] && r.1 == hasLab[k := true]
                        && (hasLab[k] ==> forall j, i :: 0 <= j < |g| && !hasLab[j] ==> !ValidLabStart(g[j], i))))
  {
    var r := PlaceLabBlock(g, hasLab, s, dayPicks, startPick);
    if s.labRequired {
      var order := Shuffle(DayIndices(|g|), dayPicks);
      ShuffleMembers(DayIndices(|g|), dayPicks);
      assert forall k :: 0 <= k < |g| ==> k in order by {
        forall k | 0 <= k < |g| ensures k in order {
          assert DayIndices(|g|)[k] == k;
        }
      }
      var first := FirstFit(g, order, hasLab, true);
      var day := if first.Some? then first else FirstFit(g, order, hasLab, false);
      if day.Some? {
        var k := day.value;
        TryPlaceLabSpec(g[k], LabLabel(s), startPick);
        var row := TryPlaceLab(g[k], LabLabel(s), startPick).value;
        var st :| ValidLabStart(g[k], st) && LabWritten(g[k], row, st, LabLabel(s));
        assert r.0[k] == row;
        assert r.0 == g[k := r.0[k]];
      }
    }
  }

  // ---------------------------------------------------------------------------
  // The stored entries and buildDaySlotMatrix
  // ---------------------------------------------------------------------------

  /** A day's slots as stored entries: session `i + 1` holds slot `i`. */
  function RowEntries(day: string, row: Row): (es: seq<TimetableEntry>)
    ensures |es| == |row| && forall i :: 0 <= i < |es| ==> es[i].day == Some(day)
  {
    seq(|row|, i requires 0 <= i < |row| => TimetableEntry(Some(day), i + 1, Some(row[i]), false))
  }

  function GridBlocks(g: Grid): (blocks: seq<seq<TimetableEntry>>)
    requires |g| == |Weekdays|
    ensures |blocks| == |Weekdays|
    ensures forall k :: 0 <= k < |blocks| ==> blocks[k] == RowEntries(Weekdays[k], g[k])
  {
    seq(|Weekdays|, k requires 0 <= k < |Weekdays| => RowEntries(Weekdays[k], g[k]))
  }

  /** The entries `generateSchedule` saves: day after day, slot after slot. */
  function GridEntries(g: Grid): seq<TimetableEntry>
    requires |g| == |Weekdays|
  {
    Concat(GridBlocks(g))
  }

  /** `buildDaySlotMatrix` of this engine: eleven columns, "Free Period"
      where no entry exists. */
  function GridMatrix(entries: seq<TimetableEntry>): seq<seq<Option<string>>> {
    BuildMatrix(entries, Weekdays, SlotsPerDay, FreePeriod)
  }

  /** Within one day's entries, (day, session) is found exactly at slot `session - 1`. */
  lemma LookupRow(day: string, row: Row, target: string, session: int)
    ensures Lookup(RowEntries(day, row), target, session)
         == if target == day && 1 <= session <= |row| then Some(Some(row[session - 1])) else None
  {
    var es := RowEntries(day, row);
    LookupIsLastMatch(es, target, session);
    if target == day && 1 <= session <= |row| {
      assert Matches(es[session - 1], target, session);
    }
  }

  /** Saving the grid and reading it back through the matrix returns the grid:
      each weekday's row shows its slots, then "Free Period" past its end. */
  lemma MatrixOfGrid(g: Grid, k: nat, i: nat)
    requires |g| == |Weekdays| && k < |Weekdays| && i < SlotsPerDay
    ensures GridMatrix(GridEntries(g))[k][i] == if i < |g[k]| then Some(g[k][i]) else Some(FreePeriod)
  {
    var blocks := GridBlocks(g);
    WeekdaysDistinct();
    assert BlocksByDay(blocks, Weekdays);
    LookupConcat(blocks, Weekdays, k, i + 1);
    LookupRow(Weekdays[k], g[k], Weekdays[k], i + 1);
  }
}
