/** What `Timetableservice.java` hands on: the generated week of entries and
    its nine-column day × slot matrix. */
module DayExport {
  import opened Wrappers
  import opened JavaText
  import opened Choice
  import opened Entities
  import opened DayScheduler
  import opened SlotMatrix

  /** The matrix of the backtracking engine: nine columns, "" where no entry exists. */
  function DayMatrix(entries: seq<TimetableEntry>): seq<seq<Option<string>>> {
    BuildMatrix(entries, Weekdays, |DefaultTimeSlots|, "")
  }

  /** The text a subject placed by the search renders as. */
  function Rendered(s: Subject): string {
    JavaString(s.name) + " (" + JavaString(s.faculty) + ")"
  }

  function SubjectsOf(req: TimetableRequest): seq<Subject>
    requires req.subjects.Some?
  {
    DefaultAllHours(req.subjects.value)
  }

  // ---------------------------------------------------------------------------
  // Rendering one slot
  // ---------------------------------------------------------------------------

  /** Only break slots render as "BREAK": a placed subject's text ends in ")"
      and an empty slot reads "Free Period". */
  lemma SlotTextBreak(isBreak: bool, a: Option<Subject>)
    ensures SlotText(isBreak, a) == BreakText <==> isBreak
  {
    if !isBreak {
      var t := SlotText(isBreak, a);
      if a.Some? {
        assert t[|t| - 1] == ')';
      } else {
        assert t[0] == 'F';
      }
    }
  }

  // ---------------------------------------------------------------------------
  // Entries of the week
  // ---------------------------------------------------------------------------

  /** A successful generation is the weekdays' entries one day after another. */
  lemma GenerateIsWeek(req: TimetableRequest)
    requires Generate(req).Success?
    ensures req.subjects.Some?
    ensures Generate(req).value == Concat(WeekBlocks(req, SubjectsOf(req)))
  {
  }

  /** Slot `i` of a day renders as its weekday, session `i + 1`, and the slot's text. */
  lemma DayEntryAt(d: Day, i: nat)
    requires i < |d.isBreak|
    ensures |ScheduleDay(d).asg| == |d.isBreak|
    ensures DayEntries(d)[i]
         == TimetableEntry(Some(d.day), i + 1, Some(SlotText(d.isBreak[i], ScheduleDay(d).asg[i])), false)
  {
    DayFilledOrEmpty(d);
  }

  /** Block `k` of the week is weekday `k`'s entries. */
  lemma WeekBlockAt(req: TimetableRequest, subjects: seq<Subject>, k: nat)
    requires k < |Weekdays|
    ensures WeekBlocks(req, subjects)[k] == DayEntries(DayOf(req, subjects, Weekdays[k]))
  {
  }

  /** The week holds one entry per weekday and time slot. */
  lemma WeekLength(req: TimetableRequest, subjects: seq<Subject>)
    ensures |Concat(WeekBlocks(req, subjects))| == |Weekdays| * |TimeSlotsOf(req)|
  {
    WeekBlocksShape(req, subjects);
    ConcatLength(WeekBlocks(req, subjects), |TimeSlotsOf(req)|);
  }

  /** Every weekday renders one entry per time slot. */
  lemma WeekBlocksShape(req: TimetableRequest, subjects: seq<Subject>)
    ensures forall j :: 0 <= j < |WeekBlocks(req, subjects)| ==> |WeekBlocks(req, subjects)[j]| == |TimeSlotsOf(req)|
  {
    var blocks := WeekBlocks(req, subjects);
    forall j | 0 <= j < |blocks| ensures |blocks[j]| == |TimeSlotsOf(req)| {
      var d := DayOf(req, subjects, Weekdays[j]);
      WeekBlockAt(req, subjects, j);
      assert |d.isBreak| == |TimeSlotsOf(req)|;
    }
  }

  /** A successful generation is the weekdays' blocks one after another, and
      entry `i` of weekday `k`'s block (which `Choice.ConcatAt` places at
      `k * n + i`, `n` being the number of time slots) names the weekday,
      carries session number `i + 1` within 1..11, has the lab flag unset,
      and reads "BREAK" exactly when the slot is a break. */
  lemma GeneratedEntryShape(req: TimetableRequest, k: nat, i: nat)
    requires Generate(req).Success?
    requires k < |Weekdays| && i < |TimeSlotsOf(req)|
    ensures var week := WeekBlocks(req, SubjectsOf(req));
            Generate(req).value == Concat(week) && |week[k]| == |TimeSlotsOf(req)|
            && var e := week[k][i];
            e.day == Some(Weekdays[k]) && e.sessionNumber == i + 1
            && MinSession <= e.sessionNumber <= MaxSession && !e.labFlag
            && (e.subject == Some(BreakText) <==> IsBreakSlot(TimeSlotsOf(req)[i], BreaksOf(req)))
  {
    GenerateIsWeek(req);
    var subjects := SubjectsOf(req);
    var d := DayOf(req, subjects, Weekdays[k]);
    WeekBlockAt(req, subjects, k);
    DayEntryAt(d, i);
    SlotTextBreak(d.isBreak[i], ScheduleDay(d).asg[i]);
  }

  /** On every day of a successful generation either all teaching slots show
      a subject that passed the day's preference filter, or all of them show
      "Free Period". */
  lemma GeneratedDayFilledOrFree(req: TimetableRequest, k: nat)
    requires Generate(req).Success? && k < |Weekdays|
    ensures var week := WeekBlocks(req, SubjectsOf(req));
            var d := DayOf(req, SubjectsOf(req), Weekdays[k]);
            Generate(req).value == Concat(week) && |week[k]| == |d.isBreak|
            && ((forall i :: 0 <= i < |d.isBreak| && !d.isBreak[i] ==>
                   exists s :: s in d.subjects && DayAllowed(d, s) && week[k][i].subject == Some(Rendered(s)))
                || (forall i :: 0 <= i < |d.isBreak| && !d.isBreak[i] ==> week[k][i].subject == Some(FreeText)))
  {
    GenerateIsWeek(req);
    var subjects := SubjectsOf(req);
    var d := DayOf(req, subjects, Weekdays[k]);
    var r := ScheduleDay(d);
    var day := WeekBlocks(req, subjects)[k];
    WeekBlockAt(req, subjects, k);
    DayFilledOrEmpty(d);
    forall i | 0 <= i < |d.isBreak|
      ensures day[i].subject == Some(SlotText(d.isBreak[i], r.asg[i]))
    {
      DayEntryAt(d, i);
    }
    if r.found {
      forall i | 0 <= i < |d.isBreak| && !d.isBreak[i]
        ensures exists s :: s in d.subjects && DayAllowed(d, s) && day[i].subject == Some(Rendered(s))
      {
        DayRespectsPreferences(d, i);
        var s := r.asg[i].value;
        assert day[i].subject == Some(Rendered(s));
      }
    }
  }

  // ---------------------------------------------------------------------------
  // The matrix shows what was generated
  // ---------------------------------------------------------------------------

  /** Within one day's entries, (day, session) is found exactly at slot `session - 1`. */
  lemma LookupRender(day: string, isBreak: seq<bool>, asg: Assignment, target: string, session: int)
    requires |asg| == |isBreak|
    ensures Lookup(RenderDay(day, isBreak, asg), target, session)
         == if target == day && 1 <= session <= |isBreak|
            then Some(Some(SlotText(isBreak[session - 1], asg[session - 1])))
            else None
  {
    var es := RenderDay(day, isBreak, asg);
    LookupIsLastMatch(es, target, session);
    if target == day && 1 <= session <= |isBreak| {
      assert Matches(es[session - 1], target, session);
    }
  }

  /** The matrix of a week made of per-day blocks shows each day's own block. */
  lemma MatrixOfBlocks(blocks: seq<seq<TimetableEntry>>, k: nat, i: nat)
    requires BlocksByDay(blocks, Weekdays)
    requires k < |Weekdays| && i < |DefaultTimeSlots|
    ensures DayMatrix(Concat(blocks))[k][i] == Cell(blocks[k], Weekdays[k], i + 1, "")
  {
    LookupConcat(blocks, Weekdays, k, i + 1);
  }

  /** Each weekday's block holds only that weekday's entries. */
  lemma WeekBlocksByDay(req: TimetableRequest, subjects: seq<Subject>)
    ensures BlocksByDay(WeekBlocks(req, subjects), Weekdays)
  {
    var blocks: seq<seq<TimetableEntry>> := WeekBlocks(req, subjects);
    WeekdaysDistinct();
    forall k: nat, j: nat | 0 <= k < |blocks| && 0 <= j < |blocks[k]| ensures blocks[k][j].day == Some(Weekdays[k]) {
      WeekBlockAt(req, subjects, k);
    }
  }

  /** The exported matrix shows, for every weekday and each of its nine
      columns, the text generated for that slot, and "" for the columns past
      the request's last slot. */
  lemma MatrixShowsGenerated(req: TimetableRequest, k: nat, i: nat)
    requires Generate(req).Success?
    requires k < |Weekdays| && i < |DefaultTimeSlots|
    ensures var m := DayMatrix(Generate(req).value);
            var d := DayOf(req, SubjectsOf(req), Weekdays[k]);
            |ScheduleDay(d).asg| == |d.isBreak|
            && m[k][i] == if i < |d.isBreak| then Some(SlotText(d.isBreak[i], ScheduleDay(d).asg[i]))
                          else Some("")
  {
    var blocks := WeekBlocks(req, SubjectsOf(req));
    var d := DayOf(req, SubjectsOf(req), Weekdays[k]);
    GenerateIsWeek(req);
    WeekBlocksByDay(req, SubjectsOf(req));
    MatrixOfBlocks(blocks, k, i);
    DayFilledOrEmpty(d);
    LookupRender(d.day, d.isBreak, ScheduleDay(d).asg, Weekdays[k], i + 1);
  }
}
