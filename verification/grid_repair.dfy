/** Moving sessions between days of the grid: `moveSubjectBetweenDays`,
    `countTotalFreePeriods` and `redistributeFreePeriods` of `TimetableService.java`. */
module GridRepair {
  import opened Wrappers
  import opened JavaText
  import opened Choice
  import opened Grid

  // ---------------------------------------------------------------------------
  // moveSubjectBetweenDays
  // ---------------------------------------------------------------------------

  /** The target day has a free period and fewer than two sessions of `text`. */
  predicate Accepts(target: Row, text: string) {
    FreePeriod in target && Count(target, text) < MaxSessionsPerDay
  }

  /** The first source slot from `from` on whose label may move to `target`. */
  function FirstMovable(source: Row, target: Row, from: nat): (i: Option<nat>)
    ensures i.Some? ==> from <= i.value < |source| && IsSessionLabel(source[i.value]) && Accepts(target, source[i.value])
    ensures forall j :: from <= j < |source| && (i.None? || j < i.value) ==> !(IsSessionLabel(source[j]) && Accepts(target, source[j]))
    decreases |source| - from
  {
    if from >= |source| then None
    else if IsSessionLabel(source[from]) && Accepts(target, source[from]) then Some(from)
    else FirstMovable(source, target, from + 1)
  }

  /** `moveSubjectBetweenDays(src, tgt)`: the first movable session of day
      `src` that day `tgt` accepts goes into `tgt`'s first free period and
      leaves a free period behind; the flag says whether anything moved. */
  function Move(g: Grid, src: nat, tgt: nat): (r: (Grid, bool))
    requires src < |g| && tgt < |g|
    ensures |r.0| == |g|
  {
    match FirstMovable(g[src], g[tgt], 0)
    case None => (g, false)
    case Some(i) =>
      var text := g[src][i];
      var j := IndexOf(g[tgt], FreePeriod);
      var g1 := g[tgt := g[tgt][j := text]];
      (g1[src := g1[src][i := FreePeriod]], true)
  }

  /** Between two different days, nothing moves exactly when no source
      session may go to the target; otherwise the first such session moves
      into the target's first free period, and no other day changes. */
  lemma MoveSpec(g: Grid, src: nat, tgt: nat)
    requires src < |g| && tgt < |g| && src != tgt
    ensures var m := Move(g, src, tgt);
            (!m.1 <==> forall i :: 0 <= i < |g[src]| ==> !(IsSessionLabel(g[src][i]) && Accepts(g[tgt], g[src][i])))
            && (!m.1 ==> m.0 == g)
            && (m.1 ==> exists i, j ::
                  0 <= i < |g[src]| && 0 <= j < |g[tgt]|
                  && IsSessionLabel(g[src][i]) && g[tgt][j] == FreePeriod && Count(g[tgt], g[src][i]) < MaxSessionsPerDay
                  && (forall i' :: 0 <= i' < i ==> !(IsSessionLabel(g[src][i']) && Accepts(g[tgt], g[src][i'])))
                  && (forall j' :: 0 <= j' < j ==> g[tgt][j'] != FreePeriod)
                  && m.0[src] == g[src][i := FreePeriod] && m.0[tgt] == g[tgt][j := g[src][i]]
                  && forall d :: 0 <= d < |g| && d != src && d != tgt ==> m.0[d] == g[d])
  {
    var first := FirstMovable(g[src], g[tgt], 0);
    if first.Some? {
      var i := first.value;
      var j := IndexOf(g[tgt], FreePeriod);
      assert Move(g, src, tgt).0[src] == g[src][i := FreePeriod];
    }
  }

  /** A move keeps the week's number of free periods: it fills one and frees one. */
  lemma MovePreservesFreeTotal(g: Grid, src: nat, tgt: nat)
    requires src < |g| && tgt < |g|
    ensures GridCount(Move(g, src, tgt).0, FreePeriod) == GridCount(g, FreePeriod)
  {
    var first := FirstMovable(g[src], g[tgt], 0);
    if first.Some? {
      var i := first.value;
      var text := g[src][i];
      var j := IndexOf(g[tgt], FreePeriod);
      var g1 := g[tgt := g[tgt][j := text]];
      assert Move(g, src, tgt).0 == g1[src := g1[src][i := FreePeriod]];
      GridCountUpdate(g, tgt, g[tgt][j := text], FreePeriod);
      CountUpdate(g[tgt], j, text, FreePeriod);
      assert g1[src][i] == text;
      GridCountUpdate(g1, src, g1[src][i := FreePeriod], FreePeriod);
      CountUpdate(g1[src], i, FreePeriod, FreePeriod);
    } else {
      assert Move(g, src, tgt).0 == g;
    }
  }

  /** Between two different days a move gives the source one more free
      period and the target one fewer, and leaves the target with at most two
      sessions of the moved label. */
  lemma MoveShiftsFreePeriod(g: Grid, src: nat, tgt: nat)
    requires src < |g| && tgt < |g| && src != tgt && Move(g, src, tgt).1
    ensures var r := Move(g, src, tgt).0;
            Count(r[src], FreePeriod) == Count(g[src], FreePeriod) + 1
            && Count(r[tgt], FreePeriod) == Count(g[tgt], FreePeriod) - 1
  {
    var i := FirstMovable(g[src], g[tgt], 0).value;
    var j := IndexOf(g[tgt], FreePeriod);
    CountUpdate(g[tgt], j, g[src][i], FreePeriod);
    CountUpdate(g[src], i, FreePeriod, FreePeriod);
  }

  // ---------------------------------------------------------------------------
  // countTotalFreePeriods and the per-day counts
  // ---------------------------------------------------------------------------

  /** The free periods of each day, as `redistributeFreePeriods` first records them. */
  function FreeCounts(g: Grid): (counts: seq<int>)
    ensures |counts| == |g| && forall d :: 0 <= d < |g| ==> counts[d] == Count(g[d], FreePeriod)
  {
    seq(|g|, d requires 0 <= d < |g| => Count(g[d], FreePeriod))
  }

  /** The other days, in order, whose recorded count is below the maximum. */
  function TargetDays(counts: seq<int>, d: nat, from: nat): (ts: seq<nat>)
    ensures forall t: nat :: t in ts <==> from <= t < |counts| && t != d && counts[t] < MaxFreePeriodsPerDay
    ensures forall k :: 0 <= k < |ts| ==> from <= ts[k]
    ensures forall a, b :: 0 <= a < b < |ts| ==> ts[a] < ts[b]
    decreases |counts| - from
  {
    if from >= |counts| then []
    else
      var rest := TargetDays(counts, d, from + 1);
      if from != d && counts[from] < MaxFreePeriodsPerDay then [from] + rest else rest
  }

  /** The inner loop of `redistributeFreePeriods` for the overloaded day `d`:
      one move is tried per target until the excess is used up. As written
      (`corrected` false) the session moves from `d` into the target; the
      correction moves one from the target into `d`. Either way the recorded
      count of `d` drops and the target's rises after each move. */
  function MoveIntoTargets(g: Grid, counts: seq<int>, d: nat, targets: seq<nat>, excess: int, corrected: bool)
    : (r: (Grid, seq<int>))
    requires |counts| == |g| && d < |g| && forall t :: t in targets ==> t < |g|
    ensures |r.0| == |g| && |r.1| == |g|
    decreases |targets|
  {
    if targets == [] || excess <= 0 then (g, counts)
    else
      var t := targets[0];
      assert t in targets;
      assert forall u :: u in targets[1..] ==> u in targets;
      var m := if corrected then Move(g, t, d) else Move(g, d, t);
      if m.1 then
        MoveIntoTargets(m.0, counts[d := counts[d] - 1][t := counts[t] + 1], d, targets[1..], excess - 1, corrected)
      else
        MoveIntoTargets(g, counts, d, targets[1..], excess, corrected)
  }

  /** The random order of the targets of day `d`. */
  function DayPicks(picks: seq<seq<nat>>, d: nat): seq<nat> {
    if d < |picks| then picks[d] else []
  }

  /** Each of `order` is another day recorded below the maximum, and none comes twice. */
  predicate Targets(order: seq<nat>, counts: seq<int>, d: nat) {
    Distinct(order) && forall t :: t in order ==> t < |counts| && t != d && counts[t] < MaxFreePeriodsPerDay
  }

  /** The targets of the overloaded day `d` in their shuffled order. */
  function TargetOrder(counts: seq<int>, d: nat, picks: seq<seq<nat>>): (order: seq<nat>)
    ensures Targets(order, counts, d)
  {
    var targets := TargetDays(counts, d, 0);
    ShuffleMembers(targets, DayPicks(picks, d));
    ShuffleDistinct(targets, DayPicks(picks, d));
    Shuffle(targets, DayPicks(picks, d))
  }

  /** One turn of the outer loop of `redistributeFreePeriods`: a day whose
      recorded count exceeds the maximum hands its excess to the shuffled
      days recorded below the maximum; any other day is left alone. */
  function RebalanceDay(g: Grid, counts: seq<int>, d: nat, picks: seq<seq<nat>>, corrected: bool)
    : (r: (Grid, seq<int>))
    requires |counts| == |g| && d < |g|
    ensures |r.0| == |g| && |r.1| == |g|
  {
    if counts[d] > MaxFreePeriodsPerDay then
      var order := TargetOrder(counts, d, picks);
      MoveIntoTargets(g, counts, d, order, counts[d] - MaxFreePeriodsPerDay, corrected)
    else (g, counts)
  }

  /** The outer loop of `redistributeFreePeriods`, from day `d` on. */
  function RedistributeFrom(g: Grid, counts: seq<int>, d: nat, picks: seq<seq<nat>>, corrected: bool)
    : (r: (Grid, seq<int>))
    requires |counts| == |g|
    ensures |r.0| == |g| && |r.1| == |g|
    decreases |g| - d
  {
    if d >= |g| then (g, counts)
    else
      var m := RebalanceDay(g, counts, d, picks, corrected);
      RedistributeFrom(m.0, m.1, d + 1, picks, corrected)
  }

  /** `redistributeFreePeriods` as written: the final grid and the counts it recorded. */
  function RedistributeAsWritten(g: Grid, picks: seq<seq<nat>>): (Grid, seq<int>) {
    RedistributeFrom(g, FreeCounts(g), 0, picks, false)
  }

  /** `redistributeFreePeriods` with each move taken from the target into the overloaded day. */
  function Redistribute(g: Grid, picks: seq<seq<nat>>): (Grid, seq<int>) {
    RedistributeFrom(g, FreeCounts(g), 0, picks, true)
  }

  // ---------------------------------------------------------------------------
  // What redistribution preserves
  // ---------------------------------------------------------------------------

  lemma {:induction false} MoveIntoTargetsTotal(g: Grid, counts: seq<int>, d: nat, targets: seq<nat>, excess: int, corrected: bool)
    requires |counts| == |g| && d < |g| && forall t :: t in targets ==> t < |g|
    ensures GridCount(MoveIntoTargets(g, counts, d, targets, excess, corrected).0, FreePeriod) == GridCount(g, FreePeriod)
    decreases |targets|
  {
    if targets != [] && excess > 0 {
      var t := targets[0];
      assert t in targets;
      assert forall u :: u in targets[1..] ==> u in targets;
      var m := if corrected then Move(g, t, d) else Move(g, d, t);
      if corrected { MovePreservesFreeTotal(g, t, d); } else { MovePreservesFreeTotal(g, d, t); }
      if m.1 {
        MoveIntoTargetsTotal(m.0, counts[d := counts[d] - 1][t := counts[t] + 1], d, targets[1..], excess - 1, corrected);
      } else {
        MoveIntoTargetsTotal(g, counts, d, targets[1..], excess, corrected);
      }
    }
  }

  lemma OverloadedDayTotal(g: Grid, counts: seq<int>, d: nat, picks: seq<seq<nat>>, corrected: bool)
    requires |counts| == |g| && d < |g| && counts[d] > MaxFreePeriodsPerDay
    ensures var order := TargetOrder(counts, d, picks);
            GridCount(MoveIntoTargets(g, counts, d, order, counts[d] - MaxFreePeriodsPerDay, corrected).0, FreePeriod)
            == GridCount(g, FreePeriod)
  {
    var order := TargetOrder(counts, d, picks);
    assert Targets(order, counts, d);
    MoveIntoTargetsTotal(g, counts, d, order, counts[d] - MaxFreePeriodsPerDay, corrected);
  }

  lemma RebalanceDayTotal(g: Grid, counts: seq<int>, d: nat, picks: seq<seq<nat>>, corrected: bool)
    requires |counts| == |g| && d < |g|
    ensures GridCount(RebalanceDay(g, counts, d, picks, corrected).0, FreePeriod) == GridCount(g, FreePeriod)
  {
    if counts[d] > MaxFreePeriodsPerDay {
      OverloadedDayTotal(g, counts, d, picks, corrected);
    }
  }

  lemma {:induction false} RedistributeFromTotal(g: Grid, counts: seq<int>, d: nat, picks: seq<seq<nat>>, corrected: bool)
    requires |counts| == |g|
    ensures GridCount(RedistributeFrom(g, counts, d, picks, corrected).0, FreePeriod) == GridCount(g, FreePeriod)
    decreases |g| - d
  {
    if d < |g| {
      var m := RebalanceDay(g, counts, d, picks, corrected);
      RebalanceDayTotal(g, counts, d, picks, corrected);
      RedistributeFromTotal(m.0, m.1, d + 1, picks, corrected);
    }
  }

  /** Redistribution, as written or corrected, keeps the week's number of free
      periods, which is what its closing comparison of the two totals checks. */
  lemma RedistributePreservesFreeTotal(g: Grid, picks: seq<seq<nat>>)
    ensures GridCount(RedistributeAsWritten(g, picks).0, FreePeriod) == GridCount(g, FreePeriod)
    ensures GridCount(Redistribute(g, picks).0, FreePeriod) == GridCount(g, FreePeriod)
  {
    RedistributeFromTotal(g, FreeCounts(g), 0, picks, false);
    RedistributeFromTotal(g, FreeCounts(g), 0, picks, true);
  }

  // ---------------------------------------------------------------------------
  // The recorded counts
  // ---------------------------------------------------------------------------

  /** A move from day `src` into day `tgt` shifts one free period from the
      records of `tgt` to those of `src`. */
  lemma MoveTracks(g: Grid, counts: seq<int>, src: nat, tgt: nat)
    requires src < |g| && tgt < |g| && src != tgt && Move(g, src, tgt).1
    requires counts == FreeCounts(g)
    ensures counts[tgt := counts[tgt] - 1][src := counts[src] + 1] == FreeCounts(Move(g, src, tgt).0)
  {
    MoveShiftsFreePeriod(g, src, tgt);
    MoveSpec(g, src, tgt);
  }

  lemma {:induction false} MoveIntoTargetsTracks(g: Grid, counts: seq<int>, d: nat, targets: seq<nat>, excess: int)
    requires |counts| == |g| && d < |g| && forall t :: t in targets ==> t < |g| && t != d
    requires counts == FreeCounts(g)
    ensures var r := MoveIntoTargets(g, counts, d, targets, excess, true);
            r.1 == FreeCounts(r.0)
    decreases |targets|
  {
    if targets != [] && excess > 0 {
      var t := targets[0];
      assert t in targets;
      assert forall u :: u in targets[1..] ==> u in targets;
      var m := Move(g, t, d);
      if m.1 {
        MoveTracks(g, counts, t, d);
        MoveIntoTargetsTracks(m.0, counts[d := counts[d] - 1][t := counts[t] + 1], d, targets[1..], excess - 1);
      } else {
        MoveIntoTargetsTracks(g, counts, d, targets[1..], excess);
      }
    }
  }

  lemma OverloadedDayTracks(g: Grid, counts: seq<int>, d: nat, picks: seq<seq<nat>>)
    requires d < |g| && counts == FreeCounts(g) && counts[d] > MaxFreePeriodsPerDay
    ensures var r := MoveIntoTargets(g, counts, d, TargetOrder(counts, d, picks), counts[d] - MaxFreePeriodsPerDay, true);
            r.1 == FreeCounts(r.0)
  {
    var order := TargetOrder(counts, d, picks);
    assert Targets(order, counts, d);
    MoveIntoTargetsTracks(g, counts, d, order, counts[d] - MaxFreePeriodsPerDay);
  }

  lemma RebalanceDayTracks(g: Grid, counts: seq<int>, d: nat, picks: seq<seq<nat>>)
    requires d < |g| && counts == FreeCounts(g)
    ensures var r := RebalanceDay(g, counts, d, picks, true);
            r.1 == FreeCounts(r.0)
  {
    if counts[d] > MaxFreePeriodsPerDay {
      OverloadedDayTracks(g, counts, d, picks);
    }
  }

  lemma {:induction false} RedistributeFromTracks(g: Grid, counts: seq<int>, d: nat, picks: seq<seq<nat>>)
    requires counts == FreeCounts(g)
    ensures var r := RedistributeFrom(g, counts, d, picks, true);
            r.1 == FreeCounts(r.0)
    decreases |g| - d
  {
    if d < |g| {
      var m := RebalanceDay(g, counts, d, picks, true);
      RebalanceDayTracks(g, counts, d, picks);
      RedistributeFromTracks(m.0, m.1, d + 1, picks);
    }
  }

  /** With the moves taken into the overloaded day, the counts the loop
      records are at every step the days' actual numbers of free periods. */
  lemma RedistributeKeepsBookkeeping(g: Grid, picks: seq<seq<nat>>)
    ensures Redistribute(g, picks).1 == FreeCounts(Redistribute(g, picks).0)
  {
    RedistributeFromTracks(g, FreeCounts(g), 0, picks);
  }

  // ---------------------------------------------------------------------------
  // No day ends with more free periods than it may
  // ---------------------------------------------------------------------------

  /** The free periods each day may hold after redistribution: as many as it
      started with, or the maximum per day if that is more. */
  function FreeCeiling(g: Grid): (c: seq<int>)
    ensures |c| == |g|
    ensures forall k :: 0 <= k < |g| ==> c[k] >= MaxFreePeriodsPerDay && c[k] >= Count(g[k], FreePeriod)
    ensures forall k :: 0 <= k < |g| ==> c[k] == MaxFreePeriodsPerDay || c[k] == Count(g[k], FreePeriod)
  {
    seq(|g|, k requires 0 <= k < |g| =>
      if Count(g[k], FreePeriod) < MaxFreePeriodsPerDay then MaxFreePeriodsPerDay else Count(g[k], FreePeriod))
  }

  predicate Within(g: Grid, ceiling: seq<int>) {
    |g| == |ceiling| && forall k :: 0 <= k < |g| ==> Count(g[k], FreePeriod) <= ceiling[k]
  }

  /** A move into day `tgt` from a day with fewer than three free periods
      leaves every day within a ceiling of at least three. */
  lemma MoveWithin(g: Grid, counts: seq<int>, src: nat, tgt: nat, ceiling: seq<int>)
    requires src < |g| && tgt < |g| && src != tgt && Move(g, src, tgt).1
    requires counts == FreeCounts(g) && counts[src] < MaxFreePeriodsPerDay
    requires Within(g, ceiling) && forall k :: 0 <= k < |ceiling| ==> ceiling[k] >= MaxFreePeriodsPerDay
    ensures Within(Move(g, src, tgt).0, ceiling)
    ensures counts[tgt := counts[tgt] - 1][src := counts[src] + 1] == FreeCounts(Move(g, src, tgt).0)
  {
    MoveTracks(g, counts, src, tgt);
  }

  /** The preconditions of `MoveIntoTargetsWithin` hold again after one move. */
  lemma MoveStepWithin(g: Grid, counts: seq<int>, d: nat, targets: seq<nat>, ceiling: seq<int>)
    requires |counts| == |g| && d < |g| && targets != []
    requires Targets(targets, counts, d) && counts == FreeCounts(g)
    requires Within(g, ceiling) && forall k :: 0 <= k < |ceiling| ==> ceiling[k] >= MaxFreePeriodsPerDay
    requires targets[0] < |g| && Move(g, targets[0], d).1
    ensures var t := targets[0];
            var c := counts[d := counts[d] - 1][t := counts[t] + 1];
            var h := Move(g, t, d).0;
            Targets(targets[1..], c, d) && c == FreeCounts(h) && Within(h, ceiling)
  {
    var t := targets[0];
    assert t in targets;
    assert forall u :: u in targets[1..] ==> u in targets && u != t;
    MoveWithin(g, counts, t, d, ceiling);
  }

  lemma {:induction false} MoveIntoTargetsWithin(g: Grid, counts: seq<int>, d: nat, targets: seq<nat>, excess: int,
                                                 ceiling: seq<int>)
    requires |counts| == |g| && d < |g|
    requires Targets(targets, counts, d) && counts == FreeCounts(g)
    requires Within(g, ceiling) && forall k :: 0 <= k < |ceiling| ==> ceiling[k] >= MaxFreePeriodsPerDay
    ensures Within(MoveIntoTargets(g, counts, d, targets, excess, true).0, ceiling)
    decreases |targets|
  {
    if targets != [] && excess > 0 {
      var t := targets[0];
      assert t in targets;
      var m := Move(g, t, d);
      if m.1 {
        MoveStepWithin(g, counts, d, targets, ceiling);
        MoveIntoTargetsWithin(m.0, counts[d := counts[d] - 1][t := counts[t] + 1], d, targets[1..], excess - 1, ceiling);
      } else {
        assert forall u :: u in targets[1..] ==> u in targets;
        assert Distinct(targets[1..]);
        MoveIntoTargetsWithin(g, counts, d, targets[1..], excess, ceiling);
      }
    }
  }

  lemma OverloadedDayWithin(g: Grid, counts: seq<int>, d: nat, picks: seq<seq<nat>>, ceiling: seq<int>)
    requires d < |g| && counts == FreeCounts(g) && counts[d] > MaxFreePeriodsPerDay
    requires Within(g, ceiling) && forall k :: 0 <= k < |ceiling| ==> ceiling[k] >= MaxFreePeriodsPerDay
    ensures var order := TargetOrder(counts, d, picks);
            Within(MoveIntoTargets(g, counts, d, order, counts[d] - MaxFreePeriodsPerDay, true).0, ceiling)
  {
    var order := TargetOrder(counts, d, picks);
    assert Targets(order, counts, d);
    MoveIntoTargetsWithin(g, counts, d, order, counts[d] - MaxFreePeriodsPerDay, ceiling);
  }

  lemma RebalanceDayWithin(g: Grid, counts: seq<int>, d: nat, picks: seq<seq<nat>>, ceiling: seq<int>)
    requires d < |g| && counts == FreeCounts(g)
    requires Within(g, ceiling) && forall k :: 0 <= k < |ceiling| ==> ceiling[k] >= MaxFreePeriodsPerDay
    ensures Within(RebalanceDay(g, counts, d, picks, true).0, ceiling)
  {
    if counts[d] > MaxFreePeriodsPerDay {
      var order := TargetOrder(counts, d, picks);
      assert RebalanceDay(g, counts, d, picks, true)
          == MoveIntoTargets(g, counts, d, order, counts[d] - MaxFreePeriodsPerDay, true);
      OverloadedDayWithin(g, counts, d, picks, ceiling);
    } else {
      assert RebalanceDay(g, counts, d, picks, true) == (g, counts);
    }
  }

  lemma {:induction false} RedistributeFromWithin(g: Grid, counts: seq<int>, d: nat, picks: seq<seq<nat>>,
                                                  ceiling: seq<int>)
    requires counts == FreeCounts(g)
    requires Within(g, ceiling) && forall k :: 0 <= k < |ceiling| ==> ceiling[k] >= MaxFreePeriodsPerDay
    ensures Within(RedistributeFrom(g, counts, d, picks, true).0, ceiling)
    decreases |g| - d
  {
    if d < |g| {
      var m := RebalanceDay(g, counts, d, picks, true);
      RebalanceDayWithin(g, counts, d, picks, ceiling);
      RebalanceDayTracks(g, counts, d, picks);
      RedistributeFromWithin(m.0, m.1, d + 1, picks, ceiling);
    }
  }

  /** With the moves taken into the overloaded day, no day ends with more
      free periods than it started with unless it ends with at most three:
      a day receives a free period only while it has fewer than three. */
  lemma RedistributeNeverOverloads(g: Grid, picks: seq<seq<nat>>, k: nat)
    requires k < |g|
    ensures var n := Count(Redistribute(g, picks).0[k], FreePeriod);
            n <= MaxFreePeriodsPerDay || n <= Count(g[k], FreePeriod)
  {
    RedistributeFromWithin(g, FreeCounts(g), 0, picks, FreeCeiling(g));
  }

  /** A sequence holding only `x` counts each of its positions. */
  lemma {:induction false} CountConstant(xs: Row, x: string)
    requires forall k :: 0 <= k < |xs| ==> xs[k] == x
    ensures Count(xs, x) == |xs|
  {
    if xs != [] {
      CountConstant(xs[1..], x);
    }
  }

  /** The days of the example below and their free periods. */
  lemma ExampleMondayCounts()
    ensures Count(["A", FreePeriod, FreePeriod, FreePeriod, FreePeriod], FreePeriod) == 4
    ensures Count([FreePeriod, FreePeriod, FreePeriod, FreePeriod, FreePeriod], FreePeriod) == 5
  {
    var f := FreePeriod;
    CountConstant([f, f, f, f], f);
    CountConstant([f, f, f, f, f], f);
    assert ["A", f, f, f, f][1..] == [f, f, f, f];
  }

  lemma ExampleTuesdayCounts()
    ensures Count(["B", FreePeriod], FreePeriod) == 1
    ensures Count(["B", "A"], FreePeriod) == 0
  {
    var f := FreePeriod;
    assert ["B", f][1..] == [f];
    assert ["B", "A"][1..] == ["A"];
  }

  /** In the example, Monday's first session moves to Tuesday's free period. */
  lemma ExampleMove()
    ensures var f := FreePeriod;
            Move([["A", f, f, f, f], ["B", f]], 0, 1) == ([[f, f, f, f, f], ["B", "A"]], true)
  {
    var f := FreePeriod;
    var g := [["A", f, f, f, f], ["B", f]];
    assert !Contains("A", "Lab") by {
      assert !StartsWith("A", "Lab") && !StartsWith("", "Lab");
    }
    assert IsSessionLabel("A");
    assert Count(["B", f], "A") == 0;
    assert Accepts(g[1], "A");
    assert FirstMovable(g[0], g[1], 0) == Some(0);
    assert IndexOf(g[1], f) == 1;
    assert g[1][1 := "A"] == ["B", "A"];
    var g1 := g[1 := ["B", "A"]];
    assert g1 == [["A", f, f, f, f], ["B", "A"]];
    assert g1[0][0 := f] == [f, f, f, f, f];
    assert g1[0 := g1[0][0 := f]] == [[f, f, f, f, f], ["B", "A"]];
  }

  lemma ExampleFreeCounts()
    ensures var f := FreePeriod;
            FreeCounts([["A", f, f, f, f], ["B", f]]) == [4, 1]
            && FreeCounts([[f, f, f, f, f], ["B", "A"]]) == [5, 0]
  {
    ExampleMondayCounts();
    ExampleTuesdayCounts();
  }

  lemma ExampleTargets()
    ensures TargetOrder([4, 1], 0, []) == [1]
  {
    assert TargetDays([4, 1], 0, 2) == [];
    assert TargetDays([4, 1], 0, 1) == [1];
    assert TargetDays([4, 1], 0, 0) == [1];
  }

  /** Monday's turn in the example, as written. */
  lemma ExampleMondayTurn()
    ensures var f := FreePeriod;
            RebalanceDay([["A", f, f, f, f], ["B", f]], [4, 1], 0, [], false)
            == ([[f, f, f, f, f], ["B", "A"]], [3, 2])
  {
    var f := FreePeriod;
    var g := [["A", f, f, f, f], ["B", f]];
    var g2 := [[f, f, f, f, f], ["B", "A"]];
    ExampleTargets();
    ExampleMoveIntoTuesday();
  }

  lemma ExampleMoveIntoTuesday()
    ensures var f := FreePeriod;
            MoveIntoTargets([["A", f, f, f, f], ["B", f]], [4, 1], 0, [1], 1, false)
            == ([[f, f, f, f, f], ["B", "A"]], [3, 2])
  {
    var f := FreePeriod;
    var g := [["A", f, f, f, f], ["B", f]];
    var g2 := [[f, f, f, f, f], ["B", "A"]];
    ExampleMove();
    assert [4, 1][0 := 3][1 := 1 + 1] == [3, 2];
    assert MoveIntoTargets(g2, [3, 2], 0, [], 0, false) == (g2, [3, 2]);
  }

  /** As written, the first move already parts the records from the grid: a
      Monday with four free periods and a Tuesday with one end with five and
      none, while the records say three and two. */
  lemma AsWrittenBookkeepingDrifts()
    ensures var f := FreePeriod;
            var g := [["A", f, f, f, f], ["B", f]];
            var r := RedistributeAsWritten(g, []);
            FreeCounts(g) == [4, 1]
            && r.0 == [[f, f, f, f, f], ["B", "A"]]
            && r.1 == [3, 2] && FreeCounts(r.0) == [5, 0]
  {
    var f := FreePeriod;
    var g := [["A", f, f, f, f], ["B", f]];
    var g2 := [[f, f, f, f, f], ["B", "A"]];
    ExampleFreeCounts();
    ExampleMondayTurn();
    assert RedistributeFrom(g2, [3, 2], 2, [], false) == (g2, [3, 2]);
    assert RebalanceDay(g2, [3, 2], 1, [], false) == (g2, [3, 2]);
    assert RedistributeFrom(g2, [3, 2], 1, [], false) == (g2, [3, 2]);
    assert RedistributeFrom(g, [4, 1], 0, [], false) == (g2, [3, 2]);
  }
}
