/** `allocateRemainingSlots` of `TimetableService.java`: the slots still
    unallocated after the main passes go, one by one, to the subject that
    most needs hours, and become free periods once no subject needs any. */
module Allocation {
  import opened Wrappers
  import opened JavaText
  import opened Choice
  import opened Entities
  import opened Grid

  /** A slot of the grid: the day's index and the slot's index on that day. */
  datatype SlotPosition = SlotPosition(day: nat, index: nat)

  predicate ValidPosition(g: Grid, p: SlotPosition) {
    p.day < |g| && p.index < |g[p.day]|
  }

  predicate ValidPositions(g: Grid, positions: seq<SlotPosition>) {
    forall p :: p in positions ==> ValidPosition(g, p)
  }

  /** Two grids with the same days, each of the same length. */
  predicate SameShape(g: Grid, h: Grid) {
    |h| == |g| && forall d :: 0 <= d < |g| ==> |h[d]| == |g[d]|
  }

  /** Overwrites one slot. */
  function Write(g: Grid, p: SlotPosition, text: string): (h: Grid)
    requires ValidPosition(g, p)
    ensures SameShape(g, h)
  {
    g[p.day := g[p.day][p.index := text]]
  }

  // ---------------------------------------------------------------------------
  // Labels written here are never mistaken for an unallocated slot
  // ---------------------------------------------------------------------------

  /** A theory label holds " - " right after the faculty, so it is neither
      the unallocated marker nor a free period. */
  lemma TheoryLabelIsNoMarker(s: Subject)
    ensures TheoryLabel(s) != Unallocated && TheoryLabel(s) != FreePeriod
  {
    var f := JavaString(s.faculty);
    var text := TheoryLabel(s);
    assert text == f + " - " + JavaString(s.name);
    assert text[|f|] == ' ' && text[|f| + 1] == '-';
    assert forall i :: 0 <= i < |Unallocated| ==> Unallocated[i] != ' ';
    assert forall i :: 0 <= i < |FreePeriod| - 1 ==> FreePeriod[i] != ' ' || FreePeriod[i + 1] != '-';
  }

  // ---------------------------------------------------------------------------
  // The hours each subject still needs
  // ---------------------------------------------------------------------------

  /** The hours a subject should hold: its weekly hours, plus one lab block. */
  function TargetHours(s: Subject): int {
    s.hoursPerWeek + if s.labRequired then LabLength else 0
  }

  /** The map `remainingHours`, indexed by the subject's position in the list
      (the map is keyed by object identity): the shortfall of a subject whose
      actual hours fall short of its target, and 0 for a subject the map omits. */
  function Remaining(g: Grid, subjects: seq<Subject>): (rem: seq<int>)
    ensures |rem| == |subjects|
  {
    seq(|subjects|, k requires 0 <= k < |subjects| =>
      if ActualHours(g, subjects[k]) < TargetHours(subjects[k])
      then TargetHours(subjects[k]) - ActualHours(g, subjects[k]) else 0)
  }

  /** A subject is needy exactly when it falls short of its target, and then
      it needs exactly its shortfall. */
  lemma RemainingSpec(g: Grid, subjects: seq<Subject>, k: nat)
    requires k < |subjects|
    ensures Remaining(g, subjects)[k] >= 0
    ensures Remaining(g, subjects)[k] > 0 <==> ActualHours(g, subjects[k]) < TargetHours(subjects[k])
    ensures Remaining(g, subjects)[k] > 0 ==>
              ActualHours(g, subjects[k]) + Remaining(g, subjects)[k] == TargetHours(subjects[k])
  {
  }

  /** The indices from `from` on of the subjects with hours left, ascending. */
  function NeedyFrom(rem: seq<int>, from: nat): (ks: seq<nat>)
    ensures forall k :: k in ks <==> from <= k < |rem| && rem[k] > 0
    decreases |rem| - from
  {
    if from >= |rem| then []
    else (if rem[from] > 0 then [from] else []) + NeedyFrom(rem, from + 1)
  }

  /** The sort key of `needySubjects`: the negated hours left. */
  function Urgency(rem: seq<int>): nat -> int {
    (k: nat) => if k < |rem| then -rem[k] else 0
  }

  /** `needySubjects`: the map's keys in the order `keySet()` gives them, which
      the picks decide, then stably sorted so that the subjects with the most
      hours left come first. */
  function NeedyOrder(rem: seq<int>, picks: seq<nat>): seq<nat> {
    SortBy(Shuffle(NeedyFrom(rem, 0), picks), Urgency(rem))
  }

  /** Every index of `order` names a subject. */
  predicate InRange(order: seq<nat>, n: nat) {
    forall j :: 0 <= j < |order| ==> order[j] < n
  }

  /** The order lists every needy subject once, and no other. */
  lemma NeedyOrderMembers(rem: seq<int>, picks: seq<nat>)
    ensures var order := NeedyOrder(rem, picks);
            multiset(order) == multiset(NeedyFrom(rem, 0))
            && (forall k: nat :: k in order <==> k < |rem| && rem[k] > 0)
            && InRange(order, |rem|)
  {
    var needy := NeedyFrom(rem, 0);
    var shuffled := Shuffle(needy, picks);
    var order := SortBy(shuffled, Urgency(rem));
    SortBySpec(shuffled, Urgency(rem));
    assert multiset(order) == multiset(needy);
    PermutedNeedy(order, needy, rem);
  }

  /** A permutation of the needy indices holds exactly the needy indices. */
  lemma PermutedNeedy(order: seq<nat>, needy: seq<nat>, rem: seq<int>)
    requires multiset(order) == multiset(needy)
    requires forall k: nat :: k in needy <==> k < |rem| && rem[k] > 0
    ensures forall k: nat :: k in order <==> k < |rem| && rem[k] > 0
    ensures InRange(order, |rem|)
  {
    SameMembers(order, needy);
    forall j | 0 <= j < |order| ensures order[j] < |rem| {
      assert order[j] in order;
    }
  }

  /** Along the order the hours left never increase. */
  lemma NeedyOrderSorted(rem: seq<int>, picks: seq<nat>)
    ensures var order := NeedyOrder(rem, picks);
            InRange(order, |rem|)
            && forall i, j :: 0 <= i < j < |order| ==> rem[order[i]] >= rem[order[j]]
  {
    NeedyOrderMembers(rem, picks);
    var order := NeedyOrder(rem, picks);
    SortBySpec(Shuffle(NeedyFrom(rem, 0), picks), Urgency(rem));
    forall i, j | 0 <= i < j < |order| ensures rem[order[i]] >= rem[order[j]] {
      assert Urgency(rem)(order[i]) <= Urgency(rem)(order[j]);
    }
  }

  /** No subject in the order has hours left. */
  predicate Exhausted(order: seq<nat>, rem: seq<int>)
    requires InRange(order, |rem|)
  {
    forall j :: 0 <= j < |order| ==> rem[order[j]] <= 0
  }

  /** The inner loop: the place in the order of the first subject with hours left. */
  function FirstWithHours(order: seq<nat>, rem: seq<int>): (r: Option<nat>)
    requires InRange(order, |rem|)
    ensures r.Some? ==> r.value < |order| && rem[order[r.value]] > 0
    ensures r.Some? ==> forall j :: 0 <= j < r.value ==> rem[order[j]] <= 0
    ensures r.None? <==> Exhausted(order, rem)
  {
    if order == [] then None
    else if rem[order[0]] > 0 then Some(0)
    else match FirstWithHours(order[1..], rem)
      case None => None
      case Some(j) => Some(j + 1)
  }

  // ---------------------------------------------------------------------------
  // The outer loop
  // ---------------------------------------------------------------------------

  /** Well-formed loop state: the order names subjects, and there is one
      count of hours left per subject. */
  predicate Fits(subjects: seq<Subject>, order: seq<nat>, rem: seq<int>) {
    |rem| == |subjects| && InRange(order, |subjects|)
  }

  /** One position: a slot no longer unallocated is skipped; otherwise it goes
      to the first subject in the order with hours left, whose count drops by
      one, or becomes a free period when there is none. */
  function AllocateAt(g: Grid, p: SlotPosition, subjects: seq<Subject>, order: seq<nat>, rem: seq<int>): (r: (Grid, seq<int>))
    requires ValidPosition(g, p) && Fits(subjects, order, rem)
    ensures SameShape(g, r.0) && |r.1| == |rem|
  {
    if g[p.day][p.index] != Unallocated then (g, rem)
    else match FirstWithHours(order, rem)
      case None => (Write(g, p, FreePeriod), rem)
      case Some(j) =>
        var k := order[j];
        (Write(g, p, TheoryLabel(subjects[k])), rem[k := rem[k] - 1])
  }

  /** The listed positions in order. */
  function AllocateAll(g: Grid, positions: seq<SlotPosition>, subjects: seq<Subject>, order: seq<nat>, rem: seq<int>): (r: (Grid, seq<int>))
    requires ValidPositions(g, positions) && Fits(subjects, order, rem)
    ensures SameShape(g, r.0) && |r.1| == |rem|
    decreases |positions|
  {
    if positions == [] then (g, rem)
    else
      var step := AllocateAt(g, positions[0], subjects, order, rem);
      ShapeKeepsPositions(g, step.0, positions[1..]);
      AllocateAll(step.0, positions[1..], subjects, order, step.1)
  }

  lemma ShapeKeepsPositions(g: Grid, h: Grid, positions: seq<SlotPosition>)
    requires SameShape(g, h) && ValidPositions(g, positions)
    ensures ValidPositions(h, positions)
  {
  }

  /** `allocateRemainingSlots`: the hours left are measured on the grid as it
      stands, and the picks decide the order of subjects that need as many. */
  function AllocateRemainingSlots(g: Grid, positions: seq<SlotPosition>, subjects: seq<Subject>, picks: seq<nat>): (h: Grid)
    requires ValidPositions(g, positions)
    ensures SameShape(g, h)
  {
    AllocationOutcome(g, positions, subjects, picks).0
  }

  /** The grid after the pass, with the hours each subject still needs. */
  function AllocationOutcome(g: Grid, positions: seq<SlotPosition>, subjects: seq<Subject>, picks: seq<nat>): (r: (Grid, seq<int>))
    requires ValidPositions(g, positions)
    ensures SameShape(g, r.0) && |r.1| == |subjects|
  {
    var rem := Remaining(g, subjects);
    NeedyOrderMembers(rem, picks);
    AllocateAll(g, positions, subjects, NeedyOrder(rem, picks), rem)
  }

  // ---------------------------------------------------------------------------
  // Which slots change, and into what
  // ---------------------------------------------------------------------------

  /** Every slot that differs was unallocated and listed, and now holds a free
      period or the theory label of a subject in the order. */
  predicate Allocated(g: Grid, h: Grid, positions: seq<SlotPosition>, subjects: seq<Subject>, order: seq<nat>)
    requires InRange(order, |subjects|)
  {
    SameShape(g, h)
    && forall d, i :: 0 <= d < |g| && 0 <= i < |g[d]| && h[d][i] != g[d][i] ==>
         g[d][i] == Unallocated && SlotPosition(d, i) in positions
         && (h[d][i] == FreePeriod || exists j :: 0 <= j < |order| && h[d][i] == TheoryLabel(subjects[order[j]]))
  }

  lemma AllocateAtAllocated(g: Grid, p: SlotPosition, subjects: seq<Subject>, order: seq<nat>, rem: seq<int>)
    requires ValidPosition(g, p) && Fits(subjects, order, rem)
    ensures Allocated(g, AllocateAt(g, p, subjects, order, rem).0, [p], subjects, order)
    ensures AllocateAt(g, p, subjects, order, rem).0[p.day][p.index] != Unallocated
  {
    match FirstWithHours(order, rem)
    case None =>
    case Some(j) => TheoryLabelIsNoMarker(subjects[order[j]]);
  }

  /** Allocations one after another make an allocation of both lists, since a
      slot once allocated is never unallocated again. */
  lemma AllocatedTrans(g: Grid, h: Grid, k: Grid, ps: seq<SlotPosition>, qs: seq<SlotPosition>, subjects: seq<Subject>, order: seq<nat>)
    requires InRange(order, |subjects|)
    requires Allocated(g, h, ps, subjects, order) && Allocated(h, k, qs, subjects, order)
    ensures Allocated(g, k, ps + qs, subjects, order)
  {
    forall d, i | 0 <= d < |g| && 0 <= i < |g[d]| && k[d][i] != g[d][i]
      ensures g[d][i] == Unallocated && SlotPosition(d, i) in ps + qs
    {
      AllocatedCell(g, h, ps, subjects, order, d, i);
    }
  }

  /** A slot the allocation changed is no longer unallocated. */
  lemma AllocatedCell(g: Grid, h: Grid, ps: seq<SlotPosition>, subjects: seq<Subject>, order: seq<nat>, d: nat, i: nat)
    requires InRange(order, |subjects|)
    requires Allocated(g, h, ps, subjects, order) && d < |g| && i < |g[d]|
    ensures h[d][i] != g[d][i] ==> h[d][i] != Unallocated
  {
    if h[d][i] != g[d][i] && h[d][i] != FreePeriod {
      var j :| 0 <= j < |order| && h[d][i] == TheoryLabel(subjects[order[j]]);
      TheoryLabelIsNoMarker(subjects[order[j]]);
    }
  }

  /** The slots that differ are listed ones that were unallocated, and every
      listed slot ends allocated. */
  lemma {:induction false} AllocateAllAllocated(g: Grid, positions: seq<SlotPosition>, subjects: seq<Subject>, order: seq<nat>, rem: seq<int>)
    requires ValidPositions(g, positions) && Fits(subjects, order, rem)
    ensures var h := AllocateAll(g, positions, subjects, order, rem).0;
            Allocated(g, h, positions, subjects, order)
            && forall p :: p in positions ==> h[p.day][p.index] != Unallocated
    decreases |positions|
  {
    if positions != [] {
      var p := positions[0];
      var step := AllocateAt(g, p, subjects, order, rem);
      ShapeKeepsPositions(g, step.0, positions[1..]);
      var h := AllocateAll(step.0, positions[1..], subjects, order, step.1).0;
      AllocateAtAllocated(g, p, subjects, order, rem);
      AllocateAllAllocated(step.0, positions[1..], subjects, order, step.1);
      AllocatedTrans(g, step.0, h, [p], positions[1..], subjects, order);
      assert [p] + positions[1..] == positions;
      forall q | q in positions ensures h[q.day][q.index] != Unallocated {
        if q == p {
          assert step.0[p.day][p.index] != Unallocated;
        }
      }
    }
  }

  // ---------------------------------------------------------------------------
  // Hours: no subject receives more than it needs
  // ---------------------------------------------------------------------------

  /** The hours left, summed over the subjects whose theory label is `x`. */
  function LabelRem(subjects: seq<Subject>, rem: seq<int>, x: string): int
    requires |rem| == |subjects|
  {
    if subjects == [] then 0
    else
      var n := |subjects| - 1;
      LabelRem(subjects[..n], rem[..n], x) + (if TheoryLabel(subjects[n]) == x then rem[n] else 0)
  }

  /** Lowering one subject's hours lowers the sum for its label alone. */
  lemma {:induction false} LabelRemUpdate(subjects: seq<Subject>, rem: seq<int>, k: nat, v: int, x: string)
    requires |rem| == |subjects| && k < |rem|
    ensures LabelRem(subjects, rem[k := v], x)
         == LabelRem(subjects, rem, x) - (if TheoryLabel(subjects[k]) == x then rem[k] - v else 0)
  {
    var n := |subjects| - 1;
    var r2 := rem[k := v];
    if k < n {
      assert r2[..n] == rem[..n][k := v];
      LabelRemUpdate(subjects[..n], rem[..n], k, v, x);
    } else {
      assert r2[..n] == rem[..n];
    }
  }

  /** Subjects with pairwise different theory labels. */
  predicate DistinctLabels(subjects: seq<Subject>) {
    forall a, b :: 0 <= a < b < |subjects| ==> TheoryLabel(subjects[a]) != TheoryLabel(subjects[b])
  }

  /** With distinct labels, the sum for a subject's label is its own hours left. */
  lemma {:induction false} LabelRemOfDistinct(subjects: seq<Subject>, rem: seq<int>, k: nat)
    requires |rem| == |subjects| && k < |subjects| && DistinctLabels(subjects)
    ensures LabelRem(subjects, rem, TheoryLabel(subjects[k])) == rem[k]
  {
    var n := |subjects| - 1;
    if k < n {
      LabelRemOfDistinct(subjects[..n], rem[..n], k);
    } else {
      LabelRemAbsent(subjects[..n], rem[..n], TheoryLabel(subjects[k]));
    }
  }

  lemma {:induction false} LabelRemAbsent(subjects: seq<Subject>, rem: seq<int>, x: string)
    requires |rem| == |subjects|
    requires forall a :: 0 <= a < |subjects| ==> TheoryLabel(subjects[a]) != x
    ensures LabelRem(subjects, rem, x) == 0
  {
    if subjects != [] {
      LabelRemAbsent(subjects[..|subjects| - 1], rem[..|subjects| - 1], x);
    }
  }

  /** One position moves an hour from the subject's count into the grid, so
      sessions placed plus hours left stay the same for every label other
      than the markers the loop overwrites. */
  lemma AllocateAtConserves(g: Grid, p: SlotPosition, subjects: seq<Subject>, order: seq<nat>, rem: seq<int>, x: string)
    requires ValidPosition(g, p) && Fits(subjects, order, rem)
    requires x != Unallocated && x != FreePeriod
    ensures var r := AllocateAt(g, p, subjects, order, rem);
            GridCount(r.0, x) + LabelRem(subjects, r.1, x) == GridCount(g, x) + LabelRem(subjects, rem, x)
  {
    var row := g[p.day];
    if row[p.index] == Unallocated {
      match FirstWithHours(order, rem)
      case None =>
        GridCountUpdate(g, p.day, row[p.index := FreePeriod], x);
        CountUpdate(row, p.index, FreePeriod, x);
      case Some(j) =>
        var k := order[j];
        GridCountUpdate(g, p.day, row[p.index := TheoryLabel(subjects[k])], x);
        CountUpdate(row, p.index, TheoryLabel(subjects[k]), x);
        LabelRemUpdate(subjects, rem, k, rem[k] - 1, x);
    }
  }

  lemma {:induction false} AllocateAllConserves(g: Grid, positions: seq<SlotPosition>, subjects: seq<Subject>, order: seq<nat>, rem: seq<int>, x: string)
    requires ValidPositions(g, positions) && Fits(subjects, order, rem)
    requires x != Unallocated && x != FreePeriod
    ensures var r := AllocateAll(g, positions, subjects, order, rem);
            GridCount(r.0, x) + LabelRem(subjects, r.1, x) == GridCount(g, x) + LabelRem(subjects, rem, x)
    decreases |positions|
  {
    if positions != [] {
      var step := AllocateAt(g, positions[0], subjects, order, rem);
      ShapeKeepsPositions(g, step.0, positions[1..]);
      AllocateAtConserves(g, positions[0], subjects, order, rem, x);
      AllocateAllConserves(step.0, positions[1..], subjects, order, step.1, x);
    }
  }

  /** Hours left only go down, and never below zero. */
  predicate Drained(rem: seq<int>, after: seq<int>) {
    |after| == |rem| && forall k :: 0 <= k < |rem| ==> (rem[k] >= 0 ==> 0 <= after[k]) && after[k] <= rem[k]
  }

  lemma {:induction false} AllocateAllDrains(g: Grid, positions: seq<SlotPosition>, subjects: seq<Subject>, order: seq<nat>, rem: seq<int>)
    requires ValidPositions(g, positions) && Fits(subjects, order, rem)
    ensures Drained(rem, AllocateAll(g, positions, subjects, order, rem).1)
    decreases |positions|
  {
    if positions != [] {
      var step := AllocateAt(g, positions[0], subjects, order, rem);
      ShapeKeepsPositions(g, step.0, positions[1..]);
      AllocateAllDrains(step.0, positions[1..], subjects, order, step.1);
    }
  }

  /** A free period is written only once no subject in the order has hours
      left, and from then on none has. */
  lemma {:induction false} AllocateAllFreeLast(g: Grid, positions: seq<SlotPosition>, subjects: seq<Subject>, order: seq<nat>, rem: seq<int>, d: nat, i: nat)
    requires ValidPositions(g, positions) && Fits(subjects, order, rem)
    requires d < |g| && i < |g[d]|
    ensures var r := AllocateAll(g, positions, subjects, order, rem);
            r.0[d][i] == FreePeriod && g[d][i] != FreePeriod ==> Exhausted(order, r.1)
    decreases |positions|
  {
    if positions != [] {
      var p := positions[0];
      var step := AllocateAt(g, p, subjects, order, rem);
      ShapeKeepsPositions(g, step.0, positions[1..]);
      AllocateAllFreeLast(step.0, positions[1..], subjects, order, step.1, d, i);
      AllocateAllDrains(step.0, positions[1..], subjects, order, step.1);
      AllocateAllAllocated(step.0, positions[1..], subjects, order, step.1);
      AllocateAtFree(g, p, subjects, order, rem, d, i);
    }
  }

  /** One position writes a free period only when no subject in the order
      has hours left, and then leaves the hours as they are. */
  lemma AllocateAtFree(g: Grid, p: SlotPosition, subjects: seq<Subject>, order: seq<nat>, rem: seq<int>, d: nat, i: nat)
    requires ValidPosition(g, p) && Fits(subjects, order, rem)
    requires d < |g| && i < |g[d]|
    ensures var step := AllocateAt(g, p, subjects, order, rem);
            step.0[d][i] == FreePeriod && g[d][i] != FreePeriod ==> step.1 == rem && Exhausted(order, rem)
  {
    if g[p.day][p.index] == Unallocated {
      match FirstWithHours(order, rem)
      case None =>
      case Some(j) => TheoryLabelIsNoMarker(subjects[order[j]]);
    }
  }

  // ---------------------------------------------------------------------------
  // The whole pass
  // ---------------------------------------------------------------------------

  /** Only listed slots that were unallocated change; each of them ends as a
      free period or the theory label of a subject that needed hours; and a
      free period is placed only once no subject needs any more. */
  lemma AllocateRemainingSlotsSpec(g: Grid, positions: seq<SlotPosition>, subjects: seq<Subject>, picks: seq<nat>)
    requires ValidPositions(g, positions)
    ensures var h := AllocateRemainingSlots(g, positions, subjects, picks);
            var rem := Remaining(g, subjects);
            (forall d, i :: 0 <= d < |g| && 0 <= i < |g[d]| && h[d][i] != g[d][i] ==>
               g[d][i] == Unallocated && SlotPosition(d, i) in positions
               && (h[d][i] == FreePeriod
                   || exists k :: 0 <= k < |subjects| && rem[k] > 0 && h[d][i] == TheoryLabel(subjects[k])))
            && (forall p :: p in positions ==> h[p.day][p.index] != Unallocated)
  {
    var rem := Remaining(g, subjects);
    NeedyOrderMembers(rem, picks);
    var order := NeedyOrder(rem, picks);
    var h := AllocateAll(g, positions, subjects, order, rem).0;
    AllocateAllAllocated(g, positions, subjects, order, rem);
    forall d, i | 0 <= d < |g| && 0 <= i < |g[d]| && h[d][i] != g[d][i] && h[d][i] != FreePeriod
      ensures exists k :: 0 <= k < |subjects| && rem[k] > 0 && h[d][i] == TheoryLabel(subjects[k])
    {
      var j :| 0 <= j < |order| && h[d][i] == TheoryLabel(subjects[order[j]]);
      assert order[j] in order;
    }
  }

  /** A free period placed by the pass means that every subject that needed
      hours received all of them. */
  lemma AllocateRemainingSlotsFreeLast(g: Grid, positions: seq<SlotPosition>, subjects: seq<Subject>, picks: seq<nat>, d: nat, i: nat, k: nat)
    requires ValidPositions(g, positions)
    requires d < |g| && i < |g[d]| && k < |subjects| && Remaining(g, subjects)[k] > 0
    requires AllocateRemainingSlots(g, positions, subjects, picks)[d][i] == FreePeriod && g[d][i] != FreePeriod
    ensures AllocationOutcome(g, positions, subjects, picks).1[k] == 0
  {
    var rem := Remaining(g, subjects);
    NeedyOrderMembers(rem, picks);
    var order := NeedyOrder(rem, picks);
    AllocateAllFreeLast(g, positions, subjects, order, rem, d, i);
    AllocateAllDrains(g, positions, subjects, order, rem);
    var j :| 0 <= j < |order| && order[j] == k;
  }

  /** With distinct theory labels, a subject gains at most its shortfall:
      exactly the hours its count dropped by, and none when it needed none. */
  lemma AllocateRemainingSlotsWithinShortfall(g: Grid, positions: seq<SlotPosition>, subjects: seq<Subject>, picks: seq<nat>, k: nat)
    requires ValidPositions(g, positions) && DistinctLabels(subjects) && k < |subjects|
    ensures var h := AllocateRemainingSlots(g, positions, subjects, picks);
            var x := TheoryLabel(subjects[k]);
            var need := Remaining(g, subjects)[k];
            GridCount(g, x) <= GridCount(h, x) <= GridCount(g, x) + need
            && (ActualHours(g, subjects[k]) >= TargetHours(subjects[k]) ==> GridCount(h, x) == GridCount(g, x))
  {
    var rem := Remaining(g, subjects);
    NeedyOrderMembers(rem, picks);
    var order := NeedyOrder(rem, picks);
    var r := AllocateAll(g, positions, subjects, order, rem);
    var x := TheoryLabel(subjects[k]);
    TheoryLabelIsNoMarker(subjects[k]);
    AllocateAllConserves(g, positions, subjects, order, rem, x);
    AllocateAllDrains(g, positions, subjects, order, rem);
    LabelRemOfDistinct(subjects, rem, k);
    LabelRemOfDistinct(subjects, r.1, k);
    RemainingSpec(g, subjects, k);
  }
}
