/** `validateAndFixConsecutiveSlots` of `TimetableService.java`: on each day,
    the third of three equal consecutive sessions is replaced, and then every
    session beyond a label's second on the day becomes a free period. */
module SessionCap {
  import opened JavaText
  import opened Choice
  import opened Entities
  import opened Grid

  // ---------------------------------------------------------------------------
  // Three equal sessions in a row
  // ---------------------------------------------------------------------------

  /** Slots `i`, `i + 1` and `i + 2` hold the same theory session. */
  predicate TripleAt(row: Row, i: int) {
    0 <= i && i + 2 < |row| && IsSessionLabel(row[i]) && row[i] == row[i + 1] && row[i] == row[i + 2]
  }

  /** What replaces the third session of a triple of `text`: the first
      subject, in the shuffled order, whose label differs from `text` and
      that has fewer than two sessions on the day; a free period when none has. */
  function Replacement(row: Row, text: string, candidates: seq<Subject>): (r: string)
    ensures r == FreePeriod
            || exists s :: s in candidates && r == TheoryLabel(s) && r != text && Count(row, r) < MaxSessionsPerDay
  {
    if candidates == [] then FreePeriod
    else
      var own := TheoryLabel(candidates[0]);
      if own != text && Count(row, own) < MaxSessionsPerDay then own
      else Replacement(row, text, candidates[1..])
  }

  /** The shuffle outcome used when a triple is found at slot `i`. */
  function PicksAt(picks: seq<seq<nat>>, i: nat): seq<nat> {
    if i < |picks| then picks[i] else []
  }

  /** The first loop over one day, from slot `i` on: a triple starting at the
      current slot has its third slot replaced before the scan moves on. */
  function BreakTriplesFrom(row: Row, i: nat, subjects: seq<Subject>, picks: seq<seq<nat>>): (r: Row)
    ensures |r| == |row|
    decreases |row| - i
  {
    if i + 2 >= |row| then row
    else if TripleAt(row, i) then
      var text := Replacement(row, row[i], Shuffle(subjects, PicksAt(picks, i)));
      BreakTriplesFrom(row[i + 2 := text], i + 1, subjects, picks)
    else
      BreakTriplesFrom(row, i + 1, subjects, picks)
  }

  function BreakTriples(row: Row, subjects: seq<Subject>, picks: seq<seq<nat>>): Row {
    BreakTriplesFrom(row, 0, subjects, picks)
  }

  /** The label replacing a triple's third session differs from the triple's label. */
  lemma ReplacementDiffers(row: Row, text: string, candidates: seq<Subject>)
    requires IsSessionLabel(text)
    ensures Replacement(row, text, candidates) != text
  {
  }

  /** A changed slot held a theory session and now holds a free period or
      the label of one of the subjects. */
  predicate Repaired(row: Row, r: Row, subjects: seq<Subject>) {
    |r| == |row|
    && forall k :: 0 <= k < |r| && r[k] != row[k] ==>
         IsSessionLabel(row[k]) && (r[k] == FreePeriod || exists s :: s in subjects && r[k] == TheoryLabel(s))
  }

  lemma {:induction false} BreakTriplesFromClears(row: Row, i: nat, subjects: seq<Subject>, picks: seq<seq<nat>>)
    requires forall j :: 0 <= j < i ==> !TripleAt(row, j)
    ensures forall j :: !TripleAt(BreakTriplesFrom(row, i, subjects, picks), j)
    decreases |row| - i
  {
    if i + 2 < |row| {
      if TripleAt(row, i) {
        var cands := Shuffle(subjects, PicksAt(picks, i));
        var next := row[i + 2 := Replacement(row, row[i], cands)];
        forall j | 0 <= j < i + 1 ensures !TripleAt(next, j) {
          ReplaceThird(row, i, cands, j);
        }
        BreakTriplesFromClears(next, i + 1, subjects, picks);
      } else {
        BreakTriplesFromClears(row, i + 1, subjects, picks);
      }
    }
  }

  lemma {:induction false} BreakTriplesFromRepairs(row: Row, i: nat, subjects: seq<Subject>, picks: seq<seq<nat>>)
    ensures Repaired(row, BreakTriplesFrom(row, i, subjects, picks), subjects)
    decreases |row| - i
  {
    if i + 2 < |row| {
      if TripleAt(row, i) {
        var cands := Shuffle(subjects, PicksAt(picks, i));
        var next := row[i + 2 := Replacement(row, row[i], cands)];
        ReplaceThirdRepairs(row, i, subjects, cands);
        BreakTriplesFromRepairs(next, i + 1, subjects, picks);
        RepairedTrans(row, next, BreakTriplesFrom(next, i + 1, subjects, picks), subjects);
      } else {
        BreakTriplesFromRepairs(row, i + 1, subjects, picks);
      }
    }
  }

  /** Replacing the third session of the triple at `i` removes that triple
      and creates none at an earlier slot. */
  lemma ReplaceThird(row: Row, i: nat, cands: seq<Subject>, j: nat)
    requires TripleAt(row, i) && j <= i && (j < i ==> !TripleAt(row, j))
    ensures !TripleAt(row[i + 2 := Replacement(row, row[i], cands)], j)
  {
    ReplacementDiffers(row, row[i], cands);
  }

  /** Replacing the third session of a triple is a repair. */
  lemma ReplaceThirdRepairs(row: Row, i: nat, subjects: seq<Subject>, cands: seq<Subject>)
    requires TripleAt(row, i) && multiset(cands) == multiset(subjects)
    ensures Repaired(row, row[i + 2 := Replacement(row, row[i], cands)], subjects)
  {
    forall s | s in cands ensures s in subjects {
      assert s in multiset(cands);
    }
  }

  /** Repairs done one after another are a repair of the original day. */
  lemma RepairedTrans(a: Row, b: Row, c: Row, subjects: seq<Subject>)
    requires Repaired(a, b, subjects) && Repaired(b, c, subjects)
    ensures Repaired(a, c, subjects)
  {
  }

  // ---------------------------------------------------------------------------
  // At most two sessions of a label per day
  // ---------------------------------------------------------------------------

  /** Whether slot `n` is cut: its label is a theory session that already
      filled two earlier slots of the day. */
  predicate CutAt(row: Row, n: nat)
    requires n < |row|
  {
    IsSessionLabel(row[n]) && Count(row[..n], row[n]) >= MaxSessionsPerDay
  }

  /** The second loop over one day: each theory session keeps its first two
      slots by position, and its later slots become free periods. */
  function CapSessions(row: Row): (r: Row)
    ensures |r| == |row|
  {
    if row == [] then []
    else
      var n := |row| - 1;
      CapSessions(row[..n]) + [if CutAt(row, n) then FreePeriod else row[n]]
  }

  /** Slot `i` becomes a free period exactly when it is cut, and otherwise keeps its label. */
  lemma {:induction false} CapSessionsAt(row: Row, i: nat)
    requires i < |row|
    ensures CapSessions(row)[i] == if CutAt(row, i) then FreePeriod else row[i]
  {
    var n := |row| - 1;
    CapSessionsLast(row);
    if i < n {
      CapSessionsAt(row[..n], i);
      assert row[..n][i] == row[i];
      assert row[..n][..i] == row[..i];
      assert CutAt(row[..n], i) == CutAt(row, i);
      assert CapSessions(row)[i] == CapSessions(row[..n])[i];
    } else {
      assert CapSessions(row)[i] == if CutAt(row, n) then FreePeriod else row[n];
    }
  }

  /** The cap unfolded at the last slot of the day. */
  lemma CapSessionsLast(row: Row)
    requires row != []
    ensures CapSessions(row) == CapSessions(row[..|row| - 1]) + [if CutAt(row, |row| - 1) then FreePeriod else row[|row| - 1]]
  {
  }

  /** After the cap a theory session fills as many slots as before, but at
      most two. */
  lemma {:induction false} CapSessionsCount(row: Row, x: string)
    requires IsSessionLabel(x)
    ensures Count(CapSessions(row), x) == if Count(row, x) < MaxSessionsPerDay then Count(row, x) else MaxSessionsPerDay
  {
    if row != [] {
      var n := |row| - 1;
      CapSessionsLast(row);
      CapSessionsCount(row[..n], x);
      CountSnoc(CapSessions(row[..n]), if CutAt(row, n) then FreePeriod else row[n], x);
      assert row[..n + 1] == row;
      CountPrefixStep(row, n, x);
    }
  }

  /** Every label other than a theory session or the free period keeps its
      count under the cap. */
  lemma {:induction false} CapSessionsKeeps(row: Row, x: string)
    requires !IsSessionLabel(x) && x != FreePeriod
    ensures Count(CapSessions(row), x) == Count(row, x)
  {
    if row != [] {
      var n := |row| - 1;
      CapSessionsLast(row);
      CapSessionsKeeps(row[..n], x);
      CountSnoc(CapSessions(row[..n]), if CutAt(row, n) then FreePeriod else row[n], x);
      assert row[..n + 1] == row;
      CountPrefixStep(row, n, x);
    }
  }

  /** Three equal slots in a row make at least three sessions of their label. */
  lemma TripleCount(row: Row, j: nat)
    requires TripleAt(row, j)
    ensures Count(row, row[j]) >= 3
  {
    var x := row[j];
    assert row == row[..j] + [x, x, x] + row[j + 3..];
    CountAppend(row[..j] + [x, x, x], row[j + 3..], x);
    CountAppend(row[..j], [x, x, x], x);
    assert Count([x, x, x], x) == 3 by {
      assert [x, x, x][1..] == [x, x];
      assert [x, x][1..] == [x];
    }
  }

  /** The cap changes only theory sessions, into free periods. */
  lemma CapSessionsRepairs(row: Row, subjects: seq<Subject>)
    ensures Repaired(row, CapSessions(row), subjects)
  {
    forall k | 0 <= k < |row| ensures CapSessions(row)[k] == row[k] || (IsSessionLabel(row[k]) && CapSessions(row)[k] == FreePeriod) {
      CapSessionsAt(row, k);
    }
  }

  // ---------------------------------------------------------------------------
  // validateAndFixConsecutiveSlots
  // ---------------------------------------------------------------------------

  /** The shuffle outcomes used on day `d`. */
  function DayPicks(picks: seq<seq<seq<nat>>>, d: nat): seq<seq<nat>> {
    if d < |picks| then picks[d] else []
  }

  /** One day through both loops. */
  function FixDay(row: Row, subjects: seq<Subject>, picks: seq<seq<nat>>): Row {
    CapSessions(BreakTriples(row, subjects, picks))
  }

  /** `validateAndFixConsecutiveSlots`: every day is fixed on its own, so the
      order in which the days are visited does not matter. */
  function ValidateAndFix(g: Grid, subjects: seq<Subject>, picks: seq<seq<seq<nat>>>): (r: Grid)
    ensures |r| == |g|
    ensures forall d :: 0 <= d < |g| ==> r[d] == FixDay(g[d], subjects, DayPicks(picks, d))
  {
    seq(|g|, d requires 0 <= d < |g| => FixDay(g[d], subjects, DayPicks(picks, d)))
  }

  /** After the repair no day holds a theory session more than twice, nor
      three in a row; free periods, breaks and lab slots are untouched; and
      each changed slot held a theory session and now holds a free period or
      the label of one of the subjects. */
  lemma FixDaySpec(row: Row, subjects: seq<Subject>, picks: seq<seq<nat>>)
    ensures var r := FixDay(row, subjects, picks);
            |r| == |row|
            && (forall x :: IsSessionLabel(x) ==> Count(r, x) <= MaxSessionsPerDay)
            && (forall j :: !TripleAt(r, j))
            && Repaired(row, r, subjects)
  {
    var t := BreakTriples(row, subjects, picks);
    var r := CapSessions(t);
    forall x | IsSessionLabel(x) ensures Count(r, x) <= MaxSessionsPerDay {
      CapSessionsCount(t, x);
    }
    forall j | TripleAt(r, j) ensures false {
      TripleCount(r, j);
    }
    BreakTriplesFromRepairs(row, 0, subjects, picks);
    CapSessionsRepairs(t, subjects);
    RepairedTrans(row, t, r, subjects);
  }

  lemma ValidateAndFixSpec(g: Grid, subjects: seq<Subject>, picks: seq<seq<seq<nat>>>, d: nat)
    requires d < |g|
    ensures var r := ValidateAndFix(g, subjects, picks)[d];
            (forall x :: IsSessionLabel(x) ==> Count(r, x) <= MaxSessionsPerDay)
            && (forall j :: !TripleAt(r, j))
            && Repaired(g[d], r, subjects)
  {
    FixDaySpec(g[d], subjects, DayPicks(picks, d));
  }
}
