/** `buildDaySlotMatrix`, shared in shape by both scheduling engines: stored
    entries are grouped by day and session number, a later entry for the same
    (day, session) replacing an earlier one, and each day becomes a row of
    fixed width with a default text where no entry exists. */
module SlotMatrix {
  import opened Wrappers
  import opened Entities
  import opened Choice

  predicate Matches(e: TimetableEntry, day: string, session: int) {
    e.day == Some(day) && e.sessionNumber == session
  }

  /** The position of the last entry for (day, session), or -1 when there is none. */
  function LastMatch(entries: seq<TimetableEntry>, day: string, session: int): (k: int)
    ensures -1 <= k < |entries|
    ensures k >= 0 ==> Matches(entries[k], day, session)
    ensures forall j :: k < j < |entries| ==> !Matches(entries[j], day, session)
  {
    if entries == [] then -1
    else if Matches(entries[|entries| - 1], day, session) then |entries| - 1
    else LastMatch(entries[..|entries| - 1], day, session)
  }

  /** `sessionMap.get(session)` after all the `put`s: `None` when the key is
      absent, otherwise the (possibly null) subject the last put stored. */
  function Lookup(entries: seq<TimetableEntry>, day: string, session: int): Option<Option<string>> {
    if entries == [] then None
    else
      var e := entries[|entries| - 1];
      if Matches(e, day, session) then Some(e.subject)
      else Lookup(entries[..|entries| - 1], day, session)
  }

  /** The lookup finds the subject of the last matching entry, and nothing
      exactly when no entry matches. */
  lemma {:induction false} LookupIsLastMatch(entries: seq<TimetableEntry>, day: string, session: int)
    ensures Lookup(entries, day, session).None? <==> LastMatch(entries, day, session) == -1
    ensures Lookup(entries, day, session).Some? ==>
              Lookup(entries, day, session).value == entries[LastMatch(entries, day, session)].subject
  {
    if entries != [] {
      LookupIsLastMatch(entries[..|entries| - 1], day, session);
    }
  }

  /** Entries stored after others take precedence for the same key. */
  lemma {:induction false} LookupAppend(a: seq<TimetableEntry>, b: seq<TimetableEntry>, day: string, session: int)
    ensures Lookup(a + b, day, session)
         == if Lookup(b, day, session).Some? then Lookup(b, day, session) else Lookup(a, day, session)
    decreases |b|
  {
    if b == [] {
      assert a + b == a;
    } else {
      assert (a + b)[..|a + b| - 1] == a + b[..|b| - 1];
      LookupAppend(a, b[..|b| - 1], day, session);
    }
  }

  /** The text shown for (day, session): the stored subject, or `default`
      when no entry exists. */
  function Cell(entries: seq<TimetableEntry>, day: string, session: int, default: string): Option<string> {
    match Lookup(entries, day, session)
    case None => Some(default)
    case Some(subject) => subject
  }

  /** One row per day, `width` columns for sessions 1..width. */
  function BuildMatrix(entries: seq<TimetableEntry>, days: seq<string>, width: nat, default: string)
    : (m: seq<seq<Option<string>>>)
    ensures |m| == |days|
    ensures forall k :: 0 <= k < |days| ==> |m[k]| == width
    ensures forall k, i :: 0 <= k < |days| && 0 <= i < width ==> m[k][i] == Cell(entries, days[k], i + 1, default)
  {
    seq(|days|, k requires 0 <= k < |days| =>
      seq(width, i requires 0 <= i < width => Cell(entries, days[k], i + 1, default)))
  }

  // ---------------------------------------------------------------------------
  // Entries stored one day after another
  // ---------------------------------------------------------------------------

  /** Entries that all belong to other days hold nothing for `day`. */
  lemma LookupOtherDay(es: seq<TimetableEntry>, day: string, session: int)
    requires forall j :: 0 <= j < |es| ==> es[j].day != Some(day)
    ensures Lookup(es, day, session).None?
  {
    LookupIsLastMatch(es, day, session);
  }

  /** Each block holds only entries of its own day, and the days are distinct. */
  predicate BlocksByDay(blocks: seq<seq<TimetableEntry>>, days: seq<string>) {
    |blocks| == |days|
    && (forall a, b :: 0 <= a < b < |days| ==> days[a] != days[b])
    && (forall k, j :: 0 <= k < |blocks| && 0 <= j < |blocks[k]| ==> blocks[k][j].day == Some(days[k]))
  }

  /** No block of the week belongs to a day outside the day list. */
  lemma {:induction false} LookupConcatAbsent(blocks: seq<seq<TimetableEntry>>, days: seq<string>,
                                              day: string, session: int)
    requires BlocksByDay(blocks, days) && day !in days
    ensures Lookup(Concat(blocks), day, session).None?
  {
    if blocks != [] {
      assert BlocksByDay(blocks[1..], days[1..]);
      LookupConcatAbsent(blocks[1..], days[1..], day, session);
      LookupOtherDay(blocks[0], day, session);
      LookupAppend(blocks[0], Concat(blocks[1..]), day, session);
    }
  }

  /** With one block per distinct day, looking a day up in the week is looking
      it up in that day's block. */
  lemma {:induction false} LookupConcat(blocks: seq<seq<TimetableEntry>>, days: seq<string>, k: nat, session: int)
    requires BlocksByDay(blocks, days) && k < |days|
    ensures Lookup(Concat(blocks), days[k], session) == Lookup(blocks[k], days[k], session)
  {
    assert BlocksByDay(blocks[1..], days[1..]);
    LookupAppend(blocks[0], Concat(blocks[1..]), days[k], session);
    if k == 0 {
      assert days[0] !in days[1..];
      LookupConcatAbsent(blocks[1..], days[1..], days[0], session);
    } else {
      LookupConcat(blocks[1..], days[1..], k - 1, session);
      LookupOtherDay(blocks[0], days[k], session);
    }
  }
}
