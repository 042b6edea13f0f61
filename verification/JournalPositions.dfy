/**
 Where a tool call began: `firstSequence` and `firstTimestampMs` of its updates, over runs that
 also enforce the event cap.
 */
module JournalPositions {
  import opened Basics
  import opened Journal
  import opened JournalRuns

  datatype Step = Put(write: Write) | Cap(keep: nat)

  /** A row as a runtime sends it knows nothing of where its tool call began. */
  predicate Unpositioned(r: Row) {
    r.payload.Tool? ==> r.payload.firstSeq.None? && r.payload.firstTime.None?
  }

  function Next(p: Pair, step: Step): Option<Pair> {
    match step
    case Cap(keep) => Some(p.(stored := Capped(p.stored, keep)))
    case Put(w) =>
      if w.at in p.log || !Unpositioned(w.row) || !WellKinded(w.row) then None
      else
        match Written(p.stored, w)
        case None => None
        case Some(j) => Some(Pair(j, p.log[w.at := w.row]))
  }

  function Steps(steps: seq<Step>): Option<Pair> {
    if steps == [] then Some(Pair(map[], map[]))
    else
      var before := Steps(steps[..|steps| - 1]);
      if before.None? then None else Next(before.value, steps[|steps| - 1])
  }

  /** A stored position is complete, and only merged updates have one. */
  predicate Paired(j: Journal) {
    forall s :: s in j && j[s].payload.Tool? ==>
      && (j[s].payload.firstSeq.Some? <==> j[s].payload.firstTime.Some?)
      && (j[s].payload.firstSeq.Some? ==> j[s].kind == ItemUpdated)
  }

  lemma {:induction false} AlwaysPaired(steps: seq<Step>)
    requires Steps(steps).Some?
    ensures Paired(Steps(steps).value.stored)
  {
    if steps != [] {
      AlwaysPaired(steps[..|steps| - 1]);
    }
  }

  /** The position of a tool row that is merged into `j`. */
  function PositionOf(r: Row): Option<Position> {
    if r.payload.Tool? && r.payload.firstSeq.Some? && r.payload.firstTime.Some?
    then Some(Position(r.payload.firstSeq.value, r.payload.firstTime.value))
    else None
  }

  /** With a positioned newest update in the journal, that is the position an insert reads. */
  lemma ReadsNewest(j: Journal, i: ItemId, n: int)
    requires Paired(j) && IsNewestUpdate(j, i, n) && PositionOf(j[n]).Some?
    ensures StoredFirstSeq(j, ToolSeqs(j, i)) == j[n].payload.firstSeq
    ensures StoredFirstTime(j, ToolSeqs(j, i)) == j[n].payload.firstTime
  {
    var known := set s | s in ToolSeqs(j, i) && j[s].payload.firstSeq.Some?;
    var timed := set s | s in ToolSeqs(j, i) && j[s].payload.firstTime.Some?;
    assert n in known && n in timed;
    assert forall s :: s in known || s in timed ==> IsToolUpdate(j[s], i);
    assert Max(known) == n == Max(timed);
  }

  /** A live update never claims a later start than the update before it, nor than any tool row
      of the item still stored. */
  lemma FirstSequenceNeverRises(steps: seq<Step>, w: Write, i: ItemId)
    requires Steps(steps).Some? && Steps(steps + [Put(w)]).Some?
    requires w.LiveWrite? && IsToolUpdate(w.row, i)
    requires NewerThanItem(Steps(steps).value.stored, w.at, i)
    ensures var j := Steps(steps).value.stored;
      var q := Steps(steps + [Put(w)]).value.stored;
      && w.at in q && PositionOf(q[w.at]).Some?
      && (forall n :: IsNewestUpdate(j, i, n) && PositionOf(j[n]).Some? ==>
            PositionOf(q[w.at]).value.sequence <= PositionOf(j[n]).value.sequence)
      && (forall s :: s in q && IsTool(q[s], i) ==> PositionOf(q[w.at]).value.sequence <= s)
  {
    assert (steps + [Put(w)])[..|steps|] == steps;
    AlwaysPaired(steps);
    var j := Steps(steps).value.stored;
    var q := Steps(steps + [Put(w)]).value.stored;
    var tools := ToolSeqs(j, i);
    forall n | IsNewestUpdate(j, i, n) && PositionOf(j[n]).Some?
      ensures PositionOf(q[w.at]).value.sequence <= PositionOf(j[n]).value.sequence
    {
      ReadsNewest(j, i, n);
      assert n in tools;
    }
    forall s | s in q && IsTool(q[s], i)
      ensures PositionOf(q[w.at]).value.sequence <= s
    {
      if s == w.at {
        if tools != {} {
          assert Concerns(j[Min(tools)], i);
        }
      } else {
        assert s in tools;
      }
    }
  }

  /** No tool row of the item is stored before the start that its newest update names. */
  predicate StartIsEarliest(j: Journal, i: ItemId, n: int)
    requires n in j && PositionOf(j[n]).Some?
  {
    forall s :: s in j && IsTool(j[s], i) ==> PositionOf(j[n]).value.sequence <= s
  }

  /** Every update of the item is a tool row. */
  predicate UpdatesAreTools(j: Journal, i: ItemId) {
    forall s :: s in j && IsUpdate(j[s], i) ==> IsToolUpdate(j[s], i)
  }

  /** The bound, as far as the rows go that the write leaves. */
  predicate StartIsEarliestLeft(j: Journal, w: Write, i: ItemId, n: int)
    requires n in j && PositionOf(j[n]).Some?
  {
    var put := j[w.at := w.row];
    forall s :: s in j && IsTool(j[s], i) && !Replaced(put, w.at, w.row, s) ==> PositionOf(j[n]).value.sequence <= s
  }

  /** A tool row that is stored as it came, history or not, keeps the bound exactly when the row is
      not older than the named start and the rows it leaves were not. What it deletes does not matter
      when the item's updates are all tool rows, or the row is older than they are, or no update. */
  lemma RawRowKeepsBoundExactly(j: Journal, w: Write, i: ItemId, n: int)
    requires w.at !in j && IsTool(w.row, i) && WellKinded(w.row)
    requires IsNewestUpdate(j, i, n) && PositionOf(j[n]).Some?
    requires w.row.kind == ItemUpdated ==> w.RawWrite? && w.at < n
    ensures Written(j, w).Some?
    ensures var q := Written(j, w).value;
      && IsNewestUpdate(q, i, n) && q[n] == j[n]
      && (StartIsEarliest(q, i, n) <==> PositionOf(j[n]).value.sequence <= w.at && StartIsEarliestLeft(j, w, i, n))
    ensures w.row.kind != ItemUpdated || OlderThanItem(j, w.at, i) || UpdatesAreTools(j, i) ==>
      (StartIsEarliestLeft(j, w, i, n) <==> StartIsEarliest(j, i, n))
  {
    var put := j[w.at := w.row];
    var q := Dropped(put, w.at, w.row);
    assert Written(j, w) == Some(q);
    assert n in q && q[n] == j[n];
    assert w.at in q && IsTool(q[w.at], i);
    assert forall s :: s in j && !Replaced(put, w.at, w.row, s) ==> s in q && q[s] == j[s];
    assert forall s :: s in q && s != w.at ==> s in j && q[s] == j[s] && !Replaced(put, w.at, w.row, s);
    if w.row.kind != ItemUpdated || OlderThanItem(j, w.at, i) || UpdatesAreTools(j, i) {
      DeletedRowsDoNotMatter(j, w, i, n);
    }
  }

  lemma DeletedRowsDoNotMatter(j: Journal, w: Write, i: ItemId, n: int)
    requires w.at !in j && IsTool(w.row, i) && WellKinded(w.row) && n in j && PositionOf(j[n]).Some?
    requires w.row.kind != ItemUpdated || OlderThanItem(j, w.at, i) || UpdatesAreTools(j, i)
    ensures StartIsEarliestLeft(j, w, i, n) <==> StartIsEarliest(j, i, n)
  {
    var put := j[w.at := w.row];
    if StartIsEarliestLeft(j, w, i, n) {
      forall s | s in j && IsTool(j[s], i) && Replaced(put, w.at, w.row, s)
        ensures PositionOf(j[n]).value.sequence <= s
      {
        assert Concerns(j[s], i);
        var least := EarliestUpdate(j, w, i, s);
        assert IsTool(j[least], i);
      }
    }
  }

  /** Below a deleted row there is an update that stays. */
  lemma EarliestUpdate(j: Journal, w: Write, i: ItemId, s: int) returns (least: int)
    requires w.at !in j && IsTool(w.row, i) && WellKinded(w.row) && UpdatesAreTools(j, i)
    requires s in j && Replaced(j[w.at := w.row], w.at, w.row, s)
    ensures least in j && IsToolUpdate(j[least], i) && least < s
    ensures !Replaced(j[w.at := w.row], w.at, w.row, least)
  {
    var put := j[w.at := w.row];
    var updates := set u | u in j && IsUpdate(j[u], i);
    var first :| first in put && IsUpdate(put[first], i) && first < s;
    assert first in updates;
    least := Min(updates);
    assert least in updates && least <= first < s < w.at;
    assert forall f :: f in put && IsUpdate(put[f], i) && f != w.at ==> f in updates;
  }

  /** A live update at 5, and history that arrives with a row at 1. */
  function LateRow(): seq<Step> {
    [Put(LiveWrite(5, Update())), Put(RawWrite(1, Update()))]
  }

  function Update(): Row {
    Row(ItemUpdated, None, Tool(Some("t"), None, map[], None, None, map[]), 0, None)
  }

  /** After it the newest update still names 5 as the start, with a tool row stored at 1. */
  lemma PrependPassesTheStart()
    ensures Steps(LateRow()).Some?
    ensures var j := Steps(LateRow()).value.stored;
      && IsNewestUpdate(j, "t", 5) && PositionOf(j[5]) == Some(Position(5, 0))
      && 1 in j && IsTool(j[1], "t") && !StartIsEarliest(j, "t", 5)
  {
    var first := [Put(LiveWrite(5, Update()))];
    var one: Journal := map[5 := StoredLive(map[], 5, Update())];
    assert first[..0] == [] && LateRow()[..1] == first;
    assert ToolSeqs(map[], "t") == {};
    assert Dropped(one, 5, Update()) == one;
    assert Steps(first) == Some(Pair(one, map[5 := Update()]));
    assert IsNewestUpdate(one, "t", 5);
    RawRowKeepsBoundExactly(one, RawWrite(1, Update()), "t", 5);
    RawRowBelow(one);
  }

  lemma RawRowBelow(j: Journal)
    requires forall s :: s in j ==> 1 < s
    ensures Written(j, RawWrite(1, Update())) == Some(j[1 := Update()])
  {
    var put := j[1 := Update()];
    assert forall s :: s in put ==> !Replaced(put, 1, Update(), s);
    assert Dropped(put, 1, Update()) == put;
  }

  // ---------------------------------------------------------------- exact positions

  /** No prepends: each write is the newest so far, and a cap spares the item's newest update
      or else every tool row of the item. */
  predicate Settled(p: Pair, step: Step, i: ItemId) {
    match step
    case Put(w) =>
      && (forall s :: s in p.log ==> s < w.at)
      && (w.row.kind == ItemUpdated && w.row.payload.Tool? ==> w.LiveWrite?)
    case Cap(keep) =>
      || (exists n :: n in Capped(p.stored, keep) && IsNewestUpdate(p.log, i, n))
      || (forall s :: s in p.stored && IsTool(p.stored[s], i) ==> s in Capped(p.stored, keep))
  }

  predicate AllSettled(steps: seq<Step>, i: ItemId) {
    steps == [] || (&& AllSettled(steps[..|steps| - 1], i)
                    && Steps(steps[..|steps| - 1]).Some?
                    && Settled(Steps(steps[..|steps| - 1]).value, steps[|steps| - 1], i))
  }

  /** The oldest tool row ever written for the item. */
  function Began(l: Journal, i: ItemId): Position
    requires ToolSeqs(l, i) != {}
  {
    var first := Min(ToolSeqs(l, i));
    Position(first, l[first].createdAt)
  }

  ghost predicate Grounded(p: Pair) {
    && (forall s :: s in p.stored ==> s in p.log && RowKept(p.stored[s], p.log[s]))
    && (forall s :: s in p.log ==> WellKinded(p.log[s]))
    && Paired(p.stored)
  }

  /** The log's newest update is stored and names where the item began. */
  ghost predicate NamesStart(p: Pair, i: ItemId, n: int) {
    && n in ToolSeqs(p.log, i) && n in p.stored && IsToolUpdate(p.stored[n], i)
    && PositionOf(p.stored[n]) == Some(Began(p.log, i))
  }

  ghost predicate Untouched(p: Pair, i: ItemId) {
    (forall s :: s in p.log ==> !IsToolUpdate(p.log[s], i)) ==>
      forall s :: s in p.log && IsTool(p.log[s], i) ==> s in p.stored
  }

  ghost predicate Exact(p: Pair, i: ItemId) {
    Grounded(p) && Untouched(p, i) && forall n :: IsNewestUpdate(p.log, i, n) ==> NamesStart(p, i, n)
  }

  lemma CapStaysExact(p: Pair, keep: nat, i: ItemId)
    requires Exact(p, i) && Settled(p, Cap(keep), i)
    ensures Exact(p.(stored := Capped(p.stored, keep)), i)
  {
    var q := p.(stored := Capped(p.stored, keep));
    forall n | IsNewestUpdate(p.log, i, n)
      ensures NamesStart(q, i, n)
    {
      assert NamesStart(p, i, n) && IsTool(p.stored[n], i);
    }
  }

  lemma BeganSame(l: Journal, m: Journal, i: ItemId)
    requires ToolSeqs(l, i) != {} && ToolSeqs(l, i) <= ToolSeqs(m, i)
    requires forall s :: s in ToolSeqs(m, i) && s !in ToolSeqs(l, i) ==> forall t :: t in ToolSeqs(l, i) ==> t < s
    requires forall s :: s in ToolSeqs(l, i) ==> m[s] == l[s]
    ensures Began(m, i) == Began(l, i)
  {
    var a := Min(ToolSeqs(l, i));
    assert a in ToolSeqs(m, i);
    assert Min(ToolSeqs(m, i)) == a;
  }

  lemma PutStaysGrounded(p: Pair, w: Write, q: Pair)
    requires Grounded(p) && Next(p, Put(w)) == Some(q)
    ensures Grounded(q)
  {
  }

  /** A tool row leaves the journal only for a newer update of its own item. */
  lemma ToolRowStays(p: Pair, w: Write, q: Journal, i: ItemId, s: int)
    requires Grounded(p) && WellKinded(w.row)
    requires Written(p.stored, w) == Some(q)
    requires s in p.stored && IsTool(p.stored[s], i) && !IsToolUpdate(w.row, i)
    ensures s in q && q[s] == p.stored[s]
  {
    assert WellKinded(p.log[s]) && RowKept(p.stored[s], p.log[s]);
  }

  lemma OtherPutStaysExact(p: Pair, w: Write, q: Pair, i: ItemId)
    requires Exact(p, i) && Next(p, Put(w)) == Some(q) && Settled(p, Put(w), i)
    requires !IsToolUpdate(w.row, i)
    ensures Exact(q, i)
  {
    PutStaysGrounded(p, w, q);
    forall s | s in p.stored && IsTool(p.stored[s], i)
      ensures s in q.stored && q.stored[s] == p.stored[s]
    {
      ToolRowStays(p, w, q.stored, i, s);
    }
    assert w.at in q.stored;
    assert Untouched(q, i) by {
      if forall s :: s in q.log ==> !IsToolUpdate(q.log[s], i) {
        assert forall s :: s in p.log ==> s in q.log && p.log[s] == q.log[s];
        forall s | s in p.log && IsTool(p.log[s], i)
          ensures s in p.stored && IsTool(p.stored[s], i)
        {
        }
      }
    }
    forall n | IsNewestUpdate(q.log, i, n)
      ensures NamesStart(q, i, n)
    {
      OtherPutNamesStart(p, w, q, i, n);
    }
  }

  lemma OtherPutNamesStart(p: Pair, w: Write, q: Pair, i: ItemId, n: int)
    requires forall m :: IsNewestUpdate(p.log, i, m) ==> NamesStart(p, i, m)
    requires q.log == p.log[w.at := w.row] && forall s :: s in p.log ==> s < w.at
    requires forall s :: s in p.stored && IsTool(p.stored[s], i) ==> s in q.stored && q.stored[s] == p.stored[s]
    requires !IsToolUpdate(w.row, i) && IsNewestUpdate(q.log, i, n)
    ensures NamesStart(q, i, n)
  {
    assert forall u :: u in p.log && IsToolUpdate(p.log[u], i) ==> u in q.log && IsToolUpdate(q.log[u], i);
    assert IsNewestUpdate(p.log, i, n);
    assert NamesStart(p, i, n);
    assert ToolSeqs(p.log, i) <= ToolSeqs(q.log, i);
    BeganSame(p.log, q.log, i);
  }

  lemma UpdateStaysExact(p: Pair, w: Write, q: Pair, i: ItemId)
    requires Exact(p, i) && Next(p, Put(w)) == Some(q) && Settled(p, Put(w), i)
    requires IsToolUpdate(w.row, i)
    ensures Exact(q, i)
  {
    var at, j := w.at, p.stored;
    assert w.LiveWrite?;
    assert at in q.stored && q.stored[at] == StoredLive(j, at, w.row);
    PutStaysGrounded(p, w, q);
    UpdateBegins(p, w, i);
    assert IsToolUpdate(q.log[at], i);
    forall n | IsNewestUpdate(q.log, i, n)
      ensures n == at
    {
    }
  }

  lemma UpdateAfterUpdate(p: Pair, w: Write, i: ItemId, n: int)
    requires Exact(p, i) && IsToolUpdate(w.row, i) && w.at !in p.log && IsNewestUpdate(p.log, i, n)
    requires forall s :: s in p.log ==> s < w.at
    ensures ToolSeqs(p.log, i) != {}
    ensures PositionOf(StoredLive(p.stored, w.at, w.row)) == Some(Began(p.log, i))
  {
    var j := p.stored;
    assert NamesStart(p, i, n);
    assert forall s :: s in j && IsToolUpdate(j[s], i) ==> s in p.log && IsToolUpdate(p.log[s], i);
    assert IsNewestUpdate(j, i, n);
    ReadsNewest(j, i, n);
    assert n in ToolSeqs(j, i);
    assert Min(ToolSeqs(j, i)) in ToolSeqs(p.log, i);
  }

  lemma SameToolsBefore(p: Pair, i: ItemId)
    requires Exact(p, i) && forall s :: s in p.log ==> !IsToolUpdate(p.log[s], i)
    ensures ToolSeqs(p.stored, i) == ToolSeqs(p.log, i)
    ensures forall s :: s in p.stored ==> !IsToolUpdate(p.stored[s], i)
    ensures forall s :: s in ToolSeqs(p.log, i) ==> p.stored[s].createdAt == p.log[s].createdAt
  {
    forall s | s in ToolSeqs(p.log, i)
      ensures s in ToolSeqs(p.stored, i) && p.stored[s].createdAt == p.log[s].createdAt
    {
      assert s in p.log && IsTool(p.log[s], i) && s in p.stored && RowKept(p.stored[s], p.log[s]);
    }
    forall s | s in ToolSeqs(p.stored, i)
      ensures s in ToolSeqs(p.log, i)
    {
      assert s in p.log && RowKept(p.stored[s], p.log[s]);
    }
    forall s | s in p.stored
      ensures !IsToolUpdate(p.stored[s], i)
    {
      assert s in p.log && RowKept(p.stored[s], p.log[s]);
    }
  }

  lemma FirstUpdate(p: Pair, w: Write, i: ItemId)
    requires Exact(p, i) && IsToolUpdate(w.row, i) && w.at !in p.log
    requires forall s :: s in p.log ==> !IsToolUpdate(p.log[s], i)
    ensures PositionOf(StoredLive(p.stored, w.at, w.row))
         == Some(if ToolSeqs(p.log, i) == {} then Position(w.at, w.row.createdAt) else Began(p.log, i))
  {
    SameToolsBefore(p, i);
    NoPositionYet(p.stored, i);
  }

  lemma UpdateBegins(p: Pair, w: Write, i: ItemId)
    requires Exact(p, i) && Settled(p, Put(w), i) && IsToolUpdate(w.row, i) && w.at !in p.log
    ensures var l := p.log[w.at := w.row];
      w.at in ToolSeqs(l, i) && PositionOf(StoredLive(p.stored, w.at, w.row)) == Some(Began(l, i))
  {
    var l := p.log[w.at := w.row];
    assert w.at in ToolSeqs(l, i) && ToolSeqs(l, i) == ToolSeqs(p.log, i) + {w.at};
    if u :| u in p.log && IsToolUpdate(p.log[u], i) {
      var n := NewestUpdateExists(p.log, i, u);
      UpdateAfterUpdate(p, w, i, n);
      BeganSame(p.log, l, i);
    } else {
      FirstUpdate(p, w, i);
      if ToolSeqs(p.log, i) != {} {
        BeganSame(p.log, l, i);
      } else {
        assert ToolSeqs(l, i) == {w.at};
      }
    }
  }

  lemma NoPositionYet(j: Journal, i: ItemId)
    requires Paired(j) && forall s :: s in j ==> !IsToolUpdate(j[s], i)
    ensures StoredFirstSeq(j, ToolSeqs(j, i)) == None
  {
    assert forall s :: s in ToolSeqs(j, i) ==> s in j && IsTool(j[s], i) && j[s].payload.firstSeq.None?;
    assert (set s | s in ToolSeqs(j, i) && j[s].payload.firstSeq.Some?) == {};
  }

  /** Without prepends, while the cap spares the newest update, that update names the oldest
      tool row ever written for its item and that row's own time, even when the cap has since
      removed that row; and no surviving tool row of the item is older. */
  lemma {:induction false} NewestUpdateNamesTheStart(steps: seq<Step>, i: ItemId)
    requires Steps(steps).Some? && AllSettled(steps, i)
    ensures Exact(Steps(steps).value, i)
    ensures var p := Steps(steps).value;
      forall n :: IsNewestUpdate(p.log, i, n) ==>
        && n in p.stored && PositionOf(p.stored[n]) == Some(Began(p.log, i))
        && forall s :: s in p.stored && IsTool(p.stored[s], i) ==>
             PositionOf(p.stored[n]).value.sequence <= s
  {
    if steps != [] {
      var before, step := Steps(steps[..|steps| - 1]).value, steps[|steps| - 1];
      NewestUpdateNamesTheStart(steps[..|steps| - 1], i);
      match step {
        case Cap(keep) => CapStaysExact(before, keep, i);
        case Put(w) =>
          if IsToolUpdate(w.row, i) {
            UpdateStaysExact(before, w, Steps(steps).value, i);
          } else {
            OtherPutStaysExact(before, w, Steps(steps).value, i);
          }
      }
    }
    var p := Steps(steps).value;
    assert forall s :: s in p.stored && IsTool(p.stored[s], i) ==> s in ToolSeqs(p.log, i);
    assert forall n :: IsNewestUpdate(p.log, i, n) ==> NamesStart(p, i, n);
  }
}
