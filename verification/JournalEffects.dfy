/**
 What each write leaves of a journal, told by its rows and columns: which rows stay, and what
 stands in every column of the row that was written.
 */
module JournalEffects {
  import opened Basics
  import opened Journal
  import opened JournalRuns

  // ---------------------------------------------------------------- one fact, one start

  /** A tool row of the item with a value for the field; an empty name is no value. */
  predicate HasFact(r: Row, i: ItemId, f: Field) {
    && r.payload.Tool? && r.payload.item == Some(i)
    && f in r.payload.facts && (f == Name ==> r.payload.facts[f] != "")
  }

  ghost predicate NewestWith(j: Journal, i: ItemId, f: Field, s: int) {
    s in j && HasFact(j[s], i, f) && forall t :: t in j && HasFact(j[t], i, f) ==> t <= s
  }

  /** The row's own value, else the newest one known of its item, else nothing; a name is
      written in any case. */
  ghost predicate MergedFact(known: Journal, r: Row, stored: map<Field, string>, f: Field)
    requires r.payload.Tool?
  {
    var own, item := r.payload.facts, r.payload.item;
    if f in own && (f == Name ==> own[f] != "") then f in stored && stored[f] == own[f]
    else
      && (forall s :: item.Some? && NewestWith(known, item.value, f, s) ==>
            f in stored && stored[f] == known[s].payload.facts[f])
      && ((forall s :: s in known && item.Some? ==> !HasFact(known[s], item.value, f)) ==>
            if f == Name then f in stored && stored[f] == "" else f !in stored)
  }

  predicate IsToolRow(j: Journal, i: ItemId, s: int) {
    s in j && j[s].payload.Tool? && j[s].payload.item == Some(i)
  }

  ghost predicate OldestTool(j: Journal, i: ItemId, m: int) {
    IsToolRow(j, i, m) && forall t :: IsToolRow(j, i, t) ==> m <= t
  }

  ghost predicate NewestWithSequence(j: Journal, i: ItemId, s: int) {
    && IsToolRow(j, i, s) && j[s].payload.firstSeq.Some?
    && forall t :: IsToolRow(j, i, t) && j[t].payload.firstSeq.Some? ==> t <= s
  }

  ghost predicate NewestWithTime(j: Journal, i: ItemId, s: int) {
    && IsToolRow(j, i, s) && j[s].payload.firstTime.Some?
    && forall t :: IsToolRow(j, i, t) && j[t].payload.firstTime.Some? ==> t <= s
  }

  /** The start that the known rows name, when both parts are there and it is not later than the
      oldest tool row `m` of the item. */
  ghost predicate NamesEarlyStart(known: Journal, i: ItemId, m: int, a: int, b: int) {
    NewestWithSequence(known, i, a) && NewestWithTime(known, i, b) && known[a].payload.firstSeq.value <= m
  }

  /** Where the tool call began: that start, else the oldest tool row, else the row itself. */
  ghost predicate BeganAt(known: Journal, j: Journal, item: Option<ItemId>, own: int, ownTime: int, sequence: int, time: int) {
    && ((forall s :: item.Some? ==> !IsToolRow(j, item.value, s)) ==> sequence == own && time == ownTime)
    && (forall m :: item.Some? && OldestTool(j, item.value, m) ==>
          && (forall a, b :: NamesEarlyStart(known, item.value, m, a, b) ==>
                sequence == known[a].payload.firstSeq.value && time == known[b].payload.firstTime.value)
          && ((forall a, b :: !NamesEarlyStart(known, item.value, m, a, b)) ==>
                sequence == m && time == j[m].createdAt))
  }

  /** A tool row as the merge rewrites it; the stamp aside. */
  ghost predicate MergedRow(known: Journal, j: Journal, at: int, r: Row, merged: Row)
    requires r.payload.Tool?
  {
    var p := merged.payload;
    && merged.kind == r.kind && merged.turn == r.turn && merged.createdAt == r.createdAt
    && p.Tool? && p.item == r.payload.item && p.state == r.payload.state && p.unlisted == map[]
    && (forall f :: MergedFact(known, r, p.facts, f))
    && p.firstSeq.Some? && p.firstTime.Some?
    && BeganAt(known, j, r.payload.item, at, r.createdAt, p.firstSeq.value, p.firstTime.value)
  }

  lemma NewestIsLatest(j: Journal, i: ItemId, f: Field, s: int)
    requires NewestWith(j, i, f, s)
    ensures Latest(j, i, f) == Some(j[s].payload.facts[f])
  {
    var all := Carriers(j, i, f);
    assert s in all && forall t :: t in all ==> HasFact(j[t], i, f);
    assert Max(all) == s;
  }

  lemma NoneIsLatest(j: Journal, i: ItemId, f: Field)
    requires forall s :: s in j ==> !HasFact(j[s], i, f)
    ensures Latest(j, i, f) == None
  {
    var all := Carriers(j, i, f);
    assert forall t :: t in all ==> HasFact(j[t], i, f);
    HasMember(all);
  }

  lemma FactIsMerged(j: Journal, r: Row, f: Field)
    requires r.payload.Tool?
    ensures MergedFact(j, r, FactsFrom(g => LiveFact(j, r.payload, g)), f)
  {
    var item := r.payload.item;
    if item.Some? {
      if s :| NewestWith(j, item.value, f, s) {
        NewestIsLatest(j, item.value, f, s);
      } else if forall s :: s in j ==> !HasFact(j[s], item.value, f) {
        NoneIsLatest(j, item.value, f);
      }
    }
  }

  lemma ToolRows(j: Journal, i: ItemId)
    ensures forall s :: s in ToolSeqs(j, i) <==> IsToolRow(j, i, s)
  {
  }

  lemma StoredStartIs(j: Journal, known: Journal, i: ItemId)
    requires known.Keys <= j.Keys && forall s :: s in known ==> known[s] == j[s]
    ensures var tools := ToolSeqs(known, i);
      && (forall a :: NewestWithSequence(known, i, a) ==> StoredFirstSeq(j, tools) == known[a].payload.firstSeq)
      && (forall b :: NewestWithTime(known, i, b) ==> StoredFirstTime(j, tools) == known[b].payload.firstTime)
      && (StoredFirstSeq(j, tools).Some? ==> exists a :: NewestWithSequence(known, i, a))
      && (StoredFirstTime(j, tools).Some? ==> exists b :: NewestWithTime(known, i, b))
  {
    var tools := ToolSeqs(known, i);
    ToolRows(known, i);
    var placed := set s | s in tools && j[s].payload.firstSeq.Some?;
    var timed := set s | s in tools && j[s].payload.firstTime.Some?;
    assert forall s :: s in placed <==> IsToolRow(known, i, s) && known[s].payload.firstSeq.Some?;
    assert forall s :: s in timed <==> IsToolRow(known, i, s) && known[s].payload.firstTime.Some?;
    assert placed != {} ==> NewestWithSequence(known, i, Max(placed));
    assert timed != {} ==> NewestWithTime(known, i, Max(timed));
  }

  lemma PositionIsBegin(j: Journal, i: ItemId, known: Journal, own: Position)
    requires known.Keys <= j.Keys && forall s :: s in known ==> known[s] == j[s]
    ensures ToolSeqs(known, i) <= ToolSeqs(j, i)
    ensures var p := FirstPosition(j, ToolSeqs(known, i), ToolSeqs(j, i), own);
      BeganAt(known, j, Some(i), own.sequence, own.timestampMs, p.sequence, p.timestampMs)
  {
    ToolRows(j, i);
    ToolRows(known, i);
    HasMember(ToolSeqs(j, i));
    forall s | s in ToolSeqs(known, i)
      ensures s in ToolSeqs(j, i)
    {
      assert IsToolRow(known, i, s) && IsToolRow(j, i, s);
    }
    var p := FirstPosition(j, ToolSeqs(known, i), ToolSeqs(j, i), own);
    forall m | OldestTool(j, i, m)
      ensures OldestNames(j, i, known, m, p)
    {
      BeginOfOldest(j, i, known, own, m);
    }
  }

  ghost predicate OldestNames(j: Journal, i: ItemId, known: Journal, m: int, p: Position)
    requires m in j
  {
    && (forall a, b :: NamesEarlyStart(known, i, m, a, b) ==>
          p.sequence == known[a].payload.firstSeq.value && p.timestampMs == known[b].payload.firstTime.value)
    && ((forall a, b :: !NamesEarlyStart(known, i, m, a, b)) ==> p.sequence == m && p.timestampMs == j[m].createdAt)
  }

  lemma BeginOfOldest(j: Journal, i: ItemId, known: Journal, own: Position, m: int)
    requires known.Keys <= j.Keys && forall s :: s in known ==> known[s] == j[s]
    requires ToolSeqs(known, i) <= ToolSeqs(j, i) && OldestTool(j, i, m)
    ensures OldestNames(j, i, known, m, FirstPosition(j, ToolSeqs(known, i), ToolSeqs(j, i), own))
  {
    StoredStartIs(j, known, i);
    ToolRows(j, i);
    var tools := ToolSeqs(known, i);
    assert m in ToolSeqs(j, i) && Min(ToolSeqs(j, i)) == m;
    var first, time := StoredFirstSeq(j, tools), StoredFirstTime(j, tools);
    if first.Some? && time.Some? && first.value <= m {
      var a :| NewestWithSequence(known, i, a);
      var b :| NewestWithTime(known, i, b);
      assert NamesEarlyStart(known, i, m, a, b);
    }
  }

  /** The table up to a row. */
  function UpTo(j: Journal, s: int): Journal {
    map t | t in j && t <= s :: j[t]
  }

  // ---------------------------------------------------------------- writes and upgrades

  predicate IsToolUpdateRow(r: Row) {
    r.kind == ItemUpdated && r.payload.Tool?
  }

  /** The older rows that a row written at `at` takes the place of. */
  ghost predicate TakenBy(j: Journal, at: int, r: Row, s: int)
    requires s in j
  {
    || (r.kind in {UsageUpdated, SessionConfigUpdated, CommandsUpdated} && j[s].kind == r.kind && s < at)
    || (&& IsToolUpdateRow(r) && r.payload.item.Some? && IsToolUpdateRow(j[s]) && j[s].payload.item == r.payload.item
        && s < at
        && exists first :: first in j && first < s && j[first].kind == ItemUpdated && j[first].payload.item == r.payload.item)
  }

  ghost predicate OthersLeft(j: Journal, at: int, r: Row, q: Journal) {
    forall s :: s != at ==> (s in q <==> s in j && !TakenBy(j, at, r, s)) && (s in q ==> q[s] == j[s])
  }

  /** A live insert: the row as it came, except that a tool update is merged with what is stored
      of its item and stamped with its own sequence and time. */
  ghost predicate LiveLeaves(j: Journal, at: int, r: Row, q: Journal) {
    && at in q && OthersLeft(j, at, r, q)
    && (if IsToolUpdateRow(r) then MergedRow(j, j, at, r, q[at]) && q[at].stamp == Some(Stamp(at, r.createdAt))
        else q[at] == r)
  }

  ghost predicate RawLeaves(j: Journal, at: int, r: Row, q: Journal) {
    at in q && q[at] == r && OthersLeft(j, at, r, q)
  }

  lemma DroppedLeaves(j: Journal, at: int, r: Row, put: Row)
    requires at !in j && put.kind == r.kind
    ensures var q := Dropped(j[at := put], at, r);
      at in q && q[at] == put && OthersLeft(j, at, r, q)
  {
    var all := j[at := put];
    assert forall s :: s in all && s < at ==> s in j && all[s] == j[s];
    forall s | s in j
      ensures Replaced(all, at, r, s) <==> TakenBy(j, at, r, s)
    {
      assert s < at ==> forall first :: first < s ==> (first in all <==> first in j);
    }
    assert !Replaced(all, at, r, at);
  }

  lemma LiveInsertLeaves(j: Journal, at: int, r: Row)
    ensures Live(j, at, r).None? <==> at in j
    ensures at !in j ==> LiveLeaves(j, at, r, Live(j, at, r).value)
  {
    if at !in j {
      DroppedLeaves(j, at, r, StoredLive(j, at, r));
      if IsToolUpdateRow(r) {
        MergeIsMerged(j, at, r);
      }
    }
  }

  lemma MergeIsMerged(j: Journal, at: int, r: Row)
    requires r.payload.Tool?
    ensures MergedRow(j, j, at, r, r.(payload := MergedLive(j, at, r), stamp := Some(Stamp(at, r.createdAt))))
  {
    forall f
      ensures MergedFact(j, r, MergedLive(j, at, r).facts, f)
    {
      FactIsMerged(j, r, f);
    }
    if r.payload.item.Some? {
      PositionIsBegin(j, r.payload.item.value, j, Position(at, r.createdAt));
    }
  }

  lemma RawAppendLeaves(j: Journal, at: int, r: Row)
    ensures Append(j, at, r).None? <==> at in j
    ensures at !in j ==> RawLeaves(j, at, r, Append(j, at, r).value)
  {
    if at !in j {
      DroppedLeaves(j, at, r, r);
    }
  }

  /** The newest tool update of an item. */
  ghost predicate NewestOfItem(j: Journal, s: int) {
    && s in j && IsToolUpdateRow(j[s]) && j[s].payload.item.Some?
    && forall n :: n in j && IsToolUpdateRow(j[n]) && j[n].payload.item == j[s].payload.item ==> n <= s
  }

  /** The upgrade merges the newest update of each item from the rows up to it, with the stamp it
      has, and leaves every other row as it is. */
  lemma NormalizeLeaves(j: Journal)
    ensures Normalized(j).Keys == j.Keys
    ensures forall s :: s in j ==>
      if NewestOfItem(j, s) then MergedRow(UpTo(j, s), j, s, j[s], Normalized(j)[s]) && Normalized(j)[s].stamp == j[s].stamp
      else Normalized(j)[s] == j[s]
  {
    forall s | s in j
      ensures NewestOfItem(j, s) <==> IsNewestToolUpdate(j, s)
      ensures NewestOfItem(j, s) ==> MergedRow(UpTo(j, s), j, s, j[s], j[s].(payload := MergedOffline(j, s)))
    {
      if NewestOfItem(j, s) {
        OfflineIsMerged(j, s);
      }
    }
  }

  lemma OfflineIsMerged(j: Journal, s: int)
    requires NewestOfItem(j, s) && IsNewestToolUpdate(j, s)
    ensures MergedRow(UpTo(j, s), j, s, j[s], j[s].(payload := MergedOffline(j, s)))
  {
    var i, known, r := j[s].payload.item.value, UpTo(j, s), j[s];
    forall f
      ensures MergedFact(known, r, MergedOffline(j, s).facts, f)
    {
      OfflineFact(j, s, i, f);
      FactIsMerged(known, r, f);
    }
    assert Below(ToolSeqs(j, i), s) == ToolSeqs(known, i);
    PositionIsBegin(j, i, known, Position(s, r.createdAt));
  }

  lemma OfflineFact(j: Journal, s: int, i: ItemId, f: Field)
    requires s in j && IsTool(j[s], i)
    ensures LatestUpTo(j, i, f, s) == LiveFact(UpTo(j, s), j[s].payload, f)
  {
    var known := UpTo(j, s);
    assert Below(Carriers(j, i, f), s) == Carriers(known, i, f);
    if Brings(j[s].payload, f) {
      assert s in Carriers(known, i, f);
    }
  }

  /** Clearing keeps the newest row of each running-state kind, and the first and the newest update
      of each tool. */
  lemma ClearLeaves(j: Journal)
    ensures forall s :: s in Cleared(j) ==> s in j && Cleared(j)[s] == j[s]
    ensures forall s :: s in j ==>
      (s !in Cleared(j) <==>
        || (j[s].kind in {UsageUpdated, SessionConfigUpdated, CommandsUpdated}
            && exists n :: n in j && s < n && j[n].kind == j[s].kind)
        || (&& IsToolUpdateRow(j[s]) && j[s].payload.item.Some?
            && (exists n :: n in j && s < n && IsToolUpdateRow(j[n]) && j[n].payload.item == j[s].payload.item)
            && (exists first :: first in j && first < s && j[first].kind == ItemUpdated
                                && j[first].payload.item == j[s].payload.item)))
  {
  }

  // ---------------------------------------------------------------- over whole runs

  /** A live tool update that is still stored has the columns it was written with, and the stamp
      of its own sequence and time. */
  lemma {:induction false} LiveUpdatesAreStamped(writes: seq<Write>, k: nat)
    requires Play(writes).Some? && k < |writes| && writes[k].LiveWrite? && IsToolUpdateRow(writes[k].row)
    requires writes[k].at in Play(writes).value.stored
    ensures var at, r := writes[k].at, writes[k].row;
      var row := Play(writes).value.stored[at];
      && row.stamp == Some(Stamp(at, r.createdAt))
      && row.kind == r.kind && row.turn == r.turn && row.createdAt == r.createdAt
      && row.payload.Tool? && row.payload.item == r.payload.item && row.payload.state == r.payload.state
  {
    var last := |writes| - 1;
    var p, w := Play(writes[..last]).value, writes[last];
    WriteLeavesOthers(p.stored, w);
    if k < last {
      LogIsWrites(writes[..last], writes[k].at);
      LiveUpdatesAreStamped(writes[..last], k);
    } else {
      LiveInsertLeaves(p.stored, w.at, w.row);
    }
  }

  lemma WriteLeavesOthers(j: Journal, w: Write)
    requires w.at !in j
    ensures Written(j, w).Some? && OthersLeft(j, w.at, w.row, Written(j, w).value)
  {
    LiveInsertLeaves(j, w.at, w.row);
    RawAppendLeaves(j, w.at, w.row);
  }

  /** After every run, the newest stored row with a value for a field has the value that the newest
      such row ever written has; there is one exactly when one was ever written. */
  lemma RunsAnswerAlike(writes: seq<Write>, i: ItemId, f: Field)
    requires Play(writes).Some?
    ensures var p := Play(writes).value;
      && ((exists s :: NewestWith(p.stored, i, f, s)) <==> (exists t :: NewestWith(p.log, i, f, t)))
      && (forall s, t :: NewestWith(p.stored, i, f, s) && NewestWith(p.log, i, f, t) ==>
            p.stored[s].payload.facts[f] == p.log[t].payload.facts[f])
  {
    var p := Play(writes).value;
    RunKeeps(writes);
    MeaningKept(p, i, f);
    NewestExists(p.stored, i, f);
    NewestExists(p.log, i, f);
  }

  lemma NewestExists(j: Journal, i: ItemId, f: Field)
    ensures (exists s :: NewestWith(j, i, f, s)) <==> Latest(j, i, f).Some?
    ensures forall s :: NewestWith(j, i, f, s) ==> Latest(j, i, f) == Some(j[s].payload.facts[f])
  {
    var all := Carriers(j, i, f);
    assert forall s :: s in all <==> s in j && HasFact(j[s], i, f);
    if all != {} {
      assert NewestWith(j, i, f, Max(all));
    }
    forall s | NewestWith(j, i, f, s)
      ensures Latest(j, i, f) == Some(j[s].payload.facts[f])
    {
      NewestIsLatest(j, i, f, s);
    }
  }

  /** After every run, of each running-state kind the newest row ever written is stored unchanged, and
      it is the newest one there. */
  lemma RunsKeepTheNewest(writes: seq<Write>, n: int)
    requires Play(writes).Some? && n in Play(writes).value.log
    requires var l := Play(writes).value.log;
      && l[n].kind in {UsageUpdated, SessionConfigUpdated, CommandsUpdated}
      && forall s :: s in l && l[s].kind == l[n].kind ==> s <= n
    ensures var p := Play(writes).value;
      && n in p.stored && p.stored[n] == p.log[n]
      && forall s :: s in p.stored && p.stored[s].kind == p.log[n].kind ==> s <= n
  {
    var p := Play(writes).value;
    RunKeeps(writes);
    assert WellKinded(p.log[n]);
    assert forall s :: s in p.stored ==> s in p.log && RowKept(p.stored[s], p.log[s]);
    assert n !in p.stored ==> Excused(p, n);
  }

  /** And a row that is neither running state nor a tool update is stored as it was written. */
  lemma RunsKeepOtherRows(writes: seq<Write>, k: nat)
    requires Play(writes).Some? && k < |writes|
    requires writes[k].row.kind !in {UsageUpdated, SessionConfigUpdated, CommandsUpdated} && !IsToolUpdateRow(writes[k].row)
    ensures var stored := Play(writes).value.stored;
      writes[k].at in stored && stored[writes[k].at] == writes[k].row
  {
    PruningKeepsMeaning(writes);
    LogIsWrites(writes, writes[k].at);
  }
}
