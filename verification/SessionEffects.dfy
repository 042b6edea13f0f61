/**
 What each writer of the session table leaves in it and in the journals, told column by column.
 */
module SessionEffects {
  import opened Basics
  import opened Journal
  import opened JournalEffects
  import opened Json
  import opened Sessions

  /** No row but this one was added, dropped or changed. */
  ghost predicate OnlyRow(before: map<OwnedId, Session>, later: map<OwnedId, Session>, id: OwnedId) {
    forall other :: other != id ==>
      && (other in later <==> other in before)
      && (other in later ==> later[other] == before[other])
  }

  ghost predicate OnlyJournal(before: map<OwnedId, Journal>, later: map<OwnedId, Journal>, id: OwnedId) {
    forall other :: other != id ==>
      && (other in later <==> other in before)
      && (other in later ==> later[other] == before[other])
  }

  // ---------------------------------------------------------------- saves

  predicate HasImport(e: Extra) {
    e.Parsed? && e.json.Object? && "import" in e.json.members
  }

  /** What was brought, except that a stored import member survives an object without one. */
  ghost predicate SavedExtra(stored: Option<Session>, brought: Extra, later: Extra) {
    if stored.Some? && HasImport(stored.value.extra) && brought.Parsed? && brought.json.Object? && !HasImport(brought)
    then
      && HasImport(later) && later.json.members["import"] == stored.value.extra.json.members["import"]
      && (forall key :: key != "import" ==> (key in later.json.members <==> key in brought.json.members))
      && (forall key :: key in brought.json.members && key in later.json.members ==>
            later.json.members[key] == brought.json.members[key])
    else later == brought
  }

  /** The columns a save writes; whose row it is stays with the writer. */
  ghost predicate SavedColumns(stored: Option<Session>, row: SessionRow, later: Session) {
    && later.native == row.native && later.lastActivity == row.lastActivity && later.rest == row.rest
    && later.project == (if stored.Some? && stored.value.project.Some? then stored.value.project else row.project)
    && SavedExtra(stored, row.extra, later.extra)
  }

  function Stored(sessions: map<OwnedId, Session>, id: OwnedId): Option<Session> {
    if id in sessions then Some(sessions[id]) else None
  }

  ghost predicate SavedRow(before: map<OwnedId, Session>, row: SessionRow, later: map<OwnedId, Session>) {
    && OnlyRow(before, later, row.owned) && row.owned in later
    && SavedColumns(Stored(before, row.owned), row, later[row.owned])
    && later[row.owned].parent == (if row.owned in before then before[row.owned].parent else None)
    && later[row.owned].profile == (if row.owned in before then before[row.owned].profile else None)
  }

  lemma UpsertLeaves(sessions: map<OwnedId, Session>, row: SessionRow)
    ensures SavedRow(sessions, row, Upserted(sessions, row))
  {
  }

  // ---------------------------------------------------------------- rows of a journal

  ghost predicate LiveStep(before: map<OwnedId, Journal>, e: Event, later: map<OwnedId, Journal>) {
    var j := if e.owned in before then before[e.owned] else map[];
    && OnlyJournal(before, later, e.owned) && e.owned in later
    && e.at !in j && LiveLeaves(j, e.at, e.row, later[e.owned])
  }

  ghost predicate RawStep(before: map<OwnedId, Journal>, e: Event, later: map<OwnedId, Journal>) {
    var j := if e.owned in before then before[e.owned] else map[];
    && OnlyJournal(before, later, e.owned) && e.owned in later
    && e.at !in j && RawLeaves(j, e.at, e.row, later[e.owned])
  }

  /** The sequence is taken. */
  predicate Taken(events: map<OwnedId, Journal>, e: Event) {
    e.owned in events && e.at in events[e.owned]
  }

  lemma LiveInsertSteps(db: Db, e: Event)
    ensures LiveInserted(db, e) == Refused(Missing) <==> e.owned !in db.sessions
    ensures LiveInserted(db, e) == Refused(Conflict) <==> e.owned in db.sessions && Taken(db.events, e)
    ensures LiveInserted(db, e).Refused? <==> e.owned !in db.sessions || Taken(db.events, e)
    ensures LiveInserted(db, e).Done? ==>
      LiveInserted(db, e).value.sessions == db.sessions && LiveStep(db.events, e, LiveInserted(db, e).value.events)
  {
    LiveInsertLeaves(JournalOf(db, e.owned), e.at, e.row);
  }

  /** An append: the row as it came, and an activity no older than it. */
  ghost predicate AppendLeaves(before: Db, e: Event, later: Db) {
    && RawStep(before.events, e, later.events)
    && OnlyRow(before.sessions, later.sessions, e.owned) && e.owned in before.sessions && e.owned in later.sessions
    && var active := before.sessions[e.owned].lastActivity;
       later.sessions[e.owned] == before.sessions[e.owned].(
         lastActivity := if active < e.row.createdAt then e.row.createdAt else active)
  }

  lemma AppendSteps(db: Db, e: Event)
    ensures EventAppended(db, e) == Refused(Missing) <==> e.owned !in db.sessions
    ensures EventAppended(db, e) == Refused(Conflict) <==> e.owned in db.sessions && Taken(db.events, e)
    ensures EventAppended(db, e).Refused? <==> e.owned !in db.sessions || Taken(db.events, e)
    ensures EventAppended(db, e).Done? ==> AppendLeaves(db, e, EventAppended(db, e).value)
  {
    RawAppendLeaves(JournalOf(db, e.owned), e.at, e.row);
  }

  /** Events inserted one after the other. */
  ghost predicate LiveSteps(before: map<OwnedId, Journal>, page: seq<Event>, later: map<OwnedId, Journal>)
    decreases |page|
  {
    if page == [] then later == before
    else exists next :: LiveStep(before, page[0], next) && LiveSteps(next, page[1..], later)
  }

  lemma {:induction false} InsertsAreSteps(db: Db, page: seq<Event>)
    ensures LiveInsertedAll(db, page).Done? ==>
      && LiveInsertedAll(db, page).value.sessions == db.sessions
      && LiveSteps(db.events, page, LiveInsertedAll(db, page).value.events)
    decreases |page|
  {
    if page != [] {
      LiveInsertSteps(db, page[0]);
      if LiveInserted(db, page[0]).Done? {
        InsertsAreSteps(LiveInserted(db, page[0]).value, page[1..]);
      }
    }
  }

  /** Sequences that are free and differ are never refused. */
  predicate AllFree(events: map<OwnedId, Journal>, page: seq<Event>) {
    && (forall k :: 0 <= k < |page| ==> !Taken(events, page[k]))
    && (forall a, b :: 0 <= a < b < |page| && page[a].owned == page[b].owned ==> page[a].at != page[b].at)
  }

  lemma {:induction false} FreePagesInsert(db: Db, page: seq<Event>)
    requires AllFree(db.events, page) && forall k :: 0 <= k < |page| ==> page[k].owned in db.sessions
    ensures LiveInsertedAll(db, page).Done?
    decreases |page|
  {
    if page != [] {
      LiveInsertSteps(db, page[0]);
      var next := LiveInserted(db, page[0]).value;
      forall k | 1 <= k < |page|
        ensures !Taken(next.events, page[k])
      {
        assert !Taken(db.events, page[k]);
      }
      FreePagesInsert(next, page[1..]);
    }
  }

  /** A page of the child's own events is refused only for a sequence that is taken. */
  lemma {:induction false} InsertsRefused(db: Db, page: seq<Event>, child: OwnedId)
    requires child in db.sessions && forall e :: e in page ==> e.owned == child
    ensures LiveInsertedAll(db, page).Refused? ==> LiveInsertedAll(db, page) == Refused(Conflict) && !AllFree(db.events, page)
    decreases |page|
  {
    if page != [] {
      assert page[0] in page;
      LiveInsertSteps(db, page[0]);
      if LiveInserted(db, page[0]).Done? {
        assert forall e :: e in page[1..] ==> e in page;
        InsertsRefused(LiveInserted(db, page[0]).value, page[1..], child);
      }
    }
    if AllFree(db.events, page) {
      assert forall k :: 0 <= k < |page| ==> page[k] in page;
      FreePagesInsert(db, page);
    }
  }

  predicate IsLastAt(page: seq<Event>, s: int, k: nat) {
    k < |page| && page[k].at == s && forall n :: k < n < |page| ==> page[n].at != s
  }

  /** A cached page replaces the rows of its own sequences, the last one given winning, and no other. */
  ghost predicate PageWritten(before: Journal, page: seq<Event>, later: Journal) {
    && (forall s, k: nat :: IsLastAt(page, s, k) ==> s in later && later[s] == page[k].row)
    && (forall s :: (forall k :: 0 <= k < |page| ==> page[k].at != s) ==>
          (s in later <==> s in before) && (s in later ==> later[s] == before[s]))
  }

  lemma {:induction false} OverwriteLeaves(j: Journal, page: seq<Event>)
    ensures PageWritten(j, page, Overwritten(j, page))
    decreases |page|
  {
    if page != [] {
      var next, rest := j[page[0].at := page[0].row], page[1..];
      OverwriteLeaves(next, rest);
      var later := Overwritten(next, rest);
      forall s: int, k: nat | IsLastAt(page, s, k)
        ensures s in later && later[s] == page[k].row
      {
        if k > 0 {
          assert IsLastAt(rest, s, k - 1);
        } else {
          assert forall n :: 0 <= n < |rest| ==> rest[n] == page[n + 1];
        }
      }
      forall s | forall k :: 0 <= k < |page| ==> page[k].at != s
        ensures (s in later <==> s in j) && (s in later ==> later[s] == j[s])
      {
        assert forall k :: 0 <= k < |rest| ==> rest[k] == page[k + 1];
      }
    }
  }

  /** A cached page: the row is saved as the profile's own, and the page written into its journal. */
  ghost predicate CacheLeaves(before: Db, profile: Profile, row: SessionRow, page: seq<Event>, later: Db) {
    && OnlyRow(before.sessions, later.sessions, row.owned) && row.owned in later.sessions
    && SavedColumns(Stored(before.sessions, row.owned), row, later.sessions[row.owned])
    && later.sessions[row.owned].profile == Some(profile)
    && later.sessions[row.owned].parent == (if row.owned in before.sessions then before.sessions[row.owned].parent else None)
    && OnlyJournal(before.events, later.events, row.owned) && row.owned in later.events
    && PageWritten(if row.owned in before.events then before.events[row.owned] else map[], page, later.events[row.owned])
  }

  /** Refused exactly under a row of another owner; a refusal changes nothing. */
  ghost predicate CacheTold(before: Db, profile: Profile, row: SessionRow, page: seq<Event>, refusal: Option<Refusal>, later: Db) {
    if row.owned in before.sessions && before.sessions[row.owned].profile != Some(profile)
    then refusal == Some(OwnershipMismatch) && later == before
    else refusal == None && CacheLeaves(before, profile, row, page, later)
  }

  lemma CacheIsTold(db: Db, profile: Profile, row: SessionRow, page: seq<Event>)
    ensures match RemoteCachedPage(db, profile, row, page)
            case Done(later) => CacheTold(db, profile, row, page, None, later)
            case Refused(why) => CacheTold(db, profile, row, page, Some(why), db)
  {
    UpsertLeaves(db.sessions, row);
    OverwriteLeaves(JournalOf(db, row.owned), page);
  }

  // ---------------------------------------------------------------- the import commit

  /** The stored import member reads as the expected cursor: SQL takes null for nothing, a truth
      value for a number, and a text for the JSON it holds. */
  ghost predicate ReadsAs(parse: Reader, e: Extra, expected: Json) {
    && HasImport(e)
    && match e.json.members["import"]
       case Null => false
       case Bool(b) => expected == Integer(if b then 1 else 0)
       case Text(text) => parse(text) == Some(expected)
       case cursor => cursor == expected
  }

  lemma CursorIsRead(parse: Reader, e: Extra, expected: Json)
    ensures NoDifference(StoredCursorRows(parse, e), Tree(expected)) <==> ReadsAs(parse, e, expected)
  {
    var stored := ReadImport(parse, e);
    if stored.Some? {
      NoDifferenceIsEquality(stored.value, expected);
    } else {
      Root(expected, NodeOf(expected));
      assert TreeRow([], NodeOf(expected)) in Tree(expected) - {};
    }
  }

  predicate IsChildOf(sessions: map<OwnedId, Session>, parent: OwnedId, profile: Option<Profile>, child: OwnedId) {
    && parent in sessions && sessions[parent].profile == profile
    && child in sessions && sessions[child].parent == Some(parent) && sessions[child].profile == profile
  }

  lemma MatchIsRead(parse: Reader, db: Db, parent: OwnedId, profile: Option<Profile>, child: OwnedId, expected: Json)
    ensures CursorMatches(parse, db, parent, profile, child, expected)
       <==> IsChildOf(db.sessions, parent, profile, child) && ReadsAs(parse, db.sessions[child].extra, expected)
  {
    if child in db.sessions {
      CursorIsRead(parse, db.sessions[child].extra, expected);
    }
  }

  /** The new cursor is written into an object and nothing else of it changes. */
  ghost predicate CursorWritten(before: Extra, next: Json, later: Extra) {
    if before.Parsed? && before.json.Object? then
      && HasImport(later) && later.json.members["import"] == next
      && (forall key :: key != "import" ==> (key in later.json.members <==> key in before.json.members))
      && (forall key :: key != "import" && key in before.json.members ==>
            key in later.json.members && later.json.members[key] == before.json.members[key])
    else later == before
  }

  predicate IsNewestRow(j: Journal, n: int) {
    n in j && forall s :: s in j ==> s <= n
  }

  /** The row after a commit: its cursor, and an activity no older than the newest row of its journal. */
  ghost predicate CommittedRow(before: Session, next: Json, j: Journal, later: Session) {
    && later.parent == before.parent && later.profile == before.profile && later.native == before.native
    && later.project == before.project && later.rest == before.rest
    && CursorWritten(before.extra, next, later.extra)
    && (forall n :: IsNewestRow(j, n) ==>
          later.lastActivity == if before.lastActivity < j[n].createdAt then j[n].createdAt else before.lastActivity)
    && (j == map[] ==> later.lastActivity == before.lastActivity)
  }

  lemma AdvanceLeaves(db: Db, child: OwnedId, next: Json)
    requires child in db.sessions
    ensures CursorAdvanced(db, child, next).Done?
    ensures var later := CursorAdvanced(db, child, next).value;
      && later.events == db.events && OnlyRow(db.sessions, later.sessions, child) && child in later.sessions
      && CommittedRow(db.sessions[child], next, if child in db.events then db.events[child] else map[], later.sessions[child])
  {
    var j := JournalOf(db, child);
    assert j == map[] <==> j.Keys == {};
  }

  /** An accepted page: its events inserted in order, and the cursor moved. */
  ghost predicate CommitLeaves(before: Db, child: OwnedId, next: Json, page: seq<Event>, later: Db) {
    && LiveSteps(before.events, page, later.events)
    && OnlyRow(before.sessions, later.sessions, child) && child in before.sessions && child in later.sessions
    && CommittedRow(before.sessions[child], next, if child in later.events then later.events[child] else map[],
                    later.sessions[child])
  }

  /** A page is refused when an event is not the child's, else when parent, profile or cursor differ, else
      only for a sequence that is taken; a refusal changes nothing. */
  ghost predicate CommitTold(parse: Reader, before: Db, parent: OwnedId, profile: Option<Profile>, child: OwnedId,
                             expected: Json, next: Json, page: seq<Event>, refusal: Option<Refusal>, later: Db) {
    && (refusal == Some(OwnershipMismatch) <==> exists e :: e in page && e.owned != child)
    && (refusal == Some(CursorMismatch) <==>
          && (forall e :: e in page ==> e.owned == child)
          && !(IsChildOf(before.sessions, parent, profile, child) && ReadsAs(parse, before.sessions[child].extra, expected)))
    && refusal in {None, Some(OwnershipMismatch), Some(CursorMismatch), Some(Conflict)}
    && (AllFree(before.events, page) ==> refusal != Some(Conflict))
    && (refusal == None ==> CommitLeaves(before, child, next, page, later))
    && (refusal != None ==> later == before)
  }

  lemma CommitIsTold(parse: Reader, db: Db, parent: OwnedId, profile: Option<Profile>, child: OwnedId,
                     expected: Json, next: Json, page: seq<Event>)
    ensures match PageCommitted(parse, db, parent, profile, child, expected, next, page)
            case Done(later) => CommitTold(parse, db, parent, profile, child, expected, next, page, None, later)
            case Refused(why) => CommitTold(parse, db, parent, profile, child, expected, next, page, Some(why), db)
  {
    MatchIsRead(parse, db, parent, profile, child, expected);
    if child in db.sessions && (forall e :: e in page ==> e.owned == child) {
      InsertsAreSteps(db, page);
      InsertsRefused(db, page, child);
      if LiveInsertedAll(db, page).Done? {
        AdvanceLeaves(LiveInsertedAll(db, page).value, child, next);
      }
    }
  }

  // ---------------------------------------------------------------- filed rows

  /** A pending sequence keeps the stored value. */
  predicate IsPending(e: Extra) {
    && e.Parsed? && e.json.Object? && "pendingSequence" in e.json.members
    && !e.json.members["pendingSequence"].Null?
  }

  ghost predicate FiledRow(before: map<OwnedId, Session>, profile: Profile, r: Filed, later: map<OwnedId, Session>) {
    && OnlyRow(before, later, r.owned) && r.owned in later
    && (if r.owned !in before then
          later[r.owned] == Session(None, Some(profile), None, r.extra, r.project, r.lastActivity, "")
        else
          var s := before[r.owned];
          if s.profile != Some(profile) then later[r.owned] == s
          else
            && later[r.owned].parent == s.parent && later[r.owned].profile == s.profile
            && later[r.owned].native == s.native && later[r.owned].rest == s.rest
            && later[r.owned].project == (if s.project.Some? then s.project else r.project)
            && later[r.owned].lastActivity == (if s.lastActivity < r.lastActivity then r.lastActivity else s.lastActivity)
            && later[r.owned].extra == (if IsPending(s.extra) then s.extra else r.extra))
  }

  lemma FilingLeaves(sessions: map<OwnedId, Session>, profile: Profile, r: Filed)
    ensures var filed := OneFiled(sessions, profile, r);
      && (filed.Refused? <==> && r.owned in sessions && sessions[r.owned].profile == Some(profile)
                              && sessions[r.owned].extra.NotJson?)
      && (filed.Refused? ==> filed == Refused(BadJson))
      && (filed.Done? ==> FiledRow(sessions, profile, r, filed.value))
  {
  }

  /** Rows filed one after the other; the first that finds no JSON refuses them all. */
  ghost predicate FiledRows(before: map<OwnedId, Session>, profile: Profile, rows: seq<Filed>, later: map<OwnedId, Session>)
    decreases |rows|
  {
    if rows == [] then later == before
    else exists next :: FiledRow(before, profile, rows[0], next) && FiledRows(next, profile, rows[1..], later)
  }

  lemma {:induction false} FilingsLeave(sessions: map<OwnedId, Session>, profile: Profile, rows: seq<Filed>)
    ensures AllFiled(sessions, profile, rows).Done? ==> FiledRows(sessions, profile, rows, AllFiled(sessions, profile, rows).value)
    ensures AllFiled(sessions, profile, rows).Refused? ==> AllFiled(sessions, profile, rows) == Refused(BadJson)
    decreases |rows|
  {
    if rows != [] {
      FilingLeaves(sessions, profile, rows[0]);
      if OneFiled(sessions, profile, rows[0]).Done? {
        FilingsLeave(OneFiled(sessions, profile, rows[0]).value, profile, rows[1..]);
      }
    }
  }

  /** When no row is filed twice, the statement is refused exactly when a stored row of the profile that
      it files holds no JSON. */
  lemma {:induction false} FilingRefusedExactly(sessions: map<OwnedId, Session>, profile: Profile, rows: seq<Filed>)
    requires forall a, b :: 0 <= a < b < |rows| ==> rows[a].owned != rows[b].owned
    ensures AllFiled(sessions, profile, rows).Refused?
       <==> exists k :: 0 <= k < |rows| && BlocksFiling(sessions, profile, rows[k].owned)
    decreases |rows|
  {
    if rows != [] {
      var rest := rows[1..];
      FilingLeaves(sessions, profile, rows[0]);
      assert forall k :: 0 <= k < |rest| ==> rest[k] == rows[k + 1];
      if OneFiled(sessions, profile, rows[0]).Done? {
        var next := OneFiled(sessions, profile, rows[0]).value;
        FilingRefusedExactly(next, profile, rest);
        assert forall k :: 0 <= k < |rest| ==>
          (BlocksFiling(next, profile, rest[k].owned) <==> BlocksFiling(sessions, profile, rest[k].owned));
        if k :| 0 <= k < |rows| && BlocksFiling(sessions, profile, rows[k].owned) {
          assert k > 0 && rest[k - 1] == rows[k];
        }
      } else {
        assert BlocksFiling(sessions, profile, rows[0].owned);
      }
    }
  }

  predicate BlocksFiling(sessions: map<OwnedId, Session>, profile: Profile, id: OwnedId) {
    id in sessions && sessions[id].profile == Some(profile) && sessions[id].extra.NotJson?
  }
}
