/**
 The store itself: the two tables as fields, each writer as a method that runs its statements
 in order and rolls both tables back when one of them fails. Every writer of a row takes one
 step of the relation in `Ownership`, and so keeps every child under its parent's profile.
 */
module SessionStore {
  import opened Basics
  import opened Journal
  import JournalLimits
  import opened Json
  import Ordering
  import opened Ownership
  import opened SessionEffects
  import opened Sessions

  // ---------------------------------------------------------------- statements over one journal

  function DeleteOlderOfKind(j: Journal, kind: Kind, at: int): Journal {
    map s | s in j && !(j[s].kind == kind && s < at) :: j[s]
  }

  function DeleteUpdatesBetween(j: Journal, i: ItemId, at: int): Journal {
    map s | s in j && !(IsToolUpdate(j[s], i) && s < at && Min(UpdateSeqs(j, i) + {s}) < s) :: j[s]
  }

  function DeleteAllButNewest(j: Journal, kind: Kind): Journal {
    map s | s in j && !(j[s].kind == kind && s < Max(KindSeqs(j, kind) + {s})) :: j[s]
  }

  /** The tool statement of `clear_superseded_events`. */
  function DeleteMiddleUpdates(j: Journal): Journal {
    map s | s in j && !MiddleUpdate(j, s) :: j[s]
  }

  predicate MiddleUpdate(j: Journal, s: int)
    requires s in j
  {
    && j[s].kind == ItemUpdated && j[s].payload.Tool? && j[s].payload.item.Some?
    && s < Max(ToolUpdateSeqs(j, j[s].payload.item.value) + {s})
    && Min(UpdateSeqs(j, j[s].payload.item.value) + {s}) < s
  }

  lemma MinTest(all: set<int>, s: int)
    ensures Min(all + {s}) < s <==> exists m :: m in all && m < s
  {
    assert s in all + {s};
    var low := Min(all + {s});
    if low < s {
      assert low in all;
    }
    if m :| m in all && m < s {
      assert m in all + {s};
    }
  }

  lemma MaxTest(all: set<int>, s: int)
    ensures s < Max(all + {s}) <==> exists m :: m in all && s < m
  {
    assert s in all + {s};
    var top := Max(all + {s});
    if s < top {
      assert top in all;
    }
    if m :| m in all && s < m {
      assert m in all + {s};
    }
  }

  lemma MiddleTest(j: Journal, s: int)
    requires s in j
    ensures MiddleUpdate(j, s) <==> (Obsolete(j, s) && !SupersededKind(j[s].kind))
  {
    if j[s].payload.item.Some? {
      var i := j[s].payload.item.value;
      MinTest(UpdateSeqs(j, i), s);
      MaxTest(ToolUpdateSeqs(j, i), s);
      assert forall m :: m in ToolUpdateSeqs(j, i) <==> m in j && IsToolUpdate(j[m], i);
      assert forall m :: m in UpdateSeqs(j, i) <==> m in j && IsUpdate(j[m], i);
    }
  }

  /** The two deletes of `drop_superseded_events`, one after the other, are one filter. */
  lemma DropIsOneFilter(j: Journal, at: int, r: Row)
    ensures Dropped(j, at, r) ==
      if SupersededKind(r.kind) then DeleteOlderOfKind(j, r.kind, at)
      else if r.kind == ItemUpdated && r.payload.Tool? && r.payload.item.Some?
        then DeleteUpdatesBetween(j, r.payload.item.value, at)
      else j
  {
    if r.payload.item.Some? {
      var i := r.payload.item.value;
      forall s | s in j
        ensures (Min(UpdateSeqs(j, i) + {s}) < s) <==> exists first :: first in j && IsUpdate(j[first], i) && first < s
      {
        MinTest(UpdateSeqs(j, i), s);
        assert forall m :: m in UpdateSeqs(j, i) <==> m in j && IsUpdate(j[m], i);
      }
    }
  }

  /** The journal once the first `k` kinds have been cleared. */
  function KindsCleared(j: Journal, k: nat): Journal
    requires k <= |SUPERSEDED_BY_NEWER|
  {
    map s | s in j && !(j[s].kind in SUPERSEDED_BY_NEWER[..k] && exists n :: n in j && j[n].kind == j[s].kind && s < n) :: j[s]
  }

  lemma ClearOneKind(j: Journal, k: nat)
    requires k < |SUPERSEDED_BY_NEWER|
    ensures DeleteAllButNewest(KindsCleared(j, k), SUPERSEDED_BY_NEWER[k]) == KindsCleared(j, k + 1)
  {
    var kind, a := SUPERSEDED_BY_NEWER[k], KindsCleared(j, k);
    assert SUPERSEDED_BY_NEWER[..k + 1] == SUPERSEDED_BY_NEWER[..k] + [kind];
    assert kind !in SUPERSEDED_BY_NEWER[..k];
    forall s | s in a && a[s].kind == kind
      ensures s < Max(KindSeqs(a, kind) + {s}) <==> exists n :: n in j && j[n].kind == kind && s < n
    {
      MaxTest(KindSeqs(a, kind), s);
      assert forall n :: n in KindSeqs(a, kind) <==> n in j && j[n].kind == kind;
    }
  }

  /** Clearing the tool updates last sees the same tool rows as on the uncleared journal. */
  lemma ClearToolsLast(j: Journal)
    ensures DeleteMiddleUpdates(KindsCleared(j, |SUPERSEDED_BY_NEWER|)) == Cleared(j)
  {
    var a := KindsCleared(j, |SUPERSEDED_BY_NEWER|);
    assert SUPERSEDED_BY_NEWER[..|SUPERSEDED_BY_NEWER|] == SUPERSEDED_BY_NEWER;
    forall s | s in a
      ensures MiddleUpdate(a, s) <==> Obsolete(j, s)
    {
      MiddleTest(a, s);
      SameUpdates(j, a, s);
    }
    assert forall s :: s in j && s !in a ==> Obsolete(j, s);
  }

  lemma SameUpdates(j: Journal, a: Journal, s: int)
    requires a == KindsCleared(j, |SUPERSEDED_BY_NEWER|) && s in a
    ensures (Obsolete(a, s) && !SupersededKind(a[s].kind)) <==> Obsolete(j, s)
  {
    assert SUPERSEDED_BY_NEWER[..|SUPERSEDED_BY_NEWER|] == SUPERSEDED_BY_NEWER;
    assert forall n :: n in a ==> n in j && a[n] == j[n];
    assert forall n :: n in j && j[n].kind == ItemUpdated ==> n in a;
  }

  // ---------------------------------------------------------------- the store

  /** What accepting a page leaves, and what refusing it does. */
  lemma CommitStep(parse: Reader, db: Db, parent: OwnedId, source: Option<Profile>, child: OwnedId,
                   expected: Json, next: Json, page: seq<Event>) returns (r: Outcome<Db, Refusal>)
    requires OneProfilePerFamily(db.sessions)
    ensures r == PageCommitted(parse, db, parent, source, child, expected, next, page)
         == Attempt(parse, db, CommitPage(parent, source, child, expected, next, page))
    ensures match r
            case Done(later) =>
              && CommitTold(parse, db, parent, source, child, expected, next, page, None, later)
              && OneProfilePerFamily(later.sessions) && SameProfiles(db.sessions, later.sessions)
            case Refused(why) => CommitTold(parse, db, parent, source, child, expected, next, page, Some(why), db)
  {
    r := PageCommitted(parse, db, parent, source, child, expected, next, page);
    CommitIsTold(parse, db, parent, source, child, expected, next, page);
    StepKeepsOwnership(parse, db, CommitPage(parent, source, child, expected, next, page));
  }

  /** With every member all its children. */
  predicate IsClosed(sessions: map<OwnedId, Session>, family: set<OwnedId>) {
    forall c :: c in sessions && sessions[c].parent.Some? && sessions[c].parent.value in family ==> c in family
  }

  class Store {
    const parse: Reader
    var sessions: map<OwnedId, Session>
    var events: map<OwnedId, Journal>

    /** Every child is in the table with its parent, under one profile. */
    ghost predicate Valid()
      reads this
    {
      OneProfilePerFamily(sessions)
    }

    constructor (parse: Reader)
      ensures Valid() && State() == Db(map[], map[]) && this.parse == parse
    {
      this.parse := parse;
      sessions, events := map[], map[];
    }

    function State(): Db
      reads this
    {
      Db(sessions, events)
    }

    /** The step was taken, or refused for that reason and rolled back. */
    ghost predicate Took(before: Db, step: Step, refusal: Option<Refusal>)
      reads this
    {
      match Attempt(parse, before, step)
      case Done(next) => refusal == None && State() == next
      case Refused(why) => refusal == Some(why) && State() == before
    }

    /** What taking a step leaves: families, and the owner of every surviving row. */
    ghost predicate Kept(before: map<OwnedId, Session>)
      reads this
    {
      Valid() && SameProfiles(before, sessions)
    }

    method DropSuperseded(owned: OwnedId, at: int, row: Row)
      requires owned in events
      modifies this`events
      ensures events == old(events)[owned := Dropped(old(events[owned]), at, row)]
    {
      DropIsOneFilter(events[owned], at, row);
      if row.kind in SUPERSEDED_BY_NEWER {
        events := events[owned := DeleteOlderOfKind(events[owned], row.kind, at)];
      }
      if row.kind == ItemUpdated && row.payload.Tool? && row.payload.item.Some? {
        events := events[owned := DeleteUpdatesBetween(events[owned], row.payload.item.value, at)];
      }
    }

    method InsertChronological(e: Event) returns (refusal: Option<Refusal>)
      modifies this`events
      ensures match LiveInserted(old(State()), e)
              case Done(next) => refusal == None && State() == next
              case Refused(why) => refusal == Some(why) && State() == old(State())
      ensures refusal == if e.owned !in sessions then Some(Missing) else if Taken(old(events), e) then Some(Conflict) else None
      ensures refusal == None ==> LiveStep(old(events), e, events)
      ensures refusal != None ==> events == old(events)
    {
      LiveInsertSteps(State(), e);
      if e.owned !in sessions {
        return Some(Missing);
      }
      var j := JournalOf(State(), e.owned);
      if e.at in j {
        return Some(Conflict);
      }
      var put := e.row;
      if e.row.kind == ItemUpdated && e.row.payload.Tool? {
        put := e.row.(payload := MergedLive(j, e.at, e.row), stamp := Some(Stamp(e.at, e.row.createdAt)));
      }
      events := events[e.owned := j[e.at := put]];
      DropSuperseded(e.owned, e.at, e.row);
      refusal := None;
    }

    method UpsertSessionWithEvent(row: SessionRow, event: Option<Event>) returns (refusal: Option<Refusal>)
      requires Valid()
      modifies this
      ensures Took(old(State()), Save(row, event), refusal) && Kept(old(sessions))
      ensures refusal ==
        if event.None? then None
        else if event.value.owned !in old(sessions) && event.value.owned != row.owned then Some(Missing)
        else if Taken(old(events), event.value) then Some(Conflict)
        else None
      ensures refusal == None ==> SavedRow(old(sessions), row, sessions)
      ensures refusal == None && event.Some? ==> LiveStep(old(events), event.value, events)
      ensures event.None? ==> events == old(events)
      ensures refusal != None ==> sessions == old(sessions) && events == old(events)
    {
      UpsertLeaves(sessions, row);
      StepKeepsOwnership(parse, State(), Save(row, event));
      var before := sessions;
      sessions := Upserted(sessions, row);
      refusal := None;
      if event.Some? {
        refusal := InsertChronological(event.value);
        if refusal.Some? {
          sessions := before;
        }
      }
    }

    method AppendEvent(e: Event) returns (refusal: Option<Refusal>)
      requires Valid()
      modifies this
      ensures Took(old(State()), AppendOne(e), refusal) && Kept(old(sessions))
      ensures refusal ==
        if e.owned !in old(sessions) then Some(Missing) else if Taken(old(events), e) then Some(Conflict) else None
      ensures refusal == None ==> AppendLeaves(old(State()), e, State())
      ensures refusal != None ==> sessions == old(sessions) && events == old(events)
    {
      AppendSteps(State(), e);
      StepKeepsOwnership(parse, State(), AppendOne(e));
      if e.owned !in sessions {
        return Some(Missing);
      }
      var j := JournalOf(State(), e.owned);
      if e.at in j {
        return Some(Conflict);
      }
      events := events[e.owned := j[e.at := e.row]];
      DropSuperseded(e.owned, e.at, e.row);
      var s := sessions[e.owned];
      sessions := sessions[e.owned := s.(lastActivity := Larger(s.lastActivity, e.row.createdAt))];
      refusal := None;
    }

    /** The newest rows stay as they are, as many as may; the count of the others is returned. */
    method EnforceEventCap(owned: OwnedId, keep: nat) returns (deleted: nat)
      modifies this`events
      ensures State() == Next(parse, old(State()), EnforceCap(owned, keep))
      ensures forall other :: other != owned ==> JournalOf(State(), other) == old(JournalOf(State(), other))
      ensures var before, later := old(JournalOf(State(), owned)), JournalOf(State(), owned);
        && |later| == Ordering.Least(keep, |before|) && deleted == |before| - |later|
        && (forall s :: s in later ==> s in before && later[s] == before[s])
        && (forall s, t :: s in later && t in before && t !in later ==> t < s)
    {
      var j := JournalOf(State(), owned);
      var kept := NewestSeqs(j, keep);
      JournalLimits.CapKeepsTheNewest(j, keep);
      var left := map s | s in j && s in kept :: j[s];
      events := events[owned := left];
      deleted := |j| - |left|;
    }

    method ClearSupersededEvents()
      modifies this`events
      ensures events.Keys == old(events).Keys
      ensures forall o :: o in events ==> events[o] == Cleared(old(events)[o])
    {
      var k := 0;
      while k < |SUPERSEDED_BY_NEWER|
        invariant 0 <= k <= |SUPERSEDED_BY_NEWER|
        invariant events.Keys == old(events).Keys
        invariant forall o :: o in events ==> events[o] == KindsCleared(old(events)[o], k)
      {
        forall o | o in events
          ensures DeleteAllButNewest(events[o], SUPERSEDED_BY_NEWER[k]) == KindsCleared(old(events)[o], k + 1)
        {
          ClearOneKind(old(events)[o], k);
        }
        events := map o | o in events :: DeleteAllButNewest(events[o], SUPERSEDED_BY_NEWER[k]);
        k := k + 1;
      }
      forall o | o in events
        ensures DeleteMiddleUpdates(events[o]) == Cleared(old(events)[o])
      {
        ClearToolsLast(old(events)[o]);
      }
      events := map o | o in events :: DeleteMiddleUpdates(events[o]);
    }

    /** `upgrade_tool_events` followed by `clear_superseded_events`. */
    method UpgradeToolEvents()
      modifies this`events
      ensures events.Keys == old(events).Keys
      ensures forall o :: o in events ==> events[o] == Upgraded(old(events)[o])
    {
      events := map o | o in events :: Normalized(events[o]);
      ClearSupersededEvents();
    }

    method CacheRemoteEvents(profile: Profile, row: SessionRow, page: seq<Event>) returns (refusal: Option<Refusal>)
      requires Valid()
      modifies this
      ensures Took(old(State()), CacheRemote(profile, row, page), refusal) && Kept(old(sessions))
      ensures CacheTold(old(State()), profile, row, page, refusal, State())
    {
      CacheIsTold(State(), profile, row, page);
      StepKeepsOwnership(parse, State(), CacheRemote(profile, row, page));
      if row.owned in sessions && sessions[row.owned].profile != Some(profile) {
        return Some(OwnershipMismatch);
      }
      sessions := Upserted(sessions, row);
      sessions := sessions[row.owned := sessions[row.owned].(profile := Some(profile))];
      var j := JournalOf(State(), row.owned);
      var k := 0;
      while k < |page|
        invariant 0 <= k <= |page|
        invariant Overwritten(j, page[k..]) == Overwritten(JournalOf(old(State()), row.owned), page)
      {
        assert page[k..][1..] == page[k + 1..];
        j := j[page[k].at := page[k].row];
        k := k + 1;
      }
      events := events[row.owned := j];
      refusal := None;
    }

    method UpsertChildSession(parent: OwnedId, source: Option<Profile>, child: SessionRow) returns (refusal: Option<Refusal>)
      requires Valid()
      modifies this`sessions
      ensures Took(old(State()), UpsertChild(parent, source, child), refusal) && Kept(old(sessions))
      ensures refusal == None <==>
        && parent in old(sessions) && old(sessions)[parent].profile == source
        && (child.owned in old(sessions) ==>
              old(sessions)[child.owned].parent == Some(parent) && old(sessions)[child.owned].profile == source)
      ensures refusal == None ==>
        && child.owned in sessions && sessions[child.owned].parent == Some(parent) && sessions[child.owned].profile == source
        && OnlyRow(old(sessions), sessions, child.owned)
        && (child.owned !in old(sessions) ==> SavedColumns(None, child, sessions[child.owned]))
      ensures child.owned in old(sessions) || refusal != None ==> sessions == old(sessions)
    {
      UpsertLeaves(sessions, child);
      StepKeepsOwnership(parse, State(), UpsertChild(parent, source, child));
      if parent !in sessions || sessions[parent].profile != source {
        return Some(OwnershipMismatch);
      }
      if child.owned in sessions {
        if sessions[child.owned].parent != Some(parent) || sessions[child.owned].profile != source {
          return Some(OwnershipMismatch);
        }
        return None;
      }
      sessions := Upserted(sessions, child);
      sessions := sessions[child.owned := sessions[child.owned].(parent := Some(parent), profile := source)];
      refusal := None;
    }

    method BindCachedRemoteChild(parent: OwnedId, profile: Profile, child: OwnedId, native: string)
      returns (refusal: Option<Refusal>)
      requires Valid()
      modifies this`sessions
      ensures Took(old(State()), BindChild(parent, profile, child, native), refusal) && Kept(old(sessions))
      ensures refusal == None <==>
        && parent in old(sessions) && old(sessions)[parent].profile == Some(profile)
        && child in old(sessions) && old(sessions)[child].profile == Some(profile)
        && old(sessions)[child].parent in {None, Some(parent)} && old(sessions)[child].native in {None, Some(native)}
      ensures refusal != None ==> refusal == Some(OwnershipMismatch) && sessions == old(sessions)
      ensures refusal == None ==>
        && child in sessions && OnlyRow(old(sessions), sessions, child)
        && sessions[child] == old(sessions)[child].(parent := Some(parent), native := Some(native))
        && sessions[child].profile == Some(profile) == sessions[parent].profile
    {
      StepKeepsOwnership(parse, State(), BindChild(parent, profile, child, native));
      if parent !in sessions || sessions[parent].profile != Some(profile) {
        return Some(OwnershipMismatch);
      }
      var changed := 0;
      if child in sessions {
        var s := sessions[child];
        if && s.profile == Some(profile)
           && (s.parent.None? || s.parent == Some(parent))
           && (s.native.None? || s.native == Some(native))
        {
          sessions := sessions[child := s.(parent := Some(parent), native := Some(native))];
          changed := 1;
        }
      }
      refusal := if changed == 1 then None else Some(OwnershipMismatch);
    }

    /** The inserts of one import page. When one fails the caller rolls the page back. */
    method InsertPage(page: seq<Event>) returns (refusal: Option<Refusal>)
      modifies this`events
      ensures match LiveInsertedAll(old(State()), page)
              case Done(next) => refusal == None && State() == next
              case Refused(why) => refusal == Some(why)
    {
      var k := 0;
      while k < |page|
        invariant 0 <= k <= |page|
        invariant LiveInsertedAll(State(), page[k..]) == LiveInsertedAll(old(State()), page)
      {
        assert page[k..][0] == page[k] && page[k..][1..] == page[k + 1..];
        var failed := InsertChronological(page[k]);
        if failed.Some? {
          return failed;
        }
        k := k + 1;
      }
      refusal := None;
    }

    /** The last statement of a commit. */
    method AdvanceCursor(child: OwnedId, next: Json)
      requires child in sessions
      modifies this`sessions
      ensures Done(State()) == CursorAdvanced(old(State()), child, next)
    {
      var s := sessions[child];
      var newest := NewestCreatedAt(JournalOf(State(), child), s.lastActivity);
      sessions := sessions[child := s.(extra := WithCursor(s.extra, next), lastActivity := Larger(s.lastActivity, newest))];
    }

    /** The transaction: the ownership of the events, the cursor test, the inserts, the cursor. */
    method RunCommit(parent: OwnedId, source: Option<Profile>, child: OwnedId,
                     expected: Json, next: Json, page: seq<Event>) returns (refusal: Option<Refusal>)
      modifies this
      ensures match PageCommitted(parse, old(State()), parent, source, child, expected, next, page)
              case Done(later) => refusal == None && State() == later
              case Refused(why) => refusal == Some(why) && State() == old(State())
    {
      if exists e :: e in page && e.owned != child {
        return Some(OwnershipMismatch);
      }
      var begun := events;
      if !CursorMatches(parse, State(), parent, source, child, expected) {
        return Some(CursorMismatch);
      }
      refusal := InsertPage(page);
      if refusal.Some? {
        events := begun;
        return;
      }
      // The cursor test found the row, and the inserts leave sessions alone.
      AdvanceCursor(child, next);
    }

    method CommitChildImportPage(parent: OwnedId, source: Option<Profile>, child: OwnedId,
                                 expected: Json, next: Json, page: seq<Event>) returns (refusal: Option<Refusal>)
      requires Valid()
      modifies this
      ensures Took(old(State()), CommitPage(parent, source, child, expected, next, page), refusal) && Kept(old(sessions))
      ensures CommitTold(parse, old(State()), parent, source, child, expected, next, page, refusal, State())
    {
      ghost var r := CommitStep(parse, State(), parent, source, child, expected, next, page);
      refusal := RunCommit(parent, source, child, expected, next, page);
    }

    method FileRemoteSessions(profile: Profile, rows: seq<Filed>) returns (refusal: Option<Refusal>)
      requires Valid()
      modifies this`sessions
      ensures Took(old(State()), FileRemote(profile, rows), refusal) && Kept(old(sessions))
      ensures refusal == None ==> FiledRows(old(sessions), profile, rows, sessions)
      ensures refusal != None ==> refusal == Some(BadJson) && sessions == old(sessions)
    {
      FilingsLeave(sessions, profile, rows);
      StepKeepsOwnership(parse, State(), FileRemote(profile, rows));
      var k, filed := 0, sessions;
      while k < |rows|
        invariant 0 <= k <= |rows|
        invariant AllFiled(filed, profile, rows[k..]) == AllFiled(old(sessions), profile, rows)
      {
        assert rows[k..][1..] == rows[k + 1..];
        match OneFiled(filed, profile, rows[k]) {
          case Refused(why) => return Some(why);
          case Done(next) => filed := next;
        }
        k := k + 1;
      }
      sessions := filed;
      refusal := None;
    }

    /** The cascade reaches no row of another owner: exactly the profile's rows and journals go. */
    method PurgeRemoteHistory(profile: Profile)
      requires Valid()
      modifies this
      ensures State() == Next(parse, old(State()), Purge(profile)) && Kept(old(sessions))
      ensures sessions == map id | id in old(sessions) && old(sessions)[id].profile != Some(profile) :: old(sessions)[id]
      ensures events == map id | id in old(events) && (id in old(sessions) ==> old(sessions)[id].profile != Some(profile))
                          :: old(events)[id]
    {
      var mine := OfProfile(sessions, profile);
      StepKeepsOwnership(parse, State(), Purge(profile));
      CascadeStaysIn(sessions, mine, mine);
      var gone := Cascade(sessions, mine);
      sessions, events := sessions - gone, events - gone;
    }

    /** The row goes, with the smallest family below it and their journals, all of one profile;
        what stays is as it was. */
    method DeleteSession(owned: OwnedId)
      requires Valid()
      modifies this
      ensures State() == Next(parse, old(State()), Delete(owned)) && Kept(old(sessions))
      ensures owned !in sessions && sessions == old(sessions) - Deleted(old(sessions))
      ensures events == old(events) - Deleted(old(sessions))
      ensures forall id :: id in Deleted(old(sessions)) ==>
        owned in old(sessions) && old(sessions)[id].profile == old(sessions)[owned].profile
      ensures forall family: set<OwnedId> :: owned in family && IsClosed(old(sessions), family) ==>
        Deleted(old(sessions)) <= family
    {
      var doomed := if owned in sessions then {owned} else {};
      StepKeepsOwnership(parse, State(), Delete(owned));
      forall family: set<OwnedId> | owned in family && IsClosed(sessions, family)
        ensures Cascade(sessions, doomed) <= family
      {
        CascadeStaysIn(sessions, doomed, family);
      }
      FamilySharesProfile(sessions, owned);
      var gone := Cascade(sessions, doomed);
      sessions, events := sessions - gone, events - gone;
      assert Deleted(old(sessions)) == gone;
    }

    /** The rows of an earlier table that are no longer there. */
    ghost function Deleted(before: map<OwnedId, Session>): set<OwnedId>
      reads this
    {
      before.Keys - sessions.Keys
    }
  }
}
