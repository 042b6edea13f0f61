/**
 Who owns a session row: a step relation over every writer of the session table, and what
 holds in every state a run can reach.
 */
module Ownership {
  import opened Basics
  import opened Json
  import opened Sessions

  datatype Step =
    | Save(row: SessionRow, event: Option<Event>)
    | AppendOne(appended: Event)
    | EnforceCap(owned: OwnedId, keep: nat)
    | CacheRemote(profile: Profile, row: SessionRow, page: seq<Event>)
    | UpsertChild(parent: OwnedId, source: Option<Profile>, child: SessionRow)
    | BindChild(parent: OwnedId, profile: Profile, bound: OwnedId, native: string)
    | CommitPage(parent: OwnedId, source: Option<Profile>, into: OwnedId, expected: Json, next: Json, page: seq<Event>)
    | FileRemote(profile: Profile, filed: seq<Filed>)
    | Purge(profile: Profile)
    | Delete(owned: OwnedId)

  function Attempt(parse: Reader, db: Db, step: Step): Outcome<Db, Refusal> {
    match step
    case Save(row, event) => SessionSaved(db, row, event)
    case AppendOne(e) => EventAppended(db, e)
    case EnforceCap(owned, keep) => Done(CapEnforced(db, owned, keep))
    case CacheRemote(profile, row, page) => RemoteCachedPage(db, profile, row, page)
    case UpsertChild(parent, source, child) => ChildUpserted(db, parent, source, child)
    case BindChild(parent, profile, bound, native) => ChildBound(db, parent, profile, bound, native)
    case CommitPage(parent, source, into, expected, next, page) =>
      PageCommitted(parse, db, parent, source, into, expected, next, page)
    case FileRemote(profile, filed) => RemoteFiled(db, profile, filed)
    case Purge(profile) => Done(RemotePurged(db, profile))
    case Delete(owned) => Done(SessionDeleted(db, owned))
  }

  /** A refused write is rolled back. */
  function Next(parse: Reader, db: Db, step: Step): Db {
    match Attempt(parse, db, step)
    case Done(next) => next
    case Refused(_) => db
  }

  function After(parse: Reader, steps: seq<Step>): Db {
    if steps == [] then Db(map[], map[])
    else Next(parse, After(parse, steps[..|steps| - 1]), steps[|steps| - 1])
  }

  /** Every parent link stays inside the table and inside one profile. */
  predicate OneProfilePerFamily(sessions: map<OwnedId, Session>) {
    forall c :: c in sessions && sessions[c].parent.Some? ==>
      && sessions[c].parent.value in sessions
      && sessions[sessions[c].parent.value].profile == sessions[c].profile
  }

  /** No surviving row changed hands. */
  predicate SameProfiles(before: map<OwnedId, Session>, later: map<OwnedId, Session>) {
    forall id :: id in before && id in later ==> later[id].profile == before[id].profile
  }

  /** Only profiles and parents matter, and they did not change. */
  predicate SameOwners(before: map<OwnedId, Session>, later: map<OwnedId, Session>) {
    && (forall id :: id in before ==> id in later && later[id].profile == before[id].profile && later[id].parent == before[id].parent)
    && (forall id :: id in later && id !in before ==> later[id].parent == None)
  }

  lemma SameOwnersKeep(before: map<OwnedId, Session>, later: map<OwnedId, Session>)
    requires OneProfilePerFamily(before) && SameOwners(before, later)
    ensures OneProfilePerFamily(later) && SameProfiles(before, later)
  {
  }

  lemma {:induction false} InsertsKeepSessions(db: Db, events: seq<Event>)
    ensures LiveInsertedAll(db, events).Done? ==> LiveInsertedAll(db, events).value.sessions == db.sessions
    decreases |events|
  {
    if events != [] && LiveInserted(db, events[0]).Done? {
      InsertsKeepSessions(LiveInserted(db, events[0]).value, events[1..]);
    }
  }

  lemma {:induction false} FilingKeeps(sessions: map<OwnedId, Session>, profile: Profile, rows: seq<Filed>)
    ensures AllFiled(sessions, profile, rows).Done? ==> SameOwners(sessions, AllFiled(sessions, profile, rows).value)
    decreases |rows|
  {
    if rows != [] && OneFiled(sessions, profile, rows[0]).Done? {
      FilingKeeps(OneFiled(sessions, profile, rows[0]).value, profile, rows[1..]);
    }
  }

  /** The cascade adds nothing outside a set that no child link enters from outside. */
  lemma {:induction false} CascadeStaysIn(sessions: map<OwnedId, Session>, doomed: set<OwnedId>, closed: set<OwnedId>)
    requires doomed <= closed && doomed <= sessions.Keys && ChildrenOf(sessions, closed) <= closed
    ensures Cascade(sessions, doomed) <= closed
    decreases sessions.Keys - doomed
  {
    var more := ChildrenOf(sessions, doomed);
    assert more <= ChildrenOf(sessions, closed);
    if !(more <= doomed) {
      CascadeStaysIn(sessions, doomed + more, closed);
    }
  }

  lemma FamilySharesProfile(sessions: map<OwnedId, Session>, id: OwnedId)
    requires OneProfilePerFamily(sessions)
    ensures id in sessions ==>
      forall s :: s in Cascade(sessions, {id}) ==> s in sessions && sessions[s].profile == sessions[id].profile
    ensures Cascade(sessions, {}) == {}
  {
    if id in sessions {
      var alike := set s | s in sessions && sessions[s].profile == sessions[id].profile;
      CascadeStaysIn(sessions, {id}, alike);
    }
  }

  lemma DeletingKeeps(db: Db, gone: set<OwnedId>)
    requires OneProfilePerFamily(db.sessions) && ChildrenOf(db.sessions, gone) <= gone
    ensures OneProfilePerFamily(Without(db, gone).sessions)
    ensures SameProfiles(db.sessions, Without(db, gone).sessions)
  {
    forall c | c in db.sessions && c !in gone && db.sessions[c].parent.Some?
      ensures db.sessions[c].parent.value !in gone
    {
      assert c !in ChildrenOf(db.sessions, gone);
    }
  }

  lemma CommitKeepsSessions(parse: Reader, db: Db, step: Step)
    requires step.CommitPage?
    ensures SameOwners(db.sessions, Next(parse, db, step).sessions)
  {
    InsertsKeepSessions(db, step.page);
  }

  lemma FilingKeepsSessions(parse: Reader, db: Db, step: Step)
    requires step.FileRemote?
    ensures SameOwners(db.sessions, Next(parse, db, step).sessions)
  {
    FilingKeeps(db.sessions, step.profile, step.filed);
  }

  lemma RowWritesKeepOwners(parse: Reader, db: Db, step: Step)
    requires step.Save? || step.AppendOne? || step.CacheRemote?
    ensures SameOwners(db.sessions, Next(parse, db, step).sessions)
  {
  }

  lemma ChildWritesKeepOwnership(parse: Reader, db: Db, step: Step)
    requires OneProfilePerFamily(db.sessions) && (step.UpsertChild? || step.BindChild?)
    ensures OneProfilePerFamily(Next(parse, db, step).sessions)
    ensures SameProfiles(db.sessions, Next(parse, db, step).sessions)
  {
  }

  lemma StepKeepsOwnership(parse: Reader, db: Db, step: Step)
    requires OneProfilePerFamily(db.sessions)
    ensures OneProfilePerFamily(Next(parse, db, step).sessions)
    ensures SameProfiles(db.sessions, Next(parse, db, step).sessions)
  {
    var later := Next(parse, db, step).sessions;
    match step {
      case UpsertChild(_, _, _) => ChildWritesKeepOwnership(parse, db, step);
      case BindChild(_, _, _, _) => ChildWritesKeepOwnership(parse, db, step);
      case EnforceCap(_, _) =>
      case CommitPage(_, _, _, _, _, _) =>
        CommitKeepsSessions(parse, db, step);
        SameOwnersKeep(db.sessions, later);
      case FileRemote(_, _) =>
        FilingKeepsSessions(parse, db, step);
        SameOwnersKeep(db.sessions, later);
      case Purge(profile) => DeletingKeeps(db, Cascade(db.sessions, OfProfile(db.sessions, profile)));
      case Delete(owned) => DeletingKeeps(db, Cascade(db.sessions, if owned in db.sessions then {owned} else {}));
      case _ =>
        RowWritesKeepOwners(parse, db, step);
        SameOwnersKeep(db.sessions, later);
    }
  }

  /** In every reachable state a child row has its parent's profile. */
  lemma {:induction false} ChildrenShareTheirParentsProfile(parse: Reader, steps: seq<Step>)
    ensures OneProfilePerFamily(After(parse, steps).sessions)
  {
    if steps != [] {
      ChildrenShareTheirParentsProfile(parse, steps[..|steps| - 1]);
      StepKeepsOwnership(parse, After(parse, steps[..|steps| - 1]), steps[|steps| - 1]);
    }
  }

  /** While a row exists its profile is the one it was created with. */
  lemma {:induction false} ProfileNeverChanges(parse: Reader, steps: seq<Step>, from: nat, id: OwnedId)
    requires from <= |steps|
    requires forall k :: from <= k <= |steps| ==> id in After(parse, steps[..k]).sessions
    ensures id in After(parse, steps).sessions && id in After(parse, steps[..from]).sessions
    ensures After(parse, steps).sessions[id].profile == After(parse, steps[..from]).sessions[id].profile
    decreases |steps|
  {
    assert steps[..|steps|] == steps;
    assert id in After(parse, steps[..from]).sessions;
    if from < |steps| {
      var before := steps[..|steps| - 1];
      assert before[..from] == steps[..from];
      forall k | from <= k <= |before|
        ensures id in After(parse, before[..k]).sessions
      {
        assert before[..k] == steps[..k];
      }
      ProfileNeverChanges(parse, before, from, id);
      ChildrenShareTheirParentsProfile(parse, before);
      StepKeepsOwnership(parse, After(parse, before), steps[|steps| - 1]);
    }
  }

  /** Purging a profile, cascades included, deletes exactly that profile's rows and journals:
      every local row and every other machine's row is untouched. */
  lemma PurgeDeletesExactlyTheProfile(parse: Reader, steps: seq<Step>, profile: Profile)
    ensures var db := After(parse, steps);
      var purged := RemotePurged(db, profile);
      && purged.sessions == db.sessions - OfProfile(db.sessions, profile)
      && purged.events == db.events - OfProfile(db.sessions, profile)
  {
    var db := After(parse, steps);
    ChildrenShareTheirParentsProfile(parse, steps);
    var mine := OfProfile(db.sessions, profile);
    CascadeStaysIn(db.sessions, mine, mine);
    assert Cascade(db.sessions, mine) == mine;
  }

  /** Deleting one session takes only rows of its own profile with it. */
  lemma DeleteStaysInTheProfile(parse: Reader, steps: seq<Step>, id: OwnedId, other: OwnedId)
    requires id in After(parse, steps).sessions && other in After(parse, steps).sessions
    requires other !in SessionDeleted(After(parse, steps), id).sessions
    ensures After(parse, steps).sessions[other].profile == After(parse, steps).sessions[id].profile
  {
    ChildrenShareTheirParentsProfile(parse, steps);
    FamilySharesProfile(After(parse, steps).sessions, id);
  }
}
