/**
 The session table and the journals that hang off it, as values: what each writer of
 core/src/session_store.rs turns the database into. A writer runs in one transaction, so it
 either yields the next database or refuses and leaves the database alone.
 */
module Sessions {
  import opened Basics
  import opened Journal
  import opened Json

  type OwnedId = string
  type Profile = string

  /** The `extra` column: JSON when it parses. */
  datatype Extra = NotJson(text: string) | Parsed(json: Json)

  /** `profile` is `cached_remote_profile_id`: NULL is local. */
  datatype Session = Session(parent: Option<OwnedId>, profile: Option<Profile>, native: Option<string>,
                             extra: Extra, project: Option<string>, lastActivity: int, rest: string)

  /** What a caller writes: never the parent or the profile. */
  datatype SessionRow = SessionRow(owned: OwnedId, native: Option<string>, extra: Extra,
                                   project: Option<string>, lastActivity: int, rest: string)

  datatype Event = Event(owned: OwnedId, at: int, row: Row)

  datatype Db = Db(sessions: map<OwnedId, Session>, events: map<OwnedId, Journal>)

  datatype Refusal = OwnershipMismatch | CursorMismatch | Conflict | Missing | BadJson

  const IMPORT := "import"
  const PENDING_SEQUENCE := "pendingSequence"

  function JournalOf(db: Db, id: OwnedId): Journal {
    if id in db.events then db.events[id] else map[]
  }

  // ---------------------------------------------------------------- upsert_session_on

  /** `json_type(extra, '$.import')` is not NULL. */
  predicate BringsImport(e: Extra) {
    e.Parsed? && e.json.Object? && IMPORT in e.json.members
  }

  /** The stored cursor survives a writer that rebuilt `extra` without one. */
  function MergedExtra(stored: Extra, incoming: Extra): Extra {
    if incoming.Parsed? && incoming.json.Object? && !BringsImport(incoming) && BringsImport(stored)
    then Parsed(Object(incoming.json.members[IMPORT := stored.json.members[IMPORT]]))
    else incoming
  }

  function Coalesce<T>(a: Option<T>, b: Option<T>): Option<T> {
    if a.Some? then a else b
  }

  function Larger(a: int, b: int): int {
    if a < b then b else a
  }

  function Upserted(sessions: map<OwnedId, Session>, row: SessionRow): map<OwnedId, Session> {
    sessions[row.owned :=
      if row.owned in sessions then
        var stored := sessions[row.owned];
        Session(stored.parent, stored.profile, row.native, MergedExtra(stored.extra, row.extra),
                Coalesce(stored.project, row.project), row.lastActivity, row.rest)
      else Session(None, None, row.native, row.extra, row.project, row.lastActivity, row.rest)]
  }

  // ---------------------------------------------------------------- journal writers

  /** `insert_chronological_event`: the session must exist and the sequence be free. */
  function LiveInserted(db: Db, e: Event): Outcome<Db, Refusal> {
    if e.owned !in db.sessions then Refused(Missing)
    else
      match Live(JournalOf(db, e.owned), e.at, e.row)
      case None => Refused(Conflict)
      case Some(j) => Done(db.(events := db.events[e.owned := j]))
  }

  function LiveInsertedAll(db: Db, events: seq<Event>): Outcome<Db, Refusal>
    decreases |events|
  {
    if events == [] then Done(db)
    else
      match LiveInserted(db, events[0])
      case Refused(why) => Refused(why)
      case Done(next) => LiveInsertedAll(next, events[1..])
  }

  function SessionSaved(db: Db, row: SessionRow, event: Option<Event>): Outcome<Db, Refusal> {
    var saved := db.(sessions := Upserted(db.sessions, row));
    if event.None? then Done(saved) else LiveInserted(saved, event.value)
  }

  function EventAppended(db: Db, e: Event): Outcome<Db, Refusal> {
    if e.owned !in db.sessions then Refused(Missing)
    else
      match Append(JournalOf(db, e.owned), e.at, e.row)
      case None => Refused(Conflict)
      case Some(j) =>
        var s := db.sessions[e.owned];
        Done(Db(db.sessions[e.owned := s.(lastActivity := Larger(s.lastActivity, e.row.createdAt))],
                db.events[e.owned := j]))
  }

  function CapEnforced(db: Db, id: OwnedId, keep: nat): Db {
    db.(events := db.events[id := Capped(JournalOf(db, id), keep)])
  }

  // ---------------------------------------------------------------- remote and child rows

  function Overwritten(j: Journal, events: seq<Event>): Journal
    decreases |events|
  {
    if events == [] then j else Overwritten(j[events[0].at := events[0].row], events[1..])
  }

  /** `cache_remote_events`: refuses a row that is local or another machine's. */
  function RemoteCachedPage(db: Db, profile: Profile, row: SessionRow, events: seq<Event>): Outcome<Db, Refusal> {
    if row.owned in db.sessions && db.sessions[row.owned].profile != Some(profile) then Refused(OwnershipMismatch)
    else
      var saved := Upserted(db.sessions, row);
      Done(Db(saved[row.owned := saved[row.owned].(profile := Some(profile))],
              db.events[row.owned := Overwritten(JournalOf(db, row.owned), events)]))
  }

  predicate ParentMatches(db: Db, parent: OwnedId, profile: Option<Profile>) {
    parent in db.sessions && db.sessions[parent].profile == profile
  }

  function ChildUpserted(db: Db, parent: OwnedId, profile: Option<Profile>, row: SessionRow): Outcome<Db, Refusal> {
    if !ParentMatches(db, parent, profile) then Refused(OwnershipMismatch)
    else if row.owned in db.sessions then
      var stored := db.sessions[row.owned];
      if stored.parent != Some(parent) || stored.profile != profile then Refused(OwnershipMismatch) else Done(db)
    else
      var saved := Upserted(db.sessions, row);
      Done(db.(sessions := saved[row.owned := saved[row.owned].(parent := Some(parent), profile := profile)]))
  }

  function ChildBound(db: Db, parent: OwnedId, profile: Profile, child: OwnedId, native: string): Outcome<Db, Refusal> {
    if !ParentMatches(db, parent, Some(profile)) || child !in db.sessions then Refused(OwnershipMismatch)
    else
      var stored := db.sessions[child];
      if && stored.profile == Some(profile)
         && (stored.parent.None? || stored.parent == Some(parent))
         && (stored.native.None? || stored.native == Some(native))
      then Done(db.(sessions := db.sessions[child := stored.(parent := Some(parent), native := Some(native))]))
      else Refused(OwnershipMismatch)
  }

  datatype Filed = Filed(owned: OwnedId, project: Option<string>, lastActivity: int, extra: Extra)

  /** `json_extract(extra, '$.pendingSequence')` is not NULL. */
  predicate HasPendingSequence(e: Extra) {
    e.Parsed? && e.json.Object? && PENDING_SEQUENCE in e.json.members && !e.json.members[PENDING_SEQUENCE].Null?
  }

  function OneFiled(sessions: map<OwnedId, Session>, profile: Profile, r: Filed): Outcome<map<OwnedId, Session>, Refusal> {
    if r.owned !in sessions then
      Done(sessions[r.owned := Session(None, Some(profile), None, r.extra, r.project, r.lastActivity, "")])
    else
      var s := sessions[r.owned];
      if s.profile != Some(profile) then Done(sessions)
      else if s.extra.NotJson? then Refused(BadJson)
      else
        Done(sessions[r.owned := s.(project := Coalesce(s.project, r.project),
          lastActivity := Larger(s.lastActivity, r.lastActivity),
          extra := if HasPendingSequence(s.extra) then s.extra else r.extra)])
  }

  function AllFiled(sessions: map<OwnedId, Session>, profile: Profile, rows: seq<Filed>): Outcome<map<OwnedId, Session>, Refusal>
    decreases |rows|
  {
    if rows == [] then Done(sessions)
    else
      match OneFiled(sessions, profile, rows[0])
      case Refused(why) => Refused(why)
      case Done(next) => AllFiled(next, profile, rows[1..])
  }

  function RemoteFiled(db: Db, profile: Profile, rows: seq<Filed>): Outcome<Db, Refusal> {
    match AllFiled(db.sessions, profile, rows)
    case Refused(why) => Refused(why)
    case Done(sessions) => Done(db.(sessions := sessions))
  }

  // ---------------------------------------------------------------- the import commit

  /** What SQLite makes of a text handed to `json_tree`: JSON, or an error. */
  type Reader = string -> Option<Json>

  /** `json_extract(extra, '$.import')` as the cursor test reads it: a missing or null member is
      SQL NULL, a truth value is a number, and a text is read as JSON once more. A text that is not
      JSON fails the whole read, which refuses the commit like a difference does. */
  function ReadImport(parse: Reader, e: Extra): Option<Json> {
    if !BringsImport(e) then None
    else
      match e.json.members[IMPORT]
      case Null => None
      case Bool(b) => Some(Integer(if b then 1 else 0))
      case Text(text) => parse(text)
      case cursor => Some(cursor)
  }

  /** The rows of `json_tree` over it. */
  function StoredCursorRows(parse: Reader, e: Extra): set<TreeRow> {
    var stored := ReadImport(parse, e);
    if stored.None? then {} else Tree(stored.value)
  }

  predicate CursorMatches(parse: Reader, db: Db, parent: OwnedId, profile: Option<Profile>, child: OwnedId, expected: Json) {
    && ParentMatches(db, parent, profile)
    && child in db.sessions && db.sessions[child].parent == Some(parent) && db.sessions[child].profile == profile
    && NoDifference(StoredCursorRows(parse, db.sessions[child].extra), Tree(expected))
  }

  /** `json_set(extra, '$.import', next)`. */
  function WithCursor(e: Extra, next: Json): Extra {
    if e.Parsed? && e.json.Object? then Parsed(Object(e.json.members[IMPORT := next])) else e
  }

  function NewestCreatedAt(j: Journal, otherwise: int): int {
    if j.Keys == {} then otherwise else j[Max(j.Keys)].createdAt
  }

  function CursorAdvanced(db: Db, child: OwnedId, next: Json): Outcome<Db, Refusal> {
    if child !in db.sessions then Refused(Missing)
    else
      var s := db.sessions[child];
      Done(db.(sessions := db.sessions[child := s.(
        extra := WithCursor(s.extra, next),
        lastActivity := Larger(s.lastActivity, NewestCreatedAt(JournalOf(db, child), s.lastActivity)))]))
  }

  function PageCommitted(parse: Reader, db: Db, parent: OwnedId, profile: Option<Profile>, child: OwnedId,
                         expected: Json, next: Json, events: seq<Event>): Outcome<Db, Refusal> {
    if exists e :: e in events && e.owned != child then Refused(OwnershipMismatch)
    else if !CursorMatches(parse, db, parent, profile, child, expected) then Refused(CursorMismatch)
    else
      match LiveInsertedAll(db, events)
      case Refused(why) => Refused(why)
      case Done(inserted) => CursorAdvanced(inserted, child, next)
  }

  // ---------------------------------------------------------------- deletes and their cascades

  function ChildrenOf(sessions: map<OwnedId, Session>, doomed: set<OwnedId>): set<OwnedId> {
    set id | id in sessions && sessions[id].parent.Some? && sessions[id].parent.value in doomed
  }

  /** `parent_owned_id ... ON DELETE CASCADE`, followed to the end. */
  function Cascade(sessions: map<OwnedId, Session>, doomed: set<OwnedId>): (all: set<OwnedId>)
    requires doomed <= sessions.Keys
    ensures doomed <= all <= sessions.Keys
    ensures ChildrenOf(sessions, all) <= all
    decreases sessions.Keys - doomed
  {
    var more := ChildrenOf(sessions, doomed);
    if more <= doomed then doomed else Cascade(sessions, doomed + more)
  }

  function Without(db: Db, gone: set<OwnedId>): Db {
    Db(db.sessions - gone, db.events - gone)
  }

  function SessionDeleted(db: Db, id: OwnedId): Db {
    Without(db, Cascade(db.sessions, if id in db.sessions then {id} else {}))
  }

  function OfProfile(sessions: map<OwnedId, Session>, profile: Profile): set<OwnedId> {
    set id | id in sessions && sessions[id].profile == Some(profile)
  }

  /** `purge_remote_history`. */
  function RemotePurged(db: Db, profile: Profile): Db {
    Without(db, Cascade(db.sessions, OfProfile(db.sessions, profile)))
  }
}
