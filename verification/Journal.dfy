/**
 The event journal of one session: what each writer of
 core/src/session_store.rs leaves in the `events` table.
 A journal maps a sequence number to its row, so the primary key
 `(owned_id, seq)` is the map's own uniqueness.
 */
module Journal {
  import opened Basics

  datatype Kind =
    | UsageUpdated
    | SessionConfigUpdated
    | CommandsUpdated
    | ItemUpdated
    | ItemCompleted
    | ContentDelta
    | RemoteCached
    | OtherKind(name: string)

  /** Running state: a row of such a kind takes the place of every older one. */
  const SUPERSEDED_BY_NEWER: seq<Kind> := [UsageUpdated, SessionConfigUpdated, CommandsUpdated]

  /** The sparse fields a tool update may or may not bring. */
  datatype Field = Name | Summary | Output | Path | Diff

  type ItemId = string

  datatype Payload =
    | Tool(item: Option<ItemId>, state: Option<string>, facts: map<Field, string>,
           firstSeq: Option<int>, firstTime: Option<int>, unlisted: map<string, string>)
    | Other(item: Option<ItemId>, tag: string, unlisted: map<string, string>)

  /** `sequence` and `timestampMs` of the event around the payload. */
  datatype Stamp = Stamp(sequence: int, timestampMs: int)

  datatype Row = Row(kind: Kind, turn: Option<string>, payload: Payload, createdAt: int,
                     stamp: Option<Stamp>)

  type Journal = map<int, Row>

  // ---------------------------------------------------------------- reading facts

  predicate IsTool(r: Row, i: ItemId) {
    r.payload.Tool? && r.payload.item == Some(i)
  }

  predicate IsUpdate(r: Row, i: ItemId) {
    r.kind == ItemUpdated && r.payload.item == Some(i)
  }

  predicate IsToolUpdate(r: Row, i: ItemId) {
    IsUpdate(r, i) && r.payload.Tool?
  }

  predicate SupersededKind(k: Kind) {
    k in SUPERSEDED_BY_NEWER
  }

  /** A field counts when present; a name counts only when it is not empty. */
  predicate Brings(p: Payload, f: Field) {
    p.Tool? && f in p.facts && (f == Name ==> p.facts[f] != "")
  }

  predicate Carries(j: Journal, i: ItemId, f: Field, s: int) {
    s in j && IsTool(j[s], i) && Brings(j[s].payload, f)
  }

  function Carriers(j: Journal, i: ItemId, f: Field): set<int> {
    set s | s in j && Carries(j, i, f, s)
  }

  function Below(s: set<int>, top: int): set<int> {
    set x | x in s && x <= top
  }

  function Fact(r: Row, f: Field): string
    requires Brings(r.payload, f)
  {
    r.payload.facts[f]
  }

  function FactAt(j: Journal, f: Field, at: set<int>): Option<string>
    requires forall s :: s in at ==> s in j && Brings(j[s].payload, f)
  {
    if at == {} then None else Some(Fact(j[Max(at)], f))
  }

  /** `... ORDER BY e.seq DESC LIMIT 1` over the rows of the item that bring the field. */
  function Latest(j: Journal, i: ItemId, f: Field): Option<string> {
    FactAt(j, f, Carriers(j, i, f))
  }

  /** The same with the extra test `e.seq <= top`. */
  function LatestUpTo(j: Journal, i: ItemId, f: Field, top: int): Option<string> {
    FactAt(j, f, Below(Carriers(j, i, f), top))
  }

  function ToolSeqs(j: Journal, i: ItemId): set<int> {
    set s | s in j && IsTool(j[s], i)
  }

  function ToolUpdateSeqs(j: Journal, i: ItemId): set<int> {
    set s | s in j && IsToolUpdate(j[s], i)
  }

  function UpdateSeqs(j: Journal, i: ItemId): set<int> {
    set s | s in j && IsUpdate(j[s], i)
  }

  function KindSeqs(j: Journal, k: Kind): set<int> {
    set s | s in j && j[s].kind == k
  }

  // ---------------------------------------------------------------- merging one update

  datatype Position = Position(sequence: int, timestampMs: int)

  function StoredFirstSeq(j: Journal, at: set<int>): Option<int>
    requires forall s :: s in at ==> s in j && j[s].payload.Tool?
  {
    var known := set s | s in at && j[s].payload.firstSeq.Some?;
    if known == {} then None else j[Max(known)].payload.firstSeq
  }

  function StoredFirstTime(j: Journal, at: set<int>): Option<int>
    requires forall s :: s in at ==> s in j && j[s].payload.Tool?
  {
    var known := set s | s in at && j[s].payload.firstTime.Some?;
    if known == {} then None else j[Max(known)].payload.firstTime
  }

  /** The stored position when it is complete and no later than the oldest stored row, else
      the oldest stored row, else the incoming row itself. */
  function FirstPosition(j: Journal, asked: set<int>, surviving: set<int>, own: Position): Position
    requires asked <= surviving
    requires forall s :: s in surviving ==> s in j && j[s].payload.Tool?
  {
    var storedSeq := StoredFirstSeq(j, asked);
    var storedTime := StoredFirstTime(j, asked);
    if surviving == {} then own
    else
      var oldest := Min(surviving);
      if storedSeq.Some? && storedTime.Some? && storedSeq.value <= oldest
      then Position(storedSeq.value, storedTime.value)
      else Position(oldest, j[oldest].createdAt)
  }

  function ToolsOf(j: Journal, item: Option<ItemId>): set<int> {
    if item.None? then {} else ToolSeqs(j, item.value)
  }

  /** COALESCE(incoming, latest stored). */
  function LiveFact(j: Journal, p: Payload, f: Field): Option<string> {
    if Brings(p, f) then Some(p.facts[f])
    else if p.item.None? then None
    else Latest(j, p.item.value, f)
  }

  function FactsFrom(fact: Field -> Option<string>): (facts: map<Field, string>)
    ensures forall f :: f in facts <==> f == Name || fact(f).Some?
    ensures forall f :: f in facts ==> facts[f] == if fact(f).Some? then fact(f).value else ""
  {
    map f: Field | f == Name || fact(f).Some? :: if fact(f).Some? then fact(f).value else ""
  }

  function MergedLive(j: Journal, at: int, r: Row): Payload
    requires r.payload.Tool?
  {
    var tools := ToolsOf(j, r.payload.item);
    var first := FirstPosition(j, tools, tools, Position(at, r.createdAt));
    Tool(r.payload.item, r.payload.state, FactsFrom(f => LiveFact(j, r.payload, f)),
         Some(first.sequence), Some(first.timestampMs), map[])
  }

  /** The row as `insert_chronological_event` stores it. */
  function StoredLive(j: Journal, at: int, r: Row): Row {
    if r.kind == ItemUpdated && r.payload.Tool? then
      r.(payload := MergedLive(j, at, r), stamp := Some(Stamp(at, r.createdAt)))
    else r
  }

  // ---------------------------------------------------------------- dropping what a row replaces

  /** The rows `drop_superseded_events` deletes for a row written at `at`. */
  predicate Replaced(j: Journal, at: int, r: Row, s: int)
    requires s in j
  {
    || (SupersededKind(r.kind) && j[s].kind == r.kind && s < at)
    || (&& r.kind == ItemUpdated && r.payload.Tool? && r.payload.item.Some?
        && IsToolUpdate(j[s], r.payload.item.value) && s < at
        && exists first :: first in j && IsUpdate(j[first], r.payload.item.value) && first < s)
  }

  function Dropped(j: Journal, at: int, r: Row): Journal {
    map s | s in j && !Replaced(j, at, r, s) :: j[s]
  }

  /** `insert_chronological_event`; `None` when the primary key is taken. */
  function Live(j: Journal, at: int, r: Row): Option<Journal> {
    if at in j then None else Some(Dropped(j[at := StoredLive(j, at, r)], at, r))
  }

  /** `append_event` on the journal: the row goes in raw and still replaces older rows. */
  function Append(j: Journal, at: int, r: Row): Option<Journal> {
    if at in j then None else Some(Dropped(j[at := r], at, r))
  }

  /** The sequences `ORDER BY seq DESC LIMIT keep` returns. */
  function NewestSeqs(j: Journal, keep: nat): set<int> {
    set s | s in j && |set t | t in j && s < t| < keep
  }

  /** `enforce_event_cap`. */
  function Capped(j: Journal, keep: nat): Journal {
    map s | s in j && s in NewestSeqs(j, keep) :: j[s]
  }

  // ---------------------------------------------------------------- the whole-log upgrade

  predicate IsNewestToolUpdate(j: Journal, s: int) {
    && s in j && j[s].kind == ItemUpdated && j[s].payload.Tool? && j[s].payload.item.Some?
    && forall n :: n in j && IsToolUpdate(j[n], j[s].payload.item.value) ==> n <= s
  }

  function MergedOffline(j: Journal, s: int): Payload
    requires IsNewestToolUpdate(j, s)
  {
    var p := j[s].payload;
    var tools := ToolSeqs(j, p.item.value);
    var first := FirstPosition(j, Below(tools, s), tools, Position(s, j[s].createdAt));
    Tool(p.item, p.state, FactsFrom(f => LatestUpTo(j, p.item.value, f, s)),
         Some(first.sequence), Some(first.timestampMs), map[])
  }

  /** The `NORMALIZE_TOOL_EVENTS` update. */
  function Normalized(j: Journal): Journal {
    map s | s in j :: if IsNewestToolUpdate(j, s) then j[s].(payload := MergedOffline(j, s)) else j[s]
  }

  /** A row `clear_superseded_events` deletes. */
  predicate Obsolete(j: Journal, s: int)
    requires s in j
  {
    || (SupersededKind(j[s].kind) && exists n :: n in j && j[n].kind == j[s].kind && s < n)
    || (&& j[s].kind == ItemUpdated && j[s].payload.Tool? && j[s].payload.item.Some?
        && (exists n :: n in j && IsToolUpdate(j[n], j[s].payload.item.value) && s < n)
        && (exists first :: first in j && IsUpdate(j[first], j[s].payload.item.value) && first < s))
  }

  function Cleared(j: Journal): Journal {
    map s | s in j && !Obsolete(j, s) :: j[s]
  }

  function Upgraded(j: Journal): Journal {
    Cleared(Normalized(j))
  }
}
