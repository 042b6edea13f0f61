/**
 The transcript importer's compare-and-swap: page commits racing with stale retries, session
 saves that rebuild `extra` and bring events of their own, appends, caps, cached pages and
 repeated child creation.
 */
module Import {
  import opened Basics
  import opened Journal
  import opened Json
  import opened Sessions
  import opened Ownership

  datatype Commit = Commit(expected: Json, next: Json, page: seq<Event>)

  /** The import cursor as the next commit will compare it. */
  function Cursor(parse: Reader, db: Db, child: OwnedId): Option<Json> {
    if child in db.sessions then ReadImport(parse, db.sessions[child].extra) else None
  }

  /** The two-way EXCEPT accepts exactly the value that is read back, member order aside: the
      stored value itself, or what a stored text parses to. */
  lemma MatchIsEquality(parse: Reader, db: Db, parent: OwnedId, profile: Option<Profile>, child: OwnedId, expected: Json)
    ensures CursorMatches(parse, db, parent, profile, child, expected) <==>
      && ParentMatches(db, parent, profile)
      && child in db.sessions && db.sessions[child].parent == Some(parent) && db.sessions[child].profile == profile
      && Cursor(parse, db, child) == Some(expected)
  {
    if child in db.sessions {
      var stored := ReadImport(parse, db.sessions[child].extra);
      if stored.Some? {
        NoDifferenceIsEquality(stored.value, expected);
      } else {
        OnlyRootMissing(expected);
      }
    }
  }

  lemma OnlyRootMissing(expected: Json)
    ensures !NoDifference({}, Tree(expected))
  {
    Root(expected, NodeOf(expected));
    assert TreeRow([], NodeOf(expected)) in Tree(expected) - {};
  }

  // ---------------------------------------------------------------- runs

  /** A save of the row with this `extra` leaves the cursor as it is. */
  predicate KeepsCursor(parse: Reader, db: Db, child: OwnedId, extra: Extra) {
    && extra.Parsed? && extra.json.Object?
    && (BringsImport(extra) ==> ReadImport(parse, extra) == Cursor(parse, db, child))
  }

  /** Filing leaves the child's row alone, or at least its `extra`. */
  predicate FilingSparesCursor(db: Db, profile: Profile, filed: seq<Filed>, child: OwnedId) {
    || (forall r :: r in filed ==> r.owned != child)
    || (child in db.sessions
        && (db.sessions[child].profile != Some(profile) || HasPendingSequence(db.sessions[child].extra)))
  }

  /** The writes the protocol must survive: every write there is, as long as the child row lives,
      nobody else writes over its cursor, and its importer's cursors are objects that advance. */
  predicate Allowed(parse: Reader, db: Db, step: Step, child: OwnedId, rank: Json -> int) {
    match step
    case Save(row, _) => row.owned == child ==> KeepsCursor(parse, db, child, row.extra)
    case CacheRemote(_, row, _) => row.owned == child ==> KeepsCursor(parse, db, child, row.extra)
    case CommitPage(_, _, into, expected, next, _) =>
      into == child ==> next.Object? && rank(expected) < rank(next)
    case FileRemote(profile, filed) => FilingSparesCursor(db, profile, filed, child)
    case Purge(_) => child in Next(parse, db, step).sessions
    case Delete(_) => child in Next(parse, db, step).sessions
    case _ => true
  }

  function Played(parse: Reader, db: Db, steps: seq<Step>): Db {
    if steps == [] then db else Next(parse, Played(parse, db, steps[..|steps| - 1]), steps[|steps| - 1])
  }

  predicate AllAllowed(parse: Reader, db: Db, steps: seq<Step>, child: OwnedId, rank: Json -> int) {
    steps == [] || (&& AllAllowed(parse, db, steps[..|steps| - 1], child, rank)
                    && Allowed(parse, Played(parse, db, steps[..|steps| - 1]), steps[|steps| - 1], child, rank))
  }

  predicate IsAccepted(parse: Reader, db: Db, step: Step, child: OwnedId) {
    step.CommitPage? && step.into == child && Attempt(parse, db, step).Done?
  }

  function CommitOf(step: Step): Commit
    requires step.CommitPage?
  {
    Commit(step.expected, step.next, step.page)
  }

  /** The commits into the child that were accepted, in order. */
  function Accepted(parse: Reader, db: Db, steps: seq<Step>, child: OwnedId): seq<Commit> {
    if steps == [] then []
    else
      var before, step := steps[..|steps| - 1], steps[|steps| - 1];
      Accepted(parse, db, before, child)
      + (if IsAccepted(parse, Played(parse, db, before), step, child) then [CommitOf(step)] else [])
  }

  function PagesOf(commits: seq<Commit>): seq<seq<Event>> {
    seq(|commits|, k requires 0 <= k < |commits| => commits[k].page)
  }

  // ---------------------------------------------------------------- the cursor

  lemma {:induction false} FilingKeepsExtra(sessions: map<OwnedId, Session>, profile: Profile, rows: seq<Filed>, child: OwnedId)
    requires child in sessions
    requires || (forall r :: r in rows ==> r.owned != child)
             || sessions[child].profile != Some(profile) || HasPendingSequence(sessions[child].extra)
    ensures var r := AllFiled(sessions, profile, rows);
      r.Done? ==> child in r.value && r.value[child].extra == sessions[child].extra
    decreases |rows|
  {
    if rows != [] && OneFiled(sessions, profile, rows[0]).Done? {
      assert rows[0] in rows && forall r :: r in rows[1..] ==> r in rows;
      FilingKeepsExtra(OneFiled(sessions, profile, rows[0]).value, profile, rows[1..], child);
    }
  }

  /** Whatever is not an accepted commit leaves the child's cursor alone. */
  lemma OtherStepsKeepTheCursor(parse: Reader, db: Db, step: Step, child: OwnedId, rank: Json -> int)
    requires Cursor(parse, db, child).Some? && Allowed(parse, db, step, child, rank) && !IsAccepted(parse, db, step, child)
    ensures Cursor(parse, Next(parse, db, step), child) == Cursor(parse, db, child)
  {
    match step {
      case CommitPage(_, _, into, _, _, page) =>
        if into != child && Attempt(parse, db, step).Done? {
          InsertsKeepSessions(db, page);
        }
      case FileRemote(profile, filed) => FilingKeepsExtra(db.sessions, profile, filed, child);
      case _ =>
    }
  }

  function LiveAll(j: Journal, page: seq<Event>): Option<Journal>
    decreases |page|
  {
    if page == [] then Some(j)
    else
      match Live(j, page[0].at, page[0].row)
      case None => None
      case Some(next) => LiveAll(next, page[1..])
  }

  lemma {:induction false} LiveAllAppends(j: Journal, a: seq<Event>, b: seq<Event>)
    ensures LiveAll(j, a + b) == if LiveAll(j, a).Some? then LiveAll(LiveAll(j, a).value, b) else None
    decreases |a|
  {
    if a == [] {
      assert a + b == b;
    } else {
      assert (a + b)[0] == a[0] && (a + b)[1..] == a[1..] + b;
      match Live(j, a[0].at, a[0].row) {
        case None =>
        case Some(next) => LiveAllAppends(next, a[1..], b);
      }
    }
  }

  lemma {:induction false} InsertsAreLive(db: Db, events: seq<Event>, child: OwnedId)
    requires child in db.sessions && forall e :: e in events ==> e.owned == child
    ensures var r := LiveInsertedAll(db, events);
      && (r.Done? <==> LiveAll(JournalOf(db, child), events).Some?)
      && (r.Done? ==> && r.value.sessions == db.sessions
                      && JournalOf(r.value, child) == LiveAll(JournalOf(db, child), events).value)
    decreases |events|
  {
    if events != [] {
      assert events[0] in events;
      match LiveInserted(db, events[0]) {
        case Refused(_) =>
        case Done(next) =>
          assert forall e :: e in events[1..] ==> e in events;
          InsertsAreLive(next, events[1..], child);
      }
    }
  }

  lemma {:induction false} InsertsElsewhere(db: Db, events: seq<Event>, child: OwnedId)
    requires forall e :: e in events ==> e.owned != child
    ensures LiveInsertedAll(db, events).Done? ==>
      LiveInsertedAll(db, events).value.sessions == db.sessions
        && JournalOf(LiveInsertedAll(db, events).value, child) == JournalOf(db, child)
    decreases |events|
  {
    if events != [] && LiveInserted(db, events[0]).Done? {
      assert events[0] in events && forall e :: e in events[1..] ==> e in events;
      InsertsElsewhere(LiveInserted(db, events[0]).value, events[1..], child);
    }
  }

  /** An accepted commit found the cursor it expected, and left its own. */
  lemma AcceptedStep(parse: Reader, db: Db, step: Step, child: OwnedId)
    requires IsAccepted(parse, db, step, child) && step.next.Object?
    ensures Cursor(parse, db, child) == Some(step.expected)
    ensures Cursor(parse, Next(parse, db, step), child) == Some(step.next)
  {
    MatchIsEquality(parse, db, step.parent, step.source, child, step.expected);
    InsertsKeepSessions(db, step.page);
  }

  /** Each accepted commit expected what the one before it left behind. */
  ghost predicate Chained(commits: seq<Commit>, start: Json) {
    forall k :: 0 <= k < |commits| ==> commits[k].expected == LastCursor(commits[..k], start)
  }

  function LastCursor(commits: seq<Commit>, start: Json): Json {
    if |commits| == 0 then start else commits[|commits| - 1].next
  }

  ghost predicate Advancing(commits: seq<Commit>, rank: Json -> int) {
    forall k :: 0 <= k < |commits| ==> rank(commits[k].expected) < rank(commits[k].next)
  }

  lemma ChainGrows(done: seq<Commit>, c: Commit, start: Json, rank: Json -> int)
    requires Chained(done, start) && Advancing(done, rank)
    requires c.expected == LastCursor(done, start) && rank(c.expected) < rank(c.next)
    ensures Chained(done + [c], start) && Advancing(done + [c], rank)
    ensures LastCursor(done + [c], start) == c.next
  {
    var more := done + [c];
    forall k | 0 <= k < |more|
      ensures more[k].expected == LastCursor(more[..k], start)
    {
      assert more[..k] == done[..k];
      assert done[..|done|] == done;
      assert k < |done| ==> more[k] == done[k];
    }
  }

  /** Under every interleaving the accepted commits form one chain of cursors. */
  lemma {:induction false} CommitsFormOneChain(parse: Reader, db: Db, steps: seq<Step>, child: OwnedId, rank: Json -> int, start: Json)
    requires Cursor(parse, db, child) == Some(start) && AllAllowed(parse, db, steps, child, rank)
    ensures var done := Accepted(parse, db, steps, child);
      && Chained(done, start) && Advancing(done, rank)
      && Cursor(parse, Played(parse, db, steps), child) == Some(LastCursor(done, start))
  {
    if steps != [] {
      var before, step := steps[..|steps| - 1], steps[|steps| - 1];
      CommitsFormOneChain(parse, db, before, child, rank, start);
      var at := Played(parse, db, before);
      var done := Accepted(parse, db, before, child);
      if IsAccepted(parse, at, step, child) {
        AcceptedStep(parse, at, step, child);
        ChainGrows(done, CommitOf(step), start, rank);
      } else {
        OtherStepsKeepTheCursor(parse, at, step, child, rank);
        assert Accepted(parse, db, steps, child) == done;
      }
    }
  }

  lemma {:induction false} RanksClimb(commits: seq<Commit>, start: Json, rank: Json -> int, a: nat, b: nat)
    requires Chained(commits, start) && a <= b < |commits|
    requires Advancing(commits, rank)
    ensures rank(commits[a].expected) <= rank(commits[b].expected)
    ensures a < b ==> rank(commits[a].expected) < rank(commits[b].expected)
    decreases b
  {
    if a < b {
      assert commits[b].expected == LastCursor(commits[..b], start) == commits[b - 1].next;
      RanksClimb(commits, start, rank, a, b - 1);
    }
  }

  /** No two accepted commits expected the same cursor, so no page is applied twice. */
  lemma EachCursorSpentOnce(parse: Reader, db: Db, steps: seq<Step>, child: OwnedId, rank: Json -> int, start: Json)
    requires Cursor(parse, db, child) == Some(start) && AllAllowed(parse, db, steps, child, rank)
    ensures var done := Accepted(parse, db, steps, child);
      forall a, b :: 0 <= a < b < |done| ==> done[a].expected != done[b].expected
  {
    CommitsFormOneChain(parse, db, steps, child, rank, start);
    var done := Accepted(parse, db, steps, child);
    forall a, b | 0 <= a < b < |done|
      ensures done[a].expected != done[b].expected
    {
      RanksClimb(done, start, rank, a, b);
    }
  }

  lemma SpentCursorIsPast(done: seq<Commit>, start: Json, rank: Json -> int, k: nat)
    requires Chained(done, start) && Advancing(done, rank) && k < |done|
    ensures LastCursor(done, start) != done[k].expected
  {
    RanksClimb(done, start, rank, k, |done| - 1);
  }

  lemma WrongCursorRefused(parse: Reader, db: Db, retry: Step, child: OwnedId)
    requires retry.CommitPage? && retry.into == child
    requires Cursor(parse, db, child) != Some(retry.expected)
    ensures Attempt(parse, db, retry).Refused? && Next(parse, db, retry) == db
  {
    MatchIsEquality(parse, db, retry.parent, retry.source, child, retry.expected);
  }

  /** A retry of a commit that was accepted before is refused and changes nothing. */
  lemma StaleRetryRefused(parse: Reader, db: Db, steps: seq<Step>, child: OwnedId, rank: Json -> int, start: Json,
                          retry: Step, k: nat)
    requires Cursor(parse, db, child) == Some(start) && AllAllowed(parse, db, steps, child, rank)
    requires retry.CommitPage? && retry.into == child
    requires k < |Accepted(parse, db, steps, child)| && Accepted(parse, db, steps, child)[k].expected == retry.expected
    ensures Attempt(parse, Played(parse, db, steps), retry).Refused?
    ensures Next(parse, Played(parse, db, steps), retry) == Played(parse, db, steps)
  {
    CommitsFormOneChain(parse, db, steps, child, rank, start);
    SpentCursorIsPast(Accepted(parse, db, steps, child), start, rank, k);
    WrongCursorRefused(parse, Played(parse, db, steps), retry, child);
  }

  // ---------------------------------------------------------------- the journal

  /** An accepted write to the child's journal. */
  datatype ChildWrite =
    | Imported(page: seq<Event>)
    | Saved(event: Event)
    | Appended(event: Event)
    | CappedTo(keep: nat)
    | Cached(page: seq<Event>)

  function WritesOfStep(parse: Reader, db: Db, step: Step, child: OwnedId): seq<ChildWrite> {
    if Attempt(parse, db, step).Refused? then []
    else
      match step
      case CommitPage(_, _, into, _, _, page) => if into == child then [Imported(page)] else []
      case Save(_, event) => if event.Some? && event.value.owned == child then [Saved(event.value)] else []
      case AppendOne(e) => if e.owned == child then [Appended(e)] else []
      case EnforceCap(owned, keep) => if owned == child then [CappedTo(keep)] else []
      case CacheRemote(_, row, page) => if row.owned == child then [Cached(page)] else []
      case _ => []
  }

  /** The accepted writes to the child's journal, in order. */
  function WritesTo(parse: Reader, db: Db, steps: seq<Step>, child: OwnedId): seq<ChildWrite> {
    if steps == [] then []
    else
      WritesTo(parse, db, steps[..|steps| - 1], child)
      + WritesOfStep(parse, Played(parse, db, steps[..|steps| - 1]), steps[|steps| - 1], child)
  }

  function Put(j: Journal, w: ChildWrite): Option<Journal> {
    match w
    case Imported(page) => LiveAll(j, page)
    case Saved(e) => Live(j, e.at, e.row)
    case Appended(e) => Append(j, e.at, e.row)
    case CappedTo(keep) => Some(Capped(j, keep))
    case Cached(page) => Some(Overwritten(j, page))
  }

  function PutAll(j: Journal, writes: seq<ChildWrite>): Option<Journal> {
    if writes == [] then Some(j)
    else
      match PutAll(j, writes[..|writes| - 1])
      case None => None
      case Some(next) => Put(next, writes[|writes| - 1])
  }

  function ImportedPages(writes: seq<ChildWrite>): seq<seq<Event>> {
    if writes == [] then []
    else
      var last := writes[|writes| - 1];
      ImportedPages(writes[..|writes| - 1]) + (if last.Imported? then [last.page] else [])
  }

  lemma PutOne(j: Journal, writes: seq<ChildWrite>, more: seq<ChildWrite>)
    requires |more| <= 1 && PutAll(j, writes).Some?
    ensures PutAll(j, writes + more) == if more == [] then PutAll(j, writes) else Put(PutAll(j, writes).value, more[0])
    ensures ImportedPages(writes + more)
         == ImportedPages(writes) + (if more != [] && more[0].Imported? then [more[0].page] else [])
  {
    if more == [] {
      assert writes + more == writes;
    } else {
      assert (writes + more)[..|writes|] == writes;
    }
  }

  /** One step changes the child's journal by its accepted write, if it has one. */
  lemma StepWritesJournal(parse: Reader, db: Db, step: Step, child: OwnedId)
    requires child in db.sessions && child in Next(parse, db, step).sessions
    ensures var writes := WritesOfStep(parse, db, step, child);
      var j := JournalOf(db, child);
      |writes| <= 1
        && Some(JournalOf(Next(parse, db, step), child)) == if writes == [] then Some(j) else Put(j, writes[0])
  {
    match step {
      case CommitPage(_, _, into, _, _, page) =>
        if Attempt(parse, db, step).Done? {
          CommitWritesJournal(parse, db, step, child);
        }
      case _ =>
    }
  }

  lemma CommitWritesJournal(parse: Reader, db: Db, step: Step, child: OwnedId)
    requires child in db.sessions && step.CommitPage? && Attempt(parse, db, step).Done?
    ensures Some(JournalOf(Next(parse, db, step), child))
         == if step.into == child then LiveAll(JournalOf(db, child), step.page) else Some(JournalOf(db, child))
  {
    if step.into == child {
      InsertsAreLive(db, step.page, child);
    } else {
      InsertsElsewhere(db, step.page, child);
    }
  }

  /** What a run has written so far to the child's journal. */
  ghost predicate IsWritten(parse: Reader, db: Db, steps: seq<Step>, child: OwnedId) {
    var writes := WritesTo(parse, db, steps, child);
    && PutAll(JournalOf(db, child), writes) == Some(JournalOf(Played(parse, db, steps), child))
    && ImportedPages(writes) == PagesOf(Accepted(parse, db, steps, child))
  }

  lemma OneMoreStep(parse: Reader, db: Db, before: seq<Step>, step: Step, child: OwnedId)
    ensures var at, steps := Played(parse, db, before), before + [step];
      && Played(parse, db, steps) == Next(parse, at, step)
      && WritesTo(parse, db, steps, child) == WritesTo(parse, db, before, child) + WritesOfStep(parse, at, step, child)
      && PagesOf(Accepted(parse, db, steps, child))
         == PagesOf(Accepted(parse, db, before, child)) + (if IsAccepted(parse, at, step, child) then [step.page] else [])
  {
    assert (before + [step])[..|before|] == before;
  }

  lemma StepIsWritten(parse: Reader, db: Db, before: seq<Step>, step: Step, child: OwnedId)
    requires IsWritten(parse, db, before, child)
    requires child in Played(parse, db, before).sessions && child in Next(parse, Played(parse, db, before), step).sessions
    ensures IsWritten(parse, db, before + [step], child)
  {
    var at := Played(parse, db, before);
    OneMoreStep(parse, db, before, step, child);
    StepWritesJournal(parse, at, step, child);
    PageOfStep(parse, at, step, child);
    PutOne(JournalOf(db, child), WritesTo(parse, db, before, child), WritesOfStep(parse, at, step, child));
  }

  lemma ChildLives(parse: Reader, db: Db, steps: seq<Step>, child: OwnedId, rank: Json -> int, start: Json)
    requires Cursor(parse, db, child) == Some(start) && AllAllowed(parse, db, steps, child, rank)
    ensures child in Played(parse, db, steps).sessions
    ensures steps != [] ==> AllAllowed(parse, db, steps[..|steps| - 1], child, rank)
  {
    CommitsFormOneChain(parse, db, steps, child, rank, start);
  }

  lemma {:induction false} RunIsWritten(parse: Reader, db: Db, steps: seq<Step>, child: OwnedId, rank: Json -> int, start: Json)
    requires Cursor(parse, db, child) == Some(start) && AllAllowed(parse, db, steps, child, rank)
    ensures IsWritten(parse, db, steps, child)
  {
    if steps != [] {
      var before, step := steps[..|steps| - 1], steps[|steps| - 1];
      ChildLives(parse, db, steps, child, rank, start);
      ChildLives(parse, db, before, child, rank, start);
      RunIsWritten(parse, db, before, child, rank, start);
      assert steps == before + [step];
      StepIsWritten(parse, db, before, step, child);
    }
  }

  /** Under every interleaving the child's journal is its accepted writes in order, and the pages
      among them are those of the accepted commits, each once. */
  lemma JournalIsTheWrites(parse: Reader, db: Db, steps: seq<Step>, child: OwnedId, rank: Json -> int, start: Json)
    requires Cursor(parse, db, child) == Some(start) && AllAllowed(parse, db, steps, child, rank)
    ensures var writes := WritesTo(parse, db, steps, child);
      && PutAll(JournalOf(db, child), writes) == Some(JournalOf(Played(parse, db, steps), child))
      && ImportedPages(writes) == PagesOf(Accepted(parse, db, steps, child))
  {
    RunIsWritten(parse, db, steps, child, rank, start);
  }

  lemma PageOfStep(parse: Reader, db: Db, step: Step, child: OwnedId)
    ensures var writes := WritesOfStep(parse, db, step, child);
      IsAccepted(parse, db, step, child) <==> (writes != [] && writes[0].Imported?)
    ensures IsAccepted(parse, db, step, child) ==> WritesOfStep(parse, db, step, child)[0].page == step.page
  {
  }

  // ---------------------------------------------------------------- saving and filing the row itself

  /** A save rebuilds `extra`: the stored cursor survives exactly when the new value is an object
      that brings no import member or the same cursor. */
  lemma SavingKeepsTheCursorExactly(parse: Reader, db: Db, row: SessionRow, event: Option<Event>)
    requires Cursor(parse, db, row.owned).Some? && SessionSaved(db, row, event).Done?
    ensures Cursor(parse, SessionSaved(db, row, event).value, row.owned) == Cursor(parse, db, row.owned)
       <==> KeepsCursor(parse, db, row.owned, row.extra)
  {
  }

  /** `file_remote_sessions` replaces `extra` whole: of a row it may write, the cursor is kept
      exactly when a sequence is pending or the filed value holds the same cursor. */
  lemma FilingKeepsTheCursorExactly(parse: Reader, db: Db, profile: Profile, r: Filed)
    requires Cursor(parse, db, r.owned).Some? && db.sessions[r.owned].profile == Some(profile)
    ensures RemoteFiled(db, profile, [r]).Done?
    ensures Cursor(parse, RemoteFiled(db, profile, [r]).value, r.owned) == Cursor(parse, db, r.owned)
       <==> (HasPendingSequence(db.sessions[r.owned].extra) || ReadImport(parse, r.extra) == Cursor(parse, db, r.owned))
  {
    assert [r][1..] == [];
    assert AllFiled(db.sessions, profile, [r])
        == (match OneFiled(db.sessions, profile, r) case Refused(why) => Refused(why) case Done(next) => AllFiled(next, profile, []));
  }
}
