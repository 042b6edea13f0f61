/**
 What pruning keeps: every run of writes is compared with a log that is never pruned.
 */
module JournalRuns {
  import opened Basics
  import opened Journal

  datatype Write =
    | LiveWrite(at: int, row: Row)      // insert_chronological_event
    | RawWrite(at: int, row: Row)       // append_event

  /** The journal as stored, and every row ever written to it. */
  datatype Pair = Pair(stored: Journal, log: Journal)

  /** Rows that decide where an item's tool updates begin and end. */
  predicate Concerns(r: Row, i: ItemId) {
    r.payload.item == Some(i) && (r.kind == ItemUpdated || r.payload.Tool?)
  }

  predicate NewerThanItem(j: Journal, s: int, i: ItemId) {
    forall t :: t in j && Concerns(j[t], i) ==> t < s
  }

  predicate OlderThanItem(j: Journal, s: int, i: ItemId) {
    forall t :: t in j && Concerns(j[t], i) ==> s < t
  }

  /** Running-state rows are not tool rows. */
  predicate WellKinded(r: Row) {
    SupersededKind(r.kind) ==> !r.payload.Tool?
  }

  /** Sequences are not reused, and a tool row is either newer than everything stored for its
      item, or a historical row older than everything stored for it. A tool update that is
      newer goes through the merging insert. */
  predicate Admissible(p: Pair, w: Write) {
    && w.at !in p.log
    && WellKinded(w.row)
    && (w.row.payload.Tool? && w.row.payload.item.Some? ==>
          var i := w.row.payload.item.value;
          || (NewerThanItem(p.stored, w.at, i) && (w.row.kind == ItemUpdated ==> w.LiveWrite?))
          || (OlderThanItem(p.stored, w.at, i) && (w.row.kind == ItemUpdated ==> w.RawWrite?)))
  }

  function Written(j: Journal, w: Write): Option<Journal> {
    match w
    case LiveWrite(at, row) => Live(j, at, row)
    case RawWrite(at, row) => Append(j, at, row)
  }

  function After(p: Pair, w: Write): Pair
    requires Admissible(p, w) && w.at !in p.stored
  {
    Pair(Written(p.stored, w).value, p.log[w.at := w.row])
  }

  /** The outcome of a run from the empty journal; `None` once a write is not admissible. */
  function Play(writes: seq<Write>): Option<Pair> {
    if writes == [] then Some(Pair(map[], map[]))
    else
      var before := Play(writes[..|writes| - 1]);
      var w := writes[|writes| - 1];
      if before.None? || !Admissible(before.value, w) || w.at in before.value.stored then None
      else Some(After(before.value, w))
  }

  // ---------------------------------------------------------------- the invariant

  predicate IsNewestUpdate(j: Journal, i: ItemId, n: int) {
    n in j && IsToolUpdate(j[n], i) && forall u :: u in j && IsToolUpdate(j[u], i) ==> u <= n
  }

  predicate PastUpdates(j: Journal, i: ItemId, s: int) {
    forall u :: u in j && IsToolUpdate(j[u], i) ==> u < s
  }

  /** Nothing at or below `n` that brings the field was lost or changed. */
  ghost predicate NothingLost(p: Pair, i: ItemId, f: Field, n: int) {
    && (forall s :: s <= n ==> (Carries(p.stored, i, f, s) <==> Carries(p.log, i, f, s)))
    && (forall s :: s <= n && Carries(p.stored, i, f, s) && Carries(p.log, i, f, s) ==>
          Fact(p.stored[s], f) == Fact(p.log[s], f))
  }

  ghost predicate UpdateKept(p: Pair, i: ItemId, f: Field, n: int)
    requires n in p.stored
  {
    if Brings(p.stored[n].payload, f) then LatestUpTo(p.log, i, f, n) == Some(Fact(p.stored[n], f))
    else NothingLost(p, i, f, n)
  }

  /** Past the item's newest update the journal is the log; at or below it, either the newest
      update holds the log's latest value, or nothing that brings the field was lost. */
  ghost predicate ItemKept(p: Pair, i: ItemId, f: Field) {
    && (forall s :: s in p.log && IsTool(p.log[s], i) && PastUpdates(p.stored, i, s) ==>
          s in p.stored && p.stored[s] == p.log[s])
    && (forall n :: IsNewestUpdate(p.stored, i, n) ==> UpdateKept(p, i, f, n))
  }

  /** Stored rows are the log's rows; a tool update may have had its payload completed. */
  predicate RowKept(a: Row, b: Row) {
    && a.kind == b.kind && a.turn == b.turn && a.createdAt == b.createdAt
    && a.payload.item == b.payload.item && (a.payload.Tool? <==> b.payload.Tool?)
    && ((a.kind == ItemUpdated && a.payload.Tool?) || a == b)
  }

  /** Why a row of the log may be missing. */
  ghost predicate Excused(p: Pair, s: int)
    requires s in p.log
  {
    var r := p.log[s];
    || (SupersededKind(r.kind) && exists n :: n in p.stored && s < n && p.stored[n].kind == r.kind)
    || (&& r.kind == ItemUpdated && r.payload.Tool? && r.payload.item.Some?
        && (exists n :: n in p.stored && s < n && IsToolUpdate(p.stored[n], r.payload.item.value))
        && (exists m :: m in p.stored && m < s && IsUpdate(p.stored[m], r.payload.item.value)))
  }

  ghost predicate RowsKept(p: Pair) {
    && (forall s :: s in p.stored ==> s in p.log && RowKept(p.stored[s], p.log[s]))
    && (forall s :: s in p.log && s !in p.stored ==> Excused(p, s))
    && (forall s :: s in p.log ==> WellKinded(p.log[s]))
  }

  ghost predicate Kept(p: Pair) {
    && RowsKept(p)
    && forall i, f :: ItemKept(p, i, f)
  }

  // ---------------------------------------------------------------- reading a field

  lemma LatestIs(j: Journal, i: ItemId, f: Field, top: int, c: int)
    requires c <= top && Carries(j, i, f, c)
    requires forall s :: c < s <= top ==> !Carries(j, i, f, s)
    ensures LatestUpTo(j, i, f, top) == Some(Fact(j[c], f))
  {
    assert c in Below(Carriers(j, i, f), top);
    assert forall s :: s in Below(Carriers(j, i, f), top) ==> Carries(j, i, f, s);
  }

  /** Two journals that carry the field in the same rows up to a sequence answer alike. */
  lemma LatestAgrees(a: Journal, b: Journal, i: ItemId, f: Field, top: int)
    requires forall s :: s <= top ==> (Carries(a, i, f, s) <==> Carries(b, i, f, s))
    requires forall s :: s <= top && Carries(a, i, f, s) && Carries(b, i, f, s) ==> Fact(a[s], f) == Fact(b[s], f)
    ensures LatestUpTo(a, i, f, top) == LatestUpTo(b, i, f, top)
  {
    forall s
      ensures s in Below(Carriers(a, i, f), top) <==> s in Below(Carriers(b, i, f), top)
    {
      assert s <= top ==> (Carries(a, i, f, s) <==> Carries(b, i, f, s));
    }
    assert Below(Carriers(a, i, f), top) == Below(Carriers(b, i, f), top);
  }

  lemma LatestBounded(j: Journal, i: ItemId, f: Field, top: int)
    requires forall s :: s in j && IsTool(j[s], i) ==> s <= top
    ensures Latest(j, i, f) == LatestUpTo(j, i, f, top)
  {
    assert Below(Carriers(j, i, f), top) == Carriers(j, i, f);
  }

  // ---------------------------------------------------------------- rows survive

  lemma OldestUpdateStays(j: Journal, at: int, r: Row, i: ItemId, m: int)
    requires m in j && IsUpdate(j[m], i)
    ensures exists k :: k in Dropped(j, at, r) && k <= m && IsUpdate(Dropped(j, at, r)[k], i)
  {
    var all := UpdateSeqs(j, i);
    assert m in all;
    var k := Min(all);
    assert !Replaced(j, at, r, k) by {
      assert forall first :: first in j && IsUpdate(j[first], i) ==> first in all;
    }
    assert k in Dropped(j, at, r);
  }

  lemma ReplacedIsExcused(p: Pair, w: Write, s: int)
    requires RowsKept(p) && Admissible(p, w) && w.at !in p.stored
    requires s in p.stored && s !in After(p, w).stored
    ensures s in After(p, w).log && Excused(After(p, w), s)
  {
    var at, r, q := w.at, w.row, After(p, w);
    var put := if w.LiveWrite? then StoredLive(p.stored, at, r) else r;
    var j1 := p.stored[at := put];
    assert q.stored == Dropped(j1, at, r);
    assert at in q.stored && RowKept(p.stored[s], p.log[s]);
    assert Replaced(j1, at, r, s);
    if SupersededKind(r.kind) && j1[s].kind == r.kind && s < at {
      assert q.stored[at].kind == p.log[s].kind;
    } else {
      var i := r.payload.item.value;
      var first :| first in j1 && IsUpdate(j1[first], i) && first < s;
      OldestUpdateStays(j1, at, r, i, first);
      assert IsToolUpdate(q.stored[at], i);
    }
  }

  lemma StillExcused(p: Pair, w: Write, s: int)
    requires RowsKept(p) && Admissible(p, w) && w.at !in p.stored
    requires s in p.log && s !in p.stored
    ensures Excused(After(p, w), s)
  {
    var at, r, q, l := w.at, w.row, After(p, w), p.log[s];
    var put := if w.LiveWrite? then StoredLive(p.stored, at, r) else r;
    var j1 := p.stored[at := put];
    assert q.stored == Dropped(j1, at, r);
    assert at in q.stored && Excused(p, s);
    if SupersededKind(l.kind) {
      var n :| n in p.stored && s < n && p.stored[n].kind == l.kind;
      if n !in q.stored {
        assert Replaced(j1, at, r, n);
        assert q.stored[at].kind == l.kind && s < at;
      }
    } else {
      var i := l.payload.item.value;
      var n :| n in p.stored && s < n && IsToolUpdate(p.stored[n], i);
      var m :| m in p.stored && m < s && IsUpdate(p.stored[m], i);
      OldestUpdateStays(j1, at, r, i, m);
      if n !in q.stored {
        assert Replaced(j1, at, r, n);
        assert IsToolUpdate(q.stored[at], i) && s < at;
      }
    }
  }

  lemma StepKeepsRows(p: Pair, w: Write)
    requires RowsKept(p) && Admissible(p, w) && w.at !in p.stored
    ensures RowsKept(After(p, w))
  {
    var q := After(p, w);
    assert w.at in q.stored;
    forall s | s in q.log && s !in q.stored
      ensures Excused(q, s)
    {
      if s in p.stored {
        ReplacedIsExcused(p, w, s);
      } else {
        StillExcused(p, w, s);
      }
    }
  }

  /** A sequence newer than every stored row of the item is newer than every row ever written. */
  lemma NewerThanLog(p: Pair, at: int, i: ItemId)
    requires RowsKept(p) && NewerThanItem(p.stored, at, i)
    ensures forall s :: s in p.log && IsTool(p.log[s], i) ==> s < at
  {
    forall s | s in p.log && IsTool(p.log[s], i) && s !in p.stored
      ensures s < at
    {
      assert Excused(p, s);
    }
  }

  lemma OlderThanLog(p: Pair, at: int, i: ItemId)
    requires RowsKept(p) && OlderThanItem(p.stored, at, i)
    ensures forall s :: s in p.log && IsTool(p.log[s], i) ==> at < s
  {
    forall s | s in p.log && IsTool(p.log[s], i) && s !in p.stored
      ensures at < s
    {
      assert Excused(p, s);
    }
  }

  // ---------------------------------------------------------------- fields survive

  /** The item's tool rows are the same in both journals. */
  ghost predicate SameTools(a: Journal, b: Journal, i: ItemId) {
    && (forall s :: s in a && IsTool(a[s], i) ==> s in b && b[s] == a[s])
    && (forall s :: s in b && IsTool(b[s], i) ==> s in a && a[s] == b[s])
  }

  lemma SameToolsCarry(a: Journal, b: Journal, i: ItemId, f: Field)
    requires SameTools(a, b, i)
    ensures forall s :: Carries(a, i, f, s) <==> Carries(b, i, f, s)
    ensures forall s :: Carries(a, i, f, s) ==> a[s] == b[s]
  {
  }

  /** What is known of an update carries over when neither side changed at or below it. */
  lemma SameUpdateKept(p: Pair, q: Pair, i: ItemId, f: Field, n: int)
    requires n in p.stored && n in q.stored && p.stored[n] == q.stored[n] && UpdateKept(p, i, f, n)
    requires forall s :: s <= n ==> (Carries(p.stored, i, f, s) <==> Carries(q.stored, i, f, s))
    requires forall s :: s <= n && Carries(p.stored, i, f, s) && Carries(q.stored, i, f, s) ==> p.stored[s] == q.stored[s]
    requires forall s :: s <= n ==> (Carries(p.log, i, f, s) <==> Carries(q.log, i, f, s))
    requires forall s :: s <= n && Carries(p.log, i, f, s) && Carries(q.log, i, f, s) ==> p.log[s] == q.log[s]
    ensures UpdateKept(q, i, f, n)
  {
    LatestAgrees(p.log, q.log, i, f, n);
  }

  lemma OtherItemKept(p: Pair, q: Pair, i: ItemId, f: Field)
    requires ItemKept(p, i, f) && SameTools(p.stored, q.stored, i) && SameTools(p.log, q.log, i)
    ensures ItemKept(q, i, f)
  {
    forall n | IsNewestUpdate(q.stored, i, n)
      ensures UpdateKept(q, i, f, n)
    {
      assert IsNewestUpdate(p.stored, i, n);
      SameToolsCarry(p.stored, q.stored, i, f);
      SameToolsCarry(p.log, q.log, i, f);
      SameUpdateKept(p, q, i, f, n);
    }
    forall s | s in q.log && IsTool(q.log[s], i) && PastUpdates(q.stored, i, s)
      ensures s in q.stored && q.stored[s] == q.log[s]
    {
      assert PastUpdates(p.stored, i, s);
    }
  }

  lemma NewestUpdateExists(j: Journal, i: ItemId, u: int) returns (n: int)
    requires u in j && IsToolUpdate(j[u], i)
    ensures IsNewestUpdate(j, i, n) && u <= n
  {
    var all := ToolUpdateSeqs(j, i);
    assert u in all;
    n := Max(all);
    assert forall s :: s in j && IsToolUpdate(j[s], i) ==> s in all;
  }

  lemma MeaningPastUpdate(p: Pair, i: ItemId, f: Field, top: int, n: int)
    requires ItemKept(p, i, f) && IsNewestUpdate(p.stored, i, n) && n <= top
    requires SameAbove(p, i, n)
    ensures LatestUpTo(p.stored, i, f, top) == LatestUpTo(p.log, i, f, top)
  {
    var j, l := p.stored, p.log;
    assert forall s :: n < s ==> (Carries(j, i, f, s) <==> Carries(l, i, f, s));
    var above := set s | s in Carriers(l, i, f) && n < s <= top;
    if above != {} {
      var c := Max(above);
      assert forall s :: c < s <= top ==> !Carries(l, i, f, s) by {
        assert forall s :: n < s <= top && Carries(l, i, f, s) ==> s in above;
      }
      LatestIs(l, i, f, top, c);
      LatestIs(j, i, f, top, c);
    } else {
      assert forall s :: n < s <= top ==> !Carries(l, i, f, s) by {
        assert forall s :: n < s <= top && Carries(l, i, f, s) ==> s in above;
      }
      assert Below(Carriers(l, i, f), top) == Below(Carriers(l, i, f), n);
      assert UpdateKept(p, i, f, n);
      if Brings(j[n].payload, f) {
        LatestIs(j, i, f, top, n);
      } else {
        LatestAgrees(j, l, i, f, top);
      }
    }
  }

  /** Above the newest update both hold the same tool rows. */
  ghost predicate SameAbove(p: Pair, i: ItemId, n: int) {
    && (forall s :: n < s && s in p.log && IsTool(p.log[s], i) ==> s in p.stored && p.stored[s] == p.log[s])
    && (forall s :: n < s && s in p.stored && IsTool(p.stored[s], i) ==> s in p.log && p.stored[s] == p.log[s])
  }

  lemma RawAboveUpdate(p: Pair, i: ItemId, f: Field, n: int)
    requires RowsKept(p) && ItemKept(p, i, f) && IsNewestUpdate(p.stored, i, n)
    ensures SameAbove(p, i, n)
  {
    forall s | n < s && s in p.log && IsTool(p.log[s], i)
      ensures s in p.stored && p.stored[s] == p.log[s]
    {
      assert PastUpdates(p.stored, i, s);
    }
  }

  lemma MeaningKeptUpTo(p: Pair, i: ItemId, f: Field, top: int)
    requires RowsKept(p) && ItemKept(p, i, f)
    requires forall s :: s in p.log && IsTool(p.log[s], i) ==> s <= top
    ensures LatestUpTo(p.stored, i, f, top) == LatestUpTo(p.log, i, f, top)
  {
    if u :| u in p.stored && IsToolUpdate(p.stored[u], i) {
      var n := NewestUpdateExists(p.stored, i, u);
      RawAboveUpdate(p, i, f, n);
      MeaningPastUpdate(p, i, f, top, n);
    } else {
      assert forall s :: s in p.log && IsTool(p.log[s], i) ==> PastUpdates(p.stored, i, s);
      LatestAgrees(p.stored, p.log, i, f, top);
    }
  }

  /** The table answers the latest-value query exactly as the unpruned log does. */
  lemma MeaningKept(p: Pair, i: ItemId, f: Field)
    requires RowsKept(p) && ItemKept(p, i, f)
    ensures Latest(p.stored, i, f) == Latest(p.log, i, f)
  {
    var tools := ToolSeqs(p.log, i);
    var top := if tools == {} then 0 else Max(tools);
    assert forall s :: s in p.log && IsTool(p.log[s], i) ==> s in tools;
    LatestBounded(p.log, i, f, top);
    LatestBounded(p.stored, i, f, top);
    MeaningKeptUpTo(p, i, f, top);
  }

  // ---------------------------------------------------------------- one step

  lemma NothingBroughtYet(p: Pair, q: Pair, at: int, r: Row, i: ItemId, f: Field)
    requires Latest(p.stored, i, f) == None == Latest(p.log, i, f)
    requires IsToolUpdate(r, i) && !Brings(r.payload, f) && at in q.stored
    requires q.stored[at] == StoredLive(p.stored, at, r) && q.log == p.log[at := r]
    requires forall s :: s != at && s in q.stored ==> s in p.stored && q.stored[s] == p.stored[s]
    ensures UpdateKept(q, i, f, at)
  {
    assert forall s :: Carries(p.stored, i, f, s) ==> s in Carriers(p.stored, i, f);
    assert forall s :: Carries(p.log, i, f, s) ==> s in Carriers(p.log, i, f);
    assert LiveFact(p.stored, r.payload, f) == None && !Brings(q.stored[at].payload, f);
    forall s
      ensures !Carries(q.stored, i, f, s) && !Carries(q.log, i, f, s)
    {
      assert !Carries(p.stored, i, f, s) && !Carries(p.log, i, f, s);
    }
    assert NothingLost(q, i, f, at);
  }

  lemma EarlierFactKept(p: Pair, q: Pair, at: int, r: Row, i: ItemId, f: Field)
    requires Latest(p.stored, i, f) == Latest(p.log, i, f) != None
    requires at !in p.log && IsToolUpdate(r, i) && !Brings(r.payload, f) && at in q.stored
    requires forall s :: s in p.log && IsTool(p.log[s], i) ==> s < at
    requires q.stored[at] == StoredLive(p.stored, at, r) && q.log == p.log[at := r]
    ensures UpdateKept(q, i, f, at)
  {
    assert !Carries(q.log, i, f, at);
    assert forall s :: s != at ==> (Carries(q.log, i, f, s) <==> Carries(p.log, i, f, s));
    LatestAgrees(q.log, p.log, i, f, at);
    LatestBounded(p.log, i, f, at);
    assert LiveFact(p.stored, r.payload, f) == Latest(p.log, i, f);
  }

  lemma LiveUpdateKept(p: Pair, q: Pair, at: int, r: Row, i: ItemId, f: Field)
    requires Latest(p.stored, i, f) == Latest(p.log, i, f)
    requires at !in p.log && IsToolUpdate(r, i) && at in q.stored
    requires forall s :: s in p.log && IsTool(p.log[s], i) ==> s < at
    requires q.stored[at] == StoredLive(p.stored, at, r) && q.log == p.log[at := r]
    requires forall s :: s != at && s in q.stored ==> s in p.stored && q.stored[s] == p.stored[s]
    ensures UpdateKept(q, i, f, at)
  {
    if Brings(r.payload, f) {
      LatestIs(q.log, i, f, at, at);
    } else if Latest(p.stored, i, f) == None {
      NothingBroughtYet(p, q, at, r, i, f);
    } else {
      EarlierFactKept(p, q, at, r, i, f);
    }
  }

  lemma LiveItemKept(p: Pair, w: Write, i: ItemId, f: Field)
    requires Kept(p) && Admissible(p, w) && w.at !in p.stored
    requires w.LiveWrite? && IsToolUpdate(w.row, i) && NewerThanItem(p.stored, w.at, i)
    ensures ItemKept(After(p, w), i, f)
  {
    var q := After(p, w);
    assert w.at in q.stored && IsToolUpdate(q.stored[w.at], i);
    NewerThanLog(p, w.at, i);
    assert ItemKept(p, i, f);
    MeaningKept(p, i, f);
    LiveUpdateKept(p, q, w.at, w.row, i, f);
    assert forall m :: m in p.stored && IsToolUpdate(p.stored[m], i) ==> Concerns(p.stored[m], i);
    assert forall n :: IsNewestUpdate(q.stored, i, n) ==> n == w.at;
    assert forall s :: PastUpdates(q.stored, i, s) ==> w.at < s;
  }

  /** A raw tool row at either end of its item replaces nothing. */
  lemma RawToolRow(p: Pair, w: Write, i: ItemId)
    requires RowsKept(p) && Admissible(p, w) && w.at !in p.stored
    requires IsTool(w.row, i)
    requires !(w.LiveWrite? && IsToolUpdate(w.row, i) && NewerThanItem(p.stored, w.at, i))
    ensures After(p, w).stored == p.stored[w.at := w.row]
  {
    var put := p.stored[w.at := w.row];
    if w.row.kind == ItemUpdated {
      assert w.RawWrite? && OlderThanItem(p.stored, w.at, i);
      forall s | s in put && s != w.at
        ensures !Replaced(put, w.at, w.row, s)
      {
        if IsToolUpdate(put[s], i) {
          assert Concerns(p.stored[s], i);
        }
      }
    }
  }

  lemma NewerRawKept(p: Pair, q: Pair, at: int, r: Row, i: ItemId, f: Field)
    requires ItemKept(p, i, f) && at !in p.log && at !in p.stored
    requires q == Pair(p.stored[at := r], p.log[at := r]) && IsTool(r, i) && r.kind != ItemUpdated
    requires NewerThanItem(p.stored, at, i)
    ensures ItemKept(q, i, f)
  {
    forall n | IsNewestUpdate(q.stored, i, n)
      ensures UpdateKept(q, i, f, n)
    {
      assert forall u :: u in p.stored && IsToolUpdate(p.stored[u], i) ==> u in q.stored && IsToolUpdate(q.stored[u], i);
      assert IsNewestUpdate(p.stored, i, n) && Concerns(p.stored[n], i) && n < at;
      SameUpdateKept(p, q, i, f, n);
    }
    forall s | s in q.log && IsTool(q.log[s], i) && PastUpdates(q.stored, i, s)
      ensures s in q.stored && q.stored[s] == q.log[s]
    {
      assert forall u :: u in p.stored && IsToolUpdate(p.stored[u], i) ==> u in q.stored && IsToolUpdate(q.stored[u], i);
      assert PastUpdates(p.stored, i, s);
    }
  }

  /** The historical row itself is the item's only update. */
  lemma OlderOnlyUpdate(q: Pair, at: int, r: Row, i: ItemId, f: Field)
    requires at in q.stored && at in q.log && q.stored[at] == q.log[at] == r && IsTool(r, i)
    requires forall s :: s < at ==> !Carries(q.log, i, f, s) && !Carries(q.stored, i, f, s)
    ensures UpdateKept(q, i, f, at)
  {
    if Brings(r.payload, f) {
      LatestIs(q.log, i, f, at, at);
    }
  }

  lemma OlderUnderUpdate(p: Pair, q: Pair, at: int, r: Row, i: ItemId, f: Field, n: int)
    requires n in p.stored && UpdateKept(p, i, f, n) && at < n && at !in p.log && at !in p.stored
    requires q == Pair(p.stored[at := r], p.log[at := r])
    requires forall s :: s in p.log && IsTool(p.log[s], i) ==> at < s
    ensures UpdateKept(q, i, f, n)
  {
    assert forall s :: s != at ==> (Carries(q.log, i, f, s) <==> Carries(p.log, i, f, s));
    if Brings(p.stored[n].payload, f) {
      var held := Below(Carriers(p.log, i, f), n);
      var c := Max(held);
      assert Carries(p.log, i, f, c) && at < c;
      assert forall s :: c < s <= n && Carries(p.log, i, f, s) ==> s in held;
      LatestIs(q.log, i, f, n, c);
    } else {
      assert forall s :: s != at ==> (Carries(q.stored, i, f, s) <==> Carries(p.stored, i, f, s));
      assert NothingLost(q, i, f, n);
    }
  }

  lemma OlderUpdateKept(p: Pair, q: Pair, at: int, r: Row, i: ItemId, f: Field, n: int)
    requires ItemKept(p, i, f) && at !in p.log && at !in p.stored
    requires q == Pair(p.stored[at := r], p.log[at := r]) && IsTool(r, i)
    requires OlderThanItem(p.stored, at, i)
    requires forall s :: s in p.log && IsTool(p.log[s], i) ==> at < s
    requires IsNewestUpdate(q.stored, i, n)
    ensures UpdateKept(q, i, f, n)
  {
    if n == at {
      assert forall s :: s in p.stored && IsTool(p.stored[s], i) ==> Concerns(p.stored[s], i);
      OlderOnlyUpdate(q, at, r, i, f);
    } else {
      assert forall u :: u in p.stored && IsToolUpdate(p.stored[u], i) ==> u in q.stored && IsToolUpdate(q.stored[u], i);
      assert IsNewestUpdate(p.stored, i, n) && Concerns(p.stored[n], i) && at < n;
      OlderUnderUpdate(p, q, at, r, i, f, n);
    }
  }

  lemma OlderRawKept(p: Pair, q: Pair, at: int, r: Row, i: ItemId, f: Field)
    requires RowsKept(p) && ItemKept(p, i, f) && at !in p.log && at !in p.stored
    requires q == Pair(p.stored[at := r], p.log[at := r]) && IsTool(r, i)
    requires OlderThanItem(p.stored, at, i)
    ensures ItemKept(q, i, f)
  {
    OlderThanLog(p, at, i);
    forall n | IsNewestUpdate(q.stored, i, n)
      ensures UpdateKept(q, i, f, n)
    {
      OlderUpdateKept(p, q, at, r, i, f, n);
    }
    forall s | s in q.log && IsTool(q.log[s], i) && PastUpdates(q.stored, i, s)
      ensures s in q.stored && q.stored[s] == q.log[s]
    {
      assert forall u :: u in p.stored && IsToolUpdate(p.stored[u], i) ==> u in q.stored && IsToolUpdate(q.stored[u], i);
      assert PastUpdates(p.stored, i, s);
    }
  }

  lemma UnrelatedToolsStay(p: Pair, w: Write, i: ItemId)
    requires RowsKept(p) && Admissible(p, w) && w.at !in p.stored && !IsTool(w.row, i)
    ensures SameTools(p.stored, After(p, w).stored, i) && SameTools(p.log, After(p, w).log, i)
  {
    forall s | s in p.stored && IsTool(p.stored[s], i)
      ensures s in After(p, w).stored
    {
      assert WellKinded(p.log[s]) && RowKept(p.stored[s], p.log[s]);
    }
  }

  lemma StepKeeps(p: Pair, w: Write)
    requires Kept(p) && Admissible(p, w) && w.at !in p.stored
    ensures Kept(After(p, w))
  {
    var q := After(p, w);
    StepKeepsRows(p, w);
    forall i, f
      ensures ItemKept(q, i, f)
    {
      assert ItemKept(p, i, f);
      if !IsTool(w.row, i) {
        UnrelatedToolsStay(p, w, i);
        OtherItemKept(p, q, i, f);
      } else if w.LiveWrite? && w.row.kind == ItemUpdated && NewerThanItem(p.stored, w.at, i) {
        LiveItemKept(p, w, i, f);
      } else {
        RawToolRow(p, w, i);
        if OlderThanItem(p.stored, w.at, i) {
          OlderRawKept(p, q, w.at, w.row, i, f);
        } else {
          NewerRawKept(p, q, w.at, w.row, i, f);
        }
      }
    }
  }

  lemma {:induction false} RunKeeps(writes: seq<Write>)
    requires Play(writes).Some?
    ensures Kept(Play(writes).value)
  {
    if writes != [] {
      RunKeeps(writes[..|writes| - 1]);
      StepKeeps(Play(writes[..|writes| - 1]).value, writes[|writes| - 1]);
    }
  }

  // ---------------------------------------------------------------- what a reader can rely on

  /** The one row of a running-state kind that is ever read. */
  function NewestOfKind(j: Journal, k: Kind): Option<(int, Row)> {
    var all := KindSeqs(j, k);
    if all == {} then None else Some((Max(all), j[Max(all)]))
  }

  /** Only running state and tool updates are ever replaced. */
  predicate MayBeReplaced(r: Row) {
    SupersededKind(r.kind) || (r.kind == ItemUpdated && r.payload.Tool?)
  }

  function FactOf(r: Row, f: Field): Option<string> {
    if Brings(r.payload, f) then Some(Fact(r, f)) else None
  }

  lemma NewestOfKindKept(p: Pair, k: Kind)
    requires RowsKept(p) && SupersededKind(k)
    ensures NewestOfKind(p.stored, k) == NewestOfKind(p.log, k)
  {
    var kept, all := KindSeqs(p.stored, k), KindSeqs(p.log, k);
    forall s | s in kept
      ensures s in all && p.log[s] == p.stored[s]
    {
      assert RowKept(p.stored[s], p.log[s]) && p.stored[s].kind == k;
    }
    if all != {} {
      var n := Max(all);
      assert forall m :: m in p.stored && p.stored[m].kind == k ==> m in kept;
      assert n !in p.stored ==> Excused(p, n);
      assert n in kept;
    }
  }

  /** After every run of admissible writes: each latest-value query answers as on the unpruned
      log, each running-state kind reads the same row, every other row is still there byte for
      byte, and no row was invented or moved. */
  lemma PruningKeepsMeaning(writes: seq<Write>)
    requires Play(writes).Some?
    ensures var p := Play(writes).value;
      && (forall i, f :: Latest(p.stored, i, f) == Latest(p.log, i, f))
      && (forall k :: SupersededKind(k) ==> NewestOfKind(p.stored, k) == NewestOfKind(p.log, k))
      && (forall s :: s in p.log && !MayBeReplaced(p.log[s]) ==> s in p.stored && p.stored[s] == p.log[s])
      && (forall s :: s in p.stored ==> s in p.log && RowKept(p.stored[s], p.log[s]))
  {
    var p := Play(writes).value;
    RunKeeps(writes);
    forall i, f
      ensures Latest(p.stored, i, f) == Latest(p.log, i, f)
    {
      assert ItemKept(p, i, f);
      MeaningKept(p, i, f);
    }
    forall k | SupersededKind(k)
      ensures NewestOfKind(p.stored, k) == NewestOfKind(p.log, k)
    {
      NewestOfKindKept(p, k);
    }
    forall s | s in p.log && s !in p.stored
      ensures MayBeReplaced(p.log[s])
    {
      assert Excused(p, s);
    }
  }

  /** The newest stored update shows the log's latest value of a field exactly when it brings
      the field itself or nothing stored below it does: a historical row prepended after it
      stays unmerged until the next update. */
  lemma NewestUpdateHolds(writes: seq<Write>, i: ItemId, f: Field, n: int)
    requires Play(writes).Some? && IsNewestUpdate(Play(writes).value.stored, i, n)
    ensures var p := Play(writes).value;
      FactOf(p.stored[n], f) == LatestUpTo(p.log, i, f, n) <==>
        (Brings(p.stored[n].payload, f) || forall s :: s < n ==> !Carries(p.stored, i, f, s))
  {
    var p := Play(writes).value;
    RunKeeps(writes);
    assert ItemKept(p, i, f);
    assert UpdateKept(p, i, f, n);
    if !Brings(p.stored[n].payload, f) {
      assert NothingLost(p, i, f, n);
      var below := Below(Carriers(p.log, i, f), n);
      assert forall s :: s in below <==> s <= n && Carries(p.log, i, f, s);
      assert !Carries(p.stored, i, f, n);
      if below == {} {
        assert forall s :: s < n && Carries(p.stored, i, f, s) ==> s in below;
      } else {
        assert Carries(p.stored, i, f, Max(below));
      }
    }
  }

  /** Every write of the run comes after everything written before it. */
  predicate Chronological(writes: seq<Write>) {
    forall a, b :: 0 <= a < b < |writes| ==> writes[a].at < writes[b].at
  }

  lemma {:induction false} LogIsWrites(writes: seq<Write>, s: int)
    requires Play(writes).Some?
    ensures s in Play(writes).value.log <==> exists k :: 0 <= k < |writes| && writes[k].at == s
    ensures forall k :: 0 <= k < |writes| ==>
      writes[k].at in Play(writes).value.log && Play(writes).value.log[writes[k].at] == writes[k].row
  {
    if writes != [] {
      var before := writes[..|writes| - 1];
      LogIsWrites(before, s);
      assert Admissible(Play(before).value, writes[|writes| - 1]);
      forall k | 0 <= k < |writes|
        ensures writes[k].at in Play(writes).value.log && Play(writes).value.log[writes[k].at] == writes[k].row
      {
        if k < |writes| - 1 {
          assert writes[k] == before[k];
        }
      }
      if k :| 0 <= k < |before| && before[k].at == s {
        assert writes[k].at == s;
      }
      if k :| 0 <= k < |writes| && writes[k].at == s && k < |writes| - 1 {
        assert before[k].at == s;
      }
    }
  }

  /** What a newest update does not show, no stored row shows. */
  ghost predicate Merged(j: Journal, i: ItemId, f: Field) {
    forall n :: IsNewestUpdate(j, i, n) && !Brings(j[n].payload, f) ==>
      forall s :: s <= n ==> !Carries(j, i, f, s)
  }

  /** The update just written shows nothing, so nothing was there to show. */
  lemma MergedAtWrite(p: Pair, w: Write, i: ItemId, f: Field, s: int)
    requires Kept(p) && Admissible(p, w) && w.at !in p.stored && forall s :: s in p.log ==> s < w.at
    requires IsNewestUpdate(After(p, w).stored, i, w.at) && !Brings(After(p, w).stored[w.at].payload, f)
    ensures !Carries(After(p, w).stored, i, f, s)
  {
    var j, q := p.stored, After(p, w).stored;
    if w.LiveWrite? {
      assert LiveFact(j, w.row.payload, f) == None;
      assert forall t :: Carries(j, i, f, t) ==> t in Carriers(j, i, f);
    } else {
      assert OlderThanItem(j, w.at, i);
      assert forall t :: Carries(j, i, f, t) ==> Concerns(j[t], i) && t in p.log;
    }
    assert s != w.at ==> (Carries(q, i, f, s) ==> Carries(j, i, f, s));
  }

  /** A newest update that is not the row just written was the newest before. */
  lemma NewestBefore(p: Pair, w: Write, i: ItemId, n: int)
    requires Kept(p) && Admissible(p, w) && w.at !in p.stored && forall s :: s in p.log ==> s < w.at
    requires IsNewestUpdate(After(p, w).stored, i, n) && n != w.at
    ensures IsNewestUpdate(p.stored, i, n) && After(p, w).stored[n] == p.stored[n]
  {
    var j, q := p.stored, After(p, w).stored;
    assert n in j && IsToolUpdate(j[n], i);
    var m := NewestUpdateExists(j, i, n);
    if m !in q {
      assert Replaced(j[w.at := if w.LiveWrite? then StoredLive(j, w.at, w.row) else w.row], w.at, w.row, m);
      assert WellKinded(p.log[m]);
      assert IsToolUpdate(q[w.at], i);
    }
  }

  lemma StepMerges(p: Pair, w: Write, i: ItemId, f: Field)
    requires Kept(p) && Admissible(p, w) && w.at !in p.stored && Merged(p.stored, i, f)
    requires forall s :: s in p.log ==> s < w.at
    ensures Merged(After(p, w).stored, i, f)
  {
    var j, q := p.stored, After(p, w).stored;
    forall n, s | IsNewestUpdate(q, i, n) && !Brings(q[n].payload, f) && s <= n
      ensures !Carries(q, i, f, s)
    {
      if n == w.at {
        MergedAtWrite(p, w, i, f, s);
      } else {
        NewestBefore(p, w, i, n);
        assert s != w.at;
        assert Carries(q, i, f, s) ==> Carries(j, i, f, s);
      }
    }
  }

  /** In a chronological run the newest update of every item shows the latest non-empty value
      of every field over all rows written up to it. */
  lemma {:induction false} ChronologicalUpdateHolds(writes: seq<Write>, i: ItemId, f: Field)
    requires Play(writes).Some? && Chronological(writes)
    ensures Merged(Play(writes).value.stored, i, f)
    ensures var p := Play(writes).value;
      forall n :: IsNewestUpdate(p.stored, i, n) ==> FactOf(p.stored[n], f) == LatestUpTo(p.log, i, f, n)
  {
    if writes != [] {
      var before := writes[..|writes| - 1];
      ChronologicalUpdateHolds(before, i, f);
      RunKeeps(before);
      forall s | s in Play(before).value.log
        ensures s < writes[|writes| - 1].at
      {
        LogIsWrites(before, s);
        var k :| 0 <= k < |before| && before[k].at == s;
        assert writes[k] == before[k];
      }
      StepMerges(Play(before).value, writes[|writes| - 1], i, f);
    }
    var p := Play(writes).value;
    forall n | IsNewestUpdate(p.stored, i, n)
      ensures FactOf(p.stored[n], f) == LatestUpTo(p.log, i, f, n)
    {
      NewestUpdateHolds(writes, i, f, n);
    }
  }
}
