/**
 What an import leaves behind: the child's journal is what upgrading the raw pages of the
 accepted chain would leave.
 */
module ImportUpgrade {
  import opened Basics
  import opened Journal
  import opened JournalRuns
  import opened JournalUpgrade
  import opened Json
  import opened Sessions
  import opened Ownership
  import opened Import

  function WritesOf(page: seq<Event>): seq<Write> {
    seq(|page|, k requires 0 <= k < |page| => LiveWrite(page[k].at, page[k].row))
  }

  lemma {:induction false} LiveAllIsPlay(page: seq<Event>)
    requires Play(WritesOf(page)).Some?
    ensures LiveAll(map[], page) == Some(Play(WritesOf(page)).value.stored)
  {
    if page != [] {
      var last := |page| - 1;
      assert WritesOf(page)[..last] == WritesOf(page[..last]);
      assert page == page[..last] + [page[last]];
      LiveAllIsPlay(page[..last]);
      LiveAllAppends(map[], page[..last], [page[last]]);
      assert [page[last]][1..] == [];
    }
  }

  /** Pages and saves go through the live insert. */
  predicate AllLiveWrites(writes: seq<ChildWrite>) {
    forall k :: 0 <= k < |writes| ==> writes[k].Imported? || writes[k].Saved?
  }

  /** The rows of such writes, in order. */
  function RowsOf(writes: seq<ChildWrite>): seq<Event>
    requires AllLiveWrites(writes)
  {
    if writes == [] then []
    else
      var last := writes[|writes| - 1];
      RowsOf(writes[..|writes| - 1]) + (match last case Imported(page) => page case Saved(e) => [e])
  }

  lemma {:induction false} RowsAreLive(j: Journal, writes: seq<ChildWrite>)
    requires AllLiveWrites(writes)
    ensures PutAll(j, writes) == LiveAll(j, RowsOf(writes))
  {
    if writes != [] {
      var front, last := writes[..|writes| - 1], writes[|writes| - 1];
      RowsAreLive(j, front);
      var rows := match last case Imported(page) => page case Saved(e) => [e];
      LiveAllAppends(j, RowsOf(front), rows);
      if last.Saved? {
        assert rows[1..] == [];
      }
    }
  }

  /** Whatever else happened to the store, a child that took only pages and saved events holds
      what the offline upgrade of all those rows would keep: each once, less what newer rows
      supersede. */
  lemma ImportedJournalIsTheUpgrade(parse: Reader, db: Db, steps: seq<Step>, child: OwnedId, rank: Json -> int, start: Json)
    requires Cursor(parse, db, child) == Some(start) && AllAllowed(parse, db, steps, child, rank)
    requires JournalOf(db, child) == map[] && AllLiveWrites(WritesTo(parse, db, steps, child))
    requires var writes := WritesOf(RowsOf(WritesTo(parse, db, steps, child))); AllLive(writes) && Chronological(writes)
    ensures Play(WritesOf(RowsOf(WritesTo(parse, db, steps, child)))).Some?
    ensures var raw := Play(WritesOf(RowsOf(WritesTo(parse, db, steps, child)))).value.log;
      var kept := JournalOf(Played(parse, db, steps), child);
      && kept.Keys == Upgraded(raw).Keys
      && forall n :: IsNewestToolUpdate(raw, n) ==> n in kept && kept[n].payload == Upgraded(raw)[n].payload
  {
    var writes := WritesTo(parse, db, steps, child);
    JournalIsTheWrites(parse, db, steps, child, rank, start);
    RowsAreLive(map[], writes);
    OnlineOfflineAgree(WritesOf(RowsOf(writes)));
    LiveAllIsPlay(RowsOf(writes));
  }
}
