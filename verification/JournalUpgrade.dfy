/**
 The offline path: one upgrade of a whole raw log against pruning after every live write.
 */
module JournalUpgrade {
  import opened Basics
  import opened Journal
  import opened JournalRuns
  import opened JournalPositions

  // ---------------------------------------------------------------- idempotence

  lemma NormalizedShape(j: Journal)
    ensures Normalized(j).Keys == j.Keys
    ensures forall s :: s in j ==> RowKept(Normalized(j)[s], j[s])
    ensures forall s :: s in j && !IsNewestToolUpdate(j, s) ==> Normalized(j)[s] == j[s]
  {
  }

  /** The newest update of an item is never obsolete, so clearing leaves it the newest. */
  lemma NewestStays(j: Journal, s: int)
    requires IsNewestToolUpdate(Upgraded(j), s)
    ensures IsNewestToolUpdate(j, s)
    ensures Upgraded(j)[s].payload == MergedOffline(j, s)
  {
    NormalizedShape(j);
    var n, c := Normalized(j), Upgraded(j);
    var i := j[s].payload.item.value;
    var m := NewestUpdateExists(n, i, s);
    assert !Obsolete(n, m);
    assert m in c && IsToolUpdate(c[m], i);
    assert forall u :: u in j && IsToolUpdate(j[u], i) ==> IsToolUpdate(n[u], i);
  }

  /** In the upgraded journal, only the newest update itself differs from the old one. */
  lemma UpgradedTools(j: Journal, s: int, i: ItemId)
    requires IsNewestToolUpdate(j, s) && j[s].payload.item == Some(i)
    ensures forall t :: t in Upgraded(j) && IsTool(Upgraded(j)[t], i) ==>
      t in j && IsTool(j[t], i) && (t != s ==> Upgraded(j)[t] == j[t])
  {
    NormalizedShape(j);
  }

  lemma SecondMergeFacts(j: Journal, s: int, f: Field)
    requires IsNewestToolUpdate(Upgraded(j), s) && IsNewestToolUpdate(j, s)
    requires Upgraded(j)[s].payload == MergedOffline(j, s)
    ensures LatestUpTo(Upgraded(j), j[s].payload.item.value, f, s) == LatestUpTo(j, j[s].payload.item.value, f, s)
  {
    var c, i := Upgraded(j), j[s].payload.item.value;
    UpgradedTools(j, s, i);
    var held := Below(Carriers(j, i, f), s);
    if held == {} {
      assert !Brings(c[s].payload, f);
      assert forall t :: t <= s && Carries(j, i, f, t) ==> t in held;
      forall t | t <= s && Carries(c, i, f, t)
        ensures t in held
      {
        assert t in j && t != s && c[t] == j[t];
      }
      assert forall t :: t in Below(Carriers(c, i, f), s) ==> Carries(c, i, f, t);
      assert Below(Carriers(c, i, f), s) == {};
    } else {
      assert Carries(j, i, f, Max(held));
      assert Brings(c[s].payload, f);
      LatestIs(c, i, f, s, s);
    }
  }

  lemma FirstBounded(j: Journal, asked: set<int>, surviving: set<int>, own: Position)
    requires asked <= surviving && surviving != {}
    requires forall s :: s in surviving ==> s in j && j[s].payload.Tool?
    ensures FirstPosition(j, asked, surviving, own).sequence <= Min(surviving)
  {
  }

  lemma SecondMergePosition(c: Journal, s: int, i: ItemId)
    requires s in c && IsTool(c[s], i) && PositionOf(c[s]).Some?
    requires forall t :: t in c && IsTool(c[t], i) ==> c[s].payload.firstSeq.value <= t
    ensures FirstPosition(c, Below(ToolSeqs(c, i), s), ToolSeqs(c, i), Position(s, c[s].createdAt))
              == PositionOf(c[s]).value
  {
    var asked := Below(ToolSeqs(c, i), s);
    var seqs := set t | t in asked && c[t].payload.firstSeq.Some?;
    var times := set t | t in asked && c[t].payload.firstTime.Some?;
    assert s in seqs && s in times;
    assert Max(seqs) == s == Max(times);
    assert c[s].payload.firstSeq.value <= Min(ToolSeqs(c, i));
  }

  lemma MergedBegins(j: Journal, s: int, i: ItemId)
    requires IsNewestToolUpdate(j, s) && j[s].payload.item == Some(i)
    ensures var m := MergedOffline(j, s);
      m.firstSeq.Some? && m.firstTime.Some? && forall t :: t in ToolSeqs(j, i) ==> m.firstSeq.value <= t
  {
    assert s in ToolSeqs(j, i);
    FirstBounded(j, Below(ToolSeqs(j, i), s), ToolSeqs(j, i), Position(s, j[s].createdAt));
  }

  lemma SecondMergeStart(j: Journal, c: Journal, s: int, i: ItemId)
    requires IsNewestToolUpdate(j, s) && j[s].payload.item == Some(i)
    requires s in c && c[s].payload == MergedOffline(j, s)
    requires forall t :: t in c && IsTool(c[t], i) ==> t in j && IsTool(j[t], i)
    ensures PositionOf(c[s]).Some?
    ensures FirstPosition(c, Below(ToolSeqs(c, i), s), ToolSeqs(c, i), Position(s, c[s].createdAt)) == PositionOf(c[s]).value
  {
    MergedBegins(j, s, i);
    assert forall t :: t in c && IsTool(c[t], i) ==> t in ToolSeqs(j, i);
    SecondMergePosition(c, s, i);
  }

  lemma SecondMergeSame(j: Journal, s: int)
    requires IsNewestToolUpdate(Upgraded(j), s)
    ensures MergedOffline(Upgraded(j), s) == Upgraded(j)[s].payload
  {
    var c := Upgraded(j);
    NewestStays(j, s);
    var i := j[s].payload.item.value;
    assert c[s].payload.item == Some(i);
    UpgradedTools(j, s, i);
    SecondMergeStart(j, c, s, i);
    forall f: Field
      ensures LatestUpTo(c, i, f, s) == LatestUpTo(j, i, f, s)
    {
      SecondMergeFacts(j, s, f);
    }
    SameFacts(f => LatestUpTo(c, i, f, s), f => LatestUpTo(j, i, f, s));
  }

  lemma SameFacts(a: Field -> Option<string>, b: Field -> Option<string>)
    requires forall f :: a(f) == b(f)
    ensures FactsFrom(a) == FactsFrom(b)
  {
  }

  /** Running the upgrade again changes nothing, whatever journal it first ran on. */
  lemma UpgradeIdempotent(j: Journal)
    ensures Upgraded(Upgraded(j)) == Upgraded(j)
  {
    var c := Upgraded(j);
    NormalizedShape(c);
    forall s | s in c
      ensures Normalized(c)[s] == c[s]
    {
      if IsNewestToolUpdate(c, s) {
        SecondMergeSame(j, s);
      }
    }
    assert Normalized(c) == c;
    forall s | s in c
      ensures !Obsolete(c, s)
    {
      assert !Obsolete(Normalized(j), s);
    }
    assert Cleared(c) == c;
  }

  // ---------------------------------------------------------------- online and offline agree

  predicate AllLive(writes: seq<Write>) {
    forall k :: 0 <= k < |writes| ==>
      writes[k].LiveWrite? && WellKinded(writes[k].row) && Unpositioned(writes[k].row)
  }

  /** A chronological run of live writes never fails, and no row of the log is at or past the next. */
  lemma {:induction false} LiveRunSucceeds(writes: seq<Write>)
    requires AllLive(writes) && Chronological(writes)
    ensures Play(writes).Some?
    ensures forall s :: s in Play(writes).value.log ==> writes != [] && s <= writes[|writes| - 1].at
  {
    if writes != [] {
      var before, w := writes[..|writes| - 1], writes[|writes| - 1];
      LiveRunSucceeds(before);
      RunKeeps(before);
      var p := Play(before).value;
      forall s | s in p.log
        ensures s < w.at
      {
        assert before[|before| - 1] == writes[|before| - 1];
      }
      assert forall s :: s in p.stored ==> s in p.log;
    }
  }

  /** Kept exactly when the whole-log clear would keep it. */
  ghost predicate KeysAgree(p: Pair) {
    forall s :: s in p.log ==> (s in p.stored <==> !Obsolete(p.log, s))
  }

  lemma UpdateInLogInStore(p: Pair, i: ItemId, s: int, first: int)
    requires RowsKept(p) && first in p.log && IsUpdate(p.log[first], i) && first < s
    ensures exists m :: m in p.stored && IsUpdate(p.stored[m], i) && m < s
  {
    if first in p.stored {
      assert RowKept(p.stored[first], p.log[first]);
    } else {
      assert Excused(p, first);
    }
  }

  lemma StepKeysAgree(p: Pair, w: Write)
    requires RowsKept(p) && KeysAgree(p) && Admissible(p, w) && w.at !in p.stored && w.LiveWrite?
    requires forall s :: s in p.log ==> s < w.at
    ensures KeysAgree(After(p, w))
  {
    var q := After(p, w);
    var j1 := p.stored[w.at := StoredLive(p.stored, w.at, w.row)];
    assert w.at in q.stored;
    assert !Obsolete(q.log, w.at);
    forall s | s in p.log
      ensures s in q.stored <==> !Obsolete(q.log, s)
    {
      StepKeyAgrees(p, w, s);
    }
  }

  lemma StepKeyAgrees(p: Pair, w: Write, s: int)
    requires RowsKept(p) && KeysAgree(p) && Admissible(p, w) && w.at !in p.stored && w.LiveWrite?
    requires (forall t :: t in p.log ==> t < w.at) && s in p.log
    ensures s in After(p, w).stored <==> !Obsolete(After(p, w).log, s)
  {
    var q := After(p, w);
    var j1 := p.stored[w.at := StoredLive(p.stored, w.at, w.row)];
    assert s in q.stored <==> s in p.stored && !Replaced(j1, w.at, w.row, s);
    GrowObsolete(p.log, w.at, w.row, s);
    if s in p.stored {
      ReplacedAlike(p, w, s);
    }
  }

  /** A newer row makes obsolete exactly what it replaces. */
  lemma GrowObsolete(l: Journal, at: int, r: Row, s: int)
    requires s in l && forall t :: t in l ==> t < at
    ensures Obsolete(l[at := r], s) <==> Obsolete(l, s) || Replaced(l[at := r], at, r, s)
  {
    var m := l[at := r];
    assert m[at] == r;
    assert forall t :: t in l ==> t in m && m[t] == l[t];
  }

  /** Whether an update precedes a row is the same in the journal and in the log. */
  lemma ReplacedAlike(p: Pair, w: Write, s: int)
    requires RowsKept(p) && s in p.stored && forall t :: t in p.log ==> t < w.at
    ensures Replaced(p.stored[w.at := StoredLive(p.stored, w.at, w.row)], w.at, w.row, s)
      <==> Replaced(p.log[w.at := w.row], w.at, w.row, s)
  {
    var j1, l1 := p.stored[w.at := StoredLive(p.stored, w.at, w.row)], p.log[w.at := w.row];
    assert RowKept(p.stored[s], p.log[s]);
    if w.row.payload.item.Some? {
      var i := w.row.payload.item.value;
      if first :| first in j1 && IsUpdate(j1[first], i) && first < s {
        assert RowKept(p.stored[first], p.log[first]);
        assert first in l1 && IsUpdate(l1[first], i);
      }
      if first :| first in l1 && IsUpdate(l1[first], i) && first < s {
        UpdateInLogInStore(p, i, s, first);
        var m :| m in p.stored && IsUpdate(p.stored[m], i) && m < s;
        assert m in j1 && IsUpdate(j1[m], i);
      }
    }
  }

  /** Every stored tool update has the shape of a merge of the row that was sent. */
  ghost predicate MergeShaped(p: Pair) {
    forall s :: s in p.stored && s in p.log && p.log[s].kind == ItemUpdated && p.log[s].payload.Tool? ==>
      var a, b := p.stored[s].payload, p.log[s].payload;
      a.Tool? && a.state == b.state && a.item == b.item && a.unlisted == map[] && Name in a.facts
  }

  function Puts(writes: seq<Write>): seq<Step> {
    seq(|writes|, k requires 0 <= k < |writes| => Put(writes[k]))
  }

  lemma {:induction false} LiveRunFacts(writes: seq<Write>, i: ItemId)
    requires AllLive(writes) && Chronological(writes) && Play(writes).Some?
    ensures KeysAgree(Play(writes).value) && MergeShaped(Play(writes).value)
    ensures Steps(Puts(writes)) == Play(writes) && AllSettled(Puts(writes), i)
  {
    if writes != [] {
      var before, w := writes[..|writes| - 1], writes[|writes| - 1];
      LiveRunFacts(before, i);
      RunKeeps(before);
      LiveRunSucceeds(before);
      var p := Play(before).value;
      assert Puts(writes)[..|writes| - 1] == Puts(before);
      assert forall s :: s in p.log ==> s < w.at by {
        assert before != [] ==> before[|before| - 1] == writes[|before| - 1];
      }
      StepKeysAgree(p, w);
      assert Next(p, Put(w)) == Some(After(p, w));
    }
  }

  lemma RawLogPosition(l: Journal, i: ItemId, asked: set<int>, own: Position)
    requires forall s :: s in l ==> Unpositioned(l[s])
    requires ToolSeqs(l, i) != {} && asked <= ToolSeqs(l, i)
    ensures FirstPosition(l, asked, ToolSeqs(l, i), own) == Began(l, i)
  {
    assert forall s :: s in asked ==> s in l && IsTool(l[s], i) && l[s].payload.firstSeq.None?;
    assert (set s | s in asked && l[s].payload.firstSeq.Some?) == {};
  }

  lemma NewestInBoth(p: Pair, i: ItemId, n: int)
    requires RowsKept(p) && IsNewestUpdate(p.log, i, n) && n in p.stored
    ensures IsNewestUpdate(p.stored, i, n)
  {
    forall u | u in p.stored
      ensures RowKept(p.stored[u], p.log[u])
    {
    }
  }

  lemma RawLog(writes: seq<Write>)
    requires AllLive(writes) && Play(writes).Some?
    ensures forall s :: s in Play(writes).value.log ==> Unpositioned(Play(writes).value.log[s])
  {
    forall s | s in Play(writes).value.log
      ensures Unpositioned(Play(writes).value.log[s])
    {
      LogIsWrites(writes, s);
    }
  }

  /** Two normal-shaped maps of facts that answer alike are the same map. */
  lemma ShapedFacts(r: Row, fact: Field -> Option<string>)
    requires r.payload.Tool? && Name in r.payload.facts
    requires forall f :: FactOf(r, f) == fact(f)
    ensures r.payload.facts == FactsFrom(fact)
  {
    forall f: Field
      ensures f in r.payload.facts <==> f in FactsFrom(fact)
      ensures f in r.payload.facts ==> r.payload.facts[f] == FactsFrom(fact)[f]
    {
      assert FactOf(r, f) == fact(f);
    }
  }

  lemma NewestUpdateAgrees(writes: seq<Write>, n: int)
    requires AllLive(writes) && Chronological(writes) && Play(writes).Some?
    requires IsNewestToolUpdate(Play(writes).value.log, n)
    ensures var p := Play(writes).value;
      n in p.stored && p.stored[n].payload == MergedOffline(p.log, n)
  {
    var p := Play(writes).value;
    var i := p.log[n].payload.item.value;
    assert IsNewestUpdate(p.log, i, n);
    LiveRunFacts(writes, i);
    NewestUpdateNamesTheStart(Puts(writes), i);
    RunKeeps(writes);
    NewestInBoth(p, i, n);
    forall f: Field
      ensures FactOf(p.stored[n], f) == LatestUpTo(p.log, i, f, n)
    {
      ChronologicalUpdateHolds(writes, i, f);
    }
    RawLog(writes);
    assert n in ToolSeqs(p.log, i);
    RawLogPosition(p.log, i, Below(ToolSeqs(p.log, i), n), Position(n, p.log[n].createdAt));
    ShapedFacts(p.stored[n], f => LatestUpTo(p.log, i, f, n));
  }

  /** Pruning after every chronological live write and upgrading the raw log in one go keep the
      same sequences; each item's newest update holds the same merged payload; every row that
      is not a tool update is the same row. */
  lemma OnlineOfflineAgree(writes: seq<Write>)
    requires AllLive(writes) && Chronological(writes)
    ensures Play(writes).Some?
    ensures var p := Play(writes).value;
      var offline := Upgraded(p.log);
      && p.stored.Keys == offline.Keys
      && (forall s :: IsNewestToolUpdate(p.log, s) ==>
            s in offline && p.stored[s].payload == offline[s].payload)
      && (forall s :: s in offline && !(p.log[s].kind == ItemUpdated && p.log[s].payload.Tool?) ==>
            p.stored[s] == offline[s])
  {
    LiveRunSucceeds(writes);
    RunKeeps(writes);
    var p := Play(writes).value;
    NormalizedShape(p.log);
    LiveRunFacts(writes, "");
    var offline := Upgraded(p.log);
    forall s | s in p.log
      ensures Obsolete(Normalized(p.log), s) <==> Obsolete(p.log, s)
    {
      SameObsolete(p.log, s);
    }
    assert p.stored.Keys == offline.Keys;
    forall s | IsNewestToolUpdate(p.log, s)
      ensures s in offline && p.stored[s].payload == offline[s].payload
    {
      NewestUpdateAgrees(writes, s);
    }
  }

  lemma SameObsolete(j: Journal, s: int)
    requires s in j
    ensures s in Normalized(j) && (Obsolete(Normalized(j), s) <==> Obsolete(j, s))
  {
    NormalizedShape(j);
    var n := Normalized(j);
    assert forall t :: t in j ==> t in n && RowKept(n[t], j[t]);
  }
}
