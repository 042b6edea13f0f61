/**
 Where the journal's promises end: concrete runs that leave a fact unmerged or lose one, exactly
 when a raw append loses the newest value, and what the event cap keeps.
 */
module JournalLimits {
  import opened Basics
  import opened Journal
  import opened JournalRuns
  import opened Ordering
  import Pages

  // ---------------------------------------------------------------- a prepend stays unmerged

  function ToolUpdate(facts: map<Field, string>): Row {
    Row(ItemUpdated, None, Tool(Some("t"), None, facts, None, None, map[]), 0, None)
  }

  function LateHistory(): seq<Write> {
    [LiveWrite(5, ToolUpdate(map[])), RawWrite(1, ToolUpdate(map[Summary := "s"]))]
  }

  lemma LateHistoryPlays()
    ensures Play(LateHistory()).Some?
    ensures var p := Play(LateHistory()).value;
      && p.log == map[5 := ToolUpdate(map[]), 1 := ToolUpdate(map[Summary := "s"])]
      && p.stored.Keys == {1, 5} && p.stored[1] == ToolUpdate(map[Summary := "s"])
      && IsToolUpdate(p.stored[5], "t") && !Brings(p.stored[5].payload, Summary)
  {
    var first := [LiveWrite(5, ToolUpdate(map[]))];
    assert first[..0] == [];
    assert Play([]) == Some(Pair(map[], map[]));
    var stored := StoredLive(map[], 5, ToolUpdate(map[]));
    assert Carriers(map[], "t", Summary) == {};
    assert Dropped(map[5 := stored], 5, ToolUpdate(map[])) == map[5 := stored];
    assert Play(first) == Some(Pair(map[5 := stored], map[5 := ToolUpdate(map[])]));
    assert LateHistory()[..1] == first;
    var row := ToolUpdate(map[Summary := "s"]);
    var both: Journal := map[5 := stored, 1 := row];
    assert forall s :: s in both ==> !Replaced(both, 1, row, s);
    assert Dropped(both, 1, row) == both;
  }

  /** A summary that arrives with older history is in the table, and the latest-value query finds
      it, but the newest update does not show it. */
  lemma PrependStaysUnmerged()
    ensures Play(LateHistory()).Some?
    ensures var p := Play(LateHistory()).value;
      && IsNewestUpdate(p.stored, "t", 5)
      && LatestUpTo(p.log, "t", Summary, 5) == Some("s")
      && FactOf(p.stored[5], Summary) == None
  {
    LateHistoryPlays();
    var p := Play(LateHistory()).value;
    assert Carries(p.log, "t", Summary, 1) && !Carries(p.log, "t", Summary, 5);
    LatestIs(p.log, "t", Summary, 5, 1);
    assert 5 in p.stored.Keys;
    forall u | u in p.stored
      ensures u <= 5
    {
      assert u in p.stored.Keys;
    }
  }

  // ---------------------------------------------------------------- a raw append of newer updates

  /** The newest row that brings the field. */
  function NewestCarrier(j: Journal, i: ItemId, f: Field): Option<int> {
    var all := Carriers(j, i, f);
    if all == {} then None else Some(Max(all))
  }

  lemma CarrierIs(j: Journal, i: ItemId, f: Field, c: int)
    requires Carries(j, i, f, c) && forall s :: Carries(j, i, f, s) ==> s <= c
    ensures NewestCarrier(j, i, f) == Some(c)
  {
    assert c in Carriers(j, i, f);
  }

  /** The row that holds the item's latest value is a tool update between its first update and
      the row being written: `drop_superseded_events` deletes it. */
  predicate CarrierIsBetween(j: Journal, i: ItemId, f: Field) {
    var c := NewestCarrier(j, i, f);
    c.Some? && c.value in j && IsToolUpdate(j[c.value], i)
    && exists first :: first in j && IsUpdate(j[first], i) && first < c.value
  }

  /** `append_event` of a newer tool update keeps the row with the latest value exactly when the
      update brings the field itself or that row is not between the item's first update and it. */
  lemma AppendKeepsExactly(j: Journal, at: int, r: Row, i: ItemId, f: Field)
    requires at !in j && IsToolUpdate(r, i) && NewerThanItem(j, at, i)
    ensures Append(j, at, r).Some?
    ensures NewestCarrier(Append(j, at, r).value, i, f) == NewestCarrier(j[at := r], i, f)
       <==> (Brings(r.payload, f) || !CarrierIsBetween(j, i, f))
  {
    var all, kept := j[at := r], Append(j, at, r).value;
    if Brings(r.payload, f) {
      BringingRowIsNewest(j, at, r, i, f);
    } else if NewestCarrier(j, i, f).None? {
      assert forall s :: Carries(all, i, f, s) ==> s in Carriers(j, i, f);
      assert Carriers(all, i, f) == {} && Carriers(kept, i, f) == {};
    } else {
      SilentRowLeavesCarrier(j, at, r, i, f);
    }
  }

  /** Two updates of one tool; the later one brings the summary. */
  function TwoUpdates(): Journal {
    map[1 := ToolUpdate(map[]), 2 := ToolUpdate(map[Summary := "s"])]
  }

  /** A third update, appended raw and without a summary, deletes the row that holds it. */
  lemma RawAppendLosesFact()
    ensures var j, r := TwoUpdates(), ToolUpdate(map[]);
      && Append(j, 3, r).Some?
      && Latest(j[3 := r], "t", Summary) == Some("s")
      && NewestCarrier(j[3 := r], "t", Summary) == Some(2)
      && Latest(Append(j, 3, r).value, "t", Summary) == None
  {
    var j, r := TwoUpdates(), ToolUpdate(map[]);
    CarrierIs(j, "t", Summary, 2);
    assert IsUpdate(j[1], "t");
    AppendKeepsExactly(j, 3, r, "t", Summary);
    CarrierIs(j[3 := r], "t", Summary, 2);
    CarrierDropped(j, 3, r, "t", 2);
    assert Carriers(Append(j, 3, r).value, "t", Summary) == {};
  }

  lemma BringingRowIsNewest(j: Journal, at: int, r: Row, i: ItemId, f: Field)
    requires at !in j && IsToolUpdate(r, i) && NewerThanItem(j, at, i) && Brings(r.payload, f)
    ensures NewestCarrier(Append(j, at, r).value, i, f) == Some(at) == NewestCarrier(j[at := r], i, f)
  {
    var all, kept := j[at := r], Append(j, at, r).value;
    assert forall s :: Carries(all, i, f, s) && s != at ==> Concerns(j[s], i);
    assert at in kept;
    CarrierIs(all, i, f, at);
    CarrierIs(kept, i, f, at);
  }

  lemma SilentRowLeavesCarrier(j: Journal, at: int, r: Row, i: ItemId, f: Field)
    requires at !in j && IsToolUpdate(r, i) && NewerThanItem(j, at, i) && !Brings(r.payload, f)
    requires NewestCarrier(j, i, f).Some?
    ensures NewestCarrier(j[at := r], i, f) == NewestCarrier(j, i, f)
    ensures NewestCarrier(Append(j, at, r).value, i, f) == NewestCarrier(j, i, f) <==> !CarrierIsBetween(j, i, f)
  {
    var all, kept := j[at := r], Append(j, at, r).value;
    var c := NewestCarrier(j, i, f).value;
    assert c in Carriers(j, i, f) && Concerns(j[c], i);
    assert forall s :: Carries(all, i, f, s) <==> s in Carriers(j, i, f);
    CarrierIs(all, i, f, c);
    assert forall s :: Carries(kept, i, f, s) ==> Carries(all, i, f, s);
    CarrierDropped(j, at, r, i, c);
    if c in kept {
      CarrierIs(kept, i, f, c);
    } else {
      assert c !in Carriers(kept, i, f);
    }
  }

  lemma CarrierDropped(j: Journal, at: int, r: Row, i: ItemId, c: int)
    requires at !in j && IsToolUpdate(r, i) && NewerThanItem(j, at, i) && c in j && Concerns(j[c], i)
    ensures c !in Append(j, at, r).value <==>
      (IsToolUpdate(j[c], i) && exists first :: first in j && IsUpdate(j[first], i) && first < c)
  {
    var all := j[at := r];
    assert c < at;
    assert forall first :: first < c ==> (first in all && IsUpdate(all[first], i) <==> first in j && IsUpdate(j[first], i));
  }

  // ---------------------------------------------------------------- the event cap

  lemma NewerSet(j: Journal, s: int)
    requires s in j
    ensures UpTo(Pages.Newer, j.Keys, s) - {s} == set t | t in j && s < t
    ensures s in UpTo(Pages.Newer, j.Keys, s)
  {
  }

  lemma PlaceInListing(keys: set<int>, n: nat)
    requires n < |keys|
    ensures InOrder(Pages.Newer, keys)[n] in keys
    ensures |UpTo(Pages.Newer, keys, InOrder(Pages.Newer, keys)[n])| == n + 1
  {
    var all := InOrder(Pages.Newer, keys);
    Cut(Pages.Newer, keys, n + 1);
    assert all[n] in all;
    assert |all[..n + 1]| == n + 1;
  }

  /** A row's place from the newest end is the number of newer rows. */
  lemma NewerCount(j: Journal, n: nat)
    requires n < |InOrder(Pages.Newer, j.Keys)|
    ensures |set t | t in j && InOrder(Pages.Newer, j.Keys)[n] < t| == n
  {
    PlaceInListing(j.Keys, n);
    NewerSet(j, InOrder(Pages.Newer, j.Keys)[n]);
  }

  lemma CapIsPrefix(j: Journal, keep: nat)
    ensures NewestSeqs(j, keep) == Elements(InOrder(Pages.Newer, j.Keys)[..Least(keep, |j|)])
  {
    var all := InOrder(Pages.Newer, j.Keys);
    var k := Least(keep, |j|);
    forall s
      ensures s in NewestSeqs(j, keep) <==> s in all[..k]
    {
      if s in j {
        assert s in all;
        var n :| 0 <= n < |all| && all[n] == s;
        NewerCount(j, n);
        InOrderIsSorted(Pages.Newer, j.Keys);
        SortedOnce(Pages.Newer, all, n, k);
      } else {
        assert forall x :: x in all[..k] ==> x in all;
      }
    }
  }

  /** The cap keeps as many rows as it may, and no deleted row is newer than a kept one. */
  lemma CapKeepsTheNewest(j: Journal, keep: nat)
    ensures |Capped(j, keep)| == Least(keep, |j|)
    ensures forall s, t :: s in Capped(j, keep) && t in j && t !in Capped(j, keep) ==> t < s
    ensures forall s :: s in Capped(j, keep) ==> s in j && Capped(j, keep)[s] == j[s]
  {
    var all := InOrder(Pages.Newer, j.Keys);
    var k := Least(keep, |j|);
    InOrderIsSorted(Pages.Newer, j.Keys);
    CapIsPrefix(j, keep);
    SortedIsInOrder(Pages.Newer, all[..k]);
    assert Capped(j, keep).Keys == NewestSeqs(j, keep);
    assert |InOrder(Pages.Newer, Elements(all[..k]))| == |Elements(all[..k])|;
    forall s, t | s in Capped(j, keep) && t in j && t !in Capped(j, keep)
      ensures t < s
    {
      NewerFirst(all, k, s, t);
    }
  }

  lemma NewerFirst(all: seq<int>, k: nat, s: int, t: int)
    requires Sorted(Pages.Newer, all) && k <= |all| && s in all[..k] && t in all && t !in all[..k]
    ensures t < s
  {
    var a :| 0 <= a < k && all[..k][a] == s;
    var b :| 0 <= b < |all| && all[b] == t;
    assert forall m :: 0 <= m < k ==> all[..k][m] == all[m] && all[..k][m] in all[..k];
    assert Pages.Newer(all[a], all[b]);
  }
}
