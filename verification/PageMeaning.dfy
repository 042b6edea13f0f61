/**
 What the pages, the recent window and the history download hold, told by the rows of the table.
 */
module PageMeaning {
  import opened Basics
  import opened Downloads
  import opened Ordering
  import opened Pages

  /** A payload weighs what the table says, and a listing weighs what its parts weigh. */
  lemma TotalIsTheSum(t: Table, s: int, a: seq<int>, b: seq<int>)
    requires s in t
    ensures Total(t, []) == 0 && Total(t, [s]) == t[s] && Total(t, a + b) == Total(t, a) + Total(t, b)
  {
    TotalAppends(t, a, b);
  }

  predicate Rising(rows: seq<int>) {
    forall a, b :: 0 <= a < b < |rows| ==> rows[a] < rows[b]
  }

  predicate Falling(rows: seq<int>) {
    forall a, b :: 0 <= a < b < |rows| ==> rows[b] < rows[a]
  }

  lemma AscendingRises(s: set<int>)
    ensures Rising(Ascending(s)) && Falling(Descending(s))
  {
    OrdersAreTotal();
    InOrderIsSorted(Older, s);
    InOrderIsSorted(Newer, s);
    assert forall a, b :: 0 <= a < b < |Ascending(s)| ==> Older(Ascending(s)[a], Ascending(s)[b]);
    assert forall a, b :: 0 <= a < b < |Descending(s)| ==> Newer(Descending(s)[a], Descending(s)[b]);
  }

  lemma RangeRows(t: Table, low: int, past: int)
    ensures Rising(Ascending(InRange(t, low, past))) && Falling(Descending(InRange(t, low, past)))
    ensures forall s :: s in Ascending(InRange(t, low, past)) <==> s in t && low <= s < past
    ensures forall s :: s in Descending(InRange(t, low, past)) <==> s in t && low <= s < past
  {
    AscendingRises(InRange(t, low, past));
  }

  lemma SpanRows(t: Table, after: int, last: int)
    ensures Rising(Ascending(InSpan(t, after, last)))
    ensures forall s :: s in Ascending(InSpan(t, after, last)) <==> s in t && after < s <= last
  {
    AscendingRises(InSpan(t, after, last));
  }

  /** A row of the range is stored. */
  ghost predicate SomeRow(t: Table, low: int, past: int) {
    exists s :: s in t && low <= s < past
  }

  lemma SomeInRange(t: Table, low: int, past: int)
    ensures InRange(t, low, past) != {} <==> SomeRow(t, low, past)
    ensures InSpan(t, low, past) != {} <==> SomeRow(t, low + 1, past + 1)
  {
    RangeTest(t, low, past);
    SpanTest(t, low, past);
  }

  /** The rows from the oldest up to the bound, oldest first; more remain exactly when a row of the range
      is older still, and then the page has 8,000 rows or is past its budget. */
  ghost predicate IsOlderPage(t: Table, before: int, budget: nat, lowest: int, page: EventPage, oldest: int) {
    && oldest == (if page.events == [] then before else page.events[0])
    && Rising(page.events) && (forall s :: s in page.events <==> s in t && oldest <= s < before)
    && (SomeRow(t, lowest, before) ==> page.events != [] && lowest <= oldest)
    && (page.hasMore <==> SomeRow(t, lowest, oldest))
    && (page.events != [] ==> Total(t, page.events[1..]) <= budget)
    && (page.hasMore ==> |page.events| == 8_000 || budget < Total(t, page.events))
  }

  lemma OlderPageRows(t: Table, before: int, budget: nat, lowest: int) returns (oldest: int)
    ensures IsOlderPage(t, before, budget, lowest, EventsBefore(t, before, budget, lowest), oldest)
  {
    var page := EventsBefore(t, before, budget, lowest);
    oldest := if page.events == [] then before else page.events[0];
    OlderPage(t, before, budget, lowest);
    OlderIsOlder(t, before, budget, lowest, page, oldest);
  }

  lemma OlderIsOlder(t: Table, before: int, budget: nat, lowest: int, page: EventPage, oldest: int)
    requires oldest == if page.events == [] then before else page.events[0]
    requires page.events == Ascending(InRange(t, oldest, before))
    requires InRange(t, lowest, before) != {} ==> page.events != [] && lowest <= oldest
    requires page.hasMore <==> InRange(t, lowest, oldest) != {}
    requires page.events != [] ==> Total(t, page.events[1..]) <= budget
    requires page.hasMore ==> |page.events| == HISTORY_PAGE_ROW_CEILING || budget < Total(t, page.events)
    ensures IsOlderPage(t, before, budget, lowest, page, oldest)
  {
    RangeRows(t, oldest, before);
    SomeInRange(t, lowest, before);
    SomeInRange(t, lowest, oldest);
  }

  /** The same for the rows after the bound up to the newest. */
  ghost predicate IsNewerPage(t: Table, after: int, budget: nat, highest: int, page: EventPage, newest: int) {
    && newest == (if page.events == [] then after else page.events[|page.events| - 1])
    && Rising(page.events) && (forall s :: s in page.events <==> s in t && after < s <= newest)
    && (SomeRow(t, after + 1, highest + 1) ==> page.events != [] && newest <= highest)
    && (page.hasMore <==> SomeRow(t, newest + 1, highest + 1))
    && (page.events != [] ==> Total(t, page.events[..|page.events| - 1]) <= budget)
    && (page.hasMore ==> |page.events| == 8_000 || budget < Total(t, page.events))
  }

  lemma NewerPageRows(t: Table, after: int, budget: nat, highest: int) returns (newest: int)
    ensures IsNewerPage(t, after, budget, highest, EventsAfter(t, after, budget, highest), newest)
  {
    var page := EventsAfter(t, after, budget, highest);
    newest := if page.events == [] then after else page.events[|page.events| - 1];
    NewerPage(t, after, budget, highest);
    NewerIsNewer(t, after, budget, highest, page, newest);
  }

  lemma NewerIsNewer(t: Table, after: int, budget: nat, highest: int, page: EventPage, newest: int)
    requires newest == if page.events == [] then after else page.events[|page.events| - 1]
    requires page.events == Ascending(InSpan(t, after, newest))
    requires InSpan(t, after, highest) != {} ==> page.events != [] && newest <= highest
    requires page.hasMore <==> InSpan(t, newest, highest) != {}
    requires page.events != [] ==> Total(t, page.events[..|page.events| - 1]) <= budget
    requires page.hasMore ==> |page.events| == HISTORY_PAGE_ROW_CEILING || budget < Total(t, page.events)
    ensures IsNewerPage(t, after, budget, highest, page, newest)
  {
    SpanRows(t, after, newest);
    SomeInRange(t, after, highest);
    SomeInRange(t, newest, highest);
  }

  /** The recent window: every row from its oldest on, at most 2,000 of them. */
  lemma RecentRows(t: Table, budget: nat)
    ensures var events := RecentEvents(t, budget);
      && Rising(events) && |events| <= 2_000
      && (t != map[] ==> events != [])
      && (events != [] ==> Total(t, events[1..]) <= budget && forall s :: s in events <==> s in t && events[0] <= s)
      && (events != [] && (exists s :: s in t && s < events[0]) ==> |events| == 2_000 || budget < Total(t, events))
  {
    RecentIsNewest(t, budget);
    WindowIsShort(t, budget);
    var events := RecentEvents(t, budget);
    assert t == map[] <==> t.Keys == {};
    if events != [] {
      var oldest := events[0];
      AscendingRises(Since(t, oldest));
      if exists s :: s in t && s < oldest {
        var s :| s in t && s < oldest;
        ProperSubset(Since(t, oldest), t.Keys, s);
      }
    }
  }

  lemma WindowIsShort(t: Table, budget: nat)
    ensures |RecentEvents(t, budget)| <= 2_000
  {
    var walk := Descending(t.Keys);
    var looked := walk[..Least(WINDOW_ROW_CEILING, |walk|)];
    var n := Pages.AffordableIsPrefix(t, looked, 0, budget);
  }

  /** Walking by the pages' own ends lists the whole range, oldest first. */
  lemma WalkOlderRows(t: Table, before: int, budget: nat, lowest: int)
    ensures Rising(WalkOlder(t, before, budget, lowest))
    ensures forall s :: s in WalkOlder(t, before, budget, lowest) <==> s in t && lowest <= s < before
  {
    WalkOlderIsTheRange(t, before, budget, lowest);
    RangeRows(t, lowest, before);
  }

  lemma WalkNewerRows(t: Table, after: int, budget: nat, highest: int)
    ensures Rising(WalkNewer(t, after, budget, highest))
    ensures forall s :: s in WalkNewer(t, after, budget, highest) <==> s in t && after < s <= highest
  {
    WalkNewerIsTheRange(t, after, budget, highest);
    SpanRows(t, after, highest);
  }

  // ---------------------------------------------------------------- the download

  /** Some listing of exactly these rows. */
  ghost predicate Lists(rows: seq<int>, t: Table, from: int, past: int) {
    Falling(rows) && forall s :: s in rows <==> s in t && from <= s < past
  }

  /** What the totals query answers: both ends, the bytes of all rows, the bytes from a row on, and
      how many rows there are. */
  lemma FactsAre(t: Table, before: Option<int>, all: seq<int>, sent: seq<int>)
    requires Falling(all) && forall s :: s in all <==> s in t
    requires before.Some? ==> Falling(sent) && forall s :: s in sent <==> s in t && before.value <= s
    ensures var facts := FactsOf(t, before);
      && facts.rows == |all| && facts.total == Total(t, all)
      && facts.low == (if all == [] then None else Some(all[|all| - 1]))
      && facts.high == (if all == [] then None else Some(all[0]))
      && facts.covered == if before == None then 0 else Total(t, sent)
  {
    FallingIsDescending(t.Keys, all);
    if before.Some? {
      FallingIsDescending(AtLeast(t, before.value), sent);
    }
    EndsOf(t, all);
  }

  lemma EndsOf(t: Table, all: seq<int>)
    requires Falling(all) && forall s :: s in all <==> s in t
    ensures if all == [] then t.Keys == {} else t.Keys != {} && Max(t.Keys) == all[0] && Min(t.Keys) == all[|all| - 1]
  {
    if all != [] {
      var first, last := all[0], all[|all| - 1];
      assert first in t.Keys && last in t.Keys;
      forall s | s in t.Keys
        ensures last <= s <= first
      {
        assert s in all;
        var k :| 0 <= k < |all| && all[k] == s;
      }
    } else {
      assert forall s :: s !in t.Keys;
      HasMember(t.Keys);
    }
  }

  lemma FallingIsDescending(s: set<int>, listed: seq<int>)
    requires Falling(listed) && forall x :: x in listed <==> x in s
    ensures listed == Descending(s)
  {
    OrdersAreTotal();
    assert forall a, b :: 0 <= a < b < |listed| ==> Newer(listed[a], listed[b]);
    SortedIsInOrder(Newer, listed);
    forall x
      ensures x in Elements(listed) <==> x in s
    {
    }
    assert Elements(listed) == s;
  }

  /** One page of the download: the rows from its oldest up to the bound, newest first; the bound is the
      row asked for, or past the newest row. All but the oldest are within the budget, and a page stops
      early only at 8,000 rows or past it. */
  lemma DownloadPageRows(t: Table, low: int, high: int, before: Option<int>, budget: nat)
    ensures var rows := PageRows(t, low, high, before, budget);
      var past := if before.Some? && before.value <= high then before.value else high + 1;
      && (rows == [] <==> !SomeRow(t, low, past))
      && (rows != [] ==>
            && low <= rows[|rows| - 1] && Lists(rows, t, rows[|rows| - 1], past)
            && Total(t, rows[..|rows| - 1]) < (if budget == 0 then 1 else budget)
            && (|rows| == 8_000 || (budget <= Total(t, rows) && 0 < Total(t, rows))
                || forall s :: s in t && low <= s < past ==> s in rows))
  {
    PageShape(t, low, high, before, budget);
    var rows := PageRows(t, low, high, before, budget);
    var past := if before.Some? && before.value <= high then before.value else high + 1;
    SomeInRange(t, low, past);
    if rows != [] {
      RangeRows(t, rows[|rows| - 1], past);
    }
    StopsEarly(t, low, past, budget);
  }

  lemma StopsEarly(t: Table, low: int, past: int, budget: nat)
    ensures var rows := Window(t, Descending(InRange(t, low, past)), HISTORY_PAGE_ROW_CEILING, AtLeastOne(budget) - 1);
      || |rows| == 8_000 || (budget <= Total(t, rows) && 0 < Total(t, rows))
      || forall s :: s in t && low <= s < past ==> s in rows
  {
    var walk := Descending(InRange(t, low, past));
    var n := WindowIsPrefix(t, walk, HISTORY_PAGE_ROW_CEILING, AtLeastOne(budget) - 1);
    if n == |walk| {
      assert walk[..n] == walk;
      assert forall s :: s in t && low <= s < past ==> s in InRange(t, low, past);
    }
  }

  /** Chained pages send every row from the low bound up to the first bound once, newest first. */
  lemma DownloadLists(t: Table, low: int, high: int, before: Option<int>, budget: nat)
    ensures Lists(Download(t, low, high, before, budget), t, low,
                  if before.Some? && before.value <= high then before.value else high + 1)
  {
    DownloadIsTheRange(t, low, high, before, budget);
    RangeRows(t, low, Ceiling(high, before));
  }
}
