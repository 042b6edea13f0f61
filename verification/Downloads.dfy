/**
 The history download: totals, pages that carry a running covered count, and the finder of the
 sequences a saved copy is missing.
 */
module Downloads {
  import opened Basics
  import opened Ordering
  import opened Pages

  datatype DownloadFacts = DownloadFacts(low: Option<int>, high: Option<int>, total: nat, covered: nat, rows: nat)

  function AtLeast(t: Table, s: int): set<int> {
    set x | x in t && s <= x
  }

  function Bytes(t: Table, s: set<int>): nat {
    Total(t, Descending(s))
  }

  /** `history_download_facts`. */
  function FactsOf(t: Table, before: Option<int>): DownloadFacts {
    DownloadFacts(if t.Keys == {} then None else Some(Min(t.Keys)),
                  if t.Keys == {} then None else Some(Max(t.Keys)),
                  Bytes(t, t.Keys),
                  if before.None? then 0 else Bytes(t, AtLeast(t, before.value)),
                  |t.Keys|)
  }

  function Ceiling(high: int, before: Option<int>): int {
    if before.Some? && before.value <= high then before.value else high + 1
  }

  function AtLeastOne(n: nat): nat {
    if n == 0 then 1 else n
  }

  /** The rows of one download page, newest first: `spent < max(budget, 1)`. */
  function PageRows(t: Table, low: int, high: int, before: Option<int>, budget: nat): seq<int> {
    Window(t, Descending(InRange(t, low, Ceiling(high, before))), HISTORY_PAGE_ROW_CEILING, AtLeastOne(budget) - 1)
  }

  /** `SUM(...) OVER (ORDER BY seq DESC) + covered`, one value a row. */
  function RunningCovered(t: Table, events: seq<int>, covered: nat): seq<nat> {
    seq(|events|, k requires 0 <= k < |events| => covered + Total(t, events[..k + 1]))
  }

  datatype DownloadPage = DownloadPage(events: seq<int>, covered: nat)

  /** `history_download_rows`: the loop keeps the last row's running total. */
  method HistoryDownloadRows(t: Table, low: int, high: int, before: Option<int>, budget: nat, covered: nat)
    returns (page: DownloadPage)
    ensures page.events == PageRows(t, low, high, before, budget)
    ensures page.covered == covered + Total(t, page.events)
  {
    var rows := PageRows(t, low, high, before, budget);
    var columns := RunningCovered(t, rows, covered);
    page := DownloadPage([], covered);
    var k := 0;
    while k < |rows|
      invariant 0 <= k <= |rows|
      invariant page.events == rows[..k]
      invariant page.covered == covered + Total(t, rows[..k])
    {
      page := DownloadPage(page.events + [rows[k]], columns[k]);
      k := k + 1;
    }
    assert rows[..|rows|] == rows;
  }

  /** A page is the newest rows still to send: never empty while rows remain, and within the
      budget but for its oldest row. */
  lemma PageShape(t: Table, low: int, high: int, before: Option<int>, budget: nat)
    ensures var rows := PageRows(t, low, high, before, budget);
      var bound := Ceiling(high, before);
      && (rows == [] <==> InRange(t, low, bound) == {})
      && (rows != [] ==>
            var oldest := rows[|rows| - 1];
            && oldest in t && low <= oldest < bound
            && rows == Descending(InRange(t, oldest, bound))
            && Total(t, rows[..|rows| - 1]) < AtLeastOne(budget))
  {
    WindowShape(t, low, Ceiling(high, before), AtLeastOne(budget) - 1);
  }

  lemma WindowShape(t: Table, low: int, bound: int, budget: nat)
    ensures var rows := Window(t, Descending(InRange(t, low, bound)), HISTORY_PAGE_ROW_CEILING, budget);
      && (rows == [] <==> InRange(t, low, bound) == {})
      && (rows != [] ==>
            var oldest := rows[|rows| - 1];
            && oldest in t && low <= oldest < bound
            && rows == Descending(InRange(t, oldest, bound))
            && Total(t, rows[..|rows| - 1]) <= budget)
  {
    var walk := Descending(InRange(t, low, bound));
    var n := WindowIsPrefix(t, walk, HISTORY_PAGE_ROW_CEILING, budget);
    if n > 0 {
      CutOlder(t, low, bound, n);
      OnePart(walk, n);
    } else {
      EmptyWalk(walk, InRange(t, low, bound));
    }
  }

  lemma OnePart(walk: seq<int>, n: nat)
    requires 0 < n <= |walk|
    ensures walk[..n][..n - 1] == walk[..n - 1] && walk[..n][n - 1] == walk[n - 1]
  {
  }

  lemma BytesAdd(t: Table, newer: set<int>, older: set<int>)
    requires forall x, y :: x in newer && y in older ==> y < x
    ensures Bytes(t, newer + older) == Bytes(t, newer) + Bytes(t, older)
  {
    OrdersAreTotal();
    Split(Newer, newer, older);
    TotalAppends(t, Descending(newer), Descending(older));
  }

  /** The count a page reports is what the totals query answers for the page's oldest row, once
      the rows above the page are set aside. */
  lemma CoveredAgrees(t: Table, low: int, high: int, before: Option<int>, budget: nat)
    requires PageRows(t, low, high, before, budget) != []
    ensures var rows := PageRows(t, low, high, before, budget);
      FactsOf(t, Some(rows[|rows| - 1])).covered
        == Bytes(t, AtLeast(t, Ceiling(high, before))) + Total(t, rows)
  {
    PageShape(t, low, high, before, budget);
    var rows := PageRows(t, low, high, before, budget);
    var bound, oldest := Ceiling(high, before), rows[|rows| - 1];
    BytesAdd(t, AtLeast(t, bound), InRange(t, oldest, bound));
    assert AtLeast(t, bound) + InRange(t, oldest, bound) == AtLeast(t, oldest);
  }

  /** Everything above a row and everything below it make up the total. */
  lemma TotalSplits(t: Table, s: int)
    ensures FactsOf(t, None).total == FactsOf(t, Some(s)).covered + Bytes(t, set x | x in t && x < s)
  {
    var below := set x | x in t && x < s;
    BytesAdd(t, AtLeast(t, s), below);
    assert AtLeast(t, s) + below == t.Keys;
  }

  lemma NoBytes(t: Table, listed: seq<int>)
    requires forall s :: s in t ==> 0 < t[s]
    requires forall k :: 0 <= k < |listed| ==> listed[k] in t
    ensures Total(t, listed) == 0 <==> listed == []
  {
  }

  /** Chained pages: a page that starts from the covered count of the row before it ends on the
      covered count of its own oldest row, and reaches the total exactly when that row is the
      lowest stored one. Payloads are never empty. */
  lemma ChainedPage(t: Table, low: int, high: int, before: Option<int>, budget: nat, covered: nat)
    requires forall s :: s in t ==> 0 < t[s] && s <= high
    requires covered == FactsOf(t, before).covered
    requires PageRows(t, low, high, before, budget) != []
    ensures var rows := PageRows(t, low, high, before, budget);
      var oldest := rows[|rows| - 1];
      && covered + Total(t, rows) == FactsOf(t, Some(oldest)).covered
      && (covered + Total(t, rows) == FactsOf(t, None).total <==> oldest == Min(t.Keys))
  {
    CoveredAgrees(t, low, high, before, budget);
    PageShape(t, low, high, before, budget);
    var rows := PageRows(t, low, high, before, budget);
    var oldest := rows[|rows| - 1];
    var bound := Ceiling(high, before);
    assert AtLeast(t, bound) == if before.None? then {} else AtLeast(t, before.value);
    TotalSplits(t, oldest);
    NothingBelow(t, oldest);
  }

  lemma NothingBelow(t: Table, s: int)
    requires s in t && forall x :: x in t ==> 0 < t[x]
    ensures Bytes(t, set x | x in t && x < s) == 0 <==> s == Min(t.Keys)
  {
    var below := set x | x in t && x < s;
    assert forall k :: 0 <= k < |Descending(below)| ==> Descending(below)[k] in Descending(below);
    NoBytes(t, Descending(below));
    HasMember(below);
    assert s != Min(t.Keys) ==> Min(t.Keys) in below;
    assert below != {} ==> exists x :: x in below && Min(t.Keys) <= x;
  }

  lemma LessIsLeft(t: Table, low: int, high: int, before: Option<int>, budget: nat)
    requires PageRows(t, low, high, before, budget) != []
    ensures var rows := PageRows(t, low, high, before, budget);
      |InRange(t, low, Ceiling(high, Some(rows[|rows| - 1])))| < |InRange(t, low, Ceiling(high, before))|
  {
    PageShape(t, low, high, before, budget);
    var rows := PageRows(t, low, high, before, budget);
    ProperSubset(InRange(t, low, rows[|rows| - 1]), InRange(t, low, Ceiling(high, before)), rows[|rows| - 1]);
  }

  /** Ask for page after page, each before the oldest row of the one before, until one is empty. */
  function Download(t: Table, low: int, high: int, before: Option<int>, budget: nat): seq<int>
    decreases |InRange(t, low, Ceiling(high, before))|
  {
    var rows := PageRows(t, low, high, before, budget);
    if rows == [] then []
    else
      LessIsLeft(t, low, high, before, budget);
      rows + Download(t, low, high, Some(rows[|rows| - 1]), budget)
  }

  /** The download sends every row of the range exactly once, newest first. */
  lemma {:induction false} DownloadIsTheRange(t: Table, low: int, high: int, before: Option<int>, budget: nat)
    ensures Download(t, low, high, before, budget) == Descending(InRange(t, low, Ceiling(high, before)))
    decreases |InRange(t, low, Ceiling(high, before))|
  {
    PageShape(t, low, high, before, budget);
    var rows := PageRows(t, low, high, before, budget);
    var bound := Ceiling(high, before);
    if rows == [] {
      assert |InRange(t, low, bound)| == 0;
    } else {
      var oldest := rows[|rows| - 1];
      assert Ceiling(high, Some(oldest)) == oldest;
      ProperSubset(InRange(t, low, oldest), InRange(t, low, bound), oldest);
      DownloadIsTheRange(t, low, high, Some(oldest), budget);
      OrdersAreTotal();
      Split(Newer, InRange(t, oldest, bound), InRange(t, low, oldest));
      assert InRange(t, oldest, bound) + InRange(t, low, oldest) == InRange(t, low, bound);
    }
  }

  /** The count such a chain carries from page to page. */
  function RunningTotal(t: Table, low: int, high: int, before: Option<int>, budget: nat, covered: nat): nat
    decreases |InRange(t, low, Ceiling(high, before))|
  {
    var rows := PageRows(t, low, high, before, budget);
    if rows == [] then covered
    else
      LessIsLeft(t, low, high, before, budget);
      RunningTotal(t, low, high, Some(rows[|rows| - 1]), budget, covered + Total(t, rows))
  }

  lemma {:induction false} RunningTotalAdds(t: Table, low: int, high: int, before: Option<int>, budget: nat, covered: nat)
    ensures RunningTotal(t, low, high, before, budget, covered)
         == covered + Total(t, Download(t, low, high, before, budget))
    decreases |InRange(t, low, Ceiling(high, before))|
  {
    var rows := PageRows(t, low, high, before, budget);
    if rows != [] {
      var oldest := rows[|rows| - 1];
      LessIsLeft(t, low, high, before, budget);
      RunningTotalAdds(t, low, high, Some(oldest), budget, covered + Total(t, rows));
      TotalAppends(t, rows, Download(t, low, high, Some(oldest), budget));
    }
  }

  lemma WholeTable(t: Table, bound: int)
    requires t.Keys != {} && Min(t.Keys) <= bound
    ensures Bytes(t, AtLeast(t, bound)) + Bytes(t, InRange(t, Min(t.Keys), bound)) == Bytes(t, t.Keys)
  {
    var low := Min(t.Keys);
    BytesAdd(t, AtLeast(t, bound), InRange(t, low, bound));
    forall x
      ensures x in AtLeast(t, bound) + InRange(t, low, bound) <==> x in t.Keys
    {
    }
    assert AtLeast(t, bound) + InRange(t, low, bound) == t.Keys;
  }

  lemma CoveredAboveBound(t: Table, before: Option<int>)
    requires t.Keys != {} && (before.Some? ==> before.value <= Max(t.Keys) + 1)
    ensures FactsOf(t, before).covered == Bytes(t, AtLeast(t, Ceiling(Max(t.Keys), before)))
  {
    if before.None? {
      assert AtLeast(t, Max(t.Keys) + 1) == {};
      assert Bytes(t, {}) == 0;
    }
  }

  /** A chain that starts from the facts of a table ends on its total, whatever the page size,
      and resumed from any row it ends there too. */
  lemma DownloadReachesTheTotal(t: Table, before: Option<int>, budget: nat)
    requires t.Keys != {} && (before.Some? ==> Min(t.Keys) <= before.value <= Max(t.Keys) + 1)
    ensures var facts := FactsOf(t, before);
      RunningTotal(t, facts.low.value, facts.high.value, before, budget, facts.covered) == facts.total
  {
    var low, high := Min(t.Keys), Max(t.Keys);
    var bound := Ceiling(high, before);
    RunningTotalAdds(t, low, high, before, budget, FactsOf(t, before).covered);
    DownloadIsTheRange(t, low, high, before, budget);
    CoveredAboveBound(t, before);
    WholeTable(t, bound);
  }
}
