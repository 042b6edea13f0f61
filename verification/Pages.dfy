/**
 Byte-budgeted windows over a journal: older and newer pages, the recent window, and the
 history download. A table maps each stored sequence to the length of its payload.
 */
module Pages {
  import opened Basics
  import opened Ordering

  type Table = map<int, nat>

  const HISTORY_PAGE_ROW_CEILING: nat := 8000
  const WINDOW_ROW_CEILING: nat := 2000

  predicate Newer(a: int, b: int) { a > b }

  predicate Older(a: int, b: int) { a < b }

  lemma OrdersAreTotal()
    ensures StrictTotal(Newer) && StrictTotal(Older)
  {
  }

  /** `ORDER BY seq DESC` and `ORDER BY seq ASC`. */
  function Descending(s: set<int>): (listed: seq<int>)
    ensures |listed| == |s|
    ensures forall x :: x in listed <==> x in s
  {
    OrdersAreTotal();
    InOrder(Newer, s)
  }

  function Ascending(s: set<int>): (listed: seq<int>)
    ensures |listed| == |s|
    ensures forall x :: x in listed <==> x in s
  {
    OrdersAreTotal();
    InOrder(Older, s)
  }

  function Weight(t: Table, s: int): nat {
    if s in t then t[s] else 0
  }

  function Total(t: Table, listed: seq<int>): nat {
    if listed == [] then 0 else Weight(t, listed[0]) + Total(t, listed[1..])
  }

  lemma {:induction false} TotalAppends(t: Table, a: seq<int>, b: seq<int>)
    ensures Total(t, a + b) == Total(t, a) + Total(t, b)
  {
    if a == [] {
      assert a + b == b;
    } else {
      assert (a + b)[1..] == a[1..] + b;
      TotalAppends(t, a[1..], b);
    }
  }

  /** The window: rows in walking order whose preceding rows fit the budget. */
  function Affordable(t: Table, walk: seq<int>, spent: nat, budget: nat): seq<int> {
    if walk == [] then []
    else
      (if spent <= budget then [walk[0]] else []) + Affordable(t, walk[1..], spent + Weight(t, walk[0]), budget)
  }

  function Window(t: Table, walk: seq<int>, ceiling: nat, budget: nat): seq<int> {
    Affordable(t, walk[..Least(ceiling, |walk|)], 0, budget)
  }

  /** Once the running total is past the budget nothing more is returned. */
  lemma {:induction false} Spent(t: Table, walk: seq<int>, spent: nat, budget: nat)
    requires budget < spent
    ensures Affordable(t, walk, spent, budget) == []
  {
    if walk != [] {
      Spent(t, walk[1..], spent + Weight(t, walk[0]), budget);
    }
  }

  /** The filter on the running total keeps a prefix: all of it but its last row fits the
      budget, and it stops only when the budget is passed. */
  lemma {:induction false} AffordableIsPrefix(t: Table, walk: seq<int>, spent: nat, budget: nat) returns (n: nat)
    requires spent <= budget
    ensures n <= |walk| && Affordable(t, walk, spent, budget) == walk[..n]
    ensures walk != [] ==> 0 < n && spent + Total(t, walk[..n - 1]) <= budget
    ensures n < |walk| ==> budget < spent + Total(t, walk[..n])
  {
    if walk == [] {
      n := 0;
    } else {
      var cost := spent + Weight(t, walk[0]);
      if cost <= budget {
        var m := AffordableIsPrefix(t, walk[1..], cost, budget);
        n := m + 1;
        assert walk[..n] == [walk[0]] + walk[1..][..m];
        assert walk[..n - 1] == if m == 0 then [] else [walk[0]] + walk[1..][..m - 1];
      } else {
        n := 1;
        Spent(t, walk[1..], cost, budget);
        assert walk[..1] == [walk[0]];
      }
    }
  }

  lemma WindowIsPrefix(t: Table, walk: seq<int>, ceiling: nat, budget: nat) returns (n: nat)
    requires 0 < ceiling
    ensures n <= |walk| && Window(t, walk, ceiling, budget) == walk[..n]
    ensures walk != [] ==> 0 < n && Total(t, walk[..n - 1]) <= budget
    ensures n < |walk| ==> n == ceiling || budget < Total(t, walk[..n])
  {
    var looked := walk[..Least(ceiling, |walk|)];
    n := AffordableIsPrefix(t, looked, 0, budget);
    assert looked[..n] == walk[..n];
    assert 0 < n ==> looked[..n - 1] == walk[..n - 1];
  }

  // ---------------------------------------------------------------- older and newer pages

  datatype EventPage = EventPage(events: seq<int>, hasMore: bool)

  function InRange(t: Table, low: int, past: int): set<int> {
    set s | s in t && low <= s < past
  }

  /** The rows after one sequence and up to another. */
  function InSpan(t: Table, after: int, last: int): set<int> {
    set s | s in t && after < s <= last
  }

  lemma RangeTest(t: Table, low: int, past: int)
    ensures InRange(t, low, past) != {} <==> exists s :: s in t && low <= s && s < past
  {
    HasMember(InRange(t, low, past));
    if s :| s in t && low <= s && s < past {
      assert s in InRange(t, low, past);
    }
  }

  lemma SpanTest(t: Table, after: int, last: int)
    ensures InSpan(t, after, last) != {} <==> exists s :: s in t && after < s && s <= last
  {
    HasMember(InSpan(t, after, last));
    if s :| s in t && after < s && s <= last {
      assert s in InSpan(t, after, last);
    }
  }

  function Reversed<T>(s: seq<T>): (r: seq<T>)
    ensures |r| == |s|
  {
    if s == [] then [] else Reversed(s[1..]) + [s[0]]
  }

  lemma {:induction false} ReversedAppends<T>(a: seq<T>, b: seq<T>)
    ensures Reversed(a + b) == Reversed(b) + Reversed(a)
  {
    if a == [] {
      assert a + b == b;
    } else {
      assert (a + b)[1..] == a[1..] + b;
      ReversedAppends(a[1..], b);
    }
  }

  lemma {:induction false} ReversedAt<T>(s: seq<T>, k: nat)
    requires k < |s|
    ensures Reversed(s)[k] == s[|s| - 1 - k]
  {
    if k < |s| - 1 {
      ReversedAt(s[1..], k);
    }
  }

  /** The page's rows come back oldest first. */
  lemma BackwardsIsAscending(s: set<int>)
    ensures Reversed(Descending(s)) == Ascending(s)
  {
    OrdersAreTotal();
    InOrderIsSorted(Newer, s);
    var down, up := Descending(s), Reversed(Descending(s));
    forall i, j | 0 <= i < j < |up|
      ensures Older(up[i], up[j])
    {
      ReversedAt(down, i);
      ReversedAt(down, j);
      assert Newer(down[|s| - 1 - j], down[|s| - 1 - i]);
    }
    SortedIsInOrder(Older, up);
    forall x
      ensures x in Elements(up) <==> x in s
    {
      SameMembers(down, x);
    }
    assert Elements(up) == s;
  }

  lemma SameMembers<T>(s: seq<T>, x: T)
    ensures x in Reversed(s) <==> x in s
  {
    if x in s {
      var k :| 0 <= k < |s| && s[k] == x;
      ReversedAt(s, |s| - 1 - k);
    }
    if x in Reversed(s) {
      var k :| 0 <= k < |s| && Reversed(s)[k] == x;
      ReversedAt(s, k);
    }
  }

  /** `list_events_before`. */
  function EventsBefore(t: Table, before: int, budget: nat, lowest: int): EventPage {
    var events := Reversed(Window(t, Descending(InRange(t, lowest, before)), HISTORY_PAGE_ROW_CEILING, budget));
    var oldest := if events == [] then before else events[0];
    EventPage(events, exists s :: s in t && s < oldest && lowest <= s)
  }

  /** `list_events_after`. */
  function EventsAfter(t: Table, after: int, budget: nat, highest: int): EventPage {
    var events := Window(t, Ascending(InSpan(t, after, highest)), HISTORY_PAGE_ROW_CEILING, budget);
    var newest := if events == [] then after else events[|events| - 1];
    EventPage(events, exists s :: s in t && newest < s && s <= highest)
  }

  /** `query_recent_events`. */
  function RecentEvents(t: Table, budget: nat): seq<int> {
    Reversed(Window(t, Descending(t.Keys), WINDOW_ROW_CEILING, budget))
  }

  lemma CutOlder(t: Table, lowest: int, before: int, n: nat)
    requires 0 < n <= |InRange(t, lowest, before)|
    ensures var walk := Descending(InRange(t, lowest, before));
      && walk[n - 1] in t && lowest <= walk[n - 1] < before
      && walk[..n] == Descending(InRange(t, walk[n - 1], before))
      && walk[n..] == Descending(InRange(t, lowest, walk[n - 1]))
  {
    OrdersAreTotal();
    var all := InRange(t, lowest, before);
    var oldest := Descending(all)[n - 1];
    assert oldest in Descending(all);
    assert oldest in all;
    NewerSides(t, lowest, before, oldest);
    Cut(Newer, all, n);
  }

  lemma NewerSides(t: Table, lowest: int, before: int, oldest: int)
    requires lowest <= oldest < before
    ensures UpTo(Newer, InRange(t, lowest, before), oldest) == InRange(t, oldest, before)
    ensures Past(Newer, InRange(t, lowest, before), oldest) == InRange(t, lowest, oldest)
  {
  }

  /** One older page is the newest rows of its range, oldest first: all but the oldest fit the
      budget, it stops early only at the row ceiling or past the budget, a range that is not
      empty gives a page that is not empty, and `has_more` says exactly whether rows remain. */
  lemma OlderPage(t: Table, before: int, budget: nat, lowest: int)
    ensures var page := EventsBefore(t, before, budget, lowest);
      var oldest := if page.events == [] then before else page.events[0];
      && page.events == Ascending(InRange(t, oldest, before))
      && (InRange(t, lowest, before) != {} ==> page.events != [] && lowest <= oldest < before && oldest in t)
      && (page.hasMore <==> InRange(t, lowest, oldest) != {})
      && (page.events != [] ==> Total(t, page.events[1..]) <= budget)
      && (page.hasMore ==> |page.events| == HISTORY_PAGE_ROW_CEILING || budget < Total(t, page.events))
  {
    var walk := Descending(InRange(t, lowest, before));
    var n := WindowIsPrefix(t, walk, HISTORY_PAGE_ROW_CEILING, budget);
    var events := EventsBefore(t, before, budget, lowest).events;
    if n > 0 {
      OlderPageParts(t, lowest, before, n);
      RangeTest(t, lowest, walk[n - 1]);
    } else {
      EmptyWalk(walk, InRange(t, lowest, before));
      assert InRange(t, before, before) == {};
      RangeTest(t, lowest, before);
    }
  }

  /** The first `n` rows of the downward walk, turned round. */
  lemma OlderPageParts(t: Table, lowest: int, before: int, n: nat)
    requires 0 < n <= |InRange(t, lowest, before)|
    ensures var walk := Descending(InRange(t, lowest, before));
      var events := Reversed(walk[..n]);
      && walk[n - 1] in t && lowest <= walk[n - 1] < before
      && |events| == n && events[0] == walk[n - 1] && events == Ascending(InRange(t, walk[n - 1], before))
      && Total(t, events) == Total(t, walk[..n]) && Total(t, events[1..]) == Total(t, walk[..n - 1])
      && (n < |walk| <==> InRange(t, lowest, walk[n - 1]) != {})
  {
    var walk := Descending(InRange(t, lowest, before));
    ReversedAt(walk[..n], 0);
    CutOlder(t, lowest, before, n);
    BackwardsIsAscending(InRange(t, walk[n - 1], before));
    ReversedTail(t, walk[..n]);
    assert walk[..n][..n - 1] == walk[..n - 1];
    MoreRemains(walk, n, Descending(InRange(t, lowest, walk[n - 1])), InRange(t, lowest, walk[n - 1]));
  }

  lemma EmptyWalk(walk: seq<int>, s: set<int>)
    requires walk == [] && |walk| == |s|
    ensures s == {}
  {
  }

  lemma {:induction false} ReversedTotal(t: Table, s: seq<int>)
    ensures Total(t, Reversed(s)) == Total(t, s)
  {
    if s != [] {
      ReversedTotal(t, s[1..]);
      TotalAppends(t, Reversed(s[1..]), [s[0]]);
    }
  }

  lemma ReversedTail(t: Table, s: seq<int>)
    requires s != []
    ensures Reversed(s)[1..] == Reversed(s[..|s| - 1])
    ensures Total(t, Reversed(s)[1..]) == Total(t, s[..|s| - 1]) && Total(t, Reversed(s)) == Total(t, s)
  {
    var front := s[..|s| - 1];
    assert s == front + [s[|s| - 1]];
    ReversedAppends(front, [s[|s| - 1]]);
    assert Reversed([s[|s| - 1]]) == [s[|s| - 1]];
    ReversedTotal(t, front);
    ReversedTotal(t, s);
  }

  lemma CutNewer(t: Table, after: int, highest: int, n: nat)
    requires 0 < n <= |InSpan(t, after, highest)|
    ensures var walk := Ascending(InSpan(t, after, highest));
      && walk[n - 1] in t && after < walk[n - 1] <= highest
      && walk[..n] == Ascending(InSpan(t, after, walk[n - 1]))
      && walk[n..] == Ascending(InSpan(t, walk[n - 1], highest))
  {
    OrdersAreTotal();
    var all := InSpan(t, after, highest);
    var newest := Ascending(all)[n - 1];
    assert newest in Ascending(all);
    assert newest in all;
    OlderSides(t, after, highest, newest);
    Cut(Older, all, n);
  }

  lemma OlderSides(t: Table, after: int, highest: int, newest: int)
    requires after < newest <= highest
    ensures UpTo(Older, InSpan(t, after, highest), newest) == InSpan(t, after, newest)
    ensures Past(Older, InSpan(t, after, highest), newest) == InSpan(t, newest, highest)
  {
  }

  /** The first `n` rows of the upward walk. */
  lemma NewerPageParts(t: Table, after: int, highest: int, n: nat)
    requires 0 < n <= |InSpan(t, after, highest)|
    ensures var walk := Ascending(InSpan(t, after, highest));
      && walk[..n][..n - 1] == walk[..n - 1]
      && (n < |walk| <==> InSpan(t, walk[n - 1], highest) != {})
  {
    CutNewer(t, after, highest, n);
    var walk := Ascending(InSpan(t, after, highest));
    MoreRemains(walk, n, Ascending(InSpan(t, walk[n - 1], highest)), InSpan(t, walk[n - 1], highest));
  }

  lemma MoreRemains(walk: seq<int>, n: nat, rest: seq<int>, s: set<int>)
    requires n <= |walk| && walk[n..] == rest && |rest| == |s|
    ensures n < |walk| <==> s != {}
  {
    assert |walk[n..]| == |walk| - n;
  }

  /** One newer page, in the same terms. */
  lemma NewerPage(t: Table, after: int, budget: nat, highest: int)
    ensures var page := EventsAfter(t, after, budget, highest);
      var newest := if page.events == [] then after else page.events[|page.events| - 1];
      && page.events == Ascending(InSpan(t, after, newest))
      && (InSpan(t, after, highest) != {} ==> page.events != [] && after < newest <= highest && newest in t)
      && (page.hasMore <==> InSpan(t, newest, highest) != {})
      && (page.events != [] ==> Total(t, page.events[..|page.events| - 1]) <= budget)
      && (page.hasMore ==> |page.events| == HISTORY_PAGE_ROW_CEILING || budget < Total(t, page.events))
  {
    var walk := Ascending(InSpan(t, after, highest));
    var n := WindowIsPrefix(t, walk, HISTORY_PAGE_ROW_CEILING, budget);
    if n > 0 {
      CutNewer(t, after, highest, n);
      NewerPageParts(t, after, highest, n);
      SpanTest(t, walk[n - 1], highest);
    } else {
      EmptyWalk(walk, InSpan(t, after, highest));
      assert InSpan(t, after, after) == {};
      SpanTest(t, after, highest);
    }
  }

  // ---------------------------------------------------------------- whole walks

  /** Scroll up until `has_more` is false, putting each older page in front. */
  function WalkOlder(t: Table, before: int, budget: nat, lowest: int): seq<int>
    decreases |InRange(t, lowest, before)|
  {
    var page := EventsBefore(t, before, budget, lowest);
    if !page.hasMore then page.events
    else
      OlderPageShrinks(t, before, budget, lowest);
      WalkOlder(t, page.events[0], budget, lowest) + page.events
  }

  function WalkNewer(t: Table, after: int, budget: nat, highest: int): seq<int>
    decreases |InSpan(t, after, highest)|
  {
    var page := EventsAfter(t, after, budget, highest);
    if !page.hasMore then page.events
    else
      NewerPageShrinks(t, after, budget, highest);
      page.events + WalkNewer(t, page.events[|page.events| - 1], budget, highest)
  }

  lemma ProperSubset(a: set<int>, b: set<int>, x: int)
    requires a <= b && x in b && x !in a
    ensures |a| < |b|
  {
    assert a <= b - {x};
    Fewer(a, b - {x});
  }

  lemma {:induction false} Fewer(a: set<int>, b: set<int>)
    requires a <= b
    ensures |a| <= |b|
  {
    HasMember(a);
    if a != {} {
      var x :| x in a;
      Fewer(a - {x}, b - {x});
    }
  }

  lemma OlderPageShrinks(t: Table, before: int, budget: nat, lowest: int)
    requires EventsBefore(t, before, budget, lowest).hasMore
    ensures var events := EventsBefore(t, before, budget, lowest).events;
      events != [] && |InRange(t, lowest, events[0])| < |InRange(t, lowest, before)|
  {
    OlderPage(t, before, budget, lowest);
    var events := EventsBefore(t, before, budget, lowest).events;
    var s :| s in t && s < (if events == [] then before else events[0]) && lowest <= s;
    assert s in InRange(t, lowest, before);
    ProperSubset(InRange(t, lowest, events[0]), InRange(t, lowest, before), events[0]);
  }

  lemma NewerPageShrinks(t: Table, after: int, budget: nat, highest: int)
    requires EventsAfter(t, after, budget, highest).hasMore
    ensures var events := EventsAfter(t, after, budget, highest).events;
      events != [] && |InSpan(t, events[|events| - 1], highest)| < |InSpan(t, after, highest)|
  {
    NewerPage(t, after, budget, highest);
    var events := EventsAfter(t, after, budget, highest).events;
    var newest := if events == [] then after else events[|events| - 1];
    var s :| s in t && newest < s && s <= highest;
    assert s in InSpan(t, after, highest);
    ProperSubset(InSpan(t, newest, highest), InSpan(t, after, highest), newest);
  }

  /** Two neighbouring ranges list one after the other. */
  lemma RangesJoin(t: Table, low: int, mid: int, past: int)
    requires low <= mid <= past
    ensures Ascending(InRange(t, low, past)) == Ascending(InRange(t, low, mid)) + Ascending(InRange(t, mid, past))
  {
    OrdersAreTotal();
    Split(Older, InRange(t, low, mid), InRange(t, mid, past));
    assert InRange(t, low, mid) + InRange(t, mid, past) == InRange(t, low, past);
  }

  lemma SpansJoin(t: Table, after: int, mid: int, last: int)
    requires after <= mid <= last
    ensures Ascending(InSpan(t, after, last)) == Ascending(InSpan(t, after, mid)) + Ascending(InSpan(t, mid, last))
  {
    OrdersAreTotal();
    Split(Older, InSpan(t, after, mid), InSpan(t, mid, last));
    assert InSpan(t, after, mid) + InSpan(t, mid, last) == InSpan(t, after, last);
  }

  /** Walking older pages visits every event of the range exactly once and in order. */
  lemma {:induction false} WalkOlderIsTheRange(t: Table, before: int, budget: nat, lowest: int)
    ensures WalkOlder(t, before, budget, lowest) == Ascending(InRange(t, lowest, before))
    decreases |InRange(t, lowest, before)|
  {
    OlderPage(t, before, budget, lowest);
    var page := EventsBefore(t, before, budget, lowest);
    var oldest := if page.events == [] then before else page.events[0];
    if page.hasMore {
      OlderPageShrinks(t, before, budget, lowest);
      WalkOlderIsTheRange(t, oldest, budget, lowest);
      RangesJoin(t, lowest, oldest, before);
    } else if page.events != [] {
      assert InRange(t, oldest, before) == InRange(t, lowest, before) by {
        assert forall s :: s in InRange(t, lowest, before) && s < oldest ==> s in InRange(t, lowest, oldest);
      }
    } else {
      assert InRange(t, lowest, before) == {} == InRange(t, oldest, before);
    }
  }

  /** Walking newer pages does the same. */
  lemma {:induction false} WalkNewerIsTheRange(t: Table, after: int, budget: nat, highest: int)
    ensures WalkNewer(t, after, budget, highest) == Ascending(InSpan(t, after, highest))
    decreases |InSpan(t, after, highest)|
  {
    NewerPage(t, after, budget, highest);
    var page := EventsAfter(t, after, budget, highest);
    var newest := if page.events == [] then after else page.events[|page.events| - 1];
    if page.hasMore {
      NewerPageShrinks(t, after, budget, highest);
      WalkNewerIsTheRange(t, newest, budget, highest);
      SpansJoin(t, after, newest, highest);
    } else if page.events != [] {
      assert InSpan(t, after, newest) == InSpan(t, after, highest) by {
        assert forall s :: s in InSpan(t, after, highest) && newest < s ==> s in InSpan(t, newest, highest);
      }
    } else {
      assert InSpan(t, after, highest) == {} == InSpan(t, after, newest);
    }
  }

  function Since(t: Table, oldest: int): set<int> {
    set s | s in t && oldest <= s
  }

  /** The recent window is the newest end of the journal under the same budget rule. */
  lemma RecentIsNewest(t: Table, budget: nat)
    ensures var events := RecentEvents(t, budget);
      && (t.Keys != {} ==> events != [])
      && (events != [] ==>
            && events == Ascending(Since(t, events[0]))
            && Total(t, events[1..]) <= budget
            && (|events| < |t.Keys| ==> |events| == WINDOW_ROW_CEILING || budget < Total(t, events)))
  {
    var walk := Descending(t.Keys);
    var n := WindowIsPrefix(t, walk, WINDOW_ROW_CEILING, budget);
    if n > 0 {
      var low, past := walk[|walk| - 1], Newest(t.Keys) + 1;
      WholeRange(t, low);
      OlderPageParts(t, low, past, n);
      assert InRange(t, walk[n - 1], past) == Since(t, walk[n - 1]);
    } else {
      EmptyWalk(walk, t.Keys);
    }
  }

  function Newest(s: set<int>): int
    requires |s| != 0
  {
    Max(s)
  }

  lemma WholeRange(t: Table, low: int)
    requires |t.Keys| != 0 && low == Descending(t.Keys)[|Descending(t.Keys)| - 1]
    ensures InRange(t, low, Newest(t.Keys) + 1) == t.Keys
  {
    OrdersAreTotal();
    InOrderIsSorted(Newer, t.Keys);
    var walk := Descending(t.Keys);
    forall s | s in t
      ensures low <= s
    {
      assert s in walk;
      var k :| 0 <= k < |walk| && walk[k] == s;
    }
  }
}
