/**
 Walks over item pages: what chained pages show, and tables in which they show less.
 */
module ItemWalks {
  import opened Basics
  import opened Budget
  import opened ItemPage
  import opened ItemRows
  import opened Ordering

  // ---------------------------------------------------------------- whole walks

  /** The page's cursor is its farthest first sequence. */
  lemma CursorIsFarthest(dir: Direction, spots: seq<Spot>)
    requires spots != [] && Sorted(By(dir), spots)
    ensures CursorOf(dir, spots) == Some(spots[|spots| - 1].first)
  {
    var last := spots[|spots| - 1];
    assert last.first in Firsts(spots);
    forall x | x in Firsts(spots)
      ensures x == last.first || Beyond(dir, last.first, x)
    {
      var k :| 0 <= k < |spots| && spots[k].first == x;
      assert k < |spots| - 1 ==> By(dir)(spots[k], last);
    }
  }

  /** What remains beyond a page's cursor is what the page did not show. */
  lemma PageThenRest(v: Events, dir: Direction, cursor: int, n: nat)
    requires DistinctFirsts(v)
    requires 0 < n <= |Listing(v, dir, cursor)|
    ensures var all := Listing(v, dir, cursor);
      && CursorOf(dir, all[..n]) == Some(all[n - 1].first)
      && ItemsBeyond(v, dir, cursor) == Elements(all[..n]) + ItemsBeyond(v, dir, all[n - 1].first)
      && forall d :: d in all[..n] ==> !Beyond(dir, d.first, all[n - 1].first)
  {
    ByIsTotal(dir);
    var all := Listing(v, dir, cursor);
    var last := all[n - 1];
    InOrderIsSorted(By(dir), ItemsBeyond(v, dir, cursor));
    CursorIsFarthest(dir, all[..n]);
    assert last in all;
    forall d | d in ItemsBeyond(v, dir, cursor)
      ensures d in all[..n] <==> !Beyond(dir, d.first, last.first)
    {
      assert d in all;
      OnThePage(dir, all, n, d);
    }
    assert forall d :: d in all[..n] ==> d in all;
  }

  lemma OnThePage(dir: Direction, all: seq<Spot>, n: nat, d: Spot)
    requires StrictTotal(By(dir)) && Sorted(By(dir), all) && 0 < n <= |all| && d in all
    requires forall e :: e in all && e.first == d.first ==> e == d
    ensures d in all[..n] <==> !Beyond(dir, d.first, all[n - 1].first)
  {
    var last := all[n - 1];
    SideOf(By(dir), all, n, d);
    assert last in all;
    assert By(dir)(last, d) || d == last || By(dir)(d, last);
  }

  /** Ask for page after page from the cursor of the one before, and put each on its side of
      what is already there. */
  function Walk(v: Events, dir: Direction, cursor: int, budget: nat): seq<Spot>
    decreases |ItemsBeyond(v, dir, cursor)|
  {
    var selected := Selected(v, dir, cursor, ITEM_PAGE_CANDIDATE_CEILING, budget);
    if selected == [] then []
    else
      NextIsSmaller(v, dir, cursor, budget);
      ByIsTotal(After);
      var shown := InOrder(Ascends, Elements(selected));
      var rest := Walk(v, dir, CursorOf(dir, selected).value, budget);
      if dir == Before then rest + shown else shown + rest
  }

  lemma NextIsSmaller(v: Events, dir: Direction, cursor: int, budget: nat)
    requires Selected(v, dir, cursor, ITEM_PAGE_CANDIDATE_CEILING, budget) != []
    ensures var next := CursorOf(dir, Selected(v, dir, cursor, ITEM_PAGE_CANDIDATE_CEILING, budget));
      next.Some? && |ItemsBeyond(v, dir, next.value)| < |ItemsBeyond(v, dir, cursor)|
  {
    var selected := Selected(v, dir, cursor, ITEM_PAGE_CANDIDATE_CEILING, budget);
    SelectedAreItems(v, dir, cursor, ITEM_PAGE_CANDIDATE_CEILING, budget);
    var k := CursorIsAMember(dir, selected);
    assert selected[k] in selected;
    BeyondIsSmaller(v, dir, cursor, selected[k]);
  }

  lemma CursorIsAMember(dir: Direction, spots: seq<Spot>) returns (k: nat)
    requires spots != []
    ensures k < |spots| && CursorOf(dir, spots) == Some(spots[k].first)
  {
    assert spots[0].first in Firsts(spots);
    k :| 0 <= k < |spots| && spots[k].first == CursorOf(dir, spots).value;
  }

  lemma BeyondIsSmaller(v: Events, dir: Direction, cursor: int, d: Spot)
    requires d in ItemsBeyond(v, dir, cursor)
    ensures |ItemsBeyond(v, dir, d.first)| < |ItemsBeyond(v, dir, cursor)|
  {
    var all, rest := ItemsBeyond(v, dir, cursor), ItemsBeyond(v, dir, d.first);
    assert rest <= all - {d};
    SubsetIsSmaller(rest, all - {d});
  }

  /** An item that its source does not offer comes after everything the page could show. */
  ghost predicate NothingPassedOver(v: Events) {
    forall dir, cursor, d ::
      d in ItemsBeyond(v, dir, cursor) && !Offered(v, dir, cursor, ITEM_PAGE_CANDIDATE_CEILING, d) ==>
        LeftForLater(v, dir, cursor, d)
  }

  predicate LeftForLater(v: Events, dir: Direction, cursor: int, d: Spot) {
    var found := Candidates(v, dir, cursor, ITEM_PAGE_CANDIDATE_CEILING);
    found != [] && forall e :: e in found ==> By(dir)(e, d)
  }

  /** Then the candidates are the nearest items, as many as they are, and there are some. */
  lemma CandidatesAreListed(v: Events, dir: Direction, cursor: int)
    requires NothingPassedOver(v)
    ensures var found, all := Candidates(v, dir, cursor, ITEM_PAGE_CANDIDATE_CEILING), Listing(v, dir, cursor);
      |found| <= |all| && found == all[..|found|] && (all != [] ==> found != [])
  {
    ByIsTotal(dir);
    var merged, all := Merged(v, dir, cursor, ITEM_PAGE_CANDIDATE_CEILING), ItemsBeyond(v, dir, cursor);
    MergedAreItems(v, dir, cursor, ITEM_PAGE_CANDIDATE_CEILING);
    TopIsNext(By(dir), merged, ITEM_PAGE_CANDIDATE_CEILING);
    forall d | d in all && d !in merged
      ensures LeftForLater(v, dir, cursor, d)
    {
      MergedAreTheOffered(v, dir, cursor, ITEM_PAGE_CANDIDATE_CEILING, d);
    }
    OthersComeAfter(By(dir), merged, all, ITEM_PAGE_CANDIDATE_CEILING);
    TopOfPart(By(dir), merged, all, ITEM_PAGE_CANDIDATE_CEILING);
    if Listing(v, dir, cursor) != [] {
      assert Listing(v, dir, cursor)[0] in Listing(v, dir, cursor);
      assert Listing(v, dir, cursor)[0] in merged ==> |merged| != 0;
    }
  }

  lemma PageIsListed(v: Events, dir: Direction, cursor: int, budget: nat) returns (n: nat)
    requires NothingPassedOver(v)
    ensures var all := Listing(v, dir, cursor);
      n <= |all| && Selected(v, dir, cursor, ITEM_PAGE_CANDIDATE_CEILING, budget) == all[..n] && (all != [] ==> 0 < n)
  {
    CandidatesAreListed(v, dir, cursor);
    var found := Candidates(v, dir, cursor, ITEM_PAGE_CANDIDATE_CEILING);
    n := PageIsBudgetPrefix(v, dir, cursor, ITEM_PAGE_CANDIDATE_CEILING, budget);
    PrefixOfPrefix(Listing(v, dir, cursor), |found|, n);
  }

  /** Named starts pass nothing over. */
  lemma NamedPassNothingOver(v: Events)
    requires Named(v) && DistinctFirsts(v)
    ensures NothingPassedOver(v)
  {
    forall dir, cursor, d | d in ItemsBeyond(v, dir, cursor) && !Offered(v, dir, cursor, ITEM_PAGE_CANDIDATE_CEILING, d)
      ensures LeftForLater(v, dir, cursor, d)
    {
      NearestOverall(v, dir, cursor, ITEM_PAGE_CANDIDATE_CEILING);
      TopIsNext(By(dir), ItemsBeyond(v, dir, cursor), ITEM_PAGE_CANDIDATE_CEILING);
      assert d !in Top(By(dir), ItemsBeyond(v, dir, cursor), ITEM_PAGE_CANDIDATE_CEILING);
    }
  }

  /** Walking older or newer from a cursor shows every item beyond it exactly once, in display
      order. */
  lemma {:induction false} WalkVisitsEveryItemOnce(v: Events, dir: Direction, cursor: int, budget: nat)
    requires DistinctFirsts(v) && NothingPassedOver(v)
    ensures StrictTotal(Ascends)
    ensures Walk(v, dir, cursor, budget) == InOrder(Ascends, ItemsBeyond(v, dir, cursor))
    decreases |ItemsBeyond(v, dir, cursor)|
  {
    ByIsTotal(After);
    var all := Listing(v, dir, cursor);
    var n := PageIsListed(v, dir, cursor, budget);
    if n == 0 {
      assert all == [];
      assert |ItemsBeyond(v, dir, cursor)| == 0;
    } else {
      PageThenRest(v, dir, cursor, n);
      NextIsSmaller(v, dir, cursor, budget);
      WalkVisitsEveryItemOnce(v, dir, all[n - 1].first, budget);
      PageBesideRest(v, dir, cursor, n);
    }
  }

  lemma SidesOfTheCursor(dir: Direction, page: set<Spot>, rest: set<Spot>, cursor: int)
    requires forall x :: x in page ==> !Beyond(dir, x.first, cursor)
    requires forall y :: y in rest ==> Beyond(dir, y.first, cursor)
    ensures StrictTotal(Ascends)
    ensures dir == Before ==> InOrder(Ascends, page + rest) == InOrder(Ascends, rest) + InOrder(Ascends, page)
    ensures dir == After ==> InOrder(Ascends, page + rest) == InOrder(Ascends, page) + InOrder(Ascends, rest)
  {
    ByIsTotal(After);
    if dir == Before {
      Split(Ascends, rest, page);
      assert rest + page == page + rest;
    } else {
      Split(Ascends, page, rest);
    }
  }

  /** The page and the rest lie on two sides of the cursor. */
  lemma PageBesideRest(v: Events, dir: Direction, cursor: int, n: nat)
    requires DistinctFirsts(v)
    requires 0 < n <= |Listing(v, dir, cursor)|
    ensures StrictTotal(Ascends)
    ensures var all := Listing(v, dir, cursor);
      var shown := InOrder(Ascends, Elements(all[..n]));
      var rest := InOrder(Ascends, ItemsBeyond(v, dir, all[n - 1].first));
      InOrder(Ascends, ItemsBeyond(v, dir, cursor)) == if dir == Before then rest + shown else shown + rest
  {
    PageThenRest(v, dir, cursor, n);
    var all := Listing(v, dir, cursor);
    var page, next := Elements(all[..n]), all[n - 1].first;
    var rest := ItemsBeyond(v, dir, next);
    assert forall y :: y in rest ==> Beyond(dir, y.first, next);
    SidesOfTheCursor(dir, page, rest, next);
  }

  lemma NothingBeyond(v: Events, dir: Direction, cursor: int, budget: nat)
    requires ItemsBeyond(v, dir, cursor) == {}
    ensures Walk(v, dir, cursor, budget) == []
  {
    SelectedAreItems(v, dir, cursor, ITEM_PAGE_CANDIDATE_CEILING, budget);
    NoMembers(Selected(v, dir, cursor, ITEM_PAGE_CANDIDATE_CEILING, budget));
  }

  lemma NoMembers(spots: seq<Spot>)
    ensures (forall d :: d !in spots) ==> spots == []
  {
    assert spots != [] ==> spots[0] in spots;
  }

  predicate NothingHidden(v: Events) {
    forall d :: d in AllItems(v) ==> !Hidden(v, d)
  }

  /** The same walk by a reader who stops when the page says that nothing more is there. */
  function WalkWhileMore(v: Events, dir: Direction, cursor: int, budget: nat): seq<Spot>
    decreases |ItemsBeyond(v, dir, cursor)|
  {
    var selected := Selected(v, dir, cursor, ITEM_PAGE_CANDIDATE_CEILING, budget);
    ByIsTotal(After);
    var shown := InOrder(Ascends, Elements(selected));
    if !HasMore(v, dir, CursorOf(dir, selected)) then shown
    else
      NextIsSmaller(v, dir, cursor, budget);
      var rest := WalkWhileMore(v, dir, CursorOf(dir, selected).value, budget);
      if dir == Before then rest + shown else shown + rest
  }

  /** The cursors that the pages of the whole walk hand out. */
  function Cursors(v: Events, dir: Direction, cursor: int, budget: nat): seq<int>
    decreases |ItemsBeyond(v, dir, cursor)|
  {
    var selected := Selected(v, dir, cursor, ITEM_PAGE_CANDIDATE_CEILING, budget);
    if selected == [] then []
    else
      NextIsSmaller(v, dir, cursor, budget);
      var next := CursorOf(dir, selected).value;
      [next] + Cursors(v, dir, next, budget)
  }

  /** Where the flag is down the next page is empty. */
  predicate StopsRightly(v: Events, dir: Direction, budget: nat, cursor: int) {
    HasMore(v, dir, Some(cursor)) || Selected(v, dir, cursor, ITEM_PAGE_CANDIDATE_CEILING, budget) == []
  }

  predicate AllStopRightly(v: Events, dir: Direction, budget: nat, cursors: seq<int>) {
    forall c :: c in cursors ==> StopsRightly(v, dir, budget, c)
  }

  lemma SamePartLeft(shown: seq<Spot>, a: seq<Spot>, b: seq<Spot>)
    ensures shown + a == shown + b <==> a == b
    ensures a + shown == b + shown <==> a == b
  {
    assert (shown + a)[|shown|..] == a && (shown + b)[|shown|..] == b;
    assert |a| == |b| ==> (a + shown)[..|a|] == a && (b + shown)[..|b|] == b;
    assert a + shown == b + shown ==> |a| == |b|;
  }

  lemma WalkIsEmptyExactly(v: Events, dir: Direction, cursor: int, budget: nat)
    ensures Walk(v, dir, cursor, budget) == []
       <==> Selected(v, dir, cursor, ITEM_PAGE_CANDIDATE_CEILING, budget) == []
  {
    var selected := Selected(v, dir, cursor, ITEM_PAGE_CANDIDATE_CEILING, budget);
    ByIsTotal(After);
    if selected != [] {
      assert selected[0] in Elements(selected);
      assert selected[0] in InOrder(Ascends, Elements(selected));
    }
  }

  /** Where the first flag is up the two walks agree when they agree from there on; where it is down,
      when the walk is at its end. */
  lemma OnePageOfBoth(v: Events, dir: Direction, cursor: int, budget: nat)
    requires Selected(v, dir, cursor, ITEM_PAGE_CANDIDATE_CEILING, budget) != []
    ensures var next := CursorOf(dir, Selected(v, dir, cursor, ITEM_PAGE_CANDIDATE_CEILING, budget));
      && next.Some?
      && (WalkWhileMore(v, dir, cursor, budget) == Walk(v, dir, cursor, budget)
          <==> if HasMore(v, dir, next) then WalkWhileMore(v, dir, next.value, budget) == Walk(v, dir, next.value, budget)
               else Walk(v, dir, next.value, budget) == [])
  {
    ByIsTotal(After);
    NextIsSmaller(v, dir, cursor, budget);
    var selected := Selected(v, dir, cursor, ITEM_PAGE_CANDIDATE_CEILING, budget);
    var next := CursorOf(dir, selected).value;
    var shown := InOrder(Ascends, Elements(selected));
    SamePartLeft(shown, WalkWhileMore(v, dir, next, budget), Walk(v, dir, next, budget));
    SamePartLeft(shown, [], Walk(v, dir, next, budget));
    assert shown + [] == shown == [] + shown;
  }

  /** A reader who follows the flags sees what the walk to the end shows exactly when no page of
      that walk ends with its flag down and another page after it. */
  lemma {:induction false} WalkWhileMoreIsTheWalk(v: Events, dir: Direction, cursor: int, budget: nat)
    ensures WalkWhileMore(v, dir, cursor, budget) == Walk(v, dir, cursor, budget)
       <==> AllStopRightly(v, dir, budget, Cursors(v, dir, cursor, budget))
    decreases |ItemsBeyond(v, dir, cursor)|
  {
    var selected := Selected(v, dir, cursor, ITEM_PAGE_CANDIDATE_CEILING, budget);
    if selected == [] {
      NothingToFollow(v, dir, cursor, budget);
    } else {
      NextIsSmaller(v, dir, cursor, budget);
      OnePageOfBoth(v, dir, cursor, budget);
      var next := CursorOf(dir, selected).value;
      WalkWhileMoreIsTheWalk(v, dir, next, budget);
      WalkIsEmptyExactly(v, dir, next, budget);
      LastCursor(v, dir, next, budget);
      OneMoreCursor(v, dir, budget, next, Cursors(v, dir, next, budget));
    }
  }

  lemma NothingToFollow(v: Events, dir: Direction, cursor: int, budget: nat)
    requires Selected(v, dir, cursor, ITEM_PAGE_CANDIDATE_CEILING, budget) == []
    ensures WalkWhileMore(v, dir, cursor, budget) == Walk(v, dir, cursor, budget) == []
    ensures Cursors(v, dir, cursor, budget) == []
  {
    ByIsTotal(After);
    assert Elements(Selected(v, dir, cursor, ITEM_PAGE_CANDIDATE_CEILING, budget)) == {};
  }

  lemma LastCursor(v: Events, dir: Direction, cursor: int, budget: nat)
    ensures Walk(v, dir, cursor, budget) == [] ==> AllStopRightly(v, dir, budget, Cursors(v, dir, cursor, budget))
  {
    WalkIsEmptyExactly(v, dir, cursor, budget);
  }

  lemma OneMoreCursor(v: Events, dir: Direction, budget: nat, next: int, later: seq<int>)
    ensures AllStopRightly(v, dir, budget, [next] + later)
       <==> StopsRightly(v, dir, budget, next) && AllStopRightly(v, dir, budget, later)
  {
    assert forall c :: c in [next] + later <==> c == next || c in later;
  }

  /** Items remain beyond the cursor, all of them hidden, and no nameless start is counted. */
  predicate OnlyHiddenBeyond(v: Events, dir: Direction, cursor: int) {
    ItemsBeyond(v, dir, cursor) != {} && !VisibleBeyond(v, dir, cursor) && !NamelessBeyond(v, dir, cursor)
  }

  /** When nothing is passed over, that is: unless some page ends where only hidden items remain. */
  lemma FollowingTheFlagsExactly(v: Events, dir: Direction, cursor: int, budget: nat)
    requires NothingPassedOver(v)
    ensures WalkWhileMore(v, dir, cursor, budget) == Walk(v, dir, cursor, budget)
       <==> forall c :: c in Cursors(v, dir, cursor, budget) ==> !OnlyHiddenBeyond(v, dir, c)
  {
    WalkWhileMoreIsTheWalk(v, dir, cursor, budget);
    forall c
      ensures StopsRightly(v, dir, budget, c) <==> !OnlyHiddenBeyond(v, dir, c)
    {
      HasMoreExactly(v, dir, c);
      var n := PageIsListed(v, dir, c, budget);
      assert n == 0 ==> |ItemsBeyond(v, dir, c)| == 0;
      assert 0 < n ==> |ItemsBeyond(v, dir, c)| != 0;
    }
  }

  /** When no item is hidden, following the flags shows everything the walk shows. */
  lemma FollowingTheFlagsSuffices(v: Events, dir: Direction, cursor: int, budget: nat)
    requires NothingHidden(v)
    ensures WalkWhileMore(v, dir, cursor, budget) == Walk(v, dir, cursor, budget)
  {
    WalkWhileMoreIsTheWalk(v, dir, cursor, budget);
    forall c
      ensures StopsRightly(v, dir, budget, c)
    {
      if !HasMore(v, dir, Some(c)) {
        HasMoreExactly(v, dir, c);
        assert forall d :: d in ItemsBeyond(v, dir, c) ==> d in AllItems(v) && !VisibleBeyond(v, dir, c);
        NothingBeyond(v, dir, c, budget);
        WalkIsEmptyExactly(v, dir, c, budget);
      }
    }
  }

  // ---------------------------------------------------------------- exactly when walks are complete

  lemma {:induction false} WalkShowsItems(v: Events, dir: Direction, cursor: int, budget: nat)
    ensures forall d :: d in Walk(v, dir, cursor, budget) ==> d in ItemsBeyond(v, dir, cursor)
    decreases |ItemsBeyond(v, dir, cursor)|
  {
    var selected := Selected(v, dir, cursor, ITEM_PAGE_CANDIDATE_CEILING, budget);
    if selected != [] {
      NextIsSmaller(v, dir, cursor, budget);
      SelectedAreItems(v, dir, cursor, ITEM_PAGE_CANDIDATE_CEILING, budget);
      var k := CursorIsAMember(dir, selected);
      assert selected[k] in selected;
      WalkShowsItems(v, dir, selected[k].first, budget);
    }
  }

  /** With no budget every page is one item. */
  lemma OneItemAPage(v: Events, dir: Direction, cursor: int)
    requires PositiveBytes(v)
    ensures |Selected(v, dir, cursor, ITEM_PAGE_CANDIDATE_CEILING, 0)| <= 1
  {
    var walk := Candidates(v, dir, cursor, ITEM_PAGE_CANDIDATE_CEILING);
    var n := AffordableIsPrefix(Costs(v), walk, 0, 0);
    if n > 1 {
      SelectedAreItems(v, dir, cursor, ITEM_PAGE_CANDIDATE_CEILING, 0);
      assert walk[..n][0] in walk[..n];
      ItemsCostSomething(v, walk[0]);
      FirstOfMany(Costs(v), walk, n);
    }
  }

  predicate FirstsDiffer(spots: seq<Spot>) {
    forall a, b :: 0 <= a < b < |spots| ==> spots[a].first != spots[b].first
  }

  /** Such a walk never shows two items of one first sequence. */
  lemma {:induction false} OneByOneDiffers(v: Events, dir: Direction, cursor: int)
    requires PositiveBytes(v)
    ensures FirstsDiffer(Walk(v, dir, cursor, 0))
    decreases |ItemsBeyond(v, dir, cursor)|
  {
    var selected := Selected(v, dir, cursor, ITEM_PAGE_CANDIDATE_CEILING, 0);
    if selected != [] {
      NextIsSmaller(v, dir, cursor, 0);
      OneItemAPage(v, dir, cursor);
      var k := CursorIsAMember(dir, selected);
      var next := selected[k].first;
      OneByOneDiffers(v, dir, next);
      WalkShowsItems(v, dir, next, 0);
      OneShown(selected[k]);
      assert selected == [selected[k]];
      JoinDiffers(dir, selected[k], Walk(v, dir, next, 0));
    }
  }

  lemma OneShown(d: Spot)
    ensures StrictTotal(Ascends) && InOrder(Ascends, Elements([d])) == [d]
  {
    ByIsTotal(After);
    SortedIsInOrder(Ascends, [d]);
  }

  lemma JoinDiffers(dir: Direction, d: Spot, rest: seq<Spot>)
    requires FirstsDiffer(rest) && forall e :: e in rest ==> Beyond(dir, e.first, d.first)
    ensures FirstsDiffer(rest + [d]) && FirstsDiffer([d] + rest)
  {
    assert forall k :: 0 <= k < |rest| ==> rest[k] in rest;
  }

  predicate Complete(v: Events, dir: Direction, cursor: int, budget: nat) {
    ByIsTotal(After);
    Walk(v, dir, cursor, budget) == InOrder(Ascends, ItemsBeyond(v, dir, cursor))
  }

  lemma CompleteNeedsDistinct(v: Events, d: Spot, e: Spot)
    requires PositiveBytes(v) && Complete(v, Before, d.first + 1, 0)
    requires d in AllItems(v) && e in AllItems(v) && d.first == e.first
    ensures d == e
  {
    var walk := Walk(v, Before, d.first + 1, 0);
    ByIsTotal(After);
    assert d in ItemsBeyond(v, Before, d.first + 1) && e in ItemsBeyond(v, Before, d.first + 1);
    assert d in walk && e in walk;
    OneByOneDiffers(v, Before, d.first + 1);
    var a :| 0 <= a < |walk| && walk[a] == d;
    var b :| 0 <= b < |walk| && walk[b] == e;
    assert a == b;
  }

  /** An item that is not offered and comes before a candidate is lost on a large budget. */
  lemma CompleteNeedsOffered(v: Events, dir: Direction, cursor: int, d: Spot)
    requires var found := Candidates(v, dir, cursor, ITEM_PAGE_CANDIDATE_CEILING);
      Complete(v, dir, cursor, Spent(Costs(v), found))
    requires d in ItemsBeyond(v, dir, cursor) && !Offered(v, dir, cursor, ITEM_PAGE_CANDIDATE_CEILING, d)
    ensures LeftForLater(v, dir, cursor, d)
  {
    var found := Candidates(v, dir, cursor, ITEM_PAGE_CANDIDATE_CEILING);
    var budget := Spent(Costs(v), found);
    AffordableAll(Costs(v), found, 0, budget);
    assert Selected(v, dir, cursor, ITEM_PAGE_CANDIDATE_CEILING, budget) == found;
    ByIsTotal(dir);
    ByIsTotal(After);
    MergedAreTheOffered(v, dir, cursor, ITEM_PAGE_CANDIDATE_CEILING, d);
    assert d in Walk(v, dir, cursor, budget);
    if found != [] {
      NextIsSmaller(v, dir, cursor, budget);
      var next := CursorOf(dir, found).value;
      WalkShowsItems(v, dir, next, budget);
      assert d in Walk(v, dir, next, budget);
      assert Beyond(dir, d.first, next);
      TopIsNext(By(dir), Merged(v, dir, cursor, ITEM_PAGE_CANDIDATE_CEILING), ITEM_PAGE_CANDIDATE_CEILING);
      BeyondIsAfter(dir, found, d);
    }
  }

  lemma BeyondIsAfter(dir: Direction, found: seq<Spot>, d: Spot)
    requires found != [] && Sorted(By(dir), found)
    requires CursorOf(dir, found).Some? && Beyond(dir, d.first, CursorOf(dir, found).value)
    ensures forall e :: e in found ==> By(dir)(e, d)
  {
    CursorIsFarthest(dir, found);
    forall e | e in found
      ensures By(dir)(e, d)
    {
      var k :| 0 <= k < |found| && found[k] == e;
      assert k < |found| - 1 ==> By(dir)(found[k], found[|found| - 1]);
    }
  }

  /** Walks in both directions, from every cursor and on every budget, show every item once if and
      only if no two items share a first sequence and no item that its source leaves out comes
      before one that the page could show. */
  lemma WalksAreCompleteExactly(v: Events)
    requires PositiveBytes(v)
    ensures (forall dir, cursor, budget :: Complete(v, dir, cursor, budget)) <==> DistinctFirsts(v) && NothingPassedOver(v)
  {
    if DistinctFirsts(v) && NothingPassedOver(v) {
      forall dir, cursor, budget
        ensures Complete(v, dir, cursor, budget)
      {
        WalkVisitsEveryItemOnce(v, dir, cursor, budget);
      }
    }
    if forall dir, cursor, budget :: Complete(v, dir, cursor, budget) {
      forall d, e | d in AllItems(v) && e in AllItems(v) && d.first == e.first
        ensures d == e
      {
        CompleteNeedsDistinct(v, d, e);
      }
      forall dir, cursor, d | d in ItemsBeyond(v, dir, cursor) && !Offered(v, dir, cursor, ITEM_PAGE_CANDIDATE_CEILING, d)
        ensures LeftForLater(v, dir, cursor, d)
      {
        CompleteNeedsOffered(v, dir, cursor, d);
      }
    }
  }

  // ---------------------------------------------------------------- why the conditions are there

  function Blank(kind: Kind, tag: Tag, item: Option<string>): Row {
    Row(kind, tag, item, None, None, None, None, 1)
  }

  /** An error at 1, and a tool first seen at 1 whose last update is at 2. */
  function TiedEvents(): Events {
    map[1 := Blank(OtherKind, Standalone, None),
        2 := Blank(ItemUpdated, ToolCall, Some("t")).(firstSeq := Some(1))]
  }

  lemma TiedAreThere()
    ensures Named(TiedEvents()) && PositiveBytes(TiedEvents())
    ensures Spot(1, PageKey(Exact, "", 1), 1) in AllItems(TiedEvents())
    ensures Spot(1, PageKey(NativeTool, "t", 0), 2) in AllItems(TiedEvents())
  {
    assert Starts(TiedEvents(), Exact, 1) && Starts(TiedEvents(), NativeTool, 2);
  }

  lemma TiedIsIncomplete(v: Events, d: Spot, e: Spot)
    requires PositiveBytes(v) && d in AllItems(v) && e in AllItems(v) && d.first == e.first && d != e
    ensures !Complete(v, Before, d.first + 1, 0)
  {
    if Complete(v, Before, d.first + 1, 0) {
      CompleteNeedsDistinct(v, d, e);
      assert false;
    }
  }

  /** Two items that share a first sequence: a walk that shows one of them a page passes over the
      other. */
  lemma TiedItemsLoseOne()
    ensures Named(TiedEvents()) && PositiveBytes(TiedEvents())
    ensures !Complete(TiedEvents(), Before, 2, 0)
  {
    TiedAreThere();
    TiedIsIncomplete(TiedEvents(), Spot(1, PageKey(Exact, "", 1), 1), Spot(1, PageKey(NativeTool, "t", 0), 2));
  }

  function UserRow(s: int): Row {
    Blank(ItemCompleted, UserMessage, if s == 1 then Some("a") else None)
  }

  /** A user message at 1, and after it as many that name no item. */
  function NamelessEvents(many: nat): (v: Events)
    ensures forall s :: s in v <==> 1 <= s <= many + 1
    ensures forall s :: s in v ==> v[s] == UserRow(s)
  {
    map s: int | 1 <= s <= many + 1 :: UserRow(s)
  }

  const NAMED_SPOT := Spot(1, PageKey(NativeUser, "a", 0), 1)

  lemma UsersStart(many: nat, m: Mode, s: int)
    ensures Starts(NamelessEvents(many), m, s) <==> m == NativeUser && 1 <= s <= many + 1
  {
  }

  lemma OnlyOneIsNamed(many: nat, d: Spot)
    ensures d in AllItems(NamelessEvents(many)) <==> d == NAMED_SPOT
  {
    var v := NamelessEvents(many);
    UsersStart(many, NativeUser, 1);
    if d in AllItems(v) {
      ItemHasDescriptor(v, d);
      UsersStart(many, d.key.mode, d.row);
    }
    assert 1 in v && v[1] == UserRow(1);
    assert NAMED_SPOT in AllItems(v);
  }

  /** The nameless messages, newest first. */
  function NamelessBegins(many: nat): seq<Begin> {
    seq(many, k requires 0 <= k < many => Begin(many + 1 - k, many + 1 - k))
  }

  lemma NamelessBeginning(many: nat, b: Begin)
    ensures b in Beginnings(NamelessEvents(many), NativeUser, Before, many + 2) <==> b.first == b.row && 1 <= b.row <= many + 1
  {
    UsersStart(many, NativeUser, b.row);
  }

  lemma NamelessListed(many: nat, b: Begin)
    ensures b in NamelessBegins(many) <==> b.first == b.row && 2 <= b.row <= many + 1
  {
    if b.first == b.row && 2 <= b.row <= many + 1 {
      assert NamelessBegins(many)[many + 1 - b.row] == b;
    }
  }

  lemma NamelessAhead(many: nat)
    ensures |Ahead(Nearer(Before), Beginnings(NamelessEvents(many), NativeUser, Before, many + 2), Begin(1, 1))| == many
  {
    var ahead := Ahead(Nearer(Before), Beginnings(NamelessEvents(many), NativeUser, Before, many + 2), Begin(1, 1));
    var listed := NamelessBegins(many);
    NearerIsTotal(Before);
    SortedIsInOrder(Nearer(Before), listed);
    forall b
      ensures b in ahead <==> b in listed
    {
      NamelessBeginning(many, b);
      NamelessListed(many, b);
    }
    assert ahead == Elements(listed);
  }

  lemma NamelessMerge(many: nat, d: Spot)
    ensures d !in Merged(NamelessEvents(many), Before, many + 2, many)
  {
    MergedAreTheOffered(NamelessEvents(many), Before, many + 2, many, d);
    OnlyOneIsNamed(many, d);
    NamelessAhead(many);
  }

  /** Starts without an item id take up places among the candidates of their source and are then
      dropped: behind a page of them a named message is not found. */
  lemma NamelessStartsHideTheNamed(many: nat)
    ensures var v := NamelessEvents(many);
      && DistinctFirsts(v) && PositiveBytes(v)
      && NAMED_SPOT in ItemsBeyond(v, Before, many + 2)
      && Candidates(v, Before, many + 2, many) == []
  {
    var v := NamelessEvents(many);
    forall d
      ensures d in AllItems(v) <==> d == NAMED_SPOT
    {
      OnlyOneIsNamed(many, d);
    }
    var merged, none: set<Spot> := Merged(v, Before, many + 2, many), {};
    forall d
      ensures d in merged <==> d in none
    {
      NamelessMerge(many, d);
    }
    assert merged == none;
  }

  /** The same on the page's own ceiling: 512 of them, and the walk shows nothing at all. */
  lemma NamelessStartTakesAPlace()
    ensures var v := NamelessEvents(ITEM_PAGE_CANDIDATE_CEILING);
      && DistinctFirsts(v) && PositiveBytes(v)
      && NAMED_SPOT in ItemsBeyond(v, Before, 514)
      && forall budget :: Walk(v, Before, 514, budget) == []
  {
    NamelessStartsHideTheNamed(ITEM_PAGE_CANDIDATE_CEILING);
  }

  /** An error at 5, and before it a user message that names no item. */
  function AnnouncedEvents(): Events {
    map[2 := Blank(ItemCompleted, UserMessage, None), 5 := Blank(OtherKind, Standalone, None)]
  }

  /** The page that ends at the error says that something comes before it, and nothing does. */
  lemma NothingIsAnnounced()
    ensures HasMore(AnnouncedEvents(), Before, Some(5)) && ItemsBeyond(AnnouncedEvents(), Before, 5) == {}
  {
    var v := AnnouncedEvents();
    assert Starts(v, NativeUser, 2) && KeyOf(NativeUser, 2, v[2]).None?;
    assert NamelessStart(v, NativeUser, 2);
    assert NamelessBeyond(v, Before, 5);
    HasMoreExactly(v, Before, 5);
  }

  /** A message whose item already had another row at 1, and an error at 5. */
  function HiddenEvents(): Events {
    map[1 := Blank(OtherKind, OtherTag, Some("m")), 2 := Blank(ContentDelta, AssistantDelta, Some("m")),
        5 := Blank(OtherKind, Standalone, None)]
  }

  lemma HiddenItems(d: Spot)
    requires d in AllItems(HiddenEvents())
    ensures d == Spot(2, PageKey(Assistant, "m", 0), 2) || d == Spot(5, PageKey(Exact, "", 5), 5)
  {
  }

  lemma HiddenIsThere()
    ensures Named(HiddenEvents()) && Spot(2, PageKey(Assistant, "m", 0), 2) in AllItems(HiddenEvents())
    ensures Hidden(HiddenEvents(), Spot(2, PageKey(Assistant, "m", 0), 2))
  {
    var v := HiddenEvents();
    assert Starts(v, Assistant, 2);
    assert v[1].item == v[2].item;
  }

  lemma HiddenIsOutOfSight()
    ensures !VisibleBeyond(HiddenEvents(), Before, 5)
  {
    forall d | d in ItemsBeyond(HiddenEvents(), Before, 5)
      ensures Hidden(HiddenEvents(), d)
    {
      HiddenItems(d);
      HiddenIsThere();
    }
  }

  /** The page that ends at the error says nothing comes before it, and the message does. */
  lemma HiddenItemIsNotAnnounced()
    ensures Spot(2, PageKey(Assistant, "m", 0), 2) in ItemsBeyond(HiddenEvents(), Before, 5)
    ensures !HasMore(HiddenEvents(), Before, Some(5))
  {
    HiddenIsThere();
    HiddenIsOutOfSight();
    NamedLeaveNoNameless(HiddenEvents(), Before, 5);
    HasMoreExactly(HiddenEvents(), Before, 5);
  }
}
