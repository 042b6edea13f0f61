/**
 What the item page answers, and walks over those answers by their own cursors and flags.
 */
module ItemAnswers {
  import opened Basics
  import opened ItemPage
  import opened ItemRows
  import opened ItemWalks
  import opened Ordering

  // ---------------------------------------------------------------- one answer

  predicate Describes(v: Events, d: Spot, x: Descriptor) {
    d.row in v && Describe(v, d.key.mode, d.row) == Some(x) && x.key == d.key && x.first == d.first
  }

  lemma FirstIsDescribed(v: Events, spots: seq<Spot>)
    requires (forall d :: d in spots ==> d in AllItems(v)) && spots != []
    ensures Describes(v, spots[0], Described(v, spots)[0])
    ensures (forall d :: d in spots[1..] ==> d in AllItems(v)) && Described(v, spots)[1..] == Described(v, spots[1..])
  {
    assert spots[0] in spots;
    ItemHasDescriptor(v, spots[0]);
  }

  lemma {:induction false} DescribedAt(v: Events, spots: seq<Spot>, k: nat)
    requires (forall d :: d in spots ==> d in AllItems(v)) && k < |spots|
    ensures Describes(v, spots[k], Described(v, spots)[k])
  {
    FirstIsDescribed(v, spots);
    if k > 0 {
      DescribedAt(v, spots[1..], k - 1);
    }
  }

  /** Two items with one descriptor are one item. */
  lemma DescriptorsDiffer(v: Events, d: Spot, e: Spot)
    requires d in AllItems(v) && e in AllItems(v) && Describe(v, d.key.mode, d.row) == Describe(v, e.key.mode, e.row)
    ensures d == e
  {
    ItemHasDescriptor(v, d);
    ItemHasDescriptor(v, e);
    OneStartPerKey(v, d.key.mode, d.row, e.row);
  }

  /** The items of the answer, least first sequence first, and the two ends of it. */
  predicate EndsAre(items: seq<Descriptor>, before: Option<int>, after: Option<int>) {
    if items == [] then before == None && after == None
    else
      && before == Some(items[0].first) && after == Some(items[|items| - 1].first)
      && forall a, b :: 0 <= a < b < |items| ==> items[a].first <= items[b].first
  }

  /** Something beyond the cursor that the probes see: an item that is not a message with an earlier row
      of its id, or a start that names nothing. */
  ghost predicate Announced(v: Events, dir: Direction, cursor: int) {
    || (exists d :: d in AllItems(v) && (if dir == Before then d.first < cursor else cursor < d.first)
          && !(d.key.mode in {Assistant, NativeUser}
               && exists p :: p in v && p < d.row && v[p].item == Some(d.key.text)))
    || (exists s :: s in v && NamesNothing(v[s])
          && (if dir == Before then ShownFirst(s, v[s]) < cursor else cursor < ShownFirst(s, v[s])))
  }

  /** A list of commands without a generation, a tool update or a user message without an id. */
  predicate NamesNothing(r: Row) {
    || (r.tag == CommandsUpdate && r.generation == None)
    || (r.kind == ItemUpdated && r.tag == ToolCall && r.item == None)
    || (r.kind == ItemCompleted && r.tag == UserMessage && r.item == None)
  }

  function ShownFirst(s: int, r: Row): int {
    if r.kind == ItemUpdated && r.tag == ToolCall && r.firstSeq.Some? then r.firstSeq.value else s
  }

  lemma VisibleIsAnnounced(v: Events, dir: Direction, cursor: int)
    ensures VisibleBeyond(v, dir, cursor) <==>
      exists d :: d in AllItems(v) && (if dir == Before then d.first < cursor else cursor < d.first)
        && !(d.key.mode in {Assistant, NativeUser} && exists p :: p in v && p < d.row && v[p].item == Some(d.key.text))
  {
    forall d | d in AllItems(v)
      ensures Hidden(v, d) <==>
        d.key.mode in {Assistant, NativeUser} && exists p :: p in v && p < d.row && v[p].item == Some(d.key.text)
    {
      ItemHasDescriptor(v, d);
    }
    if d :| d in AllItems(v) && (if dir == Before then d.first < cursor else cursor < d.first) && !Hidden(v, d) {
      assert d in ItemsBeyond(v, dir, cursor);
    }
  }

  lemma NamelessStarts(v: Events, s: int)
    requires s in v
    ensures NamesNothing(v[s]) <==> exists m: Mode :: NamelessStart(v, m, s)
    ensures forall m: Mode :: NamelessStart(v, m, s) ==> Position(m, s, v[s]) == ShownFirst(s, v[s])
  {
    assert v[s].tag == CommandsUpdate && v[s].generation == None ==> NamelessStart(v, Commands, s);
    assert IsToolUpdate(v[s]) && v[s].item == None ==> NamelessStart(v, NativeTool, s);
    assert v[s].kind == ItemCompleted && v[s].tag == UserMessage && v[s].item == None ==> NamelessStart(v, NativeUser, s);
  }

  lemma FlagIsAnnounced(v: Events, dir: Direction, cursor: int)
    ensures HasMore(v, dir, Some(cursor)) <==> Announced(v, dir, cursor)
  {
    HasMoreExactly(v, dir, cursor);
    VisibleIsAnnounced(v, dir, cursor);
    forall s | s in v
      ensures NamesNothing(v[s]) <==> exists m: Mode :: NamelessStart(v, m, s)
      ensures forall m: Mode :: NamelessStart(v, m, s) ==> Position(m, s, v[s]) == ShownFirst(s, v[s])
    {
      NamelessStarts(v, s);
    }
  }

  lemma FirstsAre(spots: seq<Spot>)
    requires spots != [] && Sorted(Ascends, spots)
    ensures CursorOf(Before, spots) == Some(spots[0].first)
    ensures CursorOf(After, spots) == Some(spots[|spots| - 1].first)
  {
    assert spots[0].first in Firsts(spots) && spots[|spots| - 1].first in Firsts(spots);
    forall k | 0 <= k < |spots|
      ensures spots[0].first <= spots[k].first <= spots[|spots| - 1].first
    {
      assert k > 0 ==> Ascends(spots[0], spots[k]);
      assert k < |spots| - 1 ==> Ascends(spots[k], spots[|spots| - 1]);
    }
  }

  lemma SameFirsts(a: seq<Spot>, b: seq<Spot>)
    requires forall d :: d in a <==> d in b
    ensures Firsts(a) == Firsts(b)
    ensures a == [] <==> b == []
  {
    forall k | 0 <= k < |a|
      ensures a[k].first in Firsts(b)
    {
      assert a[k] in b;
    }
    forall k | 0 <= k < |b|
      ensures b[k].first in Firsts(a)
    {
      assert b[k] in a;
    }
    assert a != [] ==> a[0] in b;
    assert b != [] ==> b[0] in a;
  }

  /** The spots behind the items of an answer. */
  function Shown(v: Events, dir: Direction, cursor: int, budget: nat): (spots: seq<Spot>)
    ensures forall d :: d in spots ==> d in ItemsBeyond(v, dir, cursor)
  {
    ByIsTotal(After);
    SelectedAreItems(v, dir, cursor, ITEM_PAGE_CANDIDATE_CEILING, budget);
    InOrder(Ascends, Elements(Selected(v, dir, cursor, ITEM_PAGE_CANDIDATE_CEILING, budget)))
  }

  lemma AnswerShows(events: Events, low: int, high: int, cursor: int, budget: nat, dir: Direction)
    requires low <= high
    ensures var v := Between(events, low, high);
      var page := QueryItemPage(events, low, high, cursor, budget, dir).value;
      var shown := Shown(v, dir, cursor, budget);
      && page.items == Described(v, shown) && |page.items| == |shown|
      && page.beforeCursor == CursorOf(Before, shown) && page.afterCursor == CursorOf(After, shown)
  {
    var v := Between(events, low, high);
    ByIsTotal(After);
    SameFirsts(Selected(v, dir, cursor, ITEM_PAGE_CANDIDATE_CEILING, budget), Shown(v, dir, cursor, budget));
  }

  lemma ShownEnds(v: Events, shown: seq<Spot>)
    requires (forall d :: d in shown ==> d in AllItems(v)) && Sorted(Ascends, shown)
    ensures EndsAre(Described(v, shown), CursorOf(Before, shown), CursorOf(After, shown))
  {
    var items := Described(v, shown);
    forall k | 0 <= k < |shown|
      ensures items[k].first == shown[k].first
    {
      DescribedAt(v, shown, k);
    }
    SpotEnds(shown, items);
  }

  lemma SpotEnds(shown: seq<Spot>, items: seq<Descriptor>)
    requires |items| == |shown| && Sorted(Ascends, shown) && forall k :: 0 <= k < |shown| ==> items[k].first == shown[k].first
    ensures EndsAre(items, CursorOf(Before, shown), CursorOf(After, shown))
  {
    if shown != [] {
      FirstsAre(shown);
    }
    assert forall a, b :: 0 <= a < b < |shown| ==> Ascends(shown[a], shown[b]);
  }

  lemma AnswerEnds(events: Events, low: int, high: int, cursor: int, budget: nat, dir: Direction)
    requires low <= high
    ensures var page := QueryItemPage(events, low, high, cursor, budget, dir).value;
      EndsAre(page.items, page.beforeCursor, page.afterCursor)
  {
    var v := Between(events, low, high);
    ByIsTotal(After);
    InOrderIsSorted(Ascends, Elements(Selected(v, dir, cursor, ITEM_PAGE_CANDIDATE_CEILING, budget)));
    AnswerShows(events, low, high, cursor, budget, dir);
    ShownEnds(v, Shown(v, dir, cursor, budget));
  }

  lemma WatermarkIs(events: Events, low: int, high: int)
    ensures IsWatermark(events, low, high, Watermark(Between(events, low, high)))
  {
    var v := Between(events, low, high);
    assert forall s :: s in v.Keys <==> s in events && low <= s <= high;
    HasMember(v.Keys);
  }

  /** `page_key` starts with the mode. */
  function Prefix(m: Mode): string {
    match m
    case Assistant => "assistant:"
    case Commands => "commands:"
    case Exact => "event:"
    case Replay => "replay:"
    case Side => "side:"
    case NativeTool => "tool:"
    case NativeUser => "user:"
  }

  /** First sequence, then page key, whose prefixes differ in their first letter. */
  predicate Precedes(a: Descriptor, b: Descriptor) {
    || a.first < b.first
    || (a.first == b.first
        && (|| Prefix(a.key.mode)[0] < Prefix(b.key.mode)[0]
            || (a.key.mode == b.key.mode
                && (TextLess(a.key.text, b.key.text) || (a.key.text == b.key.text && a.key.number < b.key.number)))))
  }

  /** The items of an answer are listed once, in display order, and are those that fit the page. */
  lemma PageLists(events: Events, low: int, high: int, cursor: int, budget: nat, dir: Direction)
    requires low <= high
    ensures var v := Between(events, low, high);
      var items := QueryItemPage(events, low, high, cursor, budget, dir).value.items;
      && (forall a, b :: 0 <= a < b < |items| ==> Precedes(items[a], items[b]) && items[a].key != items[b].key)
      && (forall d :: d in AllItems(v) ==>
            d.row in v && Describe(v, d.key.mode, d.row).Some?
            && (Describe(v, d.key.mode, d.row).value in items <==> d in Selected(v, dir, cursor, 512, budget)))
      && (forall x :: x in items ==> IsDescribed(v, x))
  {
    var v := Between(events, low, high);
    var shown := Shown(v, dir, cursor, budget);
    ByIsTotal(After);
    InOrderIsSorted(Ascends, Elements(Selected(v, dir, cursor, ITEM_PAGE_CANDIDATE_CEILING, budget)));
    AnswerShows(events, low, high, cursor, budget, dir);
    DescribedInOrder(v, shown);
    DescribedMembers(v, shown);
    DescribedCost(v, shown);
  }

  lemma DescribedInOrder(v: Events, shown: seq<Spot>)
    requires (forall d :: d in shown ==> d in AllItems(v)) && Sorted(Ascends, shown)
    ensures var items := Described(v, shown);
      forall a, b :: 0 <= a < b < |items| ==> Precedes(items[a], items[b]) && items[a].key != items[b].key
  {
    var items := Described(v, shown);
    forall a, b | 0 <= a < b < |items|
      ensures Precedes(items[a], items[b]) && items[a].key != items[b].key
    {
      DescribedAt(v, shown, a);
      DescribedAt(v, shown, b);
      assert shown[a] in shown && shown[b] in shown;
      KeysDiffer(v, shown[a], shown[b]);
      PrecedesLikeSpots(shown[a], shown[b], items[a], items[b]);
    }
  }

  lemma KeysDiffer(v: Events, d: Spot, e: Spot)
    requires d in AllItems(v) && e in AllItems(v) && Ascends(d, e)
    ensures d.key != e.key
  {
    ByIsTotal(After);
    ItemHasDescriptor(v, d);
    ItemHasDescriptor(v, e);
    if d.key == e.key {
      OneStartPerKey(v, d.key.mode, d.row, e.row);
    }
  }

  lemma PrecedesLikeSpots(d: Spot, e: Spot, x: Descriptor, y: Descriptor)
    requires Ascends(d, e) && d.key != e.key
    requires x.key == d.key && x.first == d.first && y.key == e.key && y.first == e.first
    ensures Precedes(x, y)
  {
    assert Rank(d.key.mode) < Rank(e.key.mode) <==> Prefix(d.key.mode)[0] < Prefix(e.key.mode)[0];
  }

  lemma DescribedMembers(v: Events, shown: seq<Spot>)
    requires forall d :: d in shown ==> d in AllItems(v)
    ensures forall d :: d in AllItems(v) ==>
      d.row in v && Describe(v, d.key.mode, d.row).Some?
      && (Describe(v, d.key.mode, d.row).value in Described(v, shown) <==> d in shown)
  {
    var items := Described(v, shown);
    forall d | d in AllItems(v)
      ensures d.row in v && Describe(v, d.key.mode, d.row).Some?
      ensures Describe(v, d.key.mode, d.row).value in items <==> d in shown
    {
      ItemHasDescriptor(v, d);
      var x := Describe(v, d.key.mode, d.row).value;
      if d in shown {
        var k :| 0 <= k < |shown| && shown[k] == d;
        DescribedAt(v, shown, k);
        assert items[k] == x;
      }
      if x in items {
        var k :| 0 <= k < |items| && items[k] == x;
        DescribedAt(v, shown, k);
        assert shown[k] in shown;
        DescriptorsDiffer(v, d, shown[k]);
      }
    }
  }

  lemma AnswerNumbers(events: Events, low: int, high: int, cursor: int, budget: nat, dir: Direction)
    requires low <= high
    ensures var page := QueryItemPage(events, low, high, cursor, budget, dir).value;
      && page.watermark == Watermark(Between(events, low, high))
      && page.transferBytes == TransferBytes(page.items)
      && (page.oversized <==> budget < page.transferBytes)
  {
    var v := Between(events, low, high);
    AnswerShows(events, low, high, cursor, budget, dir);
    ShownIsSelected(v, dir, cursor, budget);
    DescribedCost(v, Shown(v, dir, cursor, budget));
  }

  /** The newest row of the range, or 0. */
  ghost predicate IsWatermark(events: Events, low: int, high: int, w: int) {
    && (forall s :: s in events && low <= s <= high ==> s <= w)
    && (if exists s :: s in events && low <= s <= high then w in events && low <= w <= high else w == 0)
  }

  /** Every accepted answer: its items are in display order and its cursors are their two ends; the
      flags say what can be seen beyond these; the watermark is the newest row of the range; the bytes
      are those of its items, and it is oversized when they pass the budget. */
  lemma PageAnswers(events: Events, low: int, high: int, cursor: int, budget: nat, dir: Direction)
    requires low <= high
    ensures var v := Between(events, low, high);
      var page := QueryItemPage(events, low, high, cursor, budget, dir).value;
      && EndsAre(page.items, page.beforeCursor, page.afterCursor)
      && (page.hasBefore <==> page.items != [] && Announced(v, Before, page.items[0].first))
      && (page.hasAfter <==> page.items != [] && Announced(v, After, page.items[|page.items| - 1].first))
      && IsWatermark(events, low, high, page.watermark)
      && page.transferBytes == TransferBytes(page.items)
      && (page.oversized <==> budget < page.transferBytes)
  {
    AnswerEnds(events, low, high, cursor, budget, dir);
    AnswerFlags(events, low, high, cursor, budget, dir);
    AnswerNumbers(events, low, high, cursor, budget, dir);
    WatermarkIs(events, low, high);
  }

  /** Only a reversed range is refused. */
  lemma RefusedExactly(events: Events, low: int, high: int, cursor: int, budget: nat, dir: Direction)
    ensures QueryItemPage(events, low, high, cursor, budget, dir).Done? <==> low <= high
    ensures high < low ==> QueryItemPage(events, low, high, cursor, budget, dir) == Refused(InvalidCoverage)
  {
  }

  lemma FlagsRead(events: Events, low: int, high: int, cursor: int, budget: nat, dir: Direction)
    requires low <= high
    ensures var v := Between(events, low, high);
      var page := QueryItemPage(events, low, high, cursor, budget, dir).value;
      page.hasBefore == HasMore(v, Before, page.beforeCursor) && page.hasAfter == HasMore(v, After, page.afterCursor)
  {
  }

  lemma EndFlags(v: Events, items: seq<Descriptor>, before: Option<int>, after: Option<int>)
    requires EndsAre(items, before, after)
    ensures HasMore(v, Before, before) <==> items != [] && Announced(v, Before, items[0].first)
    ensures HasMore(v, After, after) <==> items != [] && Announced(v, After, items[|items| - 1].first)
  {
    if items != [] {
      FlagIsAnnounced(v, Before, items[0].first);
      FlagIsAnnounced(v, After, items[|items| - 1].first);
    }
  }

  lemma AnswerFlags(events: Events, low: int, high: int, cursor: int, budget: nat, dir: Direction)
    requires low <= high
    ensures var v := Between(events, low, high);
      var page := QueryItemPage(events, low, high, cursor, budget, dir).value;
      && (page.hasBefore <==> page.items != [] && Announced(v, Before, page.items[0].first))
      && (page.hasAfter <==> page.items != [] && Announced(v, After, page.items[|page.items| - 1].first))
  {
    var page := QueryItemPage(events, low, high, cursor, budget, dir).value;
    AnswerEnds(events, low, high, cursor, budget, dir);
    FlagsRead(events, low, high, cursor, budget, dir);
    EndFlags(Between(events, low, high), page.items, page.beforeCursor, page.afterCursor);
  }

  // ---------------------------------------------------------------- walks over the answers

  lemma NextAnswerIsSmaller(events: Events, low: int, high: int, cursor: int, budget: nat, dir: Direction)
    requires low <= high
    ensures var v := Between(events, low, high);
      var page := QueryItemPage(events, low, high, cursor, budget, dir).value;
      var next := if dir == Before then page.beforeCursor else page.afterCursor;
      && next == CursorOf(dir, Selected(v, dir, cursor, ITEM_PAGE_CANDIDATE_CEILING, budget))
      && (next.Some? <==> Selected(v, dir, cursor, ITEM_PAGE_CANDIDATE_CEILING, budget) != [])
      && (next.Some? ==> |ItemsBeyond(v, dir, next.value)| < |ItemsBeyond(v, dir, cursor)|)
  {
    var v := Between(events, low, high);
    if Selected(v, dir, cursor, ITEM_PAGE_CANDIDATE_CEILING, budget) != [] {
      NextIsSmaller(v, dir, cursor, budget);
    }
  }

  /** Ask for page after page, each from the end of the answer before. */
  function WalkAnswers(events: Events, low: int, high: int, cursor: int, budget: nat, dir: Direction): seq<Descriptor>
    requires low <= high
    decreases |ItemsBeyond(Between(events, low, high), dir, cursor)|
  {
    NextAnswerIsSmaller(events, low, high, cursor, budget, dir);
    var page := QueryItemPage(events, low, high, cursor, budget, dir).value;
    var next := if dir == Before then page.beforeCursor else page.afterCursor;
    if next.None? then page.items
    else
      var rest := WalkAnswers(events, low, high, next.value, budget, dir);
      if dir == Before then rest + page.items else page.items + rest
  }

  /** The same by a reader who stops when the answer's flag is down. */
  function FollowAnswers(events: Events, low: int, high: int, cursor: int, budget: nat, dir: Direction): seq<Descriptor>
    requires low <= high
    decreases |ItemsBeyond(Between(events, low, high), dir, cursor)|
  {
    NextAnswerIsSmaller(events, low, high, cursor, budget, dir);
    var page := QueryItemPage(events, low, high, cursor, budget, dir).value;
    var next := if dir == Before then page.beforeCursor else page.afterCursor;
    var more := if dir == Before then page.hasBefore else page.hasAfter;
    if next.None? || !more then page.items
    else
      var rest := FollowAnswers(events, low, high, next.value, budget, dir);
      if dir == Before then rest + page.items else page.items + rest
  }

  lemma {:induction false} DescribedAppends(v: Events, a: seq<Spot>, b: seq<Spot>)
    requires forall d :: d in a || d in b ==> d in AllItems(v)
    ensures forall d :: d in a + b ==> d in AllItems(v)
    ensures Described(v, a + b) == Described(v, a) + Described(v, b)
  {
    if a == [] {
      assert a + b == b;
    } else {
      assert (a + b)[1..] == a[1..] + b;
      assert forall d :: d in a[1..] ==> d in a;
      DescribedAppends(v, a[1..], b);
    }
  }

  lemma {:induction false} WalkAnswersIsWalk(events: Events, low: int, high: int, cursor: int, budget: nat, dir: Direction)
    requires low <= high
    ensures var v := Between(events, low, high);
      && (forall d :: d in Walk(v, dir, cursor, budget) ==> d in AllItems(v))
      && WalkAnswers(events, low, high, cursor, budget, dir) == Described(v, Walk(v, dir, cursor, budget))
    decreases |ItemsBeyond(Between(events, low, high), dir, cursor)|
  {
    var v := Between(events, low, high);
    WalkShowsItems(v, dir, cursor, budget);
    NextAnswerIsSmaller(events, low, high, cursor, budget, dir);
    AnswerShows(events, low, high, cursor, budget, dir);
    var shown := Shown(v, dir, cursor, budget);
    var next := CursorOf(dir, Selected(v, dir, cursor, ITEM_PAGE_CANDIDATE_CEILING, budget));
    if next.Some? {
      WalkAnswersIsWalk(events, low, high, next.value, budget, dir);
      DescribedJoins(v, dir, shown, Walk(v, dir, next.value, budget));
    } else {
      assert Elements(Selected(v, dir, cursor, ITEM_PAGE_CANDIDATE_CEILING, budget)) == {};
    }
  }

  lemma WhileMoreStep(v: Events, dir: Direction, cursor: int, budget: nat)
    ensures var next := CursorOf(dir, Selected(v, dir, cursor, ITEM_PAGE_CANDIDATE_CEILING, budget));
      WalkWhileMore(v, dir, cursor, budget) ==
        if !HasMore(v, dir, next) then Shown(v, dir, cursor, budget)
        else if dir == Before then WalkWhileMore(v, dir, next.value, budget) + Shown(v, dir, cursor, budget)
        else Shown(v, dir, cursor, budget) + WalkWhileMore(v, dir, next.value, budget)
  {
  }

  lemma {:induction false} WhileMoreShowsItems(v: Events, dir: Direction, cursor: int, budget: nat)
    ensures forall d :: d in WalkWhileMore(v, dir, cursor, budget) ==> d in AllItems(v)
    decreases |ItemsBeyond(v, dir, cursor)|
  {
    var next := CursorOf(dir, Selected(v, dir, cursor, ITEM_PAGE_CANDIDATE_CEILING, budget));
    WhileMoreStep(v, dir, cursor, budget);
    if HasMore(v, dir, next) {
      NextIsSmaller(v, dir, cursor, budget);
      WhileMoreShowsItems(v, dir, next.value, budget);
    }
  }

  lemma FollowStep(events: Events, low: int, high: int, cursor: int, budget: nat, dir: Direction)
    requires low <= high
    ensures var v := Between(events, low, high);
      var next := CursorOf(dir, Selected(v, dir, cursor, ITEM_PAGE_CANDIDATE_CEILING, budget));
      var items := QueryItemPage(events, low, high, cursor, budget, dir).value.items;
      FollowAnswers(events, low, high, cursor, budget, dir) ==
        if !HasMore(v, dir, next) then items
        else if dir == Before then FollowAnswers(events, low, high, next.value, budget, dir) + items
        else items + FollowAnswers(events, low, high, next.value, budget, dir)
  {
    NextAnswerIsSmaller(events, low, high, cursor, budget, dir);
  }

  lemma {:induction false} FollowAnswersIsFollowing(events: Events, low: int, high: int, cursor: int, budget: nat,
                                                    dir: Direction)
    requires low <= high
    ensures var v := Between(events, low, high);
      && (forall d :: d in WalkWhileMore(v, dir, cursor, budget) ==> d in AllItems(v))
      && FollowAnswers(events, low, high, cursor, budget, dir) == Described(v, WalkWhileMore(v, dir, cursor, budget))
    decreases |ItemsBeyond(Between(events, low, high), dir, cursor)|
  {
    var v := Between(events, low, high);
    var next := CursorOf(dir, Selected(v, dir, cursor, ITEM_PAGE_CANDIDATE_CEILING, budget));
    AnswerShows(events, low, high, cursor, budget, dir);
    FollowStep(events, low, high, cursor, budget, dir);
    WhileMoreStep(v, dir, cursor, budget);
    WhileMoreShowsItems(v, dir, cursor, budget);
    if HasMore(v, dir, next) {
      NextAnswerIsSmaller(events, low, high, cursor, budget, dir);
      FollowAnswersIsFollowing(events, low, high, next.value, budget, dir);
      DescribedJoins(v, dir, Shown(v, dir, cursor, budget), WalkWhileMore(v, dir, next.value, budget));
    }
  }

  lemma DescribedJoins(v: Events, dir: Direction, shown: seq<Spot>, rest: seq<Spot>)
    requires forall d :: d in shown || d in rest ==> d in AllItems(v)
    ensures forall d :: d in (if dir == Before then rest + shown else shown + rest) ==> d in AllItems(v)
    ensures Described(v, if dir == Before then rest + shown else shown + rest)
         == if dir == Before then Described(v, rest) + Described(v, shown) else Described(v, shown) + Described(v, rest)
  {
    DescribedAppends(v, rest, shown);
    DescribedAppends(v, shown, rest);
  }

  lemma DescribedIsInjective(v: Events, a: seq<Spot>, b: seq<Spot>)
    requires (forall d :: d in a ==> d in AllItems(v)) && (forall d :: d in b ==> d in AllItems(v))
    ensures Described(v, a) == Described(v, b) <==> a == b
  {
    if Described(v, a) == Described(v, b) {
      assert |a| == |b|;
      forall k | 0 <= k < |a|
        ensures a[k] == b[k]
      {
        DescribedAt(v, a, k);
        DescribedAt(v, b, k);
        assert a[k] in a && b[k] in b;
        DescriptorsDiffer(v, a[k], b[k]);
      }
    }
  }

  /** Every item beyond the cursor, by its descriptor, in display order. */
  function AllBeyond(events: Events, low: int, high: int, cursor: int, dir: Direction): seq<Descriptor> {
    var v := Between(events, low, high);
    ByIsTotal(After);
    Described(v, InOrder(Ascends, ItemsBeyond(v, dir, cursor)))
  }

  /** Walking by the cursors of the answers lists each item beyond the start once, first sequences
      rising, when these are distinct and nothing is passed over. */
  lemma AnswersListEveryItemOnce(events: Events, low: int, high: int, cursor: int, budget: nat, dir: Direction)
    requires low <= high
    requires DistinctFirsts(Between(events, low, high)) && NothingPassedOver(Between(events, low, high))
    ensures var v := Between(events, low, high);
      var walk := WalkAnswers(events, low, high, cursor, budget, dir);
      && (forall a, b :: 0 <= a < b < |walk| ==> walk[a].first < walk[b].first)
      && (forall d :: d in AllItems(v) ==>
            d.row in v && Describe(v, d.key.mode, d.row).Some?
            && (Describe(v, d.key.mode, d.row).value in walk <==> if dir == Before then d.first < cursor else cursor < d.first))
  {
    var v := Between(events, low, high);
    var spots := Walk(v, dir, cursor, budget);
    WalkAnswersIsWalk(events, low, high, cursor, budget, dir);
    WalkVisitsEveryItemOnce(v, dir, cursor, budget);
    InOrderIsSorted(Ascends, ItemsBeyond(v, dir, cursor));
    DescribedMembers(v, spots);
    forall a, b | 0 <= a < b < |spots|
      ensures Described(v, spots)[a].first < Described(v, spots)[b].first
    {
      DescribedAt(v, spots, a);
      DescribedAt(v, spots, b);
      assert spots[a] in spots && spots[b] in spots && Ascends(spots[a], spots[b]);
    }
  }

  ghost predicate AnswersComplete(events: Events, low: int, high: int, cursor: int, budget: nat, dir: Direction)
    requires low <= high
  {
    WalkAnswers(events, low, high, cursor, budget, dir) == AllBeyond(events, low, high, cursor, dir)
  }

  /** The walks over the answers, in both directions, from every cursor and on every budget, list all
      items once if and only if no two share a first sequence and nothing is passed over. */
  lemma AnswersCompleteExactly(events: Events, low: int, high: int)
    requires low <= high && PositiveBytes(Between(events, low, high))
    ensures (forall cursor, budget, dir :: AnswersComplete(events, low, high, cursor, budget, dir))
       <==> DistinctFirsts(Between(events, low, high)) && NothingPassedOver(Between(events, low, high))
  {
    var v := Between(events, low, high);
    WalksAreCompleteExactly(v);
    forall cursor, budget, dir
      ensures AnswersComplete(events, low, high, cursor, budget, dir) <==> Complete(v, dir, cursor, budget)
    {
      AnswersCompleteIsComplete(events, low, high, cursor, budget, dir);
    }
  }

  lemma AnswersCompleteIsComplete(events: Events, low: int, high: int, cursor: int, budget: nat, dir: Direction)
    requires low <= high
    ensures AnswersComplete(events, low, high, cursor, budget, dir)
       <==> Complete(Between(events, low, high), dir, cursor, budget)
  {
    var v := Between(events, low, high);
    ByIsTotal(After);
    WalkAnswersIsWalk(events, low, high, cursor, budget, dir);
    DescribedIsInjective(v, Walk(v, dir, cursor, budget), InOrder(Ascends, ItemsBeyond(v, dir, cursor)));
  }

  /** A reader who follows the flags of the answers gets what the whole walk lists exactly when no page
      of it ends with its flag down and another page after it. */
  lemma FollowingAnswersExactly(events: Events, low: int, high: int, cursor: int, budget: nat, dir: Direction)
    requires low <= high
    ensures FollowAnswers(events, low, high, cursor, budget, dir) == WalkAnswers(events, low, high, cursor, budget, dir)
       <==> forall c :: c in Cursors(Between(events, low, high), dir, cursor, budget) ==>
              || QueryItemPage(events, low, high, c, budget, dir).value.items == []
              || Announced(Between(events, low, high), dir, c)
  {
    var v := Between(events, low, high);
    FollowAnswersIsFollowing(events, low, high, cursor, budget, dir);
    WalkAnswersIsWalk(events, low, high, cursor, budget, dir);
    DescribedIsInjective(v, WalkWhileMore(v, dir, cursor, budget), Walk(v, dir, cursor, budget));
    WalkWhileMoreIsTheWalk(v, dir, cursor, budget);
    forall c
      ensures StopsRightly(v, dir, budget, c) <==>
        QueryItemPage(events, low, high, c, budget, dir).value.items == [] || Announced(v, dir, c)
    {
      FlagIsAnnounced(v, dir, c);
      ByIsTotal(After);
      SameFirsts(Selected(v, dir, c, ITEM_PAGE_CANDIDATE_CEILING, budget), Shown(v, dir, c, budget));
      AnswerShows(events, low, high, c, budget, dir);
    }
  }
}
