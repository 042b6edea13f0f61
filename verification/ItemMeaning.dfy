/**
 What an item is, mode by mode, told by the rows of the table: the row it starts at, where it is
 shown, the row that speaks for it, and the rows it is paid for.
 */
module ItemMeaning {
  import opened Basics
  import opened Budget
  import opened ItemPage
  import opened ItemRows
  import opened Ordering
  import Pages
  import opened Sorting

  ghost predicate IsOldest(v: Events, wanted: Row -> bool, s: int) {
    s in v && wanted(v[s]) && forall p :: p in v && wanted(v[p]) ==> s <= p
  }

  ghost predicate IsNewest(v: Events, wanted: Row -> bool, s: int) {
    s in v && wanted(v[s]) && forall p :: p in v && wanted(v[p]) ==> p <= s
  }

  /** The authority is the newest such row, or none when there is none. */
  ghost predicate SpeaksNewest(v: Events, wanted: Row -> bool, authority: Option<int>) {
    forall a :: authority == Some(a) <==> IsNewest(v, wanted, a)
  }

  predicate DeltaOf(r: Row, i: string) {
    r.kind == ContentDelta && r.tag == AssistantDelta && r.item == Some(i)
  }

  predicate MessageOf(r: Row, i: string) {
    r.kind == ItemCompleted && r.tag == AssistantMessage && r.item == Some(i)
  }

  predicate UserMessageOf(r: Row, i: string) {
    r.kind == ItemCompleted && r.tag == UserMessage && r.item == Some(i)
  }

  predicate UpdateOf(r: Row, i: string) {
    r.kind == ItemUpdated && r.tag == ToolCall && r.item == Some(i)
  }

  predicate CommandsOf(r: Row, generation: int) {
    r.tag == CommandsUpdate && r.generation == Some(generation)
  }

  /** Cached rows, terminal projections and tool ends. */
  predicate ReplayOf(r: Row, i: string) {
    r.item == Some(i) && (r.kind == RemoteCached || r.tag == TerminalProjection || (r.kind == ItemCompleted && r.tag == ToolCall))
  }

  /** A row of running state, written here or cached from another machine. */
  predicate StateRow(r: Row, k: Kind) {
    || r.kind == k
    || (r.kind == RemoteCached
        && ((r.tag == Usage && k == UsageUpdated) || (r.tag == TerminalProjection && r.eventType == Some(k))))
  }

  function StateKind(text: string): Option<Kind> {
    if text == "usage.updated" then Some(UsageUpdated)
    else if text == "session.config.updated" then Some(SessionConfigUpdated)
    else None
  }

  // ---------------------------------------------------------------- the seven modes

  lemma ItemIs(v: Events, d: Spot)
    ensures d in AllItems(v) <==>
      && d.row in v && Starts(v, d.key.mode, d.row) && KeyOf(d.key.mode, d.row, v[d.row]) == Some(d.key)
      && d.first == Position(d.key.mode, d.row, v[d.row])
  {
  }

  /** An assistant item starts at the oldest delta or message of its id; the newest message speaks for
      it, and it is paid for that message and the deltas after it, or all of them without one. */
  lemma AssistantItems(v: Events, d: Spot)
    requires d.key.mode == Assistant
    ensures var i := d.key.text;
      d in AllItems(v) <==>
        && d.key.number == 0 && d.first == d.row
        && IsOldest(v, (r: Row) => DeltaOf(r, i) || MessageOf(r, i), d.row)
    ensures d in AllItems(v) ==>
      && SpeaksNewest(v, (r: Row) => MessageOf(r, d.key.text), Authority(v, Assistant, d.row))
      && forall e :: e in PaidRows(v, Assistant, d.row) <==>
           || IsNewest(v, (r: Row) => MessageOf(r, d.key.text), e)
           || (e in v && DeltaOf(v[e], d.key.text) && forall m :: m in v && MessageOf(v[m], d.key.text) ==> m < e)
  {
    ItemIs(v, d);
    if d in AllItems(v) {
      AssistantRows(v, d.row, d.key.text);
    }
  }

  lemma AssistantRows(v: Events, s: int, i: string)
    requires s in v && v[s].item == Some(i)
    ensures SpeaksNewest(v, (r: Row) => MessageOf(r, i), Authority(v, Assistant, s))
    ensures forall e :: e in PaidRows(v, Assistant, s) <==>
      || IsNewest(v, (r: Row) => MessageOf(r, i), e)
      || (e in v && DeltaOf(v[e], i) && forall m :: m in v && MessageOf(v[m], i) ==> m < e)
  {
    var messages := Rows(v, (r: Row) => IsMessage(r) && r.item == v[s].item);
    assert forall m :: m in messages <==> m in v && MessageOf(v[m], i);
    HasMember(messages);
  }

  /** A list of commands starts at the oldest row of its generation; the newest speaks for it. */
  lemma CommandItems(v: Events, d: Spot)
    requires d.key.mode == Commands
    ensures var g := d.key.number;
      d in AllItems(v) <==>
        && d.key.text == "" && d.first == d.row
        && IsOldest(v, (r: Row) => CommandsOf(r, g), d.row)
    ensures d in AllItems(v) ==>
      && Authority(v, Commands, d.row).Some?
      && SpeaksNewest(v, (r: Row) => CommandsOf(r, d.key.number), Authority(v, Commands, d.row))
      && PaidRows(v, Commands, d.row) == {Authority(v, Commands, d.row).value}
  {
    ItemIs(v, d);
    if d in AllItems(v) {
      var rows := Rows(v, (r: Row) => r.tag == CommandsUpdate && r.generation == v[d.row].generation);
      assert forall m :: m in rows <==> m in v && CommandsOf(v[m], d.key.number);
      assert d.row in rows;
    }
  }

  /** A row without an item id that stands for itself. */
  lemma ExactItems(v: Events, d: Spot)
    requires d.key.mode == Exact
    ensures d in AllItems(v) <==>
      && d.key.text == "" && d.key.number == d.row == d.first
      && d.row in v && v[d.row].item == None
      && (v[d.row].tag == Standalone || (v[d.row].tag == TerminalProjection && v[d.row].eventType == Some(ItemCompleted)))
    ensures d in AllItems(v) ==>
      Authority(v, Exact, d.row) == Some(d.row) && PaidRows(v, Exact, d.row) == {d.row}
  {
    ItemIs(v, d);
  }

  /** Running state is its newest row, of either kind. */
  lemma StateItems(v: Events, d: Spot)
    requires d.key.mode == Side
    ensures d in AllItems(v) <==>
      && StateKind(d.key.text).Some? && d.key.number == 0 && d.first == d.row
      && IsNewest(v, (r: Row) => StateRow(r, StateKind(d.key.text).value), d.row)
    ensures d in AllItems(v) ==>
      Authority(v, Side, d.row) == Some(d.row) && PaidRows(v, Side, d.row) == {d.row}
  {
    ItemIs(v, d);
    forall r: Row
      ensures SideKind(r) == Some(UsageUpdated) <==> StateRow(r, UsageUpdated)
      ensures SideKind(r) == Some(SessionConfigUpdated) <==> StateRow(r, SessionConfigUpdated)
      ensures SideKind(r).None? || SideKind(r) == Some(UsageUpdated) || SideKind(r) == Some(SessionConfigUpdated)
    {
    }
    assert d.key.text == "usage.updated" ==> d.key.text != "session.config.updated";
  }

  /** A tool item is its newest update, shown where the tool call began when the update says so, and
      paid for with the ends that come after it. */
  lemma ToolItems(v: Events, d: Spot)
    requires d.key.mode == NativeTool
    ensures d in AllItems(v) <==>
      && d.key.number == 0
      && IsNewest(v, (r: Row) => UpdateOf(r, d.key.text), d.row)
      && d.first == (if v[d.row].firstSeq.Some? then v[d.row].firstSeq.value else d.row)
    ensures d in AllItems(v) ==>
      && Authority(v, NativeTool, d.row) == Some(d.row)
      && forall e :: e in PaidRows(v, NativeTool, d.row) <==>
           || e == d.row
           || (e in v && d.row < e && v[e].kind == ItemCompleted && v[e].tag == ToolCall && v[e].item == Some(d.key.text))
  {
    ItemIs(v, d);
  }

  /** A user message starts at the oldest row of its id; the newest speaks for it. */
  lemma UserItems(v: Events, d: Spot)
    requires d.key.mode == NativeUser
    ensures d in AllItems(v) <==>
      && d.key.number == 0 && d.first == d.row
      && IsOldest(v, (r: Row) => UserMessageOf(r, d.key.text), d.row)
    ensures d in AllItems(v) ==>
      && Authority(v, NativeUser, d.row).Some?
      && SpeaksNewest(v, (r: Row) => UserMessageOf(r, d.key.text), Authority(v, NativeUser, d.row))
      && PaidRows(v, NativeUser, d.row) == {Authority(v, NativeUser, d.row).value}
  {
    ItemIs(v, d);
    if d in AllItems(v) {
      var rows := Rows(v, (r: Row) => r.kind == ItemCompleted && r.tag == UserMessage && r.item == v[d.row].item);
      assert forall m :: m in rows <==> m in v && UserMessageOf(v[m], d.key.text);
      assert d.row in rows;
    }
  }

  /** Where a replayed row is shown: where the tool call began, if it is a cached tool row that has
      both parts of that. */
  function ShownAt(s: int, r: Row): int {
    if r.kind == RemoteCached && r.tag == ToolCall && r.firstSeq.Some? && r.firstTime.Some? then r.firstSeq.value else s
  }

  /** A replayed item is one without tool updates; it starts at the row that is shown first, the older
      of two shown alike, has no row that speaks for it, and is paid for all its rows. */
  lemma ReplayItems(v: Events, d: Spot)
    requires d.key.mode == Replay
    ensures d in AllItems(v) <==>
      && d.key.number == 0 && d.row in v && ReplayOf(v[d.row], d.key.text) && d.first == ShownAt(d.row, v[d.row])
      && (forall u :: u in v ==> !UpdateOf(v[u], d.key.text))
      && (forall p :: p in v && ReplayOf(v[p], d.key.text) ==>
            d.first < ShownAt(p, v[p]) || (d.first == ShownAt(p, v[p]) && d.row <= p))
    ensures d in AllItems(v) ==>
      && Authority(v, Replay, d.row) == None
      && forall e :: e in PaidRows(v, Replay, d.row) <==> e in v && ReplayOf(v[e], d.key.text)
  {
    ItemIs(v, d);
    forall p | p in v
      ensures Position(Replay, p, v[p]) == ShownAt(p, v[p])
    {
    }
    assert HasToolUpdate(v, d.key.text) <==> exists u :: u in v && UpdateOf(v[u], d.key.text);
  }

  // ---------------------------------------------------------------- bytes

  /** The bytes of a set of rows are counted row by row. */
  lemma BytesAddUp(v: Events, rows: set<int>, s: int)
    requires s in v && s !in rows
    ensures BytesOf(v, {}) == 0 && BytesOf(v, rows + {s}) == BytesOf(v, rows) + v[s].bytes
  {
    var a, b := Pages.Ascending(rows) + [s], Pages.Ascending(rows + {s});
    Pages.TotalAppends(Weights(v), Pages.Ascending(rows), [s]);
    assert Pages.Total(Weights(v), [s]) == v[s].bytes;
    SameListed(rows, s);
    TotalOfSameRows(Weights(v), a, b);
  }

  lemma SameListed(rows: set<int>, s: int)
    requires s !in rows
    ensures multiset(Pages.Ascending(rows) + [s]) == multiset(Pages.Ascending(rows + {s}))
  {
    ListedOnce(rows);
    ListedOnce(rows + {s});
    assert multiset(rows) + multiset{s} == multiset(rows + {s});
  }

  lemma ListedOnce(rows: set<int>)
    ensures multiset(Pages.Ascending(rows)) == multiset(rows)
  {
    var listed := Pages.Ascending(rows);
    Pages.OrdersAreTotal();
    InOrderIsSorted(Pages.Older, rows);
    SortedIsDistinct(Pages.Older, listed);
    forall x
      ensures multiset(listed)[x] == multiset(rows)[x]
    {
      AtMostOnce(listed, x);
      assert x in multiset(listed) <==> x in listed;
    }
  }
}
