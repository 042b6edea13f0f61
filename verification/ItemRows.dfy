/**
 The rows behind the item page: which row starts an item in each selection mode, the rows the
 descriptor read pays for, and the rows the record read fetches for a selected descriptor.
 */
module ItemRows {
  import opened Basics
  import opened Pages

  datatype Kind =
    | ContentDelta | ItemCompleted | ItemUpdated | RemoteCached | UsageUpdated | SessionConfigUpdated | OtherKind

  /** `$.payload.kind`. `Standalone` is any of plan, contextCompaction, checkoutChanged, error,
      approval and userInputRequested. */
  datatype Tag =
    | AssistantDelta | AssistantMessage | UserMessage | ToolCall | TerminalProjection | CommandsUpdate | Usage
    | Standalone | OtherTag

  datatype Row = Row(kind: Kind, tag: Tag, item: Option<string>, eventType: Option<Kind>, generation: Option<int>,
                     firstSeq: Option<int>, firstTime: Option<int>, bytes: nat)

  type Events = map<int, Row>

  /** Every condition of both reads says `seq BETWEEN :low AND :high`. */
  function Between(events: Events, low: int, high: int): Events {
    map s | s in events && low <= s <= high :: events[s]
  }

  // ---------------------------------------------------------------- descriptors

  /** In the order of their page key prefixes: assistant, commands, event, replay, side, tool, user. */
  datatype Mode = Assistant | Commands | Exact | Replay | Side | NativeTool | NativeUser

  /** `page_key`: the prefix, and the item id, generation or sequence after it. */
  datatype PageKey = PageKey(mode: Mode, text: string, number: int)

  predicate IsDelta(r: Row) { r.kind == ContentDelta && r.tag == AssistantDelta }

  predicate IsMessage(r: Row) { r.kind == ItemCompleted && r.tag == AssistantMessage }

  predicate IsToolUpdate(r: Row) { r.kind == ItemUpdated && r.tag == ToolCall }

  predicate IsToolEnd(r: Row) { r.kind == ItemCompleted && r.tag == ToolCall }

  predicate IsReplay(r: Row) { r.kind == RemoteCached || r.tag == TerminalProjection || IsToolEnd(r) }

  predicate HasToolUpdate(v: Events, item: string) {
    exists n :: n in v && IsToolUpdate(v[n]) && v[n].item == Some(item)
  }

  function SideKind(r: Row): Option<Kind> {
    if r.kind == UsageUpdated || r.kind == SessionConfigUpdated then Some(r.kind)
    else if r.kind != RemoteCached then None
    else if r.tag == Usage then Some(UsageUpdated)
    else if r.tag == TerminalProjection && r.eventType in {Some(UsageUpdated), Some(SessionConfigUpdated)} then r.eventType
    else None
  }

  /** The rows each mode groups into items. */
  predicate Counts(v: Events, m: Mode, r: Row) {
    match m
    case Assistant => r.item.Some? && (IsDelta(r) || IsMessage(r))
    case Commands => r.tag == CommandsUpdate
    case Exact => r.item.None? && (r.tag == Standalone || (r.tag == TerminalProjection && r.eventType == Some(ItemCompleted)))
    case Replay => r.item.Some? && IsReplay(r) && !HasToolUpdate(v, r.item.value)
    case Side => SideKind(r).Some?
    case NativeTool => IsToolUpdate(r)
    case NativeUser => r.kind == ItemCompleted && r.tag == UserMessage
  }

  /** The item a row belongs to; a missing id or generation is NULL and equals nothing. */
  function KeyOf(m: Mode, s: int, r: Row): Option<PageKey> {
    match m
    case Commands => if r.generation.Some? then Some(PageKey(m, "", r.generation.value)) else None
    case Exact => Some(PageKey(m, "", s))
    case Side => Some(PageKey(m, if SideKind(r) == Some(UsageUpdated) then "usage.updated" else "session.config.updated", 0))
    case _ => if r.item.Some? then Some(PageKey(m, r.item.value, 0)) else None
  }

  /** Where an item is shown. */
  function Position(m: Mode, s: int, r: Row): int {
    if m == NativeTool && r.firstSeq.Some? then r.firstSeq.value
    else if m == Replay && r.kind == RemoteCached && r.tag == ToolCall && r.firstSeq.Some? && r.firstTime.Some?
      then r.firstSeq.value
    else s
  }

  /** The row at `p` is preferred to the row at `s` as the start of their common item. */
  predicate Outranks(v: Events, m: Mode, p: int, s: int)
    requires p in v && s in v
  {
    match m
    case NativeTool => p > s
    case Side => p > s
    case Replay =>
      Position(m, p, v[p]) < Position(m, s, v[s]) || (Position(m, p, v[p]) == Position(m, s, v[s]) && p < s)
    case _ => p < s
  }

  predicate SameItem(v: Events, m: Mode, p: int, s: int)
    requires p in v && s in v
  {
    KeyOf(m, s, v[s]).Some? && KeyOf(m, p, v[p]) == KeyOf(m, s, v[s])
  }

  predicate Starts(v: Events, m: Mode, s: int) {
    && s in v
    && Counts(v, m, v[s])
    && forall p :: p in v && Counts(v, m, v[p]) && SameItem(v, m, p, s) ==> !Outranks(v, m, p, s)
  }

  /** No two starts share a page key. */
  lemma OneStartPerKey(v: Events, m: Mode, s: int, other: int)
    requires Starts(v, m, s) && Starts(v, m, other)
    requires SameItem(v, m, s, other)
    ensures s == other
  {
  }

  // ---------------------------------------------------------------- the first read

  function Rows(v: Events, wanted: Row -> bool): set<int> {
    set e | e in v && wanted(v[e])
  }

  function Newest(s: set<int>): Option<int> {
    if s == {} then None else Some(Max(s))
  }

  function Single(s: Option<int>): set<int> {
    if s.Some? then {s.value} else {}
  }

  /** The row that speaks for the item that starts at `s`. */
  function Authority(v: Events, m: Mode, s: int): Option<int>
    requires s in v
  {
    match m
    case Assistant => Newest(Rows(v, (r: Row) => IsMessage(r) && r.item == v[s].item))
    case Commands => Newest(Rows(v, (r: Row) => r.tag == CommandsUpdate && r.generation == v[s].generation))
    case NativeUser => Newest(Rows(v, (r: Row) => r.kind == ItemCompleted && r.tag == UserMessage && r.item == v[s].item))
    case Replay => None
    case _ => Some(s)
  }

  /** The rows whose payloads the descriptor of the item that starts at `s` sums up. */
  function PaidRows(v: Events, m: Mode, s: int): set<int>
    requires s in v
  {
    var authority := Authority(v, m, s);
    match m
    case Assistant =>
      (set e | e in v && IsDelta(v[e]) && v[e].item == v[s].item && (authority.None? || e > authority.value))
      + Single(authority)
    case NativeTool => {s} + set e | e in v && e > s && IsToolEnd(v[e]) && v[e].item == v[s].item
    case Replay => Rows(v, (r: Row) => r.item == v[s].item && IsReplay(r))
    case _ => Single(authority)
  }

  function Weights(v: Events): Table {
    map s | s in v :: v[s].bytes
  }

  function BytesOf(v: Events, rows: set<int>): nat {
    Total(Weights(v), Ascending(rows))
  }

  datatype Descriptor = Descriptor(key: PageKey, first: int, authority: Option<int>, requiredBytes: nat)

  /** A start whose row names no item has no descriptor: its join finds nothing. */
  function Describe(v: Events, m: Mode, s: int): Option<Descriptor>
    requires s in v
  {
    var key := KeyOf(m, s, v[s]);
    if key.None? then None
    else Some(Descriptor(key.value, Position(m, s, v[s]), Authority(v, m, s), BytesOf(v, PaidRows(v, m, s))))
  }

  // ---------------------------------------------------------------- the second read

  /** `ITEM_PAGE_RECORD_SQL` for one selected descriptor: it knows the mode, the item id and the
      authority, and no longer the row the item started at. */
  function Fetched(v: Events, d: Descriptor): set<int> {
    match d.key.mode
    case Assistant =>
      (set e | e in v && IsDelta(v[e]) && v[e].item == Some(d.key.text) && (d.authority.None? || e > d.authority.value))
      + (set e | e in v && IsMessage(v[e]) && v[e].item == Some(d.key.text) && d.authority == Some(e))
    case NativeTool =>
      set e | e in v && v[e].item == Some(d.key.text)
              && d.authority.Some? && (e == d.authority.value || (e > d.authority.value && IsToolEnd(v[e])))
    case Replay => set e | e in v && v[e].item == Some(d.key.text) && IsReplay(v[e])
    case _ => set e | e in v && d.authority == Some(e)
  }

  lemma NewestIsThere(v: Events, wanted: Row -> bool, s: int)
    requires s in v && wanted(v[s])
    ensures Newest(Rows(v, wanted)).Some? && Newest(Rows(v, wanted)).value in Rows(v, wanted)
  {
    assert s in Rows(v, wanted);
  }

  /** For the modes whose authority is one row. */
  lemma AuthorityIsThere(v: Events, m: Mode, s: int)
    requires Starts(v, m, s) && m != Assistant && m != Replay
    ensures Authority(v, m, s).Some? && Authority(v, m, s).value in v
  {
    if m == Commands {
      NewestIsThere(v, (r: Row) => r.tag == CommandsUpdate && r.generation == v[s].generation, s);
    }
    if m == NativeUser {
      NewestIsThere(v, (r: Row) => r.kind == ItemCompleted && r.tag == UserMessage && r.item == v[s].item, s);
    }
  }

  lemma AssistantFetched(v: Events, s: int)
    requires Starts(v, Assistant, s)
    ensures Fetched(v, Describe(v, Assistant, s).value) == PaidRows(v, Assistant, s)
  {
    var authority := Authority(v, Assistant, s);
    var messages := Rows(v, (r: Row) => IsMessage(r) && r.item == v[s].item);
    assert authority.Some? ==> authority.value in messages;
    assert (set e | e in v && IsMessage(v[e]) && v[e].item == v[s].item && authority == Some(e)) == Single(authority);
  }

  /** The record read finds the very rows the descriptor read added up. */
  lemma FetchedIsPaid(v: Events, m: Mode, s: int)
    requires Starts(v, m, s) && KeyOf(m, s, v[s]).Some?
    ensures Fetched(v, Describe(v, m, s).value) == PaidRows(v, m, s)
  {
    if m == Assistant {
      AssistantFetched(v, s);
    } else if m == Replay {
    } else if m == NativeTool {
      ToolFetched(v, s);
    } else {
      AuthorityIsThere(v, m, s);
    }
  }

  lemma ToolFetched(v: Events, s: int)
    requires Starts(v, NativeTool, s) && v[s].item.Some?
    ensures Fetched(v, Describe(v, NativeTool, s).value) == PaidRows(v, NativeTool, s)
  {
  }

  /** `watermark`: MAX(seq) in the range, or 0 when there is none. */
  function Watermark(v: Events): int {
    if v.Keys == {} then 0 else Max(v.Keys)
  }

  /** The record read stops at the watermark and loses nothing by it. */
  lemma WatermarkIsEnough(events: Events, low: int, high: int)
    requires Between(events, low, high) != map[]
    ensures Between(events, low, Watermark(Between(events, low, high))) == Between(events, low, high)
  {
    var v := Between(events, low, high);
    assert v.Keys == {} ==> v == map[];
    assert Watermark(v) in v.Keys;
    var w := Between(events, low, Watermark(v));
    assert forall s :: s in v ==> s in v.Keys && s <= Watermark(v);
    assert w == v;
  }

  // ---------------------------------------------------------------- a whole page

  function TransferBytes(ds: seq<Descriptor>): nat {
    if ds == [] then 0 else ds[0].requiredBytes + TransferBytes(ds[1..])
  }

  /** UNION ALL over the selected descriptors, before the final ORDER BY. */
  function Union(v: Events, ds: seq<Descriptor>): seq<int> {
    if ds == [] then [] else Ascending(Fetched(v, ds[0])) + Union(v, ds[1..])
  }

  ghost predicate IsDescribed(v: Events, d: Descriptor) {
    exists m, s :: Starts(v, m, s) && Describe(v, m, s) == Some(d)
  }

  lemma ItemIsPaidFor(v: Events, d: Descriptor)
    requires IsDescribed(v, d)
    ensures BytesOf(v, Fetched(v, d)) == d.requiredBytes
  {
    var m, s :| Starts(v, m, s) && Describe(v, m, s) == Some(d);
    FetchedIsPaid(v, m, s);
  }

  lemma {:induction false} UnionIsPaidFor(v: Events, ds: seq<Descriptor>)
    requires forall d :: d in ds ==> IsDescribed(v, d)
    ensures Total(Weights(v), Union(v, ds)) == TransferBytes(ds)
  {
    if ds != [] {
      assert ds[0] in ds;
      ItemIsPaidFor(v, ds[0]);
      UnionIsPaidFor(v, ds[1..]);
      TotalAppends(Weights(v), Ascending(Fetched(v, ds[0])), Union(v, ds[1..]));
    }
  }

  lemma {:induction false} TotalCoversEach(t: Table, listed: seq<int>, k: nat)
    requires k < |listed|
    ensures Weight(t, listed[k]) <= Total(t, listed)
  {
    if k > 0 {
      TotalCoversEach(t, listed[1..], k - 1);
    }
  }

  lemma WithoutOne(t: Table, b: seq<int>, k: nat)
    requires k < |b|
    ensures multiset(b[..k] + b[k + 1..]) == multiset(b) - multiset{b[k]}
    ensures Total(t, b) == Weight(t, b[k]) + Total(t, b[..k] + b[k + 1..])
  {
    assert b == b[..k] + b[k..] && b[k..] == [b[k]] + b[k + 1..];
    TotalAppends(t, b[..k], b[k..]);
    TotalAppends(t, b[..k], b[k + 1..]);
    assert b[k..][1..] == b[k + 1..];
  }

  /** A total does not depend on the order of the rows. */
  lemma {:induction false} TotalOfSameRows(t: Table, a: seq<int>, b: seq<int>)
    requires multiset(a) == multiset(b)
    ensures Total(t, a) == Total(t, b)
  {
    if a == [] {
      assert |b| == |multiset(b)|;
    } else {
      assert a[0] in multiset(b);
      var k :| 0 <= k < |b| && b[k] == a[0];
      WithoutOne(t, b, k);
      assert a == [a[0]] + a[1..];
      assert multiset(a[1..]) == multiset(a) - multiset{a[0]};
      TotalOfSameRows(t, a[1..], b[..k] + b[k + 1..]);
    }
  }

  /** Whatever order the records come back in, they are the rows the page was budgeted for:
      each item gets the bytes its descriptor states and the page the bytes it announced. */
  lemma SecondReadIsWhatWasPaidFor(events: Events, low: int, high: int, ds: seq<Descriptor>, records: seq<int>)
    requires ds != [] && forall d :: d in ds ==> IsDescribed(Between(events, low, high), d)
    requires multiset(records)
          == multiset(Union(Between(events, low, Watermark(Between(events, low, high))), ds))
    ensures Total(Weights(Between(events, low, high)), records) == TransferBytes(ds)
    ensures forall d :: d in ds ==>
      BytesOf(Between(events, low, high), Fetched(Between(events, low, Watermark(Between(events, low, high))), d)) == d.requiredBytes
  {
    var v := Between(events, low, high);
    assert ds[0] in ds;
    var m, s :| Starts(v, m, s) && Describe(v, m, s) == Some(ds[0]);
    assert s in v;
    WatermarkIsEnough(events, low, high);
    UnionIsPaidFor(v, ds);
    TotalOfSameRows(Weights(v), records, Union(v, ds));
    forall d | d in ds
      ensures BytesOf(v, Fetched(v, d)) == d.requiredBytes
    {
      ItemIsPaidFor(v, d);
    }
  }
}
