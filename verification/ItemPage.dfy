/**
 Item pages: the nearest candidates of each source, merged, cut to the ceiling, and cut again by
 the byte budget, in either direction from a cursor that is only a first sequence.
 */
module ItemPage {
  import opened Basics
  import opened Budget
  import opened ItemRows
  import opened Ordering
  import Pages
  import opened Sorting

  const ITEM_PAGE_CANDIDATE_CEILING: nat := 512

  datatype Direction = Before | After

  /** One descriptor's place on the page, and the row it starts at. */
  datatype Spot = Spot(first: int, key: PageKey, row: int)

  // ---------------------------------------------------------------- orders

  function Rank(m: Mode): int {
    match m
    case Assistant => 0
    case Commands => 1
    case Exact => 2
    case Replay => 3
    case Side => 4
    case NativeTool => 5
    case NativeUser => 6
  }

  /** `page_key`. Sequences and generations compare as numbers here and as text in the source;
      two keys that differ in nothing else never share a first sequence. */
  predicate KeyLess(a: PageKey, b: PageKey) {
    || Rank(a.mode) < Rank(b.mode)
    || (a.mode == b.mode && TextLess(a.text, b.text))
    || (a.mode == b.mode && a.text == b.text && a.number < b.number)
  }

  predicate KeyThenSeq(a: Spot, b: Spot) {
    KeyLess(a.key, b.key) || (a.key == b.key && a.row < b.row)
  }

  /** `ORDER BY -first_seq, page_key`. */
  predicate Descends(a: Spot, b: Spot) {
    a.first > b.first || (a.first == b.first && KeyThenSeq(a, b))
  }

  /** `ORDER BY first_seq, page_key`. */
  predicate Ascends(a: Spot, b: Spot) {
    a.first < b.first || (a.first == b.first && KeyThenSeq(a, b))
  }

  function By(dir: Direction): (Spot, Spot) -> bool {
    if dir == Before then Descends else Ascends
  }

  lemma KeysAreTotal()
    ensures StrictTotal(KeyLess)
  {
    forall a: PageKey
      ensures !KeyLess(a, a)
    {
      TextIrreflexive(a.text);
    }
    forall a: PageKey, b: PageKey
      ensures KeyLess(a, b) || KeyLess(b, a) || a == b
    {
      TextTotal(a.text, b.text);
    }
    forall a: PageKey, b: PageKey, c: PageKey | KeyLess(a, b) && KeyLess(b, c)
      ensures KeyLess(a, c)
    {
      if TextLess(a.text, b.text) && TextLess(b.text, c.text) {
        TextTransitive(a.text, b.text, c.text);
      }
    }
  }

  lemma ByIsTotal(dir: Direction)
    ensures StrictTotal(By(dir))
  {
    KeysAreTotal();
    assert forall a, b :: Descends(a, b) || Descends(b, a) || a == b;
    assert forall a, b :: Ascends(a, b) || Ascends(b, a) || a == b;
  }

  /** The order of one source's starts: no page key yet. */
  datatype Begin = Begin(first: int, row: int)

  predicate Later(a: Begin, b: Begin) {
    a.first > b.first || (a.first == b.first && a.row > b.row)
  }

  predicate Sooner(a: Begin, b: Begin) {
    a.first < b.first || (a.first == b.first && a.row < b.row)
  }

  function Nearer(dir: Direction): (Begin, Begin) -> bool {
    if dir == Before then Later else Sooner
  }

  lemma NearerIsTotal(dir: Direction)
    ensures StrictTotal(Nearer(dir))
  {
  }

  predicate Beyond(dir: Direction, first: int, cursor: int) {
    if dir == Before then first < cursor else first > cursor
  }

  // ---------------------------------------------------------------- candidates

  /** What one source offers beyond the cursor. */
  function Beginnings(v: Events, m: Mode, dir: Direction, cursor: int): set<Begin> {
    set s | s in v && Starts(v, m, s) && Beyond(dir, Position(m, s, v[s]), cursor) :: Begin(Position(m, s, v[s]), s)
  }

  /** Each source lists its nearest starts; the two side records are not limited. */
  function Chosen(v: Events, m: Mode, dir: Direction, cursor: int, ceiling: nat): set<Begin> {
    if m == Side then Beginnings(v, m, dir, cursor)
    else
      NearerIsTotal(dir);
      Elements(Top(Nearer(dir), Beginnings(v, m, dir, cursor), ceiling))
  }

  /** The descriptors of what the sources chose. */
  function Merged(v: Events, dir: Direction, cursor: int, ceiling: nat): set<Spot> {
    set m: Mode, b | b in Chosen(v, m, dir, cursor, ceiling) && b.row in v && KeyOf(m, b.row, v[b.row]).Some?
      :: Spot(b.first, KeyOf(m, b.row, v[b.row]).value, b.row)
  }

  function Candidates(v: Events, dir: Direction, cursor: int, ceiling: nat): seq<Spot> {
    ByIsTotal(dir);
    Top(By(dir), Merged(v, dir, cursor, ceiling), ceiling)
  }

  /** Every item of the range, whatever its source. */
  function AllItems(v: Events): set<Spot> {
    set m: Mode, s | s in v && Starts(v, m, s) && KeyOf(m, s, v[s]).Some?
      :: Spot(Position(m, s, v[s]), KeyOf(m, s, v[s]).value, s)
  }

  function ItemsBeyond(v: Events, dir: Direction, cursor: int): set<Spot> {
    set d | d in AllItems(v) && Beyond(dir, d.first, cursor)
  }

  /** Rows that start an item say which: user messages and tool updates have an item id, command
      lists a generation. */
  predicate Named(v: Events) {
    forall s :: s in v ==>
      && (v[s].tag == CommandsUpdate ==> v[s].generation.Some?)
      && (IsToolUpdate(v[s]) ==> v[s].item.Some?)
      && (v[s].kind == ItemCompleted && v[s].tag == UserMessage ==> v[s].item.Some?)
  }

  predicate DistinctFirsts(v: Events) {
    forall d, e :: d in AllItems(v) && e in AllItems(v) && d.first == e.first ==> d == e
  }

  lemma NamedStartsHaveKeys(v: Events, m: Mode, s: int)
    requires Named(v) && Starts(v, m, s)
    ensures KeyOf(m, s, v[s]).Some?
  {
  }

  function SpotOf(v: Events, m: Mode, b: Begin): Spot
    requires b.row in v && KeyOf(m, b.row, v[b.row]).Some?
  {
    Spot(b.first, KeyOf(m, b.row, v[b.row]).value, b.row)
  }

  lemma BeginWithKey(v: Events, m: Mode, dir: Direction, cursor: int, b: Begin)
    requires b in Beginnings(v, m, dir, cursor) && b.row in v && KeyOf(m, b.row, v[b.row]).Some?
    ensures SpotOf(v, m, b) in ItemsBeyond(v, dir, cursor)
  {
    assert SpotOf(v, m, b) in AllItems(v);
  }

  lemma BeginIsAnItem(v: Events, m: Mode, dir: Direction, cursor: int, b: Begin)
    requires Named(v) && b in Beginnings(v, m, dir, cursor)
    ensures b.row in v && KeyOf(m, b.row, v[b.row]).Some?
    ensures SpotOf(v, m, b) in ItemsBeyond(v, dir, cursor)
  {
    NamedStartsHaveKeys(v, m, b.row);
    BeginWithKey(v, m, dir, cursor, b);
  }

  lemma MergedAreItems(v: Events, dir: Direction, cursor: int, ceiling: nat)
    ensures Merged(v, dir, cursor, ceiling) <= ItemsBeyond(v, dir, cursor)
  {
    forall d | d in Merged(v, dir, cursor, ceiling)
      ensures d in ItemsBeyond(v, dir, cursor)
    {
      var m: Mode, b :| b in Chosen(v, m, dir, cursor, ceiling) && b.row in v && KeyOf(m, b.row, v[b.row]).Some?
        && d == Spot(b.first, KeyOf(m, b.row, v[b.row]).value, b.row);
      BeginWithKey(v, m, dir, cursor, b);
    }
  }

  /** Starts of one source, nearest first, are items, nearest first. */
  lemma SpotsAreSorted(v: Events, m: Mode, dir: Direction, cursor: int, begins: seq<Begin>) returns (spots: seq<Spot>)
    requires Named(v) && DistinctFirsts(v)
    requires Sorted(Nearer(dir), begins) && forall k :: 0 <= k < |begins| ==> begins[k] in Beginnings(v, m, dir, cursor)
    ensures |spots| == |begins| && Sorted(By(dir), spots)
    ensures forall k :: 0 <= k < |spots| ==>
      spots[k].first == begins[k].first && spots[k].row == begins[k].row && spots[k] in ItemsBeyond(v, dir, cursor)
  {
    forall k | 0 <= k < |begins|
      ensures begins[k].row in v && KeyOf(m, begins[k].row, v[begins[k].row]).Some?
      ensures SpotOf(v, m, begins[k]) in ItemsBeyond(v, dir, cursor)
    {
      BeginIsAnItem(v, m, dir, cursor, begins[k]);
    }
    spots := seq(|begins|, k requires 0 <= k < |begins| => SpotOf(v, m, begins[k]));
    forall i, j | 0 <= i < j < |spots|
      ensures By(dir)(spots[i], spots[j])
    {
      var a, b := spots[i], spots[j];
      assert Nearer(dir)(begins[i], begins[j]);
      assert a in AllItems(v) && b in AllItems(v);
      assert a.first == b.first ==> a == b;
    }
  }

  /** A start its source left out has a whole page of nearer items before it. */
  lemma LeftOutIsFar(v: Events, m: Mode, dir: Direction, cursor: int, ceiling: nat, b: Begin) returns (ahead: seq<Spot>)
    requires Named(v) && DistinctFirsts(v) && m != Side
    requires b in Beginnings(v, m, dir, cursor) && b !in Chosen(v, m, dir, cursor, ceiling)
    ensures b.row in v && KeyOf(m, b.row, v[b.row]).Some?
    ensures |ahead| == ceiling && Sorted(By(dir), ahead)
    ensures forall e :: e in ahead ==> e in ItemsBeyond(v, dir, cursor) && By(dir)(e, SpotOf(v, m, b))
  {
    NearerIsTotal(dir);
    var begins := Top(Nearer(dir), Beginnings(v, m, dir, cursor), ceiling);
    TopIsNext(Nearer(dir), Beginnings(v, m, dir, cursor), ceiling);
    assert b !in begins;
    BeginIsAnItem(v, m, dir, cursor, b);
    ahead := SpotsAreSorted(v, m, dir, cursor, begins);
    forall k | 0 <= k < |ahead|
      ensures By(dir)(ahead[k], SpotOf(v, m, b))
    {
      var a, d := ahead[k], SpotOf(v, m, b);
      assert begins[k] in begins;
      assert Nearer(dir)(begins[k], b);
      assert a in AllItems(v) && d in AllItems(v);
      assert a.first == d.first ==> a == d;
    }
  }

  /** Few enough starts of its own source are nearer. The two side records are always offered. */
  predicate Offered(v: Events, dir: Direction, cursor: int, ceiling: nat, d: Spot) {
    || d.key.mode == Side
    || |Ahead(Nearer(dir), Beginnings(v, d.key.mode, dir, cursor), Begin(d.first, d.row))| < ceiling
  }

  lemma ItemBegins(v: Events, dir: Direction, cursor: int, d: Spot)
    requires d in ItemsBeyond(v, dir, cursor)
    ensures d.row in v && KeyOf(d.key.mode, d.row, v[d.row]) == Some(d.key)
    ensures Begin(d.first, d.row) in Beginnings(v, d.key.mode, dir, cursor)
  {
  }

  lemma ChosenIsOffered(v: Events, dir: Direction, cursor: int, ceiling: nat, d: Spot)
    requires Begin(d.first, d.row) in Beginnings(v, d.key.mode, dir, cursor)
    ensures Begin(d.first, d.row) in Chosen(v, d.key.mode, dir, cursor, ceiling) <==> Offered(v, dir, cursor, ceiling, d)
  {
    NearerIsTotal(dir);
    if d.key.mode != Side {
      RankInTop(Nearer(dir), Beginnings(v, d.key.mode, dir, cursor), ceiling, Begin(d.first, d.row));
    }
  }

  /** The sources hand on exactly the items they offer. */
  lemma MergedAreTheOffered(v: Events, dir: Direction, cursor: int, ceiling: nat, d: Spot)
    ensures d in Merged(v, dir, cursor, ceiling) <==> d in ItemsBeyond(v, dir, cursor) && Offered(v, dir, cursor, ceiling, d)
  {
    if d in Merged(v, dir, cursor, ceiling) {
      MergedAreItems(v, dir, cursor, ceiling);
      MergedComesFrom(v, dir, cursor, ceiling, d);
      ItemBegins(v, dir, cursor, d);
      ChosenIsOffered(v, dir, cursor, ceiling, d);
    }
    if d in ItemsBeyond(v, dir, cursor) && Offered(v, dir, cursor, ceiling, d) {
      ItemBegins(v, dir, cursor, d);
      ChosenIsOffered(v, dir, cursor, ceiling, d);
    }
  }

  lemma MergedComesFrom(v: Events, dir: Direction, cursor: int, ceiling: nat, d: Spot)
    requires d in Merged(v, dir, cursor, ceiling)
    ensures Begin(d.first, d.row) in Chosen(v, d.key.mode, dir, cursor, ceiling)
  {
    var m: Mode, b :| b in Chosen(v, m, dir, cursor, ceiling) && b.row in v && KeyOf(m, b.row, v[b.row]).Some?
      && d == Spot(b.first, KeyOf(m, b.row, v[b.row]).value, b.row);
  }

  predicate NearestAreOffered(v: Events, dir: Direction, cursor: int, ceiling: nat) {
    ByIsTotal(dir);
    forall d :: d in Top(By(dir), ItemsBeyond(v, dir, cursor), ceiling) ==> Offered(v, dir, cursor, ceiling, d)
  }

  /** The nearest of each source, merged and cut, are the nearest of all if and only if each of the
      nearest is offered: fewer starts of its source than the ceiling are nearer. */
  lemma NearestExactly(v: Events, dir: Direction, cursor: int, ceiling: nat)
    ensures StrictTotal(By(dir))
    ensures Candidates(v, dir, cursor, ceiling) == Top(By(dir), ItemsBeyond(v, dir, cursor), ceiling)
       <==> NearestAreOffered(v, dir, cursor, ceiling)
  {
    ByIsTotal(dir);
    var all, merged := ItemsBeyond(v, dir, cursor), Merged(v, dir, cursor, ceiling);
    forall d | d in Top(By(dir), all, ceiling)
      ensures d in merged <==> Offered(v, dir, cursor, ceiling, d)
    {
      MergedAreTheOffered(v, dir, cursor, ceiling, d);
    }
    MergedAreItems(v, dir, cursor, ceiling);
    if NearestAreOffered(v, dir, cursor, ceiling) {
      TopOfEnough(By(dir), merged, all, ceiling);
    }
    assert forall d :: d in Candidates(v, dir, cursor, ceiling) ==> d in merged;
  }

  /** Named starts and distinct first sequences are enough. */
  lemma NearestOverall(v: Events, dir: Direction, cursor: int, ceiling: nat)
    requires Named(v) && DistinctFirsts(v)
    ensures NearestAreOffered(v, dir, cursor, ceiling) && StrictTotal(By(dir))
    ensures Candidates(v, dir, cursor, ceiling) == Top(By(dir), ItemsBeyond(v, dir, cursor), ceiling)
  {
    ByIsTotal(dir);
    forall d | d in Top(By(dir), ItemsBeyond(v, dir, cursor), ceiling)
      ensures Offered(v, dir, cursor, ceiling, d)
    {
      NearItemsAreOffered(v, dir, cursor, ceiling, d);
    }
    NearestExactly(v, dir, cursor, ceiling);
  }

  lemma NearItemsAreOffered(v: Events, dir: Direction, cursor: int, ceiling: nat, d: Spot)
    requires Named(v) && DistinctFirsts(v)
    requires StrictTotal(By(dir)) && d in Top(By(dir), ItemsBeyond(v, dir, cursor), ceiling)
    ensures Offered(v, dir, cursor, ceiling, d)
  {
    var b := Begin(d.first, d.row);
    ItemBegins(v, dir, cursor, d);
    ChosenIsOffered(v, dir, cursor, ceiling, d);
    if !Offered(v, dir, cursor, ceiling, d) {
      var ahead := LeftOutIsFar(v, d.key.mode, dir, cursor, ceiling, b);
      FewerAhead(By(dir), ItemsBeyond(v, dir, cursor), ceiling, d, ahead);
      assert false;
    }
  }

  // ---------------------------------------------------------------- one page

  function Cost(v: Events, d: Spot): nat {
    if d.row in v then BytesOf(v, PaidRows(v, d.key.mode, d.row)) else 0
  }

  function Costs(v: Events): Spot -> nat {
    d => Cost(v, d)
  }

  function Selected(v: Events, dir: Direction, cursor: int, ceiling: nat, budget: nat): seq<Spot> {
    Affordable(Costs(v), Candidates(v, dir, cursor, ceiling), 0, budget)
  }

  /** Every item beyond the cursor, nearest first. */
  function Listing(v: Events, dir: Direction, cursor: int): seq<Spot> {
    ByIsTotal(dir);
    InOrder(By(dir), ItemsBeyond(v, dir, cursor))
  }

  /** A page is the budget prefix of its candidates. */
  lemma PageIsBudgetPrefix(v: Events, dir: Direction, cursor: int, ceiling: nat, budget: nat) returns (n: nat)
    ensures IsBudgetPrefix(Costs(v), Candidates(v, dir, cursor, ceiling), 0, budget, n)
    ensures Selected(v, dir, cursor, ceiling, budget) == Candidates(v, dir, cursor, ceiling)[..n]
  {
    n := AffordableIsPrefix(Costs(v), Candidates(v, dir, cursor, ceiling), 0, budget);
  }

  /** The page of a reader who sees all items at once. */
  function NearestPage(v: Events, dir: Direction, cursor: int, ceiling: nat, budget: nat): seq<Spot> {
    ByIsTotal(dir);
    Affordable(Costs(v), Top(By(dir), ItemsBeyond(v, dir, cursor), ceiling), 0, budget)
  }

  /** On every budget the page is the budget prefix of the nearest items, if and only if each of
      the nearest items is offered. */
  lemma PagesAreNearestExactly(v: Events, dir: Direction, cursor: int, ceiling: nat)
    ensures (forall budget :: Selected(v, dir, cursor, ceiling, budget) == NearestPage(v, dir, cursor, ceiling, budget))
       <==> NearestAreOffered(v, dir, cursor, ceiling)
  {
    NearestExactly(v, dir, cursor, ceiling);
    var found := Candidates(v, dir, cursor, ceiling);
    var nearest := Top(By(dir), ItemsBeyond(v, dir, cursor), ceiling);
    var budget := Spent(Costs(v), found) + Spent(Costs(v), nearest);
    AffordableAll(Costs(v), found, 0, budget);
    AffordableAll(Costs(v), nearest, 0, budget);
    if found != nearest {
      assert Selected(v, dir, cursor, ceiling, budget) != NearestPage(v, dir, cursor, ceiling, budget);
    }
  }

  function Firsts(spots: seq<Spot>): set<int> {
    set k | 0 <= k < |spots| :: spots[k].first
  }

  /** `MIN(first_seq)` and `MAX(first_seq)` of the selected items. */
  function CursorOf(dir: Direction, spots: seq<Spot>): Option<int> {
    if Firsts(spots) == {} then None
    else Some(if dir == Before then Min(Firsts(spots)) else Max(Firsts(spots)))
  }

  // ---------------------------------------------------------------- payloads are never empty

  predicate PositiveBytes(v: Events) {
    forall s :: s in v ==> 0 < v[s].bytes
  }

  /** Every item has a row to show. */
  lemma PaidRowExists(v: Events, m: Mode, s: int) returns (e: int)
    requires Starts(v, m, s)
    ensures e in PaidRows(v, m, s) && e in v
  {
    var authority := Authority(v, m, s);
    if m == Assistant {
      var messages := Rows(v, (r: Row) => IsMessage(r) && r.item == v[s].item);
      assert authority.Some? ==> authority.value in messages;
      e := if authority.Some? then authority.value else s;
      assert IsMessage(v[s]) ==> s in messages;
    } else if m == Replay {
      e := s;
    } else {
      AuthorityIsThere(v, m, s);
      e := authority.value;
    }
  }

  lemma ItemsCostSomething(v: Events, d: Spot)
    requires PositiveBytes(v) && d in AllItems(v)
    ensures 0 < Cost(v, d)
  {
    var e := PaidRowExists(v, d.key.mode, d.row);
    var rows := Pages.Ascending(PaidRows(v, d.key.mode, d.row));
    assert e in rows;
    var k :| 0 <= k < |rows| && rows[k] == e;
    TotalCoversEach(Weights(v), rows, k);
  }

  // ---------------------------------------------------------------- has_before and has_after

  /** Some row of the same item, of any kind, comes earlier. */
  predicate Preceded(v: Events, s: int)
    requires s in v
  {
    v[s].item.Some? && exists p :: p in v && p < s && v[p].item == v[s].item
  }

  /** One EXISTS probe. For assistant and user items it looks for a row that no other row of the
      item precedes, of whatever kind; the other probes look for the very starts. */
  predicate Probe(v: Events, m: Mode, dir: Direction, cursor: int) {
    if m == Assistant || m == NativeUser
    then exists s :: s in v && Counts(v, m, v[s]) && !Preceded(v, s) && Beyond(dir, s, cursor)
    else exists s :: s in v && Starts(v, m, s) && Beyond(dir, Position(m, s, v[s]), cursor)
  }

  /** An empty page has no cursor, and nothing compares with NULL. */
  predicate HasMore(v: Events, dir: Direction, cursor: Option<int>) {
    cursor.Some? && exists m: Mode :: Probe(v, m, dir, cursor.value)
  }

  /** An item the probes do not see: another row of it comes before its first message row. */
  predicate Hidden(v: Events, d: Spot) {
    (d.key.mode == Assistant || d.key.mode == NativeUser) && d.row in v && Preceded(v, d.row)
  }

  /** A start beyond the cursor whose row names no item: no page lists it. */
  predicate NamelessBeyond(v: Events, dir: Direction, cursor: int) {
    exists m: Mode, s :: s in v && NamelessStart(v, m, s) && Beyond(dir, Position(m, s, v[s]), cursor)
  }

  predicate NamelessStart(v: Events, m: Mode, s: int) {
    s in v && Starts(v, m, s) && KeyOf(m, s, v[s]).None?
  }

  lemma NamedLeaveNoNameless(v: Events, dir: Direction, cursor: int)
    requires Named(v)
    ensures !NamelessBeyond(v, dir, cursor)
  {
    forall m: Mode, s | Starts(v, m, s)
      ensures !NamelessStart(v, m, s)
    {
      NamedStartsHaveKeys(v, m, s);
    }
  }

  predicate VisibleBeyond(v: Events, dir: Direction, cursor: int) {
    exists d :: d in ItemsBeyond(v, dir, cursor) && !Hidden(v, d)
  }

  lemma ProbeFindsStart(v: Events, m: Mode, dir: Direction, cursor: int)
    requires Probe(v, m, dir, cursor)
    ensures VisibleBeyond(v, dir, cursor) || NamelessBeyond(v, dir, cursor)
  {
    var s :| s in v && Starts(v, m, s) && Beyond(dir, Position(m, s, v[s]), cursor)
      && (m == Assistant || m == NativeUser ==> !Preceded(v, s));
    if KeyOf(m, s, v[s]).Some? {
      var d := Spot(Position(m, s, v[s]), KeyOf(m, s, v[s]).value, s);
      assert d in AllItems(v);
      assert !Hidden(v, d);
    } else {
      assert NamelessStart(v, m, s);
    }
  }

  lemma ItemAnswersProbe(v: Events, dir: Direction, cursor: int, d: Spot)
    requires d in ItemsBeyond(v, dir, cursor) && !Hidden(v, d)
    ensures Probe(v, d.key.mode, dir, cursor)
  {
    ItemHasDescriptor(v, d);
  }

  lemma NamelessAnswersProbe(v: Events, dir: Direction, cursor: int)
    requires NamelessBeyond(v, dir, cursor)
    ensures exists m: Mode :: Probe(v, m, dir, cursor)
  {
    var m: Mode, s :| s in v && NamelessStart(v, m, s) && Beyond(dir, Position(m, s, v[s]), cursor);
    assert m != Assistant && !(m == NativeUser && Preceded(v, s));
    assert Probe(v, m, dir, cursor);
  }

  /** The flags say exactly whether something beyond the cursor answers a probe: an item the probes
      can see, or a start that names no item and that no page will list. */
  lemma HasMoreExactly(v: Events, dir: Direction, cursor: int)
    ensures HasMore(v, dir, Some(cursor)) <==> VisibleBeyond(v, dir, cursor) || NamelessBeyond(v, dir, cursor)
  {
    if m: Mode :| Probe(v, m, dir, cursor) {
      ProbeFindsStart(v, m, dir, cursor);
    }
    if VisibleBeyond(v, dir, cursor) {
      var d :| d in ItemsBeyond(v, dir, cursor) && !Hidden(v, d);
      ItemAnswersProbe(v, dir, cursor, d);
    }
    if NamelessBeyond(v, dir, cursor) {
      NamelessAnswersProbe(v, dir, cursor);
    }
  }

  /** The flag is right exactly when, with nothing left, no nameless start is left either, and, with
      items left, one of them can be seen or a nameless start stands in for them. */
  lemma FlagIsRightExactly(v: Events, dir: Direction, cursor: int)
    ensures (HasMore(v, dir, Some(cursor)) <==> ItemsBeyond(v, dir, cursor) != {})
       <==> if ItemsBeyond(v, dir, cursor) == {} then !NamelessBeyond(v, dir, cursor)
            else VisibleBeyond(v, dir, cursor) || NamelessBeyond(v, dir, cursor)
  {
    HasMoreExactly(v, dir, cursor);
  }

  // ---------------------------------------------------------------- list_items_before and list_items_after

  datatype PageOfItems = PageOfItems(items: seq<Descriptor>, beforeCursor: Option<int>, afterCursor: Option<int>,
                                     hasBefore: bool, hasAfter: bool,
                                     watermark: int, transferBytes: nat, oversized: bool)

  datatype PageError = InvalidCoverage

  lemma ItemHasDescriptor(v: Events, d: Spot)
    requires d in AllItems(v)
    ensures Starts(v, d.key.mode, d.row) && Describe(v, d.key.mode, d.row).Some?
    ensures Describe(v, d.key.mode, d.row).value.key == d.key && Describe(v, d.key.mode, d.row).value.first == d.first
    ensures Describe(v, d.key.mode, d.row).value.requiredBytes == Cost(v, d)
  {
  }

  function Described(v: Events, spots: seq<Spot>): seq<Descriptor>
    requires forall d :: d in spots ==> d in AllItems(v)
    ensures |Described(v, spots)| == |spots|
  {
    if spots == [] then []
    else
      assert spots[0] in spots;
      ItemHasDescriptor(v, spots[0]);
      [Describe(v, spots[0].key.mode, spots[0].row).value] + Described(v, spots[1..])
  }

  lemma SelectedAreItems(v: Events, dir: Direction, cursor: int, ceiling: nat, budget: nat)
    ensures forall d :: d in Selected(v, dir, cursor, ceiling, budget) ==> d in ItemsBeyond(v, dir, cursor)
  {
    ByIsTotal(dir);
    AffordableAreListed(Costs(v), Candidates(v, dir, cursor, ceiling), 0, budget);
    MergedAreItems(v, dir, cursor, ceiling);
  }

  /** The items are shown in display order whichever way the page was cut. */
  function QueryItemPage(events: Events, low: int, high: int, cursor: int, budget: nat, dir: Direction)
    : Outcome<PageOfItems, PageError>
  {
    if low > high then Refused(InvalidCoverage)
    else
      var v := Between(events, low, high);
      var selected := Selected(v, dir, cursor, ITEM_PAGE_CANDIDATE_CEILING, budget);
      SelectedAreItems(v, dir, cursor, ITEM_PAGE_CANDIDATE_CEILING, budget);
      ByIsTotal(After);
      Done(PageOfItems(Described(v, InOrder(Ascends, Elements(selected))),
                       CursorOf(Before, selected), CursorOf(After, selected),
                       HasMore(v, Before, CursorOf(Before, selected)), HasMore(v, After, CursorOf(After, selected)),
                       Watermark(v),
                       Spent(Costs(v), selected), budget < Spent(Costs(v), selected)))
  }

  lemma {:induction false} DescribedCost(v: Events, spots: seq<Spot>)
    requires forall d :: d in spots ==> d in AllItems(v)
    ensures TransferBytes(Described(v, spots)) == Spent(Costs(v), spots)
    ensures forall x :: x in Described(v, spots) ==> IsDescribed(v, x)
  {
    if spots != [] {
      assert spots[0] in spots;
      ItemHasDescriptor(v, spots[0]);
      DescribedCost(v, spots[1..]);
    }
  }

  /** The page shows what was selected, sorted. */
  lemma ShownIsSelected(v: Events, dir: Direction, cursor: int, budget: nat)
    ensures var selected := Selected(v, dir, cursor, ITEM_PAGE_CANDIDATE_CEILING, budget);
      && StrictTotal(Ascends)
      && Distinct(selected)
      && |InOrder(Ascends, Elements(selected))| == |selected|
      && Spent(Costs(v), InOrder(Ascends, Elements(selected))) == Spent(Costs(v), selected)
  {
    ByIsTotal(dir);
    ByIsTotal(After);
    var walk := Candidates(v, dir, cursor, ITEM_PAGE_CANDIDATE_CEILING);
    var selected := Selected(v, dir, cursor, ITEM_PAGE_CANDIDATE_CEILING, budget);
    TopIsNext(By(dir), Merged(v, dir, cursor, ITEM_PAGE_CANDIDATE_CEILING), ITEM_PAGE_CANDIDATE_CEILING);
    var n := AffordableIsPrefix(Costs(v), walk, 0, budget);
    assert Sorted(By(dir), selected);
    SortedIsInOrder(By(dir), selected);
    SortedIsDistinct(By(dir), selected);
    var shown := InOrder(Ascends, Elements(selected));
    InOrderIsSorted(Ascends, Elements(selected));
    SortedIsDistinct(Ascends, shown);
    SpentOfSame(Costs(v), shown, selected);
  }

  /** The second read returns the bytes the page announced, item by item and in all. */
  lemma PageIsPaidFor(events: Events, low: int, high: int, cursor: int, budget: nat, dir: Direction, records: seq<int>)
    requires low <= high
    requires var page := QueryItemPage(events, low, high, cursor, budget, dir).value;
      multiset(records) == multiset(Union(Between(events, low, page.watermark), page.items))
    ensures var page := QueryItemPage(events, low, high, cursor, budget, dir).value;
      && Pages.Total(Weights(Between(events, low, high)), records) == page.transferBytes
      && (forall d :: d in page.items ==>
            BytesOf(Between(events, low, high), Fetched(Between(events, low, page.watermark), d)) == d.requiredBytes)
  {
    var v := Between(events, low, high);
    var page := QueryItemPage(events, low, high, cursor, budget, dir).value;
    var selected := Selected(v, dir, cursor, ITEM_PAGE_CANDIDATE_CEILING, budget);
    SelectedAreItems(v, dir, cursor, ITEM_PAGE_CANDIDATE_CEILING, budget);
    ShownIsSelected(v, dir, cursor, budget);
    DescribedCost(v, InOrder(Ascends, Elements(selected)));
    if page.items == [] {
      assert |records| == |multiset(records)|;
    } else {
      SecondReadIsWhatWasPaidFor(events, low, high, page.items, records);
    }
  }

  /** A page passes its budget only when it is one item, and then exactly because the nearest
      item alone does. */
  lemma OversizedIsOneItem(events: Events, low: int, high: int, cursor: int, budget: nat, dir: Direction)
    requires low <= high && PositiveBytes(Between(events, low, high))
    ensures var v := Between(events, low, high);
      var page := QueryItemPage(events, low, high, cursor, budget, dir).value;
      var nearest := Candidates(v, dir, cursor, ITEM_PAGE_CANDIDATE_CEILING);
      && (page.oversized ==> |page.items| == 1)
      && (page.oversized <==> nearest != [] && budget < Cost(v, nearest[0]))
      && (page.items == [] <==> nearest == [])
  {
    var v := Between(events, low, high);
    var walk := Candidates(v, dir, cursor, ITEM_PAGE_CANDIDATE_CEILING);
    var selected := Selected(v, dir, cursor, ITEM_PAGE_CANDIDATE_CEILING, budget);
    SelectedAreItems(v, dir, cursor, ITEM_PAGE_CANDIDATE_CEILING, budget);
    ShownIsSelected(v, dir, cursor, budget);
    var n := AffordableIsPrefix(Costs(v), walk, 0, budget);
    assert selected == walk[..n];
    if n > 0 {
      assert selected[0] in selected;
      assert selected[0] in AllItems(v);
      ItemsCostSomething(v, selected[0]);
      FirstOfMany(Costs(v), walk, n);
    }
  }
}
