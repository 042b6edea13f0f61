/**
 Keyset pages of agent messages: one ORDER BY with an ascending text key and two descending
 columns, and a cursor test written out column by column.
 */
module Messages {
  import opened Basics
  import opened Ordering

  datatype Message = Message(createdAt: int, sender: string, receiver: string, body: string)

  /** `id` is the primary key of `workflow_messages`. */
  type Table = map<string, Message>

  datatype Sort = BySender | ByReceiver | ByTime

  /** The columns a page is ordered by; pages by time have no text key. */
  datatype Place = Place(key: string, createdAt: int, id: string)

  /** Newest first, then by descending id. */
  predicate NewerFirst(a: Place, b: Place) {
    a.createdAt > b.createdAt || (a.createdAt == b.createdAt && TextLess(b.id, a.id))
  }

  /** `ORDER BY key ASC, created_at_ms DESC, id DESC`. */
  predicate Precedes(a: Place, b: Place) {
    TextLess(a.key, b.key) || (a.key == b.key && NewerFirst(a, b))
  }

  lemma PrecedesIsTotal()
    ensures StrictTotal(Precedes)
  {
    forall a: Place
      ensures !Precedes(a, a)
    {
      TextIrreflexive(a.key);
      TextIrreflexive(a.id);
    }
    forall a: Place, b: Place
      ensures Precedes(a, b) || Precedes(b, a) || a == b
    {
      TextTotal(a.key, b.key);
      TextTotal(a.id, b.id);
    }
    forall a: Place, b: Place, c: Place | Precedes(a, b) && Precedes(b, c)
      ensures Precedes(a, c)
    {
      PrecedesTransitive(a, b, c);
    }
  }

  lemma PrecedesTransitive(a: Place, b: Place, c: Place)
    requires Precedes(a, b) && Precedes(b, c)
    ensures Precedes(a, c)
  {
    if TextLess(a.key, b.key) && TextLess(b.key, c.key) {
      TextTransitive(a.key, b.key, c.key);
    }
    if TextLess(c.id, b.id) && TextLess(b.id, a.id) {
      TextTransitive(c.id, b.id, a.id);
    }
  }

  // ---------------------------------------------------------------- one page

  function PlaceOf(sort: Sort, id: string, m: Message): Place {
    Place(match sort case BySender => m.sender case ByReceiver => m.receiver case ByTime => "", m.createdAt, id)
  }

  /** `?6`, `?7` and `?8`: the time and id of the last row seen, and its text key. */
  datatype Cursor = Cursor(before: Option<(int, string)>, key: Option<string>)

  /** `(m.created_at_ms, m.id) < (at, id)`. */
  predicate RowBelow(p: Place, at: int, id: string) {
    p.createdAt < at || (p.createdAt == at && TextLess(p.id, id))
  }

  /** The cursor test of `traffic_sql`; a missing key compares as NULL and admits nothing. */
  predicate Admits(sort: Sort, c: Cursor, p: Place) {
    || c.before.None?
    || (if sort == ByTime then RowBelow(p, c.before.value.0, c.before.value.1)
        else && c.key.Some?
             && (TextLess(c.key.value, p.key)
                 || (p.key == c.key.value && RowBelow(p, c.before.value.0, c.before.value.1))))
  }

  function CursorAt(last: Option<Place>): Cursor {
    if last.None? then Cursor(None, None)
    else Cursor(Some((last.value.createdAt, last.value.id)), Some(last.value.key))
  }

  predicate IsAfter(last: Option<Place>, p: Place) {
    last.None? || Precedes(last.value, p)
  }

  /** The cursor test is exactly "comes after in the ORDER BY". */
  lemma CursorIsComesAfter(sort: Sort, last: Option<Place>, p: Place)
    requires sort == ByTime ==> p.key == "" && (last.Some? ==> last.value.key == "")
    ensures Admits(sort, CursorAt(last), p) <==> IsAfter(last, p)
  {
  }

  /** The rows the filters let through, by their places. */
  function Listed(t: Table, sort: Sort, wanted: (string, Message) -> bool): set<Place> {
    set id | id in t && wanted(id, t[id]) :: PlaceOf(sort, id, t[id])
  }

  /** `list_messages`; a negative LIMIT is no limit. */
  function Page(t: Table, sort: Sort, wanted: (string, Message) -> bool, c: Cursor, limit: int): seq<Place> {
    PrecedesIsTotal();
    var rows := set p | p in Listed(t, sort, wanted) && Admits(sort, c, p);
    Top(Precedes, rows, if limit < 0 then |rows| else limit)
  }

  function Remaining(t: Table, sort: Sort, wanted: (string, Message) -> bool, last: Option<Place>): set<Place> {
    set p | p in Listed(t, sort, wanted) && IsAfter(last, p)
  }

  /** The cursor test leaves the rows that come after the last one seen. */
  lemma PageIsTop(t: Table, sort: Sort, wanted: (string, Message) -> bool, last: Option<Place>, limit: nat)
    requires last.Some? && sort == ByTime ==> last.value.key == ""
    ensures StrictTotal(Precedes)
    ensures Page(t, sort, wanted, CursorAt(last), limit) == Top(Precedes, Remaining(t, sort, wanted, last), limit)
  {
    PrecedesIsTotal();
    forall p | p in Listed(t, sort, wanted)
      ensures Admits(sort, CursorAt(last), p) <==> IsAfter(last, p)
    {
      CursorIsComesAfter(sort, last, p);
    }
    assert (set p | p in Listed(t, sort, wanted) && Admits(sort, CursorAt(last), p)) == Remaining(t, sort, wanted, last);
  }

  lemma PageInOrder(t: Table, sort: Sort, wanted: (string, Message) -> bool, last: Option<Place>, limit: nat)
    requires last.Some? && sort == ByTime ==> last.value.key == ""
    ensures var page := Page(t, sort, wanted, CursorAt(last), limit);
      Sorted(Precedes, page) && |page| <= limit
        && forall p :: p in page ==> p in Listed(t, sort, wanted) && IsAfter(last, p)
  {
    PageIsTop(t, sort, wanted, last, limit);
    TopIsNext(Precedes, Remaining(t, sort, wanted, last), limit);
  }

  /** A qualifying row is on the page, or the page is full and ends before it. */
  lemma PageLeavesOut(t: Table, sort: Sort, wanted: (string, Message) -> bool, last: Option<Place>, limit: nat, p: Place)
    requires 0 < limit && (last.Some? && sort == ByTime ==> last.value.key == "")
    requires p in Listed(t, sort, wanted) && IsAfter(last, p)
    ensures var page := Page(t, sort, wanted, CursorAt(last), limit);
      p in page || (|page| == limit && page[limit - 1] in Listed(t, sort, wanted) && Precedes(page[limit - 1], p))
  {
    PageIsTop(t, sort, wanted, last, limit);
    TopIsNext(Precedes, Remaining(t, sort, wanted, last), limit);
    var page := Page(t, sort, wanted, CursorAt(last), limit);
    assert p in Remaining(t, sort, wanted, last);
    assert |page| == limit ==> page[limit - 1] in page;
  }

  // ---------------------------------------------------------------- a page, column by column

  /** The later message first, and of two created together the one with the larger id. */
  ghost predicate LaterFirst(m: Message, id: string, n: Message, other: string) {
    n.createdAt < m.createdAt || (n.createdAt == m.createdAt && Smaller(other, id))
  }

  /** By sender or by receiver the smaller name first; then, and by time, the later message. */
  ghost predicate ShownBefore(sort: Sort, m: Message, id: string, n: Message, other: string) {
    match sort
    case BySender => Smaller(m.sender, n.sender) || (m.sender == n.sender && LaterFirst(m, id, n, other))
    case ByReceiver => Smaller(m.receiver, n.receiver) || (m.receiver == n.receiver && LaterFirst(m, id, n, other))
    case ByTime => LaterFirst(m, id, n, other)
  }

  lemma PrecedesExactly(sort: Sort, m: Message, id: string, n: Message, other: string)
    ensures Precedes(PlaceOf(sort, id, m), PlaceOf(sort, other, n)) <==> ShownBefore(sort, m, id, n, other)
  {
    TextLessExactly(m.sender, n.sender);
    TextLessExactly(m.receiver, n.receiver);
    TextLessExactly(other, id);
    TextIrreflexive("");
  }

  /** The cursor of the last message seen: its time and id, and the name it is sorted by. */
  predicate PointsAt(c: Cursor, sort: Sort, id: string, m: Message) {
    && c.before == Some((m.createdAt, id))
    && (sort == BySender ==> c.key == Some(m.sender)) && (sort == ByReceiver ==> c.key == Some(m.receiver))
  }

  lemma AdmitsExactly(c: Cursor, sort: Sort, id: string, m: Message, n: Message, other: string)
    requires PointsAt(c, sort, id, m)
    ensures Admits(sort, c, PlaceOf(sort, other, n)) <==> ShownBefore(sort, m, id, n, other)
  {
    PrecedesExactly(sort, m, id, n, other);
    TextIrreflexive("");
  }

  /** A wanted message after the cursor. */
  ghost predicate Qualifies(t: Table, sort: Sort, wanted: (string, Message) -> bool, last: Option<(string, Message)>, id: string) {
    && id in t && wanted(id, t[id])
    && (last.Some? ==> ShownBefore(sort, last.value.1, last.value.0, t[id], id))
  }

  ghost predicate IsCursorOf(c: Cursor, sort: Sort, last: Option<(string, Message)>) {
    if last.None? then c.before == None else PointsAt(c, sort, last.value.0, last.value.1)
  }

  lemma QualifiesExactly(t: Table, sort: Sort, wanted: (string, Message) -> bool, c: Cursor,
                         last: Option<(string, Message)>, p: Place)
    requires IsCursorOf(c, sort, last)
    ensures p in Listed(t, sort, wanted) && Admits(sort, c, p)
       <==> Qualifies(t, sort, wanted, last, p.id) && p == PlaceOf(sort, p.id, t[p.id])
  {
    if p.id in t && last.Some? {
      AdmitsExactly(c, sort, last.value.0, last.value.1, t[p.id], p.id);
    }
  }

  lemma PageIsOf(t: Table, sort: Sort, wanted: (string, Message) -> bool, c: Cursor, limit: int, p: Place, q: Place)
    ensures var page := Page(t, sort, wanted, c, limit);
      && Sorted(Precedes, page) && (0 <= limit ==> |page| <= limit)
      && (p in page ==> p in Listed(t, sort, wanted) && Admits(sort, c, p))
      && (q in Listed(t, sort, wanted) && Admits(sort, c, q) && q !in page ==>
            0 <= limit && |page| == limit && (p in page ==> Precedes(p, q)))
  {
    PrecedesIsTotal();
    var rows := set p | p in Listed(t, sort, wanted) && Admits(sort, c, p);
    var all := InOrder(Precedes, rows);
    assert all[..|all|] == all;
    TopIsNext(Precedes, rows, if limit < 0 then |rows| else limit);
  }

  /** A row of a page qualifies and is where its message belongs. */
  lemma RowShows(t: Table, sort: Sort, wanted: (string, Message) -> bool, c: Cursor,
                 last: Option<(string, Message)>, limit: int, p: Place)
    requires IsCursorOf(c, sort, last) && p in Page(t, sort, wanted, c, limit)
    ensures Qualifies(t, sort, wanted, last, p.id) && p == PlaceOf(sort, p.id, t[p.id])
  {
    PageIsOf(t, sort, wanted, c, limit, p, p);
    QualifiesExactly(t, sort, wanted, c, last, p);
  }

  lemma RowsInOrder(t: Table, sort: Sort, wanted: (string, Message) -> bool, c: Cursor,
                    last: Option<(string, Message)>, limit: int, a: nat, b: nat)
    requires IsCursorOf(c, sort, last) && a < b < |Page(t, sort, wanted, c, limit)|
    ensures var p, q := Page(t, sort, wanted, c, limit)[a], Page(t, sort, wanted, c, limit)[b];
      p.id in t && q.id in t && ShownBefore(sort, t[p.id], p.id, t[q.id], q.id)
  {
    var page := Page(t, sort, wanted, c, limit);
    var p, q := page[a], page[b];
    assert p in page && q in page;
    PageIsOf(t, sort, wanted, c, limit, p, q);
    RowShows(t, sort, wanted, c, last, limit, p);
    RowShows(t, sort, wanted, c, last, limit, q);
    PrecedesExactly(sort, t[p.id], p.id, t[q.id], q.id);
  }

  lemma LeftOutIsLater(t: Table, sort: Sort, wanted: (string, Message) -> bool, c: Cursor,
                       last: Option<(string, Message)>, limit: int, id: string, p: Place)
    requires IsCursorOf(c, sort, last) && Qualifies(t, sort, wanted, last, id)
    requires PlaceOf(sort, id, t[id]) !in Page(t, sort, wanted, c, limit)
    ensures |Page(t, sort, wanted, c, limit)| == limit
    ensures p in Page(t, sort, wanted, c, limit) ==> p.id in t && ShownBefore(sort, t[p.id], p.id, t[id], id)
  {
    var q := PlaceOf(sort, id, t[id]);
    QualifiesExactly(t, sort, wanted, c, last, q);
    PageIsOf(t, sort, wanted, c, limit, p, q);
    if p in Page(t, sort, wanted, c, limit) {
      RowShows(t, sort, wanted, c, last, limit, p);
      PrecedesExactly(sort, t[p.id], p.id, t[id], id);
    }
  }

  /** A page lists messages that qualify, each before the next; whatever else qualifies comes after
      all of them, and then the page is full. A negative limit is none. */
  lemma PageShows(t: Table, sort: Sort, wanted: (string, Message) -> bool, c: Cursor,
                  last: Option<(string, Message)>, limit: int)
    requires IsCursorOf(c, sort, last)
    ensures var page := Page(t, sort, wanted, c, limit);
      && (forall p :: p in page ==> Qualifies(t, sort, wanted, last, p.id))
      && (forall a, b :: 0 <= a < b < |page| ==>
            page[a].id in t && page[b].id in t
            && ShownBefore(sort, t[page[a].id], page[a].id, t[page[b].id], page[b].id))
      && (0 <= limit ==> |page| <= limit)
      && (forall id :: Qualifies(t, sort, wanted, last, id) && (forall p :: p in page ==> p.id != id) ==>
            |page| == limit && forall p :: p in page ==> p.id in t && ShownBefore(sort, t[p.id], p.id, t[id], id))
  {
    var page := Page(t, sort, wanted, c, limit);
    PageIsOf(t, sort, wanted, c, limit, Place("", 0, ""), Place("", 0, ""));
    forall p | p in page
      ensures Qualifies(t, sort, wanted, last, p.id)
    {
      RowShows(t, sort, wanted, c, last, limit, p);
    }
    forall a, b | 0 <= a < b < |page|
      ensures page[a].id in t && page[b].id in t
      ensures ShownBefore(sort, t[page[a].id], page[a].id, t[page[b].id], page[b].id)
    {
      RowsInOrder(t, sort, wanted, c, last, limit, a, b);
    }
    forall id | Qualifies(t, sort, wanted, last, id) && (forall p :: p in page ==> p.id != id)
      ensures |page| == limit && forall p :: p in page ==> p.id in t && ShownBefore(sort, t[p.id], p.id, t[id], id)
    {
      assert PlaceOf(sort, id, t[id]) !in page;
      LeftOutIsLater(t, sort, wanted, c, last, limit, id, Place("", 0, ""));
      forall p | p in page
        ensures p.id in t && ShownBefore(sort, t[p.id], p.id, t[id], id)
      {
        LeftOutIsLater(t, sort, wanted, c, last, limit, id, p);
      }
    }
  }

  // ---------------------------------------------------------------- a chain of pages

  /** Ask for page after page, each from the last row of the one before, until one is short.
      `tables[k]` is the table as the page numbered `k` finds it. */
  function Chain(tables: seq<Table>, sort: Sort, wanted: (string, Message) -> bool, last: Option<Place>, limit: nat): seq<Place>
    requires 0 < limit
    decreases |tables|
  {
    if tables == [] then []
    else
      var page := NextPage(tables, sort, wanted, last, limit);
      if |page| < limit then page
      else page + Chain(tables[1..], sort, wanted, Some(page[|page| - 1]), limit)
  }

  /** The chain ended on a short page, not for want of asking. */
  predicate Ended(tables: seq<Table>, sort: Sort, wanted: (string, Message) -> bool, last: Option<Place>, limit: nat)
    requires 0 < limit
    decreases |tables|
  {
    tables != [] &&
    var page := NextPage(tables, sort, wanted, last, limit);
    |page| < limit || Ended(tables[1..], sort, wanted, Some(page[|page| - 1]), limit)
  }

  /** In every table the chain reads. */
  predicate PresentThroughout(tables: seq<Table>, sort: Sort, wanted: (string, Message) -> bool, p: Place) {
    forall k :: 0 <= k < |tables| ==> p in Listed(tables[k], sort, wanted)
  }

  lemma ListedKeys(t: Table, sort: Sort, wanted: (string, Message) -> bool, p: Place)
    requires p in Listed(t, sort, wanted) && sort == ByTime
    ensures p.key == ""
  {
  }

  lemma SortedJoin(a: seq<Place>, b: seq<Place>)
    requires Sorted(Precedes, a) && Sorted(Precedes, b)
    requires a != [] && forall p :: p in b ==> Precedes(a[|a| - 1], p)
    ensures Sorted(Precedes, a + b)
  {
    var c := a + b;
    forall i, j | 0 <= i < j < |c|
      ensures Precedes(c[i], c[j])
    {
      if i < |a| <= j {
        assert c[j] == b[j - |a|] && b[j - |a|] in b;
        if i < |a| - 1 {
          PrecedesTransitive(a[i], a[|a| - 1], c[j]);
        }
      }
    }
  }

  /** Stored and wanted in some table the chain reads. */
  predicate Seen(tables: seq<Table>, sort: Sort, wanted: (string, Message) -> bool, p: Place) {
    exists k :: 0 <= k < |tables| && p in Listed(tables[k], sort, wanted)
  }

  /** Rows a later page lists come after the cursor and were stored. */
  lemma LaterRow(tables: seq<Table>, sort: Sort, wanted: (string, Message) -> bool, last: Option<Place>, end: Place, p: Place)
    requires tables != [] && IsAfter(last, end)
    requires IsAfter(Some(end), p) && Seen(tables[1..], sort, wanted, p)
    ensures IsAfter(last, p) && Seen(tables, sort, wanted, p)
  {
    if last.Some? {
      PrecedesTransitive(last.value, end, p);
    }
    var k :| 0 <= k < |tables[1..]| && p in Listed(tables[1..][k], sort, wanted);
    assert tables[k + 1] == tables[1..][k];
  }

  function NextPage(tables: seq<Table>, sort: Sort, wanted: (string, Message) -> bool, last: Option<Place>, limit: nat): seq<Place>
    requires tables != []
  {
    Page(tables[0], sort, wanted, CursorAt(last), limit)
  }

  lemma FullPageEnd(tables: seq<Table>, sort: Sort, wanted: (string, Message) -> bool, last: Option<Place>, limit: nat)
    requires tables != [] && 0 < limit && (last.Some? && sort == ByTime ==> last.value.key == "")
    requires |NextPage(tables, sort, wanted, last, limit)| == limit
    ensures var end := NextPage(tables, sort, wanted, last, limit)[limit - 1];
      IsAfter(last, end) && (sort == ByTime ==> end.key == "")
  {
    PageInOrder(tables[0], sort, wanted, last, limit);
    var end := NextPage(tables, sort, wanted, last, limit)[limit - 1];
    assert end in NextPage(tables, sort, wanted, last, limit);
    if sort == ByTime {
      ListedKeys(tables[0], sort, wanted, end);
    }
  }

  lemma FirstPage(tables: seq<Table>, sort: Sort, wanted: (string, Message) -> bool, last: Option<Place>, limit: nat)
    requires tables != [] && (last.Some? && sort == ByTime ==> last.value.key == "")
    ensures var page := NextPage(tables, sort, wanted, last, limit);
      && Sorted(Precedes, page) && |page| <= limit
      && (forall p :: p in page ==> IsAfter(last, p) && p in Listed(tables[0], sort, wanted) && Seen(tables, sort, wanted, p))
  {
    PageInOrder(tables[0], sort, wanted, last, limit);
  }

  lemma {:induction false} ChainSorted(tables: seq<Table>, sort: Sort, wanted: (string, Message) -> bool,
                                       last: Option<Place>, limit: nat)
    requires 0 < limit && (last.Some? && sort == ByTime ==> last.value.key == "")
    ensures Sorted(Precedes, Chain(tables, sort, wanted, last, limit))
    ensures forall p :: p in Chain(tables, sort, wanted, last, limit) ==> IsAfter(last, p) && Seen(tables, sort, wanted, p)
    decreases |tables|
  {
    if tables != [] {
      var page := NextPage(tables, sort, wanted, last, limit);
      FirstPage(tables, sort, wanted, last, limit);
      if |page| == limit {
        var end := page[limit - 1];
        FullPageEnd(tables, sort, wanted, last, limit);
        ChainSorted(tables[1..], sort, wanted, Some(end), limit);
        var later := Chain(tables[1..], sort, wanted, Some(end), limit);
        assert Chain(tables, sort, wanted, last, limit) == page + later;
        JoinPages(tables, sort, wanted, last, page, later);
      }
    }
  }

  lemma JoinPages(tables: seq<Table>, sort: Sort, wanted: (string, Message) -> bool, last: Option<Place>,
                  page: seq<Place>, later: seq<Place>)
    requires tables != [] && page != [] && Sorted(Precedes, page) && Sorted(Precedes, later)
    requires forall p :: p in page ==> p in Listed(tables[0], sort, wanted) && IsAfter(last, p)
    requires forall p :: p in later ==> IsAfter(Some(page[|page| - 1]), p) && Seen(tables[1..], sort, wanted, p)
    ensures Sorted(Precedes, page + later)
    ensures forall p :: p in page + later ==> IsAfter(last, p) && Seen(tables, sort, wanted, p)
  {
    SortedJoin(page, later);
    assert page[|page| - 1] in page;
    forall p | p in later
      ensures IsAfter(last, p) && Seen(tables, sort, wanted, p)
    {
      LaterRow(tables, sort, wanted, last, page[|page| - 1], p);
    }
  }

  lemma {:induction false} ChainComplete(tables: seq<Table>, sort: Sort, wanted: (string, Message) -> bool,
                                         last: Option<Place>, limit: nat, p: Place)
    requires 0 < limit && (last.Some? && sort == ByTime ==> last.value.key == "")
    requires Ended(tables, sort, wanted, last, limit)
    requires PresentThroughout(tables, sort, wanted, p) && IsAfter(last, p)
    ensures p in Chain(tables, sort, wanted, last, limit)
    decreases |tables|
  {
    assert p in Listed(tables[0], sort, wanted);
    PageLeavesOut(tables[0], sort, wanted, last, limit, p);
    var page := NextPage(tables, sort, wanted, last, limit);
    if p !in page {
      FullPageEnd(tables, sort, wanted, last, limit);
      StillPresent(tables, sort, wanted, p);
      ChainComplete(tables[1..], sort, wanted, Some(page[limit - 1]), limit, p);
    }
  }

  lemma StillPresent(tables: seq<Table>, sort: Sort, wanted: (string, Message) -> bool, p: Place)
    requires tables != [] && PresentThroughout(tables, sort, wanted, p)
    ensures PresentThroughout(tables[1..], sort, wanted, p)
  {
    forall k | 0 <= k < |tables[1..]|
      ensures p in Listed(tables[1..][k], sort, wanted)
    {
      assert tables[1..][k] == tables[k + 1];
    }
  }

  /** However the table changes between pages, the chain is strictly in order, so no place is listed
      twice; each row was stored at its place when its page was read; and once a short page ends
      the chain, every place taken throughout has been listed. */
  lemma ChainListsEveryPlaceOnce(tables: seq<Table>, sort: Sort, wanted: (string, Message) -> bool, limit: nat)
    requires 0 < limit
    ensures var all := Chain(tables, sort, wanted, None, limit);
      && Sorted(Precedes, all)
      && (forall p :: p in all ==> Seen(tables, sort, wanted, p))
      && (Ended(tables, sort, wanted, None, limit) ==> forall p :: PresentThroughout(tables, sort, wanted, p) ==> p in all)
  {
    ChainSorted(tables, sort, wanted, None, limit);
    if Ended(tables, sort, wanted, None, limit) {
      forall p | PresentThroughout(tables, sort, wanted, p)
        ensures p in Chain(tables, sort, wanted, None, limit)
      {
        ChainComplete(tables, sort, wanted, None, limit, p);
      }
    }
  }

  // ---------------------------------------------------------------- messages, by their ids

  /** In every table the message is stored, passes the filters and keeps the columns that place it:
      its time, and the name it is sorted by. */
  predicate StaysPut(tables: seq<Table>, sort: Sort, wanted: (string, Message) -> bool, id: string, m: Message) {
    forall k :: 0 <= k < |tables| ==>
      id in tables[k] && wanted(id, tables[k][id]) && PlaceOf(sort, id, tables[k][id]) == PlaceOf(sort, id, m)
  }

  predicate ListedAt(all: seq<Place>, id: string, a: nat) {
    a < |all| && all[a].id == id
  }

  lemma OnePlace(tables: seq<Table>, sort: Sort, wanted: (string, Message) -> bool, id: string, m: Message, q: Place)
    requires StaysPut(tables, sort, wanted, id, m) && Seen(tables, sort, wanted, q) && q.id == id
    ensures q == PlaceOf(sort, id, m)
  {
    var k :| 0 <= k < |tables| && q in Listed(tables[k], sort, wanted);
  }

  /** Whatever else is written between pages, a message that stays where it is listed is listed at
      most once, and, once a short page ends the chain, exactly once. */
  lemma LastingMessageListedOnce(tables: seq<Table>, sort: Sort, wanted: (string, Message) -> bool, limit: nat,
                                 id: string, m: Message)
    requires 0 < limit && StaysPut(tables, sort, wanted, id, m)
    ensures var all := Chain(tables, sort, wanted, None, limit);
      && (forall a: nat, b: nat :: ListedAt(all, id, a) && ListedAt(all, id, b) ==> a == b)
      && (Ended(tables, sort, wanted, None, limit) ==> exists a: nat :: ListedAt(all, id, a))
  {
    ChainListsEveryPlaceOnce(tables, sort, wanted, limit);
    PrecedesIsTotal();
    var all, p := Chain(tables, sort, wanted, None, limit), PlaceOf(sort, id, m);
    forall a: nat, b: nat | ListedAt(all, id, a) && ListedAt(all, id, b)
      ensures a == b
    {
      assert all[a] in all && all[b] in all;
      OnePlace(tables, sort, wanted, id, m, all[a]);
      OnePlace(tables, sort, wanted, id, m, all[b]);
      assert !Precedes(p, p);
    }
    if Ended(tables, sort, wanted, None, limit) {
      assert PresentThroughout(tables, sort, wanted, p);
      var a :| 0 <= a < |all| && all[a] == p;
      assert ListedAt(all, id, a);
    }
  }

  /** A message is moved in the listing exactly by another time or another value of the name it is
      sorted by. No writer touches the time or the sender of a stored message; the receiver's name
      is read from the session table, where a save may rename it. */
  lemma MovesExactly(sort: Sort, id: string, before: Message, later: Message)
    ensures PlaceOf(sort, id, before) == PlaceOf(sort, id, later)
       <==> (&& before.createdAt == later.createdAt
             && (sort == BySender ==> before.sender == later.sender)
             && (sort == ByReceiver ==> before.receiver == later.receiver))
  {
  }

  /** Two places are on the same side of every cursor exactly when they are one place: a message
      that moved is passed over or repeated by the cursors between. */
  lemma SameSideExactly(p: Place, q: Place)
    ensures (forall end :: IsAfter(Some(end), p) <==> IsAfter(Some(end), q)) <==> p == q
  {
    PrecedesIsTotal();
    if p != q {
      assert Precedes(p, q) ==> !IsAfter(Some(p), p) && IsAfter(Some(p), q);
      assert Precedes(q, p) ==> !IsAfter(Some(q), q) && IsAfter(Some(q), p);
    }
  }

  // ---------------------------------------------------------------- a receiver renamed between pages

  function To(receiver: string): Message {
    Message(0, "s", receiver, "")
  }

  function Everything(): (string, Message) -> bool {
    (id, m) => true
  }

  predicate IsNext(t: Table, last: Option<Place>, p: Place) {
    p.id in t && p == PlaceOf(ByReceiver, p.id, t[p.id]) && IsAfter(last, p)
  }

  lemma RemainingIs(t: Table, last: Option<Place>, p: Place)
    ensures p in Remaining(t, ByReceiver, Everything(), last) <==> IsNext(t, last, p)
  {
  }

  /** A page of one message: the first of the rows that remain, in order. */
  lemma PageOfOne(t: Table, last: Option<Place>, rows: seq<Place>)
    requires Sorted(Precedes, rows) && forall p :: p in rows <==> IsNext(t, last, p)
    ensures Page(t, ByReceiver, Everything(), CursorAt(last), 1) == rows[..Least(1, |rows|)]
  {
    PageIsTop(t, ByReceiver, Everything(), last, 1);
    SortedIsInOrder(Precedes, rows);
    forall p
      ensures p in rows <==> p in Remaining(t, ByReceiver, Everything(), last)
    {
      RemainingIs(t, last, p);
    }
    assert Elements(rows) == Remaining(t, ByReceiver, Everything(), last);
  }

  lemma ChainOfOne(t: Table, last: Option<Place>)
    ensures var page := Page(t, ByReceiver, Everything(), CursorAt(last), 1);
      && |page| <= 1
      && Chain([t], ByReceiver, Everything(), last, 1) == page
      && (page == [] ==> Ended([t], ByReceiver, Everything(), last, 1))
  {
    var page := NextPage([t], ByReceiver, Everything(), last, 1);
    PageInOrder(t, ByReceiver, Everything(), last, 1);
    assert [t][1..] == [];
    if page != [] {
      assert Chain([], ByReceiver, Everything(), Some(page[0]), 1) == [];
    }
  }

  lemma ChainOfTwo(one: Table, two: Table, first: Place)
    requires Page(one, ByReceiver, Everything(), CursorAt(None), 1) == [first]
    ensures var second := Page(two, ByReceiver, Everything(), CursorAt(Some(first)), 1);
      && Chain([one, two], ByReceiver, Everything(), None, 1) == [first] + second
      && (second == [] ==> Ended([one, two], ByReceiver, Everything(), None, 1))
  {
    assert [one, two][1..] == [two];
    assert NextPage([one, two], ByReceiver, Everything(), None, 1) == [first];
    ChainOfOne(two, Some(first));
  }

  /** A message whose receiver is renamed from b to z after the first page is on both pages. */
  lemma RenamedIsListedTwice()
    ensures Chain([map["a" := To("b")], map["a" := To("z")]], ByReceiver, Everything(), None, 1)
         == [Place("b", 0, "a"), Place("z", 0, "a")]
  {
    var one, two: Table := map["a" := To("b")], map["a" := To("z")];
    PageOfOne(one, None, [Place("b", 0, "a")]);
    PageOfOne(two, Some(Place("b", 0, "a")), [Place("z", 0, "a")]);
    ChainOfTwo(one, two, Place("b", 0, "a"));
  }

  /** Two messages; after the first page the receiver of one is renamed from d to a. */
  function BeforeRenaming(): Table {
    map["c" := To("b"), "a" := To("d")]
  }

  function AfterRenaming(): Table {
    map["c" := To("b"), "a" := To("a")]
  }

  /** The chain ends on a short page, the message is in both tables, and it is on no page. */
  lemma RenamedIsNeverListed()
    ensures Ended([BeforeRenaming(), AfterRenaming()], ByReceiver, Everything(), None, 1)
    ensures Chain([BeforeRenaming(), AfterRenaming()], ByReceiver, Everything(), None, 1) == [Place("b", 0, "c")]
    ensures "a" in BeforeRenaming() && "a" in AfterRenaming()
  {
    PageBeforeRenaming();
    PageOfOne(AfterRenaming(), Some(Place("b", 0, "c")), []);
    ChainOfTwo(BeforeRenaming(), AfterRenaming(), Place("b", 0, "c"));
  }

  lemma PageBeforeRenaming()
    ensures Page(BeforeRenaming(), ByReceiver, Everything(), CursorAt(None), 1) == [Place("b", 0, "c")]
  {
    var rows := [Place("b", 0, "c"), Place("d", 0, "a")];
    assert Precedes(rows[0], rows[1]);
    PageOfOne(BeforeRenaming(), None, rows);
  }
}
