/**
 Receipts and the pending queue: a message leaves the queue at most once, and a target that
 takes what is pending until nothing is takes its messages in the order they were created.
 */
module Receipts {
  import opened Basics
  import opened Ordering

  datatype Receipt = Queued | Delivered | Failed | Expired

  datatype Message = Message(sender: string, target: string, receipt: Receipt, createdAt: int, updatedAt: int)

  /** `id` is the primary key. */
  type Table = map<string, Message>

  datatype ReceiptError = Terminal | Unknown

  // ---------------------------------------------------------------- set_receipt

  function Marked(t: Table, id: string, receipt: Receipt, now: int): Outcome<Table, ReceiptError> {
    if id !in t then Refused(Unknown)
    else if t[id].receipt != Queued then Refused(Terminal)
    else Done(t[id := t[id].(receipt := receipt, updatedAt := now)])
  }

  // ---------------------------------------------------------------- runs

  datatype Step = Send(id: string, message: Message) | Mark(marked: string, receipt: Receipt, now: int)

  /** A send under a taken id and a mark that is refused change nothing. */
  function Next(t: Table, step: Step): Table {
    match step
    case Send(id, message) => if id in t then t else t[id := message]
    case Mark(id, receipt, now) => match Marked(t, id, receipt, now) case Done(next) => next case Refused(_) => t
  }

  function After(steps: seq<Step>): Table {
    if steps == [] then map[] else Next(After(steps[..|steps| - 1]), steps[|steps| - 1])
  }

  predicate IsSettled(t: Table, id: string) {
    id in t && t[id].receipt != Queued
  }

  /** Everything a receipt does not touch. */
  predicate SameContent(a: Message, b: Message) {
    a.sender == b.sender && a.target == b.target && a.createdAt == b.createdAt
  }

  /** The accepted marks that took the message off the queue. */
  function Settlings(steps: seq<Step>, id: string): nat {
    if steps == [] then 0
    else
      var before, step := After(steps[..|steps| - 1]), steps[|steps| - 1];
      Settlings(steps[..|steps| - 1], id)
      + if step.Mark? && step.marked == id && step.receipt != Queued && Marked(before, id, step.receipt, step.now).Done? then 1 else 0
  }

  /** A message leaves the queue at most once, by the one mark that gave it the receipt it has. */
  lemma {:induction false} LeavesTheQueueOnce(steps: seq<Step>, id: string)
    ensures Settlings(steps, id) <= 1
    ensures Settlings(steps, id) == 1 ==> IsSettled(After(steps), id)
  {
    if steps != [] {
      LeavesTheQueueOnce(steps[..|steps| - 1], id);
    }
  }

  /** A terminal receipt never changes again. */
  lemma {:induction false} TerminalStays(steps: seq<Step>, from: nat, id: string)
    requires from <= |steps| && IsSettled(After(steps[..from]), id)
    ensures IsSettled(After(steps), id) && After(steps)[id] == After(steps[..from])[id]
  {
    if from == |steps| {
      assert steps[..from] == steps;
    } else {
      var before := steps[..|steps| - 1];
      assert before[..from] == steps[..from];
      TerminalStays(before, from, id);
    }
  }

  // ---------------------------------------------------------------- the broker

  class Broker {
    var messages: Table

    constructor ()
      ensures messages == map[]
    {
      messages := map[];
    }

    /** An UPDATE that only finds a queued row, and a second look to say why it found none: one
        step of a run. A message that left the queue is never touched again, no other message is,
        and the error tells a settled message from an unknown one. */
    method SetReceipt(id: string, receipt: Receipt, now: int) returns (error: Option<ReceiptError>)
      modifies this
      ensures messages == Next(old(messages), Mark(id, receipt, now)) && messages.Keys == old(messages).Keys
      ensures forall other :: other in old(messages) && (other != id || IsSettled(old(messages), other)) ==>
        messages[other] == old(messages)[other]
      ensures error == None <==> id in old(messages) && !IsSettled(old(messages), id)
      ensures error == None ==>
        messages[id].receipt == receipt && messages[id].updatedAt == now
          && SameContent(messages[id], old(messages)[id])
      ensures error == Some(Terminal) <==> IsSettled(messages, id) && IsSettled(old(messages), id)
      ensures error == Some(Unknown) <==> id !in messages
    {
      var changed := 0;
      if id in messages && messages[id].receipt == Queued {
        messages := messages[id := messages[id].(receipt := receipt, updatedAt := now)];
        changed := 1;
      }
      if changed == 1 {
        return None;
      }
      var known := id in messages;
      error := Some(if known then Terminal else Unknown);
    }
  }

  // ---------------------------------------------------------------- pending_for_sender

  datatype Place = Place(createdAt: int, id: string)

  /** `ORDER BY created_at_ms, id`. */
  predicate Earlier(a: Place, b: Place) {
    a.createdAt < b.createdAt || (a.createdAt == b.createdAt && TextLess(a.id, b.id))
  }

  lemma EarlierIsTotal()
    ensures StrictTotal(Earlier)
  {
    forall a: Place
      ensures !Earlier(a, a)
    {
      TextIrreflexive(a.id);
    }
    forall a: Place, b: Place
      ensures Earlier(a, b) || Earlier(b, a) || a == b
    {
      TextTotal(a.id, b.id);
    }
    forall a: Place, b: Place, c: Place | Earlier(a, b) && Earlier(b, c)
      ensures Earlier(a, c)
    {
      if TextLess(a.id, b.id) && TextLess(b.id, c.id) {
        TextTransitive(a.id, b.id, c.id);
      }
    }
  }

  /** Everyone's messages, or those of one sender and of the helpers of that sender. */
  predicate Accepts(sender: Option<string>, helps: (string, string) -> bool, from: string) {
    sender.None? || from == sender.value || helps(from, sender.value)
  }

  function Waiting(t: Table, target: string, sender: Option<string>, helps: (string, string) -> bool): set<Place> {
    set id | id in t && t[id].target == target && t[id].receipt == Queued && Accepts(sender, helps, t[id].sender)
      :: Place(t[id].createdAt, id)
  }

  function PendingForSender(t: Table, target: string, sender: Option<string>, helps: (string, string) -> bool): Option<string> {
    EarlierIsTotal();
    var first := Top(Earlier, Waiting(t, target, sender, helps), 1);
    if first == [] then None else Some(first[0].id)
  }

  /** Take what is pending and mark it, until nothing is. */
  function Drained(t: Table, target: string, sender: Option<string>, helps: (string, string) -> bool,
                   receipt: Receipt, now: int): (seq<string>, Table)
    requires receipt != Queued
    decreases |Waiting(t, target, sender, helps)|
  {
    match PendingForSender(t, target, sender, helps)
    case None => ([], t)
    case Some(id) =>
      TakingShrinks(t, target, sender, helps, receipt, now);
      var (rest, last) := Drained(Marked(t, id, receipt, now).value, target, sender, helps, receipt, now);
      ([id] + rest, last)
  }

  lemma WaitingIs(t: Table, target: string, sender: Option<string>, helps: (string, string) -> bool, p: Place)
    ensures p in Waiting(t, target, sender, helps)
       <==> (p.id in t && t[p.id].createdAt == p.createdAt && t[p.id].target == target
             && t[p.id].receipt == Queued && Accepts(sender, helps, t[p.id].sender))
  {
  }

  lemma MarkTakesOne(t: Table, target: string, sender: Option<string>, helps: (string, string) -> bool,
                     id: string, receipt: Receipt, now: int)
    requires receipt != Queued && id in t && Place(t[id].createdAt, id) in Waiting(t, target, sender, helps)
    ensures Marked(t, id, receipt, now).Done?
    ensures Waiting(Marked(t, id, receipt, now).value, target, sender, helps)
         == Waiting(t, target, sender, helps) - {Place(t[id].createdAt, id)}
  {
    var next := Marked(t, id, receipt, now).value;
    var before, later := Waiting(t, target, sender, helps), Waiting(next, target, sender, helps);
    forall p
      ensures p in later <==> p in before && p != Place(t[id].createdAt, id)
    {
      WaitingIs(t, target, sender, helps, p);
      WaitingIs(next, target, sender, helps, p);
    }
    assert later == before - {Place(t[id].createdAt, id)};
  }

  lemma PendingIsFirst(t: Table, target: string, sender: Option<string>, helps: (string, string) -> bool)
    ensures StrictTotal(Earlier)
    ensures var waiting := Waiting(t, target, sender, helps);
      var pending := PendingForSender(t, target, sender, helps);
      && (pending.None? <==> |waiting| == 0)
      && (pending.Some? ==> pending == Some(First(Earlier, waiting).id))
  {
    EarlierIsTotal();
    var waiting := Waiting(t, target, sender, helps);
    assert |waiting| != 0 ==> InOrder(Earlier, waiting)[0] == First(Earlier, waiting);
  }

  /** What is pending is the earliest waiting message, and marking it takes just it away. */
  lemma TakingShrinks(t: Table, target: string, sender: Option<string>, helps: (string, string) -> bool,
                      receipt: Receipt, now: int)
    requires receipt != Queued && PendingForSender(t, target, sender, helps).Some?
    ensures StrictTotal(Earlier)
    ensures var id := PendingForSender(t, target, sender, helps).value;
      var waiting := Waiting(t, target, sender, helps);
      && |waiting| != 0 && id in t && First(Earlier, waiting) == Place(t[id].createdAt, id)
      && Marked(t, id, receipt, now).Done?
      && Waiting(Marked(t, id, receipt, now).value, target, sender, helps) == waiting - {Place(t[id].createdAt, id)}
      && |waiting - {Place(t[id].createdAt, id)}| < |waiting|
  {
    PendingIsFirst(t, target, sender, helps);
    var first := First(Earlier, Waiting(t, target, sender, helps));
    assert first in Waiting(t, target, sender, helps);
    MarkTakesOne(t, target, sender, helps, first.id, receipt, now);
  }

  function Ids(places: seq<Place>): seq<string> {
    if places == [] then [] else [places[0].id] + Ids(places[1..])
  }

  /** The table with the messages at those places marked, and every other as it was. */
  function AllMarked(t: Table, places: set<Place>, receipt: Receipt, now: int): Table {
    map id | id in t ::
      if Place(t[id].createdAt, id) in places then t[id].(receipt := receipt, updatedAt := now) else t[id]
  }

  lemma MarkOneThenRest(t: Table, places: set<Place>, id: string, receipt: Receipt, now: int)
    requires id in t && t[id].receipt == Queued && Place(t[id].createdAt, id) in places
    ensures AllMarked(Marked(t, id, receipt, now).value, places - {Place(t[id].createdAt, id)}, receipt, now)
         == AllMarked(t, places, receipt, now)
  {
  }

  /** Draining takes every waiting message once, in order of creation, and touches no other. */
  lemma {:induction false} DrainTakesAllInOrder(t: Table, target: string, sender: Option<string>,
                                               helps: (string, string) -> bool, receipt: Receipt, now: int)
    requires receipt != Queued
    ensures StrictTotal(Earlier)
    ensures var (taken, last) := Drained(t, target, sender, helps, receipt, now);
      var waiting := Waiting(t, target, sender, helps);
      taken == Ids(InOrder(Earlier, waiting)) && last == AllMarked(t, waiting, receipt, now)
    decreases |Waiting(t, target, sender, helps)|
  {
    PendingIsFirst(t, target, sender, helps);
    var waiting := Waiting(t, target, sender, helps);
    if PendingForSender(t, target, sender, helps).Some? {
      var id := PendingForSender(t, target, sender, helps).value;
      TakingShrinks(t, target, sender, helps, receipt, now);
      DrainTakesAllInOrder(Marked(t, id, receipt, now).value, target, sender, helps, receipt, now);
      MarkOneThenRest(t, waiting, id, receipt, now);
      ListingStep(waiting);
    } else {
      NothingToMark(t, waiting, receipt, now);
    }
  }

  lemma ListingStep(waiting: set<Place>)
    requires StrictTotal(Earlier) && |waiting| != 0
    ensures Ids(InOrder(Earlier, waiting))
         == [First(Earlier, waiting).id] + Ids(InOrder(Earlier, waiting - {First(Earlier, waiting)}))
  {
    assert InOrder(Earlier, waiting)[1..] == InOrder(Earlier, waiting - {First(Earlier, waiting)});
  }

  lemma NothingToMark(t: Table, places: set<Place>, receipt: Receipt, now: int)
    requires |places| == 0
    ensures AllMarked(t, places, receipt, now) == t
  {
    assert places == {};
  }

  // ---------------------------------------------------------------- the queue, column by column

  /** A queued message for the target, from anyone, or from the sender or one of its helpers. */
  predicate WaitsFor(t: Table, target: string, sender: Option<string>, helps: (string, string) -> bool, id: string) {
    && id in t && t[id].target == target && t[id].receipt == Queued
    && (sender.Some? ==> t[id].sender == sender.value || helps(t[id].sender, sender.value))
  }

  /** Created before it, or together with it under a smaller id. */
  ghost predicate CreatedBefore(t: Table, id: string, other: string)
    requires id in t && other in t
  {
    t[id].createdAt < t[other].createdAt || (t[id].createdAt == t[other].createdAt && Smaller(id, other))
  }

  lemma EarlierExactly(t: Table, id: string, other: string)
    requires id in t && other in t
    ensures Earlier(Place(t[id].createdAt, id), Place(t[other].createdAt, other)) <==> CreatedBefore(t, id, other)
  {
    TextLessExactly(id, other);
  }

  lemma WaitingExactly(t: Table, target: string, sender: Option<string>, helps: (string, string) -> bool, id: string)
    ensures id in t ==> (Place(t[id].createdAt, id) in Waiting(t, target, sender, helps) <==> WaitsFor(t, target, sender, helps, id))
    ensures forall p :: p in Waiting(t, target, sender, helps) && p.id == id ==> id in t && p == Place(t[id].createdAt, id)
  {
  }

  /** What is pending waits, and nothing that waits was created before it; nothing is pending exactly
      when nothing waits. */
  lemma PendingIsOldest(t: Table, target: string, sender: Option<string>, helps: (string, string) -> bool)
    ensures var pending := PendingForSender(t, target, sender, helps);
      && (pending == None <==> forall id :: !WaitsFor(t, target, sender, helps, id))
      && (pending.Some? ==>
            && WaitsFor(t, target, sender, helps, pending.value)
            && forall id :: WaitsFor(t, target, sender, helps, id) && id != pending.value ==> CreatedBefore(t, pending.value, id))
  {
    PendingIsFirst(t, target, sender, helps);
    var waiting := Waiting(t, target, sender, helps);
    if PendingForSender(t, target, sender, helps).Some? {
      var first := First(Earlier, waiting);
      assert first in waiting;
      assert WaitsFor(t, target, sender, helps, first.id);
      forall id | WaitsFor(t, target, sender, helps, id) && id != first.id
        ensures CreatedBefore(t, first.id, id)
      {
        assert Place(t[id].createdAt, id) in waiting;
        EarlierExactly(t, first.id, id);
      }
    } else {
      assert waiting == {};
      forall id
        ensures !WaitsFor(t, target, sender, helps, id)
      {
        WaitingExactly(t, target, sender, helps, id);
      }
    }
  }

  lemma {:induction false} IdsAre(places: seq<Place>)
    ensures |Ids(places)| == |places| && forall k :: 0 <= k < |places| ==> Ids(places)[k] == places[k].id
  {
    if places != [] {
      IdsAre(places[1..]);
    }
  }

  ghost predicate InCreationOrder(t: Table, taken: seq<string>) {
    forall a, b :: 0 <= a < b < |taken| ==> taken[a] in t && taken[b] in t && CreatedBefore(t, taken[a], taken[b])
  }

  lemma IdsInOrder(t: Table, places: seq<Place>)
    requires Sorted(Earlier, places) && forall p :: p in places ==> p.id in t && t[p.id].createdAt == p.createdAt
    ensures InCreationOrder(t, Ids(places))
  {
    var taken := Ids(places);
    IdsAre(places);
    forall a, b | 0 <= a < b < |taken|
      ensures taken[a] in t && taken[b] in t && CreatedBefore(t, taken[a], taken[b])
    {
      var p, q := places[a], places[b];
      assert p in places && q in places && Earlier(p, q);
      EarlierExactly(t, p.id, q.id);
    }
  }

  lemma MarkedLeaves(t: Table, target: string, sender: Option<string>, helps: (string, string) -> bool, receipt: Receipt,
                     now: int, id: string)
    requires id in t
    ensures AllMarked(t, Waiting(t, target, sender, helps), receipt, now)[id]
         == if WaitsFor(t, target, sender, helps, id)
            then Message(t[id].sender, t[id].target, receipt, t[id].createdAt, now)
            else t[id]
  {
    WaitingExactly(t, target, sender, helps, id);
  }

  ghost predicate TookInOrder(t: Table, target: string, sender: Option<string>, helps: (string, string) -> bool,
                              taken: seq<string>) {
    && (forall id :: id in taken <==> WaitsFor(t, target, sender, helps, id))
    && InCreationOrder(t, taken)
  }

  ghost predicate OnlyMarked(t: Table, target: string, sender: Option<string>, helps: (string, string) -> bool,
                             receipt: Receipt, now: int, last: Table) {
    && last.Keys == t.Keys
    && forall id :: id in t ==>
         last[id] == if WaitsFor(t, target, sender, helps, id)
                     then Message(t[id].sender, t[id].target, receipt, t[id].createdAt, now)
                     else t[id]
  }

  /** The drain takes exactly what waits, in the order of creation, and changes nothing but the receipt and
      the time of what it took. */
  lemma DrainLeaves(t: Table, target: string, sender: Option<string>, helps: (string, string) -> bool, receipt: Receipt, now: int)
    requires receipt != Queued
    ensures var (taken, last) := Drained(t, target, sender, helps, receipt, now);
      TookInOrder(t, target, sender, helps, taken) && OnlyMarked(t, target, sender, helps, receipt, now, last)
  {
    DrainTakesAllInOrder(t, target, sender, helps, receipt, now);
    InOrderIsSorted(Earlier, Waiting(t, target, sender, helps));
    WaitingInOrder(t, target, sender, helps, InOrder(Earlier, Waiting(t, target, sender, helps)));
    forall id | id in t
      ensures AllMarked(t, Waiting(t, target, sender, helps), receipt, now)[id]
           == if WaitsFor(t, target, sender, helps, id)
              then Message(t[id].sender, t[id].target, receipt, t[id].createdAt, now)
              else t[id]
    {
      MarkedLeaves(t, target, sender, helps, receipt, now, id);
    }
  }

  lemma WaitingInOrder(t: Table, target: string, sender: Option<string>, helps: (string, string) -> bool, places: seq<Place>)
    requires Sorted(Earlier, places) && forall p :: p in places <==> p in Waiting(t, target, sender, helps)
    ensures TookInOrder(t, target, sender, helps, Ids(places))
  {
    IdsInOrder(t, places);
    forall id
      ensures id in Ids(places) <==> WaitsFor(t, target, sender, helps, id)
    {
      TakenExactly(t, target, sender, helps, places, id);
    }
  }

  lemma TakenExactly(t: Table, target: string, sender: Option<string>, helps: (string, string) -> bool, places: seq<Place>,
                     id: string)
    requires forall p :: p in places <==> p in Waiting(t, target, sender, helps)
    ensures id in Ids(places) <==> WaitsFor(t, target, sender, helps, id)
  {
    IdsAre(places);
    if id in Ids(places) {
      var k :| 0 <= k < |places| && Ids(places)[k] == id;
      assert places[k] in places;
    }
    if WaitsFor(t, target, sender, helps, id) {
      assert Place(t[id].createdAt, id) in Waiting(t, target, sender, helps);
      var k :| 0 <= k < |places| && places[k] == Place(t[id].createdAt, id);
      assert Ids(places)[k] == id;
    }
  }
}
