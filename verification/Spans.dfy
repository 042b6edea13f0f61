/**
 Syntax spans: of all spans over one range the highest role is kept, and ranges come out sorted.
 */
module Spans {
  import opened Basics
  import opened Ordering

  datatype Role =
    | Keyword | Function | Constructor | Type | Module | Attribute | Parameter | Property | Constant | String | Number
    | Operator | Punctuation | Variable | Comment

  datatype Range = Range(start: nat, end: nat)

  datatype Span = Span(range: Range, role: Role)

  /** `role_priority`. */
  function Priority(r: Role): nat {
    match r
    case Keyword => 90
    case Function => 85
    case Constructor => 85
    case Type => 80
    case Module => 75
    case Attribute => 70
    case Parameter => 65
    case Property => 65
    case Constant => 60
    case String => 60
    case Number => 60
    case Operator => 55
    case Punctuation => 55
    case Variable => 40
    case Comment => 30
  }

  /** The key order of the `BTreeMap`. */
  predicate RangeBefore(a: Range, b: Range) {
    a.start < b.start || (a.start == b.start && a.end < b.end)
  }

  lemma RangesAreTotal()
    ensures StrictTotal(RangeBefore)
  {
  }

  predicate IsProper(r: Range) {
    r.start < r.end
  }

  /** The role kept for a range: a later span replaces it only with a higher priority. */
  function RoleAt(spans: seq<Span>, r: Range): Option<Role> {
    if spans == [] then None
    else
      var kept, last := RoleAt(spans[..|spans| - 1], r), spans[|spans| - 1];
      if last.range != r then kept
      else if kept.None? || Priority(last.role) > Priority(kept.value) then Some(last.role)
      else kept
  }

  predicate IsOver(spans: seq<Span>, r: Range, k: nat) {
    k < |spans| && spans[k].range == r
  }

  /** The span at `k` is the first among the highest over the range. */
  predicate FirstHighest(spans: seq<Span>, r: Range, k: nat) {
    && IsOver(spans, r, k)
    && (forall j: nat :: j < |spans| && IsOver(spans, r, j) ==> Priority(spans[j].role) <= Priority(spans[k].role))
    && (forall j: nat :: j < k && IsOver(spans, r, j) ==> Priority(spans[j].role) < Priority(spans[k].role))
  }

  /** A range has a role exactly when some span covers it, and then the first highest one's. */
  lemma {:induction false} RoleAtIsFirstHighest(spans: seq<Span>, r: Range) returns (k: nat)
    ensures RoleAt(spans, r).None? <==> forall j: nat :: !IsOver(spans, r, j)
    ensures RoleAt(spans, r).Some? ==> FirstHighest(spans, r, k) && spans[k].role == RoleAt(spans, r).value
  {
    k := 0;
    if spans != [] {
      var n := |spans| - 1;
      k := RoleAtIsFirstHighest(spans[..n], r);
      assert forall j: nat :: j < n ==> (IsOver(spans, r, j) <==> IsOver(spans[..n], r, j));
      assert IsOver(spans, r, n) <==> spans[n].range == r;
      if RoleAt(spans, r) != RoleAt(spans[..n], r) {
        k := n;
      }
    }
  }

  /** What the map holds after some of the spans. */
  ghost predicate Holds(byRange: map<Range, Role>, spans: seq<Span>) {
    forall r :: (r in byRange <==> IsProper(r) && RoleAt(spans, r).Some?) && (r in byRange ==> RoleAt(spans, r) == Some(byRange[r]))
  }

  function Listed(byRange: map<Range, Role>, ranges: seq<Range>): (listed: seq<Span>)
    requires forall r :: r in ranges ==> r in byRange
    ensures |listed| == |ranges|
    ensures forall k :: 0 <= k < |ranges| ==> ranges[k] in byRange && listed[k] == Span(ranges[k], byRange[ranges[k]])
  {
    if ranges == [] then []
    else
      assert ranges[0] in ranges;
      [Span(ranges[0], byRange[ranges[0]])] + Listed(byRange, ranges[1..])
  }

  predicate RangesInOrder(spans: seq<Span>) {
    forall i, j :: 0 <= i < j < |spans| ==> RangeBefore(spans[i].range, spans[j].range)
  }

  lemma HoldsNext(byRange: map<Range, Role>, spans: seq<Span>, n: nat, next: map<Range, Role>)
    requires n < |spans| && Holds(byRange, spans[..n])
    requires var s := spans[n];
      next == if IsProper(s.range) && (s.range !in byRange || Priority(s.role) > Priority(byRange[s.range]))
              then byRange[s.range := s.role] else byRange
    ensures Holds(next, spans[..n + 1])
  {
    assert spans[..n + 1][..n] == spans[..n];
  }

  lemma ListedHolds(byRange: map<Range, Role>, ranges: seq<Range>, s: Span)
    requires forall r :: r in ranges <==> r in byRange
    ensures s in Listed(byRange, ranges) <==> s.range in byRange && byRange[s.range] == s.role
  {
    var kept := Listed(byRange, ranges);
    if s.range in ranges {
      var k :| 0 <= k < |ranges| && ranges[k] == s.range;
      assert kept[k].range == s.range;
    }
    if s in kept {
      var k :| 0 <= k < |kept| && kept[k] == s;
      assert ranges[k] in ranges;
    }
  }

  lemma ListedInOrder(byRange: map<Range, Role>, ranges: seq<Range>)
    requires (forall r :: r in ranges ==> r in byRange) && Sorted(RangeBefore, ranges)
    ensures RangesInOrder(Listed(byRange, ranges))
  {
  }

  /** `normalize_spans`: empty spans are dropped, each range is listed once, in order, with the
      role kept for it. */
  method NormalizeSpans(spans: seq<Span>) returns (kept: seq<Span>)
    ensures RangesInOrder(kept)
    ensures forall s :: s in kept <==> IsProper(s.range) && RoleAt(spans, s.range) == Some(s.role)
    ensures forall i, j :: 0 <= i < j < |kept| ==>
      || kept[i].range.start < kept[j].range.start
      || (kept[i].range.start == kept[j].range.start && kept[i].range.end < kept[j].range.end)
    ensures forall s :: s in kept <==> s.range.start < s.range.end && Wins(spans, s)
  {
    forall s: Span
      ensures RoleAt(spans, s.range) == Some(s.role) <==> Wins(spans, s)
    {
      RoleAtExactly(spans, s);
    }
    var byRange: map<Range, Role> := map[];
    for n := 0 to |spans|
      invariant Holds(byRange, spans[..n])
    {
      var span := spans[n];
      ghost var before := byRange;
      if IsProper(span.range) {
        if span.range in byRange {
          if Priority(span.role) > Priority(byRange[span.range]) {
            byRange := byRange[span.range := span.role];
          }
        } else {
          byRange := byRange[span.range := span.role];
        }
      }
      HoldsNext(before, spans, n, byRange);
    }
    assert spans[..|spans|] == spans;
    RangesAreTotal();
    var ranges := InOrder(RangeBefore, byRange.Keys);
    InOrderIsSorted(RangeBefore, byRange.Keys);
    ListedInOrder(byRange, ranges);
    kept := Listed(byRange, ranges);
    forall s
      ensures s in kept <==> IsProper(s.range) && RoleAt(spans, s.range) == Some(s.role)
    {
      ListedHolds(byRange, ranges, s);
    }
  }

  // ---------------------------------------------------------------- which role wins

  /** The groups of roles, strongest first; those of one group are equal. */
  function GroupOf(r: Role): nat {
    match r
    case Keyword => 0
    case Function | Constructor => 1
    case Type => 2
    case Module => 3
    case Attribute => 4
    case Parameter | Property => 5
    case Constant | String | Number => 6
    case Operator | Punctuation => 7
    case Variable => 8
    case Comment => 9
  }

  predicate Stronger(a: Role, b: Role) {
    GroupOf(a) < GroupOf(b)
  }

  lemma StrongerExactly(a: Role, b: Role)
    ensures Stronger(a, b) <==> Priority(a) > Priority(b)
  {
    PriorityOfGroup(a);
    PriorityOfGroup(b);
  }

  lemma PriorityOfGroup(r: Role)
    ensures Priority(r) == [90, 85, 80, 75, 70, 65, 60, 55, 40, 30][GroupOf(r)]
  {
  }

  /** The capture at `k` has the role, none over its range has a stronger one, and every earlier one
      has a weaker one. */
  predicate WinsAt(spans: seq<Span>, s: Span, k: nat) {
    && k < |spans| && spans[k] == s
    && (forall j :: 0 <= j < |spans| && spans[j].range == s.range ==> !Stronger(spans[j].role, s.role))
    && (forall j :: 0 <= j < k && spans[j].range == s.range ==> Stronger(s.role, spans[j].role))
  }

  predicate Wins(spans: seq<Span>, s: Span) {
    exists k :: 0 <= k < |spans| && WinsAt(spans, s, k)
  }

  /** The role kept for a range is the one that wins. */
  lemma RoleAtExactly(spans: seq<Span>, s: Span)
    ensures RoleAt(spans, s.range) == Some(s.role) <==> Wins(spans, s)
  {
    var k := RoleAtIsFirstHighest(spans, s.range);
    forall a: Role, b: Role
      ensures Stronger(a, b) <==> Priority(a) > Priority(b)
    {
      StrongerExactly(a, b);
    }
    if RoleAt(spans, s.range) == Some(s.role) {
      assert forall j :: 0 <= j < |spans| && spans[j].range == s.range ==> IsOver(spans, s.range, j);
      assert WinsAt(spans, s, k);
    }
    if n :| 0 <= n < |spans| && WinsAt(spans, s, n) {
      assert IsOver(spans, s.range, n);
      assert IsOver(spans, s.range, k) && spans[k].range == s.range;
      assert k == n;
    }
  }
}
