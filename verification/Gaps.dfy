/**
 Which sequences of a closed range a saved copy still lacks.
 */
module Gaps {
  import opened Basics
  import opened Ordering
  import opened Pages

  datatype Gap = Gap(first: int, last: int)

  /** The saved sequences of the range, ascending; a NULL bound matches nothing. */
  function Saved(cached: set<int>, low: Option<int>, high: Option<int>): seq<int> {
    if low.None? || high.None? then [] else Ascending(set s | s in cached && low.value <= s <= high.value)
  }

  /** The expected next sequence at row `k`: one past LAG(seq), or the low bound. */
  function Expected(rows: seq<int>, low: int, k: nat): int
    requires k <= |rows|
  {
    if k == 0 then low else rows[k - 1] + 1
  }

  /** The first half of the union, from row `k` on. */
  function Interior(rows: seq<int>, low: int, k: nat): seq<Gap>
    requires k <= |rows|
    decreases |rows| - k
  {
    if k == |rows| then []
    else
      (if rows[k] > Expected(rows, low, k) then [Gap(Expected(rows, low, k), rows[k] - 1)] else [])
        + Interior(rows, low, k + 1)
  }

  /** `remote_history_gaps`. */
  function HistoryGaps(cached: set<int>, low: Option<int>, high: Option<int>): seq<Gap> {
    var rows := Saved(cached, low, high);
    if low.None? || high.None? then []
    else
      Interior(rows, low.value, 0) + TailGap(rows, low.value, high.value)
  }

  /** `remote_saved_row_count`. */
  function SavedRowCount(cached: set<int>, low: Option<int>, high: Option<int>): nat {
    if low.None? || high.None? then 0 else |set s | s in cached && low.value <= s <= high.value|
  }

  function Length(gaps: seq<Gap>): int {
    if gaps == [] then 0 else gaps[0].last - gaps[0].first + 1 + Length(gaps[1..])
  }

  lemma {:induction false} LengthAppends(a: seq<Gap>, b: seq<Gap>)
    ensures Length(a + b) == Length(a) + Length(b)
  {
    if a == [] {
      assert a + b == b;
    } else {
      assert (a + b)[1..] == a[1..] + b;
      LengthAppends(a[1..], b);
    }
  }

  predicate Covers(gaps: seq<Gap>, x: int) {
    exists k :: 0 <= k < |gaps| && gaps[k].first <= x <= gaps[k].last
  }

  lemma CoversAppend(a: seq<Gap>, b: seq<Gap>, x: int)
    ensures Covers(a + b, x) <==> Covers(a, x) || Covers(b, x)
  {
    if k :| 0 <= k < |a| && a[k].first <= x <= a[k].last {
      assert (a + b)[k] == a[k];
    }
    if k :| 0 <= k < |b| && b[k].first <= x <= b[k].last {
      assert (a + b)[|a| + k] == b[k];
    }
  }

  /** The gaps from row `k` on: inside the range, and exactly the sequences between the rows. */
  lemma {:induction false} InteriorCovers(rows: seq<int>, low: int, k: nat, x: int)
    requires Sorted(Older, rows) && rows != [] && low <= rows[0] && k <= |rows|
    requires Expected(rows, low, k) <= x <= rows[|rows| - 1]
    ensures Covers(Interior(rows, low, k), x) <==> x !in rows
    decreases |rows| - k
  {
    if k < |rows| {
      var start := Expected(rows, low, k);
      var head := if rows[k] > start then [Gap(start, rows[k] - 1)] else [];
      CoversAppend(head, Interior(rows, low, k + 1), x);
      assert Covers(head, x) <==> start <= x < rows[k];
      if x <= rows[k] {
        StartsPast(rows, low, k + 1);
        if x < rows[k] {
          forall m | 0 <= m < |rows|
            ensures rows[m] != x
          {
            assert k > 0 && m < k - 1 ==> Older(rows[m], rows[k - 1]);
            assert m > k ==> Older(rows[k], rows[m]);
          }
        }
      } else {
        InteriorCovers(rows, low, k + 1, x);
      }
    }
  }

  /** Every later gap starts at or past the expected sequence, ends before the last row, is not
      empty, stops at a saved row, and is one whole run of missing sequences. */
  lemma {:induction false} StartsPast(rows: seq<int>, low: int, k: nat)
    requires Sorted(Older, rows) && rows != [] && low <= rows[0] && k <= |rows|
    ensures forall g :: 0 <= g < |Interior(rows, low, k)| ==>
      var gap := Interior(rows, low, k)[g];
      && Expected(rows, low, k) <= gap.first <= gap.last < rows[|rows| - 1]
      && gap.last + 1 in rows && (gap.first == low || gap.first - 1 in rows)
    ensures Apart(Interior(rows, low, k))
    decreases |rows| - k
  {
    if k < |rows| {
      var start := Expected(rows, low, k);
      StartsPast(rows, low, k + 1);
      assert k < |rows| - 1 ==> Older(rows[k], rows[|rows| - 1]);
      assert k > 0 ==> Older(rows[k - 1], rows[k]) && rows[k - 1] in rows;
      assert rows[k] in rows;
    }
  }

  /** In order, and with at least one saved sequence between neighbours. */
  predicate Apart(gaps: seq<Gap>) {
    forall a, b :: 0 <= a < b < |gaps| ==> gaps[a].last + 1 < gaps[b].first
  }

  lemma {:induction false} InteriorLength(rows: seq<int>, low: int, k: nat)
    requires Sorted(Older, rows) && rows != [] && low <= rows[0] && k <= |rows|
    ensures Length(Interior(rows, low, k)) + (|rows| - k) == rows[|rows| - 1] + 1 - Expected(rows, low, k)
    decreases |rows| - k
  {
    if k < |rows| {
      InteriorLength(rows, low, k + 1);
      assert k > 0 ==> Older(rows[k - 1], rows[k]);
      var head := if rows[k] > Expected(rows, low, k) then [Gap(Expected(rows, low, k), rows[k] - 1)] else [];
      LengthAppends(head, Interior(rows, low, k + 1));
    }
  }

  lemma SavedRows(cached: set<int>, low: int, high: int)
    ensures var rows := Saved(cached, Some(low), Some(high));
      && Sorted(Older, rows) && |rows| == SavedRowCount(cached, Some(low), Some(high))
      && (forall x :: x in rows <==> x in cached && low <= x <= high)
      && (rows != [] ==> low <= rows[0] && rows[|rows| - 1] <= high)
  {
    OrdersAreTotal();
    var rows := Saved(cached, Some(low), Some(high));
    InOrderIsSorted(Older, set s | s in cached && low <= s <= high);
    assert rows != [] ==> rows[0] in rows && rows[|rows| - 1] in rows;
  }

  function TailGap(rows: seq<int>, low: int, high: int): seq<Gap> {
    if rows == [] then [Gap(low, high)]
    else if rows[|rows| - 1] < high then [Gap(rows[|rows| - 1] + 1, high)]
    else []
  }

  lemma InATail(rows: seq<int>, low: int, high: int, x: int)
    ensures Covers(TailGap(rows, low, high), x) <==>
      (if rows == [] then low else rows[|rows| - 1] + 1) <= x <= high
  {
    var tail := TailGap(rows, low, high);
    if (if rows == [] then low else rows[|rows| - 1] + 1) <= x <= high {
      assert tail[0].first <= x <= tail[0].last;
    }
  }

  lemma InAGap(cached: set<int>, low: int, high: int, x: int)
    requires low <= x <= high
    ensures Covers(HistoryGaps(cached, Some(low), Some(high)), x) <==> x !in cached
  {
    var rows := Saved(cached, Some(low), Some(high));
    SavedRows(cached, low, high);
    CoversAppend(Interior(rows, low, 0), TailGap(rows, low, high), x);
    InATail(rows, low, high, x);
    if rows != [] {
      if x <= rows[|rows| - 1] {
        InteriorCovers(rows, low, 0, x);
      } else {
        StartsPast(rows, low, 0);
        NotAmong(rows, x);
      }
    }
  }

  lemma NotAmong(rows: seq<int>, x: int)
    requires Sorted(Older, rows) && rows != [] && rows[|rows| - 1] < x
    ensures x !in rows
  {
    forall k | 0 <= k < |rows|
      ensures rows[k] != x
    {
      assert k < |rows| - 1 ==> Older(rows[k], rows[|rows| - 1]);
    }
  }

  /** On a proper range the gap list is sorted, its gaps are not empty, lie in the range and are
      maximal, and a sequence is in a gap exactly when it is not saved. */
  lemma GapsAreTheMissingPart(cached: set<int>, low: int, high: int)
    requires low <= high
    ensures var gaps := HistoryGaps(cached, Some(low), Some(high));
      && (forall x :: low <= x <= high ==> (Covers(gaps, x) <==> x !in cached))
      && Apart(gaps)
      && (forall g :: 0 <= g < |gaps| ==>
            && low <= gaps[g].first <= gaps[g].last <= high
            && (gaps[g].first == low || gaps[g].first - 1 in cached)
            && (gaps[g].last == high || gaps[g].last + 1 in cached))
  {
    var rows := Saved(cached, Some(low), Some(high));
    SavedRows(cached, low, high);
    forall x | low <= x <= high
      ensures Covers(HistoryGaps(cached, Some(low), Some(high)), x) <==> x !in cached
    {
      InAGap(cached, low, high, x);
    }
    if rows != [] {
      StartsPast(rows, low, 0);
      assert rows[|rows| - 1] in rows;
    }
  }

  /** Saved rows and missing sequences add up to the range, whatever the bounds. */
  lemma CountsAddUp(cached: set<int>, low: int, high: int)
    ensures SavedRowCount(cached, Some(low), Some(high)) + Length(HistoryGaps(cached, Some(low), Some(high)))
      == high - low + 1
  {
    var rows := Saved(cached, Some(low), Some(high));
    SavedRows(cached, low, high);
    if rows != [] {
      InteriorLength(rows, low, 0);
      LengthAppends(Interior(rows, low, 0), TailGap(rows, low, high));
    }
  }

  /** The code does not refuse a reversed range: it answers with the range itself, an interval
      that holds nothing. No gap is empty exactly when a bound is missing or they are in order. */
  lemma NoEmptyGapExactly(cached: set<int>, low: Option<int>, high: Option<int>)
    ensures (forall g :: 0 <= g < |HistoryGaps(cached, low, high)| ==>
               HistoryGaps(cached, low, high)[g].first <= HistoryGaps(cached, low, high)[g].last)
      <==> (low.None? || high.None? || low.value <= high.value)
    ensures low == None || high == None ==> HistoryGaps(cached, low, high) == [] && SavedRowCount(cached, low, high) == 0
    ensures low.Some? && high.Some? && high.value < low.value ==> HistoryGaps(cached, low, high) == [Gap(low.value, high.value)]
  {
    if low.Some? && high.Some? {
      if low.value <= high.value {
        GapsAreTheMissingPart(cached, low.value, high.value);
      } else {
        SavedRows(cached, low.value, high.value);
        var gaps := HistoryGaps(cached, low, high);
        var rows := Saved(cached, low, high);
        assert (set s | s in cached && low.value <= s <= high.value) == {};
        assert gaps == [Gap(low.value, high.value)];
        assert gaps[0].first > gaps[0].last;
      }
    }
  }
}
