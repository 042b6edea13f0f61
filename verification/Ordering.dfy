/**
 `ORDER BY ... LIMIT k` over a finite set of rows: the one sequence that lists the set in a
 strict total order.
 */
module Ordering {

  ghost predicate StrictTotal<T(!new)>(less: (T, T) -> bool) {
    && (forall a :: !less(a, a))
    && (forall a, b :: less(a, b) || less(b, a) || a == b)
    && (forall a, b, c :: less(a, b) && less(b, c) ==> less(a, c))
  }

  predicate IsFirst<T>(less: (T, T) -> bool, s: set<T>, m: T) {
    m in s && forall x :: x in s ==> x == m || less(m, x)
  }

  lemma {:induction false} HasFirst<T(!new)>(less: (T, T) -> bool, s: set<T>)
    requires StrictTotal(less) && |s| != 0
    ensures exists m :: IsFirst(less, s, m)
    decreases |s|
  {
    var a :| a in s;
    if |s - {a}| == 0 {
      assert forall x :: x in s ==> x == a || x in s - {a};
      assert IsFirst(less, s, a);
    } else {
      HasFirst(less, s - {a});
      var m :| IsFirst(less, s - {a}, m);
      var best := if less(a, m) then a else m;
      assert forall x :: x in s ==> x == a || x in s - {a};
      assert IsFirst(less, s, best);
    }
  }

  function First<T(!new)>(less: (T, T) -> bool, s: set<T>): (m: T)
    requires StrictTotal(less) && |s| != 0
    ensures IsFirst(less, s, m)
  {
    HasFirst(less, s);
    var m :| IsFirst(less, s, m);
    m
  }

  function InOrder<T(!new)>(less: (T, T) -> bool, s: set<T>): (listed: seq<T>)
    requires StrictTotal(less)
    ensures |listed| == |s|
    ensures forall x :: x in listed <==> x in s
    decreases |s|
  {
    if |s| == 0 then []
    else
      var m := First(less, s);
      [m] + InOrder(less, s - {m})
  }

  predicate Sorted<T>(less: (T, T) -> bool, listed: seq<T>) {
    forall a, b :: 0 <= a < b < |listed| ==> less(listed[a], listed[b])
  }

  lemma {:induction false} InOrderIsSorted<T(!new)>(less: (T, T) -> bool, s: set<T>)
    requires StrictTotal(less)
    ensures Sorted(less, InOrder(less, s))
    decreases |s|
  {
    if |s| != 0 {
      var m := First(less, s);
      InOrderIsSorted(less, s - {m});
      var rest := InOrder(less, s - {m});
      forall b | 0 <= b < |rest|
        ensures less(m, rest[b])
      {
        assert rest[b] in rest;
      }
    }
  }

  function Elements<T>(listed: seq<T>): set<T> {
    set x | x in listed
  }

  /** A sorted listing of a set is the listing of that set. */
  lemma {:induction false} SortedIsInOrder<T(!new)>(less: (T, T) -> bool, listed: seq<T>)
    requires StrictTotal(less) && Sorted(less, listed)
    ensures InOrder(less, Elements(listed)) == listed
    decreases |listed|
  {
    var s := Elements(listed);
    if |listed| == 0 {
      assert s == {};
    } else {
      var rest := listed[1..];
      assert listed[0] in s;
      assert |s| != 0;
      assert forall x :: x in listed ==> x == listed[0] || x in rest;
      forall x | x in s && x != listed[0]
        ensures less(listed[0], x)
      {
        var k :| 0 <= k < |listed| && listed[k] == x;
      }
      assert First(less, s) == listed[0];
      forall x | x in rest
        ensures x != listed[0]
      {
        var k :| 0 <= k < |rest| && rest[k] == x;
        assert listed[k + 1] == x;
      }
      assert s - {listed[0]} == Elements(rest);
      SortedIsInOrder(less, rest);
    }
  }

  /** Two sets, one wholly before the other. */
  lemma {:induction false} Split<T(!new)>(less: (T, T) -> bool, a: set<T>, b: set<T>)
    requires StrictTotal(less)
    requires forall x, y :: x in a && y in b ==> less(x, y)
    ensures InOrder(less, a + b) == InOrder(less, a) + InOrder(less, b)
  {
    InOrderIsSorted(less, a);
    InOrderIsSorted(less, b);
    var listed := InOrder(less, a) + InOrder(less, b);
    forall i, j | 0 <= i < j < |listed|
      ensures less(listed[i], listed[j])
    {
      var n := |InOrder(less, a)|;
      if i < n && n <= j {
        assert InOrder(less, a)[i] in InOrder(less, a);
        assert InOrder(less, b)[j - n] in InOrder(less, b);
      }
    }
    SortedIsInOrder(less, listed);
    assert Elements(listed) == a + b;
  }

  function Least(a: nat, b: nat): nat {
    if a < b then a else b
  }

  /** `ORDER BY ... LIMIT k`. */
  function Top<T(!new)>(less: (T, T) -> bool, s: set<T>, k: nat): (listed: seq<T>)
    requires StrictTotal(less)
    ensures |listed| == Least(k, |s|)
    ensures forall x :: x in listed ==> x in s
  {
    var all := InOrder(less, s);
    assert forall x :: x in all[..Least(k, |s|)] ==> x in all;
    all[..Least(k, |s|)]
  }

  function UpTo<T>(less: (T, T) -> bool, s: set<T>, c: T): set<T> {
    set x | x in s && (x == c || less(x, c))
  }

  function Past<T>(less: (T, T) -> bool, s: set<T>, c: T): set<T> {
    set x | x in s && less(c, x)
  }

  lemma CutSets<T(!new)>(less: (T, T) -> bool, s: set<T>, listed: seq<T>, n: nat)
    requires StrictTotal(less) && Sorted(less, listed) && 0 < n <= |listed|
    requires forall x :: x in listed <==> x in s
    ensures Elements(listed[..n]) == UpTo(less, s, listed[n - 1])
    ensures Elements(listed[n..]) == Past(less, s, listed[n - 1])
  {
    assert forall x :: x in listed[..n] || x in listed[n..] ==> x in listed;
    forall x | x in listed
      ensures x in listed[..n] <==> (x == listed[n - 1] || less(x, listed[n - 1]))
      ensures x in listed[n..] <==> less(listed[n - 1], x)
    {
      SideOf(less, listed, n, x);
    }
  }

  /** A keyset cursor: the rows after the last one listed are exactly the rest of the listing. */
  lemma Cut<T(!new)>(less: (T, T) -> bool, s: set<T>, n: nat)
    requires StrictTotal(less) && 0 < n <= |s|
    ensures InOrder(less, s)[..n] == InOrder(less, UpTo(less, s, InOrder(less, s)[n - 1]))
    ensures InOrder(less, s)[n..] == InOrder(less, Past(less, s, InOrder(less, s)[n - 1]))
  {
    var listed := InOrder(less, s);
    InOrderIsSorted(less, s);
    CutSets(less, s, listed, n);
    SortedIsInOrder(less, listed[..n]);
    SortedIsInOrder(less, listed[n..]);
  }

  lemma SideOf<T(!new)>(less: (T, T) -> bool, listed: seq<T>, n: nat, x: T)
    requires StrictTotal(less) && Sorted(less, listed) && 0 < n <= |listed| && x in listed
    ensures x in listed[..n] <==> (x == listed[n - 1] || less(x, listed[n - 1]))
    ensures x in listed[n..] <==> less(listed[n - 1], x)
  {
    var k :| 0 <= k < |listed| && listed[k] == x;
    if k < n {
      assert listed[..n][k] == x;
      assert x !in listed[n..] by {
        forall m | 0 <= m < |listed[n..]|
          ensures listed[n..][m] != x
        {
          assert less(listed[k], listed[n + m]);
        }
      }
    } else {
      assert listed[n..][k - n] == x;
      assert less(listed[n - 1], listed[k]);
      assert x !in listed[..n] by {
        forall m | 0 <= m < n
          ensures listed[m] != x
        {
          assert less(listed[m], listed[k]);
        }
      }
    }
  }

  /** A row that a full page leaves out comes after everything on it. */
  lemma TopIsNext<T(!new)>(less: (T, T) -> bool, s: set<T>, k: nat)
    requires StrictTotal(less)
    ensures Sorted(less, Top(less, s, k))
    ensures forall p :: p in s && p !in Top(less, s, k) ==>
      |Top(less, s, k)| == k && forall q :: q in Top(less, s, k) ==> less(q, p)
  {
    var all, page := InOrder(less, s), Top(less, s, k);
    InOrderIsSorted(less, s);
    assert page == all[..|page|];
    assert forall m :: 0 <= m < |page| ==> all[m] in page;
    forall p, q | p in s && p !in page && q in page
      ensures less(q, p)
    {
      assert p in all;
      var n :| 0 <= n < |all| && all[n] == p;
      var m :| 0 <= m < |page| && page[m] == q;
      assert all[m] == q && m < n;
    }
    forall p | p in s && p !in page
      ensures |page| == k
    {
      assert p in all;
      var n :| 0 <= n < |all| && all[n] == p;
    }
  }

  /** Rows ahead of one that made the first `k` number fewer than `k`. */
  lemma FewerAhead<T(!new)>(less: (T, T) -> bool, s: set<T>, k: nat, x: T, ahead: seq<T>)
    requires StrictTotal(less) && Sorted(less, ahead)
    requires x in Top(less, s, k)
    requires forall y :: y in ahead ==> y in s && less(y, x)
    ensures |ahead| < k
  {
    var all := InOrder(less, s);
    InOrderIsSorted(less, s);
    var n :| 0 <= n < |Top(less, s, k)| && Top(less, s, k)[n] == x;
    assert all[n] == x && n < k;
    forall y | y in ahead
      ensures y in all[..n]
    {
      assert y in all;
      SideOf(less, all, n + 1, y);
      var m :| 0 <= m < |all[..n + 1]| && all[..n + 1][m] == y;
      assert m != n;
      assert all[..n][m] == y;
    }
    SortedIsInOrder(less, ahead);
    FewElements(all[..n]);
    SubsetIsSmaller(Elements(ahead), Elements(all[..n]));
  }

  lemma {:induction false} FewElements<T>(listed: seq<T>)
    ensures |Elements(listed)| <= |listed|
  {
    if listed != [] {
      FewElements(listed[1..]);
      assert Elements(listed) == {listed[0]} + Elements(listed[1..]) by {
        assert forall x :: x in listed <==> x == listed[0] || x in listed[1..];
      }
    } else {
      assert Elements(listed) == {};
    }
  }

  lemma SubsetIsSmaller<T>(a: set<T>, b: set<T>)
    requires a <= b
    ensures |a| <= |b|
  {
    assert b == a + (b - a);
  }

  /** The rows that come before one. */
  function Ahead<T>(less: (T, T) -> bool, s: set<T>, x: T): set<T> {
    set y | y in s && less(y, x)
  }

  lemma RankIsAhead<T(!new)>(less: (T, T) -> bool, s: set<T>, n: nat)
    requires StrictTotal(less) && n < |s|
    ensures |Ahead(less, s, InOrder(less, s)[n])| == n
  {
    var all := InOrder(less, s);
    InOrderIsSorted(less, s);
    CutSets(less, s, all, n + 1);
    SortedIsInOrder(less, all[..n + 1]);
    assert |UpTo(less, s, all[n])| == |InOrder(less, Elements(all[..n + 1]))| == n + 1;
    assert all[n] in all;
    assert Ahead(less, s, all[n]) == UpTo(less, s, all[n]) - {all[n]};
  }

  lemma SortedOnce<T(!new)>(less: (T, T) -> bool, listed: seq<T>, n: nat, k: nat)
    requires StrictTotal(less) && Sorted(less, listed) && n < |listed| && k <= |listed|
    ensures listed[n] in listed[..k] <==> n < k
  {
    if n < k {
      assert listed[..k][n] == listed[n];
    } else {
      assert forall m :: 0 <= m < k ==> less(listed[m], listed[n]) && listed[..k][m] == listed[m];
    }
  }

  /** A row is among the first `k` exactly when fewer than `k` come before it. */
  lemma RankInTop<T(!new)>(less: (T, T) -> bool, s: set<T>, k: nat, x: T)
    requires StrictTotal(less) && x in s
    ensures x in Top(less, s, k) <==> |Ahead(less, s, x)| < k
  {
    var all := InOrder(less, s);
    assert x in all;
    var n :| 0 <= n < |all| && all[n] == x;
    RankIsAhead(less, s, n);
    InOrderIsSorted(less, s);
    SortedOnce(less, all, n, Least(k, |s|));
  }

  predicate ComeFirst<T>(less: (T, T) -> bool, front: set<T>, all: set<T>) {
    front <= all && forall x, y :: x in front && y in all && y !in front ==> less(x, y)
  }

  /** Rows in order that come before all others start the listing. */
  lemma ListingStartsWith<T(!new)>(less: (T, T) -> bool, page: seq<T>, rest: set<T>)
    requires StrictTotal(less) && Sorted(less, page)
    requires forall x, y :: x in Elements(page) && y in rest ==> less(x, y)
    ensures |page| <= |Elements(page) + rest|
    ensures InOrder(less, Elements(page) + rest)[..|page|] == page
  {
    SortedIsInOrder(less, page);
    Split(less, Elements(page), rest);
    assert |InOrder(less, Elements(page) + rest)| == |page| + |InOrder(less, rest)|;
  }

  lemma PartAndRest<T>(part: set<T>, all: set<T>)
    requires part <= all
    ensures part + (all - part) == all
  {
  }

  lemma OthersComeAfter<T(!new)>(less: (T, T) -> bool, part: set<T>, all: set<T>, k: nat)
    requires StrictTotal(less) && part <= all
    requires forall x, y :: x in Top(less, part, k) && y in all && y !in part ==> less(x, y)
    ensures ComeFirst(less, Elements(Top(less, part, k)), all)
  {
    TopIsNext(less, part, k);
  }

  /** The first `k` of a part, when all that the part leaves out comes after them. */
  lemma TopOfPart<T(!new)>(less: (T, T) -> bool, part: set<T>, all: set<T>, k: nat)
    requires StrictTotal(less) && part <= all && Sorted(less, Top(less, part, k))
    requires ComeFirst(less, Elements(Top(less, part, k)), all)
    ensures |Top(less, part, k)| <= |all| && Top(less, part, k) == InOrder(less, all)[..|Top(less, part, k)|]
  {
    var page := Top(less, part, k);
    PartAndRest(Elements(page), all);
    ListingStartsWith(less, page, all - Elements(page));
  }

  /** A smaller set that holds the first `k` of a larger one has the same first `k`. */
  lemma TopOfEnough<T(!new)>(less: (T, T) -> bool, s: set<T>, all: set<T>, k: nat)
    requires StrictTotal(less) && s <= all
    requires forall x :: x in Top(less, all, k) ==> x in s
    ensures Top(less, s, k) == Top(less, all, k)
  {
    var page := Top(less, all, k);
    TopIsNext(less, all, k);
    SortedIsInOrder(less, page);
    if |page| < k {
      assert s == all;
    } else {
      var front := Elements(page);
      assert s == front + (s - front);
      assert forall x, y :: x in front && y in s - front ==> less(x, y);
      Split(less, front, s - front);
      assert InOrder(less, s)[..k] == page;
    }
  }

  // ---------------------------------------------------------------- text order, as BINARY collation has it

  predicate TextLess(a: string, b: string) {
    if b == "" then false
    else if a == "" then true
    else a[0] < b[0] || (a[0] == b[0] && TextLess(a[1..], b[1..]))
  }

  lemma {:induction false} TextIrreflexive(a: string)
    ensures !TextLess(a, a)
  {
    if a != "" {
      TextIrreflexive(a[1..]);
    }
  }

  lemma {:induction false} TextTotal(a: string, b: string)
    ensures TextLess(a, b) || TextLess(b, a) || a == b
  {
    if a != "" && b != "" && a[0] == b[0] {
      TextTotal(a[1..], b[1..]);
      assert a == [a[0]] + a[1..] && b == [b[0]] + b[1..];
    }
  }

  lemma {:induction false} TextTransitive(a: string, b: string, c: string)
    requires TextLess(a, b) && TextLess(b, c)
    ensures TextLess(a, c)
  {
    if a != "" && a[0] == b[0] == c[0] {
      TextTransitive(a[1..], b[1..], c[1..]);
    }
  }

  /** The texts agree before `k`, and there the first ends or has the smaller character. */
  predicate SmallerAt(a: string, b: string, k: nat) {
    k <= |a| && k < |b| && a[..k] == b[..k] && (k == |a| || a[k] < b[k])
  }

  ghost predicate Smaller(a: string, b: string) {
    exists k: nat :: SmallerAt(a, b, k)
  }

  /** One text is less exactly when there is such a place. */
  lemma {:induction false} TextLessExactly(a: string, b: string)
    ensures TextLess(a, b) <==> Smaller(a, b)
  {
    if b != "" && (a == "" || a[0] < b[0]) {
      assert SmallerAt(a, b, 0);
    } else if a != "" && b != "" && a[0] == b[0] {
      TextLessExactly(a[1..], b[1..]);
      if k: nat :| SmallerAt(a[1..], b[1..], k) {
        assert a[..k + 1] == [a[0]] + a[1..][..k] && b[..k + 1] == [b[0]] + b[1..][..k];
        assert SmallerAt(a, b, k + 1);
      }
      if k: nat :| SmallerAt(a, b, k) {
        SmallerInTail(a, b, k);
      }
    } else {
      forall k: nat | 0 < k <= |a| && k <= |b|
        ensures a[..k] != b[..k]
      {
        assert a[..k][0] != b[..k][0];
      }
    }
  }

  lemma SmallerInTail(a: string, b: string, k: nat)
    requires a != "" && b != "" && a[0] == b[0] && SmallerAt(a, b, k)
    ensures exists n: nat :: SmallerAt(a[1..], b[1..], n)
  {
    assert k > 0;
    assert a[1..][..k - 1] == a[..k][1..] && b[1..][..k - 1] == b[..k][1..];
    assert SmallerAt(a[1..], b[1..], k - 1);
  }
}
