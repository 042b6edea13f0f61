/** Sorting by a comparator: a stable insertion sort, and what any comparator leaves of it. */
module Sorting {

  function Insert<T>(before: (T, T) -> bool, x: T, s: seq<T>): seq<T> {
    if s == [] || !before(s[0], x) then [x] + s
    else [s[0]] + Insert(before, x, s[1..])
  }

  function Sort<T>(before: (T, T) -> bool, s: seq<T>): seq<T> {
    if s == [] then [] else Insert(before, s[0], Sort(before, s[1..]))
  }

  predicate Ordered<T>(before: (T, T) -> bool, s: seq<T>) {
    forall i, j :: 0 <= i < j < |s| ==> !before(s[j], s[i])
  }

  /** A consistent comparator: ties are allowed. */
  ghost predicate WeakOrder<T(!new)>(before: (T, T) -> bool) {
    && (forall a, b :: before(a, b) ==> !before(b, a))
    && (forall a, b, c :: !before(b, a) && !before(c, b) ==> !before(c, a))
  }

  lemma {:induction false} InsertKeeps<T>(before: (T, T) -> bool, x: T, s: seq<T>)
    ensures multiset(Insert(before, x, s)) == multiset{x} + multiset(s)
  {
    if s != [] && before(s[0], x) {
      InsertKeeps(before, x, s[1..]);
      assert s == [s[0]] + s[1..];
    }
  }

  lemma {:induction false} InsertOrders<T(!new)>(before: (T, T) -> bool, x: T, s: seq<T>)
    requires WeakOrder(before) && Ordered(before, s)
    ensures Ordered(before, Insert(before, x, s))
  {
    if s == [] {
    } else if !before(s[0], x) {
      assert forall j :: 0 <= j < |s| ==> j == 0 || !before(s[j], s[0]);
    } else {
      var rest := Insert(before, x, s[1..]);
      InsertOrders(before, x, s[1..]);
      InsertKeeps(before, x, s[1..]);
      forall j | 0 <= j < |rest|
        ensures !before(rest[j], s[0])
      {
        assert rest[j] in multiset(rest);
        assert rest[j] == x || rest[j] in s[1..];
      }
    }
  }

  /** Whatever the comparator, nothing is lost. */
  lemma {:induction false} SortKeeps<T>(before: (T, T) -> bool, s: seq<T>)
    ensures multiset(Sort(before, s)) == multiset(s)
    ensures |Sort(before, s)| == |s|
  {
    if s != [] {
      SortKeeps(before, s[1..]);
      InsertKeeps(before, s[0], Sort(before, s[1..]));
      assert s == [s[0]] + s[1..];
    }
    assert |Sort(before, s)| == |multiset(Sort(before, s))| == |multiset(s)|;
  }

  lemma {:induction false} SortOrders<T(!new)>(before: (T, T) -> bool, s: seq<T>)
    requires WeakOrder(before)
    ensures Ordered(before, Sort(before, s))
  {
    if s != [] {
      SortOrders(before, s[1..]);
      InsertOrders(before, s[0], Sort(before, s[1..]));
    }
  }

  lemma Tail<T>(before: (T, T) -> bool, s: seq<T>)
    requires s != [] && Ordered(before, s)
    ensures s == [s[0]] + s[1..] && Ordered(before, s[1..])
    ensures multiset(s[1..]) == multiset(s) - multiset{s[0]}
  {
    assert s == [s[0]] + s[1..];
  }

  // ---------------------------------------------------------------- the first of a sorted listing

  /** Where a stable sort puts an element that is met last. */
  function InsertLast<T>(before: (T, T) -> bool, x: T, s: seq<T>): seq<T> {
    if s == [] || before(x, s[0]) then [x] + s
    else [s[0]] + InsertLast(before, x, s[1..])
  }

  lemma {:induction false} InsertsCommute<T(!new)>(before: (T, T) -> bool, a: T, x: T, s: seq<T>)
    requires WeakOrder(before)
    ensures Insert(before, a, InsertLast(before, x, s)) == InsertLast(before, x, Insert(before, a, s))
  {
    if s != [] {
      InsertsCommute(before, a, x, s[1..]);
    }
  }

  lemma {:induction false} SortedLast<T(!new)>(before: (T, T) -> bool, s: seq<T>, x: T)
    requires WeakOrder(before)
    ensures Sort(before, s + [x]) == InsertLast(before, x, Sort(before, s))
  {
    if s == [] {
      assert s + [x] == [x];
    } else {
      assert (s + [x])[1..] == s[1..] + [x];
      SortedLast(before, s[1..], x);
      InsertsCommute(before, s[0], x, Sort(before, s[1..]));
    }
  }

  /** Everything after it is greater. */
  lemma {:induction false} LastGoesTo<T(!new)>(before: (T, T) -> bool, x: T, s: seq<T>) returns (p: nat)
    requires WeakOrder(before) && Ordered(before, s)
    ensures p <= |s| && InsertLast(before, x, s) == s[..p] + [x] + s[p..]
    ensures x !in s[p..]
  {
    if s == [] {
      p := 0;
    } else if before(x, s[0]) {
      p := 0;
      forall k | 0 <= k < |s|
        ensures s[k] != x
      {
        assert k == 0 || !before(s[k], s[0]);
      }
    } else {
      Tail(before, s);
      var q := LastGoesTo(before, x, s[1..]);
      p := q + 1;
      assert s[p..] == s[1..][q..];
      assert s[..p] == [s[0]] + s[1..][..q];
    }
  }

  lemma CountOfInserted<T>(s: seq<T>, p: nat, x: T, k: nat)
    requires p < k <= |s| && x !in s[p..]
    ensures multiset((s[..p] + [x] + s[p..])[..k])[x] > multiset(s)[x]
  {
    assert s == s[..p] + s[p..];
    assert (s[..p] + [x] + s[p..])[..k] == s[..p] + [x] + s[p..][..k - p - 1];
  }

  /** The first `k` do without the last element, if they were there before it. */
  lemma FirstWithoutLast<T(!new)>(before: (T, T) -> bool, s: seq<T>, x: T, k: nat)
    requires WeakOrder(before) && k <= |s| && |Sort(before, s)| == |s| && |Sort(before, s + [x])| == |s| + 1
    requires multiset(Sort(before, s + [x])[..k]) <= multiset(s)
    ensures Sort(before, s)[..k] == Sort(before, s + [x])[..k]
  {
    var sorted := Sort(before, s);
    SortKeeps(before, s);
    SortOrders(before, s);
    SortedLast(before, s, x);
    var p := LastGoesTo(before, x, sorted);
    if p < k {
      CountOfInserted(sorted, p, x, k);
      assert false;
    }
  }

  lemma PartsOfPrefix<T>(s: seq<T>, m: nat, n: nat)
    requires m <= n <= |s|
    ensures s[..n][..m] == s[..m] && multiset(s[..m]) <= multiset(s[..n])
    ensures n < |s| ==> s[..n + 1] == s[..n] + [s[n]]
  {
    assert s[..n] == s[..m] + s[m..n];
  }

  /** The first `m` elements give the first `k` of the sorted listing exactly when these are among
      them. */
  lemma FirstOfPartExactly<T(!new)>(before: (T, T) -> bool, s: seq<T>, m: nat, k: nat)
    requires WeakOrder(before) && k <= m <= |s|
    ensures |Sort(before, s)| == |s| && |Sort(before, s[..m])| == m
    ensures Sort(before, s[..m])[..k] == Sort(before, s)[..k]
       <==> multiset(Sort(before, s)[..k]) <= multiset(s[..m])
  {
    SortKeeps(before, s);
    SortKeeps(before, s[..m]);
    PartsOfPrefix(Sort(before, s[..m]), k, m);
    assert Sort(before, s[..m])[..m] == Sort(before, s[..m]);
    if multiset(Sort(before, s)[..k]) <= multiset(s[..m]) {
      FirstOfPart(before, s, m, k);
    }
  }

  lemma {:induction false} FirstOfPart<T(!new)>(before: (T, T) -> bool, s: seq<T>, m: nat, k: nat)
    requires WeakOrder(before) && k <= m <= |s| && |Sort(before, s)| == |s| && |Sort(before, s[..m])| == m
    requires multiset(Sort(before, s)[..k]) <= multiset(s[..m])
    ensures Sort(before, s[..m])[..k] == Sort(before, s)[..k]
    decreases |s|
  {
    if m == |s| {
      assert s[..m] == s;
    } else {
      var n := |s| - 1;
      PartsOfPrefix(s, m, n);
      assert s[..n + 1] == s;
      SortKeeps(before, s[..n]);
      FirstWithoutLast(before, s[..n], s[n], k);
      FirstOfPart(before, s[..n], m, k);
    }
  }

  // ---------------------------------------------------------------- listings without repeats

  predicate Distinct<T(==)>(s: seq<T>) {
    forall a, b :: 0 <= a < b < |s| ==> s[a] != s[b]
  }

  lemma {:induction false} AtMostOnce<T>(s: seq<T>, x: T)
    requires Distinct(s)
    ensures multiset(s)[x] <= 1
  {
    if s != [] {
      AtMostOnce(s[1..], x);
      assert s == [s[0]] + s[1..];
      assert s[0] !in s[1..];
    }
  }

  lemma SameDistinct<T>(a: seq<T>, b: seq<T>)
    requires Distinct(a) && multiset(a) == multiset(b)
    ensures Distinct(b)
  {
    forall j, k | 0 <= j < k < |b|
      ensures b[j] != b[k]
    {
      assert b == b[..j] + [b[j]] + b[j + 1..k] + [b[k]] + b[k + 1..];
      AtMostOnce(a, b[j]);
    }
  }
}
