/**
 Spending a byte budget along a listing: the running total before each row decides whether the
 row is taken.
 */
module Budget {
  import opened Ordering
  import opened Sorting

  function Spent<T>(cost: T -> nat, walk: seq<T>): nat {
    if walk == [] then 0 else cost(walk[0]) + Spent(cost, walk[1..])
  }

  /** `spent_before = 0 OR spent_before + required_bytes <= :max_bytes`. */
  function Affordable<T>(cost: T -> nat, walk: seq<T>, before: nat, budget: nat): seq<T> {
    if walk == [] then []
    else
      (if before == 0 || before + cost(walk[0]) <= budget then [walk[0]] else [])
      + Affordable(cost, walk[1..], before + cost(walk[0]), budget)
  }

  lemma {:induction false} NothingMore<T>(cost: T -> nat, walk: seq<T>, before: nat, budget: nat)
    requires 0 < before && budget < before
    ensures Affordable(cost, walk, before, budget) == []
  {
    if walk != [] {
      NothingMore(cost, walk[1..], before + cost(walk[0]), budget);
    }
  }

  /** Whatever fits as a whole is taken as a whole. */
  lemma {:induction false} AffordableAll<T>(cost: T -> nat, walk: seq<T>, before: nat, budget: nat)
    requires before + Spent(cost, walk) <= budget
    ensures Affordable(cost, walk, before, budget) == walk
  {
    if walk != [] {
      AffordableAll(cost, walk[1..], before + cost(walk[0]), budget);
    }
  }

  lemma {:induction false} AffordableAreListed<T>(cost: T -> nat, walk: seq<T>, before: nat, budget: nat)
    ensures forall d :: d in Affordable(cost, walk, before, budget) ==> d in walk
  {
    if walk != [] {
      AffordableAreListed(cost, walk[1..], before + cost(walk[0]), budget);
    }
  }

  lemma SpentUpTo<T>(cost: T -> nat, walk: seq<T>, n: nat)
    requires 0 < n <= |walk|
    ensures Spent(cost, walk[..n]) == cost(walk[0]) + Spent(cost, walk[1..][..n - 1])
  {
    assert walk[..n][1..] == walk[1..][..n - 1];
  }

  /** The first `n`, and nothing that did not have to be left out: the budget is passed only by
      the last item, after items that cost nothing, and the next item would pass it. */
  predicate IsBudgetPrefix<T>(cost: T -> nat, walk: seq<T>, before: nat, budget: nat, n: nat) {
    && n <= |walk|
    && (before == 0 && walk != [] ==> 0 < n)
    && (budget < before + Spent(cost, walk[..n]) ==> 0 < n && before + Spent(cost, walk[..n - 1]) == 0)
    && (n < |walk| ==> budget < before + Spent(cost, walk[..n]) + cost(walk[n]))
  }

  lemma {:induction false} AffordableIsPrefix<T>(cost: T -> nat, walk: seq<T>, before: nat, budget: nat) returns (n: nat)
    requires before <= budget || before == 0
    ensures IsBudgetPrefix(cost, walk, before, budget, n)
    ensures Affordable(cost, walk, before, budget) == walk[..n]
    decreases |walk|
  {
    if walk == [] {
      n := 0;
    } else {
      var after := before + cost(walk[0]);
      if before != 0 && budget < after {
        n := 0;
        NothingMore(cost, walk[1..], after, budget);
      } else if budget < after && 0 < after {
        n := 1;
        NothingMore(cost, walk[1..], after, budget);
        SpentUpTo(cost, walk, 1);
        assert walk[..1] == [walk[0]];
      } else {
        var m := AffordableIsPrefix(cost, walk[1..], after, budget);
        n := m + 1;
        SpentUpTo(cost, walk, n);
        assert walk[..n] == [walk[0]] + walk[1..][..m];
        if m > 0 {
          SpentUpTo(cost, walk, m);
        }
      }
    }
  }

  lemma {:induction false} SpentSplits<T>(cost: T -> nat, s: seq<T>, k: nat)
    requires k < |s|
    ensures Spent(cost, s) == cost(s[k]) + Spent(cost, s[..k] + s[k + 1..])
  {
    if k == 0 {
      assert s[..0] + s[1..] == s[1..];
    } else {
      SpentSplits(cost, s[1..], k - 1);
      assert (s[..k] + s[k + 1..])[1..] == s[1..][..k - 1] + s[1..][k..];
    }
  }

  lemma {:induction false} SpentOfSame<T>(cost: T -> nat, a: seq<T>, b: seq<T>)
    requires Distinct(a) && Distinct(b) && forall x :: x in a <==> x in b
    ensures Spent(cost, a) == Spent(cost, b)
    decreases |a|
  {
    if a == [] {
      assert forall k :: 0 <= k < |b| ==> b[k] in a;
    } else {
      assert a[0] in b;
      var k :| 0 <= k < |b| && b[k] == a[0];
      var rest := b[..k] + b[k + 1..];
      SpentSplits(cost, b, k);
      forall x
        ensures x in a[1..] <==> x in rest
      {
        SameRest(a, b, k, x);
      }
      SpentOfSame(cost, a[1..], rest);
    }
  }

  lemma SameRest<T>(a: seq<T>, b: seq<T>, k: nat, x: T)
    requires Distinct(a) && Distinct(b) && (forall y :: y in a <==> y in b)
    requires a != [] && k < |b| && b[k] == a[0]
    ensures x in a[1..] <==> x in b[..k] + b[k + 1..]
  {
    assert x in a <==> x == a[0] || x in a[1..];
    assert a[0] !in a[1..];
    assert b == b[..k] + [b[k]] + b[k + 1..];
  }

  lemma SortedIsDistinct<T(!new)>(less: (T, T) -> bool, s: seq<T>)
    requires StrictTotal(less) && Sorted(less, s)
    ensures Distinct(s)
  {
  }

  lemma FirstOfMany<T>(cost: T -> nat, walk: seq<T>, n: nat)
    requires 0 < n <= |walk|
    ensures cost(walk[0]) <= Spent(cost, walk[..n])
    ensures 1 < n ==> cost(walk[0]) <= Spent(cost, walk[..n - 1])
    ensures n == 1 ==> cost(walk[0]) == Spent(cost, walk[..n])
  {
    SpentUpTo(cost, walk, n);
    if 1 < n {
      SpentUpTo(cost, walk, n - 1);
    }
  }

  lemma PrefixOfPrefix<T>(walk: seq<T>, m: nat, n: nat)
    requires n <= m <= |walk|
    ensures walk[..m][..n] == walk[..n]
  {
  }
}
