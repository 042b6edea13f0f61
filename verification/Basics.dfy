/** Stock definitions shared by every module: options, outcomes, and extremes of finite sets. */
module Basics {

  datatype Option<+T> = None | Some(value: T)

  /** Either the new state, or the reason the write was rolled back. */
  datatype Outcome<+T, +E> = Done(value: T) | Refused(reason: E)

  lemma HasMember(s: set<int>)
    ensures s != {} ==> exists x :: x in s
  {
    assert (forall x :: x !in s) ==> s == {};
  }

  lemma {:induction false} HasMax(s: set<int>)
    requires s != {}
    ensures exists m :: m in s && forall x :: x in s ==> x <= m
  {
    HasMember(s);
    var a :| a in s;
    if s != {a} {
      assert s - {a} == {} ==> s == {a};
      HasMax(s - {a});
      var m :| m in s - {a} && forall x :: x in s - {a} ==> x <= m;
      assert forall x :: x in s ==> x == a || x in s - {a};
      var top := if a < m then m else a;
      assert top in s && forall x :: x in s ==> x <= top;
    }
  }

  /** MAX over a column. */
  function Max(s: set<int>): (m: int)
    requires s != {}
    ensures m in s && forall x :: x in s ==> x <= m
  {
    HasMax(s);
    var m :| m in s && forall x :: x in s ==> x <= m;
    m
  }

  lemma {:induction false} HasMin(s: set<int>)
    requires s != {}
    ensures exists m :: m in s && forall x :: x in s ==> m <= x
  {
    HasMember(s);
    var a :| a in s;
    if s != {a} {
      assert s - {a} == {} ==> s == {a};
      HasMin(s - {a});
      var m :| m in s - {a} && forall x :: x in s - {a} ==> m <= x;
      assert forall x :: x in s ==> x == a || x in s - {a};
      var low := if m < a then m else a;
      assert low in s && forall x :: x in s ==> low <= x;
    }
  }

  /** MIN over a column. */
  function Min(s: set<int>): (m: int)
    requires s != {}
    ensures m in s && forall x :: x in s ==> m <= x
  {
    HasMin(s);
    var m :| m in s && forall x :: x in s ==> m <= x;
    m
  }
}
