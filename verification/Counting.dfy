/** Sizes of finite sets of integers. */
module Counting {
  lemma {:induction false} RangeSize(s: set<int>, hi: nat)
    requires forall v :: v in s <==> 1 <= v <= hi
    ensures |s| == hi
    decreases hi
  {
    if hi == 0 {
      assert forall v :: v !in s;
      assert s == {};
    } else {
      RangeSize(s - {hi}, hi - 1);
    }
  }

  lemma {:induction false} SubsetSize<T>(s: set<T>, t: set<T>)
    requires s <= t
    ensures |s| <= |t|
    ensures |s| == |t| ==> s == t
  {
    if s == {} {
      assert |t| == 0 ==> t == {};
    } else {
      var v :| v in s;
      SubsetSize(s - {v}, t - {v});
      assert s == (s - {v}) + {v} && t == (t - {v}) + {v};
    }
  }

  /** Different numbers below n are at most n, and n only if they are all of them. */
  lemma {:induction false} AllBelow(s: set<nat>, n: nat)
    requires forall i :: i in s ==> i < n
    ensures |s| <= n
    ensures |s| == n ==> forall i: nat :: i < n ==> i in s
  {
    if n == 0 {
      assert s == {};
    } else {
      AllBelow(s - {n - 1}, n - 1);
      if n - 1 in s {
        assert s == (s - {n - 1}) + {n - 1};
      } else {
        assert s - {n - 1} == s;
      }
    }
  }

  lemma {:induction false} AllOfThem(s: set<nat>, n: nat)
    requires forall i: nat :: i in s <==> i < n
    ensures |s| == n
  {
    if n == 0 {
      assert s == {};
    } else {
      AllOfThem(s - {n - 1}, n - 1);
      assert s == (s - {n - 1}) + {n - 1};
    }
  }
}
