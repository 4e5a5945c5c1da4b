/** Finite sets: choosing, counting and finding fresh elements. */
module Sets {

  lemma Pick<T>(s: set<T>) returns (x: T)
    requires s != {}
    ensures x in s
  {
    x :| x in s;
  }

  lemma SubsetSize<T>(a: set<T>, b: set<T>)
    requires a <= b
    ensures |a| <= |b|
  {
    assert a + (b - a) == b;
  }

  /** A sequence without repetitions is no longer than a set that holds its elements. */
  lemma {:induction false} DistinctSize<T>(s: seq<T>, all: set<T>)
    requires forall i, j | 0 <= i < j < |s| :: s[i] != s[j]
    requires forall x | x in s :: x in all
    ensures |s| <= |all|
    decreases |s|
  {
    if s != [] {
      var x := s[|s| - 1];
      DistinctSize(s[..|s| - 1], all - {x});
    }
  }

  lemma {:induction false} BoundedSize(s: set<int>, n: nat)
    requires forall x | x in s :: 0 <= x < n
    ensures |s| <= n
    decreases n
  {
    if n > 0 {
      BoundedSize(s - {n - 1}, n - 1);
    } else if s != {} {
      var x := Pick(s);
      assert false;
    }
  }

  lemma {:induction false} UpperBound(s: set<int>) returns (b: int)
    ensures b >= 0 && forall x | x in s :: x <= b
    decreases |s|
  {
    if s == {} {
      b := 0;
    } else {
      var x := Pick(s);
      b := UpperBound(s - {x});
      assert forall y | y in s :: y == x || y in s - {x};
      b := if x > b then x else b;
    }
  }

  /** There is always a positive id that is not in use. */
  lemma FreshId(used: set<int>)
    ensures exists id: int :: id >= 1 && id !in used
  {
    var bound := UpperBound(used);
    assert bound + 1 !in used;
  }
}
