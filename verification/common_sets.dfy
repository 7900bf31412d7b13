/** Cardinality bounds on finite sets shared by several puzzles. */
module Sets {

  /** A subset is no larger than the set that holds it. */
  lemma {:induction false} SubsetCard<T>(a: set<T>, b: set<T>)
    requires a <= b
    ensures |a| <= |b|
    decreases |a|
  {
    if a != {} {
      var x :| x in a;
      SubsetCard(a - {x}, b - {x});
    }
  }

  /** A set of naturals below `n` has at most `n` members. */
  lemma {:induction false} BelowCard(s: set<nat>, n: nat)
    requires forall i :: i in s ==> i < n
    ensures |s| <= n
    decreases n
  {
    if n > 0 {
      BelowCard(s - {n - 1}, n - 1);
    } else {
      assert s == {};
    }
  }

  /** The members of a sequence without repeats number its length. */
  lemma {:induction false} DistinctCard<T>(s: seq<T>)
    requires forall i, j :: 0 <= i < j < |s| ==> s[i] != s[j]
    ensures |set x | x in s| == |s|
    decreases |s|
  {
    if |s| > 0 {
      var front := s[..|s| - 1];
      DistinctCard(front);
      assert (set x | x in s) == (set x | x in front) + {s[|s| - 1]};
      assert s[|s| - 1] !in front;
    }
  }
}
