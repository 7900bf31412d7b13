/** Folds and orderings over sequences shared by several puzzles. */
module Seqs {
  import opened Wrappers

  /** `iter().sum()` over unbounded integers. */
  function Sum(s: seq<int>): int
  {
    if |s| == 0 then 0 else Sum(s[..|s| - 1]) + s[|s| - 1]
  }

  lemma {:induction false} SumAppend(a: seq<int>, b: seq<int>)
    ensures Sum(a + b) == Sum(a) + Sum(b)
    decreases |b|
  {
    if |b| == 0 {
      assert a + b == a;
    } else {
      assert (a + b)[..|a + b| - 1] == a + b[..|b| - 1];
      SumAppend(a, b[..|b| - 1]);
    }
  }

  lemma {:induction false} SumNonNegative(s: seq<int>)
    requires forall i :: 0 <= i < |s| ==> s[i] >= 0
    ensures Sum(s) >= 0
    decreases |s|
  {
    if |s| > 0 {
      SumNonNegative(s[..|s| - 1]);
    }
  }

  lemma {:induction false} SumBounds(s: seq<int>, lo: int, hi: int)
    requires forall i :: 0 <= i < |s| ==> lo <= s[i] <= hi
    ensures lo * |s| <= Sum(s) <= hi * |s|
    decreases |s|
  {
    if |s| > 0 {
      SumBounds(s[..|s| - 1], lo, hi);
    }
  }

  /** `iter().sum()` over values that may each have panicked: the sum when
      none did. */
  function SumSome(xs: seq<Option<int>>): (r: Option<int>)
    ensures r.Some? <==> forall i :: 0 <= i < |xs| ==> xs[i].Some?
    ensures r.Some? && |xs| > 0 ==>
      SumSome(xs[..|xs| - 1]).Some? && r.value == SumSome(xs[..|xs| - 1]).value + xs[|xs| - 1].value
  {
    if |xs| == 0 then Some(0)
    else
      var front := xs[..|xs| - 1];
      assert forall i :: 0 <= i < |front| ==> front[i] == xs[i];
      match (SumSome(front), xs[|xs| - 1])
      case (Some(a), Some(b)) => Some(a + b)
      case _ => None
  }

  lemma {:induction false} SumSomeBounds(xs: seq<Option<int>>, lo: int, hi: int)
    requires forall i :: 0 <= i < |xs| ==> xs[i].Some? ==> lo <= xs[i].value <= hi
    ensures SumSome(xs).Some? ==> lo * |xs| <= SumSome(xs).value <= hi * |xs|
    decreases |xs|
  {
    if |xs| > 0 {
      var front := xs[..|xs| - 1];
      assert forall i :: 0 <= i < |front| ==> front[i] == xs[i];
      SumSomeBounds(front, lo, hi);
      assert lo * |xs| == lo * |front| + lo;
      assert hi * |xs| == hi * |front| + hi;
    }
  }

  lemma {:induction false} SumSomeNonNegative(xs: seq<Option<int>>)
    requires forall i :: 0 <= i < |xs| ==> xs[i].Some? ==> xs[i].value >= 0
    ensures SumSome(xs).Some? ==> SumSome(xs).value >= 0
    decreases |xs|
  {
    if |xs| > 0 {
      var front := xs[..|xs| - 1];
      assert forall i :: 0 <= i < |front| ==> front[i] == xs[i];
      SumSomeNonNegative(front);
    }
  }

  /** `map(f).sum()` where each `f` may panic: the sum of the values
      when none panics. */
  function SumOf<T>(xs: seq<T>, f: T -> Option<int>): (r: Option<int>)
    ensures r.Some? <==> forall i :: 0 <= i < |xs| ==> f(xs[i]).Some?
    ensures r.Some? ==> r.value == Total(xs, f)
    ensures r.Some? && (forall i :: 0 <= i < |xs| ==> f(xs[i]).Some? && f(xs[i]).value >= 0) ==> r.value >= 0
  {
    var ys := seq(|xs|, i requires 0 <= i < |xs| => f(xs[i]));
    assert forall i :: 0 <= i < |xs| ==> ys[i] == f(xs[i]);
    SumOfNonNegative(xs, f, ys);
    SumSomeTotal(xs, f, ys);
    SumSome(ys)
  }

  lemma SumOfNonNegative<T>(xs: seq<T>, f: T -> Option<int>, ys: seq<Option<int>>)
    requires |ys| == |xs| && forall i :: 0 <= i < |xs| ==> ys[i] == f(xs[i])
    ensures SumSome(ys).Some? && (forall i :: 0 <= i < |xs| ==> f(xs[i]).Some? && f(xs[i]).value >= 0) ==>
      SumSome(ys).value >= 0
  {
    if forall i :: 0 <= i < |xs| ==> f(xs[i]).Some? && f(xs[i]).value >= 0 {
      SumSomeNonNegative(ys);
    }
  }

  /** The values of `f` over `xs` added up from the front: the reference
      the running sums are measured against. */
  function Total<T>(xs: seq<T>, f: T -> Option<int>): int
    requires forall i :: 0 <= i < |xs| ==> f(xs[i]).Some?
  {
    if |xs| == 0 then 0 else f(xs[0]).value + Total(xs[1..], f)
  }

  /** Bounds on every value bound the total. */
  lemma {:induction false} TotalBounds<T>(xs: seq<T>, f: T -> Option<int>, lo: int, hi: int)
    requires forall i :: 0 <= i < |xs| ==> f(xs[i]).Some? && lo <= f(xs[i]).value <= hi
    ensures lo * |xs| <= Total(xs, f) <= hi * |xs|
    decreases |xs|
  {
    if |xs| > 0 {
      TotalBounds(xs[1..], f, lo, hi);
      assert lo * |xs| == lo + lo * |xs[1..]|;
      assert hi * |xs| == hi + hi * |xs[1..]|;
    }
  }

  /** Adding up from the front agrees with adding up from the back. */
  lemma {:induction false} TotalSnoc<T>(xs: seq<T>, f: T -> Option<int>)
    requires |xs| > 0 && forall i :: 0 <= i < |xs| ==> f(xs[i]).Some?
    ensures Total(xs, f) == Total(xs[..|xs| - 1], f) + f(xs[|xs| - 1]).value
    decreases |xs|
  {
    if |xs| > 1 {
      TotalSnoc(xs[1..], f);
      assert xs[1..][..|xs| - 2] == xs[..|xs| - 1][1..];
    }
  }

  /** A running sum over every `f(xs[i])` is their total. */
  lemma {:induction false} SumSomeTotal<T>(xs: seq<T>, f: T -> Option<int>, ys: seq<Option<int>>)
    requires |ys| == |xs| && forall i :: 0 <= i < |xs| ==> ys[i] == f(xs[i])
    ensures SumSome(ys).Some? ==> forall i :: 0 <= i < |xs| ==> f(xs[i]).Some?
    ensures SumSome(ys).Some? ==> SumSome(ys).value == Total(xs, f)
    decreases |xs|
  {
    if |xs| > 0 && SumSome(ys).Some? {
      var n := |xs| - 1;
      SumSomeTotal(xs[..n], f, ys[..n]);
      TotalSnoc(xs, f);
    }
  }

  /** `map(f).collect::<Option<Vec<_>>>()` in effect: every result, or
      `None` when some `f` panics. */
  function MapAll<T, U>(xs: seq<T>, f: T -> Option<U>): (r: Option<seq<U>>)
    ensures r.Some? <==> forall i :: 0 <= i < |xs| ==> f(xs[i]).Some?
    ensures r.Some? ==>
      |r.value| == |xs| && forall i :: 0 <= i < |xs| ==> Some(r.value[i]) == f(xs[i])
  {
    if |xs| == 0 then Some([])
    else
      var front := xs[..|xs| - 1];
      assert forall i :: 0 <= i < |front| ==> front[i] == xs[i];
      match (MapAll(front, f), f(xs[|xs| - 1]))
      case (Some(ys), Some(y)) => Some(ys + [y])
      case _ => None
  }

  /** Mapping a prefix succeeds exactly when each of its elements maps. */
  lemma MapAllPrefix<T, U>(xs: seq<T>, n: nat, f: T -> Option<U>)
    requires n <= |xs|
    ensures MapAll(xs[..n], f).Some? <==> forall j :: 0 <= j < n ==> f(xs[j]).Some?
  {
    assert forall j :: 0 <= j < n ==> xs[..n][j] == xs[j];
  }

  lemma {:induction false} SumAtLeast(s: seq<int>, lo: int)
    requires forall i :: 0 <= i < |s| ==> lo <= s[i]
    ensures Sum(s) >= lo * |s|
    decreases |s|
  {
    if |s| > 0 {
      var front := s[..|s| - 1];
      assert forall i :: 0 <= i < |front| ==> front[i] == s[i];
      SumAtLeast(front, lo);
      assert lo * |s| == lo * |front| + lo;
    }
  }

  /** Reordering does not change a sum. */
  lemma {:induction false} SumPermutation(a: seq<int>, b: seq<int>)
    requires multiset(a) == multiset(b)
    ensures Sum(a) == Sum(b)
    decreases |a|
  {
    if |a| == 0 {
      assert |b| == |multiset(b)| == 0;
    } else {
      var x := a[|a| - 1];
      var front := a[..|a| - 1];
      assert a == front + [x];
      assert x in multiset(b);
      var k :| 0 <= k < |b| && b[k] == x;
      var left, right := b[..k], b[k + 1..];
      assert b == left + [x] + right;
      var rest := left + right;
      assert multiset(rest) == multiset(front) by {
        assert multiset(b) == multiset(rest) + multiset{x};
        assert multiset(a) == multiset(front) + multiset{x};
        assert multiset(rest) == multiset(rest) + multiset{x} - multiset{x};
        assert multiset(front) == multiset(front) + multiset{x} - multiset{x};
      }
      SumPermutation(front, rest);
      SumAround(left, x, right);
      SumAppend(left, right);
    }
  }

  lemma SumAround(left: seq<int>, x: int, right: seq<int>)
    ensures Sum(left + [x] + right) == Sum(left) + x + Sum(right)
  {
    SumAppend(left + [x], right);
    assert (left + [x])[..|left|] == left;
  }

  /** `reduce(|acc, a| acc * a)`; the empty product is 1 (the callers that
      `unwrap` the reduction check emptiness themselves). */
  function Product(s: seq<int>): int
  {
    if |s| == 0 then 1 else Product(s[..|s| - 1]) * s[|s| - 1]
  }

  lemma {:induction false} ProductZero(s: seq<int>)
    ensures Product(s) == 0 <==> exists i :: 0 <= i < |s| && s[i] == 0
    decreases |s|
  {
    if |s| > 0 {
      ProductZero(s[..|s| - 1]);
      assert forall i :: 0 <= i < |s| - 1 ==> s[..|s| - 1][i] == s[i];
    }
  }

  /** `iter().min()`: None on an empty sequence. */
  function Min(s: seq<int>): (r: Option<int>)
    ensures r.None? <==> |s| == 0
    ensures r.Some? ==> (exists i :: 0 <= i < |s| && s[i] == r.value)
    ensures r.Some? ==> forall i :: 0 <= i < |s| ==> r.value <= s[i]
  {
    if |s| == 0 then None
    else
      var m := Min(s[..|s| - 1]);
      if m.None? then Some(s[0])
      else if s[|s| - 1] < m.value then Some(s[|s| - 1])
      else
        assert forall i :: 0 <= i < |s| - 1 ==> s[..|s| - 1][i] == s[i];
        m
  }

  /** `iter().max()`: None on an empty sequence. */
  function Max(s: seq<int>): (r: Option<int>)
    ensures r.None? <==> |s| == 0
    ensures r.Some? ==> (exists i :: 0 <= i < |s| && s[i] == r.value)
    ensures r.Some? ==> forall i :: 0 <= i < |s| ==> s[i] <= r.value
  {
    if |s| == 0 then None
    else
      var m := Max(s[..|s| - 1]);
      if m.None? then Some(s[0])
      else if s[|s| - 1] > m.value then Some(s[|s| - 1])
      else
        assert forall i :: 0 <= i < |s| - 1 ==> s[..|s| - 1][i] == s[i];
        m
  }

  predicate SortedAsc(s: seq<int>)
  {
    forall i, j :: 0 <= i < j < |s| ==> s[i] <= s[j]
  }

  function Insert(x: int, s: seq<int>): (r: seq<int>)
    requires SortedAsc(s)
    ensures SortedAsc(r)
    ensures multiset(r) == multiset(s) + multiset{x}
    ensures |r| == |s| + 1
    ensures |s| > 0 ==> r[0] == x || r[0] == s[0]
  {
    if |s| == 0 then [x]
    else if x <= s[0] then [x] + s
    else
      var t := Insert(x, s[1..]);
      assert s == [s[0]] + s[1..];
      assert forall j :: 0 <= j < |t| ==> s[0] <= t[0] <= t[j];
      [s[0]] + t
  }

  /** Insertion sort: one of the outcomes `sort_unstable` may produce (all
      outcomes agree on integers). */
  function SortAsc(s: seq<int>): (r: seq<int>)
    ensures SortedAsc(r)
    ensures multiset(r) == multiset(s)
    ensures |r| == |s|
  {
    if |s| == 0 then []
    else
      assert s == s[..|s| - 1] + [s[|s| - 1]];
      Insert(s[|s| - 1], SortAsc(s[..|s| - 1]))
  }

  function Reverse<T>(s: seq<T>): (r: seq<T>)
    ensures |r| == |s|
    ensures forall i :: 0 <= i < |s| ==> r[i] == s[|s| - 1 - i]
  {
    if |s| == 0 then [] else [s[|s| - 1]] + Reverse(s[..|s| - 1])
  }

  /** Number of elements of `s` that belong to `xs`. */
  function CountIn<T(==)>(s: seq<T>, xs: seq<T>): (r: nat)
    ensures r <= |s|
  {
    if |s| == 0 then 0
    else CountIn(s[..|s| - 1], xs) + (if s[|s| - 1] in xs then 1 else 0)
  }
}
