/** aoc-07: the group sizes of a hand, two ways.  `Runs` reads them off a
    sorted hand as the lengths of its runs of equal cards; `GroupSizes`
    counts the copies of each distinct card of the hand's multiset.  The
    two agree on every sorted sequence. */
module CardGroups {
  import Seqs

  // ---------------------------------------------------------------------
  // Runs of a sorted hand

  /** The lengths of the runs of equal adjacent cards, in order. */
  function Runs(s: seq<int>): (r: seq<int>)
    ensures |r| <= |s|
    ensures |s| > 0 ==> |r| > 0
  {
    if |s| == 0 then []
    else
      var p := Runs(s[..|s| - 1]);
      if |s| > 1 && s[|s| - 2] == s[|s| - 1] then Grow(p) else p + [1]
  }

  /** The last run grows by one card. */
  function Grow(p: seq<int>): (q: seq<int>)
    requires |p| > 0
    ensures |q| == |p| && q[|q| - 1] == p[|p| - 1] + 1
    ensures forall i :: 0 <= i < |p| - 1 ==> q[i] == p[i]
  {
    p[..|p| - 1] + [p[|p| - 1] + 1]
  }

  /** Every run holds at least one card and the runs hold all the cards. */
  lemma {:induction false} RunsShape(s: seq<int>)
    ensures forall i :: 0 <= i < |Runs(s)| ==> Runs(s)[i] >= 1
    ensures Seqs.Sum(Runs(s)) == |s|
    decreases |s|
  {
    if |s| > 0 {
      var front := s[..|s| - 1];
      RunsShape(front);
      RunsStep(s, Runs(front));
    }
  }

  /** One more card keeps the runs positive and their sum the length. */
  lemma RunsStep(s: seq<int>, p: seq<int>)
    requires |s| > 0 && p == Runs(s[..|s| - 1])
    requires forall i :: 0 <= i < |p| ==> p[i] >= 1
    requires Seqs.Sum(p) == |s| - 1
    ensures forall i :: 0 <= i < |Runs(s)| ==> Runs(s)[i] >= 1
    ensures Seqs.Sum(Runs(s)) == |s|
  {
    if |s| > 1 && s[|s| - 2] == s[|s| - 1] {
      RunsBumped(s, p);
      BumpLast(p);
    } else {
      NewLast(p);
    }
  }

  /** A card like its predecessor grows the last run. */
  lemma RunsBumped(s: seq<int>, p: seq<int>)
    requires |s| > 1 && s[|s| - 2] == s[|s| - 1] && p == Runs(s[..|s| - 1])
    ensures |p| > 0 && Runs(s) == Grow(p)
  {
    assert |s[..|s| - 1]| > 0;
  }

  /** Growing the last run by one card keeps every run positive and grows
      the sum by one. */
  lemma BumpLast(p: seq<int>)
    requires |p| > 0
    requires forall i :: 0 <= i < |p| ==> p[i] >= 1
    ensures forall i :: 0 <= i < |Grow(p)| ==> Grow(p)[i] >= 1
    ensures Seqs.Sum(Grow(p)) == Seqs.Sum(p) + 1
  {
    var q := Grow(p);
    assert q[..|q| - 1] == p[..|p| - 1];
  }

  /** Opening a run of one card keeps every run positive and grows the sum
      by one. */
  lemma NewLast(p: seq<int>)
    requires forall i :: 0 <= i < |p| ==> p[i] >= 1
    ensures (forall i :: 0 <= i < |p + [1]| ==> (p + [1])[i] >= 1) && Seqs.Sum(p + [1]) == Seqs.Sum(p) + 1
  {
    var q := p + [1];
    assert q[..|q| - 1] == p;
    forall i | 0 <= i < |q|
      ensures q[i] >= 1
    {
      if i < |p| {
        assert q[i] == p[i];
      }
    }
  }

  /** A block `start .. n` of equal cards, preceded by a different card,
      is one run. */
  lemma {:induction false} RunsBlock(s: seq<int>, start: nat, n: nat)
    requires start < n <= |s|
    requires forall k :: start <= k < n ==> s[k] == s[start]
    requires start > 0 ==> s[start - 1] != s[start]
    ensures Runs(s[..n]) == Runs(s[..start]) + [n - start]
    decreases n
  {
    if n == start + 1 {
      RunsNew(s, n);
    } else {
      RunsBlock(s, start, n - 1);
      RunsSame(s, n, Runs(s[..start]), n - 1 - start);
    }
  }

  /** A card unlike its predecessor starts a new run. */
  lemma RunsNew(s: seq<int>, n: nat)
    requires 1 <= n <= |s|
    requires n == 1 || s[n - 2] != s[n - 1]
    ensures Runs(s[..n]) == Runs(s[..n - 1]) + [1]
  {
    assert s[..n][..n - 1] == s[..n - 1];
  }

  /** A card like its predecessor extends the last run. */
  lemma RunsSame(s: seq<int>, n: nat, a: seq<int>, x: int)
    requires 2 <= n <= |s|
    requires s[n - 2] == s[n - 1]
    requires Runs(s[..n - 1]) == a + [x]
    ensures Runs(s[..n]) == a + [x + 1]
  {
    assert s[..n][..n - 1] == s[..n - 1];
    assert Runs(s[..n]) == Grow(a + [x]);
    GrowAppend(a, x);
  }

  lemma GrowAppend(a: seq<int>, x: int)
    ensures Grow(a + [x]) == a + [x + 1]
  {
    assert (a + [x])[..|a|] == a;
  }

  // ---------------------------------------------------------------------
  // Group sizes, counted

  /** `v` is a largest card of `m`. */
  predicate IsMax(m: multiset<int>, v: int)
  {
    v in m && forall u :: u in m ==> u <= v
  }

  /** The largest card of a non-empty multiset. */
  ghost function MaxCard(m: multiset<int>): (v: int)
    requires |m| > 0
    ensures IsMax(m, v)
  {
    MaxExists(m);
    var v :| IsMax(m, v);
    v
  }

  lemma {:induction false} MaxExists(m: multiset<int>)
    requires |m| > 0
    ensures exists v :: IsMax(m, v)
    decreases |m|
  {
    assert (forall u :: u !in m) ==> m == multiset{};
    var x :| x in m;
    var rest := m - multiset{x};
    if |rest| == 0 {
      MaxStep(m, x, rest, x);
    } else {
      MaxExists(rest);
      var y :| IsMax(rest, y);
      MaxStep(m, x, rest, y);
    }
  }

  /** Putting `x` back into `rest` keeps the larger of `x` and the largest
      card of `rest` (or `x` alone when `rest` is empty). */
  lemma MaxStep(m: multiset<int>, x: int, rest: multiset<int>, y: int)
    requires x in m && rest == m - multiset{x}
    requires IsMax(rest, y) || (|rest| == 0 && y == x)
    ensures IsMax(m, if x <= y then y else x)
  {
    assert forall u :: rest[u] == if u == x then m[u] - 1 else m[u];
    if |rest| == 0 {
      assert rest == multiset{};
    }
  }

  /** A multiset has one largest card. */
  lemma MaxUnique(m: multiset<int>, a: int, b: int)
    requires IsMax(m, a) && IsMax(m, b)
    ensures a == b
  {
    assert a <= b && b <= a;
  }

  /** Taking every copy of one card out of a multiset. */
  lemma DropCard(m: multiset<int>, v: int)
    ensures |m[v := 0]| <= |m|
    ensures v in m ==> |m[v := 0]| < |m|
  {
    var rest := m[v := 0];
    var gone := m - rest;
    assert m == rest + gone;
    if v in m {
      assert v in gone;
    }
  }

  /** The group sizes of a multiset of cards: the number of copies of each
      distinct card, listed by increasing card. */
  ghost function GroupSizes(m: multiset<int>): (r: seq<int>)
    ensures |r| <= |m|
    ensures forall i :: 0 <= i < |r| ==> r[i] >= 1
    decreases |m|
  {
    if |m| == 0 then []
    else
      var v := MaxCard(m);
      DropCard(m, v);
      GroupSizes(m[v := 0]) + [m[v]]
  }

  /** The last group is the largest card's. */
  lemma GroupSizesLast(m: multiset<int>, v: int)
    requires IsMax(m, v)
    ensures GroupSizes(m) == GroupSizes(m[v := 0]) + [m[v]]
  {
    assert |m| > 0;
    MaxUnique(m, MaxCard(m), v);
  }

  /** The last block of equal cards of a non-empty sequence starts here. */
  function LastBlock(s: seq<int>): (start: nat)
    requires |s| > 0
    ensures start < |s|
    ensures forall k :: start <= k < |s| ==> s[k] == s[|s| - 1]
    ensures start > 0 ==> s[start - 1] != s[|s| - 1]
  {
    if |s| == 1 || s[|s| - 2] != s[|s| - 1] then |s| - 1
    else LastBlock(s[..|s| - 1])
  }

  /** A sequence of one repeated card holds that card as often as it is
      long, and nothing else. */
  lemma {:induction false} ConstantMultiset(t: seq<int>, v: int)
    requires forall k :: 0 <= k < |t| ==> t[k] == v
    ensures multiset(t)[v] == |t|
    ensures forall u :: u != v ==> multiset(t)[u] == 0
    decreases |t|
  {
    if |t| > 0 {
      ConstantMultiset(t[1..], v);
      assert t == [t[0]] + t[1..];
    }
  }

  /** The runs of a sorted hand are its group sizes. */
  lemma {:induction false} SortedRuns(s: seq<int>)
    requires Seqs.SortedAsc(s)
    ensures Runs(s) == GroupSizes(multiset(s))
    decreases |s|
  {
    if |s| > 0 {
      var start := LastBlock(s);
      var v := s[|s| - 1];
      SortedMax(s);
      LastBlockCounts(s, start);
      GroupSizesLast(multiset(s), v);
      assert Seqs.SortedAsc(s[..start]);
      SortedRuns(s[..start]);
      assert s[..|s|] == s;
      RunsBlock(s, start, |s|);
    }
  }

  /** The last card of a sorted sequence is its largest. */
  lemma SortedMax(s: seq<int>)
    requires Seqs.SortedAsc(s) && |s| > 0
    ensures IsMax(multiset(s), s[|s| - 1])
  {
    forall u | u in multiset(s)
      ensures u <= s[|s| - 1]
    {
      var k :| 0 <= k < |s| && s[k] == u;
    }
  }

  /** The copies of the last card are exactly its last block. */
  lemma LastBlockCounts(s: seq<int>, start: nat)
    requires Seqs.SortedAsc(s) && |s| > 0 && start == LastBlock(s)
    ensures var v := s[|s| - 1];
      && multiset(s)[v] == |s| - start
      && multiset(s)[v := 0] == multiset(s[..start])
  {
    var v := s[|s| - 1];
    var front, block := s[..start], s[start..];
    assert s == front + block;
    ConstantMultiset(block, v);
    FrontBelow(s, start);
    SplitCounts(multiset(s), multiset(front), multiset(block), v);
  }

  /** Before the last block of a sorted sequence every card is smaller
      than the last. */
  lemma FrontBelow(s: seq<int>, start: nat)
    requires Seqs.SortedAsc(s) && |s| > 0 && start == LastBlock(s)
    ensures s[|s| - 1] !in multiset(s[..start])
  {
    var v := s[|s| - 1];
    var front := s[..start];
    forall k | 0 <= k < start
      ensures front[k] < v
    {
      assert s[k] <= s[start - 1];
    }
  }

  /** A multiset made of `front`, which lacks `v`, and `block`, which
      holds nothing but `v`. */
  lemma SplitCounts(m: multiset<int>, front: multiset<int>, block: multiset<int>, v: int)
    requires m == front + block && v !in front
    requires forall u :: u != v ==> block[u] == 0
    ensures m[v] == block[v] && m[v := 0] == front
  {
    assert forall u :: m[v := 0][u] == front[u];
  }
}
