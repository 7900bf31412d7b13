/** aoc-14: round rocks ('O') on a square platform roll as far as they can
    towards one edge, stopped by the edge, by cube rocks ('#') and by rocks
    that have already settled.  A spin cycle rolls north, west, south and
    east; the answer to part two is the load after a billion cycles, found
    by tortoise-and-hare cycle detection. */
module ParabolicDish {
  import opened Wrappers
  import opened Text
  import Orbits
  import Arith

  /** The platform is `Size` × `Size` cells. */
  const Size: nat := 100
  const TotalCycles: nat := 1000000000

  datatype Coord = Coord(row: nat, col: nat)

  datatype Dir = North | West | South | East

  /** The occupied cells (round and cube rocks alike) and the round rocks,
      in the order of the slice. */
  datatype Dish = Dish(grid: set<Coord>, rocks: seq<Coord>)

  predicate InRange(p: Coord)
  {
    p.row < Size && p.col < Size
  }

  predicate Distinct(s: seq<Coord>)
  {
    forall i, j :: 0 <= i < j < |s| ==> s[i] != s[j]
  }

  function Elems(s: seq<Coord>): set<Coord>
  {
    set x | x in s
  }

  /** Every round rock is on an occupied cell of the platform, and no two
      share a cell. */
  predicate Wf(st: Dish)
  {
    Distinct(st.rocks) &&
    (forall i :: 0 <= i < |st.rocks| ==> st.rocks[i] in st.grid && InRange(st.rocks[i]))
  }

  /** The occupied cells that hold no round rock: the cube rocks. */
  function Fixed(st: Dish): set<Coord>
  {
    st.grid - Elems(st.rocks)
  }

  // ---------------------------------------------------------------------
  // Directions

  /** The neighbouring cell towards the edge `d`, if the cell is not on
      that edge. */
  function Step(d: Dir, p: Coord): Option<Coord>
  {
    match d
    case North => if p.row > 0 then Some(Coord(p.row - 1, p.col)) else None
    case West => if p.col > 0 then Some(Coord(p.row, p.col - 1)) else None
    case South => if p.row < Size - 1 then Some(Coord(p.row + 1, p.col)) else None
    case East => if p.col < Size - 1 then Some(Coord(p.row, p.col + 1)) else None
  }

  /** The sort key of each roll: north by row, west by column, south by
      `100 - row`, east by `100 - col`; smaller keys are nearer the edge. */
  function Key(d: Dir, p: Coord): int
  {
    match d
    case North => p.row
    case West => p.col
    case South => Size - p.row
    case East => Size - p.col
  }

  /** The other coordinate, which orders rocks of equal key.  For north it
      is the column, as in the lexicographic `sort_unstable` of `[row,
      col]`; for the other directions it fixes one of the orders the
      unstable sort may produce. */
  function Cross(d: Dir, p: Coord): nat
  {
    if d == North || d == South then p.col else p.row
  }

  /** The number of steps left before the edge. */
  function Room(d: Dir, p: Coord): nat
  {
    match d
    case North => p.row
    case West => p.col
    case South => if p.row < Size - 1 then Size - 1 - p.row else 0
    case East => if p.col < Size - 1 then Size - 1 - p.col else 0
  }

  /** A step goes one key nearer the edge, along a line of fixed `Cross`. */
  lemma StepKey(d: Dir, p: Coord)
    requires Step(d, p).Some?
    ensures Key(d, Step(d, p).value) == Key(d, p) - 1
    ensures Cross(d, Step(d, p).value) == Cross(d, p)
    ensures Room(d, Step(d, p).value) < Room(d, p)
  {
  }

  /** Key and cross coordinate together name the cell. */
  lemma KeyCrossInjective(d: Dir, p: Coord, q: Coord)
    requires Key(d, p) == Key(d, q) && Cross(d, p) == Cross(d, q)
    ensures p == q
  {
  }

  /** `p` is processed before `q`: smaller key, then smaller cross
      coordinate. */
  predicate Before(d: Dir, p: Coord, q: Coord)
  {
    Key(d, p) < Key(d, q) || (Key(d, p) == Key(d, q) && Cross(d, p) < Cross(d, q))
  }

  /** A rock cannot move further: it is on the edge or the next cell is
      occupied. */
  predicate Stuck(d: Dir, grid: set<Coord>, p: Coord)
  {
    Step(d, p).None? || Step(d, p).value in grid
  }

  // ---------------------------------------------------------------------
  // Sorting the rocks nearest-edge first

  predicate Sorted(d: Dir, s: seq<Coord>)
  {
    forall i, j :: 0 <= i < j < |s| ==> !Before(d, s[j], s[i])
  }

  function InsertRock(d: Dir, x: Coord, s: seq<Coord>): (r: seq<Coord>)
    requires Sorted(d, s)
    ensures |r| == |s| + 1 && multiset(r) == multiset(s) + multiset{x}
    ensures Sorted(d, r)
    ensures |s| > 0 ==> r[0] == x || r[0] == s[0]
  {
    if |s| == 0 then [x]
    else if !Before(d, s[0], x) then [x] + s
    else
      var t := InsertRock(d, x, s[1..]);
      assert s == [s[0]] + s[1..];
      [s[0]] + t
  }

  /** `sort_unstable` / `sort_unstable_by` with the direction's key. */
  function SortRocks(d: Dir, s: seq<Coord>): (r: seq<Coord>)
    ensures |r| == |s| && multiset(r) == multiset(s)
    ensures Sorted(d, r)
  {
    if |s| == 0 then []
    else
      assert s == s[..|s| - 1] + [s[|s| - 1]];
      InsertRock(d, s[|s| - 1], SortRocks(d, s[..|s| - 1]))
  }

  /** Two sorted sequences of the same rocks are the same sequence: the
      order is total on cells. */
  lemma {:induction false} SortedUnique(d: Dir, a: seq<Coord>, b: seq<Coord>)
    requires Sorted(d, a) && Sorted(d, b) && multiset(a) == multiset(b)
    ensures a == b
    decreases |a|
  {
    assert |a| == |multiset(a)| == |b|;
    if |a| > 0 {
      SortedHead(d, a, b);
      assert multiset(a[1..]) == multiset(b[1..]) by {
        DropHead(a);
        DropHead(b);
      }
      assert Sorted(d, a[1..]) && Sorted(d, b[1..]);
      SortedUnique(d, a[1..], b[1..]);
      assert a == [a[0]] + a[1..] && b == [b[0]] + b[1..];
    }
  }

  /** Two sorted sequences of the same rocks start with the same rock. */
  lemma SortedHead(d: Dir, a: seq<Coord>, b: seq<Coord>)
    requires Sorted(d, a) && Sorted(d, b) && multiset(a) == multiset(b) && |a| > 0 && |b| > 0
    ensures a[0] == b[0]
  {
    assert a[0] in multiset(b);
    var j :| 0 <= j < |b| && b[j] == a[0];
    assert b[0] in multiset(a);
    var k :| 0 <= k < |a| && a[k] == b[0];
    assert !Before(d, a[0], b[0]) && !Before(d, b[0], a[0]);
    KeyCrossInjective(d, a[0], b[0]);
  }

  lemma DropHead(a: seq<Coord>)
    requires |a| > 0
    ensures multiset(a[1..]) == multiset(a) - multiset{a[0]}
  {
    assert a == [a[0]] + a[1..];
  }

  /** A sequence without repetitions holds each of its elements once. */
  lemma {:induction false} DistinctCount(s: seq<Coord>, x: Coord)
    requires Distinct(s)
    ensures multiset(s)[x] == if x in s then 1 else 0
    decreases |s|
  {
    if |s| > 0 {
      var t := s[1..];
      assert Distinct(t);
      DistinctCount(t, x);
      assert s == [s[0]] + t;
      assert s[0] !in t;
    }
  }

  /** Without repetitions, the same cells make the same multiset. */
  lemma DistinctSameElems(a: seq<Coord>, b: seq<Coord>)
    requires Distinct(a) && Distinct(b) && Elems(a) == Elems(b)
    ensures multiset(a) == multiset(b)
  {
    forall x
      ensures multiset(a)[x] == multiset(b)[x]
    {
      DistinctCount(a, x);
      DistinctCount(b, x);
      assert x in a <==> x in Elems(a);
      assert x in b <==> x in Elems(b);
    }
  }

  lemma {:induction false} DistinctCard(s: seq<Coord>)
    requires Distinct(s)
    ensures |Elems(s)| == |s|
    decreases |s|
  {
    if |s| > 0 {
      var t := s[1..];
      assert Distinct(t);
      DistinctCard(t);
      assert s == [s[0]] + t;
      assert Elems(s) == {s[0]} + Elems(t);
      assert s[0] !in Elems(t);
    }
  }

  // ---------------------------------------------------------------------
  // Rolling

  /** The `while` loop of one rock: each step clears the rock's cell and
      sets the next one. */
  function Slide(d: Dir, grid: set<Coord>, p: Coord): (r: (set<Coord>, Coord))
    ensures p in grid ==> r.0 == grid - {p} + {r.1}
    ensures r.1 == p || r.1 !in grid
    ensures Key(d, r.1) <= Key(d, p) && Cross(d, r.1) == Cross(d, p)
    ensures Stuck(d, r.0, r.1)
    ensures InRange(p) ==> InRange(r.1)
    decreases Room(d, p)
  {
    var next := Step(d, p);
    if next.Some? && next.value !in grid then
      StepKey(d, p);
      var r := Slide(d, grid - {p} + {next.value}, next.value);
      assert r.0 == grid - {p} + {r.1};
      r
    else
      (grid, p)
  }

  predicate KeySorted(d: Dir, s: seq<Coord>)
  {
    forall i, j :: 0 <= i < j < |s| ==> Key(d, s[i]) <= Key(d, s[j])
  }

  /** What the `for` loop is given: distinct rocks on occupied cells, in
      key order. */
  predicate Ready(d: Dir, grid: set<Coord>, todo: seq<Coord>)
  {
    (forall i :: 0 <= i < |todo| ==> todo[i] in grid) && Distinct(todo) && KeySorted(d, todo)
  }

  /** The `for` loop over the sorted rocks: slide each in turn. */
  function RollSeq(d: Dir, grid: set<Coord>, todo: seq<Coord>): (r: (set<Coord>, seq<Coord>))
    ensures |r.1| == |todo|
    ensures (forall i :: 0 <= i < |todo| ==> InRange(todo[i])) ==> forall i :: 0 <= i < |r.1| ==> InRange(r.1[i])
    decreases |todo|
  {
    if |todo| == 0 then (grid, [])
    else
      var first := Slide(d, grid, todo[0]);
      var rest := RollSeq(d, first.0, todo[1..]);
      assert forall i :: 1 <= i < |rest.1| + 1 ==> ([first.1] + rest.1)[i] == rest.1[i - 1];
      assert forall i :: 0 <= i < |todo| - 1 ==> todo[1..][i] == todo[i + 1];
      (rest.0, [first.1] + rest.1)
  }

  /** What the loop promises: every rock vacates only its own cell, the
      moved rocks stay distinct, and all of them end up stuck. */
  predicate RolledFrom(d: Dir, grid: set<Coord>, todo: seq<Coord>, g: set<Coord>, moved: seq<Coord>)
  {
    g == (grid - Elems(todo)) + Elems(moved) &&
    Elems(moved) !! (grid - Elems(todo)) &&
    Distinct(moved) &&
    forall i :: 0 <= i < |moved| ==> Stuck(d, g, moved[i])
  }

  lemma {:induction false} RollSeqSpec(d: Dir, grid: set<Coord>, todo: seq<Coord>)
    requires Ready(d, grid, todo)
    ensures RolledFrom(d, grid, todo, RollSeq(d, grid, todo).0, RollSeq(d, grid, todo).1)
    decreases |todo|
  {
    if |todo| > 0 {
      var p, tail := todo[0], todo[1..];
      var first := Slide(d, grid, p);
      var g1, q := first.0, first.1;
      var rest := RollSeq(d, g1, tail);
      var g2, moved := rest.0, rest.1;
      assert RollSeq(d, grid, todo) == (g2, [q] + moved) by {
        RollSeqFirst(d, grid, todo);
      }
      assert RolledFrom(d, grid, todo, g2, [q] + moved) by {
        ReadyTail(d, grid, todo, g1, q);
        RollSeqSpec(d, g1, tail);
        assert todo == [p] + tail;
        RollStep(grid, p, tail, g1, q, g2, moved);
        StuckKept(d, grid, p, tail, g1, q, g2, moved);
        var s := [q] + moved;
        forall i | 0 <= i < |s|
          ensures Stuck(d, g2, s[i])
        {
          if i > 0 {
            assert s[i] == moved[i - 1];
          }
        }
      }
    }
  }

  /** After the first rock slides, the rest are ready, none is the first,
      and all are keyed no nearer the edge. */
  lemma ReadyTail(d: Dir, grid: set<Coord>, todo: seq<Coord>, g1: set<Coord>, q: Coord)
    requires |todo| > 0 && Ready(d, grid, todo)
    requires (g1, q) == Slide(d, grid, todo[0])
    ensures Ready(d, g1, todo[1..]) && todo[0] !in todo[1..]
    ensures forall i :: 0 <= i < |todo| - 1 ==> Key(d, todo[0]) <= Key(d, todo[1..][i])
  {
    assert forall i :: 0 <= i < |todo| - 1 ==> todo[1..][i] == todo[i + 1];
  }

  /** The set algebra of one step of `RollSeq`. */
  lemma RollStep(grid: set<Coord>, p: Coord, tail: seq<Coord>, g1: set<Coord>, q: Coord,
                 g2: set<Coord>, moved: seq<Coord>)
    requires p in grid && p !in tail && forall i :: 0 <= i < |tail| ==> tail[i] in grid
    requires g1 == grid - {p} + {q} && (q == p || q !in grid)
    requires g2 == (g1 - Elems(tail)) + Elems(moved)
    requires Elems(moved) !! (g1 - Elems(tail)) && Distinct(moved)
    ensures g2 == (grid - Elems([p] + tail)) + Elems([q] + moved)
    ensures Elems([q] + moved) !! (grid - Elems([p] + tail))
    ensures Distinct([q] + moved)
  {
    assert Elems([p] + tail) == {p} + Elems(tail);
    assert Elems([q] + moved) == {q} + Elems(moved);
    assert q !in Elems(tail);
    assert q in g1 - Elems(tail);
    assert q !in moved;
    var s := [q] + moved;
    assert forall i :: 1 <= i < |s| ==> s[i] == moved[i - 1];
  }

  /** The blocker of an earlier rock is never vacated by a later one: a
      later rock starts at a key no nearer the edge. */
  lemma StuckKept(d: Dir, grid: set<Coord>, p: Coord, tail: seq<Coord>, g1: set<Coord>, q: Coord,
                  g2: set<Coord>, moved: seq<Coord>)
    requires Stuck(d, g1, q) && Key(d, q) <= Key(d, p)
    requires forall i :: 0 <= i < |tail| ==> Key(d, p) <= Key(d, tail[i])
    requires g2 == (g1 - Elems(tail)) + Elems(moved)
    ensures Stuck(d, g2, q)
  {
    if Step(d, q).Some? {
      StepKey(d, q);
      var b := Step(d, q).value;
      assert b !in tail;
    }
  }

  /** Each rock ends on its own line, no further from the edge than it
      started. */
  predicate AlongLines(d: Dir, from: seq<Coord>, to: seq<Coord>)
  {
    |to| == |from| &&
    forall i :: 0 <= i < |to| ==> Cross(d, to[i]) == Cross(d, from[i]) && Key(d, to[i]) <= Key(d, from[i])
  }

  /** Rocks of one line appear nearest the edge first. */
  predicate InLineOrder(d: Dir, s: seq<Coord>)
  {
    forall i, j :: 0 <= i < j < |s| && Cross(d, s[i]) == Cross(d, s[j]) ==> Key(d, s[i]) < Key(d, s[j])
  }

  /** A sliding rock never passes an occupied cell: every other occupied
      cell stays occupied, and one ahead of the rock on its line keeps
      the rock behind it. */
  lemma {:induction false} SlideBehind(d: Dir, grid: set<Coord>, p: Coord, c: Coord)
    requires c in grid && c != p
    ensures c in Slide(d, grid, p).0
    ensures Cross(d, c) == Cross(d, p) && Key(d, c) < Key(d, p) ==> Key(d, c) < Key(d, Slide(d, grid, p).1)
    decreases Room(d, p)
  {
    var next := Step(d, p);
    if next.Some? && next.value !in grid {
      StepKey(d, p);
      SlideBehind(d, grid - {p} + {next.value}, next.value, c);
    }
  }

  /** No rock passes an occupied cell of `fixed` that was ahead of it on
      its line: rock `k` moved from `from[k]` to `to[k]` stays behind. */
  predicate NoPass(d: Dir, fixed: set<Coord>, from: seq<Coord>, to: seq<Coord>)
    requires |from| == |to|
  {
    forall c, k :: c in fixed && 0 <= k < |to| && Cross(d, c) == Cross(d, from[k]) && Key(d, c) < Key(d, from[k]) ==>
      Key(d, c) < Key(d, to[k])
  }

  /** An occupied cell the loop never moves stays ahead of every rock that
      started behind it on its line. */
  lemma {:induction false} RollSeqNoPass(d: Dir, grid: set<Coord>, todo: seq<Coord>, c: Coord)
    requires c in grid && c !in todo
    ensures var moved := RollSeq(d, grid, todo).1;
      forall k :: 0 <= k < |todo| && Cross(d, c) == Cross(d, todo[k]) && Key(d, c) < Key(d, todo[k]) ==>
        Key(d, c) < Key(d, moved[k])
    decreases |todo|
  {
    if |todo| > 0 {
      var p, tail := todo[0], todo[1..];
      var first := Slide(d, grid, p);
      SlideBehind(d, grid, p, c);
      assert c !in tail by {
        assert todo == [p] + tail;
      }
      RollSeqNoPass(d, first.0, tail, c);
      var moved := RollSeq(d, grid, todo).1;
      assert moved == [first.1] + RollSeq(d, first.0, tail).1;
      forall k | 1 <= k < |todo|
        ensures todo[k] == tail[k - 1] && moved[k] == RollSeq(d, first.0, tail).1[k - 1]
      {
      }
    }
  }

  /** An occupied cell the loop does not move, keyed no further than any
      rock still to move, stays occupied, and every rock of its line ends
      up behind it. */
  lemma {:induction false} RollSeqBehind(d: Dir, grid: set<Coord>, todo: seq<Coord>, c: Coord)
    requires Ready(d, grid, todo) && c in grid && c !in todo
    requires forall k :: 0 <= k < |todo| ==> Key(d, c) <= Key(d, todo[k])
    ensures var moved := RollSeq(d, grid, todo).1;
      forall k :: 0 <= k < |moved| && Cross(d, moved[k]) == Cross(d, c) ==> Key(d, c) < Key(d, moved[k])
    decreases |todo|
  {
    if |todo| > 0 {
      var p, tail := todo[0], todo[1..];
      var first := Slide(d, grid, p);
      var rest := RollSeq(d, first.0, tail);
      ReadyTail(d, grid, todo, first.0, first.1);
      SlideBehind(d, grid, p, c);
      assert c !in tail by {
        assert todo == [p] + tail;
      }
      RollSeqBehind(d, first.0, tail, c);
      RollSeqFirst(d, grid, todo);
      BehindCons(d, c, first.1, rest.1);
    }
  }

  lemma BehindCons(d: Dir, c: Coord, q: Coord, moved: seq<Coord>)
    requires Cross(d, q) == Cross(d, c) ==> Key(d, c) < Key(d, q)
    requires forall k :: 0 <= k < |moved| && Cross(d, moved[k]) == Cross(d, c) ==> Key(d, c) < Key(d, moved[k])
    ensures var all := [q] + moved;
      forall k :: 0 <= k < |all| && Cross(d, all[k]) == Cross(d, c) ==> Key(d, c) < Key(d, all[k])
  {
    var all := [q] + moved;
    assert forall k :: 1 <= k < |all| ==> all[k] == moved[k - 1];
  }

  /** The `for` loop moves every rock along its own line towards the edge. */
  lemma {:induction false} RollSeqAlong(d: Dir, grid: set<Coord>, todo: seq<Coord>)
    ensures AlongLines(d, todo, RollSeq(d, grid, todo).1)
    decreases |todo|
  {
    if |todo| > 0 {
      var p, tail := todo[0], todo[1..];
      var first := Slide(d, grid, p);
      RollSeqAlong(d, first.0, tail);
      RollSeqFirst(d, grid, todo);
      var rest := RollSeq(d, first.0, tail).1;
      var moved := [first.1] + rest;
      forall k | 0 <= k < |moved|
        ensures Cross(d, moved[k]) == Cross(d, todo[k]) && Key(d, moved[k]) <= Key(d, todo[k])
      {
        if k > 0 {
          assert moved[k] == rest[k - 1] && todo[k] == tail[k - 1];
        }
      }
    }
  }

  /** The `for` loop moves every rock along its own line towards the edge,
      and no rock overtakes another of its line. */
  lemma {:induction false} RollSeqLines(d: Dir, grid: set<Coord>, todo: seq<Coord>)
    requires Ready(d, grid, todo)
    ensures AlongLines(d, todo, RollSeq(d, grid, todo).1)
    ensures InLineOrder(d, RollSeq(d, grid, todo).1)
    decreases |todo|
  {
    RollSeqAlong(d, grid, todo);
    if |todo| > 0 {
      var p, tail := todo[0], todo[1..];
      var first := Slide(d, grid, p);
      var g1, q := first.0, first.1;
      var rest := RollSeq(d, g1, tail);
      ReadyTail(d, grid, todo, g1, q);
      RollSeqLines(d, g1, tail);
      assert q in g1 && q !in tail;
      RollSeqBehind(d, g1, tail, q);
      RollSeqFirst(d, grid, todo);
      var moved := [q] + rest.1;
      forall i, j | 0 <= i < j < |moved| && Cross(d, moved[i]) == Cross(d, moved[j])
        ensures Key(d, moved[i]) < Key(d, moved[j])
      {
        assert moved[j] == rest.1[j - 1];
        if i > 0 {
          assert moved[i] == rest.1[i - 1];
        }
      }
    }
  }

  /** `roll_north` and the other three: sort nearest-edge first, then
      slide every rock.  On a well-formed platform the cube rocks stay,
      the rocks stay distinct and on occupied cells, and every rock ends
      up stuck. */
  function Roll(d: Dir, st: Dish): (r: Dish)
    ensures |r.rocks| == |st.rocks|
    ensures Wf(st) ==> Wf(r) && Fixed(r) == Fixed(st)
    ensures Wf(st) ==> forall i :: 0 <= i < |r.rocks| ==> Stuck(d, r.grid, r.rocks[i])
    ensures Wf(st) ==> AlongLines(d, SortRocks(d, st.rocks), r.rocks) && InLineOrder(d, r.rocks)
    ensures NoPass(d, Fixed(st), SortRocks(d, st.rocks), r.rocks)
  {
    var moved := RollSeq(d, st.grid, SortRocks(d, st.rocks));
    var out := Dish(moved.0, moved.1);
    RollNoPass(d, st, out.rocks);
    assert Wf(st) ==> RolledWell(d, st, out) && AlongLines(d, SortRocks(d, st.rocks), out.rocks) && InLineOrder(d, out.rocks) by {
      if Wf(st) {
        RollWf(d, st, SortRocks(d, st.rocks), out);
        SortedReady(d, st, SortRocks(d, st.rocks));
        RollSeqLines(d, st.grid, SortRocks(d, st.rocks));
      }
    }
    out
  }

  /** No rock of a roll passes a cube rock that lies ahead of it on its
      line. */
  lemma RollNoPass(d: Dir, st: Dish, rolled: seq<Coord>)
    requires rolled == RollSeq(d, st.grid, SortRocks(d, st.rocks)).1
    ensures NoPass(d, Fixed(st), SortRocks(d, st.rocks), rolled)
  {
    forall c | c in Fixed(st)
      ensures forall k ::
        (0 <= k < |rolled| && Cross(d, c) == Cross(d, SortRocks(d, st.rocks)[k]) &&
         Key(d, c) < Key(d, SortRocks(d, st.rocks)[k])) ==> Key(d, c) < Key(d, rolled[k])
    {
      assert c !in multiset(st.rocks);
      RollSeqNoPass(d, st.grid, SortRocks(d, st.rocks), c);
    }
  }

  /** The outcome `Roll` promises on a well-formed platform. */
  predicate RolledWell(d: Dir, st: Dish, out: Dish)
  {
    Wf(out) && Fixed(out) == Fixed(st) &&
    forall i :: 0 <= i < |out.rocks| ==> Stuck(d, out.grid, out.rocks[i])
  }

  /** Sliding the rocks of a well-formed platform in a sorted order keeps
      it well formed and its cube rocks in place, and leaves every rock
      stuck. */
  lemma RollWf(d: Dir, st: Dish, sorted: seq<Coord>, out: Dish)
    requires Wf(st) && multiset(sorted) == multiset(st.rocks) && Sorted(d, sorted)
    requires out.grid == RollSeq(d, st.grid, sorted).0 && out.rocks == RollSeq(d, st.grid, sorted).1
    ensures RolledWell(d, st, out)
  {
    SortedReady(d, st, sorted);
    RollSeqSpec(d, st.grid, sorted);
    forall i | 0 <= i < |out.rocks|
      ensures out.rocks[i] in out.grid
    {
      assert out.rocks[i] in Elems(out.rocks);
    }
  }

  /** The sorted rocks of a well-formed platform are ready for the loop. */
  lemma SortedReady(d: Dir, st: Dish, sorted: seq<Coord>)
    requires Wf(st) && multiset(sorted) == multiset(st.rocks) && Sorted(d, sorted)
    ensures Ready(d, st.grid, sorted) && Elems(sorted) == Elems(st.rocks)
    ensures forall i :: 0 <= i < |sorted| ==> InRange(sorted[i])
  {
    SameElems(sorted, st.rocks);
    PermutationDistinct(st.rocks, sorted);
    forall i | 0 <= i < |sorted|
      ensures sorted[i] in st.grid && InRange(sorted[i])
    {
      assert sorted[i] in multiset(st.rocks);
    }
  }

  lemma SameElems(a: seq<Coord>, b: seq<Coord>)
    requires multiset(a) == multiset(b)
    ensures Elems(a) == Elems(b)
  {
    forall x | x in a
      ensures x in b
    {
      assert x in multiset(a);
    }
    forall x | x in b
      ensures x in a
    {
      assert x in multiset(b);
    }
  }

  lemma PermutationDistinct(a: seq<Coord>, b: seq<Coord>)
    requires Distinct(a) && multiset(a) == multiset(b)
    ensures Distinct(b)
  {
    forall i, j | 0 <= i < j < |b|
      ensures b[i] != b[j]
    {
      if b[i] == b[j] {
        TwiceCounted(b, i, j);
        DistinctCount(a, b[i]);
        assert false;
      }
    }
  }

  /** A cell at two positions is counted at least twice. */
  lemma TwiceCounted(b: seq<Coord>, i: nat, j: nat)
    requires i < j < |b| && b[i] == b[j]
    ensures multiset(b)[b[i]] >= 2
  {
    var front, back := b[..j], b[j..];
    assert b == front + back;
    assert b[i] in multiset(front) by {
      assert front[i] == b[i];
    }
    assert back[0] == b[i];
    assert b[i] in multiset(back);
  }

  /** A roll keeps the number of occupied cells. */
  lemma RollKeepsCells(d: Dir, st: Dish)
    requires Wf(st)
    ensures |Roll(d, st).grid| == |st.grid|
  {
    var r := Roll(d, st);
    CellCount(st);
    CellCount(r);
  }

  /** The occupied cells split into the cube rocks and the round rocks. */
  lemma CellCount(st: Dish)
    requires Wf(st)
    ensures |st.grid| == |Fixed(st)| + |st.rocks|
  {
    DistinctCard(st.rocks);
    assert st.grid == Fixed(st) + Elems(st.rocks) && Fixed(st) !! Elems(st.rocks);
  }

  /** With every rock already stuck, the loop moves nothing. */
  lemma {:induction false} RollSeqStuck(d: Dir, grid: set<Coord>, todo: seq<Coord>)
    requires forall i :: 0 <= i < |todo| ==> todo[i] in grid && Stuck(d, grid, todo[i])
    requires Distinct(todo) && KeySorted(d, todo)
    ensures RollSeq(d, grid, todo) == (grid, todo)
    decreases |todo|
  {
    if |todo| > 0 {
      var tail := todo[1..];
      StuckTail(d, grid, todo);
      RollSeqStuck(d, grid, tail);
      RollSeqFirst(d, grid, todo);
      assert Slide(d, grid, todo[0]) == (grid, todo[0]);
      assert todo == [todo[0]] + tail;
    }
  }

  lemma StuckTail(d: Dir, grid: set<Coord>, todo: seq<Coord>)
    requires |todo| > 0
    requires forall i :: 0 <= i < |todo| ==> todo[i] in grid && Stuck(d, grid, todo[i])
    requires Distinct(todo) && KeySorted(d, todo)
    ensures forall i :: 0 <= i < |todo| - 1 ==> todo[1..][i] in grid && Stuck(d, grid, todo[1..][i])
    ensures Distinct(todo[1..]) && KeySorted(d, todo[1..])
  {
    assert forall i :: 0 <= i < |todo| - 1 ==> todo[1..][i] == todo[i + 1];
  }

  /** One step of the loop: the first rock slides, then the rest. */
  lemma RollSeqFirst(d: Dir, grid: set<Coord>, todo: seq<Coord>)
    requires |todo| > 0
    ensures var first := Slide(d, grid, todo[0]);
      var rest := RollSeq(d, first.0, todo[1..]);
      RollSeq(d, grid, todo) == (rest.0, [first.1] + rest.1)
  {
  }

  /** Rolling the same way twice: the second roll changes no cell and
      moves no rock. */
  lemma RollTwice(d: Dir, st: Dish)
    requires Wf(st)
    ensures Roll(d, Roll(d, st)).grid == Roll(d, st).grid
    ensures multiset(Roll(d, Roll(d, st)).rocks) == multiset(Roll(d, st).rocks)
  {
    var s1 := Roll(d, st);
    var sorted := SortRocks(d, s1.rocks);
    forall i | 0 <= i < |sorted|
      ensures sorted[i] in s1.grid && Stuck(d, s1.grid, sorted[i])
    {
      assert sorted[i] in multiset(s1.rocks);
    }
    PermutationDistinct(s1.rocks, sorted);
    RollSeqStuck(d, s1.grid, sorted);
  }

  /** Two well-formed platforms with the same cube rocks and the same
      occupied cells roll to the same platform, whatever the order of
      their rock slices. */
  lemma RollRespectsGrid(d: Dir, x: Dish, y: Dish)
    requires Wf(x) && Wf(y) && x.grid == y.grid && Fixed(x) == Fixed(y)
    ensures Roll(d, x) == Roll(d, y)
  {
    assert Elems(x.rocks) == Elems(y.rocks);
    DistinctSameElems(x.rocks, y.rocks);
    SortedUnique(d, SortRocks(d, x.rocks), SortRocks(d, y.rocks));
  }

  // ---------------------------------------------------------------------
  // Load and cycles

  /** `total_load`: the sum of `100 - row` over the round rocks. */
  function Load(rocks: seq<Coord>): int
  {
    if |rocks| == 0 then 0 else Size - rocks[0].row + Load(rocks[1..])
  }

  lemma {:induction false} LoadAppend(a: seq<Coord>, b: seq<Coord>)
    ensures Load(a + b) == Load(a) + Load(b)
    decreases |a|
  {
    if |a| > 0 {
      LoadAppend(a[1..], b);
      assert (a + b)[1..] == a[1..] + b;
      assert (a + b)[0] == a[0];
      assert Load(a + b) == Size - a[0].row + Load(a[1..] + b);
    } else {
      assert a + b == b;
    }
  }

  /** The load does not depend on the order of the rocks. */
  lemma {:induction false} LoadPermutation(a: seq<Coord>, b: seq<Coord>)
    requires multiset(a) == multiset(b)
    ensures Load(a) == Load(b)
    decreases |a|
  {
    assert |a| == |multiset(a)| == |b|;
    if |a| > 0 {
      assert a[0] in multiset(b);
      var j :| 0 <= j < |b| && b[j] == a[0];
      var rest := b[..j] + b[j + 1..];
      assert Load(a[1..]) == Load(rest) by {
        assert multiset(a[1..]) == multiset(rest) by {
          DropHead(a);
          assert b == b[..j] + [b[j]] + b[j + 1..];
        }
        LoadPermutation(a[1..], rest);
      }
      assert Load(b) == Load(b[..j]) + Size - a[0].row + Load(b[j + 1..]) by {
        assert b == b[..j] + ([b[j]] + b[j + 1..]);
        LoadAppend(b[..j], [b[j]] + b[j + 1..]);
      }
      assert Load(rest) == Load(b[..j]) + Load(b[j + 1..]) by {
        LoadAppend(b[..j], b[j + 1..]);
      }
    }
  }

  /** The load depends only on which cells hold round rocks. */
  lemma LoadRespectsGrid(x: Dish, y: Dish)
    requires Wf(x) && Wf(y) && x.grid == y.grid && Fixed(x) == Fixed(y)
    ensures Load(x.rocks) == Load(y.rocks)
  {
    assert Elems(x.rocks) == Elems(y.rocks);
    DistinctSameElems(x.rocks, y.rocks);
    LoadPermutation(x.rocks, y.rocks);
  }

  /** Every round rock adds between 1 and 100. */
  lemma {:induction false} LoadBounds(rocks: seq<Coord>)
    requires forall i :: 0 <= i < |rocks| ==> InRange(rocks[i])
    ensures |rocks| <= Load(rocks) <= Size * |rocks|
    decreases |rocks|
  {
    if |rocks| > 0 {
      LoadBounds(rocks[1..]);
    }
  }

  /** `cycle`: north, west, south, east. */
  function Cycle(st: Dish): (r: Dish)
    ensures |r.rocks| == |st.rocks|
    ensures Wf(st) ==> Wf(r) && Fixed(r) == Fixed(st)
  {
    Roll(East, Roll(South, Roll(West, Roll(North, st))))
  }

  /** The platforms `cycle` compares: `grid_tortoise != grid_hare` looks
      only at the occupied cells. */
  function Occupied(st: Dish): set<Coord>
  {
    st.grid
  }

  /** Well-formed platforms with the cube rocks `fixed`. */
  ghost function SameCubes(fixed: set<Coord>): Dish -> bool
  {
    a => Wf(a) && Fixed(a) == fixed
  }

  /** A cycle keeps the cube rocks, and the occupied cells after it depend
      only on the occupied cells before it. */
  lemma CycleRespects(fixed: set<Coord>)
    ensures Orbits.Respects(Cycle, Occupied, SameCubes(fixed))
  {
    assert forall a {:trigger SameCubes(fixed)(Cycle(a))} :: SameCubes(fixed)(a) ==> SameCubes(fixed)(Cycle(a));
    forall a, b | SameCubes(fixed)(a) && SameCubes(fixed)(b) && Occupied(a) == Occupied(b)
      ensures Occupied(Cycle(a)) == Occupied(Cycle(b))
    {
      RollRespectsGrid(North, a, b);
    }
  }

  /** `part_two` on a parsed platform, with the spin cycle `f`: the
      tortoise starts one step in and the hare two, they advance until the
      occupied cells agree after `i` and `2 i` steps, and the tortoise then
      runs `1000000000 - 1000000000 / i * i` more steps.  The program's
      step is `Cycle`; the lemmas below hold for any step, or for any step
      that keeps the cube rocks and whose next occupied cells depend only
      on the current ones, which `CycleRespects` shows of `Cycle`. */
  function PartTwoOf(f: Dish -> Dish, st: Dish): Option<int>
  {
    var i :- Search(f, st);
    Some(Load(Orbits.Iter(f, Orbits.Iter(f, st, i), Remaining(i)).rocks))
  }

  /** `remaining_cycles`: a billion less its largest multiple of `i`. */
  function Remaining(i: nat): nat
    requires i > 0
  {
    Arith.RoundDown(TotalCycles, i);
    TotalCycles - TotalCycles / i * i
  }

  /** The occupied cells after `k` steps are those after `2 k`. */
  ghost predicate Repeats(f: Dish -> Dish, st: Dish, k: nat)
  {
    Orbits.Iter(f, st, k).grid == Orbits.Iter(f, st, 2 * k).grid
  }

  /** `part_two` gives no answer only when no `i` up to a billion has the
      occupied cells after `i` and `2 i` steps agree. */
  lemma PartTwoMissing(f: Dish -> Dish, st: Dish)
    ensures PartTwoOf(f, st).None? <==> forall k :: 1 <= k <= TotalCycles ==> !Repeats(f, st, k)
  {
    var found := Search(f, st);
    assert PartTwoOf(f, st).None? <==> found.None?;
    StartingPoints(f, st);
    Orbits.MeetNone(f, Occupied, st, 1, TotalCycles - 1);
    RepeatsAgree(f, st);
  }

  /** The tortoise-and-hare loop of `part_two`. */
  function Search(f: Dish -> Dish, st: Dish): Option<nat>
  {
    Orbits.Meet(f, Occupied, f(st), f(f(st)), 1, TotalCycles - 1)
  }

  /** The loop stops at the first `i` whose platforms after `i` and `2 i`
      steps have the same occupied cells. */
  lemma SearchFinds(f: Dish -> Dish, st: Dish)
    ensures Search(f, st).Some? ==> 1 <= Search(f, st).value <= TotalCycles && Repeats(f, st, Search(f, st).value)
    ensures Search(f, st).Some? ==> forall k :: 1 <= k < Search(f, st).value ==> !Repeats(f, st, k)
  {
    StartingPoints(f, st);
    Orbits.MeetFirst(f, Occupied, st, 1, TotalCycles - 1);
    RepeatsAgree(f, st);
  }

  lemma RepeatsAgree(f: Dish -> Dish, st: Dish)
    ensures forall k :: Repeats(f, st, k) <==> Orbits.Agree(f, Occupied, st, k)
  {
  }

  /** The tortoise starts one step in, the hare two. */
  lemma StartingPoints(f: Dish -> Dish, st: Dish)
    ensures Orbits.Iter(f, st, 1) == f(st) && Orbits.Iter(f, st, 2) == f(f(st))
  {
    Orbits.IterNext(f, st, 0, 1);
    Orbits.IterNext(f, st, 1, 2);
  }

  /** For a step that keeps the cube rocks and whose next occupied cells
      depend only on the current ones, the answer of `part_two` is the load
      after a billion steps. */
  lemma PartTwoIsTotalLoad(f: Dish -> Dish, st: Dish)
    requires Orbits.Respects(f, Occupied, SameCubes(Fixed(st))) && Wf(st)
    ensures PartTwoOf(f, st).Some? ==> PartTwoOf(f, st).value == Load(Orbits.Iter(f, st, TotalCycles).rocks)
  {
    var found := Search(f, st);
    if found.Some? {
      var i := found.value;
      SearchFinds(f, st);
      SkipToEnd(f, st, i, Orbits.Iter(f, st, i), Remaining(i));
    }
  }

  /** For any step that keeps the cube rocks and whose next occupied cells
      depend only on the current ones: once the occupied cells after `i`
      and `2 i` steps agree, running the remainder of a billion steps from
      step `i` reaches a platform with the load of the billionth. */
  lemma SkipToEnd(f: Dish -> Dish, st: Dish, i: nat, mid: Dish, remaining: nat)
    requires Orbits.Respects(f, Occupied, SameCubes(Fixed(st))) && Wf(st)
    requires 1 <= i <= TotalCycles && Orbits.Iter(f, st, i).grid == Orbits.Iter(f, st, 2 * i).grid
    requires mid == Orbits.Iter(f, st, i) && remaining == Remaining(i)
    ensures Load(Orbits.Iter(f, mid, remaining).rocks) == Load(Orbits.Iter(f, st, TotalCycles).rocks)
  {
    var inv := SameCubes(Fixed(st));
    var early, late := Orbits.Iter(f, mid, remaining), Orbits.Iter(f, st, TotalCycles);
    Orbits.IterInvariant(f, inv, st, i);
    Orbits.IterInvariant(f, inv, mid, remaining);
    Orbits.IterInvariant(f, inv, st, TotalCycles);
    Orbits.Skip(f, Occupied, inv, st, i, TotalCycles);
    LoadRespectsGrid(early, late);
  }

  // ---------------------------------------------------------------------
  // Parsing

  /** The round rocks of row `i` among the first `n` bytes of `line`, left
      to right. */
  function RowRocks(i: nat, line: string, n: nat): (rs: seq<Coord>)
    requires n <= |line|
    ensures forall c :: c in rs <==> c.row == i && c.col < n && line[c.col] == 'O'
    ensures forall k :: 0 <= k < |rs| ==> rs[k].row == i
    ensures Sorted(North, rs) && Distinct(rs)
  {
    if n == 0 then []
    else
      var front := RowRocks(i, line, n - 1);
      if line[n - 1] == 'O' then
        var rs := front + [Coord(i, n - 1)];
        assert forall k :: 0 <= k < |front| ==> rs[k] == front[k] && front[k].col < n - 1;
        rs
      else front
  }

  /** The round rocks of the first `n` lines in reading order. */
  function Rocks(lines: seq<string>, n: nat): (rs: seq<Coord>)
    requires n <= |lines|
    ensures forall c :: c in rs <==> c.row < n && c.col < |lines[c.row]| && lines[c.row][c.col] == 'O'
    ensures forall k :: 0 <= k < |rs| ==> rs[k].row < n
    ensures Distinct(rs)
  {
    if n == 0 then []
    else
      var front := Rocks(lines, n - 1);
      var row := RowRocks(n - 1, lines[n - 1], |lines[n - 1]|);
      DistinctRows(front, row, n - 1);
      front + row
  }

  /** Rocks of earlier lines followed by rocks of line `m` stay distinct. */
  lemma DistinctRows(front: seq<Coord>, row: seq<Coord>, m: nat)
    requires Distinct(front) && Distinct(row)
    requires forall k :: 0 <= k < |front| ==> front[k].row < m
    requires forall k :: 0 <= k < |row| ==> row[k].row == m
    ensures Distinct(front + row)
    ensures forall k :: 0 <= k < |front + row| ==> (front + row)[k].row <= m
  {
    var rs := front + row;
    assert forall k :: 0 <= k < |front| ==> rs[k] == front[k];
    assert forall k :: |front| <= k < |rs| ==> rs[k] == row[k - |front|];
  }

  /** The first `Size` lines each hold at least `Size` bytes: the
      `unwrap`s of `parse_input` succeed. */
  predicate Square(lines: seq<string>)
  {
    |lines| >= Size && forall k :: 0 <= k < Size ==> |lines[k]| >= Size
  }

  /** Every 'O' of the input lies in the square. */
  predicate RocksInside(lines: seq<string>)
  {
    forall k, j :: 0 <= k < |lines| && 0 <= j < |lines[k]| && lines[k][j] == 'O' ==> k < Size && j < Size
  }

  /** The `Grid` of `parse_input`: the cells of the square that are not
      '.'. */
  function Occupancy(lines: seq<string>): (g: set<Coord>)
    requires Square(lines)
    ensures forall c :: c in g <==> InRange(c) && lines[c.row][c.col] != '.'
  {
    set r: nat, c: nat | r < Size && c < Size && lines[r][c] != '.' :: Coord(r, c)
  }

  /** `parse_input` on the lines of the input; a round rock outside the
      square is refused. */
  function ParseLines(lines: seq<string>): (r: Option<Dish>)
    ensures r.Some? <==> Square(lines) && RocksInside(lines)
    ensures r.Some? ==> Wf(r.value)
    ensures r.Some? ==> forall c :: c in r.value.rocks <==> InRange(c) && lines[c.row][c.col] == 'O'
    ensures r.Some? ==> forall c :: c in r.value.grid <==> InRange(c) && lines[c.row][c.col] != '.'
  {
    if !Square(lines) then None
    else
      var rocks := Rocks(lines, |lines|);
      RocksInsideIff(lines, rocks);
      if exists k :: 0 <= k < |rocks| && !InRange(rocks[k]) then None
      else
        var grid := Occupancy(lines);
        assert Wf(Dish(grid, rocks)) by {
          forall k | 0 <= k < |rocks|
            ensures rocks[k] in grid
          {
            assert rocks[k] in rocks;
          }
        }
        Some(Dish(grid, rocks))
  }

  /** For a list holding exactly the 'O' cells of the input, every rock is
      inside the square exactly when every entry of the list is. */
  lemma RocksInsideIff(lines: seq<string>, rocks: seq<Coord>)
    requires forall c :: c in rocks <==> c.row < |lines| && c.col < |lines[c.row]| && lines[c.row][c.col] == 'O'
    ensures RocksInside(lines) <==> forall k :: 0 <= k < |rocks| ==> InRange(rocks[k])
  {
    if !RocksInside(lines) {
      var k, j :| 0 <= k < |lines| && 0 <= j < |lines[k]| && lines[k][j] == 'O' && !(k < Size && j < Size);
      assert Coord(k, j) in rocks;
    } else {
      forall i | 0 <= i < |rocks|
        ensures InRange(rocks[i])
      {
        assert rocks[i] in rocks;
      }
    }
  }

  function ParseInput(input: string): Option<Dish>
  {
    ParseLines(Lines(input))
  }

  /** `part_one`: the total load after rolling north once; every rock
      adds between 1 and 100. */
  function PartOne(input: string): (r: Option<int>)
    ensures r.Some? <==> ParseInput(input).Some?
    ensures r.Some? ==> r.value == Load(Roll(North, ParseInput(input).value).rocks)
    ensures r.Some? ==> |ParseInput(input).value.rocks| <= r.value <= Size * |ParseInput(input).value.rocks|
  {
    var st :- ParseInput(input);
    var rolled := Roll(North, st);
    LoadBounds(rolled.rocks);
    Some(Load(rolled.rocks))
  }

  /** `part_two`: the load after a billion spin cycles, when the occupied
      cells after some `i` and `2 i` cycles agree with `i` at most a
      billion. */
  function PartTwo(input: string): (r: Option<int>)
    ensures r.Some? ==> ParseInput(input).Some?
    ensures r.Some? ==> r.value == Load(Orbits.Iter(Cycle, ParseInput(input).value, TotalCycles).rocks)
    ensures ParseInput(input).Some? ==>
      (r.None? <==> forall k :: 1 <= k <= TotalCycles ==> !Repeats(Cycle, ParseInput(input).value, k))
  {
    var st :- ParseInput(input);
    CycleRespects(Fixed(st));
    PartTwoIsTotalLoad(Cycle, st);
    PartTwoMissing(Cycle, st);
    PartTwoOf(Cycle, st)
  }
}
