/** aoc-17: least heat loss of a crucible crossing a square grid of digit
    weights from the top-left to the bottom-right cell, when a heading may be
    changed only while the current run length lies in a turn range and a run
    may not exceed the range's upper end.

    The search is a label-correcting Dijkstra over states (cell, heading,
    run length).  The model keeps the program's quirks: every popped node is
    expanded, stale or not; states on the goal cell are popped but never
    expanded; the four seed states already count one step of run length; and
    the final scan takes any goal state with run length 1..=hi. */
module ClumsyCrucible {
  import opened Wrappers
  import Seqs

  /** `num::Complex<isize>`: `re` indexes the grid's rows, `im` its columns. */
  datatype Coord = Coord(re: int, im: int)

  const Zero: Coord := Coord(0, 0)

  /** The headings in the order of the program's `DIRS`. */
  const Dirs: seq<Coord> := [Coord(1, 0), Coord(0, 1), Coord(-1, 0), Coord(0, -1)]

  /** `CoordEntry`: the search state, compared on all three fields. */
  datatype CoordEntry = CoordEntry(coord: Coord, dir: Coord, consecutive: nat)

  /** `Node`: a state with the heat loss of the path that produced it. */
  datatype Node = Node(entry: CoordEntry, dist: int)

  /** `RangeInclusive<usize>` of run lengths at which a turn is allowed. */
  datatype TurnRange = TurnRange(lo: nat, hi: nat) {
    predicate Contains(c: nat) {
      lo <= c <= hi
    }
  }

  /** The weight grid: `|g|` rows of `|g|` non-negative weights. */
  type Grid = seq<seq<int>>

  predicate ValidGrid(g: Grid)
  {
    && |g| >= 1
    && (forall i :: 0 <= i < |g| ==> |g[i]| == |g|)
    && (forall i, j :: 0 <= i < |g| && 0 <= j < |g[i]| ==> g[i][j] >= 0)
  }

  function Goal(g: Grid): Coord
  {
    Coord(|g| - 1, |g| - 1)
  }

  predicate InGrid(g: Grid, c: Coord)
  {
    0 <= c.re < |g| && 0 <= c.im < |g|
  }

  /** Weight of entering cell `c`; 0 off the grid, where nothing enters. */
  function Weight(g: Grid, c: Coord): int
  {
    if 0 <= c.re < |g| && 0 <= c.im < |g[c.re]| then g[c.re][c.im] else 0
  }

  // ---------------------------------------------------------------------
  // Parsing

  /** The input `parse_input` reads without panicking: at least `side`
      lines, each with at least `side` bytes, none of them below '0'. */
  predicate Parsable(lines: seq<string>, side: nat)
  {
    |lines| >= side &&
    forall i :: 0 <= i < side ==>
      |lines[i]| >= side && forall j :: 0 <= j < side ==> lines[i][j] >= '0'
  }

  function ParseRow(line: string, side: nat): (r: seq<int>)
    requires |line| >= side
    ensures |r| == side
    ensures forall j :: 0 <= j < side ==> r[j] == line[j] as int - '0' as int
  {
    seq(side, j requires 0 <= j < side => line[j] as int - '0' as int)
  }

  /** `parse_input`: row i of the grid is the first `side` bytes of line i,
      each minus b'0' (a missing line or byte, or a byte below '0', panics). */
  function ParseGrid(lines: seq<string>, side: nat): (r: Option<Grid>)
    ensures r.Some? <==> Parsable(lines, side)
    ensures r.Some? ==>
      |r.value| == side &&
      forall i :: 0 <= i < side ==>
        |r.value[i]| == side && |lines[i]| >= side &&
        forall j :: 0 <= j < side ==> r.value[i][j] == lines[i][j] as int - '0' as int
    ensures r.Some? && side >= 1 ==> ValidGrid(r.value)
  {
    if Parsable(lines, side) then
      Some(seq(side, i requires 0 <= i < side && Parsable(lines, side) => ParseRow(lines[i], side)))
    else None
  }

  // ---------------------------------------------------------------------
  // Nodes

  function StartEntry(k: nat): CoordEntry
    requires k < 4
  {
    CoordEntry(Zero, Dirs[k], 1)
  }

  /** `Node::start`: one seed per heading at the start cell, with run length
      1 and no heat loss, so the start cell's weight is never charged. */
  function StartNodes(): (r: seq<Node>)
    ensures |r| == 4
    ensures forall k :: 0 <= k < 4 ==> r[k].entry.dir == Dirs[k]
    ensures forall n :: n in r ==> n.entry.coord == Zero && n.entry.consecutive == 1 && n.dist == 0
  {
    [Node(StartEntry(0), 0), Node(StartEntry(1), 0), Node(StartEntry(2), 0), Node(StartEntry(3), 0)]
  }

  /** `Node::next`: the state reached by stepping in heading `dir`.  The
      complex sums of the program (the reversal test `dir + heading == 0` and
      the new position) are written out per component. */
  function Next(n: Node, dir: Coord, turn: TurnRange, g: Grid): (r: Option<Node>)
    ensures n.entry.dir.re + dir.re == 0 && n.entry.dir.im + dir.im == 0 ==> r.None?
    ensures r.Some? && dir != n.entry.dir ==>
      turn.Contains(n.entry.consecutive) && r.value.entry.consecutive == 1
    ensures r.Some? && dir == n.entry.dir ==> r.value.entry.consecutive == n.entry.consecutive + 1
    ensures r.Some? ==> 1 <= r.value.entry.consecutive <= turn.hi
    ensures r.Some? ==> r.value.entry.dir == dir
    ensures r.Some? ==> r.value.entry.coord == Coord(n.entry.coord.re + dir.re, n.entry.coord.im + dir.im)
    ensures r.Some? ==> InGrid(g, r.value.entry.coord)
    ensures r.Some? && ValidGrid(g) ==>
      r.value.dist == n.dist + g[r.value.entry.coord.re][r.value.entry.coord.im]
    ensures r.None? && (n.entry.dir.re + dir.re != 0 || n.entry.dir.im + dir.im != 0) &&
            (dir == n.entry.dir || turn.Contains(n.entry.consecutive)) ==>
      (if dir == n.entry.dir then n.entry.consecutive + 1 else 1) > turn.hi ||
      !InGrid(g, Coord(n.entry.coord.re + dir.re, n.entry.coord.im + dir.im))
  {
    if n.entry.dir.re + dir.re == 0 && n.entry.dir.im + dir.im == 0 then None
    else if n.entry.dir != dir && !turn.Contains(n.entry.consecutive) then None
    else
      var consecutive := if n.entry.dir == dir then n.entry.consecutive + 1 else 1;
      if consecutive > turn.hi then None
      else
        var entry := CoordEntry(Coord(n.entry.coord.re + dir.re, n.entry.coord.im + dir.im), dir, consecutive);
        if InGrid(g, entry.coord) then Some(Node(entry, n.dist + Weight(g, entry.coord)))
        else None
  }

  /** Every heading moves: a successor is on another cell. */
  lemma NextMoves(n: Node, k: nat, turn: TurnRange, g: Grid)
    requires k < 4
    ensures Next(n, Dirs[k], turn, g).Some? ==> Next(n, Dirs[k], turn, g).value.entry.coord != n.entry.coord
  {
    assert Dirs[k] != Zero;
  }

  /** Heat loss only shifts the successor's heat loss, never its legality. */
  lemma NextShift(e: CoordEntry, d: int, dir: Coord, turn: TurnRange, g: Grid)
    ensures Next(Node(e, d), dir, turn, g) ==
      match Next(Node(e, 0), dir, turn, g)
      case None => None
      case Some(m) => Some(Node(m.entry, m.dist + d))
  {
  }

  /** `impl Ord for Node`: reversed on `dist`, so the max-heap pops a node of
      least heat loss. */
  function CmpNode(a: Node, b: Node): Ordering
  {
    CompareInt(b.dist, a.dist)
  }

  /** `impl PartialEq for Node`: identity of the state, ignoring `dist`. */
  predicate SameNode(a: Node, b: Node)
  {
    a.entry == b.entry
  }

  /** A node the `BinaryHeap` may pop: no node compares greater. */
  predicate IsHeapTop(n: Node, heap: multiset<Node>)
  {
    n in heap && forall m | m in heap :: CmpNode(n, m) != Less
  }

  lemma HeapTopIsLeastDist(n: Node, heap: multiset<Node>)
    requires n in heap
    ensures IsHeapTop(n, heap) <==> forall m | m in heap :: n.dist <= m.dist
  {
  }

  /** Node equality ignores heat loss, while node order looks only at it. */
  lemma EqualityIgnoresDist(e: CoordEntry, d1: int, d2: int)
    requires d1 < d2
    ensures SameNode(Node(e, d1), Node(e, d2))
    ensures CmpNode(Node(e, d1), Node(e, d2)) == Greater
  {
  }

  lemma {:induction false} HeapTopExists(heap: multiset<Node>)
    requires |heap| > 0
    ensures exists n :: IsHeapTop(n, heap)
    decreases |heap|
  {
    var x :| x in heap;
    var rest := heap - multiset{x};
    if |rest| == 0 {
      assert heap == multiset{x};
      assert IsHeapTop(x, heap);
    } else {
      HeapTopExists(rest);
      var y :| IsHeapTop(y, rest);
      assert heap == rest + multiset{x};
      HeapTopAdd(y, rest, x);
    }
  }

  /** Adding a node to a heap: the new top is the old one or the newcomer. */
  lemma HeapTopAdd(y: Node, rest: multiset<Node>, x: Node)
    requires IsHeapTop(y, rest)
    ensures IsHeapTop(if x.dist <= y.dist then x else y, rest + multiset{x})
  {
    var heap := rest + multiset{x};
    forall m | m in heap
      ensures m == x || m in rest
    {
    }
  }

  // ---------------------------------------------------------------------
  // Legal walks: the reference the search is proved against.

  ghost predicate IsStart(e: CoordEntry)
  {
    e.coord == Zero && e.dir in Dirs && e.consecutive == 1
  }

  /** One legal move from `s` to `t`, as `Node::next` allows it. */
  ghost predicate Step(g: Grid, turn: TurnRange, s: CoordEntry, t: CoordEntry)
  {
    t.dir in Dirs && Next(Node(s, 0), t.dir, turn, g) == Some(Node(t, Weight(g, t.coord)))
  }

  ghost predicate IsWalk(g: Grid, turn: TurnRange, w: seq<CoordEntry>)
  {
    |w| >= 1 && IsStart(w[0]) &&
    forall k :: 0 <= k < |w| - 1 ==> Step(g, turn, w[k], w[k + 1])
  }

  /** Heat loss of a walk: the weights of every cell entered after the first. */
  ghost function Cost(g: Grid, w: seq<CoordEntry>): int
  {
    if |w| <= 1 then 0 else Cost(g, w[..|w| - 1]) + Weight(g, w[|w| - 1].coord)
  }

  ghost predicate Reaches(g: Grid, turn: TurnRange, e: CoordEntry, d: int)
  {
    exists w :: IsWalk(g, turn, w) && w[|w| - 1] == e && Cost(g, w) == d
  }

  /** A state the final scan looks at. */
  predicate IsGoalEntry(g: Grid, turn: TurnRange, e: CoordEntry)
  {
    e.coord == Goal(g) && e.dir in Dirs && 1 <= e.consecutive <= turn.hi
  }

  lemma {:induction false} CostPrefix(g: Grid, w: seq<CoordEntry>, n: nat)
    requires ValidGrid(g)
    requires 1 <= n <= |w|
    ensures Cost(g, w[..n]) <= Cost(g, w)
    decreases |w|
  {
    if n < |w| {
      assert w[..|w| - 1][..n] == w[..n];
      CostPrefix(g, w[..|w| - 1], n);
      assert Weight(g, w[|w| - 1].coord) >= 0;
    } else {
      assert w[..n] == w;
    }
  }

  lemma WalkExtend(g: Grid, turn: TurnRange, w: seq<CoordEntry>, t: CoordEntry)
    requires IsWalk(g, turn, w)
    requires Step(g, turn, w[|w| - 1], t)
    ensures IsWalk(g, turn, w + [t])
    ensures Cost(g, w + [t]) == Cost(g, w) + Weight(g, t.coord)
  {
    var w' := w + [t];
    assert w'[..|w'| - 1] == w;
    forall k | 0 <= k < |w'| - 1
      ensures Step(g, turn, w'[k], w'[k + 1])
    {
      if k < |w| - 1 {
        assert w'[k] == w[k] && w'[k + 1] == w[k + 1];
      }
    }
  }

  /** A successor of a reachable node is reachable at the successor's heat
      loss. */
  lemma ReachesStep(g: Grid, turn: TurnRange, n: Node, k: nat, m: Node)
    requires k < 4
    requires Reaches(g, turn, n.entry, n.dist)
    requires Next(n, Dirs[k], turn, g) == Some(m)
    ensures Reaches(g, turn, m.entry, m.dist)
  {
    var w :| IsWalk(g, turn, w) && w[|w| - 1] == n.entry && Cost(g, w) == n.dist;
    var w' := w + [m.entry];
    assert IsWalk(g, turn, w') && w'[|w'| - 1] == m.entry && Cost(g, w') == m.dist by {
      NextIsStep(g, turn, n, k, m);
      WalkExtend(g, turn, w, m.entry);
    }
  }

  /** A move `Node::next` makes is a legal step, and adds the weight of
      the cell entered. */
  lemma NextIsStep(g: Grid, turn: TurnRange, n: Node, k: nat, m: Node)
    requires k < 4
    requires Next(n, Dirs[k], turn, g) == Some(m)
    ensures Step(g, turn, n.entry, m.entry) && m.dist == n.dist + Weight(g, m.entry.coord)
  {
    NextShift(n.entry, n.dist, Dirs[k], turn, g);
  }

  // ---------------------------------------------------------------------
  // The search state and its invariant

  /** Every run length a state can carry: 1..=hi, and 1 for the seeds. */
  function RunCap(turn: TurnRange): nat
  {
    if turn.hi >= 1 then turn.hi else 1
  }

  predicate InUniverse(side: nat, cap: nat, e: CoordEntry)
  {
    0 <= e.coord.re < side && 0 <= e.coord.im < side && e.dir in Dirs &&
    1 <= e.consecutive <= cap
  }

  ghost predicate Dominates(s2: map<CoordEntry, int>, s1: map<CoordEntry, int>)
  {
    forall e | e in s1 :: e in s2 && s2[e] <= s1[e]
  }

  ghost predicate ScoresOk(g: Grid, turn: TurnRange, score: map<CoordEntry, int>)
  {
    forall e | e in score ::
      InUniverse(|g|, RunCap(turn), e) && score[e] >= 0 && Reaches(g, turn, e, score[e])
  }

  ghost predicate HeapOk(g: Grid, turn: TurnRange, score: map<CoordEntry, int>, heap: multiset<Node>)
  {
    forall n | n in heap ::
      n.entry in score && score[n.entry] <= n.dist && Reaches(g, turn, n.entry, n.dist)
  }

  ghost predicate StartsKept(score: map<CoordEntry, int>)
  {
    forall k | 0 <= k < 4 :: StartEntry(k) in score && score[StartEntry(k)] == 0
  }

  /** The successor in heading `Dirs[k]` is recorded no worse than via `n`. */
  ghost predicate SuccOk(g: Grid, turn: TurnRange, n: Node, k: nat, score: map<CoordEntry, int>)
    requires k < 4
  {
    match Next(n, Dirs[k], turn, g)
    case None => true
    case Some(m) => m.entry in score && score[m.entry] <= m.dist
  }

  ghost predicate Relaxed(g: Grid, turn: TurnRange, e: CoordEntry, d: int, score: map<CoordEntry, int>)
  {
    forall k | 0 <= k < 4 :: SuccOk(g, turn, Node(e, d), k, score)
  }

  /** A recorded state is on the goal, still queued at its score, or has had
      all its successors relaxed at its score. */
  ghost predicate Settled(g: Grid, turn: TurnRange, score: map<CoordEntry, int>, heap: multiset<Node>, e: CoordEntry)
    requires e in score
  {
    e.coord == Goal(g) || Node(e, score[e]) in heap || Relaxed(g, turn, e, score[e], score)
  }

  ghost predicate Inv(g: Grid, turn: TurnRange, score: map<CoordEntry, int>, heap: multiset<Node>)
  {
    && ScoresOk(g, turn, score)
    && HeapOk(g, turn, score, heap)
    && StartsKept(score)
    && forall e | e in score :: Settled(g, turn, score, heap, e)
  }

  lemma SuccOkMono(g: Grid, turn: TurnRange, n: Node, k: nat, s1: map<CoordEntry, int>, s2: map<CoordEntry, int>)
    requires k < 4
    requires Dominates(s2, s1) && SuccOk(g, turn, n, k, s1)
    ensures SuccOk(g, turn, n, k, s2)
  {
  }

  lemma RelaxedMono(g: Grid, turn: TurnRange, e: CoordEntry, d: int, s1: map<CoordEntry, int>, s2: map<CoordEntry, int>)
    requires Dominates(s2, s1) && Relaxed(g, turn, e, d, s1)
    ensures Relaxed(g, turn, e, d, s2)
  {
    forall k | 0 <= k < 4
      ensures SuccOk(g, turn, Node(e, d), k, s2)
    {
      SuccOkMono(g, turn, Node(e, d), k, s1, s2);
    }
  }

  // ---------------------------------------------------------------------
  // Relaxing the successors of one popped node

  /** What the successor loop has established after looking at the first
      `k` headings, starting from `score0` and `heap0`: the search invariant
      holds except that `current` may still await relaxation, and `pushed`
      lists the nodes pushed so far, each a strict improvement. */
  ghost predicate ExpandInv(g: Grid, turn: TurnRange, current: Node,
                            score0: map<CoordEntry, int>, heap0: multiset<Node>,
                            score: map<CoordEntry, int>, heap: multiset<Node>,
                            pushed: seq<Node>, k: nat)
  {
    && k <= 4
    && BaseOk(g, turn, score, heap)
    && Tracking(current, score0, heap0, score, heap, pushed)
    && SettledBut(g, turn, current, score, heap)
    && SuccsDone(g, turn, current, score, k)
    && PushedAll(current, score0, score, pushed, k)
  }

  ghost predicate BaseOk(g: Grid, turn: TurnRange, score: map<CoordEntry, int>, heap: multiset<Node>)
  {
    ScoresOk(g, turn, score) && HeapOk(g, turn, score, heap) && StartsKept(score)
  }

  ghost predicate Tracking(current: Node, score0: map<CoordEntry, int>, heap0: multiset<Node>,
                           score: map<CoordEntry, int>, heap: multiset<Node>, pushed: seq<Node>)
  {
    && Dominates(score, score0)
    && heap == heap0 + multiset(pushed)
    && (|pushed| == 0 ==> score == score0)
    && current.entry in score0 && current.entry in score
    && score[current.entry] == score0[current.entry]
  }

  ghost predicate SettledBut(g: Grid, turn: TurnRange, current: Node, score: map<CoordEntry, int>, heap: multiset<Node>)
  {
    forall e | e in score ::
      Settled(g, turn, score, heap, e) || (e == current.entry && score[e] == current.dist)
  }

  ghost predicate SuccsDone(g: Grid, turn: TurnRange, current: Node, score: map<CoordEntry, int>, k: nat)
  {
    current.entry in score && score[current.entry] == current.dist ==>
      forall j | 0 <= j < k && j < 4 :: SuccOk(g, turn, current, j, score)
  }

  ghost predicate PushedAll(current: Node, score0: map<CoordEntry, int>, score: map<CoordEntry, int>, pushed: seq<Node>, k: nat)
  {
    forall i | 0 <= i < |pushed| :: PushedOk(current, score0, score, pushed[i], k)
  }

  ghost predicate PushedOk(current: Node, score0: map<CoordEntry, int>, score: map<CoordEntry, int>, n: Node, k: nat)
  {
    && n.entry in score && score[n.entry] == n.dist
    && (n.entry in score0 ==> n.dist < score0[n.entry])
    && n.entry.coord != current.entry.coord
    && exists j :: 0 <= j < k && j < 4 && n.entry.dir == Dirs[j]
  }

  /** The precondition of the successor loop: `current` was just popped from
      a heap that satisfied the invariant. */
  ghost predicate Popped(g: Grid, turn: TurnRange, current: Node, score: map<CoordEntry, int>, heap: multiset<Node>)
  {
    && ValidGrid(g)
    && current.entry.coord != Goal(g)
    && BaseOk(g, turn, score, heap)
    && current.entry in score && score[current.entry] <= current.dist
    && Reaches(g, turn, current.entry, current.dist)
    && SettledBut(g, turn, current, score, heap)
  }

  lemma ExpandStart(g: Grid, turn: TurnRange, current: Node, score: map<CoordEntry, int>, heap: multiset<Node>)
    requires Popped(g, turn, current, score, heap)
    ensures ExpandInv(g, turn, current, score, heap, score, heap, [], 0)
  {
    assert heap + multiset([]) == heap;
  }

  lemma PushedAllLater(current: Node, score0: map<CoordEntry, int>, score: map<CoordEntry, int>, pushed: seq<Node>, k: nat)
    requires PushedAll(current, score0, score, pushed, k)
    ensures PushedAll(current, score0, score, pushed, k + 1)
  {
    forall i | 0 <= i < |pushed|
      ensures PushedOk(current, score0, score, pushed[i], k + 1)
    {
      assert PushedOk(current, score0, score, pushed[i], k);
    }
  }

  /** Heading `Dirs[k]` yields no improvement: nothing changes. */
  lemma ExpandSkip(g: Grid, turn: TurnRange, current: Node,
                   score0: map<CoordEntry, int>, heap0: multiset<Node>,
                   score: map<CoordEntry, int>, heap: multiset<Node>, pushed: seq<Node>, k: nat)
    requires k < 4 && ExpandInv(g, turn, current, score0, heap0, score, heap, pushed, k)
    requires match Next(current, Dirs[k], turn, g)
      case None => true
      case Some(next) => next.entry in score && score[next.entry] <= next.dist
    ensures ExpandInv(g, turn, current, score0, heap0, score, heap, pushed, k + 1)
  {
    PushedAllLater(current, score0, score, pushed, k);
    assert SuccOk(g, turn, current, k, score);
  }

  lemma RecordBase(g: Grid, turn: TurnRange, current: Node, score0: map<CoordEntry, int>,
                   score: map<CoordEntry, int>, heap: multiset<Node>, k: nat, next: Node)
    requires ValidGrid(g) && k < 4
    requires BaseOk(g, turn, score, heap)
    requires current.entry in score0 && 0 <= score0[current.entry] <= current.dist
    requires Reaches(g, turn, current.entry, current.dist)
    requires Next(current, Dirs[k], turn, g) == Some(next)
    requires next.entry !in score || next.dist < score[next.entry]
    ensures BaseOk(g, turn, score[next.entry := next.dist], heap + multiset{next})
  {
    var s' := score[next.entry := next.dist];
    ReachesStep(g, turn, current, k, next);
    assert next.dist >= 0;
    assert ScoresOk(g, turn, s');
    assert HeapOk(g, turn, s', heap + multiset{next});
    forall j | 0 <= j < 4
      ensures StartEntry(j) in s' && s'[StartEntry(j)] == 0
    {
      assert StartEntry(j) in score && score[StartEntry(j)] == 0;
    }
  }

  lemma RecordSettled(g: Grid, turn: TurnRange, current: Node,
                      score: map<CoordEntry, int>, heap: multiset<Node>, next: Node)
    requires SettledBut(g, turn, current, score, heap)
    requires next.entry != current.entry
    requires next.entry !in score || next.dist < score[next.entry]
    ensures SettledBut(g, turn, current, score[next.entry := next.dist], heap + multiset{next})
  {
    var x := next.entry;
    var s' := score[x := next.dist];
    var h' := heap + multiset{next};
    LowerDominates(score, next.entry, next.dist);
    forall e | e in s'
      ensures Settled(g, turn, s', h', e) || (e == current.entry && s'[e] == current.dist)
    {
      if e != x {
        if Relaxed(g, turn, e, score[e], score) {
          RelaxedMono(g, turn, e, score[e], score, s');
        }
      }
    }
  }

  /** Lowering (or adding) one score dominates the old scores. */
  lemma LowerDominates(score: map<CoordEntry, int>, x: CoordEntry, v: int)
    requires x !in score || v < score[x]
    ensures Dominates(score[x := v], score)
  {
  }

  lemma RecordSuccs(g: Grid, turn: TurnRange, current: Node, score: map<CoordEntry, int>, k: nat, next: Node)
    requires k < 4 && SuccsDone(g, turn, current, score, k)
    requires Next(current, Dirs[k], turn, g) == Some(next)
    requires next.entry != current.entry
    requires next.entry !in score || next.dist < score[next.entry]
    ensures SuccsDone(g, turn, current, score[next.entry := next.dist], k + 1)
  {
    var s' := score[next.entry := next.dist];
    if current.entry in s' && s'[current.entry] == current.dist {
      assert current.entry in score && score[current.entry] == current.dist;
      LowerDominates(score, next.entry, next.dist);
      forall j | 0 <= j < k + 1 && j < 4
        ensures SuccOk(g, turn, current, j, s')
      {
        if j < k {
          SuccOkMono(g, turn, current, j, score, s');
        } else {
          assert next.entry in s' && s'[next.entry] <= next.dist;
        }
      }
    }
  }

  lemma RecordPushed(current: Node, score0: map<CoordEntry, int>, score: map<CoordEntry, int>,
                     pushed: seq<Node>, k: nat, next: Node)
    requires k < 4 && PushedAll(current, score0, score, pushed, k)
    requires Dominates(score, score0)
    requires next.entry.dir == Dirs[k] && next.entry.coord != current.entry.coord
    requires next.entry !in score || next.dist < score[next.entry]
    ensures PushedAll(current, score0, score[next.entry := next.dist], pushed + [next], k + 1)
  {
    var s' := score[next.entry := next.dist];
    var p' := pushed + [next];
    forall i | 0 <= i < |p'|
      ensures PushedOk(current, score0, s', p'[i], k + 1)
    {
      if i < |pushed| {
        var n := pushed[i];
        assert p'[i] == n;
        assert PushedOk(current, score0, score, n, k);
        var j :| 0 <= j < k && j < 4 && n.entry.dir == Dirs[j];
        assert n.entry != next.entry;
      } else {
        assert p'[i] == next;
      }
    }
  }

  /** Heading `Dirs[k]` improves its successor: the score is lowered and
      the successor is pushed. */
  lemma ExpandRecord(g: Grid, turn: TurnRange, current: Node,
                     score0: map<CoordEntry, int>, heap0: multiset<Node>,
                     score: map<CoordEntry, int>, heap: multiset<Node>, pushed: seq<Node>, k: nat, next: Node)
    requires Popped(g, turn, current, score0, heap0)
    requires k < 4 && ExpandInv(g, turn, current, score0, heap0, score, heap, pushed, k)
    requires Next(current, Dirs[k], turn, g) == Some(next)
    requires next.entry !in score || next.dist < score[next.entry]
    ensures ExpandInv(g, turn, current, score0, heap0, score[next.entry := next.dist],
                      heap + multiset{next}, pushed + [next], k + 1)
  {
    var s', h', p' := score[next.entry := next.dist], heap + multiset{next}, pushed + [next];
    assert next.entry.coord != current.entry.coord by {
      NextMoves(current, k, turn, g);
    }
    assert BaseOk(g, turn, s', h') by {
      assert 0 <= score0[current.entry] by {
        assert ScoresOk(g, turn, score0);
      }
      RecordBase(g, turn, current, score0, score, heap, k, next);
    }
    assert SettledBut(g, turn, current, s', h') by {
      RecordSettled(g, turn, current, score, heap, next);
    }
    assert SuccsDone(g, turn, current, s', k + 1) by {
      RecordSuccs(g, turn, current, score, k, next);
    }
    assert PushedAll(current, score0, s', p', k + 1) by {
      RecordPushed(current, score0, score, pushed, k, next);
    }
    assert Tracking(current, score0, heap0, s', h', p') by {
      RecordTracking(current, score0, heap0, score, heap, pushed, next);
    }
  }

  lemma RecordTracking(current: Node, score0: map<CoordEntry, int>, heap0: multiset<Node>,
                       score: map<CoordEntry, int>, heap: multiset<Node>, pushed: seq<Node>, next: Node)
    requires Tracking(current, score0, heap0, score, heap, pushed)
    requires next.entry != current.entry
    requires next.entry !in score || next.dist < score[next.entry]
    ensures Tracking(current, score0, heap0, score[next.entry := next.dist], heap + multiset{next}, pushed + [next])
  {
    var s' := score[next.entry := next.dist];
    LowerDominates(score, next.entry, next.dist);
    assert multiset(pushed + [next]) == multiset(pushed) + multiset{next};
  }

  lemma ExpandFinish(g: Grid, turn: TurnRange, current: Node,
                     score0: map<CoordEntry, int>, heap0: multiset<Node>,
                     score: map<CoordEntry, int>, heap: multiset<Node>, pushed: seq<Node>)
    requires ExpandInv(g, turn, current, score0, heap0, score, heap, pushed, 4)
    ensures Inv(g, turn, score, heap)
    ensures Dominates(score, score0)
    ensures score == score0 ==> heap == heap0
    ensures heap0 <= heap
    ensures forall n | n in heap && n !in heap0 ::
      n.entry in score && score[n.entry] == n.dist && (n.entry in score0 ==> n.dist < score0[n.entry])
  {
    forall e | e in score
      ensures Settled(g, turn, score, heap, e)
    {
      if e == current.entry && score[e] == current.dist {
        assert Relaxed(g, turn, e, score[e], score);
      }
    }
    if |pushed| > 0 {
      assert PushedOk(current, score0, score, pushed[0], 4);
      assert score != score0;
    } else {
      assert heap == heap0;
    }
    forall n | n in heap && n !in heap0
      ensures n.entry in score && score[n.entry] == n.dist && (n.entry in score0 ==> n.dist < score0[n.entry])
    {
      var i :| 0 <= i < |pushed| && pushed[i] == n;
      assert PushedOk(current, score0, score, pushed[i], 4);
    }
  }

  /** The body of the `for next in DIRS...` loop of `find_path`: a successor
      is recorded and pushed only when it strictly improves its score. */
  method Expand(g: Grid, turn: TurnRange, current: Node, score: map<CoordEntry, int>, heap: multiset<Node>)
    returns (score': map<CoordEntry, int>, heap': multiset<Node>)
    requires Popped(g, turn, current, score, heap)
    ensures Inv(g, turn, score', heap')
    ensures Dominates(score', score)
    ensures score' == score ==> heap' == heap
    ensures heap <= heap'
    ensures forall n | n in heap' && n !in heap ::
      n.entry in score' && score'[n.entry] == n.dist && (n.entry in score ==> n.dist < score[n.entry])
  {
    score' := score;
    heap' := heap;
    ghost var pushed: seq<Node> := [];
    ExpandStart(g, turn, current, score, heap);
    var k := 0;
    while k < 4
      invariant k <= 4
      invariant ExpandInv(g, turn, current, score, heap, score', heap', pushed, k)
    {
      var candidate := Next(current, Dirs[k], turn, g);
      if candidate.Some? && (candidate.value.entry !in score' || candidate.value.dist < score'[candidate.value.entry]) {
        var next := candidate.value;
        ExpandRecord(g, turn, current, score, heap, score', heap', pushed, k, next);
        score' := score'[next.entry := next.dist];
        heap' := heap' + multiset{next};
        pushed := pushed + [next];
      } else {
        ExpandSkip(g, turn, current, score, heap, score', heap', pushed, k);
      }
      k := k + 1;
    }
    ExpandFinish(g, turn, current, score, heap, score', heap', pushed);
  }

  // ---------------------------------------------------------------------
  // Termination measure: states never recorded, then the sum of scores.

  function RunStates(c: Coord, d: Coord, cap: nat): (r: seq<CoordEntry>)
    ensures forall j :: 1 <= j <= cap ==> CoordEntry(c, d, j) in r
  {
    var r := seq(cap, j requires 0 <= j < cap => CoordEntry(c, d, j + 1));
    assert forall j :: 1 <= j <= cap ==> r[j - 1] == CoordEntry(c, d, j);
    r
  }

  function CellStates(c: Coord, cap: nat): (r: seq<CoordEntry>)
    ensures forall e: CoordEntry :: e.coord == c && e.dir in Dirs && 1 <= e.consecutive <= cap ==> e in r
  {
    RunStates(c, Dirs[0], cap) + RunStates(c, Dirs[1], cap) +
    RunStates(c, Dirs[2], cap) + RunStates(c, Dirs[3], cap)
  }

  function RowStates(re: int, n: nat, cap: nat): (r: seq<CoordEntry>)
    ensures forall e: CoordEntry ::
      (e.coord.re == re && 0 <= e.coord.im < n && e.dir in Dirs && 1 <= e.consecutive <= cap) ==> e in r
  {
    if n == 0 then []
    else
      var r := RowStates(re, n - 1, cap) + CellStates(Coord(re, n - 1), cap);
      assert forall e: CoordEntry :: e.coord == Coord(re, n - 1) && e.dir in Dirs && 1 <= e.consecutive <= cap ==> e in r;
      r
  }

  /** Every state of the search, listed once per row, cell, heading and run. */
  function Universe(rows: nat, side: nat, cap: nat): (r: seq<CoordEntry>)
    ensures forall e: CoordEntry ::
      (0 <= e.coord.re < rows && 0 <= e.coord.im < side && e.dir in Dirs && 1 <= e.consecutive <= cap) ==> e in r
  {
    if rows == 0 then [] else Universe(rows - 1, side, cap) + RowStates(rows - 1, side, cap)
  }

  function Absent(u: seq<CoordEntry>, s: map<CoordEntry, int>): nat
  {
    if |u| == 0 then 0 else Absent(u[..|u| - 1], s) + (if u[|u| - 1] in s then 0 else 1)
  }

  function PresentSum(u: seq<CoordEntry>, s: map<CoordEntry, int>): nat
  {
    if |u| == 0 then 0
    else PresentSum(u[..|u| - 1], s) + (if u[|u| - 1] in s && s[u[|u| - 1]] >= 0 then s[u[|u| - 1]] else 0)
  }

  lemma {:induction false} AbsentMono(u: seq<CoordEntry>, s1: map<CoordEntry, int>, s2: map<CoordEntry, int>, e: CoordEntry)
    requires s1.Keys <= s2.Keys
    ensures Absent(u, s2) <= Absent(u, s1)
    ensures e in u && e in s2 && e !in s1 ==> Absent(u, s2) < Absent(u, s1)
    ensures s1.Keys == s2.Keys ==> Absent(u, s2) == Absent(u, s1)
    decreases |u|
  {
    if |u| > 0 {
      AbsentMono(u[..|u| - 1], s1, s2, e);
      assert e in u ==> e == u[|u| - 1] || e in u[..|u| - 1];
    }
  }

  lemma {:induction false} PresentSumMono(u: seq<CoordEntry>, s1: map<CoordEntry, int>, s2: map<CoordEntry, int>, e: CoordEntry)
    requires s1.Keys == s2.Keys
    requires forall x | x in s1 :: 0 <= s2[x] <= s1[x]
    ensures PresentSum(u, s2) <= PresentSum(u, s1)
    ensures e in u && e in s1 && s2[e] < s1[e] ==> PresentSum(u, s2) < PresentSum(u, s1)
    decreases |u|
  {
    if |u| > 0 {
      PresentSumMono(u[..|u| - 1], s1, s2, e);
      assert e in u ==> e == u[|u| - 1] || e in u[..|u| - 1];
    }
  }

  lemma MeasureDecreases(u: seq<CoordEntry>, s1: map<CoordEntry, int>, s2: map<CoordEntry, int>)
    requires forall e | e in s2 :: e in u && s2[e] >= 0
    requires Dominates(s2, s1) && s2 != s1
    ensures Absent(u, s2) < Absent(u, s1) ||
      (Absent(u, s2) == Absent(u, s1) && PresentSum(u, s2) < PresentSum(u, s1))
  {
    if e :| e in s2 && e !in s1 {
      AbsentMono(u, s1, s2, e);
    } else {
      assert s1.Keys == s2.Keys;
      if e :| e in s1 && s2[e] < s1[e] {
        AbsentMono(u, s1, s2, e);
        PresentSumMono(u, s1, s2, e);
      } else {
        assert false;
      }
    }
  }

  // ---------------------------------------------------------------------
  // The final scan

  function RunValues(score: map<CoordEntry, int>, c: Coord, d: Coord, n: nat): (r: seq<int>)
    ensures forall v :: v in r ==> exists j :: 1 <= j <= n && CoordEntry(c, d, j) in score && score[CoordEntry(c, d, j)] == v
    ensures forall j :: 1 <= j <= n && CoordEntry(c, d, j) in score ==> score[CoordEntry(c, d, j)] in r
  {
    if n == 0 then []
    else
      var e := CoordEntry(c, d, n);
      RunValues(score, c, d, n - 1) + (if e in score then [score[e]] else [])
  }

  /** The scan after the search: every recorded goal state with any heading
      and run length 1..=hi, in `DIRS` order; `None` where `unwrap` panics. */
  function GoalScan(g: Grid, turn: TurnRange, score: map<CoordEntry, int>): (r: Option<int>)
    ensures r.None? <==> forall e | e in score :: !IsGoalEntry(g, turn, e)
    ensures r.Some? ==> exists e :: e in score && IsGoalEntry(g, turn, e) && score[e] == r.value
    ensures r.Some? ==> forall e | e in score && IsGoalEntry(g, turn, e) :: r.value <= score[e]
  {
    var c := Goal(g);
    var vs := RunValues(score, c, Dirs[0], turn.hi) + RunValues(score, c, Dirs[1], turn.hi) +
      RunValues(score, c, Dirs[2], turn.hi) + RunValues(score, c, Dirs[3], turn.hi);
    assert forall e | e in score && IsGoalEntry(g, turn, e) :: score[e] in vs by {
      forall e | e in score && IsGoalEntry(g, turn, e)
        ensures score[e] in vs
      {
        assert e == CoordEntry(c, e.dir, e.consecutive);
      }
    }
    assert forall v :: v in vs ==> exists e :: e in score && IsGoalEntry(g, turn, e) && score[e] == v;
    var m := Seqs.Min(vs);
    assert m.Some? ==> m.value in vs;
    assert m.Some? ==> forall v :: v in vs ==> m.value <= v;
    m
  }

  // ---------------------------------------------------------------------
  // Optimality at termination

  lemma {:induction false} PrefixBound(g: Grid, turn: TurnRange, score: map<CoordEntry, int>, w: seq<CoordEntry>, k: nat)
    requires ValidGrid(g)
    requires Inv(g, turn, score, multiset{})
    requires IsWalk(g, turn, w)
    requires k < |w|
    requires forall j :: 0 <= j < k ==> w[j].coord != Goal(g)
    ensures w[k] in score && score[w[k]] <= Cost(g, w[..k + 1])
    decreases k
  {
    if k == 0 {
      var j :| 0 <= j < 4 && Dirs[j] == w[0].dir;
      assert w[0] == StartEntry(j);
    } else {
      PrefixBound(g, turn, score, w, k - 1);
      StepBound(g, turn, score, w[k - 1], w[k]);
      assert Cost(g, w[..k + 1]) == Cost(g, w[..k]) + Weight(g, w[k].coord) by {
        assert w[..k + 1][..k] == w[..k];
      }
    }
  }

  /** At termination every legal step out of a recorded state off the
      goal leads to a recorded state, no worse than via that step. */
  lemma StepBound(g: Grid, turn: TurnRange, score: map<CoordEntry, int>, s: CoordEntry, t: CoordEntry)
    requires Inv(g, turn, score, multiset{})
    requires s in score && s.coord != Goal(g) && Step(g, turn, s, t)
    ensures t in score && score[t] <= score[s] + Weight(g, t.coord)
  {
    assert Settled(g, turn, score, multiset{}, s);
    assert Relaxed(g, turn, s, score[s], score);
    var j :| 0 <= j < 4 && Dirs[j] == t.dir;
    NextShift(s, score[s], Dirs[j], turn, g);
    assert SuccOk(g, turn, Node(s, score[s]), j, score);
  }

  lemma GoalBound(g: Grid, turn: TurnRange, score: map<CoordEntry, int>, w: seq<CoordEntry>)
    requires ValidGrid(g)
    requires Inv(g, turn, score, multiset{})
    requires IsWalk(g, turn, w) && IsGoalEntry(g, turn, w[|w| - 1])
    ensures exists e :: e in score && IsGoalEntry(g, turn, e) && score[e] <= Cost(g, w)
  {
    var f :| 0 <= f < |w| && w[f].coord == Goal(g) && forall j :: 0 <= j < f ==> w[j].coord != Goal(g) by {
      FirstGoal(g, w, |w| - 1);
    }
    PrefixBound(g, turn, score, w, f);
    CostPrefix(g, w, f + 1);
    if f > 0 {
      assert Step(g, turn, w[f - 1], w[f]);
    }
    assert IsGoalEntry(g, turn, w[f]);
  }

  lemma {:induction false} FirstGoal(g: Grid, w: seq<CoordEntry>, i: nat)
    requires i < |w| && w[i].coord == Goal(g)
    ensures exists f :: 0 <= f < |w| && w[f].coord == Goal(g) && forall j :: 0 <= j < f ==> w[j].coord != Goal(g)
    decreases i
  {
    if exists j :: 0 <= j < i && w[j].coord == Goal(g) {
      var j :| 0 <= j < i && w[j].coord == Goal(g);
      FirstGoal(g, w, j);
    }
  }

  // ---------------------------------------------------------------------
  // The search

  lemma StartReaches(g: Grid, turn: TurnRange, k: nat)
    requires k < 4
    ensures Reaches(g, turn, StartEntry(k), 0)
  {
    var w := [StartEntry(k)];
    assert IsWalk(g, turn, w) && Cost(g, w) == 0;
  }

  lemma InitScores(g: Grid, turn: TurnRange)
    requires ValidGrid(g)
    ensures ScoresOk(g, turn, InitScore())
  {
    var score := InitScore();
    forall e | e in score
      ensures InUniverse(|g|, RunCap(turn), e) && score[e] >= 0 && Reaches(g, turn, e, score[e])
    {
      var k :| 0 <= k < 4 && e == StartEntry(k);
      StartReaches(g, turn, k);
    }
  }

  lemma InitHeap(g: Grid, turn: TurnRange)
    ensures HeapOk(g, turn, InitScore(), multiset(StartNodes()))
  {
    var start := StartNodes();
    var score := InitScore();
    forall n: Node | n in multiset(start)
      ensures n.entry in score && score[n.entry] <= n.dist && Reaches(g, turn, n.entry, n.dist)
    {
      var k :| 0 <= k < 4 && start[k] == n;
      StartReaches(g, turn, k);
    }
  }

  lemma InitSettled(g: Grid, turn: TurnRange)
    ensures forall e | e in InitScore() :: Settled(g, turn, InitScore(), multiset(StartNodes()), e)
  {
    var start := StartNodes();
    var score := InitScore();
    forall e | e in score
      ensures Node(e, score[e]) in multiset(start)
    {
      var k :| 0 <= k < 4 && e == StartEntry(k);
      assert start[k] == Node(e, score[e]);
    }
  }

  lemma InitInv(g: Grid, turn: TurnRange)
    requires ValidGrid(g)
    ensures Inv(g, turn, InitScore(), multiset(StartNodes()))
  {
    assert ScoresOk(g, turn, InitScore()) by {
      InitScores(g, turn);
    }
    assert HeapOk(g, turn, InitScore(), multiset(StartNodes())) by {
      InitHeap(g, turn);
    }
    assert forall e | e in InitScore() :: Settled(g, turn, InitScore(), multiset(StartNodes()), e) by {
      InitSettled(g, turn);
    }
    assert StartsKept(InitScore()) by {
      InitStarts();
    }
  }

  lemma InitStarts()
    ensures StartsKept(InitScore())
  {
    var score := InitScore();
    assert StartEntry(0) in score && StartEntry(1) in score && StartEntry(2) in score && StartEntry(3) in score;
  }

  function InitScore(): map<CoordEntry, int>
  {
    map[StartEntry(0) := 0, StartEntry(1) := 0, StartEntry(2) := 0, StartEntry(3) := 0]
  }

  /** Popping a top node keeps the invariant, up to the relaxation the
      popped node is about to receive. */
  lemma PopStep(g: Grid, turn: TurnRange, score: map<CoordEntry, int>, heap0: multiset<Node>, current: Node)
    requires ValidGrid(g)
    requires Inv(g, turn, score, heap0) && current in heap0
    ensures current.entry.coord == Goal(g) ==> Inv(g, turn, score, heap0 - multiset{current})
    ensures current.entry.coord != Goal(g) ==> Popped(g, turn, current, score, heap0 - multiset{current})
  {
    var heap := heap0 - multiset{current};
    assert HeapOk(g, turn, score, heap);
    forall e | e in score
      ensures Settled(g, turn, score, heap, e) || (e == current.entry && score[e] == current.dist)
    {
      assert Settled(g, turn, score, heap0, e);
      if Node(e, score[e]) in heap0 && Node(e, score[e]) != current {
        assert Node(e, score[e]) in heap;
      }
    }
  }

  lemma Conclude(g: Grid, turn: TurnRange, score: map<CoordEntry, int>, result: Option<int>)
    requires ValidGrid(g)
    requires Inv(g, turn, score, multiset{})
    requires result == GoalScan(g, turn, score)
    ensures result.Some? ==>
      exists w :: IsWalk(g, turn, w) && IsGoalEntry(g, turn, w[|w| - 1]) && Cost(g, w) == result.value
    ensures forall w :: IsWalk(g, turn, w) && IsGoalEntry(g, turn, w[|w| - 1]) ==>
      result.Some? && result.value <= Cost(g, w)
  {
    forall w | IsWalk(g, turn, w) && IsGoalEntry(g, turn, w[|w| - 1])
      ensures result.Some? && result.value <= Cost(g, w)
    {
      GoalBound(g, turn, score, w);
    }
    if result.Some? {
      var e :| e in score && IsGoalEntry(g, turn, e) && score[e] == result.value;
      assert Reaches(g, turn, e, score[e]);
    }
  }

  /** `find_path`: the least heat loss over legal walks that end on the goal
      cell with run length 1..=hi, or `None` where the program panics because
      no goal state was recorded. */
  method FindPath(g: Grid, turn: TurnRange) returns (result: Option<int>)
    requires ValidGrid(g)
    ensures result.Some? ==>
      exists w :: IsWalk(g, turn, w) && IsGoalEntry(g, turn, w[|w| - 1]) && Cost(g, w) == result.value
    ensures forall w :: IsWalk(g, turn, w) && IsGoalEntry(g, turn, w[|w| - 1]) ==>
      result.Some? && result.value <= Cost(g, w)
  {
    var heap := multiset(StartNodes());
    var score := InitScore();
    ghost var u := Universe(|g|, |g|, RunCap(turn));
    InitInv(g, turn);

    while heap != multiset{}
      invariant Inv(g, turn, score, heap)
      decreases Absent(u, score), PresentSum(u, score), |heap|
    {
      HeapTopExists(heap);
      var current :| IsHeapTop(current, heap);
      PopStep(g, turn, score, heap, current);
      heap := heap - multiset{current};
      if current.entry.coord == Goal(g) {
        continue;
      }
      var score', heap' := Expand(g, turn, current, score, heap);
      if score' != score {
        assert forall e | e in score' :: e in u && score'[e] >= 0 by {
          assert ScoresOk(g, turn, score');
        }
        MeasureDecreases(u, score, score');
      }
      score, heap := score', heap';
    }

    result := GoalScan(g, turn, score);
    Conclude(g, turn, score, result);
  }

  /** `part_one`: run lengths 1..=3, turns allowed at any of them. */
  method PartOne(g: Grid) returns (result: Option<int>)
    requires ValidGrid(g)
    ensures forall w :: IsWalk(g, TurnRange(1, 3), w) && IsGoalEntry(g, TurnRange(1, 3), w[|w| - 1]) ==>
      result.Some? && result.value <= Cost(g, w)
    ensures result.Some? ==> exists w ::
      (IsWalk(g, TurnRange(1, 3), w) && IsGoalEntry(g, TurnRange(1, 3), w[|w| - 1]) && Cost(g, w) == result.value)
  {
    result := FindPath(g, TurnRange(1, 3));
  }

  /** `part_two`: turns only after 4..=10 steps, runs of at most 10. */
  method PartTwo(g: Grid) returns (result: Option<int>)
    requires ValidGrid(g)
    ensures forall w :: IsWalk(g, TurnRange(4, 10), w) && IsGoalEntry(g, TurnRange(4, 10), w[|w| - 1]) ==>
      result.Some? && result.value <= Cost(g, w)
    ensures result.Some? ==> exists w ::
      (IsWalk(g, TurnRange(4, 10), w) && IsGoalEntry(g, TurnRange(4, 10), w[|w| - 1]) && Cost(g, w) == result.value)
  {
    result := FindPath(g, TurnRange(4, 10));
  }
}
