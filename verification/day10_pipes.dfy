/** aoc-10: a 140 × 140 field of pipes with one start tile 'S'.  Two
    walkers leave 'S' in opposite directions along the loop and meet at the
    far point (part one).  The loop is drawn on a doubled grid, where the
    gaps between tiles become cells, and every even cell that is neither on
    the loop nor connected to the border through free cells is enclosed
    (part two). */
module PipeMaze {
  import opened Wrappers
  import opened Text
  import opened Sets

  /** The field is `Size` × `Size` tiles; the doubled grid `Lim` × `Lim`. */
  const Size: int := 140
  const Lim: int := 2 * Size

  /** (row, column); signed, so that a step off the field is a value
      outside the grid rather than a wrap-around. */
  type Coord = (int, int)

  predicate WfGrid(grid: seq<string>)
  {
    |grid| == Size && forall r :: 0 <= r < Size ==> |grid[r]| == Size
  }

  predicate InRange(c: Coord, lim: int)
  {
    0 <= c.0 < lim && 0 <= c.1 < lim
  }

  /** `c` and `d` are orthogonal neighbours. */
  predicate Orth(c: Coord, d: Coord)
  {
    (c.0 == d.0 && (c.1 == d.1 + 1 || c.1 + 1 == d.1)) ||
    (c.1 == d.1 && (c.0 == d.0 + 1 || c.0 + 1 == d.0))
  }

  function At(grid: seq<string>, c: Coord): char
    requires WfGrid(grid) && InRange(c, Size)
  {
    assert |grid[c.0]| == Size;
    grid[c.0][c.1]
  }

  // ---------------------------------------------------------------------
  // Neighbours and pipes

  /** `adjacent_coords`: up, down, right, left, keeping those whose two
      components lie in `0..lim`. */
  function Adj(c: Coord, lim: int): (s: seq<Coord>)
    ensures forall d: Coord :: d in s <==> InRange(d, lim) && Orth(c, d)
    ensures |s| <= 4
  {
    var up := (c.0 - 1, c.1);
    var down := (c.0 + 1, c.1);
    var right := (c.0, c.1 + 1);
    var left := (c.0, c.1 - 1);
    (if InRange(up, lim) then [up] else []) +
    (if InRange(down, lim) then [down] else []) +
    (if InRange(right, lim) then [right] else []) +
    (if InRange(left, lim) then [left] else [])
  }

  predicate IsPipe(ch: char)
  {
    ch in {'|', '-', 'L', 'J', '7', 'F'}
  }

  /** `adjacent_pipes`: the two tiles a pipe joins, as in the table, and
      `None` for any other character. */
  function Ends(grid: seq<string>, c: Coord): (r: Option<(Coord, Coord)>)
    requires WfGrid(grid) && InRange(c, Size)
    ensures r.Some? <==> IsPipe(At(grid, c))
    ensures r.Some? ==> r.value.0 != r.value.1 && Orth(c, r.value.0) && Orth(c, r.value.1)
  {
    var (y, x) := c;
    match At(grid, c)
    case '|' => Some(((y - 1, x), (y + 1, x)))
    case '-' => Some(((y, x - 1), (y, x + 1)))
    case 'L' => Some(((y - 1, x), (y, x + 1)))
    case 'J' => Some(((y - 1, x), (y, x - 1)))
    case '7' => Some(((y + 1, x), (y, x - 1)))
    case 'F' => Some(((y + 1, x), (y, x + 1)))
    case _ => None
  }

  /** A vertical pipe joins the tiles above and below; a corner joins one
      vertical and one horizontal neighbour. */
  lemma EndsShape(grid: seq<string>, c: Coord)
    requires WfGrid(grid) && InRange(c, Size) && IsPipe(At(grid, c))
    ensures var (a, b) := Ends(grid, c).value;
      (At(grid, c) == '|' <==> a.1 == c.1 && b.1 == c.1) &&
      (At(grid, c) == '-' <==> a.0 == c.0 && b.0 == c.0) &&
      (At(grid, c) in {'L', 'J', '7', 'F'} <==> (a.0 == c.0) != (b.0 == c.0))
  {
  }

  // ---------------------------------------------------------------------
  // Walking the loop

  /** A walker on tile `curr` that came from `prev`. */
  datatype Walker = Walker(prev: Coord, curr: Coord)

  /** `Position::increment`: move to the end of the current pipe that is
      not the previous tile; `None` where the program panics (the tile is
      off the field or not a pipe). */
  function Increment(grid: seq<string>, w: Walker): (r: Option<Walker>)
    requires WfGrid(grid)
    ensures r.Some? <==> InRange(w.curr, Size) && IsPipe(At(grid, w.curr))
    ensures r.Some? ==> r.value.prev == w.curr && r.value.curr != w.prev && Orth(w.curr, r.value.curr)
    ensures r.Some? ==> r.value.curr == Ends(grid, w.curr).value.0 || r.value.curr == Ends(grid, w.curr).value.1
    ensures r.Some? && Ends(grid, w.curr).value.0 != w.prev ==> r.value.curr == Ends(grid, w.curr).value.0
  {
    if !InRange(w.curr, Size) then None
    else match Ends(grid, w.curr)
      case None => None
      case Some((a, b)) => Some(Walker(w.curr, if a != w.prev then a else b))
  }

  /** `n` increments, stopping at a panic. */
  function Walks(grid: seq<string>, w: Walker, n: nat): Option<Walker>
    requires WfGrid(grid)
    decreases n
  {
    if n == 0 then Some(w)
    else match Increment(grid, w)
      case None => None
      case Some(v) => Walks(grid, v, n - 1)
  }

  /** The cells `insert_pipe_coords` marks on the doubled grid: the
      doubled current tile and the gap towards the previous one,
      `2 curr + (prev - curr)`. */
  function Marks(w: Walker): set<Coord>
  {
    {Double(w.curr), Gap(w)}
  }

  function Double(c: Coord): Coord
  {
    (2 * c.0, 2 * c.1)
  }

  function Gap(w: Walker): (g: Coord)
  {
    (2 * w.curr.0 + (w.prev.0 - w.curr.0), 2 * w.curr.1 + (w.prev.1 - w.curr.1))
  }

  /** Between neighbouring tiles, the gap cell touches both doubled tiles
      and has exactly one odd component. */
  lemma GapBetween(w: Walker)
    requires Orth(w.prev, w.curr)
    ensures Orth(Gap(w), Double(w.curr)) && Orth(Gap(w), Double(w.prev))
    ensures (Gap(w).0 % 2 == 1) != (Gap(w).1 % 2 == 1)
  {
  }

  /** The cells a walker marks over `n` rounds, before each increment. */
  ghost function Trail(grid: seq<string>, w: Walker, n: nat): set<Coord>
    requires WfGrid(grid)
    decreases n
  {
    Marks(w) + if n == 0 then {} else match Increment(grid, w)
      case None => {}
      case Some(v) => Trail(grid, v, n - 1)
  }

  /** The loop of `part_one`: both walkers mark their cells and step until
      they stand on the same tile; the result is the number of rounds, the
      final walkers and every marked cell.  `fuel` bounds the rounds. */
  function Walk(grid: seq<string>, a: Walker, b: Walker, marked: set<Coord>, fuel: nat)
    : (r: Option<(nat, Walker, Walker, set<Coord>)>)
    requires WfGrid(grid)
    ensures r.Some? ==> r.value.0 <= fuel && r.value.1.curr == r.value.2.curr
    decreases fuel
  {
    if a.curr == b.curr then Some((0, a, b, marked + Marks(a) + Marks(b)))
    else if fuel == 0 then None
    else
      var a' :- Increment(grid, a);
      var b' :- Increment(grid, b);
      var (n, a2, b2, m) :- Walk(grid, a', b', marked + Marks(a) + Marks(b), fuel - 1);
      Some((n + 1, a2, b2, m))
  }

  /** A walker that stands off the field or off a pipe before the walkers
      meet makes the loop panic. */
  lemma WalkBroken(grid: seq<string>, a: Walker, b: Walker, marked: set<Coord>, fuel: nat)
    requires WfGrid(grid) && a.curr != b.curr
    requires Increment(grid, a).None? || Increment(grid, b).None?
    ensures Walk(grid, a, b, marked, fuel).None?
  {
  }

  /** The walk stops after the first round where the walkers meet: both
      have walked that many increments, and they stood on different tiles
      after every earlier round; the marked cells are both trails. */
  lemma {:induction false} WalkFirstMeeting(grid: seq<string>, a: Walker, b: Walker, marked: set<Coord>, fuel: nat)
    requires WfGrid(grid) && Walk(grid, a, b, marked, fuel).Some?
    ensures var (n, a2, b2, m) := Walk(grid, a, b, marked, fuel).value;
      Walks(grid, a, n) == Some(a2) && Walks(grid, b, n) == Some(b2) &&
      (forall k :: 0 <= k < n ==> Apart(grid, a, b, k)) &&
      m == marked + Trail(grid, a, n) + Trail(grid, b, n)
    decreases fuel
  {
    if a.curr != b.curr {
      var a' := Increment(grid, a).value;
      var b' := Increment(grid, b).value;
      var m0 := marked + Marks(a) + Marks(b);
      WalkFirstMeeting(grid, a', b', m0, fuel - 1);
      var (n, a2, b2, m) := Walk(grid, a', b', m0, fuel - 1).value;
      ApartShift(grid, a, b, n);
      assert Walks(grid, a, n + 1) == Walks(grid, a', n);
      assert Walks(grid, b, n + 1) == Walks(grid, b', n);
      assert Trail(grid, a, n + 1) == Marks(a) + Trail(grid, a', n);
      assert Trail(grid, b, n + 1) == Marks(b) + Trail(grid, b', n);
    }
  }

  /** Apart for `n` rounds after one step apart is apart for `n + 1`
      rounds. */
  lemma ApartShift(grid: seq<string>, a: Walker, b: Walker, n: nat)
    requires WfGrid(grid) && a.curr != b.curr && Increment(grid, a).Some? && Increment(grid, b).Some?
    requires forall k :: 0 <= k < n ==> Apart(grid, Increment(grid, a).value, Increment(grid, b).value, k)
    ensures forall k :: 0 <= k < n + 1 ==> Apart(grid, a, b, k)
  {
    var a', b' := Increment(grid, a).value, Increment(grid, b).value;
    forall k | 0 <= k < n + 1
      ensures Apart(grid, a, b, k)
    {
      if k > 0 {
        assert Apart(grid, a', b', k - 1);
        assert Walks(grid, a, k) == Walks(grid, a', k - 1);
        assert Walks(grid, b, k) == Walks(grid, b', k - 1);
      }
    }
  }

  /** After `k` rounds both walkers are standing, on different tiles. */
  ghost predicate Apart(grid: seq<string>, a: Walker, b: Walker, k: nat)
    requires WfGrid(grid)
  {
    Walks(grid, a, k).Some? && Walks(grid, b, k).Some? && Walks(grid, a, k).value.curr != Walks(grid, b, k).value.curr
  }

  // ---------------------------------------------------------------------
  // The start

  /** The row-major index of the first 'S' from index `k` on. */
  function FindStart(grid: seq<string>, k: nat): (r: Option<Coord>)
    requires WfGrid(grid) && k <= Size * Size
    ensures r.Some? ==> InRange(r.value, Size) && At(grid, r.value) == 'S'
    ensures r.None? <==> forall j :: k <= j < Size * Size ==> At(grid, Cell(j)) != 'S'
    ensures r.Some? ==> forall j :: k <= j < Size * Size && Cell(j).0 * Size + Cell(j).1 < r.value.0 * Size + r.value.1 ==> At(grid, Cell(j)) != 'S'
    decreases Size * Size - k
  {
    if k == Size * Size then None
    else if At(grid, Cell(k)) == 'S' then Some(Cell(k))
    else FindStart(grid, k + 1)
  }

  /** The tile of row-major index `j`. */
  function Cell(j: nat): (c: Coord)
    requires j < Size * Size
    ensures InRange(c, Size) && c.0 * Size + c.1 == j
  {
    (j / Size, j % Size)
  }

  /** The neighbours of `s` whose pipe leads back to `s`. */
  function Connected(grid: seq<string>, s: Coord, cands: seq<Coord>): (r: seq<Coord>)
    requires WfGrid(grid) && forall i :: 0 <= i < |cands| ==> InRange(cands[i], Size)
    ensures forall q :: q in r <==> q in cands && LeadsTo(grid, q, s)
  {
    if |cands| == 0 then []
    else
      var rest := Connected(grid, s, cands[1..]);
      assert forall q :: q in cands <==> q == cands[0] || q in cands[1..];
      if LeadsTo(grid, cands[0], s) then [cands[0]] + rest else rest
  }

  /** The pipe on `q` has `s` as one of its ends. */
  predicate LeadsTo(grid: seq<string>, q: Coord, s: Coord)
    requires WfGrid(grid) && InRange(q, Size)
  {
    match Ends(grid, q)
    case None => false
    case Some((a, b)) => a == s || b == s
  }

  /** `Position::start_pair`: the first 'S', and a walker onto each
      neighbour whose pipe leads back to it; `None` unless there are
      exactly two. */
  function StartPair(grid: seq<string>): (r: Option<(Walker, Walker)>)
    requires WfGrid(grid)
    ensures r.Some? <==> FindStart(grid, 0).Some? && |Qualifying(grid, FindStart(grid, 0).value)| == 2
    ensures r.Some? ==> Some(r.value.0.prev) == FindStart(grid, 0) && r.value.1.prev == r.value.0.prev
    ensures r.Some? ==> {r.value.0.curr, r.value.1.curr} == Qualifying(grid, r.value.0.prev)
    ensures r.Some? ==> r.value.0.curr != r.value.1.curr
    ensures r.Some? ==> InRange(r.value.0.prev, Size) && At(grid, r.value.0.prev) == 'S'
    ensures r.Some? ==> Leaves(grid, r.value.0) && Leaves(grid, r.value.1)
  {
    var s :- FindStart(grid, 0);
    AdjInRange(s, Size);
    var cs := Connected(grid, s, Adj(s, Size));
    ConnectedQualifying(grid, s);
    if |cs| != 2 then None
    else
      StartPicks(grid, s, cs);
      Some((Walker(s, cs[0]), Walker(s, cs[1])))
  }

  /** The kept neighbours are the qualifying ones, each once. */
  lemma ConnectedQualifying(grid: seq<string>, s: Coord)
    requires WfGrid(grid) && InRange(s, Size)
    requires forall i :: 0 <= i < |Adj(s, Size)| ==> InRange(Adj(s, Size)[i], Size)
    ensures var cs := Connected(grid, s, Adj(s, Size));
      |cs| == |Qualifying(grid, s)| && (|cs| == 2 ==> {cs[0], cs[1]} == Qualifying(grid, s))
  {
    var cs := Connected(grid, s, Adj(s, Size));
    AdjDistinct(s, Size);
    ConnectedDistinct(grid, s, Adj(s, Size));
    DistinctCard(cs);
    assert (set q | q in cs) == Qualifying(grid, s);
    if |cs| == 2 {
      PairMembers(cs);
    }
  }

  lemma PairMembers(cs: seq<Coord>)
    requires |cs| == 2
    ensures (set q | q in cs) == {cs[0], cs[1]}
  {
    assert cs == [cs[0], cs[1]];
  }

  /** The neighbours of `s` whose pipe leads back to it. */
  ghost function Qualifying(grid: seq<string>, s: Coord): set<Coord>
    requires WfGrid(grid)
  {
    set q | q in Adj(s, Size) && LeadsTo(grid, q, s)
  }

  lemma AdjInRange(c: Coord, lim: int)
    ensures forall i :: 0 <= i < |Adj(c, lim)| ==> InRange(Adj(c, lim)[i], lim)
  {
    var ns := Adj(c, lim);
    assert forall i :: 0 <= i < |ns| ==> ns[i] in ns;
  }

  /** The two connected neighbours of the start are distinct tiles, each
      leading back to it. */
  lemma StartPicks(grid: seq<string>, s: Coord, cs: seq<Coord>)
    requires WfGrid(grid) && InRange(s, Size)
    requires forall i :: 0 <= i < |Adj(s, Size)| ==> InRange(Adj(s, Size)[i], Size)
    requires cs == Connected(grid, s, Adj(s, Size)) && |cs| == 2
    ensures cs[0] != cs[1] && Leaves(grid, Walker(s, cs[0])) && Leaves(grid, Walker(s, cs[1]))
  {
    var ns := Adj(s, Size);
    assert cs[0] in cs && cs[1] in cs;
    assert cs[0] in ns && cs[1] in ns;
    StartDistinct(grid, s, ns);
  }

  /** A walker leaving the start: onto a neighbouring tile whose pipe
      leads back. */
  predicate Leaves(grid: seq<string>, w: Walker)
    requires WfGrid(grid)
  {
    InRange(w.curr, Size) && Orth(w.prev, w.curr) && LeadsTo(grid, w.curr, w.prev)
  }

  lemma StartDistinct(grid: seq<string>, s: Coord, ns: seq<Coord>)
    requires WfGrid(grid) && ns == Adj(s, Size)
    ensures var cs := Connected(grid, s, ns); |cs| == 2 ==> cs[0] != cs[1]
  {
    AdjDistinct(s, Size);
    ConnectedDistinct(grid, s, ns);
  }

  predicate Distinct(s: seq<Coord>)
  {
    forall i, j :: 0 <= i < j < |s| ==> s[i] != s[j]
  }

  lemma AdjDistinct(c: Coord, lim: int)
    ensures Distinct(Adj(c, lim))
  {
  }

  lemma {:induction false} ConnectedDistinct(grid: seq<string>, s: Coord, cands: seq<Coord>)
    requires WfGrid(grid) && (forall i :: 0 <= i < |cands| ==> InRange(cands[i], Size)) && Distinct(cands)
    ensures Distinct(Connected(grid, s, cands))
    decreases |cands|
  {
    if |cands| > 0 {
      ConnectedDistinct(grid, s, cands[1..]);
      assert cands[0] !in cands[1..];
    }
  }

  // ---------------------------------------------------------------------
  // Outside cells

  /** `on_edge`: some component of a doubled cell is outside `1..280`. */
  predicate OnEdge(c: Coord)
  {
    !(1 <= c.0 < Lim) || !(1 <= c.1 < Lim)
  }

  /** Every cell of the doubled grid. */
  ghost function Box(): set<Coord>
  {
    set r: int, c: int | 0 <= r < Lim && 0 <= c < Lim :: (r, c)
  }

  ghost function Unvisited(visited: set<Coord>): nat
  {
    |Box() - visited|
  }

  lemma UnvisitedShrinks(visited: set<Coord>, c: Coord)
    requires InRange(c, Lim) && c !in visited
    ensures Unvisited(visited + {c}) < Unvisited(visited)
  {
    assert c == (c.0, c.1);
    var before := Box() - visited;
    assert c in before;
    assert Box() - (visited + {c}) == before - {c};
  }

  lemma UnvisitedMono(a: set<Coord>, b: set<Coord>)
    requires a <= b
    ensures Unvisited(b) <= Unvisited(a)
  {
    SubsetCard(Box() - b, Box() - a);
  }

  /** A run of free cells of the doubled grid, each next to the one
      before, ending on the border. */
  ghost predicate EscapeRoute(pipes: set<Coord>, s: seq<Coord>)
  {
    |s| >= 1 && OnEdge(s[|s| - 1]) &&
    (forall i :: 0 <= i < |s| ==> InRange(s[i], Lim) && s[i] !in pipes) &&
    forall i :: 0 <= i < |s| - 1 ==> Orth(s[i], s[i + 1])
  }

  ghost predicate Escapes(pipes: set<Coord>, c: Coord)
  {
    exists s :: EscapeRoute(pipes, s) && s[0] == c
  }

  lemma EscapesStep(pipes: set<Coord>, c: Coord, d: Coord)
    requires InRange(c, Lim) && c !in pipes && Orth(c, d) && Escapes(pipes, d)
    ensures Escapes(pipes, c)
  {
    var s :| EscapeRoute(pipes, s) && s[0] == d;
    var t := [c] + s;
    assert forall i :: 1 <= i < |t| ==> t[i] == s[i - 1];
    assert EscapeRoute(pipes, t);
  }

  /** The cells `v` gained over `before` are free, off the border, and
      every neighbour of them is in `v` or on the loop. */
  ghost predicate Sealed(pipes: set<Coord>, before: set<Coord>, v: set<Coord>)
  {
    forall q :: q in v && q !in before ==> SealedCell(pipes, v, q)
  }

  ghost predicate SealedCell(pipes: set<Coord>, v: set<Coord>, q: Coord)
  {
    q !in pipes && !OnEdge(q) && forall n :: n in Adj(q, Lim) ==> n in v || n in pipes
  }

  lemma SealedTrans(pipes: set<Coord>, a: set<Coord>, b: set<Coord>, c: set<Coord>)
    requires a <= b <= c && Sealed(pipes, a, b) && Sealed(pipes, b, c)
    ensures Sealed(pipes, a, c)
  {
    forall q | q in c && q !in a
      ensures SealedCell(pipes, c, q)
    {
      if q !in b {
        assert SealedCell(pipes, c, q);
      } else {
        assert SealedCell(pipes, b, q);
      }
    }
  }

  /** A free, inner cell whose neighbours are all in `v` or on the loop
      joins the sealed cells. */
  lemma SealAdd(pipes: set<Coord>, visited: set<Coord>, c: Coord, v: set<Coord>)
    requires c !in pipes && !OnEdge(c) && c in v && visited <= v
    requires Sealed(pipes, visited + {c}, v)
    requires forall i :: 0 <= i < |Adj(c, Lim)| ==> Adj(c, Lim)[i] in v || Adj(c, Lim)[i] in pipes
    ensures Sealed(pipes, visited, v)
  {
    assert forall n :: n in Adj(c, Lim) ==> n in v || n in pipes;
    assert SealedCell(pipes, v, c);
  }

  /** `is_outside_recursive`: false on a visited or loop cell, true on a
      border cell; otherwise mark the cell and try its neighbours in turn.
      Returns the answer and the visited set.  True means the cell escapes;
      false means the new cells are sealed off from the border. */
  function Explore(pipes: set<Coord>, visited: set<Coord>, c: Coord): (r: (bool, set<Coord>))
    requires InRange(c, Lim) && Within(visited)
    ensures visited <= r.1 && Within(r.1)
    ensures r.0 ==> Escapes(pipes, c)
    ensures !r.0 ==> (c in r.1 || c in pipes) && Sealed(pipes, visited, r.1)
    decreases Unvisited(visited), 0, 0
  {
    if c in visited then (false, visited)
    else if c in pipes then (false, visited)
    else if OnEdge(c) then
      assert EscapeRoute(pipes, [c]);
      (true, visited)
    else
      UnvisitedShrinks(visited, c);
      var ns := Adj(c, Lim);
      AdjInRange(c, Lim);
      assert Within(visited + {c});
      var r := TryFrom(pipes, visited + {c}, ns, 0);
      if r.0 then
        assert Escapes(pipes, c) by {
          var i :| 0 <= i < |ns| && Escapes(pipes, ns[i]);
          assert ns[i] in ns;
          EscapesStep(pipes, c, ns[i]);
        }
        r
      else
        SealAdd(pipes, visited, c, r.1);
        r
  }

  /** Every cell of `s` is inside the doubled grid. */
  ghost predicate Within(s: set<Coord>)
  {
    forall q :: q in s ==> InRange(q, Lim)
  }

  /** The `any` over the neighbours `ns` of a cell, from the `k`-th on, each
      seeing the cells the earlier ones visited. */
  function TryFrom(pipes: set<Coord>, visited: set<Coord>, ns: seq<Coord>, k: nat): (r: (bool, set<Coord>))
    requires Within(visited) && forall i :: 0 <= i < |ns| ==> InRange(ns[i], Lim)
    requires k <= |ns|
    ensures visited <= r.1 && Within(r.1)
    ensures r.0 ==> exists i :: k <= i < |ns| && Escapes(pipes, ns[i])
    ensures !r.0 ==> Sealed(pipes, visited, r.1)
    ensures !r.0 ==> forall i :: k <= i < |ns| ==> ns[i] in r.1 || ns[i] in pipes
    decreases Unvisited(visited), 1, |ns| - k
  {
    if k == |ns| then (false, visited)
    else
      var r := Explore(pipes, visited, ns[k]);
      if r.0 then r
      else
        UnvisitedMono(visited, r.1);
        var r' := TryFrom(pipes, r.1, ns, k + 1);
        assert !r'.0 ==> Sealed(pipes, visited, r'.1) by {
          if !r'.0 {
            SealedTrans(pipes, visited, r.1, r'.1);
          }
        }
        r'
  }

  /** `is_outside`, from a fresh visited set. */
  function Outside(pipes: set<Coord>, c: Coord): bool
    requires InRange(c, Lim)
  {
    Explore(pipes, {}, c).0
  }

  /** A cell is outside exactly when a route of free cells leads from it to
      the border. */
  lemma OutsideIff(pipes: set<Coord>, c: Coord)
    requires InRange(c, Lim)
    ensures Outside(pipes, c) <==> Escapes(pipes, c)
  {
    var r := Explore(pipes, {}, c);
    if !r.0 && Escapes(pipes, c) {
      var s :| EscapeRoute(pipes, s) && s[0] == c;
      SealedRoute(pipes, r.1, s, |s| - 1);
      assert false;
    }
  }

  /** A route that starts in a sealed set never leaves it, so never reaches
      the border. */
  lemma {:induction false} SealedRoute(pipes: set<Coord>, v: set<Coord>, s: seq<Coord>, n: nat)
    requires Sealed(pipes, {}, v) && EscapeRoute(pipes, s) && s[0] in v && n < |s|
    ensures s[n] in v && !OnEdge(s[n])
    decreases n
  {
    if n > 0 {
      SealedRoute(pipes, v, s, n - 1);
      assert SealedCell(pipes, v, s[n - 1]);
      assert s[n] in Adj(s[n - 1], Lim);
    }
  }

  // ---------------------------------------------------------------------
  // Parsing and the answers

  /** Each of the first 140 lines must be exactly 140 bytes: the
      `try_into` an array panics otherwise. */
  function ParseInput(input: string): (r: Option<seq<string>>)
    ensures r.Some? <==> |Lines(input)| >= Size && forall k :: 0 <= k < Size ==> |Lines(input)[k]| == Size
    ensures r.Some? ==> WfGrid(r.value) && r.value == Lines(input)[..Size]
  {
    var lines := Lines(input);
    if |lines| < Size || exists k :: 0 <= k < Size && |lines[k]| != Size then None
    else Some(lines[..Size])
  }

  /** The most rounds the walk is allowed. */
  const Fuel: nat := 19600

  /** `part_one`: the steps to the far point (the rounds plus the first
      step off 'S'), and the loop on the doubled grid. */
  function PartOne(grid: seq<string>): (r: Option<(nat, set<Coord>)>)
    requires WfGrid(grid)
    ensures r.Some? ==> r.value.0 >= 1
    ensures r.Some? <==>
      StartPair(grid).Some? && MeetsWithin(grid, StartPair(grid).value.0, StartPair(grid).value.1, Fuel)
    ensures r.Some? ==> Meets(grid, StartPair(grid).value.0, StartPair(grid).value.1, r.value.0 - 1, r.value.1)
  {
    var (a, b) :- StartPair(grid);
    WalkDefined(grid, a, b, {Double(a.prev)}, Fuel);
    var (n, a2, b2, m) :- Walk(grid, a, b, {Double(a.prev)}, Fuel);
    WalkFirstMeeting(grid, a, b, {Double(a.prev)}, Fuel);
    Some((n + 1, m))
  }

  /** The walkers stand on the same tile after `n` rounds and on
      different tiles after every earlier one, and `marked` holds the
      doubled start and both trails. */
  ghost predicate Meets(grid: seq<string>, a: Walker, b: Walker, n: int, marked: set<Coord>)
    requires WfGrid(grid)
  {
    n >= 0 && MeetAt(grid, a, b, n) && marked == LoopCells(grid, a, b, n)
  }

  /** The walkers stand on the same tile after `n` rounds and on
      different tiles after every earlier one. */
  ghost predicate MeetAt(grid: seq<string>, a: Walker, b: Walker, n: nat)
    requires WfGrid(grid)
  {
    Walks(grid, a, n).Some? && Walks(grid, b, n).Some? &&
    Walks(grid, a, n).value.curr == Walks(grid, b, n).value.curr &&
    forall k :: 0 <= k < n ==> Apart(grid, a, b, k)
  }

  /** The walkers first meet within `fuel` rounds. */
  ghost predicate MeetsWithin(grid: seq<string>, a: Walker, b: Walker, fuel: nat)
    requires WfGrid(grid)
  {
    exists n: nat :: n <= fuel && MeetAt(grid, a, b, n)
  }

  /** The doubled start and the cells both walkers mark over `n` rounds:
      the loop on the doubled grid. */
  ghost function LoopCells(grid: seq<string>, a: Walker, b: Walker, n: nat): set<Coord>
    requires WfGrid(grid)
  {
    {Double(a.prev)} + Trail(grid, a, n) + Trail(grid, b, n)
  }

  /** When the walkers first meet after `n` rounds, the loop of `part_one`
      runs to that meeting, given at least `n` rounds of fuel. */
  lemma {:induction false} WalkComplete(grid: seq<string>, a: Walker, b: Walker, marked: set<Coord>, fuel: nat, n: nat)
    requires WfGrid(grid) && n <= fuel && MeetAt(grid, a, b, n)
    ensures Walk(grid, a, b, marked, fuel).Some?
    decreases fuel
  {
    if a.curr != b.curr {
      MeetAtShift(grid, a, b, n);
      var a', b' := Increment(grid, a).value, Increment(grid, b).value;
      WalkComplete(grid, a', b', marked + Marks(a) + Marks(b), fuel - 1, n - 1);
      WalkStep(grid, a, b, marked, fuel);
    }
  }

  /** Walkers apart, with fuel and both able to step, finish exactly when
      they finish from their next tiles. */
  lemma WalkStep(grid: seq<string>, a: Walker, b: Walker, marked: set<Coord>, fuel: nat)
    requires WfGrid(grid) && a.curr != b.curr && fuel > 0
    requires Increment(grid, a).Some? && Increment(grid, b).Some?
    ensures Walk(grid, a, b, marked, fuel).Some? <==>
      Walk(grid, Increment(grid, a).value, Increment(grid, b).value, marked + Marks(a) + Marks(b), fuel - 1).Some?
  {
  }

  /** Walkers apart now that first meet after `n` rounds first meet after
      `n - 1` rounds from their next tiles. */
  lemma MeetAtShift(grid: seq<string>, a: Walker, b: Walker, n: nat)
    requires WfGrid(grid) && a.curr != b.curr && MeetAt(grid, a, b, n)
    ensures n > 0 && Increment(grid, a).Some? && Increment(grid, b).Some?
    ensures MeetAt(grid, Increment(grid, a).value, Increment(grid, b).value, n - 1)
  {
    WalksFirst(grid, a, n);
    WalksFirst(grid, b, n);
    var a', b' := Increment(grid, a).value, Increment(grid, b).value;
    forall k | 0 <= k < n - 1
      ensures Apart(grid, a', b', k)
    {
      assert Apart(grid, a, b, k + 1);
      WalksFirst(grid, a, k + 1);
      WalksFirst(grid, b, k + 1);
    }
  }

  /** A walk of `n > 0` increments is the first increment followed by
      `n - 1` more. */
  lemma WalksFirst(grid: seq<string>, w: Walker, n: nat)
    requires WfGrid(grid) && n > 0 && Walks(grid, w, n).Some?
    ensures Increment(grid, w).Some? && Walks(grid, w, n) == Walks(grid, Increment(grid, w).value, n - 1)
  {
  }

  /** The loop of `part_one` finishes exactly when the walkers first meet
      within the fuel. */
  lemma WalkDefined(grid: seq<string>, a: Walker, b: Walker, marked: set<Coord>, fuel: nat)
    requires WfGrid(grid)
    ensures Walk(grid, a, b, marked, fuel).Some? <==> MeetsWithin(grid, a, b, fuel)
  {
    if Walk(grid, a, b, marked, fuel).Some? {
      WalkFirstMeeting(grid, a, b, marked, fuel);
      var n := Walk(grid, a, b, marked, fuel).value.0;
      assert MeetAt(grid, a, b, n);
    }
    if MeetsWithin(grid, a, b, fuel) {
      var n: nat :| n <= fuel && MeetAt(grid, a, b, n);
      WalkComplete(grid, a, b, marked, fuel, n);
    }
  }

  /** The even cells of the doubled grid, row-major: `2 y, 2 x` for the
      tile `(y, x)`. */
  function Candidate(j: nat): (c: Coord)
    requires j < Size * Size
    ensures InRange(c, Lim) && c.0 % 2 == 0 && c.1 % 2 == 0
    ensures c == Double(Cell(j))
  {
    Double(Cell(j))
  }

  /** Candidate `j` is enclosed: not on the loop, and no route leads
      from it to the border. */
  ghost predicate Enclosed(pipes: set<Coord>, j: nat)
    requires j < Size * Size
  {
    Candidate(j) !in pipes && !Escapes(pipes, Candidate(j))
  }

  /** The enclosed candidates below `n`. */
  ghost function EnclosedBelow(pipes: set<Coord>, n: nat): set<nat>
    requires n <= Size * Size
  {
    set j: nat | j < n && Enclosed(pipes, j)
  }

  lemma EnclosedStep(pipes: set<Coord>, n: nat)
    requires 0 < n <= Size * Size
    ensures EnclosedBelow(pipes, n) ==
      EnclosedBelow(pipes, n - 1) + (if Enclosed(pipes, n - 1) then {n - 1} else {})
  {
  }

  /** The enclosed count among the first `n` candidates. */
  function CountInside(pipes: set<Coord>, n: nat): (r: nat)
    requires n <= Size * Size
    ensures r == |EnclosedBelow(pipes, n)|
  {
    if n == 0 then
      assert EnclosedBelow(pipes, n) == {};
      0
    else
      var c := Candidate(n - 1);
      OutsideIff(pipes, c);
      var inside := c !in pipes && !Outside(pipes, c);
      EnclosedStep(pipes, n);
      CountInside(pipes, n - 1) + (if inside then 1 else 0)
  }

  /** `part_two`: the tiles whose doubled cell is neither on the loop nor
      outside. */
  function PartTwo(pipes: set<Coord>): (r: nat)
    ensures r == |EnclosedBelow(pipes, Size * Size)|
    ensures r <= Size * Size
  {
    BelowCard(EnclosedBelow(pipes, Size * Size), Size * Size);
    CountInside(pipes, Size * Size)
  }

  /** Both answers; `None` where the program panics or the walk runs out
      of fuel. */
  function Solve(input: string): (r: Option<(nat, nat)>)
    ensures r.Some? <==> ParseInput(input).Some? && PartOne(ParseInput(input).value).Some?
    ensures r.Some? ==>
      var one := PartOne(ParseInput(input).value).value;
      r.value.0 == one.0 && r.value.1 == PartTwo(one.1)
  {
    var grid :- ParseInput(input);
    var one :- PartOne(grid);
    Some((one.0, PartTwo(one.1)))
  }
}
