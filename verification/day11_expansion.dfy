/** aoc-11: galaxies ('#') in an image.  Every row and every column that
    holds no galaxy is really `multiplier` rows or columns wide; the answer
    is the sum, over all pairs of galaxies, of the Manhattan distance in the
    expanded universe. */
module CosmicExpansion {
  import opened Text
  import Arith

  /** Rows and columns are looked at for emptiness in `0 .. 140`. */
  const GridSize: nat := 140

  datatype Coord = Coord(row: nat, col: nat)

  /** `abs_diff`: the gap between the two, whichever is larger. */
  function AbsDiff(a: nat, b: nat): (d: nat)
    ensures a + d == b || b + d == a
  {
    if a >= b then a - b else b - a
  }

  /** `distance`: the Manhattan distance. */
  function Distance(a: Coord, b: Coord): nat
  {
    AbsDiff(a.row, b.row) + AbsDiff(a.col, b.col)
  }

  /** The distance is symmetric and zero exactly between equal
      coordinates. */
  lemma DistanceMetric(a: Coord, b: Coord)
    ensures Distance(a, b) == Distance(b, a)
    ensures Distance(a, b) == 0 <==> a == b
  {
  }

  // ---------------------------------------------------------------------
  // Parsing

  /** The galaxies of row `i`, left to right, among the first `n` bytes. */
  function RowGalaxies(i: nat, line: string, n: nat): (gs: seq<Coord>)
    requires n <= |line|
    ensures forall c :: c in gs <==> c.row == i && c.col < n && line[c.col] == '#'
    ensures forall k :: 0 <= k < |gs| - 1 ==> gs[k].col < gs[k + 1].col
    ensures |gs| > 0 ==> gs[|gs| - 1].col < n
  {
    if n == 0 then []
    else
      var front := RowGalaxies(i, line, n - 1);
      if line[n - 1] == '#' then front + [Coord(i, n - 1)] else front
  }

  /** The galaxies of the first `n` lines in reading order. */
  function Galaxies(lines: seq<string>, n: nat): (gs: seq<Coord>)
    requires n <= |lines|
    ensures forall c :: c in gs <==> c.row < n && c.col < |lines[c.row]| && lines[c.row][c.col] == '#'
    ensures forall k :: 0 <= k < |gs| - 1 ==> Before(gs[k], gs[k + 1])
  {
    if n == 0 then []
    else
      var front := Galaxies(lines, n - 1);
      var row := RowGalaxies(n - 1, lines[n - 1], |lines[n - 1]|);
      assert |front| > 0 && |row| > 0 ==> front[|front| - 1] in front && row[0] in row;
      front + row
  }

  /** `a` comes before `b` in reading order: an earlier row, or the same
      row further left. */
  predicate Before(a: Coord, b: Coord)
  {
    a.row < b.row || (a.row == b.row && a.col < b.col)
  }

  /** The indices in `0 .. n` that no galaxy's coordinate (row when
      `rows`, else column) equals, in increasing order. */
  function Empty(gs: seq<Coord>, rows: bool, n: nat): (e: seq<nat>)
    ensures forall x: nat :: x in e <==> x < n && forall g :: g in gs ==> Axis(g, rows) != x
    ensures forall k :: 0 <= k < |e| - 1 ==> e[k] < e[k + 1]
    ensures |e| > 0 ==> e[|e| - 1] < n
  {
    if n == 0 then []
    else
      var front := Empty(gs, rows, n - 1);
      if forall g :: g in gs ==> Axis(g, rows) != n - 1 then front + [n - 1] else front
  }

  function Axis(g: Coord, rows: bool): nat
  {
    if rows then g.row else g.col
  }

  datatype Image = Image(galaxies: seq<Coord>, emptyRows: seq<nat>, emptyCols: seq<nat>)

  /** `parse_input`: the galaxies are the '#' bytes of the lines, in
      reading order, and the empty rows and columns those of `0 .. 140`
      that no galaxy uses. */
  function ParseInput(input: string): (img: Image)
    ensures var lines := Lines(input);
      forall c :: c in img.galaxies <==> c.row < |lines| && c.col < |lines[c.row]| && lines[c.row][c.col] == '#'
    ensures forall k :: 0 <= k < |img.galaxies| - 1 ==> Before(img.galaxies[k], img.galaxies[k + 1])
    ensures forall x: nat :: x in img.emptyRows <==> x < GridSize && forall g :: g in img.galaxies ==> g.row != x
    ensures forall x: nat :: x in img.emptyCols <==> x < GridSize && forall g :: g in img.galaxies ==> g.col != x
  {
    var lines := Lines(input);
    var gs := Galaxies(lines, |lines|);
    Image(gs, Empty(gs, true, GridSize), Empty(gs, false, GridSize))
  }

  // ---------------------------------------------------------------------
  // Expanded distances

  /** How many of `lo .. hi` are in `empty`: the filtered range of
      `extra_rows` / `extra_cols`. */
  function Extra(empty: seq<nat>, lo: nat, hi: nat): (k: nat)
    ensures k <= if hi >= lo then hi - lo else 0
    decreases hi
  {
    if hi <= lo then 0 else Extra(empty, lo, hi - 1) + (if hi - 1 in empty then 1 else 0)
  }

  /** `(b..a).chain(a..b)`: whichever of the two ranges is not empty. */
  function Between(empty: seq<nat>, a: nat, b: nat): nat
  {
    Extra(empty, b, a) + Extra(empty, a, b)
  }

  /** The expanded distance of one pair: never less than the plain
      distance, and equal to it at multiplier 1. */
  function Expanded(img: Image, a: Coord, b: Coord, multiplier: nat): (r: nat)
    requires multiplier >= 1
    ensures r >= Distance(a, b)
    ensures multiplier == 1 ==> r == Distance(a, b)
  {
    var x := Between(img.emptyRows, a.row, b.row) + Between(img.emptyCols, a.col, b.col);
    Arith.MulMono(x, 0, multiplier - 1);
    Distance(a, b) + x * (multiplier - 1)
  }

  /** A pair's expanded distance is symmetric, 0 for a galaxy with itself,
      the plain distance at multiplier 1, and grows with the multiplier. */
  lemma ExpandedProperties(img: Image, a: Coord, b: Coord, m: nat, m': nat)
    requires 1 <= m <= m'
    ensures Expanded(img, a, b, m) == Expanded(img, b, a, m)
    ensures Expanded(img, a, a, m) == 0
    ensures Expanded(img, a, b, 1) == Distance(a, b)
    ensures Expanded(img, a, b, m) <= Expanded(img, a, b, m')
  {
    var x := Between(img.emptyRows, a.row, b.row) + Between(img.emptyCols, a.col, b.col);
    assert x * (m - 1) <= x * (m' - 1) by {
      Arith.MulMono(x, m - 1, m' - 1);
    }
  }

  /** Counting `lo .. hi` is counting `0 .. hi` less `0 .. lo`. */
  lemma {:induction false} ExtraSplit(empty: seq<nat>, lo: nat, hi: nat)
    requires lo <= hi
    ensures Extra(empty, 0, hi) == Extra(empty, 0, lo) + Extra(empty, lo, hi)
    decreases hi
  {
    if hi > lo {
      ExtraSplit(empty, lo, hi - 1);
    }
  }

  /** Where coordinate `x` lands once every empty index below it has grown
      to `multiplier` wide. */
  function Stretch(empty: seq<nat>, x: nat, multiplier: nat): nat
    requires multiplier >= 1
  {
    x + Extra(empty, 0, x) * (multiplier - 1)
  }

  /** The span between two coordinates in the stretched universe is the
      span counted by `extra_rows` / `extra_cols`. */
  lemma StretchSpan(empty: seq<nat>, a: nat, b: nat, m: nat)
    requires m >= 1
    ensures AbsDiff(Stretch(empty, a, m), Stretch(empty, b, m)) == AbsDiff(a, b) + Between(empty, a, b) * (m - 1)
  {
    if a <= b {
      ExtraSplit(empty, a, b);
      Distribute(Extra(empty, 0, a), Extra(empty, a, b), m - 1);
    } else {
      ExtraSplit(empty, b, a);
      Distribute(Extra(empty, 0, b), Extra(empty, b, a), m - 1);
    }
  }

  lemma Distribute(x: nat, y: nat, k: nat)
    ensures (x + y) * k == x * k + y * k
  {
  }

  /** The expanded distance is the Manhattan distance between the
      galaxies' positions in the expanded universe. */
  lemma ExpandedIsStretchedDistance(img: Image, a: Coord, b: Coord, m: nat)
    requires m >= 1
    ensures Expanded(img, a, b, m) ==
      Distance(Coord(Stretch(img.emptyRows, a.row, m), Stretch(img.emptyCols, a.col, m)),
               Coord(Stretch(img.emptyRows, b.row, m), Stretch(img.emptyCols, b.col, m)))
  {
    StretchSpan(img.emptyRows, a.row, b.row, m);
    StretchSpan(img.emptyCols, a.col, b.col, m);
    Distribute(Between(img.emptyRows, a.row, b.row), Between(img.emptyCols, a.col, b.col), m - 1);
  }

  // ---------------------------------------------------------------------
  // The sum over pairs

  /** The expanded distances from `c` to every galaxy of `others`. */
  function RowSum(img: Image, c: Coord, others: seq<Coord>, m: nat): nat
    requires m >= 1
  {
    if |others| == 0 then 0 else Expanded(img, c, others[0], m) + RowSum(img, c, others[1..], m)
  }

  /** `distances`: for every galaxy `i`, the sum over `galaxies[i..]`, the
      galaxy itself included. */
  function Distances(img: Image, gs: seq<Coord>, m: nat): nat
    requires m >= 1
  {
    if |gs| == 0 then 0 else RowSum(img, gs[0], gs, m) + Distances(img, gs[1..], m)
  }

  /** The same sum over the pairs `i < j` only. */
  function StrictDistances(img: Image, gs: seq<Coord>, m: nat): nat
    requires m >= 1
  {
    if |gs| == 0 then 0 else RowSum(img, gs[0], gs[1..], m) + StrictDistances(img, gs[1..], m)
  }

  /** Each galaxy paired with itself adds 0, so `distances` is the sum over
      the unordered pairs of distinct positions in the list. */
  lemma {:induction false} DistancesStrict(img: Image, gs: seq<Coord>, m: nat)
    requires m >= 1
    ensures Distances(img, gs, m) == StrictDistances(img, gs, m)
    decreases |gs|
  {
    if |gs| > 0 {
      ExpandedProperties(img, gs[0], gs[0], m, m);
      DistancesStrict(img, gs[1..], m);
    }
  }

  /** A larger multiplier never shrinks the sum. */
  lemma {:induction false} DistancesMonotone(img: Image, gs: seq<Coord>, m: nat, m': nat)
    requires 1 <= m <= m'
    ensures Distances(img, gs, m) <= Distances(img, gs, m')
    decreases |gs|
  {
    if |gs| > 0 {
      RowSumMonotone(img, gs[0], gs, m, m');
      DistancesMonotone(img, gs[1..], m, m');
    }
  }

  lemma {:induction false} RowSumMonotone(img: Image, c: Coord, others: seq<Coord>, m: nat, m': nat)
    requires 1 <= m <= m'
    ensures RowSum(img, c, others, m) <= RowSum(img, c, others, m')
    decreases |others|
  {
    if |others| > 0 {
      ExpandedProperties(img, c, others[0], m, m');
      RowSumMonotone(img, c, others[1..], m, m');
    }
  }

  /** Appending a galaxy to the others adds its expanded distance. */
  lemma {:induction false} RowSumAppend(img: Image, c: Coord, others: seq<Coord>, x: Coord, m: nat)
    requires m >= 1
    ensures RowSum(img, c, others + [x], m) == RowSum(img, c, others, m) + Expanded(img, c, x, m)
    decreases |others|
  {
    if |others| > 0 {
      assert (others + [x])[1..] == others[1..] + [x];
      RowSumAppend(img, c, others[1..], x, m);
    }
  }

  /** The sum over unordered pairs `i < j` of list positions, built from
      the last galaxy back: every galaxy is paired with all that come
      before it. */
  function PairTotal(img: Image, gs: seq<Coord>, m: nat): nat
    requires m >= 1
  {
    if |gs| == 0 then 0
    else
      var front := gs[..|gs| - 1];
      PairTotal(img, front, m) + RowSum(img, gs[|gs| - 1], front, m)
  }

  /** The galaxies before `x` paired with `x`, from either side. */
  lemma {:induction false} RowSumSwap(img: Image, x: Coord, gs: seq<Coord>, m: nat)
    requires m >= 1
    ensures RowSum(img, x, gs, m) == Towards(img, gs, x, m)
    decreases |gs|
  {
    if |gs| > 0 {
      ExpandedProperties(img, x, gs[0], m, m);
      RowSumSwap(img, x, gs[1..], m);
    }
  }

  /** The expanded distances from every galaxy of `gs` to `x`. */
  function Towards(img: Image, gs: seq<Coord>, x: Coord, m: nat): nat
    requires m >= 1
  {
    if |gs| == 0 then 0 else Expanded(img, gs[0], x, m) + Towards(img, gs[1..], x, m)
  }

  /** Appending a galaxy to the list adds its distances to all the others. */
  lemma {:induction false} StrictAppend(img: Image, gs: seq<Coord>, x: Coord, m: nat)
    requires m >= 1
    ensures StrictDistances(img, gs + [x], m) == StrictDistances(img, gs, m) + Towards(img, gs, x, m)
    decreases |gs|
  {
    if |gs| > 0 {
      assert (gs + [x])[1..] == gs[1..] + [x];
      RowSumAppend(img, gs[0], gs[1..], x, m);
      StrictAppend(img, gs[1..], x, m);
    } else {
      assert (gs + [x])[1..] == [];
    }
  }

  /** `distances` is the sum of the expanded distances over all unordered
      pairs of distinct list positions, each counted once. */
  lemma DistancesArePairs(img: Image, gs: seq<Coord>, m: nat)
    requires m >= 1
    ensures Distances(img, gs, m) == PairTotal(img, gs, m)
  {
    DistancesStrict(img, gs, m);
    StrictIsPairs(img, gs, m);
  }

  /** Both orders of summing the pairs agree. */
  lemma {:induction false} StrictIsPairs(img: Image, gs: seq<Coord>, m: nat)
    requires m >= 1
    ensures StrictDistances(img, gs, m) == PairTotal(img, gs, m)
    decreases |gs|
  {
    if |gs| > 0 {
      var front, x := gs[..|gs| - 1], gs[|gs| - 1];
      assert front + [x] == gs;
      StrictAppend(img, front, x, m);
      RowSumSwap(img, x, front, m);
      StrictIsPairs(img, front, m);
    }
  }

  /** `distances(&input, 2)`: the sum over pairs of galaxies. */
  function PartOne(input: string): (r: nat)
    ensures r == PairTotal(ParseInput(input), ParseInput(input).galaxies, 2)
  {
    var img := ParseInput(input);
    DistancesArePairs(img, img.galaxies, 2);
    Distances(img, img.galaxies, 2)
  }

  /** `distances(&input, 1000000)`: never less than part one. */
  function PartTwo(input: string): (r: nat)
    ensures r == PairTotal(ParseInput(input), ParseInput(input).galaxies, 1000000)
    ensures r >= PartOne(input)
  {
    var img := ParseInput(input);
    DistancesArePairs(img, img.galaxies, 1000000);
    DistancesMonotone(img, img.galaxies, 2, 1000000);
    Distances(img, img.galaxies, 1000000)
  }
}
