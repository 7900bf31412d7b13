/** aoc-03: a 140 × 140 engine schematic.  Every maximal run of digits in a
    row is a number; a number is a part number when a cell around it is not
    '.', and a '*' touched by two numbers is a gear whose ratio is their
    product.  One row-by-row scan computes both sums. */
module GearRatios {
  import opened Wrappers
  import opened Text
  import Seqs

  /** The schematic is `Size` × `Size` cells. */
  const Size: nat := 140

  /** (row, column). */
  type Cell = (nat, nat)

  predicate WfGrid(grid: seq<string>)
  {
    |grid| == Size && forall r :: 0 <= r < Size ==> |grid[r]| == Size
  }

  /** A run of a row: columns `start` up to, not including, `end`. */
  datatype Run = Run(row: nat, start: nat, end: nat)

  /** `run` is a maximal run of digits of `line`. */
  predicate MaximalRun(line: string, run: Run)
  {
    run.start < run.end <= |line| &&
    (forall k :: run.start <= k < run.end ==> IsDigit(line[k])) &&
    (run.start == 0 || !IsDigit(line[run.start - 1])) &&
    (run.end == |line| || !IsDigit(line[run.end]))
  }

  // ---------------------------------------------------------------------
  // The scan

  /** The inner loop: from `i` on, the first column that is not a digit,
      or the end of the row. */
  function RunEnd(line: string, i: nat): (e: nat)
    requires i <= |line|
    ensures i <= e <= |line|
    ensures forall k :: i <= k < e ==> IsDigit(line[k])
    ensures e == |line| || !IsDigit(line[e])
    decreases |line| - i
  {
    if i < |line| && IsDigit(line[i]) then RunEnd(line, i + 1) else i
  }

  /** The scan may resume at `col`: it is not in the middle of a run. */
  predicate Boundary(line: string, col: nat)
    requires col <= |line|
  {
    col == 0 || col == |line| || !IsDigit(line[col - 1]) || !IsDigit(line[col])
  }

  /** The outer loop over one row from column `col`: the runs it finds, in
      order, each resumed after at its end. */
  function RowRuns(line: string, row: nat, col: nat): (r: seq<Run>)
    requires col <= |line| && Boundary(line, col)
    ensures forall k :: 0 <= k < |r| ==> r[k].row == row && col <= r[k].start && MaximalRun(line, r[k])
    ensures forall k :: 0 <= k < |r| - 1 ==> r[k].end < r[k + 1].start
    decreases |line| - col
  {
    if col == |line| then []
    else if IsDigit(line[col]) then
      var e := RunEnd(line, col + 1);
      [Run(row, col, e)] + RowRuns(line, row, e)
    else RowRuns(line, row, col + 1)
  }

  /** Every digit from `col` on lies in a run the scan finds. */
  lemma {:induction false} RowRunsCover(line: string, row: nat, col: nat, i: nat)
    requires col <= i < |line| && Boundary(line, col) && IsDigit(line[i])
    ensures exists k ::
      0 <= k < |RowRuns(line, row, col)| && RowRuns(line, row, col)[k].start <= i < RowRuns(line, row, col)[k].end
    decreases |line| - col
  {
    var r := RowRuns(line, row, col);
    if IsDigit(line[col]) {
      var e := RunEnd(line, col + 1);
      if i < e {
        assert r[0].start <= i < r[0].end;
      } else {
        RowRunsCover(line, row, e, i);
        var k :| 0 <= k < |RowRuns(line, row, e)| &&
          RowRuns(line, row, e)[k].start <= i < RowRuns(line, row, e)[k].end;
        assert r[k + 1] == RowRuns(line, row, e)[k];
      }
    } else {
      RowRunsCover(line, row, col + 1, i);
    }
  }

  /** The runs of rows `row` onwards, row by row. */
  function GridRuns(grid: seq<string>, row: nat): (r: seq<Run>)
    requires WfGrid(grid) && row <= Size
    ensures forall k :: 0 <= k < |r| ==> row <= r[k].row < Size && MaximalRun(grid[r[k].row], r[k])
    decreases Size - row
  {
    if row == Size then [] else RowRuns(grid[row], row, 0) + GridRuns(grid, row + 1)
  }

  /** The scan finds every number: each digit lies in a run it reports. */
  lemma {:induction false} GridRunsCover(grid: seq<string>, row: nat, i: nat, j: nat)
    requires WfGrid(grid) && row <= i < Size && j < Size && IsDigit(grid[i][j])
    ensures exists k :: 0 <= k < |GridRuns(grid, row)| && Holds(GridRuns(grid, row)[k], i, j)
    decreases Size - row
  {
    var here := RowRuns(grid[row], row, 0);
    var rest := GridRuns(grid, row + 1);
    assert GridRuns(grid, row) == here + rest;
    if i == row {
      RowRunsCover(grid[row], row, 0, j);
      var k :| 0 <= k < |here| && here[k].start <= j < here[k].end;
      assert Holds(GridRuns(grid, row)[k], i, j);
    } else {
      GridRunsCover(grid, row + 1, i, j);
      var k :| 0 <= k < |rest| && Holds(rest[k], i, j);
      assert Holds(GridRuns(grid, row)[|here| + k], i, j);
    }
  }

  /** ... and only once: no two runs it reports share a cell. */
  lemma {:induction false} GridRunsDisjoint(grid: seq<string>, row: nat, k: nat, l: nat)
    requires WfGrid(grid) && row <= Size && k < l < |GridRuns(grid, row)|
    ensures var r := GridRuns(grid, row);
      r[k].row != r[l].row || r[k].end <= r[l].start
    decreases Size - row
  {
    var here := RowRuns(grid[row], row, 0);
    var rest := GridRuns(grid, row + 1);
    var r := GridRuns(grid, row);
    assert r == here + rest;
    assert |r| == |here| + |rest|;
    if l < |here| {
      assert r[k] == here[k] && r[l] == here[l];
      RowRunsOrdered(grid[row], row, 0, k, l);
    } else if k >= |here| {
      assert r[k] == rest[k - |here|] && r[l] == rest[l - |here|];
      GridRunsDisjoint(grid, row + 1, k - |here|, l - |here|);
    } else {
      assert r[k] == here[k] && r[l] == rest[l - |here|];
    }
  }

  /** Cell `(i, j)` lies in `run`. */
  predicate Holds(run: Run, i: nat, j: nat)
  {
    run.row == i && run.start <= j < run.end
  }

  /** Runs of one row never overlap. */
  lemma {:induction false} RowRunsOrdered(line: string, row: nat, col: nat, k: nat, l: nat)
    requires col <= |line| && Boundary(line, col) && k < l < |RowRuns(line, row, col)|
    ensures RowRuns(line, row, col)[k].end <= RowRuns(line, row, col)[l].start
    decreases l - k
  {
    var r := RowRuns(line, row, col);
    if l > k + 1 {
      RowRunsOrdered(line, row, col, k, l - 1);
      RowRunsOrdered(line, row, col, l - 1, l);
    }
  }

  /** The number a run spells: the decimal value of its digits. */
  function Value(line: string, run: Run): nat
    requires MaximalRun(line, run)
  {
    DigitsValue(line[run.start..run.end])
  }

  // ---------------------------------------------------------------------
  // The cells around a number

  /** No cell is listed twice. */
  predicate Distinct(s: seq<Cell>)
  {
    forall a, b :: 0 <= a < b < |s| ==> s[a] != s[b]
  }

  lemma DistinctConcat(s: seq<Cell>, t: seq<Cell>)
    requires Distinct(s) && Distinct(t) && forall c: Cell :: c in s ==> c !in t
    ensures Distinct(s + t)
  {
    forall a, b | 0 <= a < b < |s + t|
      ensures (s + t)[a] != (s + t)[b]
    {
      if a < |s| && b >= |s| {
        assert (s + t)[a] in s && (s + t)[b] in t;
      }
    }
  }

  /** Cells `(row, lo)` up to, not including, `(row, hi)`. */
  function Span(row: nat, lo: nat, hi: nat): (s: seq<Cell>)
    requires lo <= hi
    ensures forall c: Cell :: c in s <==> c.0 == row && lo <= c.1 < hi
    ensures Distinct(s)
  {
    var s := seq(hi - lo, k requires 0 <= k < hi - lo => (row, lo + k));
    assert forall c: Cell :: c.0 == row && lo <= c.1 < hi ==> s[c.1 - lo] == c;
    s
  }

  /** The first column looked at: `start - 1`, saturating at 0. */
  function Lo(run: Run): nat
  {
    if run.start > 0 then run.start - 1 else 0
  }

  /** One past the last column looked at: `end + 1`, capped at the edge. */
  function Hi(run: Run): nat
  {
    if run.end + 1 < Size then run.end + 1 else Size
  }

  /** The row above, over columns `Lo` to `Hi`, when there is one. */
  function Above(run: Run): (s: seq<Cell>)
    requires run.start < run.end <= Size
    ensures forall c: Cell :: c in s <==> run.row > 0 && c.0 + 1 == run.row && Lo(run) <= c.1 < Hi(run)
    ensures Distinct(s)
  {
    if run.row > 0 then Span(run.row - 1, Lo(run), Hi(run)) else []
  }

  /** The row below, when there is one. */
  function Below(run: Run): (s: seq<Cell>)
    requires run.start < run.end <= Size
    ensures forall c: Cell :: c in s <==> run.row < Size - 1 && c.0 == run.row + 1 && Lo(run) <= c.1 < Hi(run)
    ensures Distinct(s)
  {
    if run.row < Size - 1 then Span(run.row + 1, Lo(run), Hi(run)) else []
  }

  /** The left cell, when the run does not start the row. */
  function LeftCell(run: Run): (s: seq<Cell>)
    ensures forall c: Cell :: c in s <==> run.start > 0 && c == (run.row, run.start - 1)
    ensures |s| <= 1
  {
    if run.start > 0 then [(run.row, Lo(run))] else []
  }

  /** The right cell, when `end < limit`. */
  function RightCell(run: Run, limit: nat): (s: seq<Cell>)
    ensures forall c: Cell :: c in s <==> run.end < limit && c == (run.row, run.end)
    ensures |s| <= 1
  {
    if run.end < limit then [(run.row, run.end)] else []
  }

  /** `is_range_adjacent`'s visiting order: the row above and the row below
      over columns `start - 1` (saturating) to `end` (capped at the edge),
      then the left cell when `start > 0`, then the right cell when
      `end < limit`. */
  function CheckedWith(run: Run, limit: nat): (s: seq<Cell>)
    requires run.row < Size && run.start < run.end <= Size && limit <= Size
    ensures forall c: Cell :: c in s <==>
      Neighbour(run, c) && !(c == (run.row, run.end) && run.end >= limit)
    ensures Distinct(s)
  {
    var s := Above(run) + Below(run) + LeftCell(run) + RightCell(run, limit);
    assert Distinct(Above(run) + Below(run) + LeftCell(run)) by {
      DistinctConcat(Above(run), Below(run));
      DistinctConcat(Above(run) + Below(run), LeftCell(run));
    }
    DistinctConcat(Above(run) + Below(run) + LeftCell(run), RightCell(run, limit));
    s
  }

  /** The cells around a number: in the grid, in the rows next to or on
      its own, one column beyond it on either side, and not in the run. */
  predicate Neighbour(run: Run, c: Cell)
  {
    c.0 < Size && c.1 < Size &&
    run.row <= c.0 + 1 && c.0 <= run.row + 1 &&
    run.start <= c.1 + 1 && c.1 <= run.end &&
    !(c.0 == run.row && run.start <= c.1 < run.end)
  }

  /** The cells the program visits, with its right-cell guard
      `end < Size - 1`. */
  function CheckedAsWritten(run: Run): (s: seq<Cell>)
    requires run.row < Size && run.start < run.end <= Size
    ensures forall c: Cell :: c in s <==> Neighbour(run, c) && !(run.end == Size - 1 && c == (run.row, Size - 1))
  {
    CheckedWith(run, Size - 1)
  }

  /** The right cell of a number ending next to the right edge is never
      looked at. */
  lemma RightEdgeMissed(run: Run)
    requires run.row < Size && run.start < run.end == Size - 1
    ensures Neighbour(run, (run.row, Size - 1)) && (run.row, Size - 1) !in CheckedAsWritten(run)
  {
  }

  /** The cells visited with the guard `end < Size`: exactly the
      neighbours, each once. */
  function Checked(run: Run): (s: seq<Cell>)
    requires run.row < Size && run.start < run.end <= Size
    ensures forall c: Cell :: c in s <==> Neighbour(run, c)
    ensures Distinct(s)
  {
    CheckedWith(run, Size)
  }

  /** `is_range_adjacent`'s answer: some visited cell is not '.'; a digit
      counts too. */
  predicate Adjacent(grid: seq<string>, run: Run)
    requires WfGrid(grid) && run.row < Size && run.start < run.end <= Size
  {
    var cells := Checked(run);
    exists k :: 0 <= k < |cells| && At(grid, cells[k]) != '.'
  }

  /** A number is a part number exactly when a cell around it is not '.'. */
  lemma AdjacentIff(grid: seq<string>, run: Run)
    requires WfGrid(grid) && run.row < Size && run.start < run.end <= Size
    ensures Adjacent(grid, run) <==> exists c: Cell :: Neighbour(run, c) && At(grid, c) != '.'
  {
    var cells := Checked(run);
    if exists c: Cell :: Neighbour(run, c) && At(grid, c) != '.' {
      var c: Cell :| Neighbour(run, c) && At(grid, c) != '.';
      assert c in cells;
      assert Neighbour(run, c);
      var k :| 0 <= k < |cells| && cells[k] == c;
    }
  }

  // ---------------------------------------------------------------------
  // Gears

  /** The `gears` table, keyed by cell, and the ratio sum so far. */
  datatype Gears = Gears(pending: map<Cell, nat>, ratio: nat)

  /** The `gear_found` closure: a '*' seen for the first time (or again
      after a pairing) remembers the number; seen while a number waits,
      it adds their product and forgets the entry. */
  function Toggle(g: Gears, c: Cell, n: nat): (r: Gears)
    ensures c in r.pending <==> c !in g.pending
    ensures forall d: Cell :: d != c ==> (d in r.pending <==> d in g.pending)
    ensures g.ratio <= r.ratio
  {
    if c in g.pending then Gears(g.pending - {c}, g.ratio + g.pending[c] * n)
    else Gears(g.pending[c := n], g.ratio)
  }

  /** The touches in scan order, replayed on an empty table. */
  function Replay(ts: seq<(Cell, nat)>): (g: Gears)
  {
    if |ts| == 0 then Gears(map[], 0)
    else Toggle(Replay(ts[..|ts| - 1]), ts[|ts| - 1].0, ts[|ts| - 1].1)
  }

  /** How often `c` was touched. */
  function Count(ts: seq<(Cell, nat)>, c: Cell): nat
  {
    if |ts| == 0 then 0 else Count(ts[..|ts| - 1], c) + (if ts[|ts| - 1].0 == c then 1 else 0)
  }

  /** The number of the latest touch of `c`. */
  function Last(ts: seq<(Cell, nat)>, c: Cell): nat
    requires Count(ts, c) > 0
  {
    if ts[|ts| - 1].0 == c then ts[|ts| - 1].1 else Last(ts[..|ts| - 1], c)
  }

  /** Without a table: each touch after an odd number of touches of the
      same cell pairs with the latest of them. */
  function Paired(ts: seq<(Cell, nat)>): nat
  {
    if |ts| == 0 then 0
    else
      var init := ts[..|ts| - 1];
      var c := ts[|ts| - 1].0;
      Paired(init) + (if Count(init, c) % 2 == 1 then Last(init, c) * ts[|ts| - 1].1 else 0)
  }

  /** A cell waits in the table exactly when it has been touched an odd
      number of times, holding its latest number, and the ratio sum is the
      sum of the pairings. */
  lemma {:induction false} ReplayPairs(ts: seq<(Cell, nat)>)
    ensures forall c: Cell :: c in Replay(ts).pending <==> Count(ts, c) % 2 == 1
    ensures forall c: Cell :: c in Replay(ts).pending ==> Replay(ts).pending[c] == Last(ts, c)
    ensures Replay(ts).ratio == Paired(ts)
    decreases |ts|
  {
    ReplayPending(ts);
    if |ts| > 0 {
      ReplayPairs(ts[..|ts| - 1]);
    }
  }

  lemma {:induction false} ReplayPending(ts: seq<(Cell, nat)>)
    ensures forall c: Cell :: c in Replay(ts).pending <==> Count(ts, c) % 2 == 1
    ensures forall c: Cell :: c in Replay(ts).pending ==> Replay(ts).pending[c] == Last(ts, c)
    decreases |ts|
  {
    if |ts| > 0 {
      ReplayPending(ts[..|ts| - 1]);
    }
  }

  /** The '*' cells around `run`, in visiting order, each with the run's
      number. */
  function Stars(grid: seq<string>, run: Run): (ts: seq<(Cell, nat)>)
    requires WfGrid(grid) && run.row < Size && MaximalRun(grid[run.row], run)
    ensures forall k :: 0 <= k < |ts| ==>
      Neighbour(run, ts[k].0) && At(grid, ts[k].0) == '*' && ts[k].1 == Value(grid[run.row], run)
  {
    var cells := Checked(run);
    StarsFrom(grid, cells, Value(grid[run.row], run), run)
  }

  function StarsFrom(grid: seq<string>, cells: seq<Cell>, n: nat, run: Run): (ts: seq<(Cell, nat)>)
    requires WfGrid(grid) && forall c: Cell :: c in cells ==> Neighbour(run, c)
    ensures forall k :: 0 <= k < |ts| ==>
      Neighbour(run, ts[k].0) && At(grid, ts[k].0) == '*' && ts[k].1 == n
    ensures forall x :: x in ts ==> x.0 in cells
    ensures forall c: Cell :: c in cells && Neighbour(run, c) && At(grid, c) == '*' ==> (c, n) in ts
  {
    if |cells| == 0 then []
    else
      var rest := StarsFrom(grid, cells[1..], n, run);
      var c := cells[0];
      assert c in cells;
      assert Neighbour(run, c);
      assert forall d: Cell :: d in cells <==> d == c || d in cells[1..];
      if At(grid, c) == '*' then [(c, n)] + rest else rest
  }

  /** The character at a cell of the schematic. */
  function At(grid: seq<string>, c: Cell): char
    requires WfGrid(grid) && c.0 < Size && c.1 < Size
  {
    assert |grid[c.0]| == Size;
    grid[c.0][c.1]
  }

  /** Every '*' touch the scan makes, in order. */
  function Touches(grid: seq<string>, runs: seq<Run>): seq<(Cell, nat)>
    requires WfGrid(grid) && forall k :: 0 <= k < |runs| ==> runs[k].row < Size && MaximalRun(grid[runs[k].row], runs[k])
  {
    if |runs| == 0 then []
    else Touches(grid, runs[..|runs| - 1]) + Stars(grid, runs[|runs| - 1])
  }

  /** The part-number sum over `runs`. */
  function PartSum(grid: seq<string>, runs: seq<Run>): (s: nat)
    requires WfGrid(grid) && forall k :: 0 <= k < |runs| ==> runs[k].row < Size && MaximalRun(grid[runs[k].row], runs[k])
  {
    if |runs| == 0 then 0
    else
      var run := runs[|runs| - 1];
      assert MaximalRun(grid[run.row], run);
      PartSum(grid, runs[..|runs| - 1]) + (if Adjacent(grid, run) then Value(grid[run.row], run) else 0)
  }

  /** The part sum is the sum of the numbers of adjacent runs, and the
      numbers that are not adjacent add nothing. */
  lemma {:induction false} PartSumBounds(grid: seq<string>, runs: seq<Run>)
    requires WfGrid(grid) && forall k :: 0 <= k < |runs| ==> runs[k].row < Size && MaximalRun(grid[runs[k].row], runs[k])
    ensures PartSum(grid, runs) <= Seqs.Sum(seq(|runs|, k requires 0 <= k < |runs| => Value(grid[runs[k].row], runs[k]) as int))
    ensures (forall k :: 0 <= k < |runs| ==> !Adjacent(grid, runs[k])) ==> PartSum(grid, runs) == 0
    decreases |runs|
  {
    if |runs| > 0 {
      var init := runs[..|runs| - 1];
      PartSumBounds(grid, init);
      var vs := seq(|runs|, k requires 0 <= k < |runs| => Value(grid[runs[k].row], runs[k]) as int);
      assert vs[..|runs| - 1] == seq(|init|, k requires 0 <= k < |init| => Value(grid[init[k].row], init[k]) as int);
      assert Seqs.Sum(vs) == Seqs.Sum(vs[..|runs| - 1]) + vs[|runs| - 1];
      assert PartSum(grid, runs) <= PartSum(grid, init) + vs[|runs| - 1];
    }
  }

  // ---------------------------------------------------------------------
  // Parsing and the answers

  /** The first 140 characters of each of the first 140 lines; `None`
      where a line or a byte runs out and `unwrap` panics. */
  function ParseInput(input: string): (r: Option<seq<string>>)
    ensures r.Some? <==> |Lines(input)| >= Size && forall k :: 0 <= k < Size ==> |Lines(input)[k]| >= Size
    ensures r.Some? ==> WfGrid(r.value)
    ensures r.Some? ==> forall i :: 0 <= i < Size ==> r.value[i] == Lines(input)[i][..Size]
  {
    var lines := Lines(input);
    if |lines| < Size || exists k :: 0 <= k < Size && |lines[k]| < Size then None
    else Some(seq(Size, i requires 0 <= i < Size => lines[i][..Size]))
  }

  /** `part_one_and_two`: the part-number sum and the gear-ratio sum. */
  function Solve(input: string): (r: Option<(nat, nat)>)
    ensures r.Some? <==> ParseInput(input).Some?
    ensures r.Some? ==>
      var grid := ParseInput(input).value;
      var runs := GridRuns(grid, 0);
      r.value.0 == PartSum(grid, runs) && r.value.1 == Paired(Touches(grid, runs))
  {
    var grid :- ParseInput(input);
    var runs := GridRuns(grid, 0);
    ReplayPairs(Touches(grid, runs));
    Some((PartSum(grid, runs), Replay(Touches(grid, runs)).ratio))
  }
}
