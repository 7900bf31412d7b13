/** aoc-13: patterns of ash ('.') and rocks ('#') separated by blank
    lines.  A vertical line of reflection between columns i-1 and i mirrors
    every column pair out to the nearer edge; likewise for rows.  Part one
    scores a pattern by the first vertical line, else 100 times the first
    horizontal one; part two first flips a single cell (the smudge) so that
    a different line appears. */
module PointOfIncidence {
  import opened Wrappers
  import opened Text
  import Seqs
  import Arith

  /** The cells in row-major order, `column_len` to a row. */
  datatype Pattern = Pattern(data: seq<bool>, width: nat)

  /** Scanning for vertical lines compares columns; for horizontal lines,
      rows. */
  datatype Axis = Cols | Rows

  /** The number of columns, or `data.len() / column_len` rows. */
  function Count(p: Pattern, ax: Axis): nat
    requires p.width > 0
  {
    if ax == Cols then p.width else |p.data| / p.width
  }

  lemma CellInRange(k: nat, j: nat, w: nat, n: nat)
    requires w > 0 && k < n / w && j < w
    ensures k * w + j < n && (k + 1) * w <= n
  {
    Arith.MulMono(w, k + 1, n / w);
    Arith.Euclid(n, w);
  }

  /** `col(j)`: cell `j` of every row; `row(i)`: the slice
      `data[i * c .. (i + 1) * c]`. */
  function Line(p: Pattern, ax: Axis, i: nat): (l: seq<bool>)
    requires p.width > 0 && i < Count(p, ax)
    ensures |l| == if ax == Cols then Count(p, Rows) else p.width
  {
    if ax == Cols then Column(p, i)
    else
      CellInRange(i, 0, p.width, |p.data|);
      Row(p, i)
  }

  /** Line `i` holds the cells it names: cell `i` of every row for a
      column, the `i`-th run of `width` cells for a row. */
  lemma LineCells(p: Pattern, ax: Axis, i: nat)
    requires p.width > 0 && i < Count(p, ax)
    ensures var l := Line(p, ax, i);
      (ax == Cols ==> forall k :: 0 <= k < |l| ==> k * p.width + i < |p.data| && l[k] == p.data[k * p.width + i]) &&
      (ax == Rows ==> forall c :: 0 <= c < |l| ==> i * p.width + c < |p.data| && l[c] == p.data[i * p.width + c])
  {
    var l := Line(p, ax, i);
    var w := p.width;
    if ax == Cols {
      forall k | 0 <= k < |l|
        ensures k * w + i < |p.data| && l[k] == p.data[k * w + i]
      {
        CellInRange(k, i, w, |p.data|);
      }
    } else {
      CellInRange(i, 0, w, |p.data|);
      var lo := i * w;
      assert (i + 1) * w == lo + w;
      assert l == p.data[lo .. lo + w];
      forall c | 0 <= c < |l|
        ensures lo + c < |p.data| && l[c] == p.data[lo + c]
      {
      }
    }
  }

  function Column(p: Pattern, j: nat): (l: seq<bool>)
    requires 0 <= j < p.width
    ensures |l| == |p.data| / p.width
  {
    var w := p.width;
    var rows := |p.data| / w;
    assert forall k :: 0 <= k < rows ==> k * w + j < |p.data| by {
      forall k | 0 <= k < rows
        ensures k * w + j < |p.data|
      {
        CellInRange(k, j, w, |p.data|);
      }
    }
    seq(rows, k requires 0 <= k < rows => p.data[k * w + j])
  }

  function Row(p: Pattern, i: nat): (l: seq<bool>)
    requires p.width > 0 && (i + 1) * p.width <= |p.data|
    ensures |l| == p.width
  {
    var w := p.width;
    assert (i + 1) * w == i * w + w;
    p.data[i * w .. (i + 1) * w]
  }

  /** The reference: `i` is a line of reflection when the lines `i-1-k`
      and `i+k` agree for every `k` until an edge is reached. */
  ghost predicate IsReflection(p: Pattern, ax: Axis, i: nat)
    requires p.width > 0
  {
    1 <= i < Count(p, ax) &&
    forall k :: 0 <= k < i && i + k < Count(p, ax) ==> Mirrored(p, ax, i, k)
  }

  /** The lines at distance `k` either side of line `i` agree. */
  predicate Mirrored(p: Pattern, ax: Axis, i: nat, k: nat)
    requires p.width > 0 && k < i && i + k < Count(p, ax)
  {
    Line(p, ax, i - 1 - k) == Line(p, ax, i + k)
  }

  /** The `while` loop of the filter: compare lines `lo` and `hi` and move
      outwards until an edge is reached. */
  function Scan(p: Pattern, ax: Axis, lo: nat, hi: nat): bool
    requires p.width > 0 && lo < hi < Count(p, ax)
    decreases lo
  {
    if Line(p, ax, lo) != Line(p, ax, hi) then false
    else if lo == 0 || hi == Count(p, ax) - 1 then true
    else Scan(p, ax, lo - 1, hi + 1)
  }

  /** The scan from `i - 1 - d`, `i + d` succeeds exactly when all the
      pairs from offset `d` outwards agree. */
  lemma {:induction false} ScanCorrect(p: Pattern, ax: Axis, i: nat, d: nat)
    requires p.width > 0 && 1 <= i < Count(p, ax) && d < i && i + d < Count(p, ax)
    ensures Scan(p, ax, i - 1 - d, i + d) <==>
      forall k :: d <= k < i && i + k < Count(p, ax) ==> Mirrored(p, ax, i, k)
    decreases i - d
  {
    if Mirrored(p, ax, i, d) && !(i - 1 - d == 0 || i + d == Count(p, ax) - 1) {
      ScanCorrect(p, ax, i, d + 1);
    }
  }

  /** The filter of `cols_left_of_reflection` / `rows_above_reflection`
      is the reference predicate. */
  lemma ScanIsReflection(p: Pattern, ax: Axis, i: nat)
    requires p.width > 0 && 1 <= i < Count(p, ax)
    ensures Scan(p, ax, i - 1, i) <==> IsReflection(p, ax, i)
  {
    ScanCorrect(p, ax, i, 0);
  }

  /** The indices below `n` whose flag is set, ascending. */
  function TrueIndices(flags: seq<bool>, n: nat): (r: seq<nat>)
    requires n <= |flags|
    ensures forall x: nat :: x in r <==> x < n && flags[x]
    ensures forall k :: 0 <= k < |r| - 1 ==> r[k] < r[k + 1]
    ensures |r| > 0 ==> r[|r| - 1] < n
  {
    if n == 0 then []
    else
      var front := TrueIndices(flags, n - 1);
      if flags[n - 1] then front + [n - 1] else front
  }

  /** `cols_left_of_reflection` / `rows_above_reflection`: the values of
      `1 .. count` that pass the filter, which are the lines of reflection,
      ascending. */
  function Candidates(p: Pattern, ax: Axis): (r: seq<nat>)
    requires p.width > 0
    ensures forall x: nat :: x in r <==> 1 <= x < Count(p, ax) && IsReflection(p, ax, x)
    ensures forall k :: 0 <= k < |r| - 1 ==> r[k] < r[k + 1]
  {
    var n := Count(p, ax);
    var flags := seq(n, x requires 0 <= x < n => x >= 1 && Scan(p, ax, x - 1, x));
    assert forall x :: 0 <= x < n ==> (flags[x] <==> 1 <= x && IsReflection(p, ax, x)) by {
      forall x | 1 <= x < n
        ensures Scan(p, ax, x - 1, x) <==> IsReflection(p, ax, x)
      {
        ScanIsReflection(p, ax, x);
      }
    }
    TrueIndices(flags, n)
  }

  /** `.next()`: the first line of reflection. */
  function First(p: Pattern, ax: Axis): (r: Option<nat>)
    requires p.width > 0
  {
    var c := Candidates(p, ax);
    if |c| > 0 then Some(c[0]) else None
  }

  /** The first line is a line of reflection and no smaller one is. */
  lemma FirstIsLeast(p: Pattern, ax: Axis)
    requires p.width > 0
    ensures First(p, ax).Some? ==> IsReflection(p, ax, First(p, ax).value)
    ensures First(p, ax).Some? ==> forall x :: 1 <= x < First(p, ax).value ==> !IsReflection(p, ax, x)
    ensures First(p, ax).None? ==> forall x :: 1 <= x < Count(p, ax) ==> !IsReflection(p, ax, x)
  {
    var c := Candidates(p, ax);
    if |c| > 0 {
      assert c[0] in c;
      forall x | 1 <= x < c[0]
        ensures !IsReflection(p, ax, x)
      {
        if IsReflection(p, ax, x) {
          assert x in c;
          var j :| 0 <= j < |c| && c[j] == x;
          AscendingFrom(c, 0, j);
        }
      }
    } else {
      forall x | 1 <= x < Count(p, ax)
        ensures !IsReflection(p, ax, x)
      {
      }
    }
  }

  lemma {:induction false} AscendingFrom(s: seq<nat>, i: nat, j: nat)
    requires forall k :: 0 <= k < |s| - 1 ==> s[k] < s[k + 1]
    requires i <= j < |s|
    ensures s[i] <= s[j]
    decreases j - i
  {
    if i < j {
      AscendingFrom(s, i + 1, j);
    }
  }

  // ---------------------------------------------------------------------
  // The smudge

  /** A copy with cell `i` flipped. */
  function Flip(p: Pattern, i: nat): (q: Pattern)
    requires i < |p.data|
    ensures q.width == p.width && |q.data| == |p.data| && q.data[i] == !p.data[i]
    ensures forall j :: 0 <= j < |p.data| && j != i ==> q.data[j] == p.data[j]
  {
    Pattern(p.data[i := !p.data[i]], p.width)
  }

  /** `find(|&val| Some(val) != original)`: the first candidate other than
      the original line. */
  function FirstOther(c: seq<nat>, original: Option<nat>): (r: Option<nat>)
    ensures r.Some? ==> exists j :: (0 <= j < |c| && c[j] == r.value && Some(c[j]) != original &&
      forall k :: 0 <= k < j ==> Some(c[k]) == original)
    ensures r.None? ==> forall k :: 0 <= k < |c| ==> Some(c[k]) == original
  {
    FirstOtherFrom(c, original, 0)
  }

  /** The same search from position `i` of the candidates. */
  function FirstOtherFrom(c: seq<nat>, original: Option<nat>, i: nat): (r: Option<nat>)
    requires i <= |c|
    ensures r.Some? ==> exists j :: (i <= j < |c| && c[j] == r.value && Some(c[j]) != original &&
      forall k :: i <= k < j ==> Some(c[k]) == original)
    ensures r.None? ==> forall k :: i <= k < |c| ==> Some(c[k]) == original
    decreases |c| - i
  {
    if i == |c| then None
    else if Some(c[i]) != original then Some(c[i])
    else FirstOtherFrom(c, original, i + 1)
  }

  /** `v` is the least line of reflection of `q` other than `original`. */
  ghost predicate FirstOtherLine(q: Pattern, ax: Axis, original: Option<nat>, v: nat)
    requires q.width > 0
  {
    IsReflection(q, ax, v) && Some(v) != original &&
    forall x: nat :: 1 <= x < v && IsReflection(q, ax, x) ==> Some(x) == original
  }

  /** Every line of reflection of `q` is `original`. */
  ghost predicate NoOtherLine(q: Pattern, ax: Axis, original: Option<nat>)
    requires q.width > 0
  {
    forall x: nat :: IsReflection(q, ax, x) ==> Some(x) == original
  }

  /** Searching the ascending candidates finds the least line other than
      the original, or shows there is none. */
  lemma FirstOtherIsLeast(q: Pattern, ax: Axis, original: Option<nat>)
    requires q.width > 0
    ensures var r := FirstOther(Candidates(q, ax), original);
      (r.Some? ==> FirstOtherLine(q, ax, original, r.value)) && (r.None? ==> NoOtherLine(q, ax, original))
  {
    var c := Candidates(q, ax);
    var r := FirstOther(c, original);
    if r.Some? {
      var j :| 0 <= j < |c| && c[j] == r.value && Some(c[j]) != original &&
        forall k :: 0 <= k < j ==> Some(c[k]) == original;
      assert c[j] in c;
      forall x: nat | 1 <= x < r.value && IsReflection(q, ax, x)
        ensures Some(x) == original
      {
        assert x in c;
        var m :| 0 <= m < |c| && c[m] == x;
        if m >= j {
          AscendingFrom(c, j, m);
        }
      }
    } else {
      forall x: nat | IsReflection(q, ax, x)
        ensures Some(x) == original
      {
        assert x in c;
      }
    }
  }

  /** `find_map` over the cells from `i` on: the first flip that has a line
      other than the original, and its least such line. */
  function AltFrom(p: Pattern, ax: Axis, original: Option<nat>, i: nat): (r: Option<nat>)
    requires p.width > 0 && i <= |p.data|
    ensures r.Some? ==> exists j :: (i <= j < |p.data| && FirstOtherLine(Flip(p, j), ax, original, r.value) &&
      forall j' :: i <= j' < j ==> NoOtherLine(Flip(p, j'), ax, original))
    ensures r.None? ==> forall j :: i <= j < |p.data| ==> NoOtherLine(Flip(p, j), ax, original)
    decreases |p.data| - i
  {
    if i == |p.data| then None
    else
      var q := Flip(p, i);
      var found := FirstOther(Candidates(q, ax), original);
      FirstOtherIsLeast(q, ax, original);
      if found.Some? then found
      else AltFrom(p, ax, original, i + 1)
  }

  /** `alt_cols_left_of_reflection` / `alt_rows_above_reflection`: the
      first single-cell flip, in cell order, that has a line of reflection
      other than the original first one, and its least such line; nothing
      when no flip has one. */
  function Alt(p: Pattern, ax: Axis): (r: Option<nat>)
    requires p.width > 0
    ensures r.Some? ==> exists j :: (0 <= j < |p.data| && FirstOtherLine(Flip(p, j), ax, First(p, ax), r.value) &&
      forall j' :: 0 <= j' < j ==> NoOtherLine(Flip(p, j'), ax, First(p, ax)))
    ensures r.None? ==> forall j :: 0 <= j < |p.data| ==> NoOtherLine(Flip(p, j), ax, First(p, ax))
  {
    AltFrom(p, ax, First(p, ax), 0)
  }

  // ---------------------------------------------------------------------
  // Parts

  /** The part-one summary of a pattern: the columns left of the first
      vertical line, else 100 times the rows above the first horizontal
      line; `None` where there is neither or where the pattern has no
      columns (the division by `column_len` panics). */
  function ValueOne(p: Pattern): (r: Option<int>)
    ensures r.None? <==> p.width == 0 || (First(p, Cols).None? && First(p, Rows).None?)
    ensures r.Some? && p.width > 0 && First(p, Cols).Some? ==> r.value == First(p, Cols).value
    ensures r.Some? && p.width > 0 && First(p, Cols).None? ==> First(p, Rows).Some? && r.value == 100 * First(p, Rows).value
  {
    if p.width == 0 then None
    else match First(p, Cols)
      case Some(v) => Some(v)
      case None =>
        var v :- First(p, Rows);
        Some(100 * v)
  }

  function ValueTwo(p: Pattern): (r: Option<int>)
    ensures r.None? <==> p.width == 0 || (Alt(p, Cols).None? && Alt(p, Rows).None?)
    ensures r.Some? && p.width > 0 && Alt(p, Cols).Some? ==> r.value == Alt(p, Cols).value
    ensures r.Some? && p.width > 0 && Alt(p, Cols).None? ==> Alt(p, Rows).Some? && r.value == 100 * Alt(p, Rows).value
  {
    if p.width == 0 then None
    else match Alt(p, Cols)
      case Some(v) => Some(v)
      case None =>
        var v :- Alt(p, Rows);
        Some(100 * v)
  }

  /** `part_one`: the sum of the summaries, when every pattern has one. */
  function PartOne(input: string): (r: Option<int>)
    ensures var ps := ParseInput(input);
      r.Some? <==> forall i :: 0 <= i < |ps| ==> ValueOne(ps[i]).Some?
    ensures r.Some? ==> r.value == Seqs.Total(ParseInput(input), ValueOne)
  {
    Seqs.SumOf(ParseInput(input), ValueOne)
  }

  /** `part_two`: the same over the smudge-corrected summaries. */
  function PartTwo(input: string): (r: Option<int>)
    ensures var ps := ParseInput(input);
      r.Some? <==> forall i :: 0 <= i < |ps| ==> ValueTwo(ps[i]).Some?
    ensures r.Some? ==> r.value == Seqs.Total(ParseInput(input), ValueTwo)
  {
    Seqs.SumOf(ParseInput(input), ValueTwo)
  }

  // ---------------------------------------------------------------------
  // Parsing

  /** '#' is a rock (true); every other byte is ash. */
  function Cells(line: string): (r: seq<bool>)
    ensures |r| == |line| && forall i :: 0 <= i < |line| ==> (r[i] <==> line[i] == '#')
  {
    seq(|line|, i requires 0 <= i < |line| => line[i] == '#')
  }

  /** The cells of `ls`, one line after another. */
  function Flatten(ls: seq<string>): seq<bool>
  {
    if |ls| == 0 then [] else Cells(ls[0]) + Flatten(ls[1..])
  }

  /** Flattening a split list is flattening its halves. */
  lemma {:induction false} FlattenSplit(ls: seq<string>, k: nat)
    requires k <= |ls|
    ensures Flatten(ls) == Flatten(ls[..k]) + Flatten(ls[k..])
    decreases k
  {
    if k > 0 {
      FlattenSplit(ls[1..], k - 1);
      assert ls[1..][..k - 1] == ls[..k][1..];
      assert ls[1..][k - 1..] == ls[k..];
    }
  }

  /** The inner loop: append the cells of the lines from `pos` up to the
      next empty line, which is consumed; returns the data and the index
      after it.  The data gained are the cells of the lines passed over,
      and the loop stops at the first empty line or at the end. */
  function Block(lines: seq<string>, pos: nat, acc: seq<bool>): (r: (seq<bool>, nat))
    requires pos <= |lines|
    ensures pos <= r.1 <= |lines|
    ensures r.0 == acc + Flatten(lines[pos..r.1])
    ensures r.1 == |lines| || (r.1 > pos && lines[r.1 - 1] == "")
    ensures forall k :: pos <= k < r.1 - 1 ==> lines[k] != ""
    decreases |lines| - pos
  {
    if pos == |lines| then
      assert lines[pos..pos] == [];
      (acc, pos)
    else if lines[pos] == "" then
      assert lines[pos..pos + 1] == [lines[pos]];
      assert Flatten(lines[pos..pos + 1]) == Cells("") + Flatten([]);
      (acc, pos + 1)
    else
      var r := Block(lines, pos + 1, acc + Cells(lines[pos]));
      assert lines[pos..r.1][1..] == lines[pos + 1..r.1];
      r
  }

  /** The lines from `pos` flatten to the first line, then the lines up to
      `stop`, then the rest. */
  lemma FlattenStep(lines: seq<string>, pos: nat, stop: nat)
    requires pos < stop <= |lines|
    ensures Flatten(lines[pos..]) == Cells(lines[pos]) + Flatten(lines[pos + 1..stop]) + Flatten(lines[stop..])
  {
    assert lines[pos..][1..] == lines[pos + 1..];
    FlattenSplit(lines[pos + 1..], stop - pos - 1);
    assert lines[pos + 1..][..stop - pos - 1] == lines[pos + 1..stop];
    assert lines[pos + 1..][stop - pos - 1..] == lines[stop..];
  }

  /** A block of `n` lines of width `w`, ended by an empty line or the end
      of the input, is a `w`-wide pattern of `n` rows. */
  lemma {:induction false} BlockRectangular(lines: seq<string>, pos: nat, acc: seq<bool>, w: nat, n: nat)
    requires pos + n <= |lines|
    requires forall k :: pos <= k < pos + n ==> |lines[k]| == w && lines[k] != ""
    requires pos + n == |lines| || lines[pos + n] == ""
    ensures |Block(lines, pos, acc).0| == |acc| + n * w
    decreases n
  {
    if n > 0 {
      BlockRectangular(lines, pos + 1, acc + Cells(lines[pos]), w, n - 1);
    }
  }

  /** The cells of the patterns, one pattern after another. */
  function AllData(ps: seq<Pattern>): seq<bool>
  {
    if |ps| == 0 then [] else ps[0].data + AllData(ps[1..])
  }

  /** The outer loop: every line not swallowed by a block starts a
      pattern whose width is its length.  No cell is lost, added or
      reordered: the patterns hold the cells of the lines in order. */
  function ParseFrom(lines: seq<string>, pos: nat): (ps: seq<Pattern>)
    requires pos <= |lines|
    ensures |ps| <= |lines| - pos
    ensures pos < |lines| ==> |ps| > 0 && ps[0].width == |lines[pos]|
    ensures AllData(ps) == Flatten(lines[pos..])
    decreases |lines| - pos
  {
    if pos == |lines| then
      assert lines[pos..] == [];
      []
    else
      var b := Block(lines, pos + 1, Cells(lines[pos]));
      var rest := ParseFrom(lines, b.1);
      var ps := [Pattern(b.0, |lines[pos]|)] + rest;
      assert ps[1..] == rest;
      FlattenStep(lines, pos, b.1);
      ps
  }

  /** `parse_input`: the patterns hold the cells of the input's lines,
      in order. */
  function ParseInput(input: string): (ps: seq<Pattern>)
    ensures AllData(ps) == Flatten(Lines(input))
    ensures forall k: nat :: k < |ps| ==> PatternAt(Lines(input), 0, k, ps[k])
    ensures Start(Lines(input), 0, |ps|) == |Lines(input)|
  {
    assert Lines(input)[0..] == Lines(input);
    ParseFromBlocks(Lines(input), 0);
    ParseFrom(Lines(input), 0)
  }

  /** The line where pattern `k` read from `pos` begins: each pattern is
      its first line and the block after it, up to and including the
      empty line that ends it.  `|lines|` once the lines run out. */
  function Start(lines: seq<string>, pos: nat, k: nat): (s: nat)
    requires pos <= |lines|
    ensures pos <= s <= |lines|
    decreases k
  {
    if k == 0 || pos == |lines| then pos
    else Start(lines, Block(lines, pos + 1, Cells(lines[pos])).1, k - 1)
  }

  /** Pattern `k` from `pos` is `p`: its width is the length of its first
      line and its cells are those of the lines of its block. */
  predicate PatternAt(lines: seq<string>, pos: nat, k: nat, p: Pattern)
    requires pos <= |lines|
  {
    var s := Start(lines, pos, k);
    s < |lines| && p == Pattern(Block(lines, s + 1, Cells(lines[s])).0, |lines[s]|)
  }

  /** `parse_input` reads one pattern per block until the lines run out:
      pattern `k` is the block starting where pattern `k - 1` ended. */
  lemma {:induction false} ParseFromBlocks(lines: seq<string>, pos: nat)
    requires pos <= |lines|
    ensures var ps := ParseFrom(lines, pos);
      (forall k: nat :: k < |ps| ==> PatternAt(lines, pos, k, ps[k])) &&
      Start(lines, pos, |ps|) == |lines|
    decreases |lines| - pos
  {
    if pos < |lines| {
      var b := Block(lines, pos + 1, Cells(lines[pos]));
      ParseFromBlocks(lines, b.1);
      var ps := ParseFrom(lines, pos);
      var rest := ParseFrom(lines, b.1);
      assert ps == [Pattern(b.0, |lines[pos]|)] + rest;
      forall k: nat | k < |ps|
        ensures PatternAt(lines, pos, k, ps[k])
      {
        if k > 0 {
          assert Start(lines, pos, k) == Start(lines, b.1, k - 1);
          assert PatternAt(lines, b.1, k - 1, rest[k - 1]);
        }
      }
      assert Start(lines, pos, |ps|) == Start(lines, b.1, |rest|);
    }
  }
}
