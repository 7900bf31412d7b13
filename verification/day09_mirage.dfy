/** aoc-09: every line is a history of 21 readings.  The next reading is
    extrapolated from the table of successive differences: the last reading
    plus the extrapolation of the differences, down to a row of zeros.  Part
    two reverses every history first, which extrapolates backwards. */
module MirageMaintenance {
  import opened Wrappers
  import opened Text
  import Seqs

  /** The number of readings per history (`[i64; 21]`). */
  const HistoryLen: nat := 21

  /** `windows(2).map(|w| w[1] - w[0])`. */
  function Diffs(row: seq<int>): (d: seq<int>)
    ensures |row| >= 1 ==> |d| == |row| - 1
    ensures |row| == 0 ==> |d| == 0
  {
    DiffsFrom(row, 0)
  }

  /** The differences of the windows that start at `k` or later. */
  function DiffsFrom(row: seq<int>, k: nat): (d: seq<int>)
    requires k <= |row|
    ensures |d| == if k + 1 >= |row| then 0 else |row| - 1 - k
    decreases |row| - k
  {
    if k + 1 >= |row| then [] else [row[k + 1] - row[k]] + DiffsFrom(row, k + 1)
  }

  /** The `i`-th difference from `k` on is that of readings `k + i` and
      `k + i + 1`. */
  lemma {:induction false} DiffsFromAt(row: seq<int>, k: nat)
    requires k <= |row|
    ensures forall i :: 0 <= i < |DiffsFrom(row, k)| ==> DiffsFrom(row, k)[i] == row[k + i + 1] - row[k + i]
    decreases |row| - k
  {
    if k + 1 < |row| {
      DiffsFromAt(row, k + 1);
    }
  }

  /** Each difference is that of two consecutive readings. */
  lemma DiffsAt(row: seq<int>)
    ensures forall i :: 0 <= i < |Diffs(row)| ==> Diffs(row)[i] == row[i + 1] - row[i]
  {
    DiffsFromAt(row, 0);
  }

  /** Appending a reading appends one window at the end. */
  lemma {:induction false} DiffsFromAppend(row: seq<int>, x: int, k: nat)
    requires k < |row|
    ensures DiffsFrom(row + [x], k) == DiffsFrom(row, k) + [x - row[|row| - 1]]
    decreases |row| - k
  {
    if k + 1 < |row| {
      DiffsFromAppend(row, x, k + 1);
    }
  }

  predicate AllZero(row: seq<int>)
  {
    forall i :: 0 <= i < |row| ==> row[i] == 0
  }

  /** `extrapolate`: 0 for a row of zeros, else the last difference plus the
      extrapolation of the differences; `None` where a non-zero row of one
      reading has no differences and `last().unwrap()` panics. */
  function Extrapolate(row: seq<int>): (r: Option<int>)
    ensures AllZero(row) ==> r == Some(0)
    ensures !AllZero(row) && |row| <= 1 ==> r.None?
    decreases |row|
  {
    if AllZero(row) then Some(0)
    else
      var d := Diffs(row);
      if |d| == 0 then None
      else
        var e :- Extrapolate(d);
        Some(d[|d| - 1] + e)
  }

  // ---------------------------------------------------------------------
  // Properties of the difference table

  /** The differences add up to the change from the first reading to the
      last. */
  lemma {:induction false} DiffsTelescope(row: seq<int>)
    requires |row| >= 1
    ensures Seqs.Sum(Diffs(row)) == row[|row| - 1] - row[0]
    decreases |row|
  {
    if |row| >= 2 {
      var front := row[..|row| - 1];
      DiffsTelescope(front);
      DiffsFront(row);
    }
  }

  /** Dropping the last reading drops the last difference. */
  lemma DiffsFront(row: seq<int>)
    requires |row| >= 2
    ensures var d := Diffs(row);
      d[..|d| - 1] == Diffs(row[..|row| - 1]) && d[|d| - 1] == row[|row| - 1] - row[|row| - 2]
  {
    var front := row[..|row| - 1];
    assert front + [row[|row| - 1]] == row;
    DiffsAppend(front, row[|row| - 1]);
  }

  /** Reversing a history reverses and negates its differences. */
  lemma DiffsReverse(row: seq<int>)
    ensures var d := Diffs(row);
      var dr := Diffs(Seqs.Reverse(row));
      |dr| == |d| && forall i :: 0 <= i < |d| ==> dr[i] == -d[|d| - 1 - i]
  {
    DiffsAt(row);
    DiffsAt(Seqs.Reverse(row));
    var d, rev := Diffs(row), Seqs.Reverse(row);
    var dr := Diffs(rev);
    forall i | 0 <= i < |d|
      ensures dr[i] == -d[|d| - 1 - i]
    {
      var n := |row|;
      assert dr[i] == rev[i + 1] - rev[i];
      assert rev[i + 1] == row[n - 2 - i] && rev[i] == row[n - 1 - i];
      assert d[n - 2 - i] == row[n - 1 - i] - row[n - 2 - i];
    }
  }

  predicate IsConstant(row: seq<int>, c: int)
  {
    forall i :: 0 <= i < |row| ==> row[i] == c
  }

  /** `row[i] == a + step * i` for every reading. */
  predicate IsArithmetic(row: seq<int>, a: int, step: int)
  {
    forall i :: 0 <= i < |row| ==> row[i] == a + step * i
  }

  /** A constant history of two or more readings continues with the same
      value; a single non-zero reading panics. */
  lemma ConstantRow(row: seq<int>, c: int)
    requires IsConstant(row, c)
    ensures |row| >= 2 || c == 0 ==> Extrapolate(row) == Some(0)
    ensures |row| == 1 && c != 0 ==> Extrapolate(row).None?
  {
    var n := |row|;
    if n >= 2 && c != 0 {
      assert !AllZero(row) by {
        assert row[0] != 0;
      }
      var d := Diffs(row);
      DiffsAt(row);
      forall i | 0 <= i < |d|
        ensures d[i] == 0
      {
        assert d[i] == row[i + 1] - row[i];
      }
      assert Extrapolate(d) == Some(0);
      ExtrapolateUnfold(row);
    } else if c != 0 && n == 1 {
      assert row[0] != 0;
    }
  }

  /** One step of `extrapolate` on a non-zero row of two or more
      readings. */
  lemma ExtrapolateUnfold(row: seq<int>)
    requires |row| >= 2 && !AllZero(row)
    ensures Extrapolate(row) == (if Extrapolate(Diffs(row)).Some?
      then Some(Diffs(row)[|row| - 2] + Extrapolate(Diffs(row)).value) else None)
  {
  }

  /** An arithmetic history of three or more readings continues with its
      step: the extrapolated reading is `a + step * n`, one step after the
      last. */
  lemma ArithmeticRow(row: seq<int>, a: int, step: int)
    requires |row| >= 3 && IsArithmetic(row, a, step)
    ensures Extrapolate(row) == Some(step)
  {
    var d := Diffs(row);
    DiffsAt(row);
    forall i | 0 <= i < |d|
      ensures d[i] == step
    {
      assert d[i] == row[i + 1] - row[i];
      assert row[i + 1] == a + step * (i + 1) && row[i] == a + step * i;
      assert a + step * (i + 1) == a + step * i + step;
    }
    ConstantRow(d, step);
    if AllZero(row) {
      assert row[0] == a && row[1] == a + step;
    }
  }

  /** Reversed, an arithmetic history is the arithmetic history that starts
      at its last reading and steps backwards, so part two extrapolates the
      step backwards. */
  lemma ArithmeticReversed(row: seq<int>, a: int, step: int)
    requires |row| >= 3 && IsArithmetic(row, a, step)
    ensures IsArithmetic(Seqs.Reverse(row), a + step * (|row| - 1), -step)
    ensures Extrapolate(Seqs.Reverse(row)) == Some(-step)
  {
    var n := |row|;
    var rev := Seqs.Reverse(row);
    forall i | 0 <= i < n
      ensures rev[i] == a + step * (n - 1) + (-step) * i
    {
      StepBack(step, n, i);
    }
    ArithmeticRow(rev, a + step * (n - 1), -step);
  }

  lemma StepBack(step: int, n: int, i: int)
    ensures step * (n - 1 - i) == step * (n - 1) + (-step) * i
  {
  }

  // ---------------------------------------------------------------------
  // What the extrapolated reading is

  /** The `k`-th row of the difference table. */
  function DiffsN(row: seq<int>, k: nat): seq<int>
    decreases k
  {
    if k == 0 then row else DiffsN(Diffs(row), k - 1)
  }

  /** The row of the table at which the differences become all zero;
      nothing when a single non-zero reading is reached first. */
  function Depth(row: seq<int>): (k: Option<nat>)
    decreases |row|
  {
    if AllZero(row) then Some(0)
    else if |row| <= 1 then None
    else
      var k :- Depth(Diffs(row));
      Some(k + 1)
  }

  /** `v` is a next reading of `row`: with it appended, the difference
      table still reaches zeros at the same row. */
  predicate IsNext(row: seq<int>, v: int)
  {
    Depth(row).Some? && AllZero(DiffsN(row + [v], Depth(row).value))
  }

  /** Appending a reading appends its change from the last one to the
      differences. */
  lemma DiffsAppend(row: seq<int>, x: int)
    requires |row| >= 1
    ensures Diffs(row + [x]) == Diffs(row) + [x - row[|row| - 1]]
  {
    DiffsFromAppend(row, x, 0);
  }

  /** `extrapolate` succeeds exactly where the table reaches zeros, and the
      reading it gives is a next reading. */
  lemma {:induction false} ExtrapolateIsNext(row: seq<int>)
    requires |row| >= 1
    ensures Extrapolate(row).Some? <==> Depth(row).Some?
    ensures Extrapolate(row).Some? ==> IsNext(row, row[|row| - 1] + Extrapolate(row).value)
    decreases |row|
  {
    if AllZero(row) {
      ZeroNext(row);
    } else if |row| > 1 {
      var d := Diffs(row);
      ExtrapolateIsNext(d);
      if Extrapolate(d).Some? {
        NextStep(row, d, d[|d| - 1] + Extrapolate(d).value);
      }
    }
  }

  /** A row of zeros continues with 0. */
  lemma ZeroNext(row: seq<int>)
    requires |row| >= 1 && AllZero(row)
    ensures IsNext(row, row[|row| - 1] + 0)
  {
    assert row[|row| - 1] == 0;
  }

  /** A next reading of the differences, added to the last reading, is a
      next reading of the row. */
  lemma NextStep(row: seq<int>, d: seq<int>, e: int)
    requires |row| >= 2 && !AllZero(row) && d == Diffs(row)
    requires IsNext(d, e)
    ensures Depth(row) == Some(Depth(d).value + 1)
    ensures IsNext(row, row[|row| - 1] + e)
  {
    var v := row[|row| - 1] + e;
    DiffsAppend(row, v);
    DiffsNStep(row + [v], Depth(d).value);
  }

  /** One row down the table. */
  lemma DiffsNStep(x: seq<int>, k: nat)
    ensures DiffsN(x, k + 1) == DiffsN(Diffs(x), k)
  {
  }

  /** A next reading of the row, less the last reading, is a next reading
      of the differences. */
  lemma NextBack(row: seq<int>, v: int)
    requires |row| >= 2 && !AllZero(row) && IsNext(row, v)
    ensures IsNext(Diffs(row), v - row[|row| - 1])
  {
    DiffsAppend(row, v);
    DiffsNStep(row + [v], Depth(Diffs(row)).value);
  }

  /** There is only one next reading. */
  lemma {:induction false} NextUnique(row: seq<int>, v: int, w: int)
    requires |row| >= 1 && IsNext(row, v) && IsNext(row, w)
    ensures v == w
    decreases |row|
  {
    if AllZero(row) {
      assert Depth(row) == Some(0);
      assert (row + [v])[|row|] == v && (row + [w])[|row|] == w;
    } else {
      assert |row| >= 2;
      NextBack(row, v);
      NextBack(row, w);
      NextUnique(Diffs(row), v - row[|row| - 1], w - row[|row| - 1]);
    }
  }

  // ---------------------------------------------------------------------
  // Parsing and parts

  /** A history: the first 21 words of the line as `i64`; `None` where a
      word is missing or is not a number.  Words after the 21st are never
      read. */
  function ParseHistory(line: string): (r: Option<seq<int>>)
    ensures r.Some? <==> (|Words(line)| >= HistoryLen &&
      forall i :: 0 <= i < HistoryLen ==> ParseInt(Words(line)[i]).Some?)
    ensures r.Some? ==> (|r.value| == HistoryLen &&
      forall i :: 0 <= i < HistoryLen ==> Some(r.value[i]) == ParseInt(Words(line)[i]))
  {
    var words := Words(line);
    if |words| < HistoryLen then None else Seqs.MapAll(words[..HistoryLen], ParseInt)
  }

  /** The last reading plus `extrapolate`: the next reading, when the
      table reaches zeros. */
  function Next(row: seq<int>): (r: Option<int>)
    requires |row| >= 1
    ensures r.Some? <==> Depth(row).Some?
    ensures r.Some? ==> IsNext(row, r.value)
  {
    ExtrapolateIsNext(row);
    var e :- Extrapolate(row);
    Some(row[|row| - 1] + e)
  }

  /** `a[20] + extrapolate(a)`: the reading after the last. */
  function LineOne(line: string): (r: Option<int>)
    ensures r.Some? <==> ParseHistory(line).Some? && Depth(ParseHistory(line).value).Some?
    ensures r.Some? ==> IsNext(ParseHistory(line).value, r.value)
  {
    var row :- ParseHistory(line);
    Next(row)
  }

  /** The same on the reversed history: the reading before the first. */
  function LineTwo(line: string): (r: Option<int>)
    ensures r.Some? <==> ParseHistory(line).Some? && Depth(Seqs.Reverse(ParseHistory(line).value)).Some?
    ensures r.Some? ==> IsNext(Seqs.Reverse(ParseHistory(line).value), r.value)
  {
    var row :- ParseHistory(line);
    Next(Seqs.Reverse(row))
  }

  /** `part_one`; `None` where a line panics. */
  function PartOne(input: string): (r: Option<int>)
    ensures r.Some? <==> forall i :: 0 <= i < |Lines(input)| ==> LineOne(Lines(input)[i]).Some?
    ensures r.Some? ==> r.value == Seqs.Total(Lines(input), LineOne)
  {
    Seqs.SumOf(Lines(input), LineOne)
  }

  function PartTwo(input: string): (r: Option<int>)
    ensures r.Some? <==> forall i :: 0 <= i < |Lines(input)| ==> LineTwo(Lines(input)[i]).Some?
    ensures r.Some? ==> r.value == Seqs.Total(Lines(input), LineTwo)
  {
    Seqs.SumOf(Lines(input), LineTwo)
  }
}
