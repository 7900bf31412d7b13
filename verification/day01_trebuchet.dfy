/** aoc-01: the calibration value of a line is its first digit times ten
    plus its last digit.  Part one looks only at digit characters; part two
    also accepts the spelled names "zero" .. "nine".  Characters are ASCII,
    so `char::is_numeric` is `IsDigit`. */
module Trebuchet {
  import opened Wrappers
  import opened Text
  import Seqs

  const Names: seq<string> :=
    ["zero", "one", "two", "three", "four", "five", "six", "seven", "eight", "nine"]

  predicate IsPrefix(p: string, s: string)
  {
    |p| <= |s| && s[..|p|] == p
  }

  predicate IsSuffix(p: string, s: string)
  {
    |p| <= |s| && s[|s| - |p|..] == p
  }

  // ---------------------------------------------------------------------
  // Part one

  /** `line.chars().find(is_numeric).unwrap().to_digit(10)`; `None` where
      the `unwrap` panics. */
  function FirstDigit(line: string): (r: Option<nat>)
    ensures r.None? <==> forall i :: 0 <= i < |line| ==> !IsDigit(line[i])
    ensures r.Some? ==> exists i :: (0 <= i < |line| && IsDigit(line[i]) &&
      r.value == DigitValue(line[i]) && forall j :: 0 <= j < i ==> !IsDigit(line[j]))
  {
    if |line| == 0 then None
    else if IsDigit(line[0]) then Some(DigitValue(line[0]))
    else
      var r := FirstDigit(line[1..]);
      assert forall i :: 1 <= i < |line| ==> line[1..][i - 1] == line[i];
      if r.Some? then
        var i :| 0 <= i < |line[1..]| && IsDigit(line[1..][i]) &&
          r.value == DigitValue(line[1..][i]) && forall j :: 0 <= j < i ==> !IsDigit(line[1..][j]);
        assert forall j :: 0 <= j < i + 1 ==> !IsDigit(line[j]) by {
          forall j | 0 <= j < i + 1
            ensures !IsDigit(line[j])
          {
            if j > 0 {
              assert line[j] == line[1..][j - 1];
            }
          }
        }
        r
      else r
  }

  /** The same search over `line.chars().rev()`. */
  function LastDigit(line: string): (r: Option<nat>)
    ensures r.None? <==> forall i :: 0 <= i < |line| ==> !IsDigit(line[i])
    ensures r.Some? ==> exists i :: (0 <= i < |line| && IsDigit(line[i]) &&
      r.value == DigitValue(line[i]) && forall j :: i < j < |line| ==> !IsDigit(line[j]))
  {
    if |line| == 0 then None
    else if IsDigit(line[|line| - 1]) then Some(DigitValue(line[|line| - 1]))
    else
      var front := line[..|line| - 1];
      assert forall i :: 0 <= i < |front| ==> front[i] == line[i];
      LastDigit(front)
  }

  // ---------------------------------------------------------------------
  // Part two

  /** Name `j` is at the start (or, with `atEnd`, at the end) of `s`. */
  predicate NameAt(j: nat, s: string, atEnd: bool)
    requires j < |Names|
  {
    if atEnd then IsSuffix(Names[j], s) else IsPrefix(Names[j], s)
  }

  /** Index of the first name that is a prefix (or suffix) of `s`, searching
      from name `k` on. */
  function NameFrom(s: string, k: nat, atEnd: bool): (r: Option<nat>)
    requires k <= |Names|
    ensures r.Some? ==> k <= r.value < |Names| && NameAt(r.value, s, atEnd)
    ensures r.Some? ==> forall j :: k <= j < r.value ==> !NameAt(j, s, atEnd)
    ensures r.None? <==> forall j :: k <= j < |Names| ==> !NameAt(j, s, atEnd)
    decreases |Names| - k
  {
    if k == |Names| then None
    else if NameAt(k, s, atEnd) then Some(k)
    else NameFrom(s, k + 1, atEnd)
  }

  /** `parse_str(|i| line.get(..i))`: a leading digit, else the first name
      the line starts with. */
  function PrefixDigit(line: string): (r: Option<nat>)
    ensures r.Some? ==> r.value <= 9
    ensures r.Some? <==>
      (|line| > 0 && IsDigit(line[0])) || exists j :: 0 <= j < |Names| && IsPrefix(Names[j], line)
    ensures |line| > 0 && IsDigit(line[0]) ==> r == Some(DigitValue(line[0]))
    ensures !(|line| > 0 && IsDigit(line[0])) && r.Some? ==> IsPrefix(Names[r.value], line)
  {
    if |line| >= 1 && IsDigit(line[0]) then Some(DigitValue(line[0]))
    else NameFrom(line, 0, false)
  }

  /** `parse_str(|i| line.len().checked_sub(i).map(|i| &line[i..]))`: a
      trailing digit, else the first name the line ends with. */
  function SuffixDigit(line: string): (r: Option<nat>)
    ensures r.Some? ==> r.value <= 9
    ensures r.Some? <==>
      (|line| > 0 && IsDigit(line[|line| - 1])) || exists j :: 0 <= j < |Names| && IsSuffix(Names[j], line)
    ensures |line| > 0 && IsDigit(line[|line| - 1]) ==> r == Some(DigitValue(line[|line| - 1]))
    ensures !(|line| > 0 && IsDigit(line[|line| - 1])) && r.Some? ==> IsSuffix(Names[r.value], line)
  {
    if |line| >= 1 && IsDigit(line[|line| - 1]) then Some(DigitValue(line[|line| - 1]))
    else NameFrom(line, 0, true)
  }

  /** The `tens` loop of `part_two`, at the point where `k` leading
      characters have been dropped: drop more until a prefix reads as a
      digit; `None` where slicing the empty line panics. */
  function FirstFrom(line: string, k: nat): (r: Option<nat>)
    requires k <= |line|
    ensures r.None? <==> forall i :: k <= i < |line| ==> PrefixDigit(line[i..]).None?
    ensures r.Some? ==> exists i :: (k <= i < |line| && PrefixDigit(line[i..]) == r &&
      forall j :: k <= j < i ==> PrefixDigit(line[j..]).None?)
    decreases |line| - k
  {
    if k == |line| then None
    else match PrefixDigit(line[k..])
      case Some(d) => Some(d)
      case None => FirstFrom(line, k + 1)
  }

  function FirstDigitTwo(line: string): (r: Option<nat>)
    ensures r.None? <==> forall i :: 0 <= i < |line| ==> PrefixDigit(line[i..]).None?
    ensures r.Some? ==> exists i :: (0 <= i < |line| && PrefixDigit(line[i..]) == r &&
      forall j :: 0 <= j < i ==> PrefixDigit(line[j..]).None?)
  {
    FirstFrom(line, 0)
  }

  /** The `ones` loop of `part_two`, at the point where the line has been
      cut to its first `n` characters: cut more until a suffix reads as a
      digit. */
  function LastFrom(line: string, n: nat): (r: Option<nat>)
    requires n <= |line|
    ensures r.None? <==> forall i :: 0 < i <= n ==> SuffixDigit(line[..i]).None?
    ensures r.Some? ==> exists i :: (0 < i <= n && SuffixDigit(line[..i]) == r &&
      forall j :: i < j <= n ==> SuffixDigit(line[..j]).None?)
    decreases n
  {
    if n == 0 then None
    else match SuffixDigit(line[..n])
      case Some(d) => Some(d)
      case None => LastFrom(line, n - 1)
  }

  function LastDigitTwo(line: string): (r: Option<nat>)
    ensures r.None? <==> forall i :: 0 < i <= |line| ==> SuffixDigit(line[..i]).None?
    ensures r.Some? ==> exists i :: (0 < i <= |line| && SuffixDigit(line[..i]) == r &&
      forall j :: i < j <= |line| ==> SuffixDigit(line[..j]).None?)
  {
    LastFrom(line, |line|)
  }

  // ---------------------------------------------------------------------
  // Sums

  /** The calibration value `tens(line) * 10 + ones(line)`. */
  function Calibrate(tens: Option<nat>, ones: Option<nat>): (r: Option<nat>)
    requires tens.Some? ==> tens.value <= 9
    requires ones.Some? ==> ones.value <= 9
    ensures r.Some? <==> tens.Some? && ones.Some?
    ensures r.Some? ==> r.value <= 99 && r.value / 10 == tens.value && r.value % 10 == ones.value
  {
    if tens.Some? && ones.Some? then Some(tens.value * 10 + ones.value) else None
  }

  /** Part one's value of a line: ten times its first digit plus its last
      digit; nothing when the line has no digit. */
  function LineOne(line: string): (r: Option<int>)
    ensures r.Some? <==> FirstDigit(line).Some? && LastDigit(line).Some?
    ensures r.Some? ==> r.value == 10 * FirstDigit(line).value + LastDigit(line).value
    ensures r.Some? ==> 0 <= r.value <= 99
  {
    Calibrate(FirstDigit(line), LastDigit(line))
  }

  /** Part two's value of a line: the same, with names read as digits. */
  function LineTwo(line: string): (r: Option<int>)
    ensures r.Some? <==> FirstDigitTwo(line).Some? && LastDigitTwo(line).Some?
    ensures r.Some? ==> r.value == 10 * FirstDigitTwo(line).value + LastDigitTwo(line).value
    ensures r.Some? ==> 0 <= r.value <= 99
  {
    var t := FirstDigitTwo(line);
    var o := LastDigitTwo(line);
    Calibrate(t, o)
  }

  /** `sum_lines`: the sum of the per-line calibration values; `None` if
      any line panics.  The per-line value is passed in, as the closures
      are in the program. */
  function SumLines(lines: seq<string>, value: string -> Option<int>): (r: Option<nat>)
    requires forall s :: value(s).Some? ==> 0 <= value(s).value <= 99
    ensures r.Some? <==> forall i :: 0 <= i < |lines| ==> value(lines[i]).Some?
    ensures r.Some? ==> r.value == Seqs.Total(lines, value)
    ensures r.Some? ==> r.value <= 99 * |lines|
  {
    match Seqs.SumOf(lines, value)
    case None => None
    case Some(total) =>
      Seqs.TotalBounds(lines, value, 0, 99);
      Some(total)
  }

  /** The sum of part one's line values, when every line has a digit. */
  function PartOne(input: string): (r: Option<nat>)
    ensures r.Some? <==> forall i :: 0 <= i < |Lines(input)| ==> LineOne(Lines(input)[i]).Some?
    ensures r.Some? ==> r.value == Seqs.Total(Lines(input), LineOne)
  {
    SumLines(Lines(input), LineOne)
  }

  /** The sum of part two's line values, when every line reads both ends. */
  function PartTwo(input: string): (r: Option<nat>)
    ensures r.Some? <==> forall i :: 0 <= i < |Lines(input)| ==> LineTwo(Lines(input)[i]).Some?
    ensures r.Some? ==> r.value == Seqs.Total(Lines(input), LineTwo)
  {
    SumLines(Lines(input), LineTwo)
  }

  // ---------------------------------------------------------------------
  // Properties

  /** A line with a digit has a part-two value for each end at least as
      early as its first, and at least as late as its last, digit. */
  lemma DigitsSufficeForPartTwo(line: string)
    ensures FirstDigit(line).Some? ==> FirstDigitTwo(line).Some?
    ensures LastDigit(line).Some? ==> LastDigitTwo(line).Some?
  {
    if FirstDigit(line).Some? {
      var i :| 0 <= i < |line| && IsDigit(line[i]);
      assert line[i..][0] == line[i];
    }
    if LastDigit(line).Some? {
      var i :| 0 <= i < |line| && IsDigit(line[i]);
      assert line[..i + 1][i] == line[i];
    }
  }

  /** The two ends are searched independently, so overlapping names both
      count: "twone" reads as 2 at the front and 1 at the back. */
  lemma OverlappingNames()
    ensures LineTwo("twone") == Some(21)
  {
    assert IsPrefix(Names[2], "twone");
    assert PrefixDigit("twone") == Some(2);
    assert FirstDigitTwo("twone") == Some(2);
    var s := "twone";
    assert s[..5] == s;
    assert IsSuffix(Names[1], s);
    assert !IsSuffix(Names[0], s);
    assert SuffixDigit(s) == Some(1);
    assert LastDigitTwo(s) == Some(1);
  }
}
