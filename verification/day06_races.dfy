/** aoc-06: boat races.  Holding the button for `h` of a race's `time`
    milliseconds moves the boat `(time - h) * h` millimetres; a hold time
    wins when that beats the record.  Part one multiplies the winning counts
    of the races listed in columns; part two reads each line as one number
    with the spaces removed. */
module BoatRaces {
  import opened Wrappers
  import opened Text
  import Seqs

  datatype Race = Race(time: nat, record: nat)

  /** The column at which the numbers of the "Time:" and "Distance:" lines
      start. */
  const Column: nat := 10

  predicate Wins(race: Race, h: int)
  {
    (race.time - h) * h > race.record
  }

  /** The number of winning hold times in `1 .. n`. */
  function CountBelow(race: Race, n: nat): (c: nat)
    ensures c <= if n == 0 then 0 else n - 1
  {
    if n <= 1 then 0 else CountBelow(race, n - 1) + (if Wins(race, n - 1) then 1 else 0)
  }

  /** `ways_to_win`: winning hold times among `1 .. time`. */
  method WaysToWin(race: Race) returns (count: nat)
    ensures count == CountBelow(race, race.time)
    ensures race.time >= 1 ==> count <= race.time - 1
  {
    count := 0;
    var h := 1;
    while h < race.time
      invariant 1 <= h && (h <= race.time || h == 1)
      invariant count == CountBelow(race, h)
    {
      if (race.time - h) * h > race.record {
        count := count + 1;
      }
      h := h + 1;
    }
    if race.time == 0 {
      assert CountBelow(race, h) == CountBelow(race, 0);
    }
  }

  // ---------------------------------------------------------------------
  // The winning hold times form an interval symmetric about time / 2

  /** Holding `h` and holding `time - h` travel the same distance. */
  lemma WinsSymmetric(race: Race, h: int)
    ensures Wins(race, h) <==> Wins(race, race.time - h)
  {
    assert (race.time - (race.time - h)) * (race.time - h) == (race.time - h) * h;
  }

  /** `(t - h) * h - (t - a) * a == (h - a) * (t - h - a)`. */
  lemma DistanceGap(t: int, a: int, h: int)
    ensures (t - h) * h - (t - a) * a == (h - a) * (t - h - a)
  {
  }

  lemma MulNonNegative(x: int, y: int)
    requires x >= 0 && y >= 0
    ensures x * y >= 0
  {
  }

  /** A hold time between two winning ones wins too. */
  lemma WinsBetween(race: Race, a: int, h: int, b: int)
    requires a <= h <= b
    requires Wins(race, a) && Wins(race, b)
    ensures Wins(race, h)
  {
    var t := race.time;
    DistanceGap(t, a, h);
    DistanceGap(t, b, h);
    if t - h - a >= 0 {
      MulNonNegative(h - a, t - h - a);
    } else {
      MulNonNegative(b - h, h + b - t);
      assert (b - h) * (h + b - t) == (h - b) * (t - h - b);
    }
  }

  /** Counting an interval `lo ..= hi` of winners below `n`. */
  lemma {:induction false} CountInterval(race: Race, lo: nat, hi: nat, n: nat)
    requires 1 <= lo <= hi < race.time
    requires forall h :: 1 <= h < race.time ==> (Wins(race, h) <==> lo <= h <= hi)
    requires n <= race.time
    ensures CountBelow(race, n) == if n <= lo then 0 else if n - 1 <= hi then n - lo else hi - lo + 1
    decreases n
  {
    if n > 1 {
      CountInterval(race, lo, hi, n - 1);
      assert Wins(race, n - 1) <==> lo <= n - 1 <= hi;
    }
  }

  /** When `lo` is the least winning hold time, the winners are exactly
      `lo ..= time - lo`, so there are `time - 2 * lo + 1` of them. */
  lemma WinnersInterval(race: Race, lo: nat)
    requires 1 <= lo < race.time && Wins(race, lo)
    requires forall h :: 1 <= h < lo ==> !Wins(race, h)
    ensures lo <= race.time - lo
    ensures forall h :: 1 <= h < race.time ==> (Wins(race, h) <==> lo <= h <= race.time - lo)
    ensures CountBelow(race, race.time) == race.time - 2 * lo + 1
  {
    var t := race.time;
    WinsSymmetric(race, lo);
    assert lo <= t - lo;
    forall h | 1 <= h < t
      ensures Wins(race, h) <==> lo <= h <= t - lo
    {
      WinsSymmetric(race, h);
      if lo <= h <= t - lo {
        WinsBetween(race, lo, h, t - lo);
      }
    }
    CountInterval(race, lo, t - lo, t);
  }

  // ---------------------------------------------------------------------
  // Parts

  /** The winning count of each race, in order. */
  function Ways(races: seq<Race>): (r: seq<int>)
    ensures |r| == |races|
    ensures forall i :: 0 <= i < |races| ==> r[i] == CountBelow(races[i], races[i].time)
  {
    seq(|races|, i requires 0 <= i < |races| => CountBelow(races[i], races[i].time) as int)
  }

  /** `part_one`: the product of the winning counts; `None` where the
      `reduce().unwrap()` panics on no races. */
  method ProductOfWays(races: seq<Race>) returns (r: Option<nat>)
    ensures r.None? <==> |races| == 0
    ensures r.Some? ==> r.value == Seqs.Product(Ways(races))
  {
    if |races| == 0 {
      return None;
    }
    ghost var counts := Ways(races);
    var product: nat := 1;
    var i := 0;
    while i < |races|
      invariant 0 <= i <= |races|
      invariant product as int == Seqs.Product(counts[..i])
    {
      var w := WaysToWin(races[i]);
      assert counts[..i + 1][..i] == counts[..i];
      product := product * w;
      i := i + 1;
    }
    assert counts[..|races|] == counts;
    r := Some(product);
  }

  /** The text of a line from column 10 on, or `None` where the line is
      missing or the slice `[10..]` panics. */
  function Tail(lines: seq<string>, k: nat): (r: Option<string>)
    ensures r.Some? <==> k < |lines| && |lines[k]| >= Column
    ensures r.Some? ==> r.value == lines[k][Column..]
  {
    if k < |lines| && |lines[k]| >= Column then Some(lines[k][Column..]) else None
  }

  /** Every time is a number, and so is every record up to and including
      the one `zip` reads past the last race. */
  predicate Readable(times: seq<string>, records: seq<string>) {
    (forall i :: 0 <= i < |times| ==> ParseNat(times[i]).Some?) &&
    (forall j :: 0 <= j < |records| && j <= |times| ==> ParseNat(records[j]).Some?)
  }

  /** The races of the words of the two lines: one per time, the `i`-th
      record read into race `i`.  `zip` reads one record past the last race
      before it stops, so that one must parse too; missing records stay 0
      and later ones are never read. */
  function RacesOf(times: seq<string>, records: seq<string>): (r: Option<seq<Race>>)
    ensures r.Some? <==> Readable(times, records)
    ensures r.Some? ==> |r.value| == |times|
    ensures r.Some? ==>
      forall i :: 0 <= i < |r.value| ==> Some(r.value[i].time) == ParseNat(times[i])
    ensures r.Some? ==>
      forall i :: 0 <= i < |r.value| ==>
        (i < |records| ==> Some(r.value[i].record) == ParseNat(records[i])) &&
        (i >= |records| ==> r.value[i].record == 0)
  {
    var read := if |records| <= |times| then |records| else |times| + 1;
    Seqs.MapAllPrefix(records, read, ParseNat);
    var ts :- Seqs.MapAll(times, ParseNat);
    var rs :- Seqs.MapAll(records[..read], ParseNat);
    Some(Zipped(ts, rs))
  }

  /** `parse_input_part_one`: the races of the words of the first two lines
      from column 10 on; nothing exactly when a line is missing or shorter
      than 10 bytes, a time is not a number, or a record among those `zip`
      reads is not one. */
  function ParseRaces(lines: seq<string>): (r: Option<seq<Race>>)
    ensures r.Some? <==>
      Tail(lines, 0).Some? && Tail(lines, 1).Some? &&
      Readable(Words(Tail(lines, 0).value), Words(Tail(lines, 1).value))
    ensures r.Some? ==> r == RacesOf(Words(Tail(lines, 0).value), Words(Tail(lines, 1).value))
  {
    var first :- Tail(lines, 0);
    var second :- Tail(lines, 1);
    RacesOf(Words(first), Words(second))
  }

  /** Race `i` has the `i`-th time and the `i`-th record, 0 past the last
      record. */
  function Zipped(times: seq<nat>, records: seq<nat>): (r: seq<Race>)
    ensures |r| == |times|
    ensures forall i :: 0 <= i < |times| ==>
      r[i].time == times[i] && r[i].record == if i < |records| then records[i] else 0
  {
    seq(|times|, i requires 0 <= i < |times| => Race(times[i], if i < |records| then records[i] else 0))
  }

  /** The words of a line joined without spaces by
      `fold(String::new(), |acc, s| acc + s)`, read as one number: the
      number written by the line's non-space characters. */
  function Kerned(tail: string): (r: Option<nat>)
    ensures r == ParseNat(Without(tail, SpaceChars))
  {
    ParseNat(Concat(Words(tail)))
  }

  /** `parse_input_part_two`; `None` where it panics. */
  function ParseRace(lines: seq<string>): (r: Option<Race>)
    ensures r.Some? <==>
      Tail(lines, 0).Some? && Tail(lines, 1).Some? &&
      Kerned(Tail(lines, 0).value).Some? && Kerned(Tail(lines, 1).value).Some?
    ensures r.Some? ==> Some(r.value.time) == Kerned(Tail(lines, 0).value)
    ensures r.Some? ==> Some(r.value.record) == Kerned(Tail(lines, 1).value)
  {
    var first :- Tail(lines, 0);
    var time :- Kerned(first);
    var second :- Tail(lines, 1);
    var record :- Kerned(second);
    Some(Race(time, record))
  }

  method PartOne(input: string) returns (r: Option<nat>)
    ensures r.Some? <==> ParseRaces(Lines(input)).Some? && |ParseRaces(Lines(input)).value| > 0
    ensures r.Some? ==> r.value == Seqs.Product(Ways(ParseRaces(Lines(input)).value))
  {
    var races := ParseRaces(Lines(input));
    if races.None? {
      return None;
    }
    r := ProductOfWays(races.value);
  }

  method PartTwo(input: string) returns (r: Option<nat>)
    ensures r.Some? <==> ParseRace(Lines(input)).Some?
    ensures r.Some? ==>
      var race := ParseRace(Lines(input)).value;
      r.value == CountBelow(race, race.time)
  {
    var race := ParseRace(Lines(input));
    if race.None? {
      return None;
    }
    var w := WaysToWin(race.value);
    r := Some(w);
  }
}
