/** aoc-05: an almanac of seven piecewise maps (seed to soil, soil to
    fertilizer, ..., humidity to location).  Each map is a list of ranges
    `dst src len` sending `src + k` to `dst + k` for `k < len`; a number no
    range covers maps to itself.  Part one takes the least location over the
    listed seeds; part two over the seed ranges given by pairs, which the
    source splits into equal chunks for its worker threads. */
module Almanac {
  import opened Wrappers
  import opened Text
  import Seqs
  import opened Arith

  /** `RangeMap`. */
  datatype RangeMap = RangeMap(dst: nat, src: nat, len: nat) {
    predicate Contains(seed: nat) {
      src <= seed < src + len
    }
  }

  type Mapping = seq<RangeMap>

  /** The number of maps in an almanac. */
  const MapCount: nat := 7

  /** `u64::MAX`, the initial value of part two's shared minimum. */
  const U64Max: nat := 0xFFFF_FFFF_FFFF_FFFF

  // ---------------------------------------------------------------------
  // Applying the maps

  /** The `find` of `find_location`: the first range covering `seed`. */
  function FirstRange(m: Mapping, seed: nat): (r: Option<nat>)
    ensures r.None? <==> forall k :: 0 <= k < |m| ==> !m[k].Contains(seed)
    ensures r.Some? ==>
      r.value < |m| && m[r.value].Contains(seed) && forall k :: 0 <= k < r.value ==> !m[k].Contains(seed)
  {
    if |m| == 0 then None
    else if m[0].Contains(seed) then Some(0)
    else
      var r := FirstRange(m[1..], seed);
      assert forall k :: 1 <= k < |m| ==> m[1..][k - 1] == m[k];
      match r
      case None => None
      case Some(k) => Some(k + 1)
  }

  /** One step of `find_location`'s loop. */
  function Apply(m: Mapping, seed: nat): nat
  {
    match FirstRange(m, seed)
    case None => seed
    case Some(k) => m[k].dst + (seed - m[k].src)
  }

  predicate Disjoint(m: Mapping)
  {
    forall i, j :: 0 <= i < j < |m| ==> m[i].src + m[i].len <= m[j].src || m[j].src + m[j].len <= m[i].src
  }

  /** A number no range covers is left alone. */
  lemma ApplyUncovered(m: Mapping, seed: nat)
    requires forall k :: 0 <= k < |m| ==> !m[k].Contains(seed)
    ensures Apply(m, seed) == seed
  {
  }

  /** When the source ranges do not overlap (as in the puzzle), the first
      match is the only match: any covering range decides the result. */
  lemma ApplyCovered(m: Mapping, seed: nat, k: nat)
    requires Disjoint(m)
    requires k < |m| && m[k].Contains(seed)
    ensures Apply(m, seed) == m[k].dst + (seed - m[k].src)
  {
  }

  /** A covered number moves by the offset `dst - src` of its range. */
  lemma ApplyShifts(m: Mapping, seed: nat)
    requires FirstRange(m, seed).Some?
    ensures var k := FirstRange(m, seed).value;
      Apply(m, seed) - seed == m[k].dst - m[k].src
  {
  }

  /** `find_location`: the maps applied in order, each to the previous
      output. */
  function FindLocation(maps: seq<Mapping>, seed: nat): nat
  {
    if |maps| == 0 then seed else FindLocation(maps[1..], Apply(maps[0], seed))
  }

  lemma {:induction false} FindLocationAppend(a: seq<Mapping>, b: seq<Mapping>, seed: nat)
    ensures FindLocation(a + b, seed) == FindLocation(b, FindLocation(a, seed))
    decreases |a|
  {
    if |a| == 0 {
      assert a + b == b;
    } else {
      assert (a + b)[1..] == a[1..] + b;
      FindLocationAppend(a[1..], b, Apply(a[0], seed));
    }
  }

  /** Maps in which nothing is covered change nothing. */
  lemma {:induction false} FindLocationIdentity(maps: seq<Mapping>, seed: nat)
    requires forall i :: 0 <= i < |maps| ==> |maps[i]| == 0
    ensures FindLocation(maps, seed) == seed
    decreases |maps|
  {
    if |maps| > 0 {
      FindLocationIdentity(maps[1..], seed);
    }
  }

  // ---------------------------------------------------------------------
  // Part one

  /** `part_one`: the least location of the listed seeds; `None` where
      `min().unwrap()` panics on no seeds. */
  function PartOne(seeds: seq<nat>, maps: seq<Mapping>): (r: Option<int>)
    ensures r.None? <==> |seeds| == 0
    ensures r.Some? ==> exists i :: 0 <= i < |seeds| && FindLocation(maps, seeds[i]) == r.value
    ensures r.Some? ==> forall i :: 0 <= i < |seeds| ==> r.value <= FindLocation(maps, seeds[i])
  {
    var locations := seq(|seeds|, i requires 0 <= i < |seeds| => FindLocation(maps, seeds[i]) as int);
    assert forall i :: 0 <= i < |seeds| ==> locations[i] == FindLocation(maps, seeds[i]);
    Seqs.Min(locations)
  }

  // ---------------------------------------------------------------------
  // Part two: the chunk arithmetic

  /** The `i`-th of `p` chunk bounds of the range `start .. start+len`. */
  function Bound(start: nat, len: nat, p: nat, i: nat): nat
    requires p > 0
  {
    start + len * i / p
  }

  /** The bounds start at `start`, end at `start + len` and never decrease,
      so the chunks `Bound(i) .. Bound(i+1)` tile the range. */
  lemma BoundsTile(start: nat, len: nat, p: nat, i: nat, j: nat)
    requires p > 0
    ensures Bound(start, len, p, 0) == start
    ensures Bound(start, len, p, p) == start + len
    ensures i <= j ==> Bound(start, len, p, i) <= Bound(start, len, p, j)
  {
    DivUnique(len * p, p, len, 0);
    if i <= j {
      assert len * i <= len * j by {
        MulMono(len, i, j);
      }
      DivMono(len * i, len * j, p);
    }
  }

  /** Every seed of the range falls in exactly one chunk. */
  lemma {:induction false} ChunkOf(start: nat, len: nat, p: nat, s: nat, k: nat)
    requires p > 0 && k <= p
    requires Bound(start, len, p, k) <= s < start + len
    ensures exists i :: k <= i < p && Bound(start, len, p, i) <= s < Bound(start, len, p, i + 1)
    decreases p - k
  {
    BoundsTile(start, len, p, 0, 0);
    if k == p {
      assert false;
    } else if s < Bound(start, len, p, k + 1) {
    } else {
      ChunkOf(start, len, p, s, k + 1);
    }
  }

  lemma ChunksDisjoint(start: nat, len: nat, p: nat, s: nat, i: nat, j: nat)
    requires p > 0 && i < j
    requires Bound(start, len, p, i) <= s < Bound(start, len, p, i + 1)
    ensures !(Bound(start, len, p, j) <= s < Bound(start, len, p, j + 1))
  {
    BoundsTile(start, len, p, i + 1, j);
  }

  /** Every chunk is non-empty exactly when the range holds at least one
      seed per worker; otherwise the first chunk is empty and its
      `min().unwrap()` panics. */
  lemma EmptyFirstChunk(start: nat, len: nat, p: nat)
    requires p > 0 && len < p
    ensures Bound(start, len, p, 0) == Bound(start, len, p, 1)
  {
  }

  lemma ChunksNonEmpty(start: nat, len: nat, p: nat, i: nat)
    requires p > 0 && len >= p
    ensures Bound(start, len, p, i) < Bound(start, len, p, i + 1)
  {
    DivStep(len * i, len, p);
    assert len * (i + 1) == len * i + len;
  }

  lemma DivStep(x: nat, d: nat, p: nat)
    requires p > 0 && d >= p
    ensures x / p < (x + d) / p
  {
    DivMono(x + p, x + d, p);
    DivUnique(x + p, p, x / p + 1, x % p);
  }

  /** The least location over `lo .. hi`, as one worker's `min()`. */
  method ChunkMin(maps: seq<Mapping>, lo: nat, hi: nat) returns (r: nat)
    requires lo < hi
    ensures exists s :: lo <= s < hi && FindLocation(maps, s) == r
    ensures forall s :: lo <= s < hi ==> r <= FindLocation(maps, s)
  {
    r := FindLocation(maps, lo);
    var s := lo + 1;
    while s < hi
      invariant lo < s <= hi
      invariant exists t :: lo <= t < s && FindLocation(maps, t) == r
      invariant forall t :: lo <= t < s ==> r <= FindLocation(maps, t)
    {
      var l := FindLocation(maps, s);
      if l < r {
        r := l;
      }
      s := s + 1;
    }
  }

  /** `chunks_exact(2)`: the (start, length) pairs of the seed list; an odd
      last seed is dropped. */
  function Pairs(seeds: seq<nat>): (r: seq<(nat, nat)>)
    ensures |r| == |seeds| / 2
    ensures forall k :: 0 <= k < |r| ==> 2 * k + 1 < |seeds| && r[k] == (seeds[2 * k], seeds[2 * k + 1])
  {
    seq(|seeds| / 2, k requires 0 <= k < |seeds| / 2 => (seeds[2 * k], seeds[2 * k + 1]))
  }

  /** A seed of some pair range `start .. start + len`. */
  predicate InPairRange(seeds: seq<nat>, s: nat)
  {
    var pairs := Pairs(seeds);
    exists k :: 0 <= k < |pairs| && pairs[k].0 <= s < pairs[k].0 + pairs[k].1
  }

  /** The least location over one pair range, as the minimum of the `p`
      workers' chunk minima. */
  method PairMin(maps: seq<Mapping>, start: nat, len: nat, p: nat) returns (m: nat)
    requires 0 < p <= len
    ensures forall s :: start <= s < start + len ==> m <= FindLocation(maps, s)
    ensures exists s :: start <= s < start + len && FindLocation(maps, s) == m
  {
    BoundsTile(start, len, p, 0, 0);
    ChunksNonEmpty(start, len, p, 0);
    m := ChunkMin(maps, start, Bound(start, len, p, 1));
    var i := 1;
    while i < p
      invariant 1 <= i <= p
      invariant forall s :: start <= s < Bound(start, len, p, i) ==> m <= FindLocation(maps, s)
      invariant exists s :: start <= s < Bound(start, len, p, i) && FindLocation(maps, s) == m
    {
      var lo := Bound(start, len, p, i);
      var hi := Bound(start, len, p, i + 1);
      ChunksNonEmpty(start, len, p, i);
      BoundsTile(start, len, p, 1, i);
      var c := ChunkMin(maps, lo, hi);
      if c < m {
        m := c;
      }
      i := i + 1;
    }
  }

  /** `part_two` with `p` workers, run one chunk after another: the least
      location over all pair ranges, `u64::MAX` when there are none, and
      `None` where a worker's empty chunk panics. */
  method PartTwo(seeds: seq<nat>, maps: seq<Mapping>, p: nat) returns (r: Option<nat>)
    requires p > 0
    ensures r.None? <==> exists k :: 0 <= k < |Pairs(seeds)| && Pairs(seeds)[k].1 < p
    ensures r.Some? ==> r.value <= U64Max
    ensures r.Some? ==> forall s :: InPairRange(seeds, s) ==> r.value <= FindLocation(maps, s)
    ensures r.Some? && r.value < U64Max ==> exists s :: InPairRange(seeds, s) && FindLocation(maps, s) == r.value
  {
    var pairs := Pairs(seeds);
    var best := U64Max;
    var k := 0;
    while k < |pairs|
      invariant k <= |pairs|
      invariant forall t :: 0 <= t < k ==> pairs[t].1 >= p
      invariant best <= U64Max
      invariant forall t, s :: 0 <= t < k && pairs[t].0 <= s < pairs[t].0 + pairs[t].1 ==>
        best <= FindLocation(maps, s)
      invariant best < U64Max ==> exists s :: InPairRange(seeds, s) && FindLocation(maps, s) == best
    {
      var (start, len) := pairs[k];
      if len < p {
        EmptyFirstChunk(start, len, p);
        return None;
      }
      var m := PairMin(maps, start, len, p);
      ghost var w :| start <= w < start + len && FindLocation(maps, w) == m;
      assert InPairRange(seeds, w);
      if m < best {
        best := m;
      }
      k := k + 1;
    }
    r := Some(best);
  }

  // ---------------------------------------------------------------------
  // Parsing

  /** One "dst src len" line; words after the third are never read. */
  function ParseRange(line: string): (r: Option<RangeMap>)
    ensures r.Some? <==>
      |Words(line)| >= 3 && ParseNat(Words(line)[0]).Some? && ParseNat(Words(line)[1]).Some? &&
      ParseNat(Words(line)[2]).Some?
    ensures r.Some? ==>
      Some(r.value.dst) == ParseNat(Words(line)[0]) && Some(r.value.src) == ParseNat(Words(line)[1]) &&
      Some(r.value.len) == ParseNat(Words(line)[2])
  {
    var words := Words(line);
    if |words| < 3 then None
    else
      var dst :- ParseNat(words[0]);
      var src :- ParseNat(words[1]);
      var len :- ParseNat(words[2]);
      Some(RangeMap(dst, src, len))
  }

  /** The end of the block starting at `pos`: the first empty line at or
      after `pos`, or the end of the input. */
  function BlockEnd(lines: seq<string>, pos: nat): (e: nat)
    requires pos <= |lines|
    ensures pos <= e <= |lines|
    ensures forall k :: pos <= k < e ==> |lines[k]| > 0
    ensures e == |lines| || |lines[e]| == 0
    decreases |lines| - pos
  {
    if pos == |lines| || |lines[pos]| == 0 then pos else BlockEnd(lines, pos + 1)
  }

  /** The block end is the only position with those properties. */
  lemma BlockEndIs(lines: seq<string>, pos: nat, e: nat)
    requires pos <= e <= |lines|
    requires forall k :: pos <= k < e ==> |lines[k]| > 0
    requires e == |lines| || |lines[e]| == 0
    ensures BlockEnd(lines, pos) == e
  {
  }

  /** The range lines of a block, read up to `BlockEnd`; the empty line
      ending the block, if any, is consumed.  Returns the ranges and the
      position after the block. */
  function ReadRanges(lines: seq<string>, pos: nat): (r: Option<(Mapping, nat)>)
    requires pos <= |lines|
    ensures ReadsBlock(lines, pos, r)
    decreases |lines| - pos
  {
    if pos == |lines| then Some(([], pos))
    else if |lines[pos]| == 0 then Some(([], pos + 1))
    else
      var head := ParseRange(lines[pos]);
      var tail := ReadRanges(lines, pos + 1);
      var r := if head.Some? && tail.Some? then Some(([head.value] + tail.value.0, tail.value.1)) else None;
      ReadsBlockStep(lines, pos, head, tail, r);
      r
  }

  /** A non-empty line in front of a block read from the next line. */
  lemma ReadsBlockStep(lines: seq<string>, pos: nat, head: Option<RangeMap>,
                       tail: Option<(Mapping, nat)>, r: Option<(Mapping, nat)>)
    requires pos < |lines| && |lines[pos]| > 0
    requires head == ParseRange(lines[pos]) && ReadsBlock(lines, pos + 1, tail)
    requires r == if head.Some? && tail.Some? then Some(([head.value] + tail.value.0, tail.value.1)) else None
    ensures ReadsBlock(lines, pos, r)
  {
    var e := BlockEnd(lines, pos + 1);
    assert BlockEnd(lines, pos) == e;
    if r.Some? {
      var rs := r.value.0;
      assert rs[1..] == tail.value.0;
      assert forall k :: pos <= k < e ==> Some(rs[k - pos]) == ParseRange(lines[k]) by {
        forall k | pos <= k < e
          ensures Some(rs[k - pos]) == ParseRange(lines[k])
        {
          if k > pos {
            assert rs[k - pos] == tail.value.0[k - pos - 1];
          }
        }
      }
    } else if head.Some? {
      var k :| pos + 1 <= k < e && ParseRange(lines[k]).None?;
    }
  }

  /** `r` is what reading the range lines from `start` gives: defined
      exactly when every line up to the block end parses, and then those
      ranges in order and the position after the block's empty line. */
  predicate ReadsBlock(lines: seq<string>, start: nat, r: Option<(Mapping, nat)>)
    requires start <= |lines|
  {
    var e := BlockEnd(lines, start);
    (r.Some? <==> forall k :: start <= k < e ==> ParseRange(lines[k]).Some?) &&
    (r.Some? ==>
      |r.value.0| == e - start &&
      (forall k :: start <= k < e ==> Some(r.value.0[k - start]) == ParseRange(lines[k])) &&
      r.value.1 == if e == |lines| then e else e + 1)
  }

  /** `parse_mapping` as written: skip two lines, then read ranges. */
  function ParseMappingAsWritten(lines: seq<string>, pos: nat): (r: Option<(Mapping, nat)>)
    requires pos <= |lines|
    ensures ReadsBlock(lines, SkipTwo(pos, |lines|), r)
  {
    ReadRanges(lines, SkipTwo(pos, |lines|))
  }

  /** The position after two `lines.next()` calls from `pos`. */
  function SkipTwo(pos: nat, n: nat): (r: nat)
    requires pos <= n
    ensures r <= n
  {
    if pos + 2 <= n then pos + 2 else n
  }

  /** The line after the first non-empty line at or after `pos` (the map's
      header), or the end of the input when there is none. */
  function AfterHeader(lines: seq<string>, pos: nat): (h: nat)
    requires pos <= |lines|
    ensures pos <= h <= |lines|
    ensures h == |lines| || (h > pos && |lines[h - 1]| > 0)
    ensures forall k :: pos <= k < h - 1 ==> |lines[k]| == 0
    decreases |lines| - pos
  {
    if pos == |lines| then pos
    else if |lines[pos]| == 0 then AfterHeader(lines, pos + 1)
    else pos + 1
  }

  /** `parse_mapping` as intended: skip the blank lines before the block and
      its header line, then read ranges.  Reading the ranges already
      consumes the blank line that ends the previous block, so the program's
      fixed skip of two lines also swallows the first range of every block
      after the first. */
  function ParseMapping(lines: seq<string>, pos: nat): (r: Option<(Mapping, nat)>)
    requires pos <= |lines|
    ensures r.Some? ==> pos <= r.value.1 <= |lines|
    decreases |lines| - pos
  {
    if pos < |lines| && |lines[pos]| == 0 then ParseMapping(lines, pos + 1)
    else
      var start := if pos < |lines| then pos + 1 else pos;
      ReadRanges(lines, start)
  }

  /** Whatever blank lines precede it, a block's header is skipped and all
      of its range lines are read. */
  lemma {:induction false} ParseMappingReadsBlock(lines: seq<string>, pos: nat, h: nat, e: nat)
    requires pos <= h < e <= |lines|
    requires forall k :: pos <= k < h ==> |lines[k]| == 0
    requires |lines[h]| > 0
    requires forall k :: h < k < e ==> |lines[k]| > 0 && ParseRange(lines[k]).Some?
    requires e == |lines| || |lines[e]| == 0
    ensures ParseMapping(lines, pos).Some?
    ensures |ParseMapping(lines, pos).value.0| == e - h - 1
    ensures forall k :: h < k < e ==> Some(ParseMapping(lines, pos).value.0[k - h - 1]) == ParseRange(lines[k])
    ensures ParseMapping(lines, pos).value.1 == if e == |lines| then e else e + 1
    decreases h - pos
  {
    if pos < h {
      ParseMappingReadsBlock(lines, pos + 1, h, e);
    } else {
      BlockEndIs(lines, h + 1, e);
    }
  }

  /** On any input, the corrected reader skips the blank lines and the
      header, then reads the following block as `ReadRanges` does. */
  lemma {:induction false} ParseMappingSkipsHeader(lines: seq<string>, pos: nat)
    requires pos <= |lines|
    ensures ReadsBlock(lines, AfterHeader(lines, pos), ParseMapping(lines, pos))
    decreases |lines| - pos
  {
    if pos < |lines| && |lines[pos]| == 0 {
      ParseMappingSkipsHeader(lines, pos + 1);
    }
  }

  /** The discrepancy: with an empty first block, the second block's only
      range line is swallowed by the fixed two-line skip. */
  lemma SkipSwallowsRange()
    ensures var lines := ["seeds: 1", "", "a map:", "", "b map:", "4 5 6"];
      && ParseMappingAsWritten(lines, 1) == Some(([], 4))
      && ParseMappingAsWritten(lines, 4) == Some(([], 6))
  {
    var lines := ["seeds: 1", "", "a map:", "", "b map:", "4 5 6"];
    assert |lines[3]| == 0;
    assert BlockEnd(lines, 3) == 3;
    assert BlockEnd(lines, 6) == 6;
  }

  /** `parse_mapping` run `n` times from `pos`, as `from_fn` does. */
  function ParseMappings(lines: seq<string>, pos: nat, n: nat): (r: Option<seq<Mapping>>)
    requires pos <= |lines|
    ensures r.Some? ==> |r.value| == n
    decreases n
  {
    if n == 0 then Some([])
    else
      var (m, next) :- ParseMapping(lines, pos);
      var rest :- ParseMappings(lines, next, n - 1);
      Some([m] + rest)
  }

  /** The position after `k` successive maps read from `pos`; nothing when
      one of them fails. */
  function Cursor(lines: seq<string>, pos: nat, k: nat): (r: Option<nat>)
    requires pos <= |lines|
    ensures r.Some? ==> pos <= r.value <= |lines|
    decreases k
  {
    if k == 0 then Some(pos)
    else
      var (_, next) :- ParseMapping(lines, pos);
      Cursor(lines, next, k - 1)
  }

  /** Map `k` of a run of reads from `pos` is `m`: the reader gives `m` at
      the cursor after `k` maps. */
  ghost predicate ReadAt(lines: seq<string>, pos: nat, k: nat, m: Mapping)
    requires pos <= |lines|
  {
    Cursor(lines, pos, k).Some? && Cursor(lines, pos, k + 1).Some? &&
    ParseMapping(lines, Cursor(lines, pos, k).value) == Some((m, Cursor(lines, pos, k + 1).value))
  }

  /** The maps read are the successive blocks: map `k` is what the reader
      gives at the cursor after `k` maps, and reading fails exactly when one
      of the `n` reads does. */
  lemma {:induction false} ParseMappingsBlocks(lines: seq<string>, pos: nat, n: nat)
    requires pos <= |lines|
    ensures ParseMappings(lines, pos, n).Some? <==> Cursor(lines, pos, n).Some?
    ensures ParseMappings(lines, pos, n).Some? ==>
      forall k: nat :: k < n ==> ReadAt(lines, pos, k, ParseMappings(lines, pos, n).value[k])
    decreases n
  {
    if n > 0 {
      var first := ParseMapping(lines, pos);
      if first.Some? {
        var next := first.value.1;
        ParseMappingsBlocks(lines, next, n - 1);
        assert Cursor(lines, pos, n) == Cursor(lines, next, n - 1);
        var r := ParseMappings(lines, pos, n);
        if r.Some? {
          var rest := ParseMappings(lines, next, n - 1).value;
          assert r.value == [first.value.0] + rest;
          forall k: nat | k < n
            ensures ReadAt(lines, pos, k, r.value[k])
          {
            if k == 0 {
              assert Cursor(lines, pos, 1) == Cursor(lines, next, 0);
            } else {
              ReadAtShift(lines, pos, k - 1, rest[k - 1]);
            }
          }
        }
      }
    }
  }

  /** Map `k + 1` from `pos` is map `k` from after the first block. */
  lemma ReadAtShift(lines: seq<string>, pos: nat, k: nat, m: Mapping)
    requires pos <= |lines| && ParseMapping(lines, pos).Some?
    requires ReadAt(lines, ParseMapping(lines, pos).value.1, k, m)
    ensures ReadAt(lines, pos, k + 1, m)
  {
    var next := ParseMapping(lines, pos).value.1;
    assert Cursor(lines, pos, k + 1) == Cursor(lines, next, k);
    assert Cursor(lines, pos, k + 2) == Cursor(lines, next, k + 1);
  }

  /** `parse_input`: the seeds after the first word of the first line, then
      the seven maps; `None` where the program panics. */
  function ParseInput(input: string): (r: Option<(seq<nat>, seq<Mapping>)>)
    ensures r.Some? ==> |r.value.1| == MapCount
    ensures r.Some? ==>
      |Lines(input)| > 0 &&
      var words := Words(Lines(input)[0]);
      |r.value.0| == (if |words| == 0 then 0 else |words| - 1) &&
      forall i :: 1 <= i < |words| ==> Some(r.value.0[i - 1]) == ParseNat(words[i])
    ensures r.Some? <==>
      |Lines(input)| > 0 &&
      (var words := Words(Lines(input)[0]);
       forall i :: 1 <= i < |words| ==> ParseNat(words[i]).Some?) &&
      Cursor(Lines(input), 1, MapCount).Some?
    ensures r.Some? ==>
      forall k: nat :: k < MapCount ==> ReadAt(Lines(input), 1, k, r.value.1[k])
  {
    var lines := Lines(input);
    if |lines| == 0 then None
    else
      var words := Words(lines[0]);
      var seeds :- Seqs.MapAll(if |words| == 0 then [] else words[1..], ParseNat);
      ParseMappingsBlocks(lines, 1, MapCount);
      var maps :- ParseMappings(lines, 1, MapCount);
      Some((seeds, maps))
  }
}
