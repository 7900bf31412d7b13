/** aoc-04: scratchcards.  A card line holds, from column 9 on, winning
    numbers, a '|', and the numbers drawn.  Part one scores each card by
    doubling per match; in part two a card with w matches wins one copy of
    each of the next w cards, per copy held, and the answer is the number of
    cards held in the end. */
module Scratchcards {
  import opened Wrappers
  import opened Text
  import Seqs

  /** The number of card slots of part two (215 in the puzzle input). */
  const CardSlots: nat := 215

  // ---------------------------------------------------------------------
  // Parsing

  /** Every word as a number, or `None` where a `parse().unwrap()` panics. */
  function ParseNumbers(words: seq<string>): (r: Option<seq<nat>>)
    ensures r.Some? <==> forall i :: 0 <= i < |words| ==> ParseNat(words[i]).Some?
    ensures r.Some? ==>
      |r.value| == |words| && forall i :: 0 <= i < |words| ==> Some(r.value[i]) == ParseNat(words[i])
  {
    Seqs.MapAll(words, ParseNat)
  }

  /** `game_info`: the winning numbers (before the first '|') and the drawn
      numbers (after it) of a card, reading from column 9; `None` where the
      program panics (a short line, no '|', a word that is not a number).
      Text after a second '|' is never read. */
  function CardInfo(line: string): (r: Option<(seq<nat>, seq<nat>)>)
    ensures r.Some? <==>
      |line| >= 9 && |Split(line[9..], '|')| >= 2 &&
      ParseNumbers(Words(Split(line[9..], '|')[0])).Some? &&
      ParseNumbers(Words(Split(line[9..], '|')[1])).Some?
    ensures r.Some? ==> '|' in line[9..]
    ensures r.Some? ==>
      var pieces := Split(line[9..], '|');
      |pieces| >= 2 &&
      Some(r.value.0) == ParseNumbers(Words(pieces[0])) &&
      Some(r.value.1) == ParseNumbers(Words(pieces[1]))
  {
    if |line| < 9 then None
    else
      var pieces := Split(line[9..], '|');
      if |pieces| < 2 then None
      else
        var winning :- ParseNumbers(Words(pieces[0]));
        var drawn :- ParseNumbers(Words(pieces[1]));
        assert '|' in line[9..] by {
          SplitCount(line[9..], '|');
        }
        Some((winning, drawn))
  }

  /** A split with more than one piece found the separator. */
  lemma SplitCount(s: string, sep: char)
    requires |Split(s, sep)| >= 2
    ensures sep in s
  {
    if sep !in s {
      SplitNoSep(s, sep);
    }
  }

  // ---------------------------------------------------------------------
  // Matches and scores

  /** `numbers.filter(|n| winning.contains(n)).count()`: drawn numbers found
      among the winning ones, repeats counted. */
  function Matches(winning: seq<nat>, drawn: seq<nat>): (w: nat)
    ensures w <= |drawn|
    ensures w == 0 <==> forall i :: 0 <= i < |drawn| ==> drawn[i] !in winning
    ensures w == |drawn| <==> forall i :: 0 <= i < |drawn| ==> drawn[i] in winning
  {
    if |drawn| == 0 then 0
    else
      var front := drawn[..|drawn| - 1];
      assert forall i :: 0 <= i < |front| ==> front[i] == drawn[i];
      Matches(winning, front) + (if drawn[|drawn| - 1] in winning then 1 else 0)
  }

  function Pow2(n: nat): (r: nat)
    ensures r >= 1
  {
    if n == 0 then 1 else 2 * Pow2(n - 1)
  }

  /** `(1 << w) >> 1` without the 32-bit width. */
  function Score(w: nat): (r: nat)
  {
    Pow2(w) / 2
  }

  /** No match scores nothing; the first match scores 1 and every further
      match doubles the score. */
  lemma ScoreDoubles(w: nat)
    ensures Score(0) == 0
    ensures w >= 1 ==> Score(w) == Pow2(w - 1)
    ensures w >= 1 ==> Score(w + 1) == 2 * Score(w)
    ensures Score(w) == if w == 0 then 0 else Pow2(w - 1)
  {
    if w >= 1 {
      HalfOfDouble(Pow2(w - 1));
      HalfOfDouble(Pow2(w));
    }
  }

  lemma HalfOfDouble(x: nat)
    ensures (2 * x) / 2 == x
  {
  }

  // ---------------------------------------------------------------------
  // Part two: the reference count of copies

  /** Copies of card `j` won from the first `k` cards: card `i` adds its own
      count to every card in `i+1 ..= i+wins[i]`. */
  function Won(wins: seq<nat>, j: nat, k: nat): nat
    requires k <= |wins|
    decreases k, 0
  {
    if k == 0 then 0
    else Won(wins, j, k - 1) + (if k - 1 < j <= k - 1 + wins[k - 1] then Copies(wins, k - 1) else 0)
  }

  /** The number of copies of card `j` held in the end: the original plus
      everything the cards before it won. */
  function Copies(wins: seq<nat>, j: nat): nat
    decreases j, 1
  {
    1 + Won(wins, j, if j < |wins| then j else |wins|)
  }

  /** Cards at or after `j` add nothing to card `j`. */
  lemma {:induction false} WonSaturates(wins: seq<nat>, j: nat, k: nat)
    requires j <= k <= |wins|
    ensures Won(wins, j, k) == Won(wins, j, j)
    decreases k
  {
    if k > j {
      WonSaturates(wins, j, k - 1);
    }
  }

  /** The copies held of each of the `n` slots. */
  function AllCopies(wins: seq<nat>, n: nat): (r: seq<nat>)
  {
    seq(n, j requires 0 <= j < n => Copies(wins, j))
  }

  predicate Fits(wins: seq<nat>, n: nat)
  {
    forall i :: 0 <= i < |wins| ==> i + wins[i] < n
  }

  /** The slot array of `part_two` after the first `k` cards, one slot per
      card in `0 .. n`. */
  ghost predicate SlotsAfter(wins: seq<nat>, n: nat, k: nat, slots: seq<nat>)
    requires k <= |wins|
  {
    |slots| == n && forall j :: 0 <= j < n ==> slots[j] == 1 + Won(wins, j, k)
  }

  /** The loops of `part_two`: `None` where the slice `i+1 ..= i+w` runs
      past the last slot. */
  method CountCopies(wins: seq<nat>, n: nat) returns (r: Option<seq<nat>>)
    ensures r.Some? <==> Fits(wins, n)
    ensures r.Some? ==> |r.value| == n && forall j :: 0 <= j < n ==> r.value[j] == Copies(wins, j)
  {
    var slots := seq(n, _ => 1);
    var i := 0;
    while i < |wins|
      invariant i <= |wins|
      invariant forall t :: 0 <= t < i ==> t + wins[t] < n
      invariant SlotsAfter(wins, n, i, slots)
    {
      if i + wins[i] >= n {
        return None;
      }
      var copies := slots[i];
      assert copies == Copies(wins, i) by {
        assert slots[i] == 1 + Won(wins, i, i);
      }
      var j := i + 1;
      while j <= i + wins[i]
        invariant i + 1 <= j <= i + wins[i] + 1
        invariant |slots| == n
        invariant forall t :: 0 <= t < n ==>
          slots[t] == 1 + Won(wins, t, i) + (if i < t < j then copies else 0)
      {
        slots := slots[j := slots[j] + copies];
        j := j + 1;
      }
      i := i + 1;
    }
    forall j | 0 <= j < n
      ensures slots[j] == Copies(wins, j)
    {
      if j < |wins| {
        WonSaturates(wins, j, |wins|);
      }
    }
    r := Some(slots);
  }

  /** Every slot holds at least the original card, so the total is at least
      the number of slots. */
  lemma TotalAtLeastSlots(slots: seq<nat>)
    requires forall j :: 0 <= j < |slots| ==> slots[j] >= 1
    ensures Seqs.Sum(slots) >= |slots|
  {
    Seqs.SumAtLeast(slots, 1);
  }

  // ---------------------------------------------------------------------
  // Parts

  /** A card's part-one score: 0 without a match, else 2 to the power of one
      less than its matches. */
  function CardScore(line: string): (r: Option<int>)
    ensures r.Some? <==> CardInfo(line).Some?
    ensures r.Some? ==> Scores(CardInfo(line).value, r.value)
  {
    var info :- CardInfo(line);
    var v := Score(Matches(info.0, info.1)) as int;
    ScoresLink(info, v);
    Some(v)
  }

  lemma ScoresLink(info: (seq<nat>, seq<nat>), v: int)
    requires v == Score(Matches(info.0, info.1))
    ensures Scores(info, v)
  {
    ScoreDoubles(Matches(info.0, info.1));
  }

  /** `v` is the score of a card: 0 without a match, else 2 to the power
      of one less than its matches. */
  predicate Scores(info: (seq<nat>, seq<nat>), v: int)
  {
    var w := Matches(info.0, info.1);
    v == if w == 0 then 0 else Pow2(w - 1)
  }

  /** `part_one`: the total of the card scores; `None` if any card panics. */
  function PartOne(input: string): (r: Option<int>)
    ensures r.Some? <==> forall i :: 0 <= i < |Lines(input)| ==> CardInfo(Lines(input)[i]).Some?
    ensures r.Some? ==> r.value == Seqs.Total(Lines(input), CardScore) && r.value >= 0
  {
    var lines := Lines(input);
    Seqs.SumOf(lines, CardScore)
  }

  /** A card's match count, the width of the slice it adds copies to. */
  function CardWins(line: string): (r: Option<nat>)
    ensures r.Some? <==> CardInfo(line).Some?
    ensures r.Some? ==> r.value == Matches(CardInfo(line).value.0, CardInfo(line).value.1)
  {
    var (winning, drawn) :- CardInfo(line);
    Some(Matches(winning, drawn))
  }

  /** `part_two` with `n` slots: the total, over the slots, of the copies
      each ends with (at least `n`); `None` where a card panics or would win
      past the last slot. */
  method PartTwo(input: string, n: nat) returns (r: Option<int>)
    ensures r.Some? <==>
      var wins := Seqs.MapAll(Lines(input), CardWins);
      wins.Some? && Fits(wins.value, n)
    ensures r.Some? ==>
      var wins := Seqs.MapAll(Lines(input), CardWins);
      r.value == Seqs.Sum(AllCopies(wins.value, n)) && r.value >= n
  {
    var wins := Seqs.MapAll(Lines(input), CardWins);
    if wins.None? {
      return None;
    }
    var counts := CountCopies(wins.value, n);
    if counts.None? {
      return None;
    }
    var slots := counts.value;
    forall j | 0 <= j < |slots|
      ensures slots[j] >= 1
    {
    }
    assert slots == AllCopies(wins.value, n);
    TotalAtLeastSlots(slots);
    r := Some(Seqs.Sum(slots));
  }
}
