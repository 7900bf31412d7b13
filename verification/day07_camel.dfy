/** aoc-07: Camel Cards.  A hand of five cards has a type given by the
    sizes of its groups of equal cards (five of a kind, four of a kind, full
    house, ...); hands are ordered by type and then card by card, and the
    winnings are the sum of rank times bid.  In part two jacks are jokers:
    they join the largest group for the type and are the weakest card in a
    tie. */
module CamelCards {
  import opened Wrappers
  import opened Text
  import Seqs
  import opened CardGroups

  const HandSize: nat := 5

  /** The value of 'J'. */
  const Jack: int := 11

  /** Part two re-values jokers to 15 so that they sort after every other
      card, */
  const JokerHigh: int := 15

  /** and to 1 for the card-by-card comparison. */
  const JokerLow: int := 1

  datatype Hand = Hand(cards: seq<int>, bid: nat)

  predicate ValidCards(cards: seq<int>)
  {
    |cards| == HandSize && forall i :: 0 <= i < |cards| ==> 2 <= cards[i] <= 14
  }

  predicate ValidHand(h: Hand)
  {
    ValidCards(h.cards)
  }

  // ---------------------------------------------------------------------
  // Parsing

  /** The card byte mapping; `None` where the program reaches
      `unreachable!()`. */
  function CardValue(c: char): (v: Option<int>)
    ensures v.Some? <==> ('2' <= c <= '9' || c == 'T' || c == 'J' || c == 'Q' || c == 'K' || c == 'A')
    ensures v.Some? ==> 2 <= v.value <= 14
    ensures '2' <= c <= '9' ==> v == Some(c as int - '0' as int)
    ensures c == 'J' <==> v == Some(Jack)
  {
    if '2' <= c <= '9' then Some(c as int - '0' as int)
    else match c
      case 'T' => Some(10)
      case 'J' => Some(11)
      case 'Q' => Some(12)
      case 'K' => Some(13)
      case 'A' => Some(14)
      case _ => None
  }

  /** Different card characters have different values. */
  lemma CardValueInjective(c: char, d: char)
    requires CardValue(c).Some? && CardValue(c) == CardValue(d)
    ensures c == d
  {
  }

  /** A line "CARDS BID": the first word must be exactly five card
      characters and the second a number; `None` where the program panics. */
  function ParseHand(line: string): (r: Option<Hand>)
    ensures r.Some? <==>
      |Words(line)| >= 2 && |Words(line)[0]| == HandSize &&
      (forall i :: 0 <= i < HandSize ==> CardValue(Words(line)[0][i]).Some?) &&
      ParseNat(Words(line)[1]).Some?
    ensures r.Some? ==> ValidHand(r.value)
    ensures r.Some? ==> |Words(line)| >= 2 && |Words(line)[0]| == HandSize
    ensures r.Some? ==> forall i :: 0 <= i < HandSize ==> CardValue(Words(line)[0][i]) == Some(r.value.cards[i])
    ensures r.Some? ==> ParseNat(Words(line)[1]) == Some(r.value.bid)
  {
    var words := Words(line);
    if |words| < 2 || |words[0]| != HandSize then None
    else
      var cards :- Seqs.MapAll(words[0], CardValue);
      var bid :- ParseNat(words[1]);
      Some(Hand(cards, bid))
  }

  function Zeros(n: nat): (z: seq<int>)
    ensures |z| == n && forall i :: 0 <= i < n ==> z[i] == 0
  {
    seq(n, _ => 0)
  }

  /** The `[usize; 5]` buffer: the run lengths followed by zeros. */
  function Pad(runs: seq<int>): (r: seq<int>)
    requires |runs| <= HandSize
    ensures |r| == HandSize
  {
    runs + Zeros(HandSize - |runs|)
  }

  /** `sort_unstable` then `reverse`. */
  function SortDesc(s: seq<int>): (r: seq<int>)
    ensures |r| == |s| && multiset(r) == multiset(s)
    ensures forall i, j :: 0 <= i < j < |r| ==> r[i] >= r[j]
  {
    var up := Seqs.SortAsc(s);
    var r := Seqs.Reverse(up);
    assert forall i :: 0 <= i < |up| ==> r[i] == up[|up| - 1 - i];
    assert multiset(r) == multiset(up) by {
      ReverseMultiset(up);
    }
    r
  }

  lemma {:induction false} ReverseMultiset(s: seq<int>)
    ensures multiset(Seqs.Reverse(s)) == multiset(s)
    decreases |s|
  {
    if |s| > 0 {
      var front := s[..|s| - 1];
      ReverseMultiset(front);
      assert Seqs.Reverse(s) == [s[|s| - 1]] + Seqs.Reverse(front);
      assert multiset(s) == multiset(front) + multiset{s[|s| - 1]} by {
        assert s == front + [s[|s| - 1]];
      }
    }
  }

  /** The type vector of a hand's run lengths: the group sizes, largest
      first, padded with zeros to five. */
  function TypeVector(runs: seq<int>): (t: seq<int>)
    requires |runs| <= HandSize
    ensures |t| == HandSize && multiset(t) == multiset(Pad(runs))
    ensures forall i, j :: 0 <= i < j < HandSize ==> t[i] >= t[j]
  {
    SortDesc(Pad(runs))
  }

  /** Any rearrangement of runs followed by zeros has the sum of the runs. */
  lemma PaddedSum(runs: seq<int>, t: seq<int>)
    requires |runs| <= HandSize
    requires multiset(t) == multiset(Pad(runs))
    ensures Seqs.Sum(t) == Seqs.Sum(runs)
  {
    Seqs.SumPermutation(t, Pad(runs));
    PadSum(runs);
  }

  /** Padding with zeros keeps the sum. */
  lemma PadSum(runs: seq<int>)
    requires |runs| <= HandSize
    ensures Seqs.Sum(Pad(runs)) == Seqs.Sum(runs)
  {
    var k := HandSize - |runs|;
    ZerosAppendSum(runs, k);
    assert Pad(runs) == runs + Zeros(k);
  }

  /** A non-increasing rearrangement of the runs padded with zeros starts
      with the largest run, which is one of them. */
  lemma TypeVectorMax(runs: seq<int>, t: seq<int>)
    requires |runs| <= HandSize
    requires forall i :: 0 <= i < |runs| ==> runs[i] >= 1
    requires |t| == HandSize && multiset(t) == multiset(Pad(runs))
    requires forall i, j :: 0 <= i < j < |t| ==> t[i] >= t[j]
    ensures forall i :: 0 <= i < |runs| ==> runs[i] <= t[0]
    ensures |runs| > 0 ==> t[0] in runs
  {
    var padded := Pad(runs);
    forall i | 0 <= i < |runs|
      ensures runs[i] <= t[0]
    {
      assert padded[i] == runs[i];
      assert runs[i] in multiset(t);
    }
    if |runs| > 0 {
      assert t[0] in multiset(padded);
      assert runs[0] <= t[0];
    }
  }

  /** Appending zeros to any sequence keeps its sum. */
  lemma {:induction false} ZerosAppendSum(a: seq<int>, n: nat)
    ensures Seqs.Sum(a + Zeros(n)) == Seqs.Sum(a)
  {
    if n > 0 {
      var s := a + Zeros(n);
      ZerosAppendSum(a, n - 1);
      assert s[..|s| - 1] == a + Zeros(n - 1);
      assert Seqs.Sum(s) == Seqs.Sum(a + Zeros(n - 1)) + s[|s| - 1];
    } else {
      assert a + Zeros(n) == a;
    }
  }

  /** `sequence_lengths_slice`: the run scan with its index bookkeeping,
      then the descending sort. */
  method SequenceLengthsSlice(cards: seq<int>) returns (lengths: seq<int>)
    requires |cards| <= HandSize
    ensures lengths == TypeVector(Runs(cards))
  {
    var buf, lengthIndex, start := ScanRuns(cards);
    if |cards| > 0 {
      buf := CloseRun(cards, start, |cards|, buf, lengthIndex);
      assert cards[..|cards|] == cards;
    } else {
      buf := buf[lengthIndex := 0];
    }
    PadOf(buf, Runs(cards));
    lengths := SortDesc(buf);
  }

  /** `start .. i` is a block of equal cards that a different card
      precedes. */
  predicate Block(cards: seq<int>, start: nat, i: nat)
    requires start <= i <= |cards|
  {
    (forall k :: start <= k < i ==> cards[k] == cards[start]) &&
    (0 < start < |cards| ==> cards[start - 1] != cards[start])
  }

  /** The buffer holds the runs of `cards[..start]`, `m` of them, and then
      zeros. */
  predicate Written(cards: seq<int>, buf: seq<int>, m: nat, start: nat)
    requires start <= |cards|
  {
    |buf| == HandSize && m == |Runs(cards[..start])| <= start && m <= |buf| &&
    buf[..m] == Runs(cards[..start]) &&
    forall k :: m <= k < |buf| ==> buf[k] == 0
  }

  /** The loop of `sequence_lengths_slice`: every run but the last is
      written to the buffer, and `start` is where the last run begins. */
  method ScanRuns(cards: seq<int>) returns (buf: seq<int>, lengthIndex: nat, start: nat)
    requires |cards| <= HandSize
    ensures start <= |cards| && (|cards| > 0 ==> start < |cards|)
    ensures Block(cards, start, |cards|)
    ensures Written(cards, buf, lengthIndex, start)
  {
    lengthIndex := 0;
    buf := Zeros(HandSize);
    start := 0;
    var i := 0;
    assert cards[..0] == [];
    while i < |cards|
      invariant 0 <= start <= i <= |cards|
      invariant i > 0 ==> start < i
      invariant Block(cards, start, i)
      invariant Written(cards, buf, lengthIndex, start)
    {
      BlockStep(cards, start, i);
      if cards[start] != cards[i] {
        buf := CloseRun(cards, start, i, buf, lengthIndex);
        lengthIndex := lengthIndex + 1;
        start := i;
      }
      i := i + 1;
    }
  }

  /** The next card either extends the block or starts a new one. */
  lemma BlockStep(cards: seq<int>, start: nat, i: nat)
    requires start <= i < |cards| && (i > 0 ==> start < i)
    requires Block(cards, start, i)
    ensures cards[start] == cards[i] ==> Block(cards, start, i + 1)
    ensures cards[start] != cards[i] ==> Block(cards, i, i + 1)
  {
    if i > 0 {
      assert cards[i - 1] == cards[start];
    }
  }

  /** Writing the length of the block `start .. i` of equal cards after the
      runs before it gives the runs up to `i`. */
  function CloseRun(cards: seq<int>, start: nat, i: nat, buf: seq<int>, m: nat): (buf': seq<int>)
    requires start < i <= |cards| <= HandSize
    requires Block(cards, start, i)
    requires Written(cards, buf, m, start)
    ensures Written(cards, buf', m + 1, i)
  {
    RunsBlock(cards, start, i);
    assert |Runs(cards[..i])| <= |cards[..i]|;
    var r := buf[m := i - start];
    WriteRun(buf, r, m, Runs(cards[..start]), i - start);
    r
  }

  /** Writing one more run after the `m` written ones. */
  lemma WriteRun(buf: seq<int>, r: seq<int>, m: nat, runs: seq<int>, x: int)
    requires m < |buf| && buf[..m] == runs
    requires forall k :: m <= k < |buf| ==> buf[k] == 0
    requires r == buf[m := x]
    ensures |r| == |buf| && r[..m + 1] == runs + [x]
    ensures forall k :: m + 1 <= k < |r| ==> r[k] == 0
  {
    assert r[..m + 1] == buf[..m] + [x];
  }

  /** A buffer holding the runs and then zeros is the padded runs. */
  lemma PadOf(buf: seq<int>, runs: seq<int>)
    requires |runs| <= |buf| == HandSize
    requires buf[..|runs|] == runs
    requires forall k :: |runs| <= k < |buf| ==> buf[k] == 0
    ensures buf == Pad(runs)
  {
  }

  // ---------------------------------------------------------------------
  // Types from card counts

  /** The type a multiset of at most five cards has: its group sizes,
      largest first, padded with zeros to five. */
  ghost function TypeOf(m: multiset<int>): (t: seq<int>)
    requires |m| <= HandSize
    ensures |t| == HandSize
  {
    TypeVector(GroupSizes(m))
  }

  /** The type with jokers: the type of the other cards, with the jokers
      added to the largest group. */
  ghost function JokerTypeOf(m: multiset<int>): (t: seq<int>)
    requires |m| <= HandSize
    ensures |t| == HandSize
  {
    DropCard(m, Jack);
    var t := TypeOf(m[Jack := 0]);
    t[0 := t[0] + m[Jack]]
  }

  // ---------------------------------------------------------------------
  // Hand types

  /** `sequence_lengths_part_one`: the type vector of the sorted cards. */
  function TypeOne(cards: seq<int>): (t: seq<int>)
    requires |cards| <= HandSize
    ensures |t| == HandSize
    ensures t == TypeOf(multiset(cards))
  {
    var sorted := Seqs.SortAsc(cards);
    SortedRuns(sorted);
    TypeVector(Runs(sorted))
  }

  /** The group sizes of part one add up to the number of cards. */
  lemma TypeOneSum(cards: seq<int>)
    requires |cards| <= HandSize
    ensures Seqs.Sum(TypeOne(cards)) == |cards|
  {
    var sorted := Seqs.SortAsc(cards);
    var runs := Runs(sorted);
    PaddedSum(runs, TypeVector(runs));
    RunsShape(sorted);
  }

  /** `partition_point(|&a| a < bound)`: the first index whose value is not
      below `bound`. */
  function PartitionPoint(s: seq<int>, bound: int): (p: nat)
    ensures p <= |s|
    ensures forall k :: 0 <= k < p ==> s[k] < bound
    ensures p < |s| ==> s[p] >= bound
  {
    if |s| == 0 || s[0] >= bound then 0
    else
      var p := PartitionPoint(s[1..], bound);
      assert forall k :: 1 <= k < p + 1 ==> s[k] == s[1..][k - 1];
      p + 1
  }

  /** Jacks become `JokerHigh`: the other cards keep their counts, and
      `JokerHigh` is held as often as jacks were. */
  function Rejoker(cards: seq<int>): (r: seq<int>)
    ensures |r| == |cards|
    ensures JokerHigh !in cards ==>
      multiset(r) == multiset(cards)[Jack := 0][JokerHigh := multiset(cards)[Jack]]
  {
    RejokerCounts(cards);
    seq(|cards|, i requires 0 <= i < |cards| => if cards[i] == Jack then JokerHigh else cards[i])
  }

  lemma {:induction false} RejokerCounts(cards: seq<int>)
    ensures var r := seq(|cards|, i requires 0 <= i < |cards| => if cards[i] == Jack then JokerHigh else cards[i]);
      JokerHigh !in cards ==>
      multiset(r) == multiset(cards)[Jack := 0][JokerHigh := multiset(cards)[Jack]]
    decreases |cards|
  {
    var r := seq(|cards|, i requires 0 <= i < |cards| => if cards[i] == Jack then JokerHigh else cards[i]);
    if |cards| > 0 && JokerHigh !in cards {
      var front := cards[..|cards| - 1];
      var c := cards[|cards| - 1];
      assert cards == front + [c];
      assert JokerHigh !in front;
      RejokerCounts(front);
      var rf := seq(|front|, i requires 0 <= i < |front| => if front[i] == Jack then JokerHigh else front[i]);
      assert r == rf + [r[|r| - 1]];
      RejokerStep(multiset(front), c, multiset(rf));
    }
  }

  /** One more card, re-valued. */
  lemma RejokerStep(m: multiset<int>, c: int, rm: multiset<int>)
    requires c != JokerHigh && m[JokerHigh] == 0
    requires rm == m[Jack := 0][JokerHigh := m[Jack]]
    ensures var m', c' := m + multiset{c}, if c == Jack then JokerHigh else c;
      rm + multiset{c'} == m'[Jack := 0][JokerHigh := m'[Jack]]
  {
    var m', c' := m + multiset{c}, if c == Jack then JokerHigh else c;
    assert forall u :: (rm + multiset{c'})[u] == m'[Jack := 0][JokerHigh := m'[Jack]][u];
  }

  /** `sequence_lengths_part_two`: jokers are re-valued to sort last, cut
      off, and their count is added to the largest group of the rest. */
  function TypeTwo(cards: seq<int>): (t: seq<int>)
    requires |cards| <= HandSize
    ensures |t| == HandSize
    ensures BelowJokerHigh(cards) ==> t == JokerTypeOf(multiset(cards))
  {
    var sorted := Seqs.SortAsc(Rejoker(cards));
    var p := PartitionPoint(sorted, JokerHigh);
    TypeTwoCounts(cards, sorted, p);
    BumpFirst(TypeVector(Runs(sorted[..p])), |sorted| - p)
  }

  /** Every card is below the re-valued joker, as every parsed card is. */
  predicate BelowJokerHigh(cards: seq<int>)
  {
    forall i :: 0 <= i < |cards| ==> cards[i] < JokerHigh
  }

  /** The cut at `JokerHigh` leaves the other cards before it and the
      jokers after it, so part two's type is the joker type. */
  lemma TypeTwoCounts(cards: seq<int>, sorted: seq<int>, p: nat)
    requires |cards| <= HandSize
    requires sorted == Seqs.SortAsc(Rejoker(cards)) && p == PartitionPoint(sorted, JokerHigh)
    ensures BelowJokerHigh(cards) ==>
      BumpFirst(TypeVector(Runs(sorted[..p])), |sorted| - p) == JokerTypeOf(multiset(cards))
  {
    if BelowJokerHigh(cards) {
      var m := multiset(cards);
      var front, k := sorted[..p], |sorted| - p;
      CutParts(cards, sorted, p);
      DropCard(m, Jack);
      CutType(front, m[Jack := 0]);
      BumpIsJoker(TypeVector(Runs(front)), k, m);
    }
  }

  /** Before the cut lie the cards other than jacks, sorted; after it as
      many cards as there are jacks. */
  lemma CutParts(cards: seq<int>, sorted: seq<int>, p: nat)
    requires BelowJokerHigh(cards)
    requires sorted == Seqs.SortAsc(Rejoker(cards)) && p == PartitionPoint(sorted, JokerHigh)
    ensures Seqs.SortedAsc(sorted[..p])
    ensures multiset(sorted[..p]) == multiset(cards)[Jack := 0]
    ensures |sorted| - p == multiset(cards)[Jack]
  {
    RejokedCounts(cards, sorted);
    RejokedBelow(cards, sorted);
    CutCounts(sorted, p);
    JokerSwap(multiset(cards));
  }

  /** Adding the jokers to the first group of the other cards' type. */
  lemma BumpIsJoker(t: seq<int>, k: int, m: multiset<int>)
    requires |m| <= HandSize && |m[Jack := 0]| <= HandSize
    requires t == TypeOf(m[Jack := 0]) && k == m[Jack]
    ensures BumpFirst(t, k) == JokerTypeOf(m)
  {
  }

  /** The re-valued, sorted cards hold the counts `Rejoker` promises. */
  lemma RejokedCounts(cards: seq<int>, sorted: seq<int>)
    requires BelowJokerHigh(cards) && sorted == Seqs.SortAsc(Rejoker(cards))
    ensures multiset(sorted) == multiset(cards)[Jack := 0][JokerHigh := multiset(cards)[Jack]]
    ensures multiset(cards)[JokerHigh] == 0
  {
    assert JokerHigh !in cards;
  }

  /** No re-valued card exceeds `JokerHigh`. */
  lemma RejokedBelow(cards: seq<int>, sorted: seq<int>)
    requires BelowJokerHigh(cards) && sorted == Seqs.SortAsc(Rejoker(cards))
    ensures forall k :: 0 <= k < |sorted| ==> sorted[k] <= JokerHigh
  {
    var r := Rejoker(cards);
    forall k | 0 <= k < |sorted|
      ensures sorted[k] <= JokerHigh
    {
      assert sorted[k] in multiset(r);
      var i :| 0 <= i < |r| && r[i] == sorted[k];
    }
  }

  /** The runs of sorted cards are the group sizes of their counts. */
  lemma CutType(front: seq<int>, m: multiset<int>)
    requires Seqs.SortedAsc(front) && multiset(front) == m && |m| <= HandSize
    ensures |front| <= HandSize && TypeVector(Runs(front)) == TypeOf(m)
  {
    assert |front| == |multiset(front)|;
    SortedRuns(front);
  }

  /** Cutting a sorted sequence of cards no larger than `JokerHigh` at
      `JokerHigh` keeps the smaller cards and counts the jokers. */
  lemma CutCounts(sorted: seq<int>, p: nat)
    requires Seqs.SortedAsc(sorted) && p == PartitionPoint(sorted, JokerHigh)
    requires forall k :: 0 <= k < |sorted| ==> sorted[k] <= JokerHigh
    ensures multiset(sorted[..p]) == multiset(sorted)[JokerHigh := 0]
    ensures multiset(sorted)[JokerHigh] == |sorted| - p
  {
    var front, back := sorted[..p], sorted[p..];
    assert sorted == front + back;
    CutBack(sorted, p);
    ConstantMultiset(back, JokerHigh);
    SplitCounts(multiset(sorted), multiset(front), multiset(back), JokerHigh);
  }

  /** After the cut there is nothing but `JokerHigh`, before it nothing
      of it. */
  lemma CutBack(sorted: seq<int>, p: nat)
    requires Seqs.SortedAsc(sorted) && p == PartitionPoint(sorted, JokerHigh)
    requires forall k :: 0 <= k < |sorted| ==> sorted[k] <= JokerHigh
    ensures forall k :: 0 <= k < |sorted[p..]| ==> sorted[p..][k] == JokerHigh
    ensures JokerHigh !in multiset(sorted[..p])
  {
    forall k | 0 <= k < |sorted[p..]|
      ensures sorted[p..][k] == JokerHigh
    {
      assert sorted[p] <= sorted[p + k];
    }
  }

  /** Re-valuing the jacks and then cutting the re-valued cards off leaves
      the cards other than jacks, and as many cut cards as jacks. */
  lemma JokerSwap(m: multiset<int>)
    requires m[JokerHigh] == 0
    ensures var r := m[Jack := 0][JokerHigh := m[Jack]];
      r[JokerHigh := 0] == m[Jack := 0] && r[JokerHigh] == m[Jack]
  {
    var a := m[Jack := 0][JokerHigh := m[Jack]][JokerHigh := 0];
    var b := m[Jack := 0];
    assert forall u :: a[u] == b[u];
  }

  /** `lengths[0] += k`: the first group grows by `k` and the sum with it. */
  function BumpFirst(s: seq<int>, k: int): (r: seq<int>)
    requires |s| > 0
    ensures |r| == |s| && r[0] == s[0] + k
    ensures forall i :: 1 <= i < |s| ==> r[i] == s[i]
    ensures Seqs.Sum(r) == Seqs.Sum(s) + k
  {
    SumBumpFirst(s, k);
    s[0 := s[0] + k]
  }

  lemma {:induction false} SumBumpFirst(s: seq<int>, k: int)
    requires |s| > 0
    ensures Seqs.Sum(s[0 := s[0] + k]) == Seqs.Sum(s) + k
    decreases |s|
  {
    if |s| > 1 {
      var front := s[..|s| - 1];
      SumBumpFirst(front, k);
      assert s[0 := s[0] + k][..|s| - 1] == front[0 := front[0] + k];
    }
  }

  /** With jokers the group sizes still add up to the number of cards. */
  lemma TypeTwoSum(cards: seq<int>)
    requires |cards| <= HandSize
    ensures Seqs.Sum(TypeTwo(cards)) == |cards|
  {
    var sorted := Seqs.SortAsc(Rejoker(cards));
    var p := PartitionPoint(sorted, JokerHigh);
    var front := sorted[..p];
    var runs := Runs(front);
    RunsShape(front);
    PaddedSum(runs, TypeVector(runs));
  }

  /** A hand of nothing but jokers is one group of all its cards: nothing
      is left after the cut, and every card is added to the first (zero)
      group.  Five jokers make five of a kind. */
  lemma AllJokers(cards: seq<int>)
    requires |cards| <= HandSize
    requires forall i :: 0 <= i < |cards| ==> cards[i] == Jack
    ensures TypeTwo(cards) == [|cards|, 0, 0, 0, 0]
  {
    var m := multiset(cards);
    assert BelowJokerHigh(cards);
    ConstantMultiset(cards, Jack);
    var rest := m[Jack := 0];
    assert forall u :: rest[u] == 0;
    assert rest == multiset{};
    EmptyTypeOf();
    BumpIsJoker(TypeOf(rest), |cards|, m);
    BumpZeros(TypeOf(rest), |cards|);
  }

  /** No cards have the all-zero type. */
  lemma EmptyTypeOf()
    ensures TypeOf(multiset{}) == [0, 0, 0, 0, 0]
  {
    assert GroupSizes(multiset{}) == [] == Runs([]);
    EmptyTypeVector();
  }

  lemma BumpZeros(t: seq<int>, n: int)
    requires t == [0, 0, 0, 0, 0]
    ensures BumpFirst(t, n) == [n, 0, 0, 0, 0]
  {
    var b := BumpFirst(t, n);
    assert b[0] == n && b[1] == 0 && b[2] == 0 && b[3] == 0 && b[4] == 0;
  }

  /** No runs give the all-zero type vector. */
  lemma EmptyTypeVector()
    ensures TypeVector(Runs([])) == [0, 0, 0, 0, 0]
  {
    var z := Zeros(HandSize);
    assert Runs([]) == [];
    assert Pad([]) == z;
    SortDescConstant(z, 0);
    assert z == [0, 0, 0, 0, 0];
  }

  /** A constant sequence sorts to itself. */
  lemma SortDescConstant(s: seq<int>, c: int)
    requires forall i :: 0 <= i < |s| ==> s[i] == c
    ensures SortDesc(s) == s
  {
    var r := SortDesc(s);
    forall i | 0 <= i < |r|
      ensures r[i] == c
    {
      assert r[i] in multiset(s);
    }
  }

  /** Without jokers both parts give the same type. */
  lemma NoJokers(cards: seq<int>)
    requires ValidCards(cards) && Jack !in cards
    ensures TypeTwo(cards) == TypeOne(cards)
  {
    var m := multiset(cards);
    assert BelowJokerHigh(cards);
    NoJokerCounts(m);
  }

  /** Without jokers the joker type is the plain type. */
  lemma NoJokerCounts(m: multiset<int>)
    requires |m| <= HandSize && m[Jack] == 0
    ensures JokerTypeOf(m) == TypeOf(m)
  {
    var rest := m[Jack := 0];
    assert forall u :: rest[u] == m[u];
    assert rest == m;
    var t := TypeOf(m);
    assert t[0 := t[0] + 0] == t;
  }

  // ---------------------------------------------------------------------
  // Comparing hands

  /** `cmp_type`: the largest group decides; on a tie at 3 a full house
      beats three of a kind and on a tie at 2 two pair beats one pair;
      otherwise the types tie (`None`). */
  function CmpType(a: seq<int>, b: seq<int>): Option<Ordering>
    requires |a| >= 2 && |b| >= 2
  {
    if a[0] != b[0] then Some(CompareInt(a[0], b[0]))
    else if a[0] == 3 && a[1] == 2 && b[1] != 2 then Some(Greater)
    else if a[0] == 3 && a[1] != 2 && b[1] == 2 then Some(Less)
    else if a[0] == 2 && a[1] == 2 && b[1] != 2 then Some(Greater)
    else if a[0] == 2 && a[1] != 2 && b[1] == 2 then Some(Less)
    else None
  }

  /** The strength of a type vector: twice the largest group, plus one for
      a full house or two pair. */
  function Rank(t: seq<int>): int
    requires |t| >= 2
  {
    2 * t[0] + (if (t[0] == 3 || t[0] == 2) && t[1] == 2 then 1 else 0)
  }

  /** `cmp_type` compares ranks, and ties exactly when the ranks are equal. */
  lemma CmpTypeByRank(a: seq<int>, b: seq<int>)
    requires |a| >= 2 && |b| >= 2
    ensures CmpType(a, b).None? <==> Rank(a) == Rank(b)
    ensures CmpType(a, b).Some? ==> CmpType(a, b).value == CompareInt(Rank(a), Rank(b))
  {
  }

  /** Swapping the hands reverses `cmp_type`. */
  lemma CmpTypeAntisymmetric(a: seq<int>, b: seq<int>)
    requires |a| >= 2 && |b| >= 2
    ensures CmpType(a, b).None? <==> CmpType(b, a).None?
    ensures CmpType(a, b).Some? ==> CmpType(a, b).value == CmpType(b, a).value.Reverse()
  {
    CmpTypeByRank(a, b);
    CmpTypeByRank(b, a);
  }

  /** `[u8; 5]::cmp`: lexicographic comparison. */
  function LexCompare(a: seq<int>, b: seq<int>): Ordering
    requires |a| == |b|
  {
    if |a| == 0 then Equal
    else if a[0] != b[0] then CompareInt(a[0], b[0])
    else LexCompare(a[1..], b[1..])
  }

  lemma {:induction false} LexProperties(a: seq<int>, b: seq<int>)
    requires |a| == |b|
    ensures LexCompare(a, b) == Equal <==> a == b
    ensures LexCompare(a, b) == LexCompare(b, a).Reverse()
    decreases |a|
  {
    if |a| > 0 && a[0] == b[0] {
      LexProperties(a[1..], b[1..]);
      if a[1..] == b[1..] {
        assert a == [a[0]] + a[1..];
        assert b == [b[0]] + b[1..];
      }
    }
  }

  lemma {:induction false} LexTransitive(a: seq<int>, b: seq<int>, c: seq<int>)
    requires |a| == |b| == |c|
    requires LexCompare(a, b) != Greater && LexCompare(b, c) != Greater
    ensures LexCompare(a, c) != Greater
    ensures LexCompare(a, b) == Less || LexCompare(b, c) == Less ==> LexCompare(a, c) == Less
    decreases |a|
  {
    if |a| > 0 && a[0] == b[0] && b[0] == c[0] {
      LexTransitive(a[1..], b[1..], c[1..]);
    }
  }

  /** The cards compared in a tie: in part two jokers count as 1, every
      other card keeps its value. */
  function TieCards(cards: seq<int>, part: nat): (r: seq<int>)
    ensures |r| == |cards|
    ensures forall i :: 0 <= i < |cards| ==>
      r[i] == (if part != 1 && cards[i] == Jack then JokerLow else cards[i])
  {
    if part == 1 then cards
    else seq(|cards|, i requires 0 <= i < |cards| => if cards[i] == Jack then JokerLow else cards[i])
  }

  /** The type a part gives the cards: by their counts in part one, with
      the jokers joining the largest group in part two. */
  function TypeFor(cards: seq<int>, part: nat): (t: seq<int>)
    requires |cards| <= HandSize
    ensures |t| == HandSize
    ensures part == 1 ==> t == TypeOf(multiset(cards))
    ensures part != 1 && BelowJokerHigh(cards) ==> t == JokerTypeOf(multiset(cards))
  {
    if part == 1 then TypeOne(cards) else TypeTwo(cards)
  }

  /** `cmp_part_one` / `cmp_part_two` on hands whose type vectors are `s`
      and `t` and whose tie-break cards are `a` and `b`: `cmp_type`, and the
      cards where the types tie. */
  function CmpBy(s: seq<int>, t: seq<int>, a: seq<int>, b: seq<int>): Ordering
    requires |s| >= 2 && |t| >= 2 && |a| == |b|
  {
    match CmpType(s, t)
    case Some(o) => o
    case None => LexCompare(a, b)
  }

  /** The sort key of a hand with type vector `t` and tie-break cards `a`:
      the rank, then the cards. */
  function KeyOf(t: seq<int>, a: seq<int>): seq<int>
    requires |t| >= 2
  {
    [Rank(t)] + a
  }

  function Cmp(h: Hand, g: Hand, part: nat): Ordering
    requires ValidHand(h) && ValidHand(g)
  {
    CmpBy(TypeFor(h.cards, part), TypeFor(g.cards, part), TieCards(h.cards, part), TieCards(g.cards, part))
  }

  /** A hand's sort key under part `part`'s order. */
  function Key(h: Hand, part: nat): (k: seq<int>)
    requires ValidHand(h)
    ensures |k| == KeyLen && k[1..] == TieCards(h.cards, part)
    ensures k[0] == Rank(TypeFor(h.cards, part))
  {
    KeyOf(TypeFor(h.cards, part), TieCards(h.cards, part))
  }

  /** The comparator is the lexicographic order of the keys. */
  lemma CmpIsKeyOrder(s: seq<int>, t: seq<int>, a: seq<int>, b: seq<int>)
    requires |s| >= 2 && |t| >= 2 && |a| == |b|
    ensures CmpBy(s, t, a, b) == LexCompare(KeyOf(s, a), KeyOf(t, b))
  {
    var x := KeyOf(s, a);
    var y := KeyOf(t, b);
    CmpTypeByRank(s, t);
    assert x[1..] == a;
    assert y[1..] == b;
  }

  /** Two hands compare equal exactly when their types have the same rank
      and they hold the same cards; as the type is computed from the
      cards, exactly when they hold the same cards. */
  lemma CmpEqual(s: seq<int>, t: seq<int>, c: seq<int>, d: seq<int>, part: nat)
    requires |s| >= 2 && |t| >= 2 && ValidCards(c) && ValidCards(d)
    ensures CmpBy(s, t, TieCards(c, part), TieCards(d, part)) == Equal <==> Rank(s) == Rank(t) && c == d
  {
    CmpIsKeyOrder(s, t, TieCards(c, part), TieCards(d, part));
    LexProperties(KeyOf(s, TieCards(c, part)), KeyOf(t, TieCards(d, part)));
    KeyInjective(s, t, c, d, part);
  }

  /** Two hands have the same key exactly when their types have the same
      rank and they hold the same cards. */
  lemma KeyInjective(s: seq<int>, t: seq<int>, c: seq<int>, d: seq<int>, part: nat)
    requires |s| >= 2 && |t| >= 2 && ValidCards(c) && ValidCards(d)
    ensures KeyOf(s, TieCards(c, part)) == KeyOf(t, TieCards(d, part)) <==> Rank(s) == Rank(t) && c == d
  {
    var x := KeyOf(s, TieCards(c, part));
    var y := KeyOf(t, TieCards(d, part));
    if x == y {
      assert x[0] == y[0];
      assert x[1..] == y[1..];
      TieCardsInjective(c, d, part);
    }
  }

  /** Re-valuing jokers to 1 loses nothing: no card is worth 1. */
  lemma TieCardsInjective(c: seq<int>, d: seq<int>, part: nat)
    requires ValidCards(c) && ValidCards(d)
    requires TieCards(c, part) == TieCards(d, part)
    ensures c == d
  {
    forall i | 0 <= i < HandSize
      ensures c[i] == d[i]
    {
      assert TieCards(c, part)[i] == TieCards(d, part)[i];
    }
  }

  /** Swapping two hands reverses the comparison. */
  lemma CmpAntisymmetric(s: seq<int>, t: seq<int>, a: seq<int>, b: seq<int>)
    requires |s| >= 2 && |t| >= 2 && |a| == |b|
    ensures CmpBy(s, t, a, b) == CmpBy(t, s, b, a).Reverse()
  {
    CmpIsKeyOrder(s, t, a, b);
    CmpIsKeyOrder(t, s, b, a);
    LexProperties(KeyOf(s, a), KeyOf(t, b));
  }

  /** The comparison is transitive. */
  lemma CmpTransitive(s: seq<int>, t: seq<int>, u: seq<int>, a: seq<int>, b: seq<int>, c: seq<int>)
    requires |s| >= 2 && |t| >= 2 && |u| >= 2 && |a| == |b| == |c|
    requires CmpBy(s, t, a, b) != Greater && CmpBy(t, u, b, c) != Greater
    ensures CmpBy(s, u, a, c) != Greater
  {
    CmpIsKeyOrder(s, t, a, b);
    CmpIsKeyOrder(t, u, b, c);
    CmpIsKeyOrder(s, u, a, c);
    LexTransitive(KeyOf(s, a), KeyOf(t, b), KeyOf(u, c));
  }

  // ---------------------------------------------------------------------
  // Sorting and winnings

  /** A hand reduced to what the sort and the winnings need: its key and
      its bid. */
  datatype Entry = Entry(key: seq<int>, bid: nat)

  /** The keys of a hand are six long: the rank and five tie cards. */
  const KeyLen: nat := HandSize + 1

  predicate AllKeyed(es: seq<Entry>)
  {
    forall i :: 0 <= i < |es| ==> |es[i].key| == KeyLen
  }

  predicate Sorted(es: seq<Entry>)
    requires AllKeyed(es)
  {
    forall i :: 0 <= i < |es| - 1 ==> LexCompare(es[i].key, es[i + 1].key) != Greater
  }

  function InsertEntry(e: Entry, es: seq<Entry>): (r: seq<Entry>)
    requires |e.key| == KeyLen && AllKeyed(es) && Sorted(es)
    ensures |r| == |es| + 1 && multiset(r) == multiset(es) + multiset{e}
    ensures AllKeyed(r) && Sorted(r)
    ensures |es| > 0 ==> r[0] == e || r[0] == es[0]
  {
    if |es| == 0 then [e]
    else if LexCompare(e.key, es[0].key) != Greater then
      ConsSorted(e, es);
      [e] + es
    else
      assert LexCompare(es[0].key, e.key) == Less by {
        LexProperties(e.key, es[0].key);
      }
      var tail := es[1..];
      SortedTail(es);
      var t := InsertEntry(e, tail);
      ConsSorted(es[0], t);
      HeadTailMultiset(es);
      [es[0]] + t
  }

  /** The tail of a sorted list is sorted, and its head follows the list's
      head. */
  lemma SortedTail(es: seq<Entry>)
    requires AllKeyed(es) && Sorted(es) && |es| > 0
    ensures AllKeyed(es[1..]) && Sorted(es[1..])
    ensures |es| > 1 ==> LexCompare(es[0].key, es[1..][0].key) != Greater
  {
    var tail := es[1..];
    assert forall k :: 0 <= k < |tail| ==> tail[k] == es[k + 1];
  }

  lemma HeadTailMultiset<T>(s: seq<T>)
    requires |s| > 0
    ensures multiset(s) == multiset{s[0]} + multiset(s[1..])
  {
    assert s == [s[0]] + s[1..];
  }

  /** An entry no greater than the head of a sorted list can go in front. */
  lemma ConsSorted(x: Entry, t: seq<Entry>)
    requires |x.key| == KeyLen && AllKeyed(t) && Sorted(t)
    requires |t| > 0 ==> LexCompare(x.key, t[0].key) != Greater
    ensures AllKeyed([x] + t) && Sorted([x] + t)
  {
    var r := [x] + t;
    assert forall k :: 1 <= k < |r| ==> r[k] == t[k - 1];
  }

  /** `sort_unstable_by(cmp)`, as an insertion sort on the keys. */
  function SortEntries(es: seq<Entry>): (r: seq<Entry>)
    requires AllKeyed(es)
    ensures |r| == |es| && multiset(r) == multiset(es)
    ensures AllKeyed(r) && Sorted(r)
  {
    if |es| == 0 then []
    else
      assert es == es[..|es| - 1] + [es[|es| - 1]];
      InsertEntry(es[|es| - 1], SortEntries(es[..|es| - 1]))
  }

  /** The sum over the sorted hands of (position + 1) × bid. */
  function Winnings(es: seq<Entry>): (w: int)
    ensures w >= 0
  {
    if |es| == 0 then 0 else Winnings(es[..|es| - 1]) + |es| * es[|es| - 1].bid
  }

  /** What each hand wins: its position in the sorted order, counted from
      one, times its bid. */
  function Stakes(es: seq<Entry>): (r: seq<int>)
    ensures |r| == |es|
  {
    seq(|es|, i requires 0 <= i < |es| => (i + 1) * es[i].bid)
  }

  /** The winnings are the sum of the stakes. */
  lemma {:induction false} WinningsIsSum(es: seq<Entry>)
    ensures Winnings(es) == Seqs.Sum(Stakes(es))
    decreases |es|
  {
    if |es| > 0 {
      var front := es[..|es| - 1];
      WinningsIsSum(front);
      assert Stakes(es)[..|es| - 1] == Stakes(front);
    }
  }

  /** Sorted adjacent pairs give sorted pairs at any distance. */
  lemma {:induction false} SortedPairs(es: seq<Entry>, i: nat, j: nat)
    requires AllKeyed(es) && Sorted(es)
    requires i <= j < |es|
    ensures LexCompare(es[i].key, es[j].key) != Greater
    decreases j - i
  {
    if i == j {
      LexProperties(es[i].key, es[j].key);
    } else {
      SortedPairs(es, i + 1, j);
      LexTransitive(es[i].key, es[i + 1].key, es[j].key);
    }
  }

  predicate DistinctKeys(es: seq<Entry>)
  {
    forall i, j :: 0 <= i < j < |es| ==> es[i].key != es[j].key
  }

  /** When no two hands share a key there is only one sorted order, so the
      winnings do not depend on how the unstable sort breaks ties. */
  lemma {:induction false} SortedUnique(a: seq<Entry>, b: seq<Entry>)
    requires AllKeyed(a) && AllKeyed(b) && Sorted(a) && Sorted(b)
    requires multiset(a) == multiset(b) && DistinctKeys(a)
    ensures a == b
    decreases |a|
  {
    assert |a| == |b| by {
      assert |multiset(a)| == |multiset(b)|;
    }
    if |a| > 0 {
      LeastIsFirst(a, b);
      SortedTail(a);
      SortedTail(b);
      TailsAgree(a, b);
      SortedUnique(a[1..], b[1..]);
      assert a == [a[0]] + a[1..];
      assert b == [b[0]] + b[1..];
    }
  }

  /** Removing a common first entry keeps equal multisets and distinct
      keys. */
  lemma TailsAgree(a: seq<Entry>, b: seq<Entry>)
    requires |a| > 0 && |b| > 0 && a[0] == b[0]
    requires multiset(a) == multiset(b) && DistinctKeys(a)
    ensures multiset(a[1..]) == multiset(b[1..]) && DistinctKeys(a[1..])
  {
    HeadTailMultiset(a);
    HeadTailMultiset(b);
    assert multiset(a[1..]) == multiset(a) - multiset{a[0]};
    assert multiset(b[1..]) == multiset(b) - multiset{b[0]};
    var t := a[1..];
    forall i, j | 0 <= i < j < |t|
      ensures t[i].key != t[j].key
    {
      assert t[i] == a[i + 1] && t[j] == a[j + 1];
    }
  }

  /** Two sorted orders of the same entries with distinct keys start with
      the same entry. */
  lemma LeastIsFirst(a: seq<Entry>, b: seq<Entry>)
    requires AllKeyed(a) && AllKeyed(b) && Sorted(a) && Sorted(b)
    requires multiset(a) == multiset(b) && DistinctKeys(a)
    requires |a| > 0 && |b| > 0
    ensures a[0] == b[0]
  {
    assert a[0] in multiset(b);
    var k :| 0 <= k < |b| && b[k] == a[0];
    assert b[0] in multiset(a);
    var m :| 0 <= m < |a| && a[m] == b[0];
    SortedPairs(b, 0, k);
    SortedPairs(a, 0, m);
    LexProperties(a[0].key, b[0].key);
  }

  // ---------------------------------------------------------------------
  // Parts

  /** The entries of the parsed hands under part `part`'s order. */
  function Entries(hands: seq<Hand>, part: nat): (es: seq<Entry>)
    requires forall i :: 0 <= i < |hands| ==> ValidHand(hands[i])
    ensures |es| == |hands| && AllKeyed(es)
    ensures forall i :: 0 <= i < |hands| ==> es[i] == Entry(Key(hands[i], part), hands[i].bid)
  {
    seq(|hands|, i requires 0 <= i < |hands| => Entry(Key(hands[i], part), hands[i].bid))
  }

  /** `part_one` / `part_two`: parse every line, sort, and add up the
      winnings; `None` where a line does not parse. */
  function Solve(input: string, part: nat): (r: Option<int>)
    ensures r.Some? <==> Seqs.MapAll(Lines(input), ParseHand).Some?
    ensures r.Some? ==> r.value >= 0
    ensures r.Some? ==> var hands := Seqs.MapAll(Lines(input), ParseHand).value;
      && (forall i :: 0 <= i < |hands| ==> ValidHand(hands[i]))
      && r.value == Seqs.Sum(Stakes(SortEntries(Entries(hands, part))))
  {
    var hands :- Seqs.MapAll(Lines(input), ParseHand);
    assert forall i :: 0 <= i < |hands| ==> ValidHand(hands[i]) by {
      forall i | 0 <= i < |hands|
        ensures ValidHand(hands[i])
      {
        assert Some(hands[i]) == ParseHand(Lines(input)[i]);
      }
    }
    WinningsIsSum(SortEntries(Entries(hands, part)));
    Some(Winnings(SortEntries(Entries(hands, part))))
  }

  function PartOne(input: string): Option<int>
  {
    Solve(input, 1)
  }

  function PartTwo(input: string): Option<int>
  {
    Solve(input, 2)
  }
}
