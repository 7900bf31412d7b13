/** aoc-08: a network of nodes with three-letter labels, each with a left
    and a right successor, and a list of left/right instructions repeated
    forever.  Part one counts the steps from AAA to ZZZ; part two starts at
    every node whose label ends in 'A' and takes the lcm of the step counts
    to a label ending in 'Z'. */
module HauntedWasteland {
  import opened Wrappers
  import opened Text
  import Seqs
  import opened Arith

  type Label = string

  /** The `[Loc; 2]` of a node: its left and right successors. */
  datatype Node = Node(left: Label, right: Label)

  type Network = map<Label, Node>

  /** The length of a line "AAA = (BBB, CCC)". */
  const NodeLine: nat := 15

  /** 'L' is direction 0; every other character is direction 1. */
  function Direction(c: char): (d: nat)
    ensures d == 0 <==> c == 'L'
    ensures d <= 1
  {
    if c == 'L' then 0 else 1
  }

  function Follow(node: Node, dir: nat): Label
  {
    if dir == 0 then node.left else node.right
  }

  // ---------------------------------------------------------------------
  // Walking the network

  /** The location after `n` steps from `start`, taking direction
      `dirs[k % |dirs|]` at step `k`; `None` once a location that is not
      in the network has been left (the `map[&location]` panic). */
  function Walk(start: Label, dirs: seq<nat>, net: Network, n: nat): Option<Label>
    requires |dirs| > 0
  {
    if n == 0 then Some(start)
    else
      var prev :- Walk(start, dirs, net, n - 1);
      if prev in net then Some(Follow(net[prev], dirs[(n - 1) % |dirs|])) else None
  }

  /** `c` is the first step count at which the condition holds. */
  predicate FirstHit(start: Label, dirs: seq<nat>, net: Network, cond: Label -> bool, c: nat)
    requires |dirs| > 0
  {
    Walk(start, dirs, net, c).Some? && cond(Walk(start, dirs, net, c).value) &&
    forall k :: 0 <= k < c ==> Walk(start, dirs, net, k).Some? && !cond(Walk(start, dirs, net, k).value)
  }

  /** There is at most one first hit. */
  lemma FirstHitUnique(start: Label, dirs: seq<nat>, net: Network, cond: Label -> bool, c: nat, d: nat)
    requires |dirs| > 0
    requires FirstHit(start, dirs, net, cond, c) && FirstHit(start, dirs, net, cond, d)
    ensures c == d
  {
  }

  /** The loop of `step_count` from step `count` at `loc`, for at most
      `fuel` steps in all; `None` on a panic or when the fuel runs out. */
  function Steps(loc: Label, count: nat, dirs: seq<nat>, net: Network, cond: Label -> bool, fuel: nat): (r: Option<nat>)
    requires |dirs| > 0 && count <= fuel
    ensures r.Some? ==> count <= r.value <= fuel
    decreases fuel - count
  {
    if cond(loc) then Some(count)
    else if count == fuel || loc !in net then None
    else Steps(Follow(net[loc], dirs[count % |dirs|]), count + 1, dirs, net, cond, fuel)
  }

  /** `step_count`: with no directions the cycle is empty and the count is
      0 whatever the condition; otherwise the number of steps before the
      condition first holds. */
  function StepCount(start: Label, dirs: seq<nat>, net: Network, cond: Label -> bool, fuel: nat): (r: Option<nat>)
    ensures |dirs| == 0 || cond(start) ==> r == Some(0)
    ensures r.Some? ==> r.value <= fuel
  {
    if |dirs| == 0 then Some(0) else Steps(start, 0, dirs, net, cond, fuel)
  }

  /** The loop from step `count` finds the first hit, and fails only when
      there is none within the fuel. */
  lemma {:induction false} StepsCorrect(start: Label, loc: Label, count: nat, dirs: seq<nat>, net: Network, cond: Label -> bool, fuel: nat)
    requires |dirs| > 0 && count <= fuel
    requires Walk(start, dirs, net, count) == Some(loc)
    requires forall k :: 0 <= k < count ==> Walk(start, dirs, net, k).Some? && !cond(Walk(start, dirs, net, k).value)
    ensures var r := Steps(loc, count, dirs, net, cond, fuel);
      (r.Some? ==> FirstHit(start, dirs, net, cond, r.value)) &&
      (r.None? ==> forall k :: 0 <= k <= fuel ==> Walk(start, dirs, net, k).None? || !cond(Walk(start, dirs, net, k).value))
    decreases fuel - count
  {
    if cond(loc) {
    } else if count == fuel || loc !in net {
      if loc !in net {
        forall k | count < k <= fuel
          ensures Walk(start, dirs, net, k).None?
        {
          WalkStuck(start, dirs, net, count, k);
        }
      }
    } else {
      var next := Follow(net[loc], dirs[count % |dirs|]);
      assert Walk(start, dirs, net, count + 1) == Some(next);
      StepsCorrect(start, next, count + 1, dirs, net, cond, fuel);
    }
  }

  /** Once the walk leaves the network it stays stuck. */
  lemma {:induction false} WalkStuck(start: Label, dirs: seq<nat>, net: Network, n: nat, k: nat)
    requires |dirs| > 0 && n < k
    requires Walk(start, dirs, net, n).Some? && Walk(start, dirs, net, n).value !in net
    ensures Walk(start, dirs, net, k).None?
    decreases k
  {
    if k > n + 1 {
      WalkStuck(start, dirs, net, n, k - 1);
    }
  }

  /** `step_count` returns the first hit, 0 when the condition holds at the
      start, and gives up only when no hit lies within the fuel. */
  lemma StepCountCorrect(start: Label, dirs: seq<nat>, net: Network, cond: Label -> bool, fuel: nat)
    requires |dirs| > 0
    ensures var r := StepCount(start, dirs, net, cond, fuel);
      (r.Some? ==> FirstHit(start, dirs, net, cond, r.value)) &&
      (r.None? ==> forall k :: 0 <= k <= fuel ==> Walk(start, dirs, net, k).None? || !cond(Walk(start, dirs, net, k).value))
    ensures cond(start) ==> StepCount(start, dirs, net, cond, fuel) == Some(0)
  {
    StepsCorrect(start, start, 0, dirs, net, cond, fuel);
  }

  // ---------------------------------------------------------------------
  // Parts

  predicate IsZzz(l: Label)
  {
    l == "ZZZ"
  }

  /** `loc[2] == b'A'` / `b'Z'`. */
  predicate EndsWith(l: Label, c: char)
  {
    |l| > 2 && l[2] == c
  }

  predicate EndsWithZ(l: Label)
  {
    EndsWith(l, 'Z')
  }

  /** `part_one`: the steps from AAA to ZZZ. */
  function PartOne(dirs: seq<nat>, net: Network, fuel: nat): (r: Option<nat>)
    ensures |dirs| == 0 ==> r == Some(0)
    ensures |dirs| > 0 && r.Some? ==> FirstHit("AAA", dirs, net, IsZzz, r.value)
    ensures |dirs| > 0 && r.None? ==>
      forall k :: 0 <= k <= fuel ==> Walk("AAA", dirs, net, k).None? || !IsZzz(Walk("AAA", dirs, net, k).value)
  {
    var r := StepCount("AAA", dirs, net, IsZzz, fuel);
    assert |dirs| > 0 ==>
      (r.Some? ==> FirstHit("AAA", dirs, net, IsZzz, r.value)) &&
      (r.None? ==> forall k :: 0 <= k <= fuel ==> Walk("AAA", dirs, net, k).None? || !IsZzz(Walk("AAA", dirs, net, k).value)) by {
      if |dirs| > 0 {
        StepCountCorrect("AAA", dirs, net, IsZzz, fuel);
      }
    }
    r
  }

  /** `reduce(lcm)`: the running lcm from the first count on. */
  function LcmAll(cs: seq<nat>): nat
    requires |cs| > 0
  {
    if |cs| == 1 then cs[0] else Lcm(LcmAll(cs[..|cs| - 1]), cs[|cs| - 1])
  }

  /** The folded lcm is a common multiple of all the counts and divides
      every other common multiple. */
  lemma {:induction false} LcmAllLeast(cs: seq<nat>, m: nat)
    requires |cs| > 0
    ensures forall i :: 0 <= i < |cs| ==> Divides(cs[i], LcmAll(cs))
    ensures (forall i :: 0 <= i < |cs| ==> Divides(cs[i], m)) ==> Divides(LcmAll(cs), m)
    decreases |cs|
  {
    if |cs| > 1 {
      var front := cs[..|cs| - 1];
      var last := cs[|cs| - 1];
      LcmAllLeast(front, m);
      var l := LcmAll(front);
      LcmLeast(l, last, m);
      forall i | 0 <= i < |cs|
        ensures Divides(cs[i], LcmAll(cs))
      {
        if i < |cs| - 1 {
          assert cs[i] == front[i];
          DividesTransitive(cs[i], l, LcmAll(cs));
        }
      }
      if forall i :: 0 <= i < |cs| ==> Divides(cs[i], m) {
        assert forall i :: 0 <= i < |front| ==> Divides(front[i], m) by {
          forall i | 0 <= i < |front|
            ensures Divides(front[i], m)
          {
            assert front[i] == cs[i];
          }
        }
      }
    }
  }

  /** The order of the `HashMap` keys does not matter: the same counts in
      any order fold to the same lcm. */
  lemma LcmAllOrderFree(a: seq<nat>, b: seq<nat>)
    requires |a| > 0 && |b| > 0
    requires forall x :: x in a <==> x in b
    ensures LcmAll(a) == LcmAll(b)
  {
    LcmAllLeast(a, LcmAll(b));
    LcmAllLeast(b, LcmAll(a));
    forall i | 0 <= i < |b|
      ensures Divides(b[i], LcmAll(a))
    {
      assert b[i] in a;
      var j :| 0 <= j < |a| && a[j] == b[i];
    }
    forall i | 0 <= i < |a|
      ensures Divides(a[i], LcmAll(b))
    {
      assert a[i] in b;
      var j :| 0 <= j < |b| && b[j] == a[i];
    }
    DividesAntisymmetric(LcmAll(a), LcmAll(b));
  }

  /** The step count from each start to a label ending in 'Z'. */
  function Counts(dirs: seq<nat>, net: Network, starts: seq<Label>, fuel: nat): (r: Option<seq<nat>>)
    ensures r.Some? <==> forall i :: 0 <= i < |starts| ==> StepCount(starts[i], dirs, net, EndsWithZ, fuel).Some?
    ensures r.Some? ==> |r.value| == |starts|
    ensures r.Some? ==> forall i :: 0 <= i < |starts| ==> StepCount(starts[i], dirs, net, EndsWithZ, fuel) == Some(r.value[i])
  {
    Seqs.MapAll(starts, s => StepCount(s, dirs, net, EndsWithZ, fuel))
  }

  /** The starting nodes, listed in the map's iteration order: every label
      of the network that ends in 'A', each once. */
  ghost predicate StartsOf(net: Network, starts: seq<Label>)
  {
    (forall l :: l in starts <==> l in net && EndsWith(l, 'A')) &&
    forall i, j :: 0 <= i < j < |starts| ==> starts[i] != starts[j]
  }

  /** `part_two`: the lcm of the step counts from every start; `None` where
      there is no start (`reduce` gives nothing to unwrap) or a count
      fails. */
  function PartTwo(dirs: seq<nat>, net: Network, starts: seq<Label>, fuel: nat): (r: Option<nat>)
    requires StartsOf(net, starts)
    ensures r.Some? <==> |starts| > 0 && Counts(dirs, net, starts, fuel).Some?
    ensures r.Some? ==>
      var counts := Counts(dirs, net, starts, fuel).value;
      (forall i :: 0 <= i < |counts| ==> Divides(counts[i], r.value)) &&
      (forall m: nat :: (forall i :: 0 <= i < |counts| ==> Divides(counts[i], m)) ==> Divides(r.value, m)) &&
      (|dirs| > 0 ==> forall i :: 0 <= i < |counts| ==> FirstHit(starts[i], dirs, net, EndsWithZ, counts[i]))
  {
    if |starts| == 0 then None
    else
      var counts :- Counts(dirs, net, starts, fuel);
      LcmAllLeast(counts, 0);
      forall m: nat | forall i :: 0 <= i < |counts| ==> Divides(counts[i], m)
        ensures Divides(LcmAll(counts), m)
      {
        LcmAllLeast(counts, m);
      }
      assert |dirs| > 0 ==> forall i :: 0 <= i < |counts| ==> FirstHit(starts[i], dirs, net, EndsWithZ, counts[i]) by {
        if |dirs| > 0 {
          forall i | 0 <= i < |counts|
            ensures FirstHit(starts[i], dirs, net, EndsWithZ, counts[i])
          {
            StepCountCorrect(starts[i], dirs, net, EndsWithZ, fuel);
          }
        }
      }
      Some(LcmAll(counts))
  }

  // ---------------------------------------------------------------------
  // Parsing

  /** A node line: the label is columns 0..3, the successors columns 7..10
      and 12..15; `None` where a line is too short to slice. */
  function ParseNode(line: string): (r: Option<(Label, Node)>)
    ensures r.Some? <==> |line| >= NodeLine
    ensures r.Some? ==> r.value == (line[0..3], Node(line[7..10], line[12..15]))
  {
    if |line| < NodeLine then None else Some((line[0..3], Node(line[7..10], line[12..15])))
  }

  /** `collect()` into a `HashMap`: a later line for a label replaces an
      earlier one. */
  function Collect(entries: seq<(Label, Node)>): (net: Network)
    ensures forall l :: l in net <==> exists i :: 0 <= i < |entries| && entries[i].0 == l
  {
    if |entries| == 0 then map[]
    else
      var e := entries[|entries| - 1];
      var front := entries[..|entries| - 1];
      assert forall i :: 0 <= i < |front| ==> front[i] == entries[i];
      Collect(front)[e.0 := e.1]
  }

  /** Each label maps to the node of its last line. */
  lemma {:induction false} CollectLast(entries: seq<(Label, Node)>, i: nat)
    requires i < |entries|
    requires forall j :: i < j < |entries| ==> entries[j].0 != entries[i].0
    ensures Collect(entries)[entries[i].0] == entries[i].1
    decreases |entries|
  {
    if i < |entries| - 1 {
      var front := entries[..|entries| - 1];
      assert front[i] == entries[i];
      CollectLast(front, i);
    }
  }

  /** `parse_input`: the directions from the first line, then, after
      skipping one line, a node per line; `None` where there is no first
      line or a node line is too short. */
  function ParseInput(input: string): (r: Option<(seq<nat>, Network)>)
  {
    ParseLines(Lines(input))
  }

  function ParseLines(lines: seq<string>): (r: Option<(seq<nat>, Network)>)
    ensures r.Some? <==> (|lines| > 0 && forall i :: 2 <= i < |lines| ==> |lines[i]| >= NodeLine)
    ensures r.Some? ==> (|r.value.0| == |lines[0]| &&
      forall i :: 0 <= i < |r.value.0| ==> r.value.0[i] == Direction(lines[0][i]))
    ensures r.Some? ==> forall i :: 2 <= i < |lines| ==> lines[i][0..3] in r.value.1
    ensures r.Some? ==> forall l :: l in r.value.1 ==> exists i :: 2 <= i < |lines| && lines[i][0..3] == l
    ensures r.Some? ==>
      forall i :: 2 <= i < |lines| && LastLine(lines, i) ==>
        r.value.1[lines[i][0..3]] == Node(lines[i][7..10], lines[i][12..15])
  {
    if |lines| == 0 then None
    else
      var dirs := seq(|lines[0]|, i requires 0 <= i < |lines[0]| => Direction(lines[0][i]));
      var rest := if |lines| >= 2 then lines[2..] else [];
      match Seqs.MapAll(rest, ParseNode)
      case None =>
        var k :| 0 <= k < |rest| && ParseNode(rest[k]).None?;
        assert rest[k] == lines[k + 2];
        None
      case Some(entries) =>
        NodesFound(lines, rest, entries);
        Some((dirs, Collect(entries)))
  }

  /** Every node line parsed: each label is in the map, and a line that is
      last for its label gives the label's successors. */
  lemma NodesFound(lines: seq<string>, rest: seq<string>, entries: seq<(Label, Node)>)
    requires |lines| > 0 && rest == (if |lines| >= 2 then lines[2..] else [])
    requires Seqs.MapAll(rest, ParseNode) == Some(entries)
    ensures forall i :: 2 <= i < |lines| ==> |lines[i]| >= NodeLine
    ensures forall i :: 2 <= i < |lines| ==> lines[i][0..3] in Collect(entries)
    ensures forall l :: l in Collect(entries) ==> exists i :: 2 <= i < |lines| && lines[i][0..3] == l
    ensures forall i :: 2 <= i < |lines| && LastLine(lines, i) ==>
      Collect(entries)[lines[i][0..3]] == Node(lines[i][7..10], lines[i][12..15])
  {
    assert forall i :: 2 <= i < |lines| ==> rest[i - 2] == lines[i];
    NodesCollected(rest, entries);
    NodesOnly(lines, rest, entries);
    forall i | 2 <= i < |lines| && LastLine(lines, i)
      ensures Collect(entries)[lines[i][0..3]] == Node(lines[i][7..10], lines[i][12..15])
    {
      NodeOfLastLine(lines, rest, entries, i);
    }
  }

  /** The collected map has no key but the node lines' labels. */
  lemma NodesOnly(lines: seq<string>, rest: seq<string>, entries: seq<(Label, Node)>)
    requires |lines| > 0 && rest == (if |lines| >= 2 then lines[2..] else [])
    requires Seqs.MapAll(rest, ParseNode) == Some(entries)
    ensures forall l :: l in Collect(entries) ==> exists i :: 2 <= i < |lines| && lines[i][0..3] == l
  {
    forall l | l in Collect(entries)
      ensures exists i :: 2 <= i < |lines| && lines[i][0..3] == l
    {
      var k :| 0 <= k < |entries| && entries[k].0 == l;
      assert Some(entries[k]) == ParseNode(rest[k]);
      assert lines[k + 2] == rest[k];
    }
  }

  /** Node line `i` is the last line for its label: a later line with the
      same label would replace it in the `HashMap`. */
  predicate LastLine(lines: seq<string>, i: nat)
    requires 2 <= i < |lines| && |lines[i]| >= NodeLine
  {
    forall j :: i < j < |lines| ==> |lines[j]| < 3 || lines[j][0..3] != lines[i][0..3]
  }

  /** The map sends the label of a node line that is last for its label to
      that line's successors. */
  lemma NodeOfLastLine(lines: seq<string>, rest: seq<string>, entries: seq<(Label, Node)>, i: nat)
    requires 2 <= i < |lines| && rest == lines[2..]
    requires Seqs.MapAll(rest, ParseNode) == Some(entries)
    requires |lines[i]| >= NodeLine && LastLine(lines, i)
    ensures Collect(entries)[lines[i][0..3]] == Node(lines[i][7..10], lines[i][12..15])
  {
    assert Some(entries[i - 2]) == ParseNode(rest[i - 2]);
    forall j | i - 2 < j < |entries|
      ensures entries[j].0 != entries[i - 2].0
    {
      assert Some(entries[j]) == ParseNode(rest[j]);
      assert rest[j] == lines[j + 2];
    }
    CollectLast(entries, i - 2);
  }

  /** Every node line's label is a key of the collected network. */
  lemma NodesCollected(rest: seq<string>, entries: seq<(Label, Node)>)
    requires Seqs.MapAll(rest, ParseNode) == Some(entries)
    ensures forall i :: 0 <= i < |rest| ==> rest[i][0..3] in Collect(entries)
  {
    forall i | 0 <= i < |rest|
      ensures rest[i][0..3] in Collect(entries)
    {
      assert Some(entries[i]) == ParseNode(rest[i]);
    }
  }
}
