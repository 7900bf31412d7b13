/** aoc-19: Aplenty.  Named workflows send a part, rated in the four
    categories x, m, a and s, through lists of rules; the first rule whose
    test holds (or the first unconditional one) names the next workflow or
    accepts or rejects the part.  Part one sums the ratings of the accepted
    parts; part two pushes the whole box 1..=4000 of ratings through the
    workflows, splitting it at every test, and adds up the volumes of the
    accepted pieces. */
module Aplenty {
  import opened Wrappers
  import opened Text
  import Seqs

  datatype Category = X | M | A | S

  datatype Dst = Accept | Reject | Goto(name: string)

  /** A test `category < val` (ordering `Less`) or `category > val`
      (ordering `Greater`). */
  datatype Op = Op(ordering: Ordering, category: Category, val: nat)

  /** A rule with no test always fires. */
  datatype Rule = Rule(op: Option<Op>, dst: Dst)

  type Workflows = map<string, seq<Rule>>

  datatype Part = Part(x: nat, m: nat, a: nat, s: nat)

  /** The inclusive interval `lo ..= hi`, empty when `hi < lo`. */
  datatype Interval = Interval(lo: int, hi: int)

  /** A `PartRange`: one interval per category. */
  datatype Box = Box(x: Interval, m: Interval, a: Interval, s: Interval)

  /** The lowest and highest rating part two considers. */
  const MinRating: int := 1
  const MaxRating: int := 4000

  /** The name of the workflow every part enters first. */
  const Entry: string := "in"

  function Rating(p: Part, c: Category): nat
  {
    match c
    case X => p.x
    case M => p.m
    case A => p.a
    case S => p.s
  }

  function Get(b: Box, c: Category): Interval
  {
    match c
    case X => b.x
    case M => b.m
    case A => b.a
    case S => b.s
  }

  /** The box with the interval of category `c` replaced. */
  function With(b: Box, c: Category, iv: Interval): (r: Box)
    ensures Get(r, c) == iv
    ensures forall d :: d != c ==> Get(r, d) == Get(b, d)
  {
    match c
    case X => b.(x := iv)
    case M => b.(m := iv)
    case A => b.(a := iv)
    case S => b.(s := iv)
  }

  // ---------------------------------------------------------------------
  // Parsing

  /** `map_dst`. */
  function MapDst(s: string): (d: Dst)
    ensures d == Accept <==> s == "A"
    ensures d == Reject <==> s == "R"
    ensures d.Goto? <==> s != "A" && s != "R"
    ensures d.Goto? ==> d.name == s
  {
    if s == "A" then Accept else if s == "R" then Reject else Goto(s)
  }

  /** The category letters; `None` where the program reaches
      `unreachable!()`. */
  function ParseCategory(s: string): (c: Option<Category>)
    ensures c.Some? <==> s in {"x", "m", "a", "s"}
    ensures c == Some(X) <==> s == "x"
    ensures c == Some(M) <==> s == "m"
    ensures c == Some(A) <==> s == "a"
    ensures c == Some(S) <==> s == "s"
  {
    if s == "x" then Some(X)
    else if s == "m" then Some(M)
    else if s == "a" then Some(A)
    else if s == "s" then Some(S)
    else None
  }

  /** One rule: "CAT<VAL:DST", "CAT>VAL:DST", or a bare "DST".  The
      ordering is `Less` exactly when the test contains '<'; the test is cut
      at its first '<' or '>'.  `None` where the program panics. */
  function ParseRule(piece: string): (r: Option<Rule>)
    ensures ':' !in piece ==> r == Some(Rule(None, MapDst(piece)))
    ensures r.Some? && r.value.op.Some? ==>
      SplitOnce(piece, {':'}).Some? &&
      var (test, dst) := SplitOnce(piece, {':'}).value;
      r.value.dst == MapDst(dst) &&
      (r.value.op.value.ordering == Less <==> '<' in test) &&
      r.value.op.value.ordering != Equal
  {
    match SplitOnce(piece, {':'})
    case None =>
      Some(Rule(None, MapDst(piece)))
    case Some((test, dst)) =>
      var ordering := if '<' in test then Less else Greater;
      var (cat, v) :- SplitOnce(test, {'<', '>'});
      var val :- ParseNat(v);
      var c :- ParseCategory(cat);
      Some(Rule(Some(Op(ordering, c, val)), MapDst(dst)))
  }

  /** A piece with ':' is a rule exactly when the test before the ':'
      splits at a '<' or '>' into a category letter and a number; that
      letter and number are the rule's category and threshold. */
  lemma ParseRuleTest(piece: string)
    requires ':' in piece
    ensures var test := SplitOnce(piece, {':'}).value.0;
      var r := ParseRule(piece);
      (r.Some? <==>
        (SplitOnce(test, {'<', '>'}).Some? &&
         ParseCategory(SplitOnce(test, {'<', '>'}).value.0).Some? &&
         ParseNat(SplitOnce(test, {'<', '>'}).value.1).Some?)) &&
      (r.Some? ==>
        var (cat, v) := SplitOnce(test, {'<', '>'}).value;
        r.value.op.Some? &&
        Some(r.value.op.value.category) == ParseCategory(cat) &&
        Some(r.value.op.value.val) == ParseNat(v))
  {
  }

  /** A workflow line "NAME{RULE,RULE,...}": split at every '{', ',' and
      '}', the first piece is the name and the non-empty others are the
      rules. */
  function ParseWorkflow(line: string): (r: Option<(string, seq<Rule>)>)
    ensures r.Some? <==>
      var pieces := NonEmpty(SplitOn(line, {'{', ',', '}'})[1..]);
      forall i :: 0 <= i < |pieces| ==> ParseRule(pieces[i]).Some?
    ensures r.Some? ==> r.value.0 == SplitOn(line, {'{', ',', '}'})[0]
    ensures r.Some? ==>
      var pieces := NonEmpty(SplitOn(line, {'{', ',', '}'})[1..]);
      |r.value.1| == |pieces| &&
      forall i :: 0 <= i < |pieces| ==> ParseRule(pieces[i]) == Some(r.value.1[i])
  {
    var pieces := SplitOn(line, {'{', ',', '}'});
    var rules := NonEmpty(pieces[1..]);
    match Seqs.MapAll(rules, ParseRule)
    case None =>
      var i :| 0 <= i < |rules| && ParseRule(rules[i]).None?;
      assert !ParseRule(NonEmpty(SplitOn(line, {'{', ',', '}'})[1..])[i]).Some?;
      None
    case Some(rs) => Some((pieces[0], rs))
  }

  /** The workflow lines from `i` up to the first empty line, added to
      `acc` in order (a later line with the same name replaces an earlier
      one); the result holds the workflows and the index just past the
      empty line.  `None` when the lines run out first (`unwrap` on the
      line iterator) or a line does not parse. */
  function ParseWorkflows(lines: seq<string>, i: nat, acc: Workflows, parse: string -> Option<(string, seq<Rule>)>): (r: Option<(Workflows, nat)>)
    requires i <= |lines|
    ensures r.Some? <==> FirstEmpty(lines, i).Some? && AllParse(lines, i, FirstEmpty(lines, i).value, parse)
    ensures r.Some? ==> r.value.1 == FirstEmpty(lines, i).value + 1
    decreases |lines| - i
  {
    if i == |lines| then None
    else if lines[i] == "" then Some((acc, i + 1))
    else
      var (name, rules) :- parse(lines[i]);
      ParseWorkflows(lines, i + 1, acc[name := rules], parse)
  }

  /** The index of the first empty line from `i` on. */
  function FirstEmpty(lines: seq<string>, i: nat): (r: Option<nat>)
    requires i <= |lines|
    ensures r.Some? ==> i <= r.value < |lines| && lines[r.value] == ""
    ensures r.Some? ==> forall k :: i <= k < r.value ==> lines[k] != ""
    ensures r.None? ==> forall k :: i <= k < |lines| ==> lines[k] != ""
    decreases |lines| - i
  {
    if i == |lines| then None
    else if lines[i] == "" then Some(i)
    else FirstEmpty(lines, i + 1)
  }

  /** Every line from `i` up to `e` is a workflow. */
  predicate AllParse(lines: seq<string>, i: nat, e: nat, parse: string -> Option<(string, seq<Rule>)>)
    requires i <= e <= |lines|
  {
    forall k :: i <= k < e ==> parse(lines[k]).Some?
  }

  /** The workflows of lines `i` up to `e`, in order. */
  function Parsed(lines: seq<string>, i: nat, e: nat, parse: string -> Option<(string, seq<Rule>)>): (ws: seq<(string, seq<Rule>)>)
    requires i <= e <= |lines| && AllParse(lines, i, e, parse)
    ensures |ws| == e - i && forall j :: 0 <= j < |ws| ==> Some(ws[j]) == parse(lines[i + j])
  {
    seq(e - i, j requires 0 <= j < e - i => parse(lines[i + j]).value)
  }

  lemma ParsedFirst(lines: seq<string>, i: nat, e: nat, parse: string -> Option<(string, seq<Rule>)>)
    requires i < e <= |lines| && AllParse(lines, i, e, parse)
    ensures Parsed(lines, i, e, parse) == [parse(lines[i]).value] + Parsed(lines, i + 1, e, parse)
  {
    var ws, rest := Parsed(lines, i, e, parse), Parsed(lines, i + 1, e, parse);
    assert forall j :: 0 <= j < |rest| ==> ws[j + 1] == rest[j];
  }

  /** `workflows.insert` for each workflow in turn. */
  function InsertAll(acc: Workflows, ws: seq<(string, seq<Rule>)>): Workflows
    decreases |ws|
  {
    if |ws| == 0 then acc else InsertAll(acc[ws[0].0 := ws[0].1], ws[1..])
  }

  /** The inserted map holds the names of `acc` and of the workflows. */
  lemma {:induction false} InsertAllKeys(acc: Workflows, ws: seq<(string, seq<Rule>)>)
    ensures forall name :: name in InsertAll(acc, ws) <==> name in acc || exists j :: 0 <= j < |ws| && ws[j].0 == name
    decreases |ws|
  {
    if |ws| > 0 {
      var next := acc[ws[0].0 := ws[0].1];
      var rest := ws[1..];
      InsertAllKeys(next, rest);
      assert forall j :: 0 <= j < |rest| ==> rest[j] == ws[j + 1];
    }
  }

  /** A name takes the rules of its last workflow. */
  lemma {:induction false} InsertAllLast(acc: Workflows, ws: seq<(string, seq<Rule>)>, j: nat)
    requires j < |ws| && forall k :: j < k < |ws| ==> ws[k].0 != ws[j].0
    ensures ws[j].0 in InsertAll(acc, ws) && InsertAll(acc, ws)[ws[j].0] == ws[j].1
    decreases |ws|
  {
    var next := acc[ws[0].0 := ws[0].1];
    var rest := ws[1..];
    if j > 0 {
      assert rest[j - 1] == ws[j];
      assert forall k :: j - 1 < k < |rest| ==> rest[k].0 != rest[j - 1].0 by {
        assert forall k :: j - 1 < k < |rest| ==> rest[k] == ws[k + 1];
      }
      InsertAllLast(next, rest, j - 1);
    } else {
      assert forall k :: 0 <= k < |rest| ==> rest[k].0 != ws[0].0 by {
        assert forall k :: 0 <= k < |rest| ==> rest[k] == ws[k + 1];
      }
      InsertAllKeeps(next, rest, ws[0].0);
    }
  }

  /** A name of `acc` that no workflow reuses keeps its rules. */
  lemma {:induction false} InsertAllKeeps(acc: Workflows, ws: seq<(string, seq<Rule>)>, name: string)
    requires name in acc && forall j :: 0 <= j < |ws| ==> ws[j].0 != name
    ensures name in InsertAll(acc, ws) && InsertAll(acc, ws)[name] == acc[name]
    decreases |ws|
  {
    if |ws| > 0 {
      assert ws[0].0 != name;
      var rest := ws[1..];
      assert forall j :: 0 <= j < |rest| ==> rest[j] == ws[j + 1];
      InsertAllKeeps(acc[ws[0].0 := ws[0].1], rest, name);
    }
  }

  /** The loop inserts the workflows of the lines up to the first empty
      line into `acc`, in order. */
  lemma {:induction false} ParseWorkflowsInserts(lines: seq<string>, i: nat, acc: Workflows, parse: string -> Option<(string, seq<Rule>)>)
    requires i <= |lines| && ParseWorkflows(lines, i, acc, parse).Some?
    ensures ParseWorkflows(lines, i, acc, parse).value.0 ==
      InsertAll(acc, Parsed(lines, i, FirstEmpty(lines, i).value, parse))
    decreases |lines| - i
  {
    var e := FirstEmpty(lines, i).value;
    if lines[i] != "" {
      var w := parse(lines[i]).value;
      var next := acc[w.0 := w.1];
      assert ParseWorkflows(lines, i, acc, parse) == ParseWorkflows(lines, i + 1, next, parse);
      ParseWorkflowsInserts(lines, i + 1, next, parse);
      ParsedFirst(lines, i, e, parse);
    } else {
      assert Parsed(lines, i, e, parse) == [];
    }
  }

  /** A part line "{x=X,m=M,a=A,s=S}": split at every '=', ',' and '}',
      the ratings are the pieces at 1, 3, 5 and 7. */
  function ParsePart(line: string): (r: Option<Part>)
    ensures r.Some? <==>
      var pieces := SplitOn(line, {'=', ',', '}'});
      |pieces| >= 8 && ParseNat(pieces[1]).Some? && ParseNat(pieces[3]).Some? &&
      ParseNat(pieces[5]).Some? && ParseNat(pieces[7]).Some?
    ensures r.Some? ==>
      var pieces := SplitOn(line, {'=', ',', '}'});
      Some(r.value.x) == ParseNat(pieces[1]) && Some(r.value.m) == ParseNat(pieces[3]) &&
      Some(r.value.a) == ParseNat(pieces[5]) && Some(r.value.s) == ParseNat(pieces[7])
  {
    var pieces := SplitOn(line, {'=', ',', '}'});
    if |pieces| < 8 then None
    else
      var x :- ParseNat(pieces[1]);
      var m :- ParseNat(pieces[3]);
      var a :- ParseNat(pieces[5]);
      var s :- ParseNat(pieces[7]);
      Some(Part(x, m, a, s))
  }

  /** `parse_input`: the workflows up to the empty line, then one part per
      remaining line. */
  function ParseInput(input: string): (r: Option<(Workflows, seq<Part>)>)
    ensures r.Some? <==> (ParseWorkflows(Lines(input), 0, map[], ParseWorkflow).Some? &&
      var k := ParseWorkflows(Lines(input), 0, map[], ParseWorkflow).value.1;
      forall j :: k <= j < |Lines(input)| ==> ParsePart(Lines(input)[j]).Some?)
    ensures r.Some? ==>
      var lines := Lines(input);
      var (wfs, k) := ParseWorkflows(lines, 0, map[], ParseWorkflow).value;
      r.value.0 == wfs && |r.value.1| == |lines| - k &&
      forall j :: 0 <= j < |r.value.1| ==> ParsePart(lines[k + j]) == Some(r.value.1[j])
  {
    var lines := Lines(input);
    var (wfs, k) :- ParseWorkflows(lines, 0, map[], ParseWorkflow);
    var parts :- Seqs.MapAll(lines[k..], ParsePart);
    assert forall j :: 0 <= j < |parts| ==> lines[k..][j] == lines[k + j];
    Some((wfs, parts))
  }

  // ---------------------------------------------------------------------
  // Part one: one part through the workflows

  /** `part[i].cmp(&val) == ordering`. */
  predicate Passes(p: Part, op: Op)
  {
    CompareInt(Rating(p, op.category), op.val) == op.ordering
  }

  predicate Fires(p: Part, rule: Rule)
  {
    rule.op.None? || Passes(p, rule.op.value)
  }

  /** The index of the first rule that fires. */
  function FirstFiring(p: Part, rules: seq<Rule>): (k: Option<nat>)
    ensures k.None? <==> forall i :: 0 <= i < |rules| ==> !Fires(p, rules[i])
    ensures k.Some? ==> k.value < |rules| && Fires(p, rules[k.value])
    ensures k.Some? ==> forall i :: 0 <= i < k.value ==> !Fires(p, rules[i])
  {
    if |rules| == 0 then None
    else if Fires(p, rules[0]) then Some(0)
    else
      var k :- FirstFiring(p, rules[1..]);
      assert forall i :: 1 <= i < k + 1 ==> rules[i] == rules[1..][i - 1];
      Some(k + 1)
  }

  /** `accepted_recursive`: the rules in order, the first that fires
      decides; `None` when none fires (`unreachable!()`), when a named
      workflow is missing, or when `fuel` workflow jumps do not reach a
      verdict. */
  function Decide(p: Part, rules: seq<Rule>, wfs: Workflows, fuel: nat): Option<bool>
    decreases fuel, 1, |rules|
  {
    if |rules| == 0 then None
    else if Fires(p, rules[0]) then GotoDst(p, rules[0].dst, wfs, fuel)
    else Decide(p, rules[1..], wfs, fuel)
  }

  /** `goto_dst`. */
  function GotoDst(p: Part, dst: Dst, wfs: Workflows, fuel: nat): Option<bool>
    decreases fuel, 0, 0
  {
    match dst
    case Accept => Some(true)
    case Reject => Some(false)
    case Goto(name) =>
      if fuel == 0 || name !in wfs then None else Decide(p, wfs[name], wfs, fuel - 1)
  }

  /** The walk takes the first rule that fires and ignores every later
      one. */
  lemma {:induction false} DecideFirstFiring(p: Part, rules: seq<Rule>, wfs: Workflows, fuel: nat)
    ensures FirstFiring(p, rules).None? ==> Decide(p, rules, wfs, fuel).None?
    ensures FirstFiring(p, rules).Some? ==>
      Decide(p, rules, wfs, fuel) == GotoDst(p, rules[FirstFiring(p, rules).value].dst, wfs, fuel)
    decreases |rules|
  {
    if |rules| > 0 && !Fires(p, rules[0]) {
      DecideFirstFiring(p, rules[1..], wfs, fuel);
    }
  }

  /** `accepted`: the walk from the workflow "in". */
  function Accepted(p: Part, wfs: Workflows, fuel: nat): (r: Option<bool>)
    ensures Entry !in wfs ==> r.None?
  {
    if Entry !in wfs then None else Decide(p, wfs[Entry], wfs, fuel)
  }

  function RatingSum(p: Part): nat
  {
    p.x + p.m + p.a + p.s
  }

  /** The rating sums of the parts, in order. */
  function RatingSums(parts: seq<Part>): (r: seq<int>)
    ensures |r| == |parts| && forall i :: 0 <= i < |parts| ==> r[i] == RatingSum(parts[i])
  {
    seq(|parts|, i requires 0 <= i < |parts| => RatingSum(parts[i]))
  }

  /** The accepted parts, in order: the `filter` of `part_one`. */
  function AcceptedParts(parts: seq<Part>, wfs: Workflows, fuel: nat): seq<Part>
  {
    if |parts| == 0 then []
    else (if Accepted(parts[0], wfs, fuel) == Some(true) then [parts[0]] else []) + AcceptedParts(parts[1..], wfs, fuel)
  }

  /** Filtering a list with one more part at the back filters the front
      and then that part. */
  lemma {:induction false} AcceptedPartsSnoc(parts: seq<Part>, wfs: Workflows, fuel: nat)
    requires |parts| > 0
    ensures var last := parts[|parts| - 1];
      AcceptedParts(parts, wfs, fuel) ==
        AcceptedParts(parts[..|parts| - 1], wfs, fuel) + (if Accepted(last, wfs, fuel) == Some(true) then [last] else [])
    decreases |parts|
  {
    if |parts| > 1 {
      AcceptedPartsSnoc(parts[1..], wfs, fuel);
      assert parts[1..][..|parts| - 2] == parts[..|parts| - 1][1..];
    }
  }

  /** The accepted rating total grows by the last part's ratings exactly
      when that part is accepted. */
  lemma AcceptedSumSnoc(parts: seq<Part>, wfs: Workflows, fuel: nat, ok: bool)
    requires |parts| > 0 && Accepted(parts[|parts| - 1], wfs, fuel) == Some(ok)
    ensures var last := parts[|parts| - 1];
      Seqs.Sum(RatingSums(AcceptedParts(parts, wfs, fuel))) ==
        Seqs.Sum(RatingSums(AcceptedParts(parts[..|parts| - 1], wfs, fuel))) + if ok then RatingSum(last) else 0
  {
    var last := parts[|parts| - 1];
    var front := AcceptedParts(parts[..|parts| - 1], wfs, fuel);
    var tail := if ok then [last] else [];
    AcceptedPartsSnoc(parts, wfs, fuel);
    assert RatingSums(front + tail) == RatingSums(front) + RatingSums(tail);
    Seqs.SumAppend(RatingSums(front), RatingSums(tail));
    if ok {
      assert RatingSums(tail)[..0] == [];
    }
  }

  /** `part_one`: the sum of all four ratings of every accepted part;
      `None` when the walk of any part panics. */
  function PartOne(parts: seq<Part>, wfs: Workflows, fuel: nat): (r: Option<nat>)
    ensures r.Some? <==> forall i :: 0 <= i < |parts| ==> Accepted(parts[i], wfs, fuel).Some?
    ensures r.Some? ==> r.value == Seqs.Sum(RatingSums(AcceptedParts(parts, wfs, fuel)))
    ensures r.Some? ==> r.value <= Seqs.Sum(RatingSums(parts))
    ensures r.Some? && (forall i :: 0 <= i < |parts| ==> Accepted(parts[i], wfs, fuel) == Some(true)) ==>
      r.value == Seqs.Sum(RatingSums(parts))
    ensures r.Some? && (forall i :: 0 <= i < |parts| ==> Accepted(parts[i], wfs, fuel) == Some(false)) ==>
      r.value == 0
  {
    if |parts| == 0 then Some(0)
    else
      var front := parts[..|parts| - 1];
      var last := parts[|parts| - 1];
      assert RatingSums(parts)[..|parts| - 1] == RatingSums(front);
      assert forall i :: 0 <= i < |front| ==> front[i] == parts[i];
      var sum :- PartOne(front, wfs, fuel);
      var ok :- Accepted(last, wfs, fuel);
      AcceptedSumSnoc(parts, wfs, fuel, ok);
      Some(sum + if ok then RatingSum(last) else 0)
  }

  // ---------------------------------------------------------------------
  // Boxes of parts

  predicate InInterval(v: int, iv: Interval)
  {
    iv.lo <= v <= iv.hi
  }

  predicate InBox(p: Part, b: Box)
  {
    InInterval(p.x, b.x) && InInterval(p.m, b.m) && InInterval(p.a, b.a) && InInterval(p.s, b.s)
  }

  lemma InBoxGet(p: Part, b: Box)
    ensures InBox(p, b) <==> forall c :: InInterval(Rating(p, c), Get(b, c))
  {
    assert InInterval(Rating(p, X), Get(b, X)) == InInterval(p.x, b.x);
    assert InInterval(Rating(p, M), Get(b, M)) == InInterval(p.m, b.m);
    assert InInterval(Rating(p, A), Get(b, A)) == InInterval(p.a, b.a);
    assert InInterval(Rating(p, S), Get(b, S)) == InInterval(p.s, b.s);
  }

  predicate EmptyInterval(iv: Interval)
  {
    iv.hi < iv.lo
  }

  predicate EmptyBox(b: Box)
  {
    EmptyInterval(b.x) || EmptyInterval(b.m) || EmptyInterval(b.a) || EmptyInterval(b.s)
  }

  /** No part lies in an empty box, and a non-empty box of ratings holds
      at least its lowest corner. */
  lemma EmptyBoxHasNoPart(b: Box)
    ensures EmptyBox(b) ==> forall p: Part :: !InBox(p, b)
    ensures !EmptyBox(b) && SubBox(b, FullBox()) ==> InBox(Part(b.x.lo, b.m.lo, b.a.lo, b.s.lo), b)
  {
  }

  /** `a.1 + 1 - a.0`, and nothing for an empty interval. */
  function Width(iv: Interval): (w: nat)
    ensures w == 0 <==> EmptyInterval(iv)
  {
    if iv.hi < iv.lo then 0 else iv.hi + 1 - iv.lo
  }

  /** The number of rating combinations in a box: the product of the four
      widths. */
  function Volume(b: Box): nat
  {
    Width(b.x) * Width(b.m) * Width(b.a) * Width(b.s)
  }

  lemma VolumeZero(b: Box)
    ensures Volume(b) == 0 <==> EmptyBox(b)
  {
    var p := Width(b.x) * Width(b.m) * Width(b.a);
    assert Width(b.x) * Width(b.m) == 0 <==> Width(b.x) == 0 || Width(b.m) == 0;
    assert p == 0 <==> Width(b.x) * Width(b.m) == 0 || Width(b.a) == 0;
    assert Volume(b) == p * Width(b.s);
  }

  lemma Distrib(x: int, y: int, z: int)
    ensures (x + y) * z == x * z + y * z
    ensures z * (x + y) == z * x + z * y
  {
  }

  /** Every interval of `r` lies within the corresponding one of `b`. */
  predicate SubBox(r: Box, b: Box)
  {
    b.x.lo <= r.x.lo && r.x.hi <= b.x.hi && b.m.lo <= r.m.lo && r.m.hi <= b.m.hi &&
    b.a.lo <= r.a.lo && r.a.hi <= b.a.hi && b.s.lo <= r.s.lo && r.s.hi <= b.s.hi
  }

  lemma SubBoxParts(r: Box, b: Box, p: Part)
    requires SubBox(r, b) && InBox(p, r)
    ensures InBox(p, b)
  {
  }

  predicate ApartIntervals(i: Interval, j: Interval)
  {
    i.hi < j.lo || j.hi < i.lo || EmptyInterval(i) || EmptyInterval(j)
  }

  /** Two boxes with no part in common: they are apart in some category. */
  predicate Apart(b1: Box, b2: Box)
  {
    ApartIntervals(b1.x, b2.x) || ApartIntervals(b1.m, b2.m) ||
    ApartIntervals(b1.a, b2.a) || ApartIntervals(b1.s, b2.s)
  }

  lemma ApartNoCommonPart(b1: Box, b2: Box, p: Part)
    requires Apart(b1, b2)
    ensures !(InBox(p, b1) && InBox(p, b2))
  {
  }

  lemma ApartSub(r1: Box, b1: Box, r2: Box, b2: Box)
    requires SubBox(r1, b1) && SubBox(r2, b2) && Apart(b1, b2)
    ensures Apart(r1, r2)
  {
  }

  /** A non-empty box is not apart from itself, so boxes that are
      pairwise apart and non-empty are pairwise different. */
  lemma ApartDistinct(b1: Box, b2: Box)
    requires !EmptyBox(b1) && Apart(b1, b2)
    ensures b1 != b2
  {
  }

  // ---------------------------------------------------------------------
  // Part two as written

  /** The interval of category `c` rewritten the way lines 194-200 do it:
      the branch gets `val - 1` as its upper bound (for `<`) or `val + 1`
      as its lower bound (for `>`), and the remainder `val` as the
      opposite bound, whatever the interval was before. */
  function SplitAsWritten(b: Box, op: Op): (r: (Box, Box))
    ensures Get(r.0, op.category) == if op.ordering == Less
      then Interval(Get(b, op.category).lo, op.val - 1)
      else Interval(op.val + 1, Get(b, op.category).hi)
    ensures Get(r.1, op.category) == if op.ordering == Less
      then Interval(op.val, Get(b, op.category).hi)
      else Interval(Get(b, op.category).lo, op.val)
  {
    var iv := Get(b, op.category);
    if op.ordering == Less then
      (With(b, op.category, Interval(iv.lo, op.val - 1)), With(b, op.category, Interval(op.val, iv.hi)))
    else
      (With(b, op.category, Interval(op.val + 1, iv.hi)), With(b, op.category, Interval(iv.lo, op.val)))
  }

  /** `calc_accepted_ranges` as written: every rule is visited, also
      after an unconditional one, and pieces are passed on whether empty or
      not.  `None` when a named workflow is missing or `fuel` runs out. */
  function CalcAsWritten(b: Box, rules: seq<Rule>, wfs: Workflows, fuel: nat): (r: Option<seq<Box>>)
    ensures r.Some? ==> |r.value| >= AcceptCount(rules)
    decreases fuel, 1, |rules|
  {
    if |rules| == 0 then Some([])
    else
      match rules[0].op
      case None =>
        var here :- BranchAsWritten(b, rules[0].dst, wfs, fuel);
        var rest :- CalcAsWritten(b, rules[1..], wfs, fuel);
        Some(here + rest)
      case Some(op) =>
        var (branch, remainder) := SplitAsWritten(b, op);
        var here :- BranchAsWritten(branch, rules[0].dst, wfs, fuel);
        var rest :- CalcAsWritten(remainder, rules[1..], wfs, fuel);
        Some(here + rest)
  }

  /** The number of rules that accept outright. */
  function AcceptCount(rules: seq<Rule>): nat
  {
    if |rules| == 0 then 0 else (if rules[0].dst == Accept then 1 else 0) + AcceptCount(rules[1..])
  }

  /** `branch_range` as written. */
  function BranchAsWritten(b: Box, dst: Dst, wfs: Workflows, fuel: nat): (r: Option<seq<Box>>)
    ensures dst == Accept ==> r == Some([b])
    ensures dst == Reject ==> r == Some([])
    ensures dst.Goto? && (fuel == 0 || dst.name !in wfs) ==> r.None?
    decreases fuel, 0, 0
  {
    match dst
    case Accept => Some([b])
    case Reject => Some([])
    case Goto(name) =>
      if fuel == 0 || name !in wfs then None else CalcAsWritten(b, wfs[name], wfs, fuel - 1)
  }

  /** The full box `1..=4000` in every category. */
  function FullBox(): Box
  {
    var full := Interval(MinRating, MaxRating);
    Box(full, full, full, full)
  }

  /** The workflows `in{x>2000:R,x<3000:A,R}`. */
  function Example(): Workflows
  {
    map[Entry := [
      Rule(Some(Op(Greater, X, 2000)), Reject),
      Rule(Some(Op(Less, X, 3000)), Accept),
      Rule(None, Reject)]]
  }

  /** With `in{x>2000:R,x<3000:A,R}` the second rule narrows the
      remainder `x in 1..=2000` to `x in 1..=2999` instead of keeping it,
      so the accepted box holds the part x=2500, which `accepted`
      rejects. */
  lemma SplitAsWrittenOverreaches()
    ensures CalcAsWritten(FullBox(), Example()[Entry], Example(), 1) ==
      Some([FullBox().(x := Interval(1, 2999))])
    ensures InBox(Part(2500, 1, 1, 1), FullBox().(x := Interval(1, 2999)))
    ensures Accepted(Part(2500, 1, 1, 1), Example(), 1) == Some(false)
  {
    var wfs := Example();
    var r3 := [Rule(None, Reject)];
    var r2 := [Rule(Some(Op(Less, X, 3000)), Accept)] + r3;
    var rules := [Rule(Some(Op(Greater, X, 2000)), Reject)] + r2;
    assert wfs[Entry] == rules;
    var full := FullBox();
    var rest1 := full.(x := Interval(1, 2000));
    var accepted := full.(x := Interval(1, 2999));
    assert rules[1..] == r2;
    assert CalcAsWritten(rest1, r2, wfs, 1) == Some([accepted]) by {
      SecondRule(rest1, wfs);
    }
    assert SplitAsWritten(full, Op(Greater, X, 2000)) == (full.(x := Interval(2001, 4000)), rest1);
    assert BranchAsWritten(full.(x := Interval(2001, 4000)), Reject, wfs, 1) == Some([]);
    assert [] + [accepted] == [accepted];
    var p := Part(2500, 1, 1, 1);
    assert Fires(p, rules[0]);
  }

  /** `x<3000:A` followed by `R`, entered with `x` ending at 2000 or
      below, accepts everything up to 2999. */
  lemma SecondRule(b: Box, wfs: Workflows)
    ensures CalcAsWritten(b, [Rule(Some(Op(Less, X, 3000)), Accept), Rule(None, Reject)], wfs, 1) ==
      Some([b.(x := Interval(b.x.lo, 2999))])
  {
    var r3 := [Rule(None, Reject)];
    var r2 := [Rule(Some(Op(Less, X, 3000)), Accept)] + r3;
    var (branch, remainder) := SplitAsWritten(b, Op(Less, X, 3000));
    assert branch == b.(x := Interval(b.x.lo, 2999));
    assert r2[1..] == r3;
    assert BranchAsWritten(branch, Accept, wfs, 1) == Some([branch]);
    assert CalcAsWritten(remainder, r3, wfs, 1) == Some([]) by {
      RejectAll(remainder, wfs);
    }
    assert [branch] + [] == [branch];
  }

  /** A lone unconditional `R` accepts nothing. */
  lemma RejectAll(b: Box, wfs: Workflows)
    ensures CalcAsWritten(b, [Rule(None, Reject)], wfs, 1) == Some([])
  {
    var r3 := [Rule(None, Reject)];
    assert r3[0].op.None? && r3[1..] == [];
    var here := BranchAsWritten(b, Reject, wfs, 1);
    var rest := CalcAsWritten(b, [], wfs, 1);
    assert here == Some([]) && rest == Some([]);
    assert here.value + rest.value == [];
  }

  // ---------------------------------------------------------------------
  // Part two, each split intersected with the current box

  /** The pieces of `b` whose parts pass and fail the test `op`: for `<v`
      the branch is `lo ..= min(hi, v - 1)` and the remainder
      `max(lo, v) ..= hi`; for `>v` the remainder is `lo ..= min(hi, v)`
      and the branch `max(lo, v + 1) ..= hi`. */
  function Split(b: Box, op: Op): (r: (Box, Box))
    requires op.ordering != Equal
    ensures SubBox(r.0, b) && SubBox(r.1, b) && Apart(r.0, r.1)
    ensures forall d :: d != op.category ==> Get(r.0, d) == Get(b, d) && Get(r.1, d) == Get(b, d)
  {
    var c := op.category;
    var iv := Get(b, c);
    var (branch, remainder) :=
      if op.ordering == Less then
        (Interval(iv.lo, Min(iv.hi, op.val - 1)), Interval(Max(iv.lo, op.val), iv.hi))
      else
        (Interval(Max(iv.lo, op.val + 1), iv.hi), Interval(iv.lo, Min(iv.hi, op.val)));
    var r := (With(b, c, branch), With(b, c, remainder));
    assert SubBox(r.0, b) && SubBox(r.1, b) by {
      SubBoxWith(b, c, branch);
      SubBoxWith(b, c, remainder);
    }
    assert Apart(r.0, r.1) by {
      ApartWith(b, c, branch, remainder);
    }
    r
  }

  function Min(a: int, b: int): int
  {
    if a <= b then a else b
  }

  function Max(a: int, b: int): int
  {
    if a <= b then b else a
  }

  lemma SubBoxWith(b: Box, c: Category, iv: Interval)
    requires Get(b, c).lo <= iv.lo && iv.hi <= Get(b, c).hi
    ensures SubBox(With(b, c, iv), b)
  {
  }

  lemma ApartWith(b: Box, c: Category, i: Interval, j: Interval)
    requires ApartIntervals(i, j)
    ensures Apart(With(b, c, i), With(b, c, j))
  {
  }

  /** A part of `b` lands in the branch exactly when it passes the test,
      and in the remainder exactly when it fails it. */
  lemma SplitSeparates(b: Box, op: Op, p: Part)
    requires op.ordering != Equal && InBox(p, b)
    ensures InBox(p, Split(b, op).0) <==> Passes(p, op)
    ensures InBox(p, Split(b, op).1) <==> !Passes(p, op)
  {
    var (branch, remainder) := Split(b, op);
    InBoxGet(p, b);
    InBoxGet(p, branch);
    InBoxGet(p, remainder);
  }

  /** The two pieces together hold as many parts as the box. */
  lemma SplitVolume(b: Box, op: Op)
    requires op.ordering != Equal
    ensures Volume(Split(b, op).0) + Volume(Split(b, op).1) == Volume(b)
  {
    var (t, r) := Split(b, op);
    var c := op.category;
    assert t == With(b, c, Get(t, c)) && r == With(b, c, Get(r, c));
    VolumeSplit(b, t, r, c);
  }

  /** Two boxes that differ from `b` only in category `c`, with widths
      there adding up to that of `b`, have volumes adding up to that of
      `b`. */
  lemma VolumeSplit(b: Box, t: Box, r: Box, c: Category)
    requires Width(Get(t, c)) + Width(Get(r, c)) == Width(Get(b, c))
    requires t == With(b, c, Get(t, c)) && r == With(b, c, Get(r, c))
    ensures Volume(t) + Volume(r) == Volume(b)
  {
    var wx, wm, wa, ws := Width(b.x), Width(b.m), Width(b.a), Width(b.s);
    match c
    case X => SplitFirst(Width(t.x), Width(r.x), wm, wa, ws);
    case M => SplitSecond(wx, Width(t.m), Width(r.m), wa, ws);
    case A => SplitThird(wx, wm, Width(t.a), Width(r.a), ws);
    case S => SplitFourth(wx, wm, wa, Width(t.s), Width(r.s));
  }

  lemma SplitFirst(t: int, r: int, m: int, a: int, s: int)
    ensures t * m * a * s + r * m * a * s == (t + r) * m * a * s
  {
    Distrib(t, r, m);
    Distrib(t * m, r * m, a);
    Distrib(t * m * a, r * m * a, s);
  }

  lemma SplitSecond(x: int, t: int, r: int, a: int, s: int)
    ensures x * t * a * s + x * r * a * s == x * (t + r) * a * s
  {
    Distrib(t, r, x);
    Distrib(x * t, x * r, a);
    Distrib(x * t * a, x * r * a, s);
  }

  lemma SplitThird(x: int, m: int, t: int, r: int, s: int)
    ensures x * m * t * s + x * m * r * s == x * m * (t + r) * s
  {
    Distrib(t, r, x * m);
    Distrib(x * m * t, x * m * r, s);
  }

  lemma SplitFourth(x: int, m: int, a: int, t: int, r: int)
    ensures x * m * a * t + x * m * a * r == x * m * a * (t + r)
  {
    Distrib(t, r, x * m * a);
  }

  /** `calc_accepted_ranges` with each split intersected with the current
      box, empty pieces dropped, and the walk stopped at the first
      unconditional rule.  `None` when a non-empty piece meets a missing
      workflow or `fuel` runs out. */
  function Ranges(b: Box, rules: seq<Rule>, wfs: Workflows, fuel: nat): (r: Option<seq<Box>>)
    ensures EmptyBox(b) ==> r == Some([])
    ensures r.Some? ==> forall i :: 0 <= i < |r.value| ==> !EmptyBox(r.value[i])
    decreases fuel, 1, |rules|
  {
    if |rules| == 0 || EmptyBox(b) then Some([])
    else
      match rules[0].op
      case None => Branch(b, rules[0].dst, wfs, fuel)
      case Some(op) =>
        if op.ordering == Equal then None
        else
          var (branch, remainder) := Split(b, op);
          var here :- Branch(branch, rules[0].dst, wfs, fuel);
          var rest :- Ranges(remainder, rules[1..], wfs, fuel);
          Some(here + rest)
  }

  /** `branch_range`, dropping an empty piece. */
  function Branch(b: Box, dst: Dst, wfs: Workflows, fuel: nat): (r: Option<seq<Box>>)
    ensures EmptyBox(b) ==> r == Some([])
    ensures r.Some? ==> forall i :: 0 <= i < |r.value| ==> !EmptyBox(r.value[i])
    decreases fuel, 0, 0
  {
    if EmptyBox(b) then Some([])
    else
      match dst
      case Accept => Some([b])
      case Reject => Some([])
      case Goto(name) =>
        if fuel == 0 || name !in wfs then None else Ranges(b, wfs[name], wfs, fuel - 1)
  }

  predicate AllWithin(rs: seq<Box>, b: Box)
  {
    forall i :: 0 <= i < |rs| ==> SubBox(rs[i], b) && !EmptyBox(rs[i])
  }

  predicate PairwiseApart(rs: seq<Box>)
  {
    forall i, j :: 0 <= i < j < |rs| ==> Apart(rs[i], rs[j])
  }

  predicate InAny(p: Part, rs: seq<Box>)
  {
    exists i :: 0 <= i < |rs| && InBox(p, rs[i])
  }

  lemma SubBoxTrans(r: Box, b: Box, c: Box)
    requires SubBox(r, b) && SubBox(b, c)
    ensures SubBox(r, c)
  {
  }

  lemma AllWithinAppend(xs: seq<Box>, ys: seq<Box>, b1: Box, b2: Box, b: Box)
    requires AllWithin(xs, b1) && AllWithin(ys, b2) && SubBox(b1, b) && SubBox(b2, b)
    ensures AllWithin(xs + ys, b)
  {
    forall i | 0 <= i < |xs + ys|
      ensures SubBox((xs + ys)[i], b) && !EmptyBox((xs + ys)[i])
    {
      if i < |xs| {
        SubBoxTrans(xs[i], b1, b);
      } else {
        SubBoxTrans(ys[i - |xs|], b2, b);
      }
    }
  }

  lemma PairwiseApartAppend(xs: seq<Box>, ys: seq<Box>, b1: Box, b2: Box)
    requires PairwiseApart(xs) && PairwiseApart(ys)
    requires AllWithin(xs, b1) && AllWithin(ys, b2) && Apart(b1, b2)
    ensures PairwiseApart(xs + ys)
  {
    var zs := xs + ys;
    forall i, j | 0 <= i < j < |zs|
      ensures Apart(zs[i], zs[j])
    {
      if j < |xs| {
        assert zs[i] == xs[i] && zs[j] == xs[j];
      } else if i >= |xs| {
        assert zs[i] == ys[i - |xs|] && zs[j] == ys[j - |xs|];
      } else {
        ApartSub(xs[i], b1, ys[j - |xs|], b2);
      }
    }
  }

  /** The accepted pieces are non-empty, lie in the box they came from and
      are pairwise apart. */
  lemma {:induction false} RangesShape(b: Box, rules: seq<Rule>, wfs: Workflows, fuel: nat)
    requires Ranges(b, rules, wfs, fuel).Some?
    ensures AllWithin(Ranges(b, rules, wfs, fuel).value, b)
    ensures PairwiseApart(Ranges(b, rules, wfs, fuel).value)
    decreases fuel, 1, |rules|
  {
    if |rules| > 0 && !EmptyBox(b) {
      match rules[0].op
      case None =>
        BranchShape(b, rules[0].dst, wfs, fuel);
      case Some(op) =>
        var (branch, remainder) := Split(b, op);
        var here := Branch(branch, rules[0].dst, wfs, fuel).value;
        var rest := Ranges(remainder, rules[1..], wfs, fuel).value;
        BranchShape(branch, rules[0].dst, wfs, fuel);
        RangesShape(remainder, rules[1..], wfs, fuel);
        AllWithinAppend(here, rest, branch, remainder, b);
        PairwiseApartAppend(here, rest, branch, remainder);
    }
  }

  lemma {:induction false} BranchShape(b: Box, dst: Dst, wfs: Workflows, fuel: nat)
    requires Branch(b, dst, wfs, fuel).Some?
    ensures AllWithin(Branch(b, dst, wfs, fuel).value, b)
    ensures PairwiseApart(Branch(b, dst, wfs, fuel).value)
    decreases fuel, 0, 0
  {
    if !EmptyBox(b) && dst.Goto? {
      RangesShape(b, wfs[dst.name], wfs, fuel - 1);
    }
  }

  lemma InAnyAppend(p: Part, xs: seq<Box>, ys: seq<Box>)
    ensures InAny(p, xs + ys) <==> InAny(p, xs) || InAny(p, ys)
  {
    if InAny(p, xs + ys) {
      var i :| 0 <= i < |xs + ys| && InBox(p, (xs + ys)[i]);
      if i >= |xs| {
        assert InBox(p, ys[i - |xs|]);
      }
    }
    if InAny(p, xs) {
      var i :| 0 <= i < |xs| && InBox(p, xs[i]);
      assert InBox(p, (xs + ys)[i]);
    }
    if InAny(p, ys) {
      var i :| 0 <= i < |ys| && InBox(p, ys[i]);
      assert InBox(p, (xs + ys)[i + |xs|]);
    }
  }

  /** A part outside a box is in none of the pieces within it. */
  lemma OutsideAll(p: Part, rs: seq<Box>, b: Box)
    requires AllWithin(rs, b) && !InBox(p, b)
    ensures !InAny(p, rs)
  {
    forall i | 0 <= i < |rs|
      ensures !InBox(p, rs[i])
    {
      if InBox(p, rs[i]) {
        SubBoxParts(rs[i], b, p);
      }
    }
  }

  /** The accepted pieces hold exactly the parts of the box that the
      rule walk accepts. */
  lemma {:induction false} RangesAccepted(b: Box, rules: seq<Rule>, wfs: Workflows, fuel: nat, p: Part)
    requires Ranges(b, rules, wfs, fuel).Some? && InBox(p, b)
    ensures Decide(p, rules, wfs, fuel) == Some(true) <==> InAny(p, Ranges(b, rules, wfs, fuel).value)
    decreases fuel, 1, |rules|
  {
    assert !EmptyBox(b) by {
      EmptyBoxHasNoPart(b);
    }
    if |rules| > 0 {
      match rules[0].op
      case None =>
        BranchAccepted(b, rules[0].dst, wfs, fuel, p);
      case Some(op) =>
        var (branch, remainder) := Split(b, op);
        var here := Branch(branch, rules[0].dst, wfs, fuel).value;
        var rest := Ranges(remainder, rules[1..], wfs, fuel).value;
        assert Ranges(b, rules, wfs, fuel).value == here + rest;
        InAnyAppend(p, here, rest);
        SplitSeparates(b, op, p);
        BranchShape(branch, rules[0].dst, wfs, fuel);
        RangesShape(remainder, rules[1..], wfs, fuel);
        if Passes(p, op) {
          BranchAccepted(branch, rules[0].dst, wfs, fuel, p);
          OutsideAll(p, rest, remainder);
        } else {
          RangesAccepted(remainder, rules[1..], wfs, fuel, p);
          OutsideAll(p, here, branch);
        }
    }
  }

  lemma {:induction false} BranchAccepted(b: Box, dst: Dst, wfs: Workflows, fuel: nat, p: Part)
    requires Branch(b, dst, wfs, fuel).Some? && InBox(p, b)
    ensures GotoDst(p, dst, wfs, fuel) == Some(true) <==> InAny(p, Branch(b, dst, wfs, fuel).value)
    decreases fuel, 0, 0
  {
    assert !EmptyBox(b) by {
      EmptyBoxHasNoPart(b);
    }
    match dst
    case Accept =>
      assert InBox(p, [b][0]);
    case Reject =>
    case Goto(name) =>
      RangesAccepted(b, wfs[name], wfs, fuel - 1, p);
  }

  function SumVolumes(rs: seq<Box>): nat
  {
    if |rs| == 0 then 0 else SumVolumes(rs[..|rs| - 1]) + Volume(rs[|rs| - 1])
  }

  lemma {:induction false} SumVolumesAppend(xs: seq<Box>, ys: seq<Box>)
    ensures SumVolumes(xs + ys) == SumVolumes(xs) + SumVolumes(ys)
    decreases |ys|
  {
    if |ys| == 0 {
      assert xs + ys == xs;
    } else {
      assert (xs + ys)[..|xs + ys| - 1] == xs + ys[..|ys| - 1];
      SumVolumesAppend(xs, ys[..|ys| - 1]);
    }
  }

  /** The accepted pieces hold no more parts than the box they came
      from. */
  lemma {:induction false} RangesVolume(b: Box, rules: seq<Rule>, wfs: Workflows, fuel: nat)
    requires Ranges(b, rules, wfs, fuel).Some?
    ensures SumVolumes(Ranges(b, rules, wfs, fuel).value) <= Volume(b)
    decreases fuel, 1, |rules|
  {
    if |rules| > 0 && !EmptyBox(b) {
      match rules[0].op
      case None =>
        BranchVolume(b, rules[0].dst, wfs, fuel);
      case Some(op) =>
        var (branch, remainder) := Split(b, op);
        var here := Branch(branch, rules[0].dst, wfs, fuel).value;
        var rest := Ranges(remainder, rules[1..], wfs, fuel).value;
        BranchVolume(branch, rules[0].dst, wfs, fuel);
        RangesVolume(remainder, rules[1..], wfs, fuel);
        SumVolumesAppend(here, rest);
        SplitVolume(b, op);
    }
  }

  lemma {:induction false} BranchVolume(b: Box, dst: Dst, wfs: Workflows, fuel: nat)
    requires Branch(b, dst, wfs, fuel).Some?
    ensures SumVolumes(Branch(b, dst, wfs, fuel).value) <= Volume(b)
    decreases fuel, 0, 0
  {
    if !EmptyBox(b) {
      match dst
      case Accept =>
        assert SumVolumes([b]) == SumVolumes([]) + Volume(b);
      case Reject =>
      case Goto(name) =>
        RangesVolume(b, wfs[name], wfs, fuel - 1);
    }
  }

  /** `part_two`: the volumes of the accepted pieces of the full box,
      added up.  The pieces are pairwise apart and non-empty, hence
      pairwise different, so collecting them in a set first changes
      nothing. */
  function PartTwo(wfs: Workflows, fuel: nat): (r: Option<nat>)
    ensures r.None? <==> Entry !in wfs || Ranges(FullBox(), wfs[Entry], wfs, fuel).None?
    ensures r.Some? ==> r.value == SumVolumes(Ranges(FullBox(), wfs[Entry], wfs, fuel).value)
    ensures r.Some? ==> r.value <= MaxRating * MaxRating * MaxRating * MaxRating
  {
    if Entry !in wfs then None
    else
      var rs :- Ranges(FullBox(), wfs[Entry], wfs, fuel);
      RangesVolume(FullBox(), wfs[Entry], wfs, fuel);
      Some(SumVolumes(rs))
  }

  /** The pieces part two adds up are pairwise different. */
  lemma PartTwoDistinct(wfs: Workflows, fuel: nat)
    requires Entry in wfs && Ranges(FullBox(), wfs[Entry], wfs, fuel).Some?
    ensures var rs := Ranges(FullBox(), wfs[Entry], wfs, fuel).value;
      forall i, j :: 0 <= i < j < |rs| ==> rs[i] != rs[j]
  {
    var rs := Ranges(FullBox(), wfs[Entry], wfs, fuel).value;
    RangesShape(FullBox(), wfs[Entry], wfs, fuel);
    forall i, j | 0 <= i < j < |rs|
      ensures rs[i] != rs[j]
    {
      ApartDistinct(rs[i], rs[j]);
    }
  }

  /** A part with every rating in `1..=4000` is accepted exactly when it
      lies in one of the pieces part two adds up. */
  lemma PartTwoMatchesPartOne(wfs: Workflows, fuel: nat, p: Part)
    requires Entry in wfs && Ranges(FullBox(), wfs[Entry], wfs, fuel).Some?
    requires InBox(p, FullBox())
    ensures Accepted(p, wfs, fuel) == Some(true) <==> InAny(p, Ranges(FullBox(), wfs[Entry], wfs, fuel).value)
  {
    RangesAccepted(FullBox(), wfs[Entry], wfs, fuel, p);
  }
}
