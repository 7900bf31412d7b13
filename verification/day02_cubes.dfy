/** aoc-02: games of cubes drawn from a bag.  A game line reads
    "Game <id>: <q> <colour>, <q> <colour>; ...".  Part one sums the ids of
    the games possible with 12 red, 13 green and 14 blue cubes; part two
    sums, over the games, the product of the per-colour maxima. */
module CubeConundrum {
  import opened Wrappers
  import opened Text
  import Seqs

  const Colors: seq<string> := ["red", "green", "blue"]

  /** The bag of part one, indexed like `Colors`. */
  const Limits: seq<nat> := [12, 13, 14]

  /** One "(quantity, colour index)" item of a game. */
  datatype Draw = Draw(quantity: nat, color: nat)

  predicate WithinLimit(d: Draw)
  {
    d.color < 3 && d.quantity <= Limits[d.color]
  }

  // ---------------------------------------------------------------------
  // Parsing

  /** `game_info`: the id between column 5 and the first ':' and the text
      after that ':'; `None` where the program panics (no ':', a ':' before
      column 5, an id that is not a number). */
  function GameInfo(line: string): (r: Option<(nat, string)>)
    ensures r.Some? <==>
      ':' in line && 5 <= Find(line, ':').value && ParseNat(line[5..Find(line, ':').value]).Some?
    ensures r.Some? ==>
      var i := Find(line, ':').value;
      i < |line| && line[i] == ':' && ':' !in line[..i] &&
      r.value == (ParseNat(line[5..i]).value, line[i + 1..])
  {
    var i :- Find(line, ':');
    if i < 5 then None
    else
      var id :- ParseNat(line[5..i]);
      Some((id, line[i + 1..]))
  }

  function ColorIndex(name: string): (r: Option<nat>)
    ensures r.Some? <==> name in Colors
    ensures r.Some? ==> r.value < 3 && Colors[r.value] == name
  {
    if name == "red" then Some(0)
    else if name == "green" then Some(1)
    else if name == "blue" then Some(2)
    else None
  }

  /** The body of the `map` in `dice_pairs`: the first word is the quantity,
      the second the colour; further words are never looked at. */
  function ParseDraw(text: string): (r: Option<Draw>)
    ensures r.Some? <==>
      |Words(text)| >= 2 && ParseNat(Words(text)[0]).Some? && Words(text)[1] in Colors
    ensures r.Some? ==> r.value.color < 3 && Colors[r.value.color] == Words(text)[1]
    ensures r.Some? ==> r.value.quantity == ParseNat(Words(text)[0]).value
  {
    var words := Words(text);
    if |words| < 2 then None
    else
      var q :- ParseNat(words[0]);
      var c :- ColorIndex(words[1]);
      Some(Draw(q, c))
  }

  /** The lists written one after another, as `flat_map` yields them. */
  function Flatten(xss: seq<seq<string>>): (r: seq<string>)
  {
    if |xss| == 0 then [] else xss[0] + Flatten(xss[1..])
  }

  /** Each set split on ','. */
  function SplitEach(sets: seq<string>): seq<seq<string>>
  {
    seq(|sets|, i requires 0 <= i < |sets| => Split(sets[i], ','))
  }

  /** The item texts of a game: split on ';', then each set on ','.  They
      are the pieces between any two separators of either kind. */
  function Items(game: string): (r: seq<string>)
    ensures r == SplitOn(game, {';', ','})
    ensures forall x :: x in r ==> ';' !in x && ',' !in x
  {
    ItemsSplitBoth(game);
    Flatten(SplitEach(Split(game, ';')))
  }

  lemma FlattenEachCons(x: string, rest: seq<string>)
    ensures Flatten(SplitEach([x] + rest)) == Split(x, ',') + Flatten(SplitEach(rest))
  {
    assert SplitEach([x] + rest) == [Split(x, ',')] + SplitEach(rest);
    assert ([Split(x, ',')] + SplitEach(rest))[1..] == SplitEach(rest);
  }

  /** Splitting on ';' and then each set on ',' cuts at every separator. */
  lemma {:induction false} ItemsSplitBoth(s: string)
    ensures Flatten(SplitEach(Split(s, ';'))) == SplitOn(s, {';', ','})
    decreases |s|
  {
    if |s| == 0 {
      assert SplitEach([""]) == [[""]];
    } else {
      ItemsSplitBoth(s[1..]);
      ItemsStep(s[0], s[1..]);
    }
  }

  /** One character in front of a text whose items are already known. */
  lemma ItemsStep(c: char, t: string)
    requires Flatten(SplitEach(Split(t, ';'))) == SplitOn(t, {';', ','})
    ensures Flatten(SplitEach(Split([c] + t, ';'))) == SplitOn([c] + t, {';', ','})
  {
    var tail := Split(t, ';');
    SplitCons(c, t, {';'});
    SplitCons(c, t, {';', ','});
    if c == ';' {
      FlattenEachCons("", tail);
    } else {
      assert [tail[0]] + tail[1..] == tail;
      FlattenEachCons(tail[0], tail[1..]);
      FlattenEachCons([c] + tail[0], tail[1..]);
      SplitCons(c, tail[0], {','});
      ItemsStepPiece(c, Split(tail[0], ','), Flatten(SplitEach(tail[1..])),
        Split([c] + tail[0], ','), SplitOn(t, {';', ','}), SplitOn([c] + t, {';', ','}));
    }
  }

  /** The list algebra of `ItemsStep` for a character other than ';'. */
  lemma ItemsStepPiece(c: char, x: seq<string>, y: seq<string>,
                       cx: seq<string>, known: seq<string>, goal: seq<string>)
    requires |x| >= 1 && c != ';'
    requires cx == if c == ',' then [""] + x else [[c] + x[0]] + x[1..]
    requires known == x + y
    requires goal == if c in {';', ','} then [""] + known else [[c] + known[0]] + known[1..]
    ensures cx + y == goal
  {
    if c != ',' {
      assert (x + y)[1..] == x[1..] + y;
    }
  }

  /** `SplitOn` of a text with one more character in front. */
  lemma SplitCons(c: char, t: string, seps: set<char>)
    ensures SplitOn([c] + t, seps) ==
      if c in seps then [""] + SplitOn(t, seps)
      else [[c] + SplitOn(t, seps)[0]] + SplitOn(t, seps)[1..]
  {
    assert ([c] + t)[1..] == t;
  }

  /** `dice_pairs`: each item parsed on its own; the iterator is lazy, so a
      consumer sees the results in order and stops where it stops. */
  function ParseItems(items: seq<string>): (r: seq<Option<Draw>>)
    ensures |r| == |items|
    ensures forall i :: 0 <= i < |items| ==> r[i] == ParseDraw(items[i])
  {
    seq(|items|, i requires 0 <= i < |items| => ParseDraw(items[i]))
  }

  /** The draws, when every item parses. */
  function Collect(parsed: seq<Option<Draw>>): (r: Option<seq<Draw>>)
    ensures r.Some? <==> forall i :: 0 <= i < |parsed| ==> parsed[i].Some?
    ensures r.Some? ==>
      |r.value| == |parsed| && forall i :: 0 <= i < |parsed| ==> Some(r.value[i]) == parsed[i]
  {
    if |parsed| == 0 then Some([])
    else
      var front := parsed[..|parsed| - 1];
      assert forall i :: 0 <= i < |front| ==> front[i] == parsed[i];
      match (Collect(front), parsed[|parsed| - 1])
      case (Some(ds), Some(d)) => Some(ds + [d])
      case _ => None
  }

  predicate Fits(p: Option<Draw>)
  {
    p.Some? && WithinLimit(p.value)
  }

  // ---------------------------------------------------------------------
  // Part one

  /** `game_possible`: `all` over the lazily parsed items, so it stops at the
      first draw over the limit before any later item can panic. */
  function Possible(parsed: seq<Option<Draw>>): (r: Option<bool>)
    ensures r == Some(true) <==> forall i :: 0 <= i < |parsed| ==> Fits(parsed[i])
    ensures r == Some(false) <==>
      exists i :: (0 <= i < |parsed| && parsed[i].Some? && !Fits(parsed[i]) &&
        forall j :: 0 <= j < i ==> Fits(parsed[j]))
  {
    if |parsed| == 0 then Some(true)
    else
      var rest := parsed[1..];
      assert forall i :: 1 <= i < |parsed| ==> rest[i - 1] == parsed[i];
      match parsed[0]
      case None => None
      case Some(d) =>
        if !WithinLimit(d) then Some(false)
        else
          var r := Possible(rest);
          if r == Some(false) then
            var i :| 0 <= i < |rest| && rest[i].Some? && !Fits(rest[i]) &&
              forall j :: 0 <= j < i ==> Fits(rest[j]);
            assert parsed[i + 1] == rest[i];
            assert forall j :: 0 <= j < i + 1 ==> Fits(parsed[j]) by {
              forall j | 0 <= j < i + 1
                ensures Fits(parsed[j])
              {
                if j > 0 {
                  assert parsed[j] == rest[j - 1];
                }
              }
            }
            r
          else r
  }

  // ---------------------------------------------------------------------
  // Part two

  /** The fold of `game_power`: per colour, the largest quantity drawn, 0
      for a colour never drawn. */
  function Maxima(ds: seq<Draw>): (m: seq<nat>)
    requires forall i :: 0 <= i < |ds| ==> ds[i].color < 3
    ensures |m| == 3
    ensures forall i :: 0 <= i < |ds| ==> ds[i].quantity <= m[ds[i].color]
    ensures forall c :: 0 <= c < 3 ==>
      m[c] == 0 || exists i :: 0 <= i < |ds| && ds[i].color == c && ds[i].quantity == m[c]
  {
    if |ds| == 0 then [0, 0, 0]
    else
      var front := ds[..|ds| - 1];
      assert forall i :: 0 <= i < |front| ==> front[i] == ds[i];
      var acc := Maxima(front);
      var d := ds[|ds| - 1];
      var m := if d.quantity > acc[d.color] then acc[d.color := d.quantity] else acc;
      MaximaStep(ds, acc, m);
      m
  }

  /** The last draw either raises its colour's maximum or leaves all three. */
  lemma MaximaStep(ds: seq<Draw>, acc: seq<nat>, m: seq<nat>)
    requires |ds| > 0 && |acc| == 3 && ds[|ds| - 1].color < 3
    requires forall i :: 0 <= i < |ds| - 1 ==> ds[i].color < 3 && ds[i].quantity <= acc[ds[i].color]
    requires forall c :: 0 <= c < 3 ==>
      acc[c] == 0 || exists i :: 0 <= i < |ds| - 1 && ds[i].color == c && ds[i].quantity == acc[c]
    requires var d := ds[|ds| - 1];
      m == if d.quantity > acc[d.color] then acc[d.color := d.quantity] else acc
    ensures |m| == 3
    ensures forall i :: 0 <= i < |ds| ==> ds[i].quantity <= m[ds[i].color]
    ensures forall c :: 0 <= c < 3 ==>
      m[c] == 0 || exists i :: 0 <= i < |ds| && ds[i].color == c && ds[i].quantity == m[c]
  {
    var last := |ds| - 1;
    forall c | 0 <= c < 3 && m[c] != 0
      ensures exists i :: 0 <= i < |ds| && ds[i].color == c && ds[i].quantity == m[c]
    {
      if m[c] != acc[c] {
        assert ds[last].color == c && ds[last].quantity == m[c];
      } else {
        var i :| 0 <= i < |ds| - 1 && ds[i].color == c && ds[i].quantity == acc[c];
      }
    }
  }

  predicate ColorsOk(ds: seq<Draw>)
  {
    forall i :: 0 <= i < |ds| ==> ds[i].color < 3
  }

  /** `game_power`: the product of the three maxima; `None` if an item
      panics (the fold reads them all). */
  function Power(parsed: seq<Option<Draw>>): (r: Option<nat>)
    requires forall i :: 0 <= i < |parsed| ==> parsed[i].Some? ==> parsed[i].value.color < 3
    ensures r.Some? <==> forall i :: 0 <= i < |parsed| ==> parsed[i].Some?
    ensures r.Some? ==>
      Collect(parsed).Some? && ColorsOk(Collect(parsed).value) &&
      r.value == PowerOf(Collect(parsed).value)
  {
    var ds :- Collect(parsed);
    assert ColorsOk(ds) by {
      forall i | 0 <= i < |ds|
        ensures ds[i].color < 3
      {
        assert Some(ds[i]) == parsed[i];
      }
    }
    Some(PowerOf(ds))
  }

  /** The product of the per-colour maxima of a game's draws. */
  function PowerOf(ds: seq<Draw>): (r: nat)
    requires ColorsOk(ds)
    ensures var m := Maxima(ds); r == m[0] * m[1] * m[2]
  {
    var m := Maxima(ds);
    Product3(m[0], m[1], m[2])
  }

  function Product3(a: nat, b: nat, c: nat): (r: nat)
    ensures r == a * b * c
  {
    MulNat(MulNat(a, b), c)
  }

  function MulNat(a: nat, b: nat): (r: nat)
    ensures r == 0 <==> a == 0 || b == 0
  {
    MulBounds(a, b);
    a * b
  }

  lemma MulBounds(a: nat, b: nat)
    ensures a * b >= 0
    ensures a * b == 0 <==> a == 0 || b == 0
  {
    if a > 0 && b > 0 {
      assert a * b >= b;
    }
  }

  /** Colour `c` is never drawn with a positive quantity. */
  predicate Missing(ds: seq<Draw>, c: nat)
  {
    forall i :: 0 <= i < |ds| && ds[i].color == c ==> ds[i].quantity == 0
  }

  /** The power is zero exactly when some colour is never drawn with a
      positive quantity. */
  lemma PowerZero(ds: seq<Draw>)
    requires ColorsOk(ds)
    ensures var m := Maxima(ds);
      Product3(m[0], m[1], m[2]) == 0 <==> Missing(ds, 0) || Missing(ds, 1) || Missing(ds, 2)
  {
    var m := Maxima(ds);
    forall c | 0 <= c < 3
      ensures m[c] == 0 <==> Missing(ds, c)
    {
      if m[c] != 0 {
        var i :| 0 <= i < |ds| && ds[i].color == c && ds[i].quantity == m[c];
      }
    }
  }

  /** A game that is possible has a power of at most 12 * 13 * 14. */
  lemma PossiblePowerBound(parsed: seq<Option<Draw>>)
    requires Possible(parsed) == Some(true)
    ensures Power(parsed).Some? && Power(parsed).value <= 12 * 13 * 14
  {
    var ds := Collect(parsed).value;
    assert forall i :: 0 <= i < |ds| ==> WithinLimit(ds[i]) by {
      forall i | 0 <= i < |ds|
        ensures WithinLimit(ds[i])
      {
        assert Fits(parsed[i]) && Some(ds[i]) == parsed[i];
      }
    }
    var m := Maxima(ds);
    forall c | 0 <= c < 3
      ensures m[c] <= Limits[c]
    {
      if m[c] != 0 {
        var i :| 0 <= i < |ds| && ds[i].color == c && ds[i].quantity == m[c];
        assert WithinLimit(ds[i]);
      }
    }
    MulMono(m[0], m[1], 12, 13);
    MulMono(MulNat(m[0], m[1]), m[2], MulNat(12, 13), 14);
  }

  lemma MulMono(a: nat, b: nat, x: nat, y: nat)
    requires a <= x && b <= y
    ensures MulNat(a, b) <= MulNat(x, y)
  {
    assert a * b <= x * b;
    assert x * b <= x * y;
  }

  // ---------------------------------------------------------------------
  // Parts

  /** A line's share of part one: its id if the game is possible, else 0;
      `None` where the program panics. */
  function LineOne(line: string): (r: Option<int>)
    ensures r.Some? <==>
      GameInfo(line).Some? && Possible(ParseItems(Items(GameInfo(line).value.1))).Some?
    ensures r.Some? ==> r.value >= 0
    ensures r.Some? ==>
      var parsed := ParseItems(Items(GameInfo(line).value.1));
      Possible(parsed).Some? &&
      r.value == if Possible(parsed).value then GameInfo(line).value.0 as int else 0
  {
    var (id, game) :- GameInfo(line);
    var ok :- Possible(ParseItems(Items(game)));
    Some(if ok then id as int else 0)
  }

  /** A line's share of part two: the power of its game. */
  function LineTwo(line: string): (r: Option<int>)
    ensures r.Some? <==>
      GameInfo(line).Some? && Power(ParseItems(Items(GameInfo(line).value.1))).Some?
    ensures r.Some? ==>
      r.value >= 0 && r.value == Power(ParseItems(Items(GameInfo(line).value.1))).value as int
  {
    var (_, game) :- GameInfo(line);
    var p :- Power(ParseItems(Items(game)));
    Some(p as int)
  }

  /** The sum of part one over the lines; `None` if any line panics. */
  function SumOne(lines: seq<string>): (r: Option<int>)
    ensures r.Some? <==> forall i :: 0 <= i < |lines| ==> LineOne(lines[i]).Some?
    ensures r.Some? ==> r.value == Seqs.Total(lines, LineOne) && r.value >= 0
  {
    Seqs.SumOf(lines, LineOne)
  }

  function SumTwo(lines: seq<string>): (r: Option<int>)
    ensures r.Some? <==> forall i :: 0 <= i < |lines| ==> LineTwo(lines[i]).Some?
    ensures r.Some? ==> r.value == Seqs.Total(lines, LineTwo) && r.value >= 0
  {
    Seqs.SumOf(lines, LineTwo)
  }

  function PartOne(input: string): (r: Option<int>)
    ensures r.Some? <==> forall i :: 0 <= i < |Lines(input)| ==> LineOne(Lines(input)[i]).Some?
    ensures r.Some? ==> r.value == Seqs.Total(Lines(input), LineOne)
  {
    SumOne(Lines(input))
  }

  function PartTwo(input: string): (r: Option<int>)
    ensures r.Some? <==> forall i :: 0 <= i < |Lines(input)| ==> LineTwo(Lines(input)[i]).Some?
    ensures r.Some? ==> r.value == Seqs.Total(Lines(input), LineTwo)
  {
    SumTwo(Lines(input))
  }
}
