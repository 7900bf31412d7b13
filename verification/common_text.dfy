/** The handful of `str` operations the puzzles use, restricted to ASCII:
    digit tests, decimal parsing, `split`, `split_once`,
    `split_whitespace` and `trim`. */
module Text {
  import opened Wrappers

  predicate IsDigit(c: char)
  {
    '0' <= c <= '9'
  }

  function DigitValue(c: char): (d: nat)
    requires IsDigit(c)
    ensures d <= 9
  {
    c as int - '0' as int
  }

  function DigitChar(d: nat): (c: char)
    requires d <= 9
    ensures IsDigit(c) && DigitValue(c) == d
  {
    ('0' as int + d) as char
  }

  predicate AllDigits(s: string)
  {
    forall i :: 0 <= i < |s| ==> IsDigit(s[i])
  }

  /** Decimal value of a digit string, most significant digit first. */
  function DigitsValue(s: string): nat
    requires AllDigits(s)
  {
    if |s| == 0 then 0 else DigitsValue(s[..|s| - 1]) * 10 + DigitValue(s[|s| - 1])
  }

  /** `str::parse::<u32>()` (or `u64`) without the width limit: an optional
      leading '+' followed by at least one decimal digit. */
  function ParseNat(s: string): (r: Option<nat>)
    ensures r.Some? <==>
      (|s| > 0 && AllDigits(s)) || (|s| > 1 && s[0] == '+' && AllDigits(s[1..]))
  {
    if |s| > 0 && AllDigits(s) then Some(DigitsValue(s))
    else if |s| > 1 && s[0] == '+' && AllDigits(s[1..]) then Some(DigitsValue(s[1..]))
    else None
  }

  /** `str::parse::<i64>()` without the width limit. */
  function ParseInt(s: string): (r: Option<int>)
    ensures r.Some? <==> ParseNat(s).Some? || (|s| > 1 && s[0] == '-' && AllDigits(s[1..]))
    ensures ParseNat(s).Some? ==> r.Some? && r.value == ParseNat(s).value
    ensures |s| > 1 && s[0] == '-' && AllDigits(s[1..]) ==> r.Some? && r.value == 0 - ParseNat(s[1..]).value as int
    ensures r.Some? && |s| > 0 && s[0] != '-' ==> r.value >= 0
  {
    if |s| > 1 && s[0] == '-' && AllDigits(s[1..]) then
      var v: int := 0 - (DigitsValue(s[1..]) as int);
      Some(v)
    else match ParseNat(s)
      case Some(n) => Some(n)
      case None => None
  }

  /** Shortest decimal rendering, the inverse partner of ParseNat. */
  function NatToString(n: nat): (s: string)
    ensures |s| > 0 && AllDigits(s)
    decreases n
  {
    if n < 10 then [DigitChar(n)] else NatToString(n / 10) + [DigitChar(n % 10)]
  }

  lemma {:induction false} DigitsValueOfRendering(n: nat)
    ensures DigitsValue(NatToString(n)) == n
    decreases n
  {
    if n >= 10 {
      var s := NatToString(n);
      assert s[..|s| - 1] == NatToString(n / 10);
      DigitsValueOfRendering(n / 10);
    }
  }

  lemma ParseRendering(n: nat)
    ensures ParseNat(NatToString(n)) == Some(n)
  {
    DigitsValueOfRendering(n);
  }

  /** Rendering an integer with a '-' in front of a negative one and
      parsing it back gives the integer. */
  lemma ParseIntRendering(n: nat)
    ensures ParseInt(NatToString(n)) == Some(n)
    ensures n > 0 ==> ParseInt(['-'] + NatToString(n)) == Some(0 - n as int)
  {
    ParseRendering(n);
    var t := ['-'] + NatToString(n);
    assert t[1..] == NatToString(n);
  }

  /** The whitespace of `split_whitespace` and `trim`, restricted to ASCII. */
  predicate IsSpace(c: char)
  {
    c == ' ' || c == '\t' || c == '\n' || c == '\r' || c as int == 11 || c as int == 12
  }

  const SpaceChars: set<char> := {' ', '\t', '\n', '\r', 11 as char, 12 as char}

  lemma SpaceCharsAreSpaces(c: char)
    ensures c in SpaceChars <==> IsSpace(c)
  {
  }

  /** `str::split` on every character of `seps`: always at least one piece,
      empty pieces kept. */
  function SplitOn(s: string, seps: set<char>): (r: seq<string>)
    ensures |r| >= 1
    ensures forall i, j :: 0 <= i < |r| && 0 <= j < |r[i]| ==> r[i][j] !in seps
    ensures |r| - 1 == |s| - SumLengths(r)
    decreases |s|
  {
    if |s| == 0 then [""]
    else
      var rest := SplitOn(s[1..], seps);
      if s[0] in seps then [""] + rest
      else
        assert SumLengths([[s[0]] + rest[0]] + rest[1..]) == 1 + SumLengths(rest) by {
          SumLengthsHead([s[0]] + rest[0], rest[1..]);
          SumLengthsHead(rest[0], rest[1..]);
          assert rest == [rest[0]] + rest[1..];
        }
        var r := [[s[0]] + rest[0]] + rest[1..];
        assert forall i :: 1 <= i < |r| ==> r[i] == rest[i];
        r
  }

  function SumLengths(r: seq<string>): nat
  {
    if |r| == 0 then 0 else |r[0]| + SumLengths(r[1..])
  }

  lemma SumLengthsHead(x: string, r: seq<string>)
    ensures SumLengths([x] + r) == |x| + SumLengths(r)
  {
    assert ([x] + r)[1..] == r;
  }

  function Split(s: string, sep: char): (r: seq<string>)
    ensures |r| >= 1
    ensures forall i, j :: 0 <= i < |r| && 0 <= j < |r[i]| ==> r[i][j] != sep
  {
    SplitOn(s, {sep})
  }

  /** Concatenation of the pieces with `sep` between consecutive ones. */
  function Join(pieces: seq<string>, sep: char): string
  {
    if |pieces| == 0 then ""
    else if |pieces| == 1 then pieces[0]
    else pieces[0] + [sep] + Join(pieces[1..], sep)
  }

  /** Splitting loses nothing: joining the pieces back gives the input. */
  lemma {:induction false} JoinSplit(s: string, sep: char)
    ensures Join(Split(s, sep), sep) == s
    decreases |s|
  {
    if |s| > 0 {
      JoinSplit(s[1..], sep);
      var rest := Split(s[1..], sep);
      if s[0] == sep {
        assert Split(s, sep) == [""] + rest;
        assert ([""] + rest)[1..] == rest;
      } else {
        var r := Split(s, sep);
        assert r == [[s[0]] + rest[0]] + rest[1..];
        if |rest| == 1 {
          assert r == [[s[0]] + rest[0]];
        } else {
          assert r[1..] == rest[1..];
          assert Join(rest, sep) == rest[0] + [sep] + Join(rest[1..], sep);
        }
      }
    }
  }

  /** `str::lines`: the pieces between '\n's, without a final empty piece
      after a trailing '\n', and with the '\r' of a "\r\n" ending removed.
      Without '\r', joining the lines with '\n' gives the text back, up to
      its final '\n'. */
  function Lines(s: string): (r: seq<string>)
    ensures forall i, j :: 0 <= i < |r| && 0 <= j < |r[i]| ==> r[i][j] != '\n'
    ensures |s| == 0 <==> |r| == 0
    ensures |s| > 0 && '\n' !in s ==> r == [s]
    ensures '\r' !in s ==> Join(r, '\n') + FinalNewline(s) == s
  {
    var pieces := Split(s, '\n');
    if |s| == 0 then []
    else
      var n := if |pieces[|pieces| - 1]| == 0 then |pieces| - 1 else |pieces|;
      var r := seq(n, i requires 0 <= i < n => if i < |pieces| - 1 then DropCr(pieces[i]) else pieces[i]);
      LinesShape(s, pieces, r);
      r
  }

  lemma LinesShape(s: string, pieces: seq<string>, r: seq<string>)
    requires |s| > 0 && pieces == Split(s, '\n')
    requires |r| == (if |pieces[|pieces| - 1]| == 0 then |pieces| - 1 else |pieces|)
    requires forall i :: 0 <= i < |r| ==>
      r[i] == if i < |pieces| - 1 then DropCr(pieces[i]) else pieces[i]
    ensures |r| > 0
    ensures '\n' !in s ==> r == [s]
    ensures '\r' !in s ==> Join(r, '\n') + FinalNewline(s) == s
  {
    if |pieces| == 1 {
      assert SumLengths(pieces) == |pieces[0]|;
    }
    if '\n' !in s {
      SplitNoSep(s, '\n');
    }
    if '\r' !in s {
      LinesJoin(s, pieces, r);
    }
  }

  /** The '\n' that ends `s`, if any. */
  function FinalNewline(s: string): string
  {
    if |s| > 0 && s[|s| - 1] == '\n' then "\n" else ""
  }

  lemma LinesJoin(s: string, pieces: seq<string>, r: seq<string>)
    requires '\r' !in s && |s| > 0 && pieces == Split(s, '\n')
    requires |r| == (if |pieces[|pieces| - 1]| == 0 then |pieces| - 1 else |pieces|)
    requires forall i :: 0 <= i < |r| ==>
      r[i] == if i < |pieces| - 1 then DropCr(pieces[i]) else pieces[i]
    ensures Join(r, '\n') + FinalNewline(s) == s
  {
    LinesArePieces(s, pieces, r);
    JoinSplit(s, '\n');
    if |pieces| == 1 {
      assert SumLengths(pieces) == |pieces[0]|;
    }
    JoinDropEmpty(s, pieces, r);
  }

  /** Joined pieces with a final empty piece dropped lack only the last
      separator. */
  lemma JoinDropEmpty(s: string, pieces: seq<string>, r: seq<string>)
    requires |s| > 0 && |pieces| >= 1 && Join(pieces, '\n') == s
    requires forall i, j :: 0 <= i < |pieces| && 0 <= j < |pieces[i]| ==> pieces[i][j] != '\n'
    requires |pieces| == 1 ==> |pieces[0]| == |s|
    requires |r| == (if |pieces[|pieces| - 1]| == 0 then |pieces| - 1 else |pieces|)
    requires r == pieces[..|r|]
    ensures Join(r, '\n') + FinalNewline(s) == s
  {
    var k := |pieces|;
    if k == 1 {
      assert r == pieces;
    } else {
      JoinSnoc(pieces, '\n');
      if |pieces[k - 1]| > 0 {
        assert r == pieces;
        assert s[|s| - 1] == pieces[k - 1][|pieces[k - 1]| - 1];
      } else {
        assert r == pieces[..k - 1];
      }
    }
  }

  /** Without '\r' the lines are the pieces, less a final empty one. */
  lemma LinesArePieces(s: string, pieces: seq<string>, r: seq<string>)
    requires '\r' !in s && pieces == Split(s, '\n')
    requires |r| <= |pieces|
    requires forall i :: 0 <= i < |r| ==>
      r[i] == if i < |pieces| - 1 then DropCr(pieces[i]) else pieces[i]
    ensures r == pieces[..|r|]
  {
    SplitChars(s, {'\n'});
    forall i | 0 <= i < |r|
      ensures r[i] == pieces[i]
    {
      if |pieces[i]| > 0 {
        assert pieces[i][|pieces[i]| - 1] in s;
      }
    }
  }

  /** Joining ends with the separator and the last piece. */
  lemma {:induction false} JoinSnoc(ws: seq<string>, sep: char)
    requires |ws| >= 2
    ensures Join(ws, sep) == Join(ws[..|ws| - 1], sep) + [sep] + ws[|ws| - 1]
    decreases |ws|
  {
    if |ws| > 2 {
      JoinSnoc(ws[1..], sep);
      assert ws[1..][..|ws| - 2] == ws[..|ws| - 1][1..];
    } else {
      assert ws[..1] == [ws[0]];
    }
  }

  /** Every character of a piece of `SplitOn` comes from the text. */
  lemma {:induction false} SplitChars(s: string, seps: set<char>)
    ensures forall i, j :: 0 <= i < |SplitOn(s, seps)| && 0 <= j < |SplitOn(s, seps)[i]| ==>
      SplitOn(s, seps)[i][j] in s
    decreases |s|
  {
    if |s| > 0 {
      SplitChars(s[1..], seps);
      var rest := SplitOn(s[1..], seps);
      assert forall c :: c in s[1..] ==> c in s;
      if s[0] !in seps {
        var r := SplitOn(s, seps);
        assert r == [[s[0]] + rest[0]] + rest[1..];
        forall i, j | 0 <= i < |r| && 0 <= j < |r[i]|
          ensures r[i][j] in s
        {
          if i == 0 {
            if j > 0 {
              assert r[0][j] == rest[0][j - 1];
            }
          } else {
            assert r[i] == rest[i];
          }
        }
      }
    }
  }

  lemma {:induction false} SplitNoSep(s: string, sep: char)
    requires sep !in s
    ensures Split(s, sep) == [s]
    decreases |s|
  {
    if |s| > 0 {
      SplitNoSep(s[1..], sep);
      assert [s[0]] + s[1..] == s;
    }
  }

  function DropCr(line: string): (r: string)
    ensures r == line || (|line| > 0 && line[|line| - 1] == '\r' && r == line[..|line| - 1])
  {
    if |line| > 0 && line[|line| - 1] == '\r' then line[..|line| - 1] else line
  }

  /** `str::split_once(sep)`: the text before and after the first `sep`. */
  function SplitOnce(s: string, seps: set<char>): (r: Option<(string, string)>)
    ensures r.None? <==> forall i :: 0 <= i < |s| ==> s[i] !in seps
    ensures r.Some? ==>
      var k := |r.value.0|;
      k < |s| && s[k] in seps && r.value.0 == s[..k] && r.value.1 == s[k + 1..] &&
      forall i :: 0 <= i < k ==> s[i] !in seps
    decreases |s|
  {
    if |s| == 0 then None
    else if s[0] in seps then Some(([], s[1..]))
    else match SplitOnce(s[1..], seps)
      case None => None
      case Some(p) =>
        assert s[1..][|p.0| + 1..] == s[|p.0| + 2..];
        Some(([s[0]] + p.0, p.1))
  }

  /** Index of the first occurrence of `c`, as `str::find`. */
  function Find(s: string, c: char): (r: Option<nat>)
    ensures r.None? <==> c !in s
    ensures r.Some? ==> r.value < |s| && s[r.value] == c && c !in s[..r.value]
  {
    if |s| == 0 then None
    else if s[0] == c then Some(0)
    else match Find(s[1..], c)
      case None => None
      case Some(i) =>
        assert s[..i + 1] == [s[0]] + s[1..][..i];
        Some(i + 1)
  }

  function NonEmpty(pieces: seq<string>): (r: seq<string>)
    ensures forall i :: 0 <= i < |r| ==> |r[i]| > 0
    ensures forall w :: w in r ==> w in pieces
    ensures Concat(r) == Concat(pieces)
  {
    if |pieces| == 0 then []
    else if |pieces[0]| == 0 then NonEmpty(pieces[1..])
    else [pieces[0]] + NonEmpty(pieces[1..])
  }

  /** The pieces written one after another. */
  function Concat(pieces: seq<string>): string
  {
    if |pieces| == 0 then "" else pieces[0] + Concat(pieces[1..])
  }

  /** The characters of `s` outside `seps`, in order. */
  function Without(s: string, seps: set<char>): string
  {
    if |s| == 0 then ""
    else (if s[0] in seps then "" else [s[0]]) + Without(s[1..], seps)
  }

  /** The pieces of `SplitOn` hold every character but the separators. */
  lemma {:induction false} SplitOnConcat(s: string, seps: set<char>)
    ensures Concat(SplitOn(s, seps)) == Without(s, seps)
    decreases |s|
  {
    if |s| > 0 {
      var rest := SplitOn(s[1..], seps);
      SplitOnConcat(s[1..], seps);
      if s[0] in seps {
        assert ([""] + rest)[1..] == rest;
      } else {
        var r := [[s[0]] + rest[0]] + rest[1..];
        assert r[1..] == rest[1..];
        assert Concat(rest) == rest[0] + Concat(rest[1..]);
      }
    }
  }

  /** `str::split_whitespace`: the maximal runs of non-space characters.
      Written one after another they are the non-space characters of `s`. */
  function Words(s: string): (r: seq<string>)
    ensures forall i :: 0 <= i < |r| ==> |r[i]| > 0
    ensures forall i, j :: 0 <= i < |r| && 0 <= j < |r[i]| ==> !IsSpace(r[i][j])
    ensures Concat(r) == Without(s, SpaceChars)
  {
    var pieces := SplitOn(s, SpaceChars);
    var r := NonEmpty(pieces);
    assert forall i, j :: 0 <= i < |r| && 0 <= j < |r[i]| ==> r[i][j] !in SpaceChars by {
      forall i, j | 0 <= i < |r| && 0 <= j < |r[i]|
        ensures r[i][j] !in SpaceChars
      {
        assert r[i] in pieces;
      }
    }
    SplitOnConcat(s, SpaceChars);
    r
  }

  /** A text with no separator in it splits into itself. */
  lemma {:induction false} SplitOnNone(w: string, seps: set<char>)
    requires forall j :: 0 <= j < |w| ==> w[j] !in seps
    ensures SplitOn(w, seps) == [w]
    decreases |w|
  {
    if |w| > 0 {
      SplitOnNone(w[1..], seps);
      assert [w[0]] + w[1..] == w;
    }
  }

  /** A separator-free word in front of a separator is one piece. */
  lemma {:induction false} SplitOnWord(w: string, c: char, t: string, seps: set<char>)
    requires forall j :: 0 <= j < |w| ==> w[j] !in seps
    requires c in seps
    ensures SplitOn(w + [c] + t, seps) == [w] + SplitOn(t, seps)
    decreases |w|
  {
    var s := w + [c] + t;
    if |w| == 0 {
      assert s[1..] == t;
    } else {
      assert s[1..] == w[1..] + [c] + t;
      SplitOnWord(w[1..], c, t, seps);
      assert [w[0]] + w[1..] == w;
    }
  }

  /** Splitting the words joined by single spaces gives the words back. */
  lemma {:induction false} SplitJoined(ws: seq<string>)
    requires |ws| > 0
    requires forall i, j :: 0 <= i < |ws| && 0 <= j < |ws[i]| ==> !IsSpace(ws[i][j])
    ensures SplitOn(Join(ws, ' '), SpaceChars) == ws
    decreases |ws|
  {
    forall i, j | 0 <= i < |ws| && 0 <= j < |ws[i]|
      ensures ws[i][j] !in SpaceChars
    {
      SpaceCharsAreSpaces(ws[i][j]);
    }
    if |ws| == 1 {
      SplitOnNone(ws[0], SpaceChars);
    } else {
      SplitJoined(ws[1..]);
      SplitOnWord(ws[0], ' ', Join(ws[1..], ' '), SpaceChars);
      assert [ws[0]] + ws[1..] == ws;
    }
  }

  predicate AllSpace(g: string)
  {
    forall j :: 0 <= j < |g| ==> IsSpace(g[j])
  }

  /** `gaps[0] + ws[0] + gaps[1] + ... + ws[n - 1] + gaps[n]`. */
  function Interleave(gaps: seq<string>, ws: seq<string>): string
    requires |gaps| == |ws| + 1
    decreases |ws|
  {
    if |ws| == 0 then gaps[0] else gaps[0] + ws[0] + Interleave(gaps[1..], ws[1..])
  }

  /** `s` is the words `ws` with the whitespace runs `gaps` before, between
      and after them, and a non-empty run between any two words. */
  ghost predicate LaidOut(s: string, ws: seq<string>, gaps: seq<string>)
  {
    |gaps| == |ws| + 1 && s == Interleave(gaps, ws) &&
    (forall i :: 0 <= i < |gaps| ==> AllSpace(gaps[i])) &&
    (forall i :: 0 < i < |ws| ==> |gaps[i]| > 0)
  }

  /** The words of any text lie in it separated by non-empty whitespace
      runs, with only whitespace before the first and after the last. */
  lemma {:induction false} WordsLaidOut(s: string)
    ensures exists gaps :: LaidOut(s, Words(s), gaps)
    decreases |s|
  {
    if |s| == 0 {
      assert SplitOn(s, SpaceChars) == [""];
      assert NonEmpty([""]) == NonEmpty([""][1..]);
      assert LaidOut(s, Words(s), [""]);
    } else {
      var c, t := s[0], s[1..];
      assert s == [c] + t;
      WordsLaidOut(t);
      var g :| LaidOut(t, Words(t), g);
      WordsCons(c, t);
      LaidOutCons(c, t, Words(t), g, Words(s));
    }
  }

  /** The words of a text are exactly the non-empty, space-free strings
      that lie in it separated by whitespace runs. */
  lemma WordsExactly(s: string, ws: seq<string>)
    ensures Words(s) == ws <==> SolidWords(ws) && exists gaps :: LaidOut(s, ws, gaps)
  {
    if Words(s) == ws {
      WordsLaidOut(s);
    }
    if SolidWords(ws) && exists gaps :: LaidOut(s, ws, gaps) {
      var gaps :| LaidOut(s, ws, gaps);
      LaidOutWords(s, ws, gaps);
    }
  }

  /** Conversely, words laid out with whitespace runs between them are
      the words `split_whitespace` finds. */
  lemma {:induction false} LaidOutWords(s: string, ws: seq<string>, gaps: seq<string>)
    requires LaidOut(s, ws, gaps) && SolidWords(ws)
    ensures Words(s) == ws
    decreases |s|
  {
    if |gaps[0]| > 0 {
      var g2 := [gaps[0][1..]] + gaps[1..];
      var t := Interleave(g2, ws);
      LaidOutDropSpace(s, ws, gaps);
      LaidOutWords(t, ws, g2);
      WordsCons(gaps[0][0], t);
    } else if |ws| == 0 {
      assert SplitOn(s, SpaceChars) == [""];
      assert NonEmpty([""]) == NonEmpty([""][1..]);
    } else if |ws[0]| == 1 {
      var t := Interleave(gaps[1..], ws[1..]);
      LaidOutDropWord(s, ws, gaps);
      LaidOutWords(t, ws[1..], gaps[1..]);
      WordsCons(ws[0][0], t);
      assert [ws[0]] + ws[1..] == ws;
    } else {
      var ws2 := [ws[0][1..]] + ws[1..];
      var t := Interleave(gaps, ws2);
      LaidOutDropChar(s, ws, gaps);
      LaidOutWords(t, ws2, gaps);
      InterleaveFirst(gaps, ws2);
      WordsCons(ws[0][0], t);
    }
  }

  /** Every word is non-empty and free of whitespace. */
  predicate SolidWords(ws: seq<string>)
  {
    forall i :: 0 <= i < |ws| ==> |ws[i]| > 0 && forall j :: 0 <= j < |ws[i]| ==> !IsSpace(ws[i][j])
  }

  /** A laid-out text that starts with whitespace, less its first character. */
  lemma LaidOutDropSpace(s: string, ws: seq<string>, gaps: seq<string>)
    requires LaidOut(s, ws, gaps) && |gaps[0]| > 0
    ensures IsSpace(gaps[0][0])
    ensures var g2 := [gaps[0][1..]] + gaps[1..];
      s == [gaps[0][0]] + Interleave(g2, ws) && LaidOut(Interleave(g2, ws), ws, g2)
  {
    var c := gaps[0][0];
    var g2 := [gaps[0][1..]] + gaps[1..];
    assert [c] + g2[0] == gaps[0];
    assert [[c] + g2[0]] + g2[1..] == gaps;
    InterleaveSpace(c, g2, ws);
    assert forall i :: 1 <= i < |g2| ==> g2[i] == gaps[i];
  }

  /** A laid-out text that starts with a one-character word, less that word. */
  lemma LaidOutDropWord(s: string, ws: seq<string>, gaps: seq<string>)
    requires LaidOut(s, ws, gaps) && gaps[0] == "" && |ws| > 0 && |ws[0]| == 1
    ensures ws[0] == [ws[0][0]] && s == [ws[0][0]] + Interleave(gaps[1..], ws[1..])
    ensures LaidOut(Interleave(gaps[1..], ws[1..]), ws[1..], gaps[1..])
    ensures var t := Interleave(gaps[1..], ws[1..]); |t| == 0 || IsSpace(t[0])
    ensures SolidWords(ws) ==> SolidWords(ws[1..])
  {
    if |gaps[1]| > 0 {
      InterleaveFirst(gaps[1..], ws[1..]);
    }
    assert forall i :: 0 <= i < |gaps| - 1 ==> gaps[1..][i] == gaps[i + 1];
    assert forall i :: 0 <= i < |ws| - 1 ==> ws[1..][i] == ws[i + 1];
  }

  /** A laid-out text that starts with a longer word, less its first
      character. */
  lemma LaidOutDropChar(s: string, ws: seq<string>, gaps: seq<string>)
    requires LaidOut(s, ws, gaps) && gaps[0] == "" && |ws| > 0 && |ws[0]| > 1
    ensures var ws2 := [ws[0][1..]] + ws[1..];
      s == [ws[0][0]] + Interleave(gaps, ws2) && LaidOut(Interleave(gaps, ws2), ws2, gaps) &&
      ws == [[ws[0][0]] + ws2[0]] + ws2[1..] && (SolidWords(ws) ==> SolidWords(ws2))
  {
    var c := ws[0][0];
    var ws2 := [ws[0][1..]] + ws[1..];
    assert [c] + ws2[0] == ws[0];
    assert [[c] + ws2[0]] + ws2[1..] == ws;
    InterleaveJoin(c, gaps, ws2);
    assert forall i :: 1 <= i < |ws2| ==> ws2[i] == ws[i];
  }

  /** One more character in front of a laid-out text, with the words
      changing the way `WordsCons` says, is laid out again. */
  lemma LaidOutCons(c: char, t: string, ws: seq<string>, g: seq<string>, ws2: seq<string>)
    requires LaidOut(t, ws, g)
    requires forall i :: 0 <= i < |ws| ==> |ws[i]| > 0 && !IsSpace(ws[i][0])
    requires IsSpace(c) ==> ws2 == ws
    requires !IsSpace(c) && (|t| == 0 || IsSpace(t[0])) ==> ws2 == [[c]] + ws
    requires !IsSpace(c) && !(|t| == 0 || IsSpace(t[0])) ==> |ws| > 0 && ws2 == [[c] + ws[0]] + ws[1..]
    ensures exists gaps :: LaidOut([c] + t, ws2, gaps)
  {
    if IsSpace(c) {
      var g2 := [[c] + g[0]] + g[1..];
      InterleaveSpace(c, g, ws);
      assert LaidOut([c] + t, ws2, g2);
    } else if |t| == 0 || IsSpace(t[0]) {
      if |ws| > 0 && g[0] == "" {
        InterleaveFirst(g, ws);
      }
      var g2 := [""] + g;
      InterleaveWord(c, g, ws);
      assert LaidOut([c] + t, ws2, g2);
    } else {
      if g[0] != "" || |ws| == 0 {
        InterleaveFirst(g, ws);
      }
      InterleaveJoin(c, g, ws);
      assert LaidOut([c] + t, ws2, g);
    }
  }

  /** The words of a text with one more character in front. */
  lemma WordsCons(c: char, t: string)
    ensures IsSpace(c) ==> Words([c] + t) == Words(t)
    ensures !IsSpace(c) && (|t| == 0 || IsSpace(t[0])) ==> Words([c] + t) == [[c]] + Words(t)
    ensures !IsSpace(c) && !(|t| == 0 || IsSpace(t[0])) ==>
      |Words(t)| > 0 && Words([c] + t) == [[c] + Words(t)[0]] + Words(t)[1..]
  {
    SpaceCharsAreSpaces(c);
    if |t| > 0 {
      SpaceCharsAreSpaces(t[0]);
    }
    PiecesCons(c, t, SpaceChars);
  }

  /** The non-empty pieces of a text with one more character in front. */
  lemma PiecesCons(c: char, t: string, seps: set<char>)
    ensures c in seps ==> NonEmpty(SplitOn([c] + t, seps)) == NonEmpty(SplitOn(t, seps))
    ensures c !in seps && (|t| == 0 || t[0] in seps) ==>
      NonEmpty(SplitOn([c] + t, seps)) == [[c]] + NonEmpty(SplitOn(t, seps))
    ensures c !in seps && !(|t| == 0 || t[0] in seps) ==>
      var ws := NonEmpty(SplitOn(t, seps));
      |ws| > 0 && NonEmpty(SplitOn([c] + t, seps)) == [[c] + ws[0]] + ws[1..]
  {
    var s := [c] + t;
    assert s[1..] == t;
    var p := SplitOn(t, seps);
    assert p == [p[0]] + p[1..];
    if c in seps {
      assert SplitOn(s, seps) == [""] + p;
      NonEmptyCons("", p);
    } else {
      var head := [c] + p[0];
      assert SplitOn(s, seps) == [head] + p[1..];
      NonEmptyCons(head, p[1..]);
      NonEmptyCons(p[0], p[1..]);
      FirstPiece(t, seps);
      var rest := NonEmpty(p[1..]);
      if p[0] != "" {
        var ws := [p[0]] + rest;
        assert NonEmpty(p) == ws;
        assert ws[0] == p[0] && ws[1..] == rest;
      } else {
        assert head == [c];
        assert NonEmpty(p) == rest;
      }
    }
  }

  /** The first piece of `split` is empty exactly when the text is empty
      or starts with a separator. */
  lemma FirstPiece(t: string, seps: set<char>)
    ensures SplitOn(t, seps)[0] == "" <==> |t| == 0 || t[0] in seps
  {
    if |t| > 0 && t[0] !in seps {
      assert t[1..] == t[1..];
    }
  }

  lemma NonEmptyCons(x: string, rest: seq<string>)
    ensures NonEmpty([x] + rest) == if x == "" then NonEmpty(rest) else [x] + NonEmpty(rest)
  {
    assert ([x] + rest)[1..] == rest;
  }

  /** A text laid out with a word first starts with that word's first
      character, and one laid out with whitespace first starts with it. */
  lemma InterleaveFirst(gaps: seq<string>, ws: seq<string>)
    requires |gaps| == |ws| + 1 && (|gaps[0]| > 0 || (|ws| > 0 && |ws[0]| > 0))
    ensures |gaps[0]| > 0 ==> |Interleave(gaps, ws)| > 0 && Interleave(gaps, ws)[0] == gaps[0][0]
    ensures |gaps[0]| == 0 && |ws| > 0 ==> |Interleave(gaps, ws)| > 0 && Interleave(gaps, ws)[0] == ws[0][0]
  {
  }

  lemma InterleaveSpace(c: char, gaps: seq<string>, ws: seq<string>)
    requires |gaps| == |ws| + 1
    ensures Interleave([[c] + gaps[0]] + gaps[1..], ws) == [c] + Interleave(gaps, ws)
  {
    var g2 := [[c] + gaps[0]] + gaps[1..];
    assert g2[1..] == gaps[1..];
  }

  lemma InterleaveWord(c: char, gaps: seq<string>, ws: seq<string>)
    requires |gaps| == |ws| + 1
    ensures Interleave([""] + gaps, [[c]] + ws) == [c] + Interleave(gaps, ws)
  {
    assert ([""] + gaps)[1..] == gaps && ([[c]] + ws)[1..] == ws;
  }

  lemma InterleaveJoin(c: char, gaps: seq<string>, ws: seq<string>)
    requires |gaps| == |ws| + 1 && |ws| > 0 && gaps[0] == ""
    ensures Interleave(gaps, [[c] + ws[0]] + ws[1..]) == [c] + Interleave(gaps, ws)
  {
    var ws2 := [[c] + ws[0]] + ws[1..];
    assert ws2[1..] == ws[1..];
  }

  /** `split_whitespace` undoes joining non-empty words with single spaces. */
  lemma WordsJoin(ws: seq<string>)
    requires forall i :: 0 <= i < |ws| ==> |ws[i]| > 0
    requires forall i, j :: 0 <= i < |ws| && 0 <= j < |ws[i]| ==> !IsSpace(ws[i][j])
    ensures Words(Join(ws, ' ')) == ws
  {
    if |ws| > 0 {
      SplitJoined(ws);
      NonEmptyKeeps(ws);
    }
  }

  lemma {:induction false} NonEmptyKeeps(ws: seq<string>)
    requires forall i :: 0 <= i < |ws| ==> |ws[i]| > 0
    ensures NonEmpty(ws) == ws
    decreases |ws|
  {
    if |ws| > 0 {
      NonEmptyKeeps(ws[1..]);
      assert [ws[0]] + ws[1..] == ws;
    }
  }

  /** The number of whitespace characters `s` starts with. */
  function LeadingSpaces(s: string): (k: nat)
    ensures k <= |s|
    ensures forall i :: 0 <= i < k ==> IsSpace(s[i])
    ensures k < |s| ==> !IsSpace(s[k])
  {
    if |s| > 0 && IsSpace(s[0]) then
      var k := LeadingSpaces(s[1..]);
      assert forall i :: 1 <= i < 1 + k ==> s[i] == s[1..][i - 1];
      1 + k
    else 0
  }

  /** The number of whitespace characters `s` ends with. */
  function TrailingSpaces(s: string): (k: nat)
    ensures k <= |s|
    ensures forall i :: |s| - k <= i < |s| ==> IsSpace(s[i])
    ensures k < |s| ==> !IsSpace(s[|s| - k - 1])
  {
    if |s| > 0 && IsSpace(s[|s| - 1]) then
      var k := TrailingSpaces(s[..|s| - 1]);
      assert forall i :: |s| - 1 - k <= i < |s| - 1 ==> s[i] == s[..|s| - 1][i];
      1 + k
    else 0
  }

  /** `r` is the slice of `s` from `a` with only whitespace around it. */
  predicate SliceAmidSpace(s: string, r: string, a: int)
  {
    0 <= a <= |s| - |r| && r == s[a..a + |r|] &&
    (forall i :: 0 <= i < a ==> IsSpace(s[i])) &&
    (forall i :: a + |r| <= i < |s| ==> IsSpace(s[i]))
  }

  /** `str::trim`: the slice of `s` left after dropping its leading and
      trailing whitespace; it starts and ends with a non-space. */
  function Trim(s: string): (r: string)
    ensures exists a :: SliceAmidSpace(s, r, a)
    ensures |r| > 0 ==> !IsSpace(r[0]) && !IsSpace(r[|r| - 1])
  {
    var a := LeadingSpaces(s);
    if a == |s| then
      assert SliceAmidSpace(s, "", a);
      ""
    else
      var b := TrailingSpaces(s);
      TrimSlice(s, a, b);
      s[a..|s| - b]
  }

  lemma TrimSlice(s: string, a: nat, b: nat)
    requires a < |s| && b <= |s|
    requires forall i :: 0 <= i < a ==> IsSpace(s[i])
    requires !IsSpace(s[a])
    requires forall i :: |s| - b <= i < |s| ==> IsSpace(s[i])
    requires b < |s| ==> !IsSpace(s[|s| - b - 1])
    ensures a < |s| - b
    ensures SliceAmidSpace(s, s[a..|s| - b], a)
  {
  }
}
