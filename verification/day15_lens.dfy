/** aoc-15: the HASH algorithm and the HASHMAP of 256 boxes of lenses.  A
    step "label-" takes the lens with that label out of its box; a step
    "label=f" replaces the focal length of the lens with that label, or puts
    a new lens at the back of the box.  The box of a label is its hash. */
module LensLibrary {
  import opened Wrappers
  import opened Text
  import Seqs
  import Arith

  /** `[Vec<Slot>; 256]`. */
  const BoxCount: nat := 256

  // ---------------------------------------------------------------------
  // HASH

  /** One step of the fold: add the byte, then multiply by 17, each
      wrapping at 256 as `u8::wrapping_add` / `wrapping_mul` do.  A
      character stands for its byte. */
  function HashStep(acc: nat, c: char): (r: nat)
    ensures r < 256
  {
    ((acc + c as int) % 256 * 17) % 256
  }

  /** The fold from `acc` over the characters of `s`, left to right. */
  function HashFrom(acc: nat, s: string): (r: nat)
    ensures |s| > 0 ==> r < 256
    decreases |s|
  {
    if |s| == 0 then acc else HashFrom(HashStep(acc, s[0]), s[1..])
  }

  /** `hash`: the fold from 0; always a box index, and 0 for the empty
      string. */
  function Hash(s: string): (r: nat)
    ensures r < BoxCount
    ensures |s| == 0 ==> r == 0
  {
    HashFrom(0, s)
  }

  /** The fold reads left to right: one more character is one more step on
      the hash so far. */
  lemma {:induction false} HashSnoc(acc: nat, s: string, c: char)
    ensures HashFrom(acc, s + [c]) == HashStep(HashFrom(acc, s), c)
    decreases |s|
  {
    if |s| == 0 {
      assert s + [c] == [c];
    } else {
      assert (s + [c])[1..] == s[1..] + [c];
      HashSnoc(HashStep(acc, s[0]), s[1..], c);
    }
  }

  /** Hashing a concatenation continues from the hash of the first part. */
  lemma {:induction false} HashAppend(acc: nat, a: string, b: string)
    ensures HashFrom(acc, a + b) == HashFrom(HashFrom(acc, a), b)
    decreases |a|
  {
    if |a| == 0 {
      assert a + b == b;
    } else {
      assert (a + b)[1..] == a[1..] + b;
      HashAppend(HashStep(acc, a[0]), a[1..], b);
    }
  }

  /** The two wraps of a step make one: the step is `(acc + c) * 17 mod
      256`. */
  lemma HashStepSingleWrap(acc: nat, c: char)
    ensures HashStep(acc, c) == (acc + c as int) * 17 % 256
  {
    Arith.ModMulLeft(acc + c as int, 17, 256);
  }

  // ---------------------------------------------------------------------
  // Steps

  datatype Lens = Lens(name: string, focal: nat)

  /** A parsed step: "label-" or "label=f". */
  datatype Op = Remove(name: string) | Insert(name: string, focal: nat)

  /** The parsing inside the loop of `part_two`: a step with a '-' drops
      its last character to get the label; any other step drops its last
      two characters and reads the last one as the focal length.  `None`
      where the slice or the `unwrap` of the parse panics. */
  function ParseStep(step: string): (r: Option<Op>)
    ensures '-' in step ==> r == Some(Remove(step[..|step| - 1]))
    ensures '-' !in step ==>
      (r.Some? <==> |step| >= 2 && IsDigit(step[|step| - 1]))
    ensures '-' !in step && r.Some? ==>
      r.value == Insert(step[..|step| - 2], DigitValue(step[|step| - 1]))
  {
    if '-' in step then Some(Remove(step[..|step| - 1]))
    else if |step| < 2 then None
    else
      var focal :- ParseNat(step[|step| - 1..]);
      assert step[|step| - 1..] == [step[|step| - 1]];
      assert DigitsValue([step[|step| - 1]]) == DigitValue(step[|step| - 1]) by {
        assert [step[|step| - 1]][..0] == [];
      }
      Some(Insert(step[..|step| - 2], focal))
  }

  // ---------------------------------------------------------------------
  // Boxes

  predicate HasLabel(lenses: seq<Lens>, name: string)
  {
    exists i :: 0 <= i < |lenses| && lenses[i].name == name
  }

  /** No two lenses of a box share a label. */
  predicate UniqueLabels(lenses: seq<Lens>)
  {
    forall i, j :: 0 <= i < j < |lenses| ==> lenses[i].name != lenses[j].name
  }

  /** The invariant of the boxes: 256 of them, every lens in the box of its
      label's hash, labels unique within a box. */
  predicate Wf(boxes: seq<seq<Lens>>)
  {
    |boxes| == BoxCount &&
    forall b :: 0 <= b < BoxCount ==>
      UniqueLabels(boxes[b]) && forall i :: 0 <= i < |boxes[b]| ==> Hash(boxes[b][i].name) == b
  }

  /** `retain(|lens| lens.label != label)`: the other lenses, in their
      order. */
  function RemoveLabel(lenses: seq<Lens>, name: string): (r: seq<Lens>)
    ensures |r| <= |lenses|
    ensures forall l :: l in r <==> l in lenses && l.name != name
    decreases |lenses|
  {
    if |lenses| == 0 then []
    else
      var rest := RemoveLabel(lenses[1..], name);
      assert forall l :: l in lenses <==> l == lenses[0] || l in lenses[1..] by {
        assert lenses == [lenses[0]] + lenses[1..];
      }
      if lenses[0].name == name then rest else [lenses[0]] + rest
  }

  /** No lens with the label is left, and without one nothing changes. */
  lemma RemoveGone(lenses: seq<Lens>, name: string)
    ensures !HasLabel(RemoveLabel(lenses, name), name)
    ensures !HasLabel(lenses, name) ==> RemoveLabel(lenses, name) == lenses
  {
    var r := RemoveLabel(lenses, name);
    assert forall i :: 0 <= i < |r| ==> r[i].name != name by {
      forall i | 0 <= i < |r|
        ensures r[i].name != name
      {
        assert r[i] in r;
      }
    }
    if !HasLabel(lenses, name) {
      RemoveNothing(lenses, name);
    }
  }

  lemma {:induction false} RemoveNothing(lenses: seq<Lens>, name: string)
    requires forall i :: 0 <= i < |lenses| ==> lenses[i].name != name
    ensures RemoveLabel(lenses, name) == lenses
    decreases |lenses|
  {
    if |lenses| > 0 {
      RemoveNothing(lenses[1..], name);
      assert lenses == [lenses[0]] + lenses[1..];
    }
  }

  /** `retain` keeps labels unique. */
  lemma {:induction false} RemoveUnique(lenses: seq<Lens>, name: string)
    requires UniqueLabels(lenses)
    ensures UniqueLabels(RemoveLabel(lenses, name))
    decreases |lenses|
  {
    if |lenses| > 0 {
      var tail := lenses[1..];
      assert UniqueLabels(tail);
      RemoveUnique(tail, name);
      var rest := RemoveLabel(tail, name);
      if lenses[0].name != name {
        var r := [lenses[0]] + rest;
        forall i, j | 0 <= i < j < |r|
          ensures r[i].name != r[j].name
        {
          if i == 0 {
            assert r[j] == rest[j - 1] && rest[j - 1] in tail;
          } else {
            assert r[i] == rest[i - 1] && r[j] == rest[j - 1];
          }
        }
      }
    }
  }

  /** `retain` keeps the order: it works piece by piece. */
  lemma {:induction false} RemoveAppend(a: seq<Lens>, b: seq<Lens>, name: string)
    ensures RemoveLabel(a + b, name) == RemoveLabel(a, name) + RemoveLabel(b, name)
    decreases |a|
  {
    if |a| == 0 {
      assert a + b == b;
    } else {
      assert (a + b)[1..] == a[1..] + b;
      assert (a + b)[0] == a[0];
      RemoveAppend(a[1..], b, name);
    }
  }

  /** The position of the first lens with `label`, as `iter_mut().find`. */
  function FindLabel(lenses: seq<Lens>, name: string): (r: Option<nat>)
    ensures r.None? <==> !HasLabel(lenses, name)
    ensures r.Some? ==>
      r.value < |lenses| && lenses[r.value].name == name &&
      forall k :: 0 <= k < r.value ==> lenses[k].name != name
    decreases |lenses|
  {
    if |lenses| == 0 then None
    else if lenses[0].name == name then Some(0)
    else
      match FindLabel(lenses[1..], name)
      case None =>
        assert forall k :: 1 <= k < |lenses| ==> lenses[k] == lenses[1..][k - 1];
        None
      case Some(k) => Some(k + 1)
  }

  /** The "=" step on one box: overwrite the focal length of the lens with
      the label where it stands, or push a new lens at the back. */
  function SetFocal(lenses: seq<Lens>, name: string, focal: nat): (r: seq<Lens>)
    ensures HasLabel(lenses, name) ==>
      var k := FindLabel(lenses, name).value;
      |r| == |lenses| && r[k] == Lens(name, focal) &&
      forall i :: 0 <= i < |lenses| && i != k ==> r[i] == lenses[i]
    ensures !HasLabel(lenses, name) ==> r == lenses + [Lens(name, focal)]
  {
    match FindLabel(lenses, name)
    case Some(k) => lenses[k := Lens(name, focal)]
    case None => lenses + [Lens(name, focal)]
  }

  /** The boxes after one step: only the box of the label's hash
      changes. */
  function Apply(boxes: seq<seq<Lens>>, op: Op): (r: seq<seq<Lens>>)
    requires |boxes| == BoxCount
    ensures |r| == BoxCount
    ensures forall b :: 0 <= b < BoxCount && b != Hash(op.name) ==> r[b] == boxes[b]
    ensures op.Remove? ==> r[Hash(op.name)] == RemoveLabel(boxes[Hash(op.name)], op.name)
    ensures op.Insert? ==> r[Hash(op.name)] == SetFocal(boxes[Hash(op.name)], op.name, op.focal)
  {
    var h := Hash(op.name);
    match op
    case Remove(name) => boxes[h := RemoveLabel(boxes[h], name)]
    case Insert(name, focal) => boxes[h := SetFocal(boxes[h], name, focal)]
  }

  /** The focal length of the lens labelled `label`, looked up in the box
      of its hash. */
  function Lookup(boxes: seq<seq<Lens>>, name: string): (r: Option<nat>)
    requires |boxes| == BoxCount
    ensures r.None? <==> !HasLabel(boxes[Hash(name)], name)
  {
    var k :- FindLabel(boxes[Hash(name)], name);
    Some(boxes[Hash(name)][k].focal)
  }

  /** A step keeps the invariant. */
  lemma ApplyWf(boxes: seq<seq<Lens>>, op: Op)
    requires Wf(boxes)
    ensures Wf(Apply(boxes, op))
  {
    var r: seq<seq<Lens>> := Apply(boxes, op);
    var h := Hash(op.name);
    var old_box := boxes[h];
    forall i | 0 <= i < |r[h]|
      ensures Hash(r[h][i].name) == h
    {
      if op.Remove? {
        assert r[h][i] in old_box;
      } else if HasLabel(old_box, op.name) {
        var k := FindLabel(old_box, op.name).value;
        if i != k {
          assert r[h][i] == old_box[i];
        }
      } else if i < |old_box| {
        assert r[h][i] == old_box[i];
      }
    }
    if op.Insert? {
      SetFocalUnique(old_box, op.name, op.focal);
    } else {
      RemoveUnique(old_box, op.name);
    }
  }

  lemma SetFocalUnique(lenses: seq<Lens>, name: string, focal: nat)
    requires UniqueLabels(lenses)
    ensures UniqueLabels(SetFocal(lenses, name, focal))
  {
    var r := SetFocal(lenses, name, focal);
    if HasLabel(lenses, name) {
      var k := FindLabel(lenses, name).value;
      forall i, j | 0 <= i < j < |r|
        ensures r[i].name != r[j].name
      {
        if i == k {
          assert r[j] == lenses[j];
        } else if j == k {
          assert r[i] == lenses[i];
        } else {
          assert r[i] == lenses[i] && r[j] == lenses[j];
        }
      }
    } else {
      forall i, j | 0 <= i < j < |r|
        ensures r[i].name != r[j].name
      {
        if j == |lenses| {
          assert r[i] == lenses[i];
        } else {
          assert r[i] == lenses[i] && r[j] == lenses[j];
        }
      }
    }
  }

  /** The boxes behave as a map from labels to focal lengths: "label=f"
      binds the label to `f`, "label-" unbinds it, and no other label is
      affected. */
  lemma ApplyLookup(boxes: seq<seq<Lens>>, op: Op, other: string)
    requires Wf(boxes)
    ensures Lookup(Apply(boxes, op), op.name) == (if op.Insert? then Some(op.focal) else None)
    ensures other != op.name ==> Lookup(Apply(boxes, op), other) == Lookup(boxes, other)
  {
    var h := Hash(op.name);
    if op.Insert? {
      SetFocalFind(boxes[h], op.name, op.focal);
    }
    if other != op.name && Hash(other) == h {
      if op.Insert? {
        SetFocalOther(boxes[h], op.name, op.focal, other);
      } else {
        RemoveFind(boxes[h], op.name, other);
      }
    }
  }

  /** After "label=f" the first lens with the label has focal length `f`. */
  lemma SetFocalFind(lenses: seq<Lens>, name: string, focal: nat)
    ensures FindLabel(SetFocal(lenses, name, focal), name).Some?
    ensures var r := SetFocal(lenses, name, focal);
      r[FindLabel(r, name).value] == Lens(name, focal)
  {
    var r := SetFocal(lenses, name, focal);
    var k := if HasLabel(lenses, name) then FindLabel(lenses, name).value else |lenses|;
    assert r[k] == Lens(name, focal);
    assert forall i :: 0 <= i < k ==> r[i] == lenses[i] && r[i].name != name;
  }

  /** "label=f" leaves the first lens of any other label as it was. */
  lemma SetFocalOther(lenses: seq<Lens>, name: string, focal: nat, other: string)
    requires other != name
    ensures var r := SetFocal(lenses, name, focal);
      (FindLabel(r, other).None? <==> FindLabel(lenses, other).None?) &&
      (FindLabel(r, other).Some? ==> r[FindLabel(r, other).value] == lenses[FindLabel(lenses, other).value])
  {
    var r := SetFocal(lenses, name, focal);
    var k := if HasLabel(lenses, name) then FindLabel(lenses, name).value else |lenses|;
    assert k < |r| && r[k].name == name;
    assert forall i :: 0 <= i < |lenses| && i != k ==> r[i] == lenses[i];
    FindAgree(lenses, r, other);
  }

  /** Two rows that agree on every lens labelled `other`, the longer one
      holding no further such lens, find the same first one. */
  lemma FindAgree(a: seq<Lens>, b: seq<Lens>, other: string)
    requires |a| <= |b|
    requires forall i :: 0 <= i < |a| && (a[i].name == other || b[i].name == other) ==> a[i] == b[i]
    requires forall i :: |a| <= i < |b| ==> b[i].name != other
    ensures FindLabel(a, other) == FindLabel(b, other)
  {
    var fa := FindLabel(a, other);
    if fa.Some? {
      var i := fa.value;
      forall j | 0 <= j < i
        ensures b[j].name != other
      {
        assert a[j].name != other;
      }
      FindFirst(b, other, i);
    } else {
      forall j | 0 <= j < |b|
        ensures b[j].name != other
      {
        if j < |a| {
          assert a[j].name != other;
        }
      }
    }
  }

  /** The first lens with the label is the one the search finds. */
  lemma FindFirst(lenses: seq<Lens>, name: string, i: nat)
    requires i < |lenses| && lenses[i].name == name
    requires forall j :: 0 <= j < i ==> lenses[j].name != name
    ensures FindLabel(lenses, name) == Some(i)
  {
    assert HasLabel(lenses, name);
  }

  /** `retain` of one label finds the first lens of any other label
      unchanged. */
  lemma {:induction false} RemoveFind(lenses: seq<Lens>, name: string, other: string)
    requires other != name
    ensures var r := RemoveLabel(lenses, name);
      (FindLabel(r, other).None? <==> FindLabel(lenses, other).None?) &&
      (FindLabel(r, other).Some? ==> r[FindLabel(r, other).value] == lenses[FindLabel(lenses, other).value])
    decreases |lenses|
  {
    if |lenses| > 0 {
      var h, t := lenses[0], lenses[1..];
      var rest := RemoveLabel(t, name);
      var r := RemoveLabel(lenses, name);
      if h.name == name {
        assert r == rest;
        RemoveFind(t, name, other);
      } else if h.name == other {
        assert r == [h] + rest && FindLabel(lenses, other) == Some(0);
        FindCons(h, rest, other);
      } else {
        assert r == [h] + rest;
        RemoveFind(t, name, other);
        FindCons(h, rest, other);
      }
    }
  }

  /** Searching a row with a lens in front: that lens, or the search of
      the rest shifted by one. */
  lemma FindCons(h: Lens, t: seq<Lens>, other: string)
    ensures FindLabel([h] + t, other) ==
      if h.name == other then Some(0)
      else match FindLabel(t, other)
        case None => None
        case Some(k) => Some(k + 1)
    ensures FindLabel(t, other).Some? ==> ([h] + t)[FindLabel(t, other).value + 1] == t[FindLabel(t, other).value]
  {
    assert ([h] + t)[1..] == t;
  }

  // ---------------------------------------------------------------------
  // Focusing power

  /** The lenses of box `box` from slot `|lenses|` back: each adds `(box +
      1) * (slot + 1) * focal`. */
  function SlotsPower(box: nat, lenses: seq<Lens>): nat
  {
    if |lenses| == 0 then 0
    else SlotsPower(box, lenses[..|lenses| - 1]) + (box + 1) * |lenses| * lenses[|lenses| - 1].focal
  }

  /** `focusing_power` over the first `n` boxes. */
  function PowerUpTo(boxes: seq<seq<Lens>>, n: nat): nat
    requires n <= |boxes|
  {
    if n == 0 then 0 else PowerUpTo(boxes, n - 1) + SlotsPower(n - 1, boxes[n - 1])
  }

  function FocusingPower(boxes: seq<seq<Lens>>): nat
  {
    PowerUpTo(boxes, |boxes|)
  }

  /** A lens pushed at the back of box `b` adds `(b + 1)` times its slot
      number times its focal length. */
  lemma PushPower(box: nat, lenses: seq<Lens>, l: Lens)
    ensures SlotsPower(box, lenses + [l]) == SlotsPower(box, lenses) + (box + 1) * (|lenses| + 1) * l.focal
  {
    assert (lenses + [l])[..|lenses|] == lenses;
  }

  /** Replacing one box changes the total by that box's difference. */
  lemma {:induction false} PowerReplace(boxes: seq<seq<Lens>>, n: nat, h: nat, x: seq<Lens>)
    requires h < n <= |boxes|
    ensures PowerUpTo(boxes[h := x], n) == PowerUpTo(boxes, n) - SlotsPower(h, boxes[h]) + SlotsPower(h, x)
    decreases n
  {
    if n - 1 > h {
      PowerReplace(boxes, n - 1, h, x);
    } else {
      PowerSame(boxes, boxes[h := x], h);
    }
  }

  /** Boxes that agree below `n` have the same power there. */
  lemma {:induction false} PowerSame(a: seq<seq<Lens>>, b: seq<seq<Lens>>, n: nat)
    requires n <= |a| && n <= |b| && forall i :: 0 <= i < n ==> a[i] == b[i]
    ensures PowerUpTo(a, n) == PowerUpTo(b, n)
    decreases n
  {
    if n > 0 {
      PowerSame(a, b, n - 1);
    }
  }

  /** A new label's lens adds `(hash + 1) * slot * focal` to the focusing
      power, where it lands in the last slot of its box. */
  lemma InsertNewPower(boxes: seq<seq<Lens>>, name: string, focal: nat)
    requires |boxes| == BoxCount && !HasLabel(boxes[Hash(name)], name)
    ensures FocusingPower(Apply(boxes, Insert(name, focal))) ==
      FocusingPower(boxes) + (Hash(name) + 1) * (|boxes[Hash(name)]| + 1) * focal
  {
    var h := Hash(name);
    var r := Apply(boxes, Insert(name, focal));
    assert r == boxes[h := boxes[h] + [Lens(name, focal)]];
    PushPower(h, boxes[h], Lens(name, focal));
    PowerReplace(boxes, BoxCount, h, boxes[h] + [Lens(name, focal)]);
  }

  /** Removing a label no box holds changes nothing. */
  lemma RemoveAbsent(boxes: seq<seq<Lens>>, name: string)
    requires |boxes| == BoxCount && !HasLabel(boxes[Hash(name)], name)
    ensures Apply(boxes, Remove(name)) == boxes
  {
    RemoveGone(boxes[Hash(name)], name);
  }

  // ---------------------------------------------------------------------
  // The two parts

  /** The steps: `split(',')` and `trim` of each piece.  Each step is a
      slice of its comma-free piece with only whitespace around it. */
  function Steps(input: string): (r: seq<string>)
    ensures |r| == |Split(input, ',')|
    ensures forall i :: 0 <= i < |r| ==> TrimmedFrom(Split(input, ',')[i], r[i])
    ensures forall i, j :: 0 <= i < |r| && 0 <= j < |r[i]| ==> r[i][j] != ','
    ensures forall i :: 0 <= i < |r| && |r[i]| > 0 ==> !IsSpace(r[i][0]) && !IsSpace(r[i][|r[i]| - 1])
  {
    var pieces := Split(input, ',');
    var r := seq(|pieces|, i requires 0 <= i < |pieces| => Trim(pieces[i]));
    forall i | 0 <= i < |r|
      ensures TrimmedFrom(pieces[i], r[i]) && forall j :: 0 <= j < |r[i]| ==> r[i][j] != ','
      ensures |r[i]| > 0 ==> !IsSpace(r[i][0]) && !IsSpace(r[i][|r[i]| - 1])
    {
      assert r[i] == Trim(pieces[i]);
      TrimKeepsOut(pieces[i], ',');
    }
    r
  }

  /** `step` is `piece` with only whitespace cut from either end. */
  ghost predicate TrimmedFrom(piece: string, step: string)
  {
    exists a :: SliceAmidSpace(piece, step, a)
  }

  /** Trimming a piece free of `sep` leaves a slice free of it. */
  lemma TrimKeepsOut(piece: string, sep: char)
    requires forall j :: 0 <= j < |piece| ==> piece[j] != sep
    ensures TrimmedFrom(piece, Trim(piece))
    ensures forall j :: 0 <= j < |Trim(piece)| ==> Trim(piece)[j] != sep
  {
    var t := Trim(piece);
    var a :| SliceAmidSpace(piece, t, a);
    forall j | 0 <= j < |t|
      ensures t[j] != sep
    {
      assert t[j] == piece[a + j];
    }
  }

  /** The hashes of the steps, added front to back. */
  function HashTotal(steps: seq<string>): nat
  {
    if |steps| == 0 then 0 else HashTotal(steps[..|steps| - 1]) + Hash(steps[|steps| - 1])
  }

  /** The hash of every step. */
  function Hashes(steps: seq<string>): (hs: seq<int>)
  {
    seq(|steps|, i requires 0 <= i < |steps| => Hash(steps[i]))
  }

  /** Summing the mapped hashes is adding them up step by step. */
  lemma {:induction false} SumOfHashes(steps: seq<string>)
    ensures Seqs.Sum(Hashes(steps)) == HashTotal(steps)
    decreases |steps|
  {
    if |steps| > 0 {
      var front := steps[..|steps| - 1];
      assert Hashes(steps)[..|steps| - 1] == Hashes(front);
      SumOfHashes(front);
    }
  }

  /** `part_one`: the sum of the hashes of the steps, each below 256. */
  function PartOne(input: string): (r: int)
    ensures r == HashTotal(Steps(input))
    ensures 0 <= r < 256 * |Steps(input)|
  {
    var steps := Steps(input);
    Seqs.SumBounds(Hashes(steps), 0, 255);
    SumOfHashes(steps);
    Seqs.Sum(Hashes(steps))
  }

  /** The loop of `part_two` over the remaining steps; `None` where a step
      panics. */
  function Run(boxes: seq<seq<Lens>>, steps: seq<string>): (r: Option<seq<seq<Lens>>>)
    requires Wf(boxes)
    ensures r.None? <==> exists i :: 0 <= i < |steps| && ParseStep(steps[i]).None?
    ensures r.Some? ==> Wf(r.value)
    decreases |steps|
  {
    if |steps| == 0 then Some(boxes)
    else
      match ParseStep(steps[0])
      case None => None
      case Some(op) =>
        ApplyWf(boxes, op);
        var r := Run(Apply(boxes, op), steps[1..]);
        assert forall i :: 1 <= i < |steps| ==> steps[i] == steps[1..][i - 1];
        r
  }

  /** Running the steps one after the other is running them all. */
  lemma {:induction false} RunAppend(boxes: seq<seq<Lens>>, a: seq<string>, b: seq<string>)
    requires Wf(boxes)
    ensures Run(boxes, a + b) ==
      (match Run(boxes, a) case None => None case Some(mid) => Run(mid, b))
    decreases |a|
  {
    if |a| == 0 {
      assert a + b == b;
    } else {
      assert (a + b)[0] == a[0] && (a + b)[1..] == a[1..] + b;
      var op := ParseStep(a[0]);
      if op.Some? {
        ApplyWf(boxes, op.value);
        RunAppend(Apply(boxes, op.value), a[1..], b);
      }
    }
  }

  function EmptyBoxes(): (r: seq<seq<Lens>>)
    ensures Wf(r) && FocusingPower(r) == 0
  {
    var r := seq(BoxCount, _ => []);
    assert forall n :: 0 <= n <= BoxCount ==> PowerUpTo(r, n) == 0 by {
      forall n | 0 <= n <= BoxCount
        ensures PowerUpTo(r, n) == 0
      {
        EmptyPower(r, n);
      }
    }
    r
  }

  lemma {:induction false} EmptyPower(r: seq<seq<Lens>>, n: nat)
    requires n <= |r| && forall i :: 0 <= i < |r| ==> r[i] == []
    ensures PowerUpTo(r, n) == 0
    decreases n
  {
    if n > 0 {
      EmptyPower(r, n - 1);
    }
  }

  /** `part_two`: the focusing power after all steps, from 256 empty
      boxes. */
  function PartTwo(input: string): (r: Option<int>)
    ensures r.None? <==> exists i :: 0 <= i < |Steps(input)| && ParseStep(Steps(input)[i]).None?
    ensures r.Some? ==> r.value == FocusingPower(Run(EmptyBoxes(), Steps(input)).value)
  {
    var boxes :- Run(EmptyBoxes(), Steps(input));
    Some(FocusingPower(boxes))
  }
}
