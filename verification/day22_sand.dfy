/** aoc-22: Sand Slabs.  Bricks are axis-aligned boxes of unit cubes given
    by two opposite corners.  `settle` lets them fall, one unit at a time,
    until none can move; part one counts the bricks whose removal lets no
    other brick fall, and part two adds up, for every brick, how many
    others fall once it is removed. */
module SandSlabs {
  import opened Wrappers
  import opened Text
  import opened Sets
  import Seqs

  /** A point or an extent on the three axes (`TVec3<u16>`). */
  datatype Vec3 = Vec3(x: int, y: int, z: int)

  /** A brick fills the cells from `pos` (inclusive) to `pos + dim`
      (exclusive) on every axis; z is the height, 1 is the lowest level. */
  datatype Brick = Brick(pos: Vec3, dim: Vec3)

  /** Every brick the parser builds has a positive extent on each axis. */
  predicate Wf(b: Brick) {
    b.dim.x >= 1 && b.dim.y >= 1 && b.dim.z >= 1
  }

  /** The brick fills the unit cell whose lowest corner is `p`. */
  predicate Holds(b: Brick, p: Vec3) {
    b.pos.x <= p.x < b.pos.x + b.dim.x &&
    b.pos.y <= p.y < b.pos.y + b.dim.y &&
    b.pos.z <= p.z < b.pos.z + b.dim.z
  }

  function Below(p: Vec3): Vec3 {
    p.(z := p.z - 1)
  }

  // ---------------------------------------------------------------------
  // Brick::lowered and Brick::collides

  /** `Brick::lowered`: nothing when the brick already rests on level 1,
      otherwise the same brick one level lower. */
  function Lowered(b: Brick): (r: Option<Brick>)
    ensures r.None? <==> b.pos.z == 1
    ensures r.Some? ==> r.value.dim == b.dim && r.value.pos == Below(b.pos)
  {
    if b.pos.z == 1 then None else Some(b.(pos := Below(b.pos)))
  }

  /** The lowered brick is the brick moved down by one cell: it fills a
      cell exactly when the brick fills the cell above it. */
  lemma LoweredShifts(b: Brick, p: Vec3)
    requires Lowered(b).Some?
    ensures Holds(Lowered(b).value, p) <==> Holds(b, p.(z := p.z + 1))
  {
  }

  /** `Brick::collides`: the boxes overlap on all three axes. */
  predicate Collides(a: Brick, b: Brick) {
    a.pos.x < b.pos.x + b.dim.x && a.pos.x + a.dim.x > b.pos.x &&
    a.pos.y < b.pos.y + b.dim.y && a.pos.y + a.dim.y > b.pos.y &&
    a.pos.z < b.pos.z + b.dim.z && a.pos.z + a.dim.z > b.pos.z
  }

  function Max(a: int, b: int): int {
    if a < b then b else a
  }

  /** The corner, common to both boxes, that two colliding bricks share. */
  function Meet(a: Brick, b: Brick): Vec3 {
    Vec3(Max(a.pos.x, b.pos.x), Max(a.pos.y, b.pos.y), Max(a.pos.z, b.pos.z))
  }

  /** Two well-formed bricks collide exactly when some cell lies in both. */
  lemma CollidesIffShared(a: Brick, b: Brick)
    requires Wf(a) && Wf(b)
    ensures Collides(a, b) ==> Holds(a, Meet(a, b)) && Holds(b, Meet(a, b))
    ensures (exists p :: Holds(a, p) && Holds(b, p)) ==> Collides(a, b)
  {
  }

  /** Collision does not depend on which brick is asked. */
  lemma CollidesSymmetric(a: Brick, b: Brick)
    ensures Collides(a, b) <==> Collides(b, a)
  {
  }

  // ---------------------------------------------------------------------
  // parse_input

  /** The first three comma-separated numbers of `s`. */
  function ParseVec(s: string): (r: Option<Vec3>)
    ensures r.Some? <==>
      |Split(s, ',')| >= 3 && forall k :: 0 <= k < 3 ==> ParseNat(Split(s, ',')[k]).Some?
    ensures r.Some? ==>
      r.value.x == ParseNat(Split(s, ',')[0]).value &&
      r.value.y == ParseNat(Split(s, ',')[1]).value &&
      r.value.z == ParseNat(Split(s, ',')[2]).value
  {
    var pieces := Split(s, ',');
    if |pieces| < 3 then None
    else
      var x :- ParseNat(pieces[0]);
      var y :- ParseNat(pieces[1]);
      var z :- ParseNat(pieces[2]);
      Some(Vec3(x, y, z))
  }

  /** `end` is at or beyond `start` on every axis. */
  predicate Ordered(start: Vec3, end: Vec3) {
    start.x <= end.x && start.y <= end.y && start.z <= end.z
  }

  predicate Between(start: Vec3, p: Vec3, end: Vec3) {
    start.x <= p.x <= end.x && start.y <= p.y <= end.y && start.z <= p.z <= end.z
  }

  /** One line `x,y,z~x,y,z`.  The extent is `end - start + 1`; an end
      below its start makes that `u16` subtraction underflow, which is a
      panic. */
  function ParseBrick(line: string): (r: Option<Brick>)
    ensures r.Some? <==>
      SplitOnce(line, {'~'}).Some? &&
      ParseVec(SplitOnce(line, {'~'}).value.0).Some? &&
      ParseVec(SplitOnce(line, {'~'}).value.1).Some? &&
      Ordered(ParseVec(SplitOnce(line, {'~'}).value.0).value,
              ParseVec(SplitOnce(line, {'~'}).value.1).value)
    ensures r.Some? ==> Wf(r.value)
    ensures r.Some? ==>
      var start := ParseVec(SplitOnce(line, {'~'}).value.0).value;
      var end := ParseVec(SplitOnce(line, {'~'}).value.1).value;
      r.value.pos == start &&
      forall p :: Holds(r.value, p) <==> Between(start, p, end)
  {
    var halves :- SplitOnce(line, {'~'});
    var start :- ParseVec(halves.0);
    var end :- ParseVec(halves.1);
    if !Ordered(start, end) then None
    else
      Some(Brick(start, Vec3(end.x - start.x + 1, end.y - start.y + 1, end.z - start.z + 1)))
  }

  /** `parse_input`: one brick per line. */
  function ParseInput(input: string): (r: Option<seq<Brick>>)
    ensures r.Some? <==> forall i :: 0 <= i < |Lines(input)| ==> ParseBrick(Lines(input)[i]).Some?
    ensures r.Some? ==> |r.value| == |Lines(input)|
    ensures r.Some? ==>
      forall i :: 0 <= i < |r.value| ==> Some(r.value[i]) == ParseBrick(Lines(input)[i])
    ensures r.Some? ==> forall i :: 0 <= i < |r.value| ==> Wf(r.value[i]) && r.value[i].pos.z >= 0
  {
    Seqs.MapAll(Lines(input), ParseBrick)
  }

  // ---------------------------------------------------------------------
  // settle

  /** No brick lies below level 1. */
  predicate AboveGround(bs: seq<Brick>) {
    forall i :: 0 <= i < |bs| ==> bs[i].pos.z >= 1
  }

  /** No two distinct bricks overlap. */
  predicate NoOverlap(bs: seq<Brick>) {
    forall i, j :: 0 <= i < |bs| && 0 <= j < |bs| && i != j ==> !Collides(bs[i], bs[j])
  }

  /** `l` collides with no brick of `bs` other than the one at `i`. */
  predicate Free(l: Brick, bs: seq<Brick>, i: nat) {
    forall j :: 0 <= j < |bs| && j != i ==> !Collides(l, bs[j])
  }

  /** The lowered copy of brick `i`, when it may take that place. */
  function Drop(bs: seq<Brick>, i: nat): (r: Option<Brick>)
    requires i < |bs|
    ensures r.Some? <==> Lowered(bs[i]).Some? && Free(Lowered(bs[i]).value, bs, i)
    ensures r.Some? ==> r == Lowered(bs[i])
  {
    var l :- Lowered(bs[i]);
    if Free(l, bs, i) then Some(l) else None
  }

  /** A fixed point: no brick can be lowered. */
  predicate Stable(bs: seq<Brick>) {
    forall i :: 0 <= i < |bs| ==> Drop(bs, i).None?
  }

  /** Same place in the x-y plane and same extent. */
  predicate SameColumn(a: Brick, b: Brick) {
    a.dim == b.dim && a.pos.x == b.pos.x && a.pos.y == b.pos.y
  }

  /** `now` is `before` with some bricks moved straight down. */
  predicate Descends(now: seq<Brick>, before: seq<Brick>) {
    |now| == |before| &&
    forall k :: 0 <= k < |now| ==> SameColumn(now[k], before[k]) && now[k].pos.z <= before[k].pos.z
  }

  /** The indices of the bricks that are lower in `now` than in `before`. */
  function Dropped(before: seq<Brick>, now: seq<Brick>): set<nat>
    requires |now| == |before|
  {
    set k: nat | k < |before| && now[k].pos.z < before[k].pos.z
  }

  /** One pass of the `for i in 0..bricks.len()` loop from index `i`,
      with the set of moved indices and the `moved` flag. */
  function Pass(bs: seq<Brick>, i: nat, moved: set<nat>, any: bool): (r: (seq<Brick>, set<nat>, bool))
    requires i <= |bs|
    ensures |r.0| == |bs|
    decreases |bs| - i
  {
    if i == |bs| then (bs, moved, any)
    else match Drop(bs, i)
      case None => Pass(bs, i + 1, moved, any)
      case Some(l) => Pass(bs[i := l], i + 1, moved + {i}, true)
  }

  /** Moving brick `i` to a place free of every other brick keeps the
      bricks apart. */
  lemma MoveKeepsApart(bs: seq<Brick>, i: nat, l: Brick)
    requires i < |bs| && NoOverlap(bs) && Free(l, bs, i)
    ensures NoOverlap(bs[i := l])
  {
    var cs := bs[i := l];
    forall a, b | 0 <= a < |cs| && 0 <= b < |cs| && a != b
      ensures !Collides(cs[a], cs[b])
    {
      if a == i {
        assert cs[b] == bs[b];
      } else if b == i {
        assert cs[a] == bs[a];
        CollidesSymmetric(l, bs[a]);
      } else {
        assert cs[a] == bs[a] && cs[b] == bs[b];
      }
    }
  }

  /** A pass only moves bricks straight down, keeps them on or above
      level 1, and leaves the bricks before `i` alone. */
  lemma {:induction false} PassShape(bs: seq<Brick>, i: nat, moved: set<nat>, any: bool)
    requires i <= |bs| && AboveGround(bs)
    ensures Descends(Pass(bs, i, moved, any).0, bs)
    ensures AboveGround(Pass(bs, i, moved, any).0)
    ensures forall k :: 0 <= k < i ==> Pass(bs, i, moved, any).0[k] == bs[k]
    decreases |bs| - i
  {
    if i < |bs| {
      match Drop(bs, i)
      case None =>
        PassShape(bs, i + 1, moved, any);
      case Some(l) =>
        PassShape(bs[i := l], i + 1, moved + {i}, true);
    }
  }

  /** A pass records in the moved set exactly the bricks it lowered,
      raises the flag exactly when it changed something, and when it
      changed nothing no brick from `i` on could be lowered. */
  lemma PassRecords(bs: seq<Brick>, i: nat, moved: set<nat>, any: bool)
    requires i <= |bs| && AboveGround(bs)
    ensures forall k: nat :: k in Pass(bs, i, moved, any).1 <==>
      k in moved || (i <= k < |bs| && Pass(bs, i, moved, any).0[k].pos.z < bs[k].pos.z)
    ensures Pass(bs, i, moved, any).2 <==> any || Pass(bs, i, moved, any).0 != bs
    ensures Pass(bs, i, moved, any).0 == bs ==> forall k :: i <= k < |bs| ==> Drop(bs, k).None?
  {
    PassMoved(bs, i, moved, any);
    PassChanged(bs, i, moved, any);
  }

  lemma {:induction false} PassMoved(bs: seq<Brick>, i: nat, moved: set<nat>, any: bool)
    requires i <= |bs| && AboveGround(bs)
    ensures forall k: nat :: k in Pass(bs, i, moved, any).1 <==>
      k in moved || (i <= k < |bs| && Pass(bs, i, moved, any).0[k].pos.z < bs[k].pos.z)
    decreases |bs| - i
  {
    if i < |bs| {
      match Drop(bs, i)
      case None =>
        PassShape(bs, i + 1, moved, any);
        PassMoved(bs, i + 1, moved, any);
      case Some(l) =>
        var cs := bs[i := l];
        PassShape(cs, i + 1, moved + {i}, true);
        PassMoved(cs, i + 1, moved + {i}, true);
    }
  }

  lemma {:induction false} PassChanged(bs: seq<Brick>, i: nat, moved: set<nat>, any: bool)
    requires i <= |bs| && AboveGround(bs)
    ensures Pass(bs, i, moved, any).2 <==> any || Pass(bs, i, moved, any).0 != bs
    ensures Pass(bs, i, moved, any).0 == bs ==> forall k :: i <= k < |bs| ==> Drop(bs, k).None?
    decreases |bs| - i
  {
    if i < |bs| {
      match Drop(bs, i)
      case None =>
        PassChanged(bs, i + 1, moved, any);
      case Some(l) =>
        var cs := bs[i := l];
        PassShape(cs, i + 1, moved + {i}, true);
        PassChanged(cs, i + 1, moved + {i}, true);
        var r := Pass(cs, i + 1, moved + {i}, true).0;
        assert r[i] == l;
        assert r[i] != bs[i];
    }
  }

  /** A pass keeps non-overlapping bricks apart. */
  lemma {:induction false} PassApart(bs: seq<Brick>, i: nat, moved: set<nat>, any: bool)
    requires i <= |bs|
    ensures NoOverlap(bs) ==> NoOverlap(Pass(bs, i, moved, any).0)
    decreases |bs| - i
  {
    if i < |bs| {
      match Drop(bs, i)
      case None =>
        PassApart(bs, i + 1, moved, any);
      case Some(l) =>
        if NoOverlap(bs) {
          MoveKeepsApart(bs, i, l);
        }
        PassApart(bs[i := l], i + 1, moved + {i}, true);
    }
  }

  /** Every brick has a positive extent on each axis. */
  predicate AllWf(bs: seq<Brick>) {
    forall k :: 0 <= k < |bs| ==> Wf(bs[k])
  }

  /** The footprints of two bricks in the x-y plane overlap. */
  predicate SharesColumn(a: Brick, b: Brick) {
    a.pos.x < b.pos.x + b.dim.x && a.pos.x + a.dim.x > b.pos.x &&
    a.pos.y < b.pos.y + b.dim.y && a.pos.y + a.dim.y > b.pos.y
  }

  /** `a` lies wholly above `b`. */
  predicate Above(a: Brick, b: Brick) {
    a.pos.z >= b.pos.z + b.dim.z
  }

  /** No brick has passed through another: of two bricks over a common
      footprint, the one above in `before` is still above in `now`. */
  predicate KeepsOrder(now: seq<Brick>, before: seq<Brick>) {
    |now| == |before| &&
    forall i, j :: 0 <= i < |now| && 0 <= j < |now| && SharesColumn(before[i], before[j]) && Above(before[i], before[j]) ==>
      Above(now[i], now[j])
  }

  /** Lowering a brick into a free place keeps it above every brick it was
      above: the level just below it would collide with such a brick. */
  lemma DropKeepsOrder(orig: seq<Brick>, bs: seq<Brick>, i: nat, l: Brick)
    requires i < |bs| && Descends(bs, orig) && KeepsOrder(bs, orig) && AllWf(orig)
    requires Lowered(bs[i]) == Some(l) && Free(l, bs, i)
    ensures KeepsOrder(bs[i := l], orig)
  {
    var cs := bs[i := l];
    forall a, b | 0 <= a < |cs| && 0 <= b < |cs| && SharesColumn(orig[a], orig[b]) && Above(orig[a], orig[b])
      ensures Above(cs[a], cs[b])
    {
      assert Wf(orig[a]) && Wf(orig[b]);
      assert SameColumn(bs[a], orig[a]) && SameColumn(bs[b], orig[b]);
      if a == i && b != i {
        assert cs[b] == bs[b] && !Collides(l, bs[b]);
      } else if a != i && b != i {
        assert cs[a] == bs[a] && cs[b] == bs[b];
      }
    }
  }

  /** A pass lets no brick pass through another. */
  lemma {:induction false} PassOrder(orig: seq<Brick>, bs: seq<Brick>, i: nat, moved: set<nat>, any: bool)
    requires i <= |bs| && AboveGround(bs) && Descends(bs, orig) && KeepsOrder(bs, orig) && AllWf(orig)
    ensures KeepsOrder(Pass(bs, i, moved, any).0, orig)
    decreases |bs| - i
  {
    if i < |bs| {
      match Drop(bs, i)
      case None =>
        PassOrder(orig, bs, i + 1, moved, any);
      case Some(l) =>
        DropKeepsOrder(orig, bs, i, l);
        var cs := bs[i := l];
        assert AboveGround(cs) && Descends(cs, orig) by {
          forall k | 0 <= k < |cs|
            ensures cs[k].pos.z >= 1 && SameColumn(cs[k], orig[k]) && cs[k].pos.z <= orig[k].pos.z
          {
            if k != i {
              assert cs[k] == bs[k];
            }
          }
        }
        PassOrder(orig, cs, i + 1, moved + {i}, true);
    }
  }

  /** The sum over the bricks of their heights above level 1. */
  function Height(bs: seq<Brick>): nat
    requires AboveGround(bs)
  {
    if |bs| == 0 then 0 else bs[0].pos.z - 1 + Height(bs[1..])
  }

  /** Lowering any brick lowers the total height. */
  lemma {:induction false} HeightDescends(now: seq<Brick>, before: seq<Brick>, k: nat)
    requires AboveGround(now) && AboveGround(before) && Descends(now, before)
    requires k < |now| && now[k].pos.z < before[k].pos.z
    ensures Height(now) < Height(before)
  {
    HeightMonotone(now[1..], before[1..]);
    if k > 0 {
      HeightDescends(now[1..], before[1..], k - 1);
    }
  }

  lemma {:induction false} HeightMonotone(now: seq<Brick>, before: seq<Brick>)
    requires AboveGround(now) && AboveGround(before) && Descends(now, before)
    ensures Height(now) <= Height(before)
  {
    if |now| > 0 {
      HeightMonotone(now[1..], before[1..]);
    }
  }

  /** A change that only moves bricks down lowers the total height. */
  lemma ChangeDescends(now: seq<Brick>, before: seq<Brick>)
    requires AboveGround(now) && AboveGround(before) && Descends(now, before)
    requires now != before
    ensures Height(now) < Height(before)
  {
    var k :| 0 <= k < |now| && now[k] != before[k];
    assert now[k].pos != before[k].pos;
    HeightDescends(now, before, k);
  }

  /** Passes over the bricks until one of them moves nothing.  `orig` is
      the arrangement `settle` started from and `moved` the indices moved
      so far; the result is the final arrangement and the number of
      distinct bricks moved. */
  function SettleLoop(orig: seq<Brick>, bs: seq<Brick>, moved: set<nat>): (r: (seq<Brick>, nat))
    requires AboveGround(bs) && Descends(bs, orig) && moved == Dropped(orig, bs)
    requires AllWf(orig) ==> KeepsOrder(bs, orig)
    ensures Descends(r.0, orig) && AboveGround(r.0)
    ensures Stable(r.0)
    ensures NoOverlap(bs) ==> NoOverlap(r.0)
    ensures AllWf(orig) ==> KeepsOrder(r.0, orig)
    ensures r.1 == |Dropped(orig, r.0)|
    decreases Height(bs)
  {
    var p := Pass(bs, 0, moved, false);
    PassShape(bs, 0, moved, false);
    PassRecords(bs, 0, moved, false);
    PassApart(bs, 0, moved, false);
    assert AllWf(orig) ==> KeepsOrder(p.0, orig) by {
      if AllWf(orig) {
        PassOrder(orig, bs, 0, moved, false);
      }
    }
    assert p.1 == Dropped(orig, p.0);
    if !p.2 then (p.0, |p.1|)
    else
      ChangeDescends(p.0, bs);
      SettleLoop(orig, p.0, p.1)
  }

  /** `settle` on bricks that all lie on or above level 1. */
  function SettleAll(bs: seq<Brick>): (r: (seq<Brick>, nat))
    requires AboveGround(bs)
    ensures Descends(r.0, bs) && AboveGround(r.0) && Stable(r.0)
    ensures NoOverlap(bs) ==> NoOverlap(r.0)
    ensures AllWf(bs) ==> KeepsOrder(r.0, bs)
    ensures r.1 == |Dropped(bs, r.0)|
  {
    assert {} == Dropped(bs, bs);
    assert KeepsOrder(bs, bs);
    SettleLoop(bs, bs, {})
  }

  /** `settle`: the settled bricks and the number of distinct bricks that
      moved.  A brick at level 0 makes `lowered` underflow its `u16`
      height on the first pass, which is a panic. */
  function Settle(bs: seq<Brick>): (r: Option<(seq<Brick>, nat)>)
    ensures r.None? <==> exists k :: 0 <= k < |bs| && bs[k].pos.z < 1
    ensures r.Some? ==> Descends(r.value.0, bs) && Stable(r.value.0)
    ensures r.Some? && NoOverlap(bs) ==> NoOverlap(r.value.0)
    ensures r.Some? && AllWf(bs) ==> KeepsOrder(r.value.0, bs)
    ensures r.Some? ==> r.value.1 == |Dropped(bs, r.value.0)|
  {
    if AboveGround(bs) then Some(SettleAll(bs)) else None
  }

  /** At most every brick moves. */
  lemma SettleCountBound(bs: seq<Brick>)
    requires AboveGround(bs)
    ensures SettleAll(bs).1 <= |bs|
  {
    var r := SettleAll(bs).0;
    BelowCard(Dropped(bs, r), |bs|);
  }

  /** On bricks none of which can be lowered, a pass changes nothing. */
  lemma {:induction false} PassOnStable(bs: seq<Brick>, i: nat, moved: set<nat>, any: bool)
    requires i <= |bs| && Stable(bs)
    ensures Pass(bs, i, moved, any) == (bs, moved, any)
    decreases |bs| - i
  {
    if i < |bs| {
      PassOnStable(bs, i + 1, moved, any);
    }
  }

  /** `settle` reports no move exactly when the bricks were already at
      rest, and then leaves them as they were. */
  lemma SettleNothingIffStable(bs: seq<Brick>)
    requires AboveGround(bs)
    ensures SettleAll(bs).1 == 0 <==> Stable(bs)
    ensures Stable(bs) ==> SettleAll(bs).0 == bs
  {
    if Stable(bs) {
      PassOnStable(bs, 0, {}, false);
      assert {} == Dropped(bs, bs);
    }
    var r := SettleAll(bs).0;
    if SettleAll(bs).1 == 0 {
      forall k | 0 <= k < |bs|
        ensures r[k] == bs[k]
      {
        assert k !in Dropped(bs, r);
        assert r[k].pos == bs[k].pos;
      }
      assert r == bs;
    }
  }

  // ---------------------------------------------------------------------
  // part_one and part_two

  /** `l` collides with no brick of `bs` other than those at `r` and `c`. */
  predicate FreeWithout(l: Brick, bs: seq<Brick>, r: nat, c: nat) {
    forall o :: 0 <= o < |bs| && o != r && o != c ==> !Collides(l, bs[o])
  }

  /** The filter of `part_one`: with brick `r` taken away, every other
      brick either rests on level 1 or would collide, once lowered, with
      some brick other than itself and `r`. */
  predicate Safe(bs: seq<Brick>, r: nat) {
    forall c :: 0 <= c < |bs| && c != r ==>
      Lowered(bs[c]).None? || !FreeWithout(Lowered(bs[c]).value, bs, r, c)
  }

  /** `Vec::remove`. */
  function Remove(bs: seq<Brick>, r: nat): (rs: seq<Brick>)
    requires r < |bs|
    ensures |rs| == |bs| - 1
    ensures forall k :: 0 <= k < r ==> rs[k] == bs[k]
    ensures forall k :: r <= k < |rs| ==> rs[k] == bs[k + 1]
  {
    bs[..r] + bs[r + 1..]
  }

  /** Where brick `c` (not `r`) ends up once `r` is removed. */
  function Shift(r: nat, c: nat): nat
    requires c != r
  {
    if c < r then c else c - 1
  }

  lemma FreeInRemoved(bs: seq<Brick>, r: nat, c: nat, l: Brick)
    requires r < |bs| && c < |bs| && c != r
    ensures Free(l, Remove(bs, r), Shift(r, c)) <==> FreeWithout(l, bs, r, c)
  {
    var rs := Remove(bs, r);
    var c' := Shift(r, c);
    if Free(l, rs, c') {
      forall o | 0 <= o < |bs| && o != r && o != c
        ensures !Collides(l, bs[o])
      {
        assert bs[o] == rs[Shift(r, o)];
      }
    }
    if FreeWithout(l, bs, r, c) {
      forall j | 0 <= j < |rs| && j != c'
        ensures !Collides(l, rs[j])
      {
        var o := if j < r then j else j + 1;
        assert rs[j] == bs[o];
      }
    }
  }

  /** Brick `r` is safe exactly when the bricks left after removing it are
      at rest. */
  lemma SafeIffStable(bs: seq<Brick>, r: nat)
    requires r < |bs|
    ensures Safe(bs, r) <==> Stable(Remove(bs, r))
  {
    var rs := Remove(bs, r);
    if Safe(bs, r) {
      forall c' | 0 <= c' < |rs|
        ensures Drop(rs, c').None?
      {
        var c := if c' < r then c' else c' + 1;
        assert rs[c'] == bs[c];
        if Lowered(bs[c]).Some? {
          FreeInRemoved(bs, r, c, Lowered(bs[c]).value);
        }
      }
    }
    if Stable(rs) {
      forall c | 0 <= c < |bs| && c != r && Lowered(bs[c]).Some?
        ensures !FreeWithout(Lowered(bs[c]).value, bs, r, c)
      {
        assert rs[Shift(r, c)] == bs[c];
        FreeInRemoved(bs, r, c, Lowered(bs[c]).value);
        assert Drop(rs, Shift(r, c)).None?;
      }
    }
  }

  /** Part one's test and part two's count agree: a brick is safe exactly
      when settling the others after its removal moves nothing. */
  lemma SafeIffNoneFalls(bs: seq<Brick>, r: nat)
    requires r < |bs| && AboveGround(bs)
    ensures AboveGround(Remove(bs, r))
    ensures Safe(bs, r) <==> SettleAll(Remove(bs, r)).1 == 0
  {
    SafeIffStable(bs, r);
    SettleNothingIffStable(Remove(bs, r));
  }

  /** The indices of the safe bricks. */
  function SafeSet(bs: seq<Brick>): set<nat> {
    set r: nat | r < |bs| && Safe(bs, r)
  }

  /** `part_one`: settle the bricks, then count the safe ones; also
      returns the settled bricks, which `part_two` starts from. */
  function PartOne(bricks: seq<Brick>): (r: Option<(seq<Brick>, nat)>)
    ensures r.Some? <==> AboveGround(bricks)
    ensures r.Some? ==> Descends(r.value.0, bricks) && Stable(r.value.0) && AboveGround(r.value.0)
    ensures r.Some? && AllWf(bricks) ==> KeepsOrder(r.value.0, bricks)
    ensures r.Some? ==> r.value.1 == |SafeSet(r.value.0)| && r.value.1 <= |bricks|
  {
    var settled :- Settle(bricks);
    BelowCard(SafeSet(settled.0), |bricks|);
    Some((settled.0, |SafeSet(settled.0)|))
  }

  /** How many bricks `settle` moves once brick `r` is removed. */
  function FallsWithout(bs: seq<Brick>, r: nat): (c: nat)
    requires AboveGround(bs) && r < |bs|
    ensures AboveGround(Remove(bs, r))
    ensures c == |Dropped(Remove(bs, r), SettleAll(Remove(bs, r)).0)|
    ensures c <= |bs| - 1
  {
    var rs := Remove(bs, r);
    SettleCountBound(rs);
    SettleAll(rs).1
  }

  /** The settle counts after removing each of the first `n` bricks. */
  function Falls(bs: seq<Brick>, n: nat): nat
    requires AboveGround(bs) && n <= |bs|
  {
    if n == 0 then 0 else Falls(bs, n - 1) + FallsWithout(bs, n - 1)
  }

  /** The fall count of every brick, in order. */
  function FallCounts(bs: seq<Brick>): (cs: seq<int>)
    requires AboveGround(bs)
  {
    seq(|bs|, r requires 0 <= r < |bs| => FallsWithout(bs, r))
  }

  /** The running total is the sum of the first `n` fall counts. */
  lemma {:induction false} FallsSum(bs: seq<Brick>, n: nat)
    requires AboveGround(bs) && n <= |bs|
    ensures Falls(bs, n) == Seqs.Sum(FallCounts(bs)[..n])
    decreases n
  {
    if n > 0 {
      FallsSum(bs, n - 1);
      assert FallCounts(bs)[..n][..n - 1] == FallCounts(bs)[..n - 1];
    }
  }

  /** `part_two`: for every brick, how many others fall once it is
      removed, summed. */
  function PartTwo(bs: seq<Brick>): (r: nat)
    requires AboveGround(bs)
    ensures r == Seqs.Sum(FallCounts(bs))
    ensures r <= (|bs| - 1) * |bs|
  {
    FallsSum(bs, |bs|);
    assert FallCounts(bs)[..|bs|] == FallCounts(bs);
    var cs := FallCounts(bs);
    assert |cs| == |bs|;
    Seqs.SumBounds(cs, 0, |bs| - 1);
    Falls(bs, |bs|)
  }

  /** The bricks part two counts no fall for are exactly those part one
      counts as safe. */
  lemma PartOneFromPartTwo(bs: seq<Brick>)
    requires AboveGround(bs)
    ensures SafeSet(bs) == set r: nat | r < |bs| && FallsWithout(bs, r) == 0
  {
    forall r: nat | r < |bs|
      ensures Safe(bs, r) <==> FallsWithout(bs, r) == 0
    {
      SafeIffNoneFalls(bs, r);
    }
  }

  /** Both answers for the puzzle input. */
  function Solve(input: string): (r: Option<(nat, nat)>)
    ensures r.Some? <==> ParseInput(input).Some? && AboveGround(ParseInput(input).value)
    ensures r.Some? ==>
      var settled := SettleAll(ParseInput(input).value).0;
      r.value.0 == |SafeSet(settled)| && r.value.1 == PartTwo(settled)
  {
    var bricks :- ParseInput(input);
    var one :- PartOne(bricks);
    Some((one.1, PartTwo(one.0)))
  }
}
