/** aoc-16: a beam of light enters a 110 × 110 contraption of mirrors ('/'
    and '\') and splitters ('-' and '|').  Every tile records, as a
    bitmask, the directions beams have crossed it in; a beam stops where it
    leaves the grid or repeats a direction on a tile.  The answer is the
    number of energised tiles: those with a non-zero mask. */
module FloorLava {
  import opened Wrappers
  import opened Text
  import opened Sets
  import Seqs

  /** The grid is `Size` × `Size` tiles. */
  const Size: nat := 110

  datatype Dir = Up | Down | Left | Right

  datatype TileType = Empty | MirrorFS | MirrorBS | SplitH | SplitV

  /** A beam: the tile it is on and the direction it travels. */
  datatype Position = Position(row: nat, col: nat, dir: Dir)

  predicate InGrid(p: Position)
  {
    p.row < Size && p.col < Size
  }

  /** 110 rows of 110 tiles. */
  predicate WfTiles(tiles: seq<seq<TileType>>)
  {
    |tiles| == Size && forall r :: 0 <= r < Size ==> |tiles[r]| == Size
  }

  // ---------------------------------------------------------------------
  // Direction bits

  /** The `#[repr(u8)]` tag of a direction. */
  function Bit(d: Dir): bv8
  {
    match d
    case Up => 0x01
    case Down => 0x02
    case Left => 0x04
    case Right => 0x08
  }

  /** Each tag is a single bit, and different directions have disjoint
      bits. */
  lemma BitsDistinct(d: Dir, e: Dir)
    ensures Bit(d) != 0 && Bit(d) & (Bit(d) - 1) == 0
    ensures d != e ==> Bit(d) & Bit(e) == 0
  {
    match d
    case Up =>
    case Down =>
    case Left =>
    case Right =>
  }

  /** The `visited_bitmask` of tile `(row, col)` when `seen` holds the
      beams that have crossed the grid: the bits of the directions seen
      there. */
  function Mask(seen: set<Position>, row: nat, col: nat): bv8
  {
    (if Position(row, col, Up) in seen then Bit(Up) else 0) |
    (if Position(row, col, Down) in seen then Bit(Down) else 0) |
    (if Position(row, col, Left) in seen then Bit(Left) else 0) |
    (if Position(row, col, Right) in seen then Bit(Right) else 0)
  }

  /** The test `visited_bitmask & dir > 0` asks whether the beam has been
      on the tile in that direction; a mask is non-zero exactly when some
      beam has crossed the tile. */
  lemma MaskBits(seen: set<Position>, row: nat, col: nat, d: Dir)
    ensures Mask(seen, row, col) & Bit(d) != 0 <==> Position(row, col, d) in seen
    ensures Mask(seen, row, col) != 0 <==> exists e: Dir :: Position(row, col, e) in seen
  {
    if Position(row, col, Up) in seen {
    } else if Position(row, col, Down) in seen {
    } else if Position(row, col, Left) in seen {
    } else if Position(row, col, Right) in seen {
    } else if exists e: Dir :: Position(row, col, e) in seen {
      var e: Dir :| Position(row, col, e) in seen;
      match e
      case Up =>
      case Down =>
      case Left =>
      case Right =>
    }
    match d
    case Up =>
    case Down =>
    case Left =>
    case Right =>
  }

  /** Setting the bit of a beam adds just that beam. */
  lemma MaskAdd(seen: set<Position>, p: Position)
    ensures Mask(seen + {p}, p.row, p.col) == Mask(seen, p.row, p.col) | Bit(p.dir)
  {
  }

  // ---------------------------------------------------------------------
  // Moving and turning

  function DRow(d: Dir): int
  {
    match d
    case Up => -1
    case Down => 1
    case Left => 0
    case Right => 0
  }

  function DCol(d: Dir): int
  {
    match d
    case Up => 0
    case Down => 0
    case Left => -1
    case Right => 1
  }

  /** `Position::next`: one tile on in the beam's direction, keeping the
      direction; `None` exactly when that leaves the grid. */
  function Next(p: Position): (r: Option<Position>)
    ensures InGrid(p) ==>
      (r.None? <==> !(0 <= p.row + DRow(p.dir) < Size && 0 <= p.col + DCol(p.dir) < Size))
    ensures r.Some? ==>
      r.value.dir == p.dir && r.value.row == p.row + DRow(p.dir) && r.value.col == p.col + DCol(p.dir)
    ensures r.Some? && InGrid(p) ==> InGrid(r.value)
  {
    match p.dir
    case Up => if p.row == 0 then None else Some(p.(row := p.row - 1))
    case Down => if p.row == Size - 1 then None else Some(p.(row := p.row + 1))
    case Left => if p.col == 0 then None else Some(p.(col := p.col - 1))
    case Right => if p.col == Size - 1 then None else Some(p.(col := p.col + 1))
  }

  predicate IsMirror(ty: TileType)
  {
    ty == MirrorFS || ty == MirrorBS
  }

  predicate Vertical(d: Dir)
  {
    d == Up || d == Down
  }

  /** The new direction after a mirror: '/' swaps up and right, down and
      left; '\' swaps up and left, down and right. */
  function MirrorDir(ty: TileType, d: Dir): (e: Dir)
    requires IsMirror(ty)
    ensures Vertical(e) != Vertical(d)
  {
    match ty
    case MirrorFS => (match d case Up => Right case Down => Left case Left => Down case Right => Up)
    case MirrorBS => (match d case Up => Left case Down => Right case Left => Up case Right => Down)
  }

  /** Bouncing twice off the same mirror restores the direction. */
  lemma MirrorInvolution(ty: TileType, d: Dir)
    requires IsMirror(ty)
    ensures MirrorDir(ty, MirrorDir(ty, d)) == d
  {
  }

  /** `Position::reflect`: same tile, turned by the mirror. */
  function Reflect(p: Position, ty: TileType): (r: Position)
    requires IsMirror(ty)
    ensures r.row == p.row && r.col == p.col && Vertical(r.dir) != Vertical(p.dir)
  {
    Position(p.row, p.col, MirrorDir(ty, p.dir))
  }

  /** A splitter hit side-on: '-' entered vertically or '|' entered
      horizontally. */
  predicate Splits(ty: TileType, d: Dir)
  {
    (ty == SplitH && Vertical(d)) || (ty == SplitV && !Vertical(d))
  }

  /** The beams that leave a tile, before they step on: the reflected beam
      of a mirror, both sides of a splitter hit side-on, and otherwise the
      beam itself. */
  function Outgoing(ty: TileType, p: Position): (r: seq<Position>)
    ensures |r| == (if Splits(ty, p.dir) then 2 else 1)
    ensures forall i :: 0 <= i < |r| ==> r[i].row == p.row && r[i].col == p.col
    ensures Splits(ty, p.dir) ==> Vertical(r[0].dir) != Vertical(p.dir) && r[0].dir != r[1].dir
    ensures Splits(ty, p.dir) ==> {r[0].dir, r[1].dir} == (if ty == SplitH then {Left, Right} else {Up, Down})
    ensures IsMirror(ty) ==> r == [Reflect(p, ty)]
    ensures !Splits(ty, p.dir) && !IsMirror(ty) ==> r == [p]
  {
    if IsMirror(ty) then [Reflect(p, ty)]
    else if ty == SplitH && Vertical(p.dir) then [p.(dir := Left), p.(dir := Right)]
    else if ty == SplitV && !Vertical(p.dir) then [p.(dir := Up), p.(dir := Down)]
    else [p]
  }

  /** The beams one step after `p`. */
  ghost function Succ(tiles: seq<seq<TileType>>, p: Position): set<Position>
    requires WfTiles(tiles) && InGrid(p)
  {
    var outs := Outgoing(tiles[p.row][p.col], p);
    set i | 0 <= i < |outs| && Next(outs[i]).Some? :: Next(outs[i]).value
  }

  // ---------------------------------------------------------------------
  // Reachability

  /** A run of beams, each one step after the one before. */
  ghost predicate IsPath(tiles: seq<seq<TileType>>, s: seq<Position>)
    requires WfTiles(tiles)
  {
    |s| >= 1 && (forall i :: 0 <= i < |s| ==> InGrid(s[i])) &&
    forall i :: 0 <= i < |s| - 1 ==> s[i + 1] in Succ(tiles, s[i])
  }

  ghost predicate Reaches(tiles: seq<seq<TileType>>, p: Position, q: Position)
    requires WfTiles(tiles)
  {
    exists s :: IsPath(tiles, s) && s[0] == p && s[|s| - 1] == q
  }

  lemma ReachesSelf(tiles: seq<seq<TileType>>, p: Position)
    requires WfTiles(tiles) && InGrid(p)
    ensures Reaches(tiles, p, p)
  {
    assert IsPath(tiles, [p]);
  }

  /** A beam reaches what its successors reach. */
  lemma ReachesStep(tiles: seq<seq<TileType>>, p: Position, x: Position, q: Position)
    requires WfTiles(tiles) && InGrid(p) && x in Succ(tiles, p) && Reaches(tiles, x, q)
    ensures Reaches(tiles, p, q)
  {
    var s :| IsPath(tiles, s) && s[0] == x && s[|s| - 1] == q;
    var t := [p] + s;
    assert forall i :: 1 <= i < |t| ==> t[i] == s[i - 1];
    assert IsPath(tiles, t);
  }

  /** A set closed under stepping holds everything reachable from its
      members. */
  lemma {:induction false} ClosedHoldsPath(tiles: seq<seq<TileType>>, r: set<Position>, s: seq<Position>, n: nat)
    requires WfTiles(tiles) && IsPath(tiles, s) && s[0] in r && n < |s|
    requires forall q :: q in r && InGrid(q) ==> Succ(tiles, q) <= r
    ensures s[n] in r
    decreases n
  {
    if n > 0 {
      ClosedHoldsPath(tiles, r, s, n - 1);
    }
  }

  // ---------------------------------------------------------------------
  // Propagation

  /** Every beam state of the grid. */
  ghost function AllPositions(): set<Position>
  {
    set r: nat, c: nat, d: Dir | r < Size && c < Size && d in {Up, Down, Left, Right} :: Position(r, c, d)
  }

  lemma InAll(p: Position)
    requires InGrid(p)
    ensures p in AllPositions()
  {
    assert p.dir == Up || p.dir == Down || p.dir == Left || p.dir == Right;
    assert p == Position(p.row, p.col, p.dir);
  }

  /** The directions still unset over the whole grid: the bitmasks only
      grow, so this bounds the recursion. */
  ghost function Unvisited(seen: set<Position>): nat
  {
    |AllPositions() - seen|
  }

  lemma UnvisitedShrinks(seen: set<Position>, p: Position)
    requires InGrid(p) && p !in seen
    ensures Unvisited(seen + {p}) < Unvisited(seen)
  {
    InAll(p);
    var before := AllPositions() - seen;
    assert p in before;
    assert AllPositions() - (seen + {p}) == before - {p};
    assert |before - {p}| == |before| - 1;
  }

  lemma UnvisitedMono(a: set<Position>, b: set<Position>)
    requires a <= b
    ensures Unvisited(b) <= Unvisited(a)
  {
    SubsetCard(AllPositions() - b, AllPositions() - a);
  }

  /** `propogate`: stop if the tile already has the beam's bit, else set
      it and follow the beams that leave the tile.  The result holds the
      beams seen before, the new beam, and, of the new ones, only beams it
      reaches, all of whose successors it holds too. */
  function Propagate(tiles: seq<seq<TileType>>, seen: set<Position>, p: Position): (r: set<Position>)
    requires WfTiles(tiles) && InGrid(p) && forall q :: q in seen ==> InGrid(q)
    ensures seen <= r && p in r
    ensures forall q :: q in r ==> InGrid(q)
    ensures forall q :: q in r && q !in seen ==> Succ(tiles, q) <= r && Reaches(tiles, p, q)
    decreases Unvisited(seen), 0, 0
  {
    if p in seen then seen
    else
      UnvisitedShrinks(seen, p);
      var r := FollowEach(tiles, seen + {p}, p, 0);
      LandsSucc(tiles, p, r);
      ReachesSelf(tiles, p);
      r
  }

  /** One beam leaving a tile: step on, and propagate unless it left the
      grid. */
  function Follow(tiles: seq<seq<TileType>>, seen: set<Position>, o: Position): (r: set<Position>)
    requires WfTiles(tiles) && InGrid(o) && forall q :: q in seen ==> InGrid(q)
    ensures seen <= r
    ensures Next(o).Some? ==> Next(o).value in r
    ensures forall q :: q in r ==> InGrid(q)
    ensures forall q :: q in r && q !in seen ==>
      Succ(tiles, q) <= r && Next(o).Some? && Reaches(tiles, Next(o).value, q)
    decreases Unvisited(seen), 1, 0
  {
    match Next(o)
    case None => seen
    case Some(q) => Propagate(tiles, seen, q)
  }

  /** The beams leaving tile `from`, from the `k`-th on, one after
      another, each continuing with the tiles the earlier ones have
      marked. */
  function FollowEach(tiles: seq<seq<TileType>>, seen: set<Position>, from: Position, k: nat): (r: set<Position>)
    requires WfTiles(tiles) && InGrid(from) && from in seen && forall q :: q in seen ==> InGrid(q)
    requires k <= |Outgoing(tiles[from.row][from.col], from)|
    ensures seen <= r
    ensures forall q :: q in r ==> InGrid(q)
    ensures forall i :: k <= i < |Outgoing(tiles[from.row][from.col], from)| ==> Lands(tiles, from, i, r)
    ensures forall q :: q in r && q !in seen ==> Succ(tiles, q) <= r && Reaches(tiles, from, q)
    decreases Unvisited(seen), 2, |Outgoing(tiles[from.row][from.col], from)| - k
  {
    var outs := Outgoing(tiles[from.row][from.col], from);
    if k == |outs| then seen
    else
      var mid := Follow(tiles, seen, outs[k]);
      UnvisitedMono(seen, mid);
      var r := FollowEach(tiles, mid, from, k + 1);
      FollowEachStep(tiles, seen, from, k, mid, r);
      r
  }

  /** The `i`-th beam leaving `from` has either left the grid or is in
      `r`. */
  ghost predicate Lands(tiles: seq<seq<TileType>>, from: Position, i: nat, r: set<Position>)
    requires WfTiles(tiles) && InGrid(from) && i < |Outgoing(tiles[from.row][from.col], from)|
  {
    var o := Outgoing(tiles[from.row][from.col], from)[i];
    Next(o).Some? ==> Next(o).value in r
  }

  /** When every beam leaving `from` has landed in `r`, `r` holds all
      successors of `from`. */
  lemma LandsSucc(tiles: seq<seq<TileType>>, from: Position, r: set<Position>)
    requires WfTiles(tiles) && InGrid(from)
    requires forall i :: 0 <= i < |Outgoing(tiles[from.row][from.col], from)| ==> Lands(tiles, from, i, r)
    ensures Succ(tiles, from) <= r
  {
    var outs := Outgoing(tiles[from.row][from.col], from);
    forall x | x in Succ(tiles, from)
      ensures x in r
    {
      var i :| 0 <= i < |outs| && Next(outs[i]).Some? && Next(outs[i]).value == x;
      assert Lands(tiles, from, i, r);
    }
  }

  /** The bookkeeping of one round of `FollowEach`. */
  lemma FollowEachStep(tiles: seq<seq<TileType>>, seen: set<Position>, from: Position, k: nat,
                       mid: set<Position>, r: set<Position>)
    requires WfTiles(tiles) && InGrid(from) && k < |Outgoing(tiles[from.row][from.col], from)|
    requires seen <= mid <= r && forall q :: q in r ==> InGrid(q)
    requires var o := Outgoing(tiles[from.row][from.col], from)[k];
      (Next(o).Some? ==> Next(o).value in mid) &&
      forall q :: q in mid && q !in seen ==>
        Succ(tiles, q) <= mid && Next(o).Some? && Reaches(tiles, Next(o).value, q)
    requires forall i :: k + 1 <= i < |Outgoing(tiles[from.row][from.col], from)| ==> Lands(tiles, from, i, r)
    requires forall q :: q in r && q !in mid ==> Succ(tiles, q) <= r && Reaches(tiles, from, q)
    ensures forall i :: k <= i < |Outgoing(tiles[from.row][from.col], from)| ==> Lands(tiles, from, i, r)
    ensures forall q :: q in r && q !in seen ==> Succ(tiles, q) <= r && Reaches(tiles, from, q)
  {
    var outs := Outgoing(tiles[from.row][from.col], from);
    assert Lands(tiles, from, k, r);
    forall q | q in mid && q !in seen
      ensures Reaches(tiles, from, q)
    {
      assert Next(outs[k]).value in Succ(tiles, from);
      ReachesStep(tiles, from, Next(outs[k]).value, q);
    }
  }

  /** The beams energised from `start` on an untouched grid are exactly the
      beams it reaches. */
  function Energized(tiles: seq<seq<TileType>>, start: Position): (r: set<Position>)
    requires WfTiles(tiles) && InGrid(start)
    ensures forall q :: q in r ==> InGrid(q)
    ensures forall q :: q in r <==> InGrid(q) && Reaches(tiles, start, q)
  {
    var r := Propagate(tiles, {}, start);
    forall q | InGrid(q) && Reaches(tiles, start, q)
      ensures q in r
    {
      var s :| IsPath(tiles, s) && s[0] == start && s[|s| - 1] == q;
      ClosedHoldsPath(tiles, r, s, |s| - 1);
    }
    r
  }

  // ---------------------------------------------------------------------
  // Counting energised tiles

  /** The tiles some beam has crossed. */
  function Tiles(beams: set<Position>): set<(nat, nat)>
  {
    set p | p in beams :: (p.row, p.col)
  }

  /** A tile is counted exactly when its bitmask is non-zero. */
  lemma TilesMask(beams: set<Position>, row: nat, col: nat)
    ensures (row, col) in Tiles(beams) <==> Mask(beams, row, col) != 0
  {
    MaskBits(beams, row, col, Up);
    if (row, col) in Tiles(beams) {
      var p :| p in beams && (p.row, p.col) == (row, col);
      assert Position(row, col, p.dir) in beams;
    }
  }

  /** The tiles of the grid some beam from `start` crosses, in any
      direction. */
  ghost function Lit(tiles: seq<seq<TileType>>, start: Position): set<(nat, nat)>
    requires WfTiles(tiles)
  {
    set row: nat, col: nat | row < Size && col < Size && exists d: Dir :: Reaches(tiles, start, Position(row, col, d)) :: (row, col)
  }

  /** The tiles crossed by the energised beams are the lit tiles. */
  lemma TilesLit(tiles: seq<seq<TileType>>, start: Position)
    requires WfTiles(tiles) && InGrid(start)
    ensures Tiles(Energized(tiles, start)) == Lit(tiles, start)
  {
    var beams := Energized(tiles, start);
    forall x | x in Tiles(beams)
      ensures x in Lit(tiles, start)
    {
      var p :| p in beams && (p.row, p.col) == x;
      assert Reaches(tiles, start, Position(x.0, x.1, p.dir));
    }
    forall x | x in Lit(tiles, start)
      ensures x in Tiles(beams)
    {
      var d: Dir :| Reaches(tiles, start, Position(x.0, x.1, d));
      assert Position(x.0, x.1, d) in beams;
    }
  }

  /** The number of energised tiles: the tiles some beam from `start`
      crosses, at least the start tile and at most the whole grid. */
  function EnergizedCount(tiles: seq<seq<TileType>>, start: Position): (n: nat)
    requires WfTiles(tiles) && InGrid(start)
    ensures n == |Lit(tiles, start)|
    ensures 1 <= n <= Size * Size
  {
    var beams := Energized(tiles, start);
    ReachesSelf(tiles, start);
    var t := Tiles(beams);
    assert (start.row, start.col) in t;
    GridCard(t);
    TilesLit(tiles, start);
    |t|
  }

  /** A set of tiles of the grid has at most `Size * Size` members. */
  lemma GridCard(t: set<(nat, nat)>)
    requires forall x :: x in t ==> x.0 < Size && x.1 < Size
    ensures |t| <= Size * Size
  {
    ImageCard(t);
    assert forall x :: x in t ==> Index(x) < Size * Size;
    BelowCard(Numbering(t), Size * Size);
  }

  /** Tiles numbered row by row. */
  function Index(x: (nat, nat)): nat
  {
    x.0 * Size + x.1
  }

  function Numbering(t: set<(nat, nat)>): set<nat>
  {
    set x | x in t :: Index(x)
  }

  /** Numbering the tiles row by row loses none. */
  lemma {:induction false} ImageCard(t: set<(nat, nat)>)
    requires forall x :: x in t ==> x.1 < Size
    ensures |Numbering(t)| == |t|
    decreases |t|
  {
    if |t| > 0 {
      var y :| y in t;
      var rest := t - {y};
      ImageCard(rest);
      assert Numbering(t) == Numbering(rest) + {Index(y)};
      assert Index(y) !in Numbering(rest) by {
        forall x | x in rest
          ensures Index(x) != Index(y)
        {
          NumberingInjective(x, y);
        }
      }
    }
  }

  lemma NumberingInjective(x: (nat, nat), y: (nat, nat))
    requires x.1 < Size && y.1 < Size && x != y
    ensures Index(x) != Index(y)
  {
  }

  // ---------------------------------------------------------------------
  // Parsing and the two parts

  /** The tile of a byte; anything unrecognised is empty. */
  function TileOf(c: char): TileType
  {
    match c
    case '/' => MirrorFS
    case '\\' => MirrorBS
    case '-' => SplitH
    case '|' => SplitV
    case _ => Empty
  }

  /** `parse_input`: the first 110 bytes of each of the first 110 lines;
      `None` where a line or a byte runs out and `unwrap` panics. */
  function ParseInput(input: string): (r: Option<seq<seq<TileType>>>)
    ensures r.Some? <==> |Lines(input)| >= Size && forall k :: 0 <= k < Size ==> |Lines(input)[k]| >= Size
    ensures r.Some? ==> WfTiles(r.value)
    ensures r.Some? ==>
      forall i, j :: 0 <= i < Size && 0 <= j < Size ==> r.value[i][j] == TileOf(Lines(input)[i][j])
  {
    var lines := Lines(input);
    if |lines| < Size || exists k :: 0 <= k < Size && |lines[k]| < Size then None
    else Some(TileGrid(lines))
  }

  /** The tiles of the top-left `Size` × `Size` corner of `lines`. */
  function TileGrid(lines: seq<string>): (r: seq<seq<TileType>>)
    requires |lines| >= Size && forall k :: 0 <= k < Size ==> |lines[k]| >= Size
    ensures WfTiles(r)
    ensures forall i, j :: 0 <= i < Size && 0 <= j < Size ==> r[i][j] == TileOf(lines[i][j])
  {
    seq(Size, i requires 0 <= i < Size => seq(Size, j requires 0 <= j < Size => TileOf(lines[i][j])))
  }

  /** `part_one`: the beam enters the top-left tile heading right. */
  function PartOne(input: string): (r: Option<int>)
    ensures r.Some? <==> ParseInput(input).Some?
    ensures r.Some? ==> r.value == |Lit(ParseInput(input).value, Position(0, 0, Right))|
    ensures r.Some? ==> 1 <= r.value <= Size * Size
  {
    var tiles :- ParseInput(input);
    Some(EnergizedCount(tiles, Position(0, 0, Right)))
  }

  /** The 440 entries of `part_two`, in the order of the chained
      iterators: leftwards along the right edge bottom to top, rightwards
      along the left edge top to bottom, upwards along the bottom edge
      right to left, downwards along the top edge left to right. */
  function Entries(): (r: seq<Position>)
    ensures |r| == 4 * Size
    ensures forall k :: 0 <= k < |r| ==> InGrid(r[k])
  {
    seq(Size, i requires 0 <= i < Size => Position(Size - 1 - i, Size - 1, Left)) +
    seq(Size, i requires 0 <= i < Size => Position(i, 0, Right)) +
    seq(Size, i requires 0 <= i < Size => Position(Size - 1, Size - 1 - i, Up)) +
    seq(Size, i requires 0 <= i < Size => Position(0, i, Down))
  }

  /** Every entry beam starts on an edge tile, heading into the grid. */
  lemma EntriesOnEdge(k: nat)
    requires k < 4 * Size
    ensures var p := Entries()[k];
      (p.dir == Left && p.col == Size - 1) || (p.dir == Right && p.col == 0) ||
      (p.dir == Up && p.row == Size - 1) || (p.dir == Down && p.row == 0)
  {
  }

  /** `part_two`: the largest energised count over the entries, each run
      on a fresh grid. */
  function PartTwo(input: string): (r: Option<int>)
    ensures r.Some? <==> ParseInput(input).Some?
    ensures r.Some? ==> IsBest(ParseInput(input).value, Entries(), r.value)
  {
    var tiles :- ParseInput(input);
    Some(Best(tiles, Entries()))
  }

  /** `n` is the largest count over the `entries`. */
  ghost predicate IsBest(tiles: seq<seq<TileType>>, entries: seq<Position>, n: int)
    requires WfTiles(tiles) && forall k :: 0 <= k < |entries| ==> InGrid(entries[k])
  {
    (forall k :: 0 <= k < |entries| ==> EnergizedCount(tiles, entries[k]) <= n) &&
    (exists k :: 0 <= k < |entries| && EnergizedCount(tiles, entries[k]) == n)
  }

  function Best(tiles: seq<seq<TileType>>, entries: seq<Position>): (n: int)
    requires WfTiles(tiles) && |entries| > 0 && forall k :: 0 <= k < |entries| ==> InGrid(entries[k])
    ensures IsBest(tiles, entries, n)
  {
    var counts := Counts(tiles, entries);
    var m := Seqs.Max(counts);
    assert m.Some?;
    assert IsBest(tiles, entries, m.value) by {
      var i :| 0 <= i < |counts| && counts[i] == m.value;
    }
    m.value
  }

  /** The energised count of each entry. */
  function Counts(tiles: seq<seq<TileType>>, entries: seq<Position>): (r: seq<int>)
    requires WfTiles(tiles) && forall k :: 0 <= k < |entries| ==> InGrid(entries[k])
    ensures |r| == |entries|
    ensures forall k :: 0 <= k < |entries| ==> r[k] == EnergizedCount(tiles, entries[k])
  {
    seq(|entries|, k requires 0 <= k < |entries| => EnergizedCount(tiles, entries[k]) as int)
  }
}
