/**
  Board geometry shared by both engines: the two players, board coordinates,
  the 3-column by 4-row bounds, the row-major cell layout, and the
  translation of a piece's direction table into target squares.
 */
module Geometry {
  import opened Wrappers

  /** The two sides. Top starts on row 0 and moves towards row 3; Bottom the reverse. */
  datatype Player = Top | Bottom

  function Opponent(p: Player): (q: Player)
    ensures q != p
  {
    if p == Top then Bottom else Top
  }

  const Width: int := 3
  const Height: int := 4
  const Cells: int := 12

  /** A board coordinate; not necessarily on the board. */
  datatype Pos = Pos(x: int, y: int)

  /** One entry of a direction table, written for the Bottom player. */
  datatype Dir = Dir(dx: int, dy: int)

  predicate InBounds(p: Pos) {
    0 <= p.x < Width && 0 <= p.y < Height
  }

  /** A coordinate that lies on the board. */
  type Square = p: Pos | InBounds(p) witness Pos(0, 0)

  /** The row on which a player's pieces start: row 0 for Top, the last row for Bottom. */
  function HomeRow(p: Player): (row: int)
    ensures 0 <= row < Height
  {
    if p == Top then 0 else Height - 1
  }

  /** Cells are stored row by row: the cell (x, y) lives at index x + 3y. */
  function Index(p: Square): (i: nat)
    ensures i < Cells
    ensures i % Width == p.x && i / Width == p.y
  {
    p.x + Width * p.y
  }

  /** The square stored at index i. */
  function SquareAt(i: nat): (p: Square)
    requires i < Cells
    ensures Index(p) == i
  {
    Pos(i % Width, i / Width)
  }

  /** Distinct squares occupy distinct cells, and every cell index names one square. */
  lemma IndexBijective(p: Square, q: Square)
    ensures Index(p) == Index(q) <==> p == q
    ensures SquareAt(Index(p)) == p
  {
  }

  /**
    The square reached from `pos` along direction `d` by a piece of `owner`:
    the direction is used as written for Bottom and negated for Top.
   */
  function Target(pos: Pos, d: Dir, owner: Player): (t: Pos)
    ensures owner == Bottom ==> t == Pos(pos.x + d.dx, pos.y + d.dy)
    ensures owner == Top ==> t == Pos(pos.x - d.dx, pos.y - d.dy)
  {
    var rev := if owner == Bottom then 1 else -1;
    Pos(pos.x + d.dx * rev, pos.y + d.dy * rev)
  }

  /**
    The in-bounds targets of a direction table, in table order, at most one
    per direction.
   */
  function Targets(pos: Pos, dirs: seq<Dir>, owner: Player): (r: seq<Pos>)
    ensures |r| <= |dirs|
    ensures forall q :: q in r ==> InBounds(q)
    decreases |dirs|
  {
    if |dirs| == 0 then []
    else
      var t := Target(pos, dirs[0], owner);
      var rest := Targets(pos, dirs[1..], owner);
      if InBounds(t) then [t] + rest else rest
  }

  /** A square is a target iff it is on the board and is the translate of one of the directions. */
  lemma {:induction false} TargetsMembership(pos: Pos, dirs: seq<Dir>, owner: Player)
    ensures forall q :: q in Targets(pos, dirs, owner) <==>
              InBounds(q) && exists d :: d in dirs && q == Target(pos, d, owner)
    decreases |dirs|
  {
    if |dirs| > 0 {
      TargetsMembership(pos, dirs[1..], owner);
      assert forall d :: d in dirs <==> d == dirs[0] || d in dirs[1..];
    }
  }

  /** The point reflection of the board through its centre. */
  function Mirror(p: Pos): (m: Pos)
    ensures InBounds(m) <==> InBounds(p)
    ensures m.x + p.x == Width - 1 && m.y + p.y == Height - 1
  {
    Pos(Width - 1 - p.x, Height - 1 - p.y)
  }

  function MirrorAll(s: seq<Pos>): (r: seq<Pos>)
    ensures |r| == |s|
    ensures forall i :: 0 <= i < |s| ==> r[i] == Mirror(s[i])
  {
    seq(|s|, i requires 0 <= i < |s| => Mirror(s[i]))
  }

  /**
    Point symmetry of the targets: what a Top piece reaches from `pos` is the
    mirror image of what a Bottom piece with the same table reaches from the
    mirrored square, in the same order.
   */
  lemma {:induction false} TargetsPointSymmetry(pos: Pos, dirs: seq<Dir>)
    ensures Targets(pos, dirs, Top) == MirrorAll(Targets(Mirror(pos), dirs, Bottom))
    decreases |dirs|
  {
    if |dirs| > 0 {
      TargetsPointSymmetry(pos, dirs[1..]);
      var t := Target(Mirror(pos), dirs[0], Bottom);
      assert Target(pos, dirs[0], Top) == Mirror(t);
      var rest := Targets(Mirror(pos), dirs[1..], Bottom);
      if InBounds(t) {
        assert MirrorAll([t] + rest) == [Mirror(t)] + MirrorAll(rest);
      }
    }
  }

  /** Number of occupied cells. */
  function Occupied<T>(b: seq<Option<T>>): (n: nat)
    ensures n <= |b|
  {
    if |b| == 0 then 0
    else (if b[0].Some? then 1 else 0) + Occupied(b[1..])
  }

  /** A board without pieces counts none. */
  lemma {:induction false} OccupiedNone<T>(b: seq<Option<T>>)
    requires forall i :: 0 <= i < |b| ==> b[i].None?
    ensures Occupied(b) == 0
    decreases |b|
  {
    if |b| > 0 {
      OccupiedNone(b[1..]);
    }
  }

  /** Writing one cell changes the occupied count by the difference in that cell only. */
  lemma {:induction false} OccupiedUpdate<T>(b: seq<Option<T>>, i: nat, v: Option<T>)
    requires i < |b|
    ensures Occupied(b[i := v]) + (if b[i].Some? then 1 else 0)
         == Occupied(b) + (if v.Some? then 1 else 0)
    decreases |b|
  {
    if i > 0 {
      assert b[i := v][1..] == b[1..][i - 1 := v];
      OccupiedUpdate(b[1..], i - 1, v);
    } else {
      assert b[i := v][1..] == b[1..];
    }
  }
}
