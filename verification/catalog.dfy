/**
  The piece catalog of the full game: five piece types, each with a fixed
  direction table written for the Bottom player, and the one-step
  destinations of a piece standing on a given square.
 */
module Catalog {
  import opened Geometry

  datatype PieceType = Lion | Elephant | Giraffe | Chick | Chicken

  /** A piece: its type changes on promotion and demotion, its owner on capture. */
  datatype Piece = Piece(kind: PieceType, owner: Player)

  /** The direction tables, in the order the source lists them. */
  function Directions(t: PieceType): seq<Dir>
  {
    match t
    case Lion => [Dir(-1, 1), Dir(0, 1), Dir(1, 1),
                  Dir(-1, 0), Dir(1, 0),
                  Dir(-1, -1), Dir(0, -1), Dir(1, -1)]
    case Elephant => [Dir(-1, -1), Dir(1, -1), Dir(-1, 1), Dir(1, 1)]
    case Giraffe => [Dir(0, -1), Dir(-1, 0), Dir(1, 0), Dir(0, 1)]
    case Chick => [Dir(0, -1)]
    case Chicken => [Dir(-1, -1), Dir(0, -1), Dir(1, -1),
                     Dir(-1, 0), Dir(0, 1), Dir(1, 0)]
  }

  /** A single step: every direction moves at most one square each way and never stands still. */
  lemma DirectionsAreSingleSteps(t: PieceType)
    ensures forall d :: d in Directions(t) ==>
              -1 <= d.dx <= 1 && -1 <= d.dy <= 1 && d != Dir(0, 0)
    ensures forall i, j :: 0 <= i < j < |Directions(t)| ==> Directions(t)[i] != Directions(t)[j]
  {
    match t
    case Lion =>
    case Elephant =>
    case Giraffe =>
    case Chick =>
    case Chicken =>
  }

  /**
    The squares a piece on `pos` could step to, ignoring occupancy: one
    candidate per direction (negated for Top), kept when it lies on the board.
   */
  function Destinations(pos: Pos, piece: Piece): (r: seq<Pos>)
    ensures |r| <= |Directions(piece.kind)|
    ensures forall q :: q in r ==> InBounds(q)
    ensures forall q :: q in r <==>
              && InBounds(q)
              && exists d :: d in Directions(piece.kind) &&
                   q == (if piece.owner == Bottom then Pos(pos.x + d.dx, pos.y + d.dy)
                         else Pos(pos.x - d.dx, pos.y - d.dy))
  {
    TargetsMembership(pos, Directions(piece.kind), piece.owner);
    Targets(pos, Directions(piece.kind), piece.owner)
  }

  /** A piece never counts its own square among its destinations. */
  lemma DestinationsExcludeOrigin(pos: Pos, piece: Piece)
    ensures pos !in Destinations(pos, piece)
  {
    DirectionsAreSingleSteps(piece.kind);
  }

  /**
    Point symmetry: a Top piece on (x, y) reaches exactly the mirror images
    (2 - x', 3 - y') of what a Bottom piece of the same type reaches from
    (2 - x, 3 - y), in the same order.
   */
  lemma DestinationsPointSymmetry(pos: Pos, t: PieceType)
    ensures Destinations(pos, Piece(t, Top)) == MirrorAll(Destinations(Mirror(pos), Piece(t, Bottom)))
    ensures forall q :: q in Destinations(pos, Piece(t, Top)) <==>
              Mirror(q) in Destinations(Mirror(pos), Piece(t, Bottom))
  {
    TargetsPointSymmetry(pos, Directions(t));
    var top := Destinations(pos, Piece(t, Top));
    var bottom := Destinations(Mirror(pos), Piece(t, Bottom));
    forall q
      ensures q in top <==> Mirror(q) in bottom
    {
      if q in top {
        var i :| 0 <= i < |top| && top[i] == q;
        assert Mirror(q) == bottom[i];
      }
      if Mirror(q) in bottom {
        var i :| 0 <= i < |bottom| && bottom[i] == Mirror(q);
        assert top[i] == q;
      }
    }
  }

  /** The type a captured piece takes in its captor's reserve: a Chicken reverts to a Chick. */
  function Demote(t: PieceType): (r: PieceType)
    ensures r != Chicken
    ensures t == Chicken ==> r == Chick
    ensures t != Chicken ==> r == t
  {
    if t == Chicken then Chick else t
  }
}
