/**
  The starting position of the full game: eight pieces, four per side,
  placed one cell at a time on a fresh game, with Bottom to move.
 */
module Setup {
  import opened Wrappers
  import opened Geometry
  import opened Catalog
  import opened Engine

  /** The placements, in the order the game is set up. */
  const Placement: seq<(Square, Piece)> := [
    (Pos(1, 0), Piece(Lion, Top)),
    (Pos(1, 1), Piece(Chick, Top)),
    (Pos(0, 0), Piece(Giraffe, Top)),
    (Pos(2, 0), Piece(Elephant, Top)),
    (Pos(1, 2), Piece(Chick, Bottom)),
    (Pos(1, 3), Piece(Lion, Bottom)),
    (Pos(0, 3), Piece(Elephant, Bottom)),
    (Pos(2, 3), Piece(Giraffe, Bottom))
  ]

  /** Applies the placements in order, each one a `SetPiece`. */
  function Place(g: Game, ps: seq<(Square, Piece)>): (r: Game)
    ensures r.Reserve(Top) == g.Reserve(Top) && r.Reserve(Bottom) == g.Reserve(Bottom)
    ensures r.currentPlayer == g.currentPlayer && r.finished == g.finished
    ensures r.selectedCell == g.selectedCell && r.selectedBench == g.selectedBench
    decreases |ps|
  {
    if |ps| == 0 then g else Place(SetPiece(g, ps[0].0, Some(ps[0].1)), ps[1..])
  }

  predicate DistinctSquares(ps: seq<(Square, Piece)>) {
    forall i, j :: 0 <= i < j < |ps| ==> ps[i].0 != ps[j].0
  }

  /**
    Placing pieces on distinct squares puts each piece on its square, leaves
    every other square alone, and adds one board piece per placement when
    the squares were empty.
   */
  lemma {:induction false} PlaceEffect(g: Game, ps: seq<(Square, Piece)>)
    requires DistinctSquares(ps)
    ensures forall i :: 0 <= i < |ps| ==> Place(g, ps).At(ps[i].0) == Some(ps[i].1)
    ensures forall q: Square :: (forall i :: 0 <= i < |ps| ==> ps[i].0 != q) ==> Place(g, ps).At(q) == g.At(q)
    ensures (forall i :: 0 <= i < |ps| ==> g.At(ps[i].0).None?) ==>
              Occupied(Place(g, ps).board) == Occupied(g.board) + |ps|
    decreases |ps|
  {
    if |ps| > 0 {
      var g1 := SetPiece(g, ps[0].0, Some(ps[0].1));
      assert DistinctSquares(ps[1..]) by {
        forall i, j | 0 <= i < j < |ps[1..]|
          ensures ps[1..][i].0 != ps[1..][j].0
        {
          assert ps[1..][i] == ps[i + 1] && ps[1..][j] == ps[j + 1];
        }
      }
      PlaceEffect(g1, ps[1..]);
      assert forall i :: 1 <= i < |ps| ==> ps[i] == ps[1..][i - 1];
      if forall i :: 0 <= i < |ps| ==> g.At(ps[i].0).None? {
        OccupiedUpdate(g.board, Index(ps[0].0), Some(ps[0].1));
        assert forall i :: 0 <= i < |ps[1..]| ==> g1.At(ps[1..][i].0).None?;
      }
    }
  }

  /** The game as `init` leaves it. */
  function InitialGame(): Game {
    Place(NewGame(), Placement)
  }

  /** The twelve cells of the starting position, row by row from Top's home row. */
  const StartBoard: seq<Option<Piece>> := [
    Some(Piece(Giraffe, Top)), Some(Piece(Lion, Top)), Some(Piece(Elephant, Top)),
    None, Some(Piece(Chick, Top)), None,
    None, Some(Piece(Chick, Bottom)), None,
    Some(Piece(Elephant, Bottom)), Some(Piece(Lion, Bottom)), Some(Piece(Giraffe, Bottom))]

  /**
    The starting position: the eight placements fill exactly these cells,
    the reserves are empty, Bottom is to move, nothing is selected and the
    game is running.
   */
  lemma InitialPosition()
    ensures InitialGame().board == StartBoard
    ensures InitialGame().Reserve(Top) == [] && InitialGame().Reserve(Bottom) == []
    ensures InitialGame().currentPlayer == Bottom && !InitialGame().finished
    ensures InitialGame().selectedCell.None? && InitialGame().selectedBench.None?
  {
  }

  /** Eight pieces start the game, four for each side. */
  lemma InitialPieceCount()
    ensures PieceCount(InitialGame()) == 8
  {
    InitialPosition();
    assert Occupied(StartBoard) == 8;
  }

  /** The starting position is point symmetric: mirroring a square swaps the owner and keeps the type. */
  lemma InitialPositionSymmetric(q: Square)
    ensures var g := InitialGame();
      && (g.At(q).None? <==> g.At(Mirror(q)).None?)
      && (g.At(q).Some? ==> g.At(Mirror(q)) == Some(Piece(g.At(q).value.kind, Opponent(g.At(q).value.owner))))
  {
    InitialPosition();
    var i := Index(q);
    assert Index(Mirror(q)) == Cells - 1 - i;
    StartBoardSymmetric(i);
  }

  /** Cell `i` and cell `11 - i` of the starting board hold the same type for opposite owners. */
  lemma StartBoardSymmetric(i: nat)
    requires i < Cells
    ensures StartBoard[i].None? <==> StartBoard[Cells - 1 - i].None?
    ensures StartBoard[i].Some? ==>
              StartBoard[Cells - 1 - i] == Some(Piece(StartBoard[i].value.kind, Opponent(StartBoard[i].value.owner)))
  {
  }
}
