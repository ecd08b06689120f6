/**
  The first prototype of the engine: only Lions and Chicks, no promotion,
  no demotion and no end of game. A click on one's own piece selects it; a
  click on one of the selected piece's targets moves it there, capturing
  whatever stood there into the mover's reserve, and the turn passes.
 */
module Prototype {
  import opened Wrappers
  import opened Geometry
  import Catalog

  datatype Kind = Lion | Chick

  datatype Piece = Piece(kind: Kind, owner: Player)

  /** The direction tables, written for the Bottom player. */
  function Directions(k: Kind): seq<Dir> {
    match k
    case Lion => [Dir(-1, 1), Dir(0, 1), Dir(1, 1),
                  Dir(-1, 0), Dir(1, 0),
                  Dir(-1, -1), Dir(0, -1), Dir(1, -1)]
    case Chick => [Dir(0, -1)]
  }

  /** The prototype's two tables are the ones the game later uses for the same pieces. */
  lemma DirectionsMatchCatalog()
    ensures Directions(Lion) == Catalog.Directions(Catalog.Lion)
    ensures Directions(Chick) == Catalog.Directions(Catalog.Chick)
  {
  }

  type Board = b: seq<Option<Piece>> | |b| == Cells witness seq(12, i => None)

  datatype App = App(
    board: Board,
    reserveTop: seq<Piece>,
    reserveBottom: seq<Piece>,
    currentPlayer: Player,
    selectedCell: Option<Square>)
  {
    function At(p: Square): Option<Piece> {
      board[Index(p)]
    }

    function Reserve(p: Player): seq<Piece> {
      if p == Top then reserveTop else reserveBottom
    }
  }

  function PieceCount(app: App): nat {
    Occupied(app.board) + |app.reserveTop| + |app.reserveBottom|
  }

  /**
    The targets of the piece on `cell`: one per direction, negated for Top,
    kept when on the board. Occupancy is not looked at.
   */
  function MovableCells(app: App, cell: Square): (r: seq<Pos>)
    requires app.At(cell).Some?
    ensures |r| <= |Directions(app.At(cell).value.kind)|
    ensures forall q :: q in r ==> InBounds(q)
    ensures forall q :: q in r <==>
              && InBounds(q)
              && exists d :: d in Directions(app.At(cell).value.kind) &&
                   q == (if app.At(cell).value.owner == Bottom then Pos(cell.x + d.dx, cell.y + d.dy)
                         else Pos(cell.x - d.dx, cell.y - d.dy))
  {
    var piece := app.At(cell).value;
    TargetsMembership(cell, Directions(piece.kind), piece.owner);
    Targets(cell, Directions(piece.kind), piece.owner)
  }

  /** The selected piece may go to `cell` when `cell` is one of its targets, whatever stands there. */
  function IsMovable(app: App, cell: Square): (b: bool)
    requires app.selectedCell.Some? && app.At(app.selectedCell.value).Some?
    ensures var sel := app.selectedCell.value;
            var piece := app.At(sel).value;
            b <==> exists d :: d in Directions(piece.kind) && cell == Target(sel, d, piece.owner)
  {
    cell in MovableCells(app, app.selectedCell.value)
  }

  /**
    Moves the selected piece to `cell`. The piece leaves its square first;
    a piece then found on `cell` changes owner and joins the end of the
    mover's reserve, keeping its kind. The selection is cleared and the turn
    always passes.
   */
  function MovePieceTo(app: App, cell: Square): (r: App)
    requires app.selectedCell.Some? && app.At(app.selectedCell.value).Some?
    ensures r.selectedCell.None?
    ensures r.currentPlayer == Opponent(app.currentPlayer)
    ensures r.At(cell) == app.At(app.selectedCell.value)
    ensures app.selectedCell.value != cell ==> r.At(app.selectedCell.value).None?
    ensures forall q: Square :: q != cell && q != app.selectedCell.value ==> r.At(q) == app.At(q)
    ensures r.Reserve(Opponent(app.currentPlayer)) == app.Reserve(Opponent(app.currentPlayer))
    ensures app.selectedCell.value != cell && app.At(cell).Some? ==>
              r.Reserve(app.currentPlayer) ==
              app.Reserve(app.currentPlayer) + [Piece(app.At(cell).value.kind, app.currentPlayer)]
    ensures app.selectedCell.value == cell || app.At(cell).None? ==>
              r.Reserve(app.currentPlayer) == app.Reserve(app.currentPlayer)
  {
    var mover := app.currentPlayer;
    var sel := app.selectedCell.value;
    var piece := app.At(sel);
    var emptied := app.board[Index(sel) := None];
    var found := emptied[Index(cell)];
    var reserve := if found.Some? then app.Reserve(mover) + [found.value.(owner := mover)] else app.Reserve(mover);
    var board := emptied[Index(cell) := piece];
    if mover == Top then App(board, reserve, app.reserveBottom, Bottom, None)
    else App(board, app.reserveTop, reserve, Top, None)
  }

  function SelectPieceOn(app: App, cell: Square): (r: App)
    ensures r.selectedCell == Some(cell)
    ensures r.(selectedCell := app.selectedCell) == app
  {
    app.(selectedCell := Some(cell))
  }

  predicate OwnPieceOn(app: App, cell: Square) {
    app.At(cell).Some? && app.At(cell).value.owner == app.currentPlayer
  }

  /**
    A click on `cell`: one's own piece is selected; otherwise, with a piece
    selected and `cell` among its targets, the piece moves there. Because the
    own-piece case comes first, no click moves a piece onto a piece of the
    same side.
   */
  function OnCellClicked(app: App, cell: Square): (r: App)
    ensures OwnPieceOn(app, cell) ==> r == SelectPieceOn(app, cell)
    ensures r.board != app.board ==>
              && !OwnPieceOn(app, cell)
              && app.selectedCell.Some? && app.At(app.selectedCell.value).Some?
              && cell in MovableCells(app, app.selectedCell.value)
              && r == MovePieceTo(app, cell)
    ensures !OwnPieceOn(app, cell) && app.selectedCell.Some? && app.At(app.selectedCell.value).Some? ==>
              if cell in MovableCells(app, app.selectedCell.value) then r == MovePieceTo(app, cell) else r == app
    ensures app.selectedCell.None? && !OwnPieceOn(app, cell) ==> r == app
  {
    if OwnPieceOn(app, cell) then SelectPieceOn(app, cell)
    else if app.selectedCell.Some? && app.At(app.selectedCell.value).Some? && IsMovable(app, cell) then
      MovePieceTo(app, cell)
    else app
  }

  /** The starting position: Lion and Chick for each side on the middle column, Bottom to move. */
  const StartBoard: Board := [
    None, Some(Piece(Lion, Top)), None,
    None, Some(Piece(Chick, Top)), None,
    None, Some(Piece(Chick, Bottom)), None,
    None, Some(Piece(Lion, Bottom)), None]

  function InitialApp(): App {
    App(StartBoard, [], [], Bottom, None)
  }

  lemma InitialPieceCount()
    ensures PieceCount(InitialApp()) == 4
    ensures InitialApp().At(Pos(1, 0)) == Some(Piece(Lion, Top))
    ensures InitialApp().At(Pos(1, 3)) == Some(Piece(Lion, Bottom))
  {
    assert Occupied(StartBoard) == 4;
  }

  /** A move keeps the number of pieces: a piece found on the target goes to the mover's reserve. */
  lemma MoveConservesPieces(app: App, cell: Square)
    requires app.selectedCell.Some? && app.At(app.selectedCell.value).Some?
    ensures PieceCount(MovePieceTo(app, cell)) == PieceCount(app)
  {
    var sel := app.selectedCell.value;
    var r := MovePieceTo(app, cell);
    var emptied := app.board[Index(sel) := None];
    OccupiedUpdate(app.board, Index(sel), None);
    OccupiedUpdate(emptied, Index(cell), app.At(sel));
    assert r.board == emptied[Index(cell) := app.At(sel)];
    assert |r.reserveTop| + |r.reserveBottom| ==
           |r.Reserve(app.currentPlayer)| + |r.Reserve(Opponent(app.currentPlayer))|;
    assert |app.reserveTop| + |app.reserveBottom| ==
           |app.Reserve(app.currentPlayer)| + |app.Reserve(Opponent(app.currentPlayer))|;
  }

  predicate ReserveOwnedBy(reserve: seq<Piece>, p: Player) {
    forall i :: 0 <= i < |reserve| ==> reserve[i].owner == p
  }

  /** A selected cell holds a piece of the player to move; each reserve holds its owner's pieces. */
  predicate Valid(app: App) {
    && (app.selectedCell.Some? ==> OwnPieceOn(app, app.selectedCell.value))
    && ReserveOwnedBy(app.reserveTop, Top)
    && ReserveOwnedBy(app.reserveBottom, Bottom)
  }

  lemma {:induction false} ClickKeepsValid(app: App, cell: Square)
    requires Valid(app)
    ensures Valid(OnCellClicked(app, cell))
    ensures PieceCount(OnCellClicked(app, cell)) == PieceCount(app)
  {
    var r := OnCellClicked(app, cell);
    if !OwnPieceOn(app, cell) && app.selectedCell.Some? && r != app {
      var mover := app.currentPlayer;
      MoveConservesPieces(app, cell);
      assert ReserveOwnedBy(r.Reserve(mover), mover);
      assert ReserveOwnedBy(r.Reserve(Opponent(mover)), Opponent(mover));
    }
  }

  /** The prototype after a sequence of cell clicks. */
  function Play(app: App, cells: seq<Square>): App
    decreases |cells|
  {
    if |cells| == 0 then app else Play(OnCellClicked(app, cells[0]), cells[1..])
  }

  /**
    Whatever the clicks, the prototype keeps its four pieces and a selected
    cell always holds a piece of the player to move.
   */
  lemma {:induction false} PlayKeepsValid(app: App, cells: seq<Square>)
    requires Valid(app)
    ensures Valid(Play(app, cells))
    ensures PieceCount(Play(app, cells)) == PieceCount(app)
    decreases |cells|
  {
    if |cells| > 0 {
      ClickKeepsValid(app, cells[0]);
      PlayKeepsValid(OnCellClicked(app, cells[0]), cells[1..]);
    }
  }

  lemma GamesFromStart(cells: seq<Square>)
    ensures var app := Play(InitialApp(), cells);
            && PieceCount(app) == 4
            && (app.selectedCell.Some? ==> OwnPieceOn(app, app.selectedCell.value))
  {
    InitialPieceCount();
    PlayKeepsValid(InitialApp(), cells);
  }
}
