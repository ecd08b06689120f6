/**
  The rule engine of the full game: board and reserves, the movable-cell
  filter, move execution with capture, promotion and the two win rules,
  drops from the reserve, selection, and the two click handlers.
  Every operation is a pure transition from one game record to the next.
 */
module Engine {
  import opened Wrappers
  import opened Geometry
  import opened Catalog

  /** Twelve cells, the cell of square (x, y) at index x + 3y. */
  type Board = b: seq<Option<Piece>> | |b| == Cells witness seq(12, i => None)

  /**
    The engine state. `selectedBench` is a position in the current player's
    reserve; the two selections are meant to be exclusive.
   */
  datatype Game = Game(
    board: Board,
    reserveTop: seq<Piece>,
    reserveBottom: seq<Piece>,
    currentPlayer: Player,
    finished: bool,
    selectedCell: Option<Square>,
    selectedBench: Option<nat>)
  {
    function At(p: Square): Option<Piece> {
      board[Index(p)]
    }

    function Reserve(p: Player): seq<Piece> {
      if p == Top then reserveTop else reserveBottom
    }

    /** Replaces one player's reserve and leaves everything else alone. */
    function WithReserve(p: Player, r: seq<Piece>): (g: Game)
      ensures g.Reserve(p) == r
      ensures g.Reserve(Opponent(p)) == Reserve(Opponent(p))
      ensures g.board == board && g.currentPlayer == currentPlayer && g.finished == finished
      ensures g.selectedCell == selectedCell && g.selectedBench == selectedBench
    {
      if p == Top then this.(reserveTop := r) else this.(reserveBottom := r)
    }
  }

  /** Pieces on the board plus pieces in both reserves. */
  function PieceCount(g: Game): nat {
    Occupied(g.board) + |g.reserveTop| + |g.reserveBottom|
  }

  /** A freshly constructed game: empty board and reserves, Bottom to move, nothing selected. */
  function NewGame(): (g: Game)
    ensures PieceCount(g) == 0
    ensures g.currentPlayer == Bottom && !g.finished
    ensures g.selectedCell.None? && g.selectedBench.None?
  {
    var empty: Board := seq(12, i => None);
    OccupiedNone(empty);
    Game(empty, [], [], Bottom, false, None, None)
  }

  /** Writes one cell (a piece or empty); the placement primitive used to set up a game. */
  function SetPiece(g: Game, pos: Square, piece: Option<Piece>): (r: Game)
    ensures r.At(pos) == piece
    ensures forall q: Square :: q != pos ==> r.At(q) == g.At(q)
    ensures r.Reserve(Top) == g.Reserve(Top) && r.Reserve(Bottom) == g.Reserve(Bottom)
    ensures r.currentPlayer == g.currentPlayer && r.finished == g.finished
    ensures r.selectedCell == g.selectedCell && r.selectedBench == g.selectedBench
  {
    g.(board := g.board[Index(pos) := piece])
  }

  function SwapPlayer(g: Game): (r: Game)
    ensures r.currentPlayer != g.currentPlayer
    ensures r.(currentPlayer := g.currentPlayer) == g
  {
    g.(currentPlayer := Opponent(g.currentPlayer))
  }

  /** True when a piece of `owner` may finish a step on `q`: on the board and not on its own side's piece. */
  predicate FreeFor(b: Board, q: Pos, owner: Player) {
    InBounds(q) && (b[Index(q)].None? || b[Index(q)].value.owner != owner)
  }

  /** The cells of `cells`, in order, where a piece of `owner` may land. */
  function Landable(b: Board, owner: Player, cells: seq<Pos>): (r: seq<Pos>)
    ensures |r| <= |cells|
    ensures forall q :: q in r <==> q in cells && FreeFor(b, q, owner)
    decreases |cells|
  {
    if |cells| == 0 then []
    else
      var rest := Landable(b, owner, cells[1..]);
      assert forall q :: q in cells <==> q == cells[0] || q in cells[1..];
      if FreeFor(b, cells[0], owner) then [cells[0]] + rest else rest
  }

  /** The destinations of `piece` on `from` that do not hold a piece of the same player. */
  function MovableCells(g: Game, from: Pos, piece: Piece): (r: seq<Pos>)
    ensures |r| <= |Destinations(from, piece)|
    ensures forall q :: q in r ==> q in Destinations(from, piece)
    ensures forall q :: q in r ==> FreeFor(g.board, q, piece.owner)
    ensures forall q :: q in Destinations(from, piece) && FreeFor(g.board, q, piece.owner) ==> q in r
  {
    Landable(g.board, piece.owner, Destinations(from, piece))
  }

  /** A move of `piece` from `from` to `to` is allowed exactly when `to` is among its movable cells. */
  function IsMovable(g: Game, piece: Piece, from: Pos, to: Pos): (b: bool)
    ensures b <==> to in Destinations(from, piece) && InBounds(to) &&
                   (g.board[Index(to)].None? || g.board[Index(to)].value.owner != piece.owner)
  {
    to in MovableCells(g, from, piece)
  }

  /** A Lion of `owner` stands somewhere on row `row`. */
  predicate LionOnRow(b: Board, owner: Player, row: int)
    requires 0 <= row < Height
  {
    exists x :: 0 <= x < Width && b[Index(Pos(x, row))] == Some(Piece(Lion, owner))
  }

  /**
    The try check run after the current player's move: it does not look at
    the mover's Lion but at the opponent's Lion on the mover's home row, and
    names the opponent as the winner.
   */
  function TryWinner(g: Game): (w: Option<Player>)
    ensures w.Some? <==> LionOnRow(g.board, Opponent(g.currentPlayer), HomeRow(g.currentPlayer))
    ensures w.Some? ==> w.value == Opponent(g.currentPlayer)
  {
    if g.currentPlayer == Top then
      if LionOnRow(g.board, Bottom, 0) then Some(Bottom) else None
    else
      if LionOnRow(g.board, Top, 3) then Some(Top) else None
  }

  /** A Chick moved by Bottom onto row 0, or by Top onto row 3, becomes a Chicken. */
  predicate Promotes(piece: Piece, mover: Player, to: Square) {
    piece.kind == Chick &&
    ((mover == Top && to.y == 3) || (mover == Bottom && to.y == 0))
  }

  /** The piece as it stands on `to` after the move. */
  function Arrived(piece: Piece, mover: Player, to: Square): (p: Piece)
    ensures p.owner == piece.owner
    ensures p.kind != piece.kind <==> piece.kind == Chick && to.y == HomeRow(Opponent(mover))
    ensures p.kind != piece.kind ==> p.kind == Chicken
  {
    if Promotes(piece, mover, to) then piece.(kind := Chicken) else piece
  }

  /** A captured piece as it enters the captor's reserve: new owner, Chicken back to Chick. */
  function Captured(c: Piece, captor: Player): (p: Piece)
    ensures p.owner == captor
    ensures p.kind == Demote(c.kind)
  {
    Piece(Demote(c.kind), captor)
  }

  /** The board after `piece` leaves `from` and arrives (possibly promoted) on `to`. */
  function Relocate(g: Game, piece: Piece, from: Square, to: Square): (b: Board)
    ensures b[Index(to)] == Some(Arrived(piece, g.currentPlayer, to))
    ensures from != to ==> b[Index(from)].None?
    ensures forall q: Square :: q != from && q != to ==> b[Index(q)] == g.At(q)
  {
    g.board[Index(from) := None][Index(to) := Some(Arrived(piece, g.currentPlayer, to))]
  }

  /**
    The winner announced after a move, if any: the mover when the captured
    piece is a Lion, otherwise whatever the try check finds on the board
    after the move.
   */
  function MoveWinner(g: Game, piece: Piece, from: Square, to: Square): (w: Option<Player>)
    ensures w == Some(g.currentPlayer) <==> g.At(to).Some? && g.At(to).value.kind == Lion
    ensures w == Some(Opponent(g.currentPlayer)) <==>
              && !(g.At(to).Some? && g.At(to).value.kind == Lion)
              && LionOnRow(Relocate(g, piece, from, to), Opponent(g.currentPlayer), HomeRow(g.currentPlayer))
  {
    var captured := g.At(to);
    if captured.Some? && captured.value.kind == Lion then Some(g.currentPlayer)
    else TryWinner(g.(board := Relocate(g, piece, from, to)))
  }

  /**
    Moves `piece` from `from` to `to`. An occupant of `to` is captured into the
    mover's reserve; a Chick reaching the far row promotes; a Lion capture or
    a successful try ends the game with the turn unchanged, otherwise the
    turn passes. The cell selection is cleared.
   */
  function MovePieceTo(g: Game, piece: Piece, from: Square, to: Square): (r: Game)
    ensures r.selectedCell.None? && r.selectedBench == g.selectedBench
    ensures r.At(to) == Some(Arrived(piece, g.currentPlayer, to))
    ensures from != to ==> r.At(from).None?
    ensures forall q: Square :: q != from && q != to ==> r.At(q) == g.At(q)
    ensures r.Reserve(Opponent(g.currentPlayer)) == g.Reserve(Opponent(g.currentPlayer))
    ensures g.At(to).None? ==> r.Reserve(g.currentPlayer) == g.Reserve(g.currentPlayer)
    ensures g.At(to).Some? ==>
              && |r.Reserve(g.currentPlayer)| == |g.Reserve(g.currentPlayer)| + 1
              && r.Reserve(g.currentPlayer)[..|g.Reserve(g.currentPlayer)|] == g.Reserve(g.currentPlayer)
              && r.Reserve(g.currentPlayer)[|g.Reserve(g.currentPlayer)|] == Captured(g.At(to).value, g.currentPlayer)
    ensures r.finished == (g.finished || MoveWinner(g, piece, from, to).Some?)
    ensures r.currentPlayer == g.currentPlayer <==> MoveWinner(g, piece, from, to).Some?
    ensures r.currentPlayer != g.currentPlayer ==> r.currentPlayer == Opponent(g.currentPlayer)
  {
    var mover := g.currentPlayer;
    var captured := g.At(to);
    var reserve := if captured.Some? then g.Reserve(mover) + [Captured(captured.value, mover)] else g.Reserve(mover);
    var moved := g.(board := Relocate(g, piece, from, to), selectedCell := None).WithReserve(mover, reserve);
    if MoveWinner(g, piece, from, to).Some? then moved.(finished := true)
    else SwapPlayer(moved)
  }

  /**
    Drops the selected reserve piece onto `to`: it leaves the current
    player's reserve (only that occurrence), lands unchanged on `to`
    (whatever stood there is overwritten), the reserve selection is cleared
    and the turn passes.
   */
  function PutPieceFromBench(g: Game, to: Square): (r: Game)
    requires g.selectedBench.Some? && g.selectedBench.value < |g.Reserve(g.currentPlayer)|
    ensures r.At(to) == Some(g.Reserve(g.currentPlayer)[g.selectedBench.value])
    ensures forall q: Square :: q != to ==> r.At(q) == g.At(q)
    ensures var i := g.selectedBench.value;
            var before := g.Reserve(g.currentPlayer);
            && r.Reserve(g.currentPlayer) == before[..i] + before[i + 1..]
            && multiset(r.Reserve(g.currentPlayer)) + multiset{before[i]} == multiset(before)
    ensures r.Reserve(Opponent(g.currentPlayer)) == g.Reserve(Opponent(g.currentPlayer))
    ensures r.selectedBench.None? && r.selectedCell == g.selectedCell
    ensures r.currentPlayer == Opponent(g.currentPlayer) && r.finished == g.finished
  {
    var mover := g.currentPlayer;
    var i := g.selectedBench.value;
    var reserve := g.Reserve(mover);
    var piece := reserve[i];
    assert reserve == reserve[..i] + [piece] + reserve[i + 1..];
    var placed := SetPiece(g, to, Some(piece)).WithReserve(mover, reserve[..i] + reserve[i + 1..]);
    SwapPlayer(placed.(selectedBench := None))
  }

  /** Selects the board cell `pos` and drops any reserve selection. */
  function SelectPieceOn(g: Game, pos: Square): (r: Game)
    ensures r.selectedCell == Some(pos) && r.selectedBench.None?
    ensures r.(selectedCell := g.selectedCell, selectedBench := g.selectedBench) == g
  {
    g.(selectedCell := Some(pos), selectedBench := None)
  }

  /** Selects the reserve piece at position `index` and drops any cell selection. */
  function SelectReserveOn(g: Game, index: nat): (r: Game)
    ensures r.selectedBench == Some(index) && r.selectedCell.None?
    ensures r.(selectedCell := g.selectedCell, selectedBench := g.selectedBench) == g
  {
    g.(selectedCell := None, selectedBench := Some(index))
  }

  /** The piece on `pos` belongs to the player to move. */
  predicate OwnPieceOn(g: Game, pos: Square) {
    g.At(pos).Some? && g.At(pos).value.owner == g.currentPlayer
  }

  /**
    A click on the piece in slot `index` of `side`'s reserve. Nothing happens
    once the game is over, for a slot without a piece, or for a piece the
    player to move does not own; otherwise that piece becomes the selection.
   */
  function OnBenchPieceClicked(g: Game, side: Player, index: nat): (r: Game)
    ensures g.finished ==> r == g
    ensures index < |g.Reserve(side)| && g.Reserve(side)[index].owner != g.currentPlayer ==> r == g
    ensures index >= |g.Reserve(side)| ==> r == g
    ensures !g.finished && index < |g.Reserve(side)| && g.Reserve(side)[index].owner == g.currentPlayer ==>
              r == SelectReserveOn(g, index)
    ensures r != g ==>
              && index < |g.Reserve(side)|
              && g.Reserve(side)[index].owner == g.currentPlayer
              && r == SelectReserveOn(g, index)
  {
    if index >= |g.Reserve(side)| then g
    else if g.finished || g.Reserve(side)[index].owner != g.currentPlayer then g
    else SelectReserveOn(g, index)
  }

  /**
    A click on board cell `pos`. Once the game is over nothing happens. A
    click on one's own piece selects it. Otherwise, with a cell selected, the
    selected piece moves to `pos` if that is one of its movable cells; with a
    reserve piece selected, that piece is dropped on `pos` without looking at
    what stands there.
   */
  function OnCellClicked(g: Game, pos: Square): (r: Game)
    ensures g.finished ==> r == g
    ensures !g.finished && OwnPieceOn(g, pos) ==> r == SelectPieceOn(g, pos)
    ensures !g.finished && !OwnPieceOn(g, pos) && g.selectedCell.Some? ==>
              var sel := g.selectedCell.value;
              if g.At(sel).Some? && IsMovable(g, g.At(sel).value, sel, pos)
              then r == MovePieceTo(g, g.At(sel).value, sel, pos)
              else r == g
    ensures !g.finished && !OwnPieceOn(g, pos) && g.selectedCell.None? && g.selectedBench.Some? ==>
              if g.selectedBench.value < |g.Reserve(g.currentPlayer)|
              then r == PutPieceFromBench(g, pos)
              else r == g
    ensures !g.finished && !OwnPieceOn(g, pos) && g.selectedCell.None? && g.selectedBench.None? ==> r == g
  {
    if g.finished then g
    else if OwnPieceOn(g, pos) then SelectPieceOn(g, pos)
    else if g.selectedCell.Some? then
      var sel := g.selectedCell.value;
      match g.At(sel)
      case None => g
      case Some(selected) =>
        if IsMovable(g, selected, sel, pos) then MovePieceTo(g, selected, sel, pos) else g
    else if g.selectedBench.Some? then
      if g.selectedBench.value < |g.Reserve(g.currentPlayer)| then PutPieceFromBench(g, pos) else g
    else g
  }
}
