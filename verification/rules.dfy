/**
  Facts about the engine across calls: piece conservation for moves and
  drops, the selection invariant kept by every click, the turn discipline
  of a click, and whole games played as sequences of clicks from the
  starting position.
 */
module Rules {
  import opened Wrappers
  import opened Geometry
  import opened Catalog
  import opened Engine
  import opened Setup

  /** A legal move keeps the number of pieces: a captured piece moves to a reserve. */
  lemma MoveConservesPieces(g: Game, piece: Piece, from: Square, to: Square)
    requires g.At(from) == Some(piece) && from != to
    ensures PieceCount(MovePieceTo(g, piece, from, to)) == PieceCount(g)
  {
    var r := MovePieceTo(g, piece, from, to);
    var b1 := g.board[Index(from) := None];
    OccupiedUpdate(g.board, Index(from), None);
    OccupiedUpdate(b1, Index(to), Some(Arrived(piece, g.currentPlayer, to)));
    assert r.board == b1[Index(to) := Some(Arrived(piece, g.currentPlayer, to))];
    assert |r.reserveTop| + |r.reserveBottom| ==
           |r.Reserve(g.currentPlayer)| + |r.Reserve(Opponent(g.currentPlayer))|;
    assert |g.reserveTop| + |g.reserveBottom| ==
           |g.Reserve(g.currentPlayer)| + |g.Reserve(Opponent(g.currentPlayer))|;
  }

  /**
    A drop keeps the number of pieces when the target is empty; when the
    target holds a piece, that piece is overwritten and one piece is lost.
   */
  lemma DropPieceCount(g: Game, to: Square)
    requires g.selectedBench.Some? && g.selectedBench.value < |g.Reserve(g.currentPlayer)|
    ensures g.At(to).None? ==> PieceCount(PutPieceFromBench(g, to)) == PieceCount(g)
    ensures g.At(to).Some? ==> PieceCount(PutPieceFromBench(g, to)) + 1 == PieceCount(g)
  {
    var r := PutPieceFromBench(g, to);
    OccupiedUpdate(g.board, Index(to), r.At(to));
    assert r.board == g.board[Index(to) := r.At(to)];
    assert |r.reserveTop| + |r.reserveBottom| ==
           |r.Reserve(g.currentPlayer)| + |r.Reserve(Opponent(g.currentPlayer))|;
    assert |g.reserveTop| + |g.reserveBottom| ==
           |g.Reserve(g.currentPlayer)| + |g.Reserve(Opponent(g.currentPlayer))|;
  }

  predicate ReserveOwnedBy(reserve: seq<Piece>, p: Player) {
    forall i :: 0 <= i < |reserve| ==> reserve[i].owner == p
  }

  /**
    The invariant the click handlers keep: at most one selection, a selected
    cell holds a piece of the player to move, a selected reserve slot exists
    in that player's reserve, and each reserve holds only its owner's pieces.
   */
  predicate Valid(g: Game) {
    && !(g.selectedCell.Some? && g.selectedBench.Some?)
    && (g.selectedCell.Some? ==> OwnPieceOn(g, g.selectedCell.value))
    && (g.selectedBench.Some? ==> g.selectedBench.value < |g.Reserve(g.currentPlayer)|)
    && ReserveOwnedBy(g.reserveTop, Top)
    && ReserveOwnedBy(g.reserveBottom, Bottom)
  }

  lemma InitialGameValid()
    ensures Valid(InitialGame())
  {
    InitialPosition();
  }

  lemma {:induction false} CellClickKeepsValid(g: Game, pos: Square)
    requires Valid(g)
    ensures Valid(OnCellClicked(g, pos))
  {
    var r := OnCellClicked(g, pos);
    var mover := g.currentPlayer;
    if !g.finished && !OwnPieceOn(g, pos) && g.selectedCell.Some? && r != g {
      var sel := g.selectedCell.value;
      var c := g.At(pos);
      assert r.Reserve(mover) == g.Reserve(mover) || r.Reserve(mover) == g.Reserve(mover) + [Captured(c.value, mover)];
      assert ReserveOwnedBy(r.Reserve(mover), mover);
      assert ReserveOwnedBy(r.Reserve(Opponent(mover)), Opponent(mover));
    } else if !g.finished && !OwnPieceOn(g, pos) && g.selectedCell.None? && r != g {
      var i := g.selectedBench.value;
      var before := g.Reserve(mover);
      assert r.Reserve(mover) == before[..i] + before[i + 1..];
      assert ReserveOwnedBy(r.Reserve(mover), mover);
      assert ReserveOwnedBy(r.Reserve(Opponent(mover)), Opponent(mover));
    }
  }

  lemma BenchClickKeepsValid(g: Game, side: Player, index: nat)
    requires Valid(g)
    ensures Valid(OnBenchPieceClicked(g, side, index))
  {
  }

  /**
    A click either changes nothing but the selection, or commits a move or a
    drop: then the turn passes, or the game ends with the turn unchanged.
   */
  lemma {:induction false} CellClickTurn(g: Game, pos: Square)
    requires Valid(g)
    ensures var r := OnCellClicked(g, pos);
      || (&& r.board == g.board && r.reserveTop == g.reserveTop && r.reserveBottom == g.reserveBottom
          && r.currentPlayer == g.currentPlayer && r.finished == g.finished)
      || (&& r.board != g.board && !g.finished
          && r.selectedCell.None? && r.selectedBench.None?
          && (|| (r.currentPlayer == Opponent(g.currentPlayer) && !r.finished)
              || (r.currentPlayer == g.currentPlayer && r.finished)))
  {
    var r := OnCellClicked(g, pos);
    if !g.finished && !OwnPieceOn(g, pos) && g.selectedCell.Some? && r != g {
      var sel := g.selectedCell.value;
      DestinationsExcludeOrigin(sel, g.At(sel).value);
      assert sel != pos;
      assert r.At(sel).None?;
    } else if !g.finished && !OwnPieceOn(g, pos) && g.selectedCell.None? && r != g {
      assert r.At(pos) != g.At(pos);
    }
  }

  /** The click the source lets through: a reserve piece dropped onto an opponent's piece. */
  predicate OverwritingDrop(g: Game, pos: Square) {
    && !g.finished && !OwnPieceOn(g, pos) && g.At(pos).Some?
    && g.selectedCell.None? && g.selectedBench.Some?
    && g.selectedBench.value < |g.Reserve(g.currentPlayer)|
  }

  /** Every click keeps the number of pieces except an overwriting drop, which loses one. */
  lemma CellClickPieceCount(g: Game, pos: Square)
    requires Valid(g)
    ensures PieceCount(OnCellClicked(g, pos)) + (if OverwritingDrop(g, pos) then 1 else 0) == PieceCount(g)
  {
    if !g.finished && !OwnPieceOn(g, pos) {
      if g.selectedCell.Some? {
        var sel := g.selectedCell.value;
        if IsMovable(g, g.At(sel).value, sel, pos) {
          DestinationsExcludeOrigin(sel, g.At(sel).value);
          MoveConservesPieces(g, g.At(sel).value, sel, pos);
        }
      } else if g.selectedBench.Some? {
        DropPieceCount(g, pos);
      }
    }
  }

  /**
    The click handler with the target check the drop is missing: a drop onto
    an occupied cell is ignored. It keeps the invariant and the piece count.
   */
  function OnCellClickedChecked(g: Game, pos: Square): (r: Game)
    ensures Valid(g) ==> Valid(r) && PieceCount(r) == PieceCount(g)
    ensures OverwritingDrop(g, pos) ==> r == g
    ensures !OverwritingDrop(g, pos) ==> r == OnCellClicked(g, pos)
  {
    if OverwritingDrop(g, pos) then g
    else
      var r := OnCellClicked(g, pos);
      if Valid(g) then
        CellClickKeepsValid(g, pos);
        CellClickPieceCount(g, pos);
        r
      else r
  }

  /** A user input: a board cell, or a slot of one side's reserve. */
  datatype Click = CellClick(pos: Square) | BenchClick(side: Player, index: nat)

  function Dispatch(g: Game, c: Click): Game {
    match c
    case CellClick(pos) => OnCellClicked(g, pos)
    case BenchClick(side, index) => OnBenchPieceClicked(g, side, index)
  }

  function DispatchChecked(g: Game, c: Click): Game {
    match c
    case CellClick(pos) => OnCellClickedChecked(g, pos)
    case BenchClick(side, index) => OnBenchPieceClicked(g, side, index)
  }

  /** The game after a sequence of clicks, handled one at a time. */
  function Play(g: Game, clicks: seq<Click>): Game
    decreases |clicks|
  {
    if |clicks| == 0 then g else Play(Dispatch(g, clicks[0]), clicks[1..])
  }

  function PlayChecked(g: Game, clicks: seq<Click>): Game
    decreases |clicks|
  {
    if |clicks| == 0 then g else PlayChecked(DispatchChecked(g, clicks[0]), clicks[1..])
  }

  lemma {:induction false} PlayKeepsValid(g: Game, clicks: seq<Click>)
    requires Valid(g)
    ensures Valid(Play(g, clicks))
    decreases |clicks|
  {
    if |clicks| > 0 {
      match clicks[0] {
        case CellClick(pos) => CellClickKeepsValid(g, pos);
        case BenchClick(side, index) => BenchClickKeepsValid(g, side, index);
      }
      PlayKeepsValid(Dispatch(g, clicks[0]), clicks[1..]);
    }
  }

  lemma {:induction false} PlayCheckedKeepsPieces(g: Game, clicks: seq<Click>)
    requires Valid(g)
    ensures Valid(PlayChecked(g, clicks))
    ensures PieceCount(PlayChecked(g, clicks)) == PieceCount(g)
    decreases |clicks|
  {
    if |clicks| > 0 {
      match clicks[0] {
        case CellClick(pos) =>
        case BenchClick(side, index) => BenchClickKeepsValid(g, side, index);
      }
      PlayCheckedKeepsPieces(DispatchChecked(g, clicks[0]), clicks[1..]);
    }
  }

  /**
    Whatever the clicks, a game from the starting position never has both a
    cell and a reserve piece selected; with the drop check in place it
    always has its eight pieces.
   */
  lemma GamesFromStart(clicks: seq<Click>)
    ensures var g := Play(InitialGame(), clicks);
            !(g.selectedCell.Some? && g.selectedBench.Some?)
    ensures PieceCount(PlayChecked(InitialGame(), clicks)) == 8
  {
    InitialGameValid();
    InitialPieceCount();
    PlayKeepsValid(InitialGame(), clicks);
    PlayCheckedKeepsPieces(InitialGame(), clicks);
  }

  /**
    Six clicks from the start: Bottom's Chick takes Top's Chick, Top moves its
    Giraffe, Bottom selects the captured Chick and clicks Top's Lion.
   */
  const ErasingClicks: seq<Click> := [
    CellClick(Pos(1, 2)), CellClick(Pos(1, 1)),
    CellClick(Pos(0, 0)), CellClick(Pos(0, 1)),
    BenchClick(Bottom, 0), CellClick(Pos(1, 0))]

  /** The starting position with Bottom's Chick on (1, 2) selected. */
  const ChickSelected: Game := Game(
    StartBoard, [], [], Bottom, false, Some(Pos(1, 2)), None)

  /** The position after Bottom's Chick has taken Top's Chick on (1, 1). */
  const AfterCapture: Game := Game(
    [Some(Piece(Giraffe, Top)), Some(Piece(Lion, Top)), Some(Piece(Elephant, Top)),
     None, Some(Piece(Chick, Bottom)), None,
     None, None, None,
     Some(Piece(Elephant, Bottom)), Some(Piece(Lion, Bottom)), Some(Piece(Giraffe, Bottom))],
    [], [Piece(Chick, Bottom)], Top, false, None, None)

  const GiraffeSelected: Game := AfterCapture.(selectedCell := Some(Pos(0, 0)))

  /** The position after Top's Giraffe has stepped from (0, 0) to (0, 1). */
  const AfterGiraffe: Game := Game(
    [None, Some(Piece(Lion, Top)), Some(Piece(Elephant, Top)),
     Some(Piece(Giraffe, Top)), Some(Piece(Chick, Bottom)), None,
     None, None, None,
     Some(Piece(Elephant, Bottom)), Some(Piece(Lion, Bottom)), Some(Piece(Giraffe, Bottom))],
    [], [Piece(Chick, Bottom)], Bottom, false, None, None)

  const ReserveSelected: Game := AfterGiraffe.(selectedBench := Some(0))

  /** The position after Bottom's Chick has been dropped on (1, 0), where Top's Lion stood. */
  const AfterDrop: Game := Game(
    [None, Some(Piece(Chick, Bottom)), Some(Piece(Elephant, Top)),
     Some(Piece(Giraffe, Top)), Some(Piece(Chick, Bottom)), None,
     None, None, None,
     Some(Piece(Elephant, Bottom)), Some(Piece(Lion, Bottom)), Some(Piece(Giraffe, Bottom))],
    [], [], Top, false, None, None)

  lemma ErasingSelectChick()
    ensures Dispatch(InitialGame(), ErasingClicks[0]) == ChickSelected
  {
    InitialPosition();
  }

  lemma ErasingCaptureMove()
    ensures IsMovable(ChickSelected, Piece(Chick, Bottom), Pos(1, 2), Pos(1, 1))
    ensures MovePieceTo(ChickSelected, Piece(Chick, Bottom), Pos(1, 2), Pos(1, 1)) == AfterCapture
  {
    var b := Relocate(ChickSelected, Piece(Chick, Bottom), Pos(1, 2), Pos(1, 1));
    assert b == AfterCapture.board;
    assert !LionOnRow(b, Top, 3) by {
      forall x | 0 <= x < Width
        ensures b[Index(Pos(x, 3))] != Some(Piece(Lion, Top))
      {
      }
    }
    assert MoveWinner(ChickSelected, Piece(Chick, Bottom), Pos(1, 2), Pos(1, 1)).None?;
  }

  lemma ErasingCapture()
    ensures Dispatch(ChickSelected, ErasingClicks[1]) == AfterCapture
  {
    ErasingCaptureMove();
    assert ErasingClicks[1] == CellClick(Pos(1, 1));
    assert ChickSelected.At(Pos(1, 2)) == Some(Piece(Chick, Bottom));
    assert !OwnPieceOn(ChickSelected, Pos(1, 1));
  }

  lemma ErasingSelectGiraffe()
    ensures Dispatch(AfterCapture, ErasingClicks[2]) == GiraffeSelected
  {
  }

  lemma ErasingGiraffeMove()
    ensures IsMovable(GiraffeSelected, Piece(Giraffe, Top), Pos(0, 0), Pos(0, 1))
    ensures MovePieceTo(GiraffeSelected, Piece(Giraffe, Top), Pos(0, 0), Pos(0, 1)) == AfterGiraffe
  {
    var b := Relocate(GiraffeSelected, Piece(Giraffe, Top), Pos(0, 0), Pos(0, 1));
    assert b == AfterGiraffe.board;
    assert !LionOnRow(b, Bottom, 0) by {
      forall x | 0 <= x < Width
        ensures b[Index(Pos(x, 0))] != Some(Piece(Lion, Bottom))
      {
      }
    }
    assert MoveWinner(GiraffeSelected, Piece(Giraffe, Top), Pos(0, 0), Pos(0, 1)).None?;
  }

  lemma ErasingGiraffeStep()
    ensures Dispatch(GiraffeSelected, ErasingClicks[3]) == AfterGiraffe
  {
    ErasingGiraffeMove();
    assert ErasingClicks[3] == CellClick(Pos(0, 1));
    assert GiraffeSelected.At(Pos(0, 0)) == Some(Piece(Giraffe, Top));
    assert !OwnPieceOn(GiraffeSelected, Pos(0, 1));
  }

  lemma ErasingSelectReserve()
    ensures Dispatch(AfterGiraffe, ErasingClicks[4]) == ReserveSelected
  {
  }

  lemma ErasingDrop()
    ensures Dispatch(ReserveSelected, ErasingClicks[5]) == AfterDrop
  {
  }

  lemma PlayUnfold(g: Game, clicks: seq<Click>, k: nat)
    requires k < |clicks|
    ensures Play(g, clicks[k..]) == Play(Dispatch(g, clicks[k]), clicks[k + 1..])
    ensures PlayChecked(g, clicks[k..]) == PlayChecked(DispatchChecked(g, clicks[k]), clicks[k + 1..])
  {
    assert clicks[k..][1..] == clicks[k + 1..];
  }

  lemma ErasingPlayFrom5()
    ensures Play(ReserveSelected, ErasingClicks[5..]) == AfterDrop
    ensures PlayChecked(ReserveSelected, ErasingClicks[5..]) == ReserveSelected
  {
    ErasingDrop();
    PlayUnfold(ReserveSelected, ErasingClicks, 5);
    assert ErasingClicks[6..] == [];
    assert OverwritingDrop(ReserveSelected, Pos(1, 0));
  }

  lemma ErasingPlayFrom4()
    ensures Play(AfterGiraffe, ErasingClicks[4..]) == AfterDrop
    ensures PlayChecked(AfterGiraffe, ErasingClicks[4..]) == ReserveSelected
  {
    ErasingSelectReserve();
    ErasingPlayFrom5();
    PlayUnfold(AfterGiraffe, ErasingClicks, 4);
  }

  lemma ErasingPlayFrom3()
    ensures Play(GiraffeSelected, ErasingClicks[3..]) == AfterDrop
    ensures PlayChecked(GiraffeSelected, ErasingClicks[3..]) == ReserveSelected
  {
    ErasingGiraffeStep();
    ErasingPlayFrom4();
    PlayUnfold(GiraffeSelected, ErasingClicks, 3);
    assert !OverwritingDrop(GiraffeSelected, Pos(0, 1));
  }

  lemma ErasingPlayFrom2()
    ensures Play(AfterCapture, ErasingClicks[2..]) == AfterDrop
    ensures PlayChecked(AfterCapture, ErasingClicks[2..]) == ReserveSelected
  {
    ErasingSelectGiraffe();
    ErasingPlayFrom3();
    PlayUnfold(AfterCapture, ErasingClicks, 2);
    assert !OverwritingDrop(AfterCapture, Pos(0, 0));
  }

  lemma ErasingPlayFrom1()
    ensures Play(ChickSelected, ErasingClicks[1..]) == AfterDrop
    ensures PlayChecked(ChickSelected, ErasingClicks[1..]) == ReserveSelected
  {
    ErasingCapture();
    ErasingPlayFrom2();
    PlayUnfold(ChickSelected, ErasingClicks, 1);
    assert !OverwritingDrop(ChickSelected, Pos(1, 1));
  }

  /** The six clicks, played as written and with the drop check. */
  lemma ErasingPlay()
    ensures Play(InitialGame(), ErasingClicks) == AfterDrop
    ensures PlayChecked(InitialGame(), ErasingClicks) == ReserveSelected
  {
    ErasingSelectChick();
    ErasingPlayFrom1();
    PlayUnfold(InitialGame(), ErasingClicks, 0);
    assert ErasingClicks[0..] == ErasingClicks;
    assert !OverwritingDrop(InitialGame(), Pos(1, 2)) by {
      InitialPosition();
    }
  }

  lemma ErasingDropIsPut()
    ensures AfterDrop == PutPieceFromBench(ReserveSelected, Pos(1, 0))
    ensures ReserveSelected.At(Pos(1, 0)) == Some(Piece(Lion, Top))
    ensures Some(Piece(Lion, Top)) !in AfterDrop.board
  {
  }

  /** The drop check keeps eight pieces up to the last click; the drop loses one. */
  lemma ErasingCounts()
    ensures PieceCount(ReserveSelected) == 8
    ensures PieceCount(AfterDrop) == 7
  {
    GamesFromStart(ErasingClicks);
    ErasingPlay();
    ErasingDropIsPut();
    DropPieceCount(ReserveSelected, Pos(1, 0));
  }

  /**
    As written, the last click drops the Chick onto Top's Lion: the Lion
    disappears from the game, which goes on with seven pieces and no Top
    Lion anywhere. With the drop check the click is ignored: Top's Lion
    stays on (1, 0) and all eight pieces remain.
   */
  lemma DropErasesLion()
    ensures var g := Play(InitialGame(), ErasingClicks);
            && PieceCount(g) == 7
            && Some(Piece(Lion, Top)) !in g.board
            && Piece(Lion, Top) !in g.reserveTop + g.reserveBottom
            && !g.finished
    ensures var g := PlayChecked(InitialGame(), ErasingClicks);
            PieceCount(g) == 8 && g.At(Pos(1, 0)) == Some(Piece(Lion, Top))
  {
    ErasingPlay();
    ErasingCounts();
    ErasingDropIsPut();
  }
}
