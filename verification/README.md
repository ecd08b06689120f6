# Animal shogi rule engine in Dafny

A model of the rule engine of a browser animal-shogi game (*dōbutsu shōgi*), in Dafny. The game is played on a 3-column by 4-row board. Each side starts with a Lion, an Elephant, a Giraffe and a Chick. Captured pieces change sides and go to the captor's reserve. From there they can be dropped back onto the board. A Chick reaching the far row becomes a Chicken, and a Chicken becomes a Chick again when it is captured. A game ends when a Lion is captured, or when a Lion survives on the far row (the "try").

The model covers two engines.

- **The game** (`docs/index.js`). It has the piece catalog, `getDestinations` and the `Game` class: board access, the movable-cell filter, `isMovable`, the try check, move execution, drops from the reserve, selection, and the two click handlers. It also has the eight-piece starting position. Every operation is a pure function from one immutable `Engine.Game` record to the next. The record holds 12 optional cells, two reserve sequences, the player to move, a `finished` flag and the two selections.
- **The prototype** (root `index.js`). It has only Lions and Chicks, with no promotion, no demotion and no end of game. It is modelled in its own module, `Prototype`.

Modules:

| module | contents |
|---|---|
| `Wrappers` | `Option`, standing in for `null` |
| `Geometry` | players, coordinates, board bounds, the cell layout `x + 3y`, direction translation (negated for Top), point reflection, counting occupied cells |
| `Catalog` | piece types, their direction tables, `Destinations` (`getDestinations`), demotion |
| `Engine` | the `Game` record and every operation of the `Game` class |
| `Setup` | the starting position |
| `Rules` | conservation, the selection invariant, turn discipline, whole games as click sequences, the drop finding |
| `Prototype` | the prototype engine of root `index.js` |

Some details follow the code closely:

- **Promotion rows.** Bottom moves toward row 0, so a Bottom Chick promotes on row 0 and a Top Chick on row 3.
- **The try check.** It runs after the mover's move, but it looks at the *opponent's* Lion on the *mover's* home row. If that Lion is there, the opponent wins and the turn is not passed. In effect, a Lion that reached the far row wins if it is still there after the other side replies with a move. A reply by a drop runs no try check (docs/index.js:177-192), so the check for that Lion waits until the other side next moves a piece.
- **Captured Lion.** A captured Lion goes into the captor's reserve before the Lion-capture win is declared.
- **Drops.** A drop does not run the try check and never promotes.
- **Winner.** The engine keeps only `finished`. The winner it reports through `board.finish` is the value of `Engine.MoveWinner`.

## Model

| member | source | states |
|---|---|---|
| `Geometry.IndexBijective` | docs/index.js:91-98 | cell index `x + 3y` names each board square exactly once, and decoding the index gives the square back |
| `Geometry.Target` | docs/index.js:62-64 | a direction is added to the position for Bottom and subtracted for Top |
| `Geometry.Targets` | docs/index.js:58-71 | at most one target per direction, and every target is on the board |
| `Geometry.TargetsMembership` | docs/index.js:58-71 | a square is a target iff it is on the board and is the translate of one of the directions |
| `Geometry.TargetsPointSymmetry` | docs/index.js:62-65 | Top's targets from a square are, in order, the point reflections of Bottom's targets from the reflected square |
| `Geometry.OccupiedUpdate` | docs/index.js:95-98 | writing one cell changes the number of pieces on the board only by what that cell held before and after |
| `Catalog.DirectionsAreSingleSteps` | docs/index.js:18-29 | every direction in the tables of `Catalog.Directions` (the five tables of the source, written for Bottom) is a distinct one-square step in some direction, never standing still |
| `Catalog.Destinations` | docs/index.js:58-71 | destinations are on the board, at most one per direction, and exactly the on-board squares `pos + d` (Bottom) or `pos - d` (Top) for `d` in the piece's table |
| `Catalog.DestinationsExcludeOrigin` | docs/index.js:18-29 | a piece never has its own square among its destinations |
| `Catalog.DestinationsPointSymmetry` | docs/index.js:58-71 | a Top piece on (x, y) reaches exactly the images (2 - x', 3 - y') of what a Bottom piece of the same type reaches from (2 - x, 3 - y) |
| `Catalog.Demote` | docs/index.js:145-146 | a Chicken becomes a Chick; every other type is kept |
| `Engine.NewGame` | docs/index.js:74-89 | a new game has no pieces, Bottom to move, nothing selected and is not finished |
| `Engine.SetPiece` | docs/index.js:95-98 | the written square holds the given piece (or nothing); every other square, the reserves, the turn and the selections are unchanged |
| `Engine.SwapPlayer` | docs/index.js:100-103 | the player to move changes and nothing else does |
| `Engine.MovableCells` | docs/index.js:106-111 | movable cells are destinations not holding a piece of the mover's side, no more of them than destinations, and every such destination is included |
| `Engine.IsMovable` | docs/index.js:113-117 | true iff the target is a destination of the piece and is empty or holds an opponent's piece |
| `Engine.TryWinner` | docs/index.js:119-134 | a winner is reported iff the opponent's Lion stands on the mover's home row, and the winner is then that opponent |
| `Engine.Arrived` | docs/index.js:150-155 | the moved piece keeps its owner, and its type changes iff it is a Chick arriving on the opponent's home row (row 0 for Bottom, row 3 for Top), and then it becomes a Chicken |
| `Engine.Captured` | docs/index.js:143-146 | a captured piece takes the captor as owner and its demoted type |
| `Engine.Relocate` | docs/index.js:139-141 | the origin becomes empty, the target holds the arrived piece, and no other cell changes |
| `Engine.MoveWinner` | docs/index.js:160-171 | the mover wins iff a Lion was captured; otherwise the opponent wins iff the opponent's Lion stands on the mover's home row after the move |
| `Engine.MovePieceTo` | docs/index.js:136-175 | origin emptied, target holds the (possibly promoted) piece, other cells unchanged; a captured piece is appended, demoted and re-owned, to the mover's reserve, and the other reserve is unchanged; the game finishes and the turn stays iff there is a winner, otherwise the turn passes to the opponent; the cell selection is cleared |
| `Engine.PutPieceFromBench` | docs/index.js:177-192 | the selected reserve piece lands unchanged on the target, other cells unchanged; exactly that one occurrence leaves the mover's reserve; the other reserve is unchanged; the reserve selection is cleared; the turn always passes |
| `Engine.SelectPieceOn` | docs/index.js:194-199 | the cell becomes the selection, any reserve selection is dropped, and nothing else changes |
| `Engine.SelectReserveOn` | docs/index.js:201-206 | the reserve slot becomes the selection, any cell selection is dropped, and nothing else changes |
| `Engine.OnBenchPieceClicked` | docs/index.js:213-218 | no change once finished, for an empty slot, or for a piece the player to move does not own; in a running game, a click on a piece the player to move owns selects exactly that piece |
| `Engine.OnCellClicked` | docs/index.js:220-236 | no change once finished; a click on one's own piece only changes the selection; with a cell selected, a move happens iff the target is movable, otherwise no change; with a reserve piece selected, that piece is dropped on the clicked cell whatever stands there; with nothing selected, no change |
| `Setup.PlaceEffect` | docs/index.js:558-566 | placing pieces on distinct squares puts each on its square, leaves other squares alone, and adds one board piece per placement onto empty squares |
| `Setup.InitialPosition` | docs/index.js:558-566 | the start has these twelve cells, empty reserves, Bottom to move, nothing selected, and the game running |
| `Setup.InitialPieceCount` | docs/index.js:558-566 | the game starts with eight pieces |
| `Setup.InitialPositionSymmetric` | docs/index.js:558-566 | the starting position is point symmetric with owners swapped |
| `Rules.MoveConservesPieces` | docs/index.js:137-148 | a move of the piece on its origin to another square keeps board pieces plus both reserves constant |
| `Rules.DropPieceCount` | docs/index.js:177-192 | a drop onto an empty cell keeps the piece count; a drop onto an occupied cell loses one piece |
| `Rules.InitialGameValid` | docs/index.js:76-82 | the starting game satisfies the selection and reserve invariant |
| `Rules.CellClickKeepsValid` | docs/index.js:220-236 | a cell click keeps the selections exclusive, a selected cell holding a piece of the player to move, a selected reserve slot existing, and each reserve holding only its owner's pieces |
| `Rules.BenchClickKeepsValid` | docs/index.js:213-218 | a reserve click keeps the same invariant |
| `Rules.CellClickTurn` | docs/index.js:220-236 | a click either changes only the selection, or changes the board of a running game, clears both selections, and then either passes the turn or finishes the game with the turn unchanged |
| `Rules.CellClickPieceCount` | docs/index.js:220-236 | every cell click keeps the piece count except a drop onto an opponent's piece, which loses exactly one |
| `Rules.OnCellClickedChecked` | docs/index.js:233-234 | with the missing target check added, a drop onto an occupied cell is ignored and every other click behaves exactly as the handler as written; every click keeps the invariant and the piece count |
| `Rules.PlayKeepsValid` | docs/index.js:213-236 | any sequence of clicks keeps the invariant |
| `Rules.PlayCheckedKeepsPieces` | docs/index.js:213-236 | any sequence of clicks handled with the drop check keeps the invariant and the piece count |
| `Rules.GamesFromStart` | docs/index.js:74-89 | from the start, no click sequence ever leaves both a cell and a reserve piece selected, and with the drop check eight pieces remain |
| `Rules.DropErasesLion` | docs/index.js:233-234 | six clicks from the start drop a Chick onto Top's Lion: the Lion leaves the game, seven pieces remain and the game goes on; with the check all eight stay |
| `Prototype.DirectionsMatchCatalog` | index.js:227-230 | the prototype's Lion and Chick tables are exactly the game's Lion and Chick tables of `Catalog.Directions` |
| `Prototype.MovableCells` | index.js:28-41 | targets are on the board, at most one per direction, and exactly the on-board squares `cell + d` (Bottom) or `cell - d` (Top), occupied or not |
| `Prototype.IsMovable` | index.js:54-56 | true iff the cell is a translate of the selected piece's position by one of its directions, whatever stands there |
| `Prototype.SelectPieceOn` | index.js:43-52 | the cell becomes the selection and nothing else changes |
| `Prototype.MovePieceTo` | index.js:64-78 | the selected piece moves unchanged, its square emptied, other cells unchanged; a piece found on the target joins the end of the mover's reserve with the mover as owner and its kind kept; the selection is cleared and the turn always passes |
| `Prototype.OnCellClicked` | index.js:80-90 | a click on one's own piece only selects it; the board changes only by moving the selected piece to one of its targets that does not hold a piece of the player to move; with a piece selected, a click that is not on one's own piece moves it iff the cell is one of its targets and otherwise changes nothing; with nothing selected, a click elsewhere changes nothing |
| `Prototype.InitialPieceCount` | index.js:232-236 | the prototype starts with four pieces, a Lion on each home row |
| `Prototype.MoveConservesPieces` | index.js:64-74 | a prototype move keeps board pieces plus reserves constant |
| `Prototype.ClickKeepsValid` | index.js:80-90 | a click keeps the selected cell holding a piece of the player to move, each reserve holding its owner's pieces, and the piece count |
| `Prototype.PlayKeepsValid` | index.js:80-90 | any sequence of clicks keeps that invariant and the piece count |
| `Prototype.GamesFromStart` | index.js:193-197 | from the prototype's start, every click sequence keeps four pieces and a selected cell always holds a piece of the player to move |

## Left out

- The display classes `Cell`, `Bench`, `Message` and `Board`, `remove_and_add` and `ImageFiles` (docs/index.js:39-55, 239-523) are left out. They only change CSS classes and images. This includes the compaction of bench slots.
- The `this.board.*` notification calls are not modelled. The one value they carry that the engine decides, the winner passed to `finish`, is `Engine.MoveWinner`.
- The DOM wiring of `init` is left out in both files. Only the piece placement and the initial turn are kept, as constant data.
- In the prototype, border highlighting, the `Bench.append` display and the `console.log` calls (index.js:82-88) are left out.
- The `console.assert` in `putPieceFromBench` (docs/index.js:179) only logs, so it places no requirement on callers and is left out.
- Pieces are values, not shared objects. The selected reserve piece is a position in the current player's reserve, not an object found by identity. `Rules.Valid` shows that this position always names a piece of the current player's reserve. So the identity search always finds it, and the source's fallback (`findIndex` gives -1 and `splice(-1, 1)` removes the last element) never runs.
- A selected cell whose piece has gone would crash the source (`getMovableCells` on `null` throws). The model treats that click as a no-op. `Rules.Valid` and `Prototype.Valid` show that this state cannot be reached.
- A reserve selection that no longer names a piece of the current player's reserve would make the source remove the last reserve piece (docs/index.js:181-185, the `splice(-1, 1)` fallback above). The model treats that click as a no-op. `Rules.Valid` shows that this state cannot be reached either.
- Clicked and selected positions are always board squares (the `Square` type). Writing outside the 12-cell array is therefore not modelled.
- The bench's own guard `index < this.num` (docs/index.js:324-327) is modelled as the range check in `Engine.OnBenchPieceClicked`.
- `Catalog.Destinations`, `Geometry.Targets`, `Engine.MovableCells`, `Prototype.MovableCells`: these state membership and a length bound, not the order of the results. The order follows the direction table and only affects highlighting.

## Findings

| source | as written | input that shows it | evidently intended | confidence | as-written member | corrected member |
|---|---|---|---|---|---|---|
| docs/index.js:233-234 | With a reserve piece selected, a click on any cell not holding one's own piece drops the piece there. An opponent's piece on that cell is overwritten and leaves the game; the piece count falls from 8 to 7. | From the start, click (1,2), (1,1), (0,0), (0,1), then Bottom's reserve slot 0, then (1,0). Bottom's captured Chick lands on Top's Lion, the Lion disappears, and the game continues. | A drop only onto an empty cell. Selecting a reserve piece highlights only the empty cells (docs/index.js:511-518). | high; not executed | `Rules.DropErasesLion` | `Rules.OnCellClickedChecked` |

`Rules.DropErasesLion` plays the six clicks through `Engine.OnCellClicked` as written. `Rules.OnCellClickedChecked` ignores such a drop. It keeps the piece count for every click (`Rules.PlayCheckedKeepsPieces`, `Rules.GamesFromStart`).
