# Castletris engine in Dafny

A model of the game engine of a falling-block puzzle (a Tetris variant with a
castle theme). The engine keeps a 20-row by 10-column board of cells, where 0
is empty and any other value is the tag of the piece family that locked there.
It also keeps a live piece, built from one of seven fixed templates. It decides
whether a shape fits at an offset, moves and rotates the piece clockwise, and
locks it into the board when it can fall no further. After a lock it clears
full rows in one bottom-to-top pass, keeps score (100 per row), and raises the
level each time the score reaches a multiple of 1000. The tick interval is
1000 ms at level 1 and 1000 - 50 * level after each level-up.

Files:

- `shapes.dfy`: modules `Dimensions` (board size) and `Shapes`. `Shapes` holds
  the template catalogue, the piece value, clockwise rotation, the occupied
  cells of a shape and the spawn column.
- `board.dfy`: module `Board`. It holds the grid, the legality predicate
  `Fits`, and the collision scan `CanMoveTo`, a method with the source's
  nested loops proved equal to `Fits`. It also holds the effect of a lock on
  the grid (`Stamp`) and the lock's cell-count lemma.
- `lineclear.dfy`: module `LineClear`.
  - `Scan` is the row-clearing loop as written.
  - `Compact` is an independent bottom-up statement of what the loop does,
    with the lemma that the two agree.
  - It also holds the scoring, level and interval rules (`Award`, `AwardN`,
    `Consistent`).
- `game.dfy`: module `Game`. It holds the class `Game`, whose fields are the
  engine's state: `board`, `piece`, `score`, `level`, `gameOver` and
  `interval`. Its methods are `Start`, `Move`, `RotatePiece`, `HandleKey`,
  `Lock`, `ClearRows` and `Tick`. Each is proved against the pure
  specification functions above. `Start`, `Move`, `RotatePiece`, `HandleKey`
  and `Tick` keep the class invariant `Valid()`. `Lock` and `ClearRows` are the
  inner steps of `Tick`: after `Lock` the piece lies on its own cells, so
  `Valid()` does not hold until `Tick` spawns the next piece. `Valid()` says:
  - the grid stays 20 by 10;
  - the score is a non-negative multiple of 100;
  - `level == 1 + score / 1000`;
  - the interval is the one for the level;
  - while the game is not over, the live piece sits at a legal position.

Cell tags are integers: 1 castle-wall, 2 tower, 3 shield, 4 sword. The source
uses CSS class-name strings, and only their truthiness matters to the logic.
The random template choice is a parameter `i < 7`.

## Row clearing as written

The row-clearing loop visits rows from index 19 down to 0. When row `y` is
full it removes that row, puts an empty row on top and then moves on to
`y - 1`. The row that was directly above the cleared row has now moved into
index `y`, which the scan has already passed, so that row is never examined
in the same pass. So a pass does not always clear every full row, and the
model keeps that behaviour:

- `Compact` states the rule: a full bottom row is removed, and the row above
  it is kept whatever it holds.
- `ClearedMask` marks the rows a pass removes, index by index.
  `ClearedMaskRule` proves that a row is removed exactly when it is full and
  the row directly below it was not removed. `FullRowKeptOnlyAboveCleared`
  draws the consequence: a full row survives only when the row directly below
  it was removed.
- `SeparatedFullRowsAllCleared` and `ClearLinesClearsSeparatedRows` prove the
  other side for every grid: when no two full rows are adjacent, the pass
  clears all of them and leaves no full row.
- `AdjacentFullRowsOneCleared` shows two adjacent full rows: the pass clears
  only one, and a full row is left at the bottom.
- `SeparatedFullRowsBothCleared` shows two full rows with a non-full row
  between them: both are cleared (+200).

## Model

| member | source | states |
|---|---|---|
| `Shapes.Rotate` | frontend/index.js:105 | an r-by-c rectangle becomes a c-by-r rectangle; result cell (i, j) is source cell (rows-1-j, i), i.e. the clockwise quarter turn |
| `Shapes.RotateCells` | frontend/index.js:105 | rotation maps the occupied cells one-to-one by (r, c) to (c, rows-1-r) |
| `Shapes.RotateKeepsSize` | frontend/index.js:105 | rotation keeps the number of occupied cells |
| `Shapes.RotateFourTimes` | frontend/index.js:105 | four clockwise rotations return the original matrix, for every rectangular shape |
| `Shapes.SpawnX` | frontend/index.js:64 | the spawn column keeps a shape of width w inside the walls, and centres it with any odd leftover column on the right |
| `Shapes.Spawn` | frontend/index.js:59-66 | a new piece carries the chosen template's shape and tag, starts on row 0, in column 3 or 4, inside the side walls |
| `Shapes.TemplatesWellFormed` | frontend/index.js:20-28 | every template is a 0/1 rectangle 1-2 rows high and 2-4 cells wide, with a non-empty tag |
| `Board.EmptyRow` | frontend/index.js:148 | a new row has 10 cells, all empty |
| `Board.EmptyBoard` | frontend/index.js:32-35 | the board built at the start has 20 rows of 10 cells and no occupied cell |
| `Board.CanMoveTo` | frontend/index.js:91-102 | the nested scan returns true exactly when every occupied shape cell lands above the floor, between the side walls and on an empty board cell; there is no top-edge test and the scan changes nothing |
| `Board.Stamp` | frontend/index.js:126-132 | locking keeps the board 20 by 10 |
| `Board.LockAddsPieceCells` | frontend/index.js:126-132 | for a legal piece, locking adds exactly the piece's cells to the occupied cells; those cells were empty before, so the occupied count grows by the piece's size |
| `Board.SpawnFitsEmpty` | frontend/index.js:59-66 | a freshly spawned piece of every template is legal on an empty board |
| `Board.SquareFallsToFloor` | frontend/index.js:91-102 | the 2-by-2 block spawned at column 4 is legal on rows 0 to 18 of an empty board and illegal on row 19 |
| `LineClear.Full` | frontend/index.js:146 | a row is full when none of its cells is empty; an empty row is therefore never full |
| `LineClear.Splice` | frontend/index.js:147-148 | removing row y and putting an empty row on top keeps the number of rows and the width of every row, and the new top row is empty |
| `LineClear.Scan` | frontend/index.js:145-148 | the loop as written, from row y upwards: the grid keeps its number of rows and its row width, at most y + 1 rows are cleared, and a pass that clears nothing leaves the grid unchanged |
| `LineClear.ClearLines` | frontend/index.js:144-156 | one pass over the whole grid keeps it 20 by 10, clears at most 20 rows, and changes nothing when it clears none |
| `LineClear.Compact` | frontend/index.js:145-148 | the bottom-up rule splits the rows into those kept and those removed, with the counts adding up to the input |
| `LineClear.CompactRemovesOnlyFullRows` | frontend/index.js:146-147 | the kept rows and the removed rows together are the input rows, and every removed row was full |
| `LineClear.ScanIsCompact` | frontend/index.js:145-148 | from any state of the loop, the rest of the in-place scan produces the rows `Compact` keeps, below one empty row per row it removes |
| `LineClear.ClearLinesIsCompact` | frontend/index.js:144-156 | one pass keeps the board at 20 rows of 10 cells: one empty row on top per cleared row, then the surviving rows in their original order |
| `LineClear.CompactNoFullRows` | frontend/index.js:146 | a board with no full row is left unchanged |
| `LineClear.SeparatedFullRowsAllCleared` | frontend/index.js:145-148 | for any rows with no two adjacent full rows, no row the pass keeps is full |
| `LineClear.ClearLinesClearsSeparatedRows` | frontend/index.js:144-156 | on any 20-by-10 grid with no two adjacent full rows, the grid after one pass has no full row |
| `LineClear.ClearedMask` | frontend/index.js:145-148 | marks, index by index, the rows one pass removes; there is one mark per row |
| `LineClear.CompactIsMask` | frontend/index.js:145-148 | the rows `Compact` keeps are exactly the unmarked rows and the rows it removes are exactly the marked rows, each in their original order |
| `LineClear.ClearedMaskRule` | frontend/index.js:145-148 | row i is removed exactly when it is full and row i + 1 (the row below) is absent or was not removed; so the row directly above a removed row is always kept |
| `LineClear.FullRowKeptOnlyAboveCleared` | frontend/index.js:145-148 | a full row the pass keeps sits directly above a full row the pass removed |
| `LineClear.SeparatedFullRowsBothCleared` | frontend/index.js:145-149 | the bottom row and the row two above it, both full, are both cleared in one pass |
| `LineClear.AdjacentFullRowsOneCleared` | frontend/index.js:145-148 | with the two bottom rows full, the pass clears one row and a full row stays at the bottom |
| `LineClear.IntervalFor` | frontend/index.js:150-153 | the tick period for a level: positive and at most 1000 ms on levels 1 to 19, and 0 or negative from level 20, since the source never clamps it |
| `LineClear.Award` | frontend/index.js:149-154 | each cleared row adds 100; the level rises by one exactly when the new score is a multiple of 1000, and the counters stay consistent (level = 1 + score/1000, interval = 1000 - 50*level after a level-up) |
| `LineClear.AwardN` | frontend/index.js:149-154 | n cleared rows add exactly 100*n to the score and keep the counters consistent |
| `Game.Moved` | frontend/index.js:113-122 | the piece shifts by exactly (dx, dy) when the target is legal and is unchanged otherwise; its row never decreases and a legal piece stays legal |
| `Game.Rotated` | frontend/index.js:104-111 | the shape becomes its clockwise rotation, at the same offset, when the rotation fits and is unchanged otherwise; the cell count is kept and a legal piece stays legal |
| `Game.AfterKey` | frontend/index.js:210-227 | every key keeps the piece well formed and legal, and the piece never moves up |
| `Game.Game.constructor` | frontend/index.js:13-18 | before the first start there is no piece, an empty board array, score 0, level 1, not over |
| `Game.Game.Start` | frontend/index.js:166-179 | a restart gives an all-empty 20-by-10 board, score 0, level 1, interval 1000, the game running and a fresh legal piece |
| `Game.Game.Move` | frontend/index.js:113-122 | the piece moves only when the target offset is legal; the method returns whether it moved, and the board and counters are untouched |
| `Game.Game.RotatePiece` | frontend/index.js:104-111 | the piece's shape is replaced by its rotation only when that fits; the offset, board and counters are untouched |
| `Game.Game.HandleKey` | frontend/index.js:210-227 | once the game is over, keys change nothing; otherwise left, right, down and up give the piece `AfterKey` computes |
| `Game.Game.Lock` | frontend/index.js:126-132 | the nested loops leave the board equal to `Stamp` of the old board and the piece |
| `Game.Game.ClearRows` | frontend/index.js:144-156 | the in-place splice/unshift loop leaves the board equal to `ClearLines` of the old board, and the counters equal to the old ones awarded once per cleared row |
| `Game.Game.Tick` | frontend/index.js:124-142 | a tick moves the piece down when that is legal. Otherwise it locks the piece, clears rows, scores them and spawns the next piece, and the game is over exactly when that piece does not fit. The class invariant is kept |

## Left out

- Rendering is left out: board div creation, `drawBoard`, `drawPiece`, `erasePiece`, and the score and level text. It is display only and never writes `board`.
- Timers are left out: `setInterval` and `clearInterval`. Only the resulting period is kept, in the `interval` field, and it is 0 before the first start. `Tick` requires that the game is not over, because game over clears the timer and no further tick arrives.
- `Math.random` is left out. The template index is a parameter of `Start` and `Tick`.
- Keyboard decoding beyond the four arrow keys is left out, and so are `alert` and `console.log`. They are I/O.
- `saveHighScore`, `loadHighScores` and src/declarations/backend/backend.did.js are left out. They are asynchronous calls to an external service whose code is not part of this model.
- Key presses and ticks before the first start are left out. The source would fail on the missing piece, so `Move`, `RotatePiece`, `HandleKey`, `Lock` and `Tick` require that a piece exists.
- Board.CanMoveTo: requires a row offset of at least 0. A negative row would make the source read a missing board row and throw. Every piece starts on row 0 and only moves down, so this never happens.
- Game.Game.Move: requires `dy >= 0`, since every caller passes 0 or 1. With that, the piece never goes above row 0.
- Piece and template shapes are values here, so the source's sharing of the template array with the live piece is not modelled. The source never mutates that array: rotation builds a new one.
- Shapes.TemplatesWellFormed: does not state that each template has exactly four occupied cells. The lock lemma states the growth in occupied cells as the size of the locked shape, whatever it is.
- The interval is not clamped: at level 20 and above, 1000 - 50 * level is 0 or negative. The model keeps the number as the source computes it.
