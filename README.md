# Tetris engine model

A Dafny model of the game engine of a small browser Tetris (`tetris.js`): a
20-row, 10-column board of integer cells, the seven tetrominoes `i j l o s t z`,
and the rules that change them — the collision test, moving, clockwise
rotation, the gravity step (move down, or merge, clear full rows and spawn the
next piece), pausing, and the keyboard commands.

The project has three modules:

- `Shapes` (`shapes.dfy`): the piece kinds, the shape table of `createPiece`,
  the colour index `pieces.indexOf(type) + 1`, and the rotation
  `shape[0].map((_, j) => shape.map(row => row[j]).reverse())` as a function,
  with its algebra (dimensions swap, cell formula, cell count kept, four turns
  are the identity).
- `Board` (`board.dfy`): the board as a sequence of rows, the collision
  predicate, the merged board, and the cleared board (empty rows on top, the
  non-full rows below in their order), together with the bottom-up scan that
  `clearLines` performs and the proof that the scan computes the cleared board.
- `Engine` (`engine.dfy`): the script's module-level state as a class `Game`
  whose fields the methods update in place, one method per function of the
  script, each proved against the functions of `Board` and `Shapes`.

The model follows the script as written:

- `collides` treats a board cell as an obstacle only when it holds exactly 1.
  `merge` writes 1..7, so only cells left by `i` pieces block later pieces
  (`Board.MergedBlocksOnlyWhenOne`, `Board.InsideCollidesOnlyOnOnes`).
  Full rows are still detected by truthiness (any non-zero cell).
- After `move`, the `'a'` and `'d'` keys shift the piece back whenever it would
  collide one more step in the same direction, without checking the new
  position. A piece that starts the key press on the board therefore never
  ends a left key press touching the left wall, nor a right key press touching
  the right wall. A piece next to an obstacle can be pushed off the board
  (`Engine.LeftKeyCanLeaveBoard`, `Engine.RightKeyCanLeaveBoard`), and from
  there the opposite key brings it back touching the wall
  (`Engine.KeyFromOffBoardReachesWall`).
- The game-over display is an explicit `gameOver` flag. It is set when a newly
  spawned piece collides, after the piece has been replaced, and only
  `resetGame` clears it.
- Whether a gravity timer is registered is the flag `scheduled`. A colliding
  spawn clears it, pausing clears it, and resuming sets it, even after game
  over, as `togglePause` registers a new interval unconditionally.
- The random piece kind of `spawnPiece` is a parameter of every operation that
  spawns.

## Model

| member | source | states |
|---|---|---|
| Shapes.CreatePiece | tetris.js:12-21 | each of the seven shapes is a non-empty rectangle of 0/1 cells, at most 2 rows by 4 columns |
| Shapes.FourCells | tetris.js:12-21 | each shape of the table has exactly four occupied cells |
| Shapes.IndexOf | tetris.js:56 | `indexOf` gives the first position of the character, or -1 exactly when it does not occur |
| Shapes.ColorIndex | tetris.js:56 | the value merged for a kind is in 1..7 and is one more than the position of the kind's letter in `pieces` |
| Shapes.ColorIndexInjective | tetris.js:6 | different kinds get different colour indices |
| Shapes.Rotated | tetris.js:96 | the rotation of an h-by-w rectangle is a w-by-h rectangle |
| Shapes.RotatedAt | tetris.js:96 | cell (j, i) of the rotation is cell (h-1-i, j) of the original |
| Shapes.RotatedTwice | tetris.js:96 | two rotations turn the shape upside down and mirror it |
| Shapes.FourTurns | tetris.js:96 | four rotations give back the original shape |
| Shapes.RotatedCells | tetris.js:96 | rotation maps the occupied cell (r, c) to (c, h-1-r) |
| Shapes.QuarterTurnImageSize | tetris.js:96 | that cell map is one-to-one, so the image has as many cells |
| Shapes.RotatedKeepsCells | tetris.js:96 | rotation keeps the number of occupied cells and keeps every cell 0 or 1 |
| Shapes.TurnedKeepsCells | tetris.js:95-100 | any number of rotations keeps the occupied-cell count and the 0/1 cells |
| Shapes.TurnedStep | tetris.js:95-100 | rotating the n-th rotation gives rotation number n+1 modulo 4 |
| Shapes.Tetromino | tetris.js:12-21 | every rotation of every piece has four occupied cells, all 1 |
| Board.EmptyBoard | tetris.js:5 | the fresh board is 20 rows of 10 cells, all 0 |
| Board.Blocked | tetris.js:83-87 | a target cell off rows 0..19 or columns 0..9 blocks; on the board a cell blocks exactly when it holds 1 |
| Board.OutsideCollides | tetris.js:80-93 | a piece with an occupied cell off rows 0..19 or columns 0..9 collides; a piece that does not collide is on the board |
| Board.InsideCollidesOnlyOnOnes | tetris.js:83-87 | on the board, a piece collides exactly when one of its cells lands on a cell holding 1 |
| Board.CollidesSeesOnlyOnes | tetris.js:85 | boards that agree on which cells hold 1 give the same collision answers |
| Board.Merged | tetris.js:52-60 | the merged board is again 20 by 10, and cells stay in 0..7 when the written value is |
| Board.MergedWritesPieceCells | tetris.js:52-60 | for a piece on the board, merge writes the value into exactly the cells of its occupied cells and keeps every other cell |
| Board.MergedBlocksOnlyWhenOne | tetris.js:85 | a merged piece blocks itself afterwards exactly when its value is 1 |
| Board.NonFull | tetris.js:112-120 | the kept rows plus the full rows account for every row |
| Board.NonFullRows | tetris.js:114 | no kept row is full, and every kept row is a row of the board |
| Board.Cleared | tetris.js:112-120 | clearing keeps 20 rows of 10 cells with cells in 0..7 and leaves no full row |
| Board.NoFullRowsKept | tetris.js:112-120 | a board without full rows is left as it is |
| Board.ClearedIdempotent | tetris.js:112-120 | clearing twice is clearing once |
| Board.NonFullAppend | tetris.js:112-120 | kept rows and the full-row count split over a concatenation of boards |
| Board.ClearOneRow | tetris.js:115-116 | with exactly one full row, clearing removes it and puts one empty row on top |
| Board.SpliceLowersCount | tetris.js:114-117 | splicing out a full row and adding an empty row on top leaves one full row fewer at or above the row index, so the scan ends |
| Board.Scan | tetris.js:113-119 | the scan keeps the board's height and never changes the rows below the row it starts at |
| Board.ScanClears | tetris.js:112-120 | the bottom-up scan with the `row++` re-check computes the cleared board |
| Board.ScanInvariant | tetris.js:113-119 | the scan's invariant: examined original rows have lost their full rows, with as many empty rows on top |
| Board.ScanKeepsRowsBelow | tetris.js:113-119 | the scan without the re-check (`Board.ScanWithoutRecheck`) never changes the rows below its starting row |
| Board.RecheckNeededForStackedRows | tetris.js:117 | without the re-check, two stacked full rows leave a full bottom row; the cleared board has none |
| Engine.SpawnX | tetris.js:72 | the spawn column puts the whole new piece on the board |
| Engine.SpawnFitsOnEmptyBoard | tetris.js:69-78 | on an empty board a new piece does not collide, so the game is not over |
| Engine.KeyShiftX | tetris.js:145-152 | after 'a' or 'd' the piece is at most one column from where it was, and one already blocked in the key's direction is pushed one column the other way |
| Engine.LeftKeyNeverReachesWall | tetris.js:145-148 | for a piece whose occupied cells all start at column 0 or to its right, after 'a' none is in column 0 |
| Engine.RightKeyNeverReachesWall | tetris.js:149-152 | for a piece whose occupied cells all start at column 9 or to its left, after 'd' none is in column 9 |
| Engine.LeftKeyCanLeaveBoard | tetris.js:145-148 | an `i` piece in columns 6..9 with a 1 in column 5 of its row ends in columns 7..10 after 'a' |
| Engine.RightKeyCanLeaveBoard | tetris.js:149-152 | an `o` piece in columns 0..1 with a 1 in column 2 of its top row ends in columns -1..0 after 'd' |
| Engine.KeyFromOffBoardReachesWall | tetris.js:149-152 | the `i` piece pushed to columns 7..10 ends in columns 6..9 after 'd', touching the right wall |
| Engine.UprightIBlockedAtRightWall | tetris.js:95-100 | an upright `i` piece in column 8 cannot rotate: lying flat it would reach column 11 |
| Engine.RotationFits | tetris.js:95-100 | a rotation that does not collide is the next of the kind's four rotations and lies on the board |
| Engine.Game.constructor | tetris.js:166-172 | start state: empty board, not paused, a piece of the given kind at its spawn point, a timer registered, not game over |
| Engine.Game.Collides | tetris.js:80-93 | the nested scan answers exactly the collision predicate for the shape at the offset |
| Engine.Game.SpawnPiece | tetris.js:69-78 | the new piece is the kind's table shape at the spawn column on row 0; game over is shown and the timer cleared exactly when it collides there |
| Engine.Game.ResetGame | tetris.js:62-67 | an empty board, game over hidden, a new piece of the given kind at its spawn point on the board; the timer flag is unchanged |
| Engine.Game.Move | tetris.js:122-126 | the column changes by the direction exactly when the shifted piece does not collide; nothing else changes; a piece on the board stays on it |
| Engine.Game.Rotate | tetris.js:95-100 | the rotation replaces the shape exactly when it does not collide; the shape stays one of the kind's four rotations; nothing else changes |
| Engine.Game.Merge | tetris.js:52-60 | the new board is the merged board with the kind's colour index |
| Engine.Game.ClearLines | tetris.js:112-120 | the splice-and-unshift loop leaves the cleared board |
| Engine.Game.DropPiece | tetris.js:102-110 | one row down when that is free, nothing else changed; otherwise the board is cleared after merging, and the next piece spawns with game over as in spawning |
| Engine.Game.TogglePause | tetris.js:128-140 | the pause flag flips; pausing clears the timer and resuming registers one |
| Engine.Game.Tick | tetris.js:167-172 | a registered timer that fires when not paused runs the gravity step; otherwise nothing changes |
| Engine.Game.ShiftKey | tetris.js:145-152 | the column is that of `move` followed by the unchecked step back; nothing else changes |
| Engine.Game.KeyDown | tetris.js:142-162 | while paused, and for other keys, nothing changes; 'a' and 'd' shift, 's' is the gravity step, 'w' rotates |

## Left out

- Drawing on the canvas (`draw`, `drawBoard`, `drawPiece`, the context scale) and the `colors` table: presentation only.
- The DOM: the game-over element's display style is the `gameOver` flag, and the pause button's label and the event listener wiring are not modelled.
- Timers: `setInterval` and `clearInterval` are modelled only as the `scheduled` flag and one firing as `Engine.Game.Tick`; the one-second period and the `draw()` call of each tick are not modelled.
- `Math.random` in `spawnPiece`: the kind to spawn is a parameter.
- Engine.Game.Merge: writes to columns outside 0..9 are dropped. In the script such a write (possible only after a key press pushed the piece off the board, see `Engine.LeftKeyCanLeaveBoard`) lengthens that row array at column 10 or sets a non-index property at column -1; rows of other lengths are not modelled.
- Engine.Game.Collides: requires a 20-by-10 board; the script would also scan boards with longer rows, which the model never builds.
- The shape of the current piece is kept as a value: the script's `currentPiece` object with its `type` and `shape` properties is two fields of `Engine.Game`.
