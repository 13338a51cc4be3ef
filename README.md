# A verified model of the Tetris game engine

This project models the game-state engine of a small falling-block game, the
file `Tetris.py`, in Dafny. The engine is split into four modules that follow
its components:

- `Shapes` (`shapes.dfy`): the seven tetromino matrices (`SHAPES`), the
  clockwise quarter turn (`zip(*shape)` with every row reversed), the
  occupied-cell count, and the falling piece as a class `Tetromino` whose
  `Rotate` replaces its shape in place.
- `Board` (`board.dfy`): the 20 x 10 grid of palette indices (0 is empty,
  1..7 are colours), the collision predicate `Collides`, the grid after locking
  a piece (`Locked`), the grid after one line-clearing pass (`Cleared`), and
  the row a hard drop comes to rest on (`DropRow`).
- `Scoring` (`scoring.dfy`): score, level and fall interval after a lock that
  cleared some rows (`Rescore`), and the invariant `Consistent` that ties
  them together over a session.
- `Tetris` (`game.dfy`): the class `Game` holding the grid (a `seq` field the
  methods reassign, as the source mutates its list of lists), the active
  piece, score, level, fall interval and the time of the last automatic fall.
  Its methods are the source's `check_collision`, `merge_piece` (split into the
  cell-writing loop `LockCells` and the whole `MergePiece`), `clear_lines`,
  `new_piece`, `game_over`, and the key and auto-fall branches of `run`.

The constructor and the methods `GameOver`, `NewPiece`, `MergePiece`,
`Shift`, `RotateOrRevert`, `HardDrop`, `HandleKey` and `AutoFall` establish
the session invariant `Valid()`. `LockCells` and `ClearLines` are steps
inside `MergePiece` and do not: right after them the old piece overlaps its
own locked cells or rows that moved down. `Valid()` says that the grid stays 20
rows of 10 palette indices, the active piece is a non-empty rectangular
matrix with an occupied cell and a colour in 1..7, it sits at or below row 0,
it never collides at its own position, and score, level and fall interval
are consistent (`level == 1 + score / 1000`, the fall interval 1000 ms until
the first clear and `max(100, 1000 - 100 * level)` after it).

The code's rows loop in `clear_lines` deletes a full row and inserts an empty
row on top while enumerating the same list. Doing both keeps every row after
the current index where it was, so the pass examines every original row
exactly once. `Game.ClearLines` models that loop literally (delete, insert,
advance the index); its loop invariant says that the rows examined so far have
become "one empty row per full row, then the kept rows in order", and the
method is proved equal to `Cleared`.

Randomness and time are parameters. A piece spawn is a `Spawn(kind, color)`,
where kind is an index into `SHAPES` and color lies in 1..7. A lock can end the
game, which re-runs the session's initialisation. That restart draws a second
piece and reads the clock again, so a lock takes
`Draws(next, restart, clock)`. The auto-fall takes the frame's clock reading
`now`. Key presses are the enumeration `Key = Left | Right | Down | Up | Space`.

Worth knowing about the code as written: a session starts with a 1000 ms fall
interval, and the first clear sets it to 900 ms even though the level stays
1, because the interval formula at level 1 gives 900. The model keeps this
behaviour and states it in `Consistent`. There is no level cap: the class
comment speaks of levels 1-10, but the code does not enforce one.

## Model

| member | source | states |
|---|---|---|
| Shapes.Rotated | Tetris.py:62-63 | turning an R x C matrix gives a C x R matrix with new[c][R-1-r] = old[r][c] |
| Shapes.RotatedOccupied | Tetris.py:62-63 | a turned shape that had an occupied cell still has one |
| Shapes.RotatedTwice | Tetris.py:62-63 | two quarter turns turn the matrix upside down and mirror it, with the same dimensions |
| Shapes.RotatedFourTimes | Tetris.py:62-63 | four quarter turns give back a matrix equal to the original, for every rectangular shape, square or not |
| Shapes.TurnsFour | Tetris.py:330-333 | the rotation followed by three more, as the revert does, is the original shape |
| Shapes.RotatedCells | Tetris.py:62-63 | a quarter turn preserves the number of occupied cells |
| Shapes.CellsColumns | Tetris.py:63 | transposing (`zip(*shape)`) neither creates nor loses occupied cells |
| Shapes.RowCellsReverse | Tetris.py:63 | reversing a row keeps its occupied cells |
| Shapes.CanonicalShapes | Tetris.py:27-35 | each of the seven shapes is a rectangular matrix of at most 2 x 4 with an occupied cell (at row 0, column 1) |
| Shapes.Tetromino.constructor | Tetris.py:52-60 | a new piece has the chosen canonical shape, the chosen colour in 1..7 and the given position |
| Shapes.Tetromino.Rotate | Tetris.py:62-63 | rotation replaces the shape by its quarter turn and changes nothing else |
| Board.EmptyGrid | Tetris.py:101 | the initial grid is 20 rows of 10 empty cells |
| Board.CollidesShift | Tetris.py:197-198 | testing at offset (dx, dy) is testing the piece moved by (dx, dy) at offset (0, 0) |
| Board.ClearPlacementFits | Tetris.py:199-202 | a piece at row >= 0 that does not collide lies inside the board, on empty cells |
| Board.AboveFloor | Tetris.py:199 | a piece that does not collide has its top row above the floor (row < 20) |
| Board.LockedSpec | Tetris.py:223-226 | locking a piece that lies on the board keeps a well-formed 20 x 10 board, and the locked piece then collides at its own place (which cells get the colour is the definition of `Locked`) |
| Board.ClearPassStep | Tetris.py:251-255 | after a delete-and-insert step the row at the current index is still the original one, and the rows up to it are done |
| Board.KeptSpec | Tetris.py:251-255 | the kept rows are non-full rows of the original board, and kept plus full rows make up all rows |
| Board.ClearedSpec | Tetris.py:250-255 | clearing keeps 20 rows of 10 palette indices and leaves no full row |
| Board.ClearedNoFullRows | Tetris.py:251-256 | a board with no full row clears 0 lines and is left unchanged |
| Board.ClearedIdempotent | Tetris.py:251-255 | clearing a cleared board clears nothing and changes nothing |
| Board.ClearedBottomRow | Tetris.py:251-255 | when only the bottom row is full, one line goes, the rows above move down by one and an empty row enters at the top |
| Board.DropRow | Tetris.py:334-336 | the hard-drop resting row is at or below the start, free, blocked one row further down, and every row passed on the way has a free row below it |
| Board.SpawnFitsEmpty | Tetris.py:101-106 | every canonical shape at (4, 0) fits the empty board, so the restart never ends the game again |
| Board.SpawnBlockedByTopRow | Tetris.py:112-114 | with the top row full, every canonical shape at (4, 0) collides, so spawning ends the game |
| Scoring.RescoreSpec | Tetris.py:256-259 | rescoring keeps progress consistent; the score gains 100 * lines * old level and rises strictly when a line was cleared; the level never falls; the fall interval never grows and stays >= 100 |
| Scoring.RescoreTwoLinesFromStart | Tetris.py:256-259 | from score 0 at level 1, clearing 2 lines gives score 200, level 1, fall interval 900 |
| Scoring.RescoreReachesLevelTwo | Tetris.py:256-259 | from score 950 at level 1, clearing 1 line gives score 1050, level 2, fall interval 800 |
| Tetris.Game.constructor | Tetris.py:92-106 | a new session has the empty board, score 0, level 1, fall interval 1000, the timer at the given clock and a freshly allocated first piece at (4, 0) |
| Tetris.Game.GameOver | Tetris.py:261-286 | game over resets the session in place: empty board, score 0, level 1, fall interval 1000, a fresh piece at (4, 0) |
| Tetris.Game.CheckCollision | Tetris.py:180-203 | the nested scan with early return answers exactly `Collides` at offset (dx, dy), and it modifies nothing |
| Tetris.Game.LockCells | Tetris.py:223-226 | the nested write loop leaves the grid equal to `Locked` of the old grid and the piece |
| Tetris.Game.ClearLines | Tetris.py:250-259 | the delete-and-insert pass leaves `Cleared` of the old grid, counts the full rows of the old grid, and updates score, level and fall interval by `Rescore` |
| Tetris.Game.NewPiece | Tetris.py:108-114 | the next piece appears at (4, 0); if it collides there the session restarts, else nothing but the piece changes |
| Tetris.Game.MergePiece | Tetris.py:223-228 | the state becomes: lock, clear, rescore, then spawn or restart; the invariant holds afterwards |
| Tetris.Game.Shift | Tetris.py:320-328 | left, right and soft drop change x or y by exactly 1, only when the matching collision test is false, and change nothing else |
| Tetris.Game.RotateOrRevert | Tetris.py:329-333 | the shape becomes its quarter turn if that does not collide, else it is the original again; nothing else changes |
| Tetris.Game.HardDrop | Tetris.py:334-337 | the piece descends to `DropRow` and is merged there |
| Tetris.Game.HandleKey | Tetris.py:319-337 | each key has the effect of its branch and keeps the invariant, in particular "the active piece does not collide at (0, 0)" |
| Tetris.Game.AutoFall | Tetris.py:339-344 | nothing happens until the interval has passed; then the piece falls one row and the timer becomes `now`, or it merges with the timer unchanged |

## Left out

- All rendering and window setup (`draw_grid`, `draw_piece`, text, blitting, display
  updates, caption, frame-rate clock): presentation through a foreign library.
- Event polling and the quit event: keys arrive as `Key` values, one call of
  `HandleKey` per key-down event; the frame is the caller's sequence of
  `HandleKey` calls followed by one `AutoFall` with the frame's clock reading.
- `random.choice` and `random.randint`: replaced by the `Spawn` and `Draws` parameters.
- `pygame.time.get_ticks` and the 3-second pause of `game_over`: the clock reading is a
  parameter and the pause is only a delay.
- Pixel geometry, the frame rate and the RGB values of the palette: only the palette size
  (8 entries, 0 meaning empty) is modelled.
- Python's negative list indices: `merge_piece` would write rows above the top into the bottom
  rows, but pieces start at row 0 and only move down, so the invariant `piece.y >= 0` rules it out.
- Ragged shape matrices: `zip` would truncate them, but every shape is rectangular, so
  `Rotated` requires a rectangular matrix.
- The number of occupied cells of each canonical shape (four) is not stated; rotation is proved
  to preserve the count of any rectangular shape.
