# Tetris game engine

A model of the game engine of a small Qt Tetris widget (`tetriswidget.cpp`).
It covers the 20-row by 10-column playfield, the falling tetromino with its
anchor `(currentX, currentY)`, the running score, and the operations that
change them.

- Querying whether a piece fits at a position.
- Moving a piece: sideways, rotated or one row down.
- Hard-dropping a piece.
- Locking a landed piece into the board.
- Clearing full lines, scoring 100 points per line.
- Spawning the next piece, with the game-over test.

The modules follow the program's structure:

- `pieces.dfy` (module `Pieces`): a piece is a value. It holds a 4x4 mask
  and a colour. This module has the two rotations as functions, the seven
  spawn shapes and the colour table.
- `board.dfy` (module `Board`): the playfield as a value `Grid`
  (`seq<seq<int>>`, 0 meaning empty). On it are defined the
  specification functions the engine is proved against:
  - `Fits`: the placement test;
  - `Locked`: the board with a piece written into it;
  - `DropRow`: where a hard drop lands;
  - `CountFull`, `NonFull` and `Compacted`: what line clearing leaves.
- `engine.dfy` (module `Engine`): the class `Tetris`. It owns the board as
  an `array2<int>` and has the piece, anchor and score fields. Its methods
  update these in place, with the loops of the original, and each method
  is proved against the functions of `Board` through the view `Rows()`.

Where the code and the prose description of the game differ, the code is
followed.

- Line clearing copies rows down with `memcpy(board[yy], board[yy-1])` for
  `yy > 0` only. So row 0 is never blanked: after `n` full lines the top
  `n + 1` rows all equal the old row 0 (`Board.Compacted`). Row 0 holds
  cells once a piece locks at anchor row 0 with an occupied cell in its
  mask's top row. That can happen without a game over, for instance when a
  piece is moved aside at the top over a high stack. From then on each
  clear duplicates those cells into the rows below row 0.
- After a full row has been shifted away the scan re-examines the same
  index. A full row 0 therefore makes the scan loop forever. Every
  operation that may clear lines requires row 0 to be non-full after the
  lock (see "## Left out").
- There is no game-over flag. A failed spawn stops the timer and shows a
  message, but the spawned piece stays current even though it does not fit.
  The model counts these events in the ghost field `gameOvers`.
- `score` changes only in line clearing. Each change is recorded in the
  ghost field `scoreSignals` (the `scoreChanged` signal). The class
  invariant keeps the score a non-negative multiple of 100.

## Model

| member | source | states |
|---|---|---|
| Pieces.RotatedRight | tetriswidget.cpp:66-73 | A clockwise turn keeps the colour and the number of occupied cells. |
| Pieces.RotatedLeft | tetriswidget.cpp:75-82 | A counter-clockwise turn keeps the colour and the number of occupied cells. |
| Pieces.LeftUndoesRight | tetriswidget.cpp:66-82 | Turning left after turning right gives back the original piece. |
| Pieces.RightUndoesLeft | tetriswidget.cpp:66-82 | Turning right after turning left gives back the original piece. |
| Pieces.HalfTurn | tetriswidget.cpp:66-73 | Two clockwise turns reflect the mask through its centre. |
| Pieces.FourRightTurns | tetriswidget.cpp:66-73 | Four clockwise turns are the identity. |
| Pieces.FourLeftTurns | tetriswidget.cpp:75-82 | Four counter-clockwise turns are the identity. |
| Pieces.HasCellIffCount | tetriswidget.cpp:66-82 | A piece has an occupied cell exactly when its cell count is positive. |
| Pieces.RotationKeepsHasCell | tetriswidget.cpp:66-82 | Rotation never turns a non-empty piece into an empty one, or back. |
| Pieces.RotationKeepsPlayable | tetriswidget.cpp:66-82 | A rotation is a piece in play (an occupied cell and a nonzero colour) exactly when the original is. |
| Pieces.SpawnPiece | tetriswidget.cpp:86-98 | Every spawn index gives a piece in play: a nonzero colour and at least one occupied cell. |
| Pieces.SpawnIsTetromino | tetriswidget.cpp:86-94 | Each of the seven spawn shapes has exactly four occupied cells. |
| Board.Fits | tetriswidget.cpp:111-122 | The reference placement test: every occupied mask cell, moved by the anchor, lies between the walls, above the floor, and on an empty square or above the top edge. |
| Board.RefusedCell | tetriswidget.cpp:111-122 | An occupied cell left of the wall, right of the wall, below the floor or on a filled square makes the placement fail. |
| Board.FitsInBounds | tetriswidget.cpp:111-122 | A placement that fits keeps every occupied cell between the walls and above the floor. |
| Board.FitsOnEmpty | tetriswidget.cpp:111-122 | On an empty board a placement fits exactly when it is in bounds. Cells above the top edge are allowed. |
| Board.SpawnFitsOnEmpty | tetriswidget.cpp:96-103 | Every spawn piece fits at the spawn anchor on an empty board, so the first spawn never ends the game. |
| Board.FitsAboveFloor | tetriswidget.cpp:111-122 | A non-empty piece that fits has its anchor above the floor. |
| Board.DropRow | tetriswidget.cpp:131-142 | The landing row of a hard drop: every row passed on the way fits and the row below it does not. |
| Board.Locked | tetriswidget.cpp:146-154 | The reference lock: each cell on the board that the piece covers takes the piece colour, and every other cell keeps its value. |
| Board.LockOccupies | tetriswidget.cpp:146-154 | Locking paints every covered on-board cell with the piece colour and never empties a filled cell. Afterwards the piece no longer fits where it locked, if any of its cells is on the board. |
| Board.LockedFrame | tetriswidget.cpp:146-154 | Locking changes no row outside the piece's four rows. In particular it leaves row 0 alone when the anchor is below it. |
| Board.IsFull | tetriswidget.cpp:163-169 | The reference full-row test: no cell of the row is empty. |
| Board.CountFull | tetriswidget.cpp:163-171 | The number of full rows is at most the number of rows. |
| Board.NonFull | tetriswidget.cpp:160-176 | The surviving rows are never full, and they account for every row that is not counted as full. |
| Board.NonFullMembers | tetriswidget.cpp:160-176 | A row survives exactly when it was on the board and is not full. |
| Board.NonFullAppend | tetriswidget.cpp:160-176 | Filtering and counting full rows distribute over concatenation of row blocks. |
| Board.NoFullRowIffZero | tetriswidget.cpp:163-171 | No row is full exactly when the full-row count is zero. |
| Board.NonFullOfOpenRows | tetriswidget.cpp:160-176 | Line clearing keeps a block with no full row unchanged. |
| Board.Shifted | tetriswidget.cpp:172-173 | The shift after a full row at `y`: each row above `y` moves down one, row 0 stays, rows below `y` are untouched. |
| Board.Compacted | tetriswidget.cpp:160-176 | Clearing keeps the height. When row 0 is not full, no full row remains and the top `CountFull + 1` rows copy old row 0. |
| Board.CompactedWithoutFullRows | tetriswidget.cpp:160-176 | A board without full rows is left unchanged by line clearing. |
| Board.BottomRowClears | tetriswidget.cpp:160-176 | A filled bottom row on an otherwise empty board counts as one line and clears to the empty board. |
| Board.ShiftStep | tetriswidget.cpp:170-175 | One step of the scan on a full row: shifting from the scan position moves the scanned state one full row further. |
| Board.SkipStep | tetriswidget.cpp:162-176 | One step of the scan on a non-full row leaves the scanned state unchanged between positions. |
| Board.ScanEnd | tetriswidget.cpp:160-176 | When the scan is done, its state equals the compacted board. |
| Board.AddHundreds | tetriswidget.cpp:177-178 | Adding 100 per cleared line keeps the score a non-negative multiple of 100. |
| Engine.Tetris.constructor | tetriswidget.cpp:10-16 | A new game has an empty board, score 0, no signal or game over, and the spawned piece, which is in play, at the spawn anchor. |
| Engine.Tetris.ClearBoard | tetriswidget.cpp:59-63 | The board becomes the empty grid. |
| Engine.Tetris.CanPlace | tetriswidget.cpp:111-122 | The answer is exactly the placement test `Fits` on the current board, and nothing changes. |
| Engine.Tetris.TryMove | tetriswidget.cpp:110-128 | Succeeds exactly when the piece fits. On success it installs the new piece and anchor; on failure the piece and anchor stay as they were. The board never changes. A piece in play stays in play when the candidate is in play, so key-driven moves and rotations keep it. |
| Engine.Tetris.NewPiece | tetriswidget.cpp:85-107 | The chosen shape and colour become current at `(BoardWidth/2 - 2, 0)`. A game over is recorded exactly when that placement does not fit. The new current piece is in play. |
| Engine.Tetris.OneLineDown | tetriswidget.cpp:136-142 | Moves down exactly when the piece fits one row lower, changing only the anchor row. Otherwise the piece is locked, lines are cleared, the score updated and the next piece spawned. A piece in play stays in play. |
| Engine.Tetris.DropDown | tetriswidget.cpp:131-133 | The piece lands at the hard-drop row `DropRow`, and the board, score and next piece follow as for a landing there. The next piece is in play. |
| Engine.Tetris.PieceDropped | tetriswidget.cpp:145-157 | Lock, line clear and spawn, composed: the board becomes the compacted locked board and the score grows by 100 per full line. The next piece is in play. |
| Engine.Tetris.LockPiece | tetriswidget.cpp:146-154 | The board becomes the current board with the piece written in at its anchor. With a nonzero colour every covered on-board cell is then occupied. |
| Engine.Tetris.RowIsFull | tetriswidget.cpp:163-169 | The answer is true exactly when every cell of row `y` is filled. |
| Engine.Tetris.ShiftRowsDown | tetriswidget.cpp:172-173 | The board becomes the shift of the old board at row `y`. |
| Engine.Tetris.RemoveScannedRow | tetriswidget.cpp:170-175 | Removing a full row at the scan position takes the scan state one full row further and counts one more full row. |
| Engine.Tetris.ScanStep | tetriswidget.cpp:162-176 | One pass of the scan loop keeps the scan state and makes progress: either the row index falls, or the same row is examined again with one fewer unexamined row. |
| Engine.Tetris.CompactRows | tetriswidget.cpp:161-176 | The bottom-up scan leaves the compacted board and returns the number of full rows. |
| Engine.Tetris.RemoveFullLines | tetriswidget.cpp:160-182 | The board is compacted and the score grows by 100 per full row. Exactly one score signal with the new score is emitted when at least one line was cleared. |

## Left out

- Drawing (`paintEvent`, `drawBoard`, `drawPiece`) and the widget's fixed size: only presentation.
- Keyboard and timer dispatch (`keyPressEvent`, `timerEvent`) is not modelled as a method. Each key and tick calls `TryMove`, `DropDown` or `OneLineDown` with arguments that are easy to read off, and those calls are modelled.
- The timer itself, `QMessageBox` and `update()` are left out. The game-over message and the score signal become the ghost counters `gameOvers` and `scoreSignals`.
- `QRandomGenerator`: the random spawn index is a parameter `index` in `0..6` of every operation that may spawn a piece.
- `memcpy` of a piece mask or a board row is modelled as an element-wise copy.
- `tetriswidget.h` is not part of this model. The board size 10x20 and the 4x4 `int` mask with a colour are taken as given.
- Engine.Tetris.RemoveFullLines: the score is an unbounded integer, so wrap-around of the C++ `int` score is not modelled.
- Engine.Tetris.CompactRows: requires row 0 to be non-full. With a full row 0 the source re-scans row 0 forever, so there is no result to state.
- Engine.Tetris.RemoveFullLines: requires row 0 to be non-full, because the scan it performs does not end otherwise.
- Engine.Tetris.PieceDropped: requires row 0 to be non-full after the lock, for the same reason.
- Engine.Tetris.OneLineDown: requires row 0 to be non-full after the lock, when the piece would land, for the same reason.
- Engine.Tetris.DropDown: requires the piece to have an occupied cell. A piece with an empty mask fits at every row and the source's drop loop never ends. It also requires row 0 to be non-full after the lock at the landing row.
- Engine.Tetris.LockPiece: the source writes `board[y][x]` without a bounds check. The class invariant keeps every occupied cell of the current piece between the walls and above the floor, so that write never leaves the board.
- The piece before the first spawn (the default-constructed `Piece`) is modelled as an empty mask with colour 0. The constructor replaces it at once.
