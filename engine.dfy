/** The game engine: the board array, the falling piece with its anchor, and
    the score, with the moves, the gravity step, the hard drop, landing,
    and the line clear. Random piece choice is the `index` parameter. */
module Engine {
  import opened Pieces
  import opened Board

  class Tetris {
    /** board[y, x]: 0 is empty, any other value is a colour. */
    const board: array2<int>
    var currentPiece: Piece
    var currentX: int
    var currentY: int
    var score: int

    /** Every score-changed signal the engine has emitted, with its payload. */
    ghost var scoreSignals: seq<int>
    /** How many times a spawn failed and the game-over box was shown. */
    ghost var gameOvers: nat

    /** The board array has the board's dimensions, the falling piece lies
        within the board's columns and above its floor, and the score is a
        non-negative multiple of 100. */
    ghost predicate Valid()
      reads this
    {
      board.Length0 == BoardHeight && board.Length1 == BoardWidth &&
      InBounds(currentPiece, currentX, currentY) &&
      WholeHundreds(score)
    }

    /** The board array as a grid value. */
    ghost function Rows(): (g: Grid)
      reads board
      requires board.Length0 == BoardHeight && board.Length1 == BoardWidth
      ensures forall r, c | 0 <= r < BoardHeight && 0 <= c < BoardWidth :: g[r][c] == board[r, c]
    {
      seq(BoardHeight, r requires 0 <= r < BoardHeight reads board =>
        seq(BoardWidth, c requires 0 <= c < BoardWidth reads board => board[r, c]))
    }

    /** A board array that agrees with g cell by cell is g. */
    lemma RowsAre(g: Grid)
      requires board.Length0 == BoardHeight && board.Length1 == BoardWidth
      requires forall r, c | 0 <= r < BoardHeight && 0 <= c < BoardWidth :: board[r, c] == g[r][c]
      ensures Rows() == g
    {
      forall r | 0 <= r < BoardHeight
        ensures Rows()[r] == g[r]
      {
        assert forall c | 0 <= c < BoardWidth :: Rows()[r][c] == g[r][c];
      }
    }

    /** The state a landing leaves, given the grid, score, signals, game-over
        count and piece before it, the row it landed on and the spawn index:
        the piece is locked and the line clear done, the score has grown
        by 100 per cleared row (with a signal iff one was cleared), and the
        spawn piece sits at the spawn anchor. */
    ghost predicate LandedFrom(g: Grid, s: int, signals: seq<int>, overs: nat,
                               p: Piece, x: int, y: int, index: int)
      reads this, board
      requires board.Length0 == BoardHeight && board.Length1 == BoardWidth
      requires 0 <= index < 7
    {
      var locked := Locked(g, p, x, y);
      var n := CountFull(locked);
      Rows() == Compacted(locked) &&
      score == s + 100 * n &&
      scoreSignals == (if n > 0 then signals + [score] else signals) &&
      currentPiece == SpawnPiece(index) && currentX == SpawnX && currentY == 0 &&
      gameOvers == overs + (if Fits(Rows(), SpawnPiece(index), SpawnX, 0) then 0 else 1)
    }

    /** A fresh game: cleared board, score 0, first piece spawned. The spawn
        on the empty board always succeeds. */
    constructor (index: int)
      requires 0 <= index < 7
      ensures Valid() && fresh(board)
      ensures Rows() == EmptyGrid() && score == 0
      ensures currentPiece == SpawnPiece(index) && currentX == SpawnX && currentY == 0
      ensures scoreSignals == [] && gameOvers == 0
      ensures Playable(currentPiece)
    {
      board := new int[BoardHeight, BoardWidth];
      currentPiece := Piece(EmptyMask, 0);
      currentX, currentY, score := 0, 0, 0;
      scoreSignals, gameOvers := [], 0;
      new;
      ClearBoard();
      SpawnFitsOnEmpty(index);
      NewPiece(index);
    }

    /** Empty every cell of the board. */
    method ClearBoard()
      requires board.Length0 == BoardHeight && board.Length1 == BoardWidth
      modifies board
      ensures Rows() == EmptyGrid()
    {
      for i := 0 to BoardHeight
        invariant forall r, c | 0 <= r < i && 0 <= c < BoardWidth :: board[r, c] == 0
      {
        for j := 0 to BoardWidth
          invariant forall r, c | 0 <= r < BoardHeight && 0 <= c < BoardWidth && (r < i || (r == i && c < j)) ::
            board[r, c] == 0
        {
          board[i, j] := 0;
        }
      }
      RowsAre(EmptyGrid());
    }

    /** The placement test of tryMove, on the board as it is. */
    method CanPlace(p: Piece, newX: int, newY: int) returns (ok: bool)
      requires Valid()
      ensures ok == Fits(Rows(), p, newX, newY)
    {
      for i := 0 to 4
        invariant forall i', j' | 0 <= i' < i && 0 <= j' < 4 && p.shape[i'][j'] != 0 ::
          0 <= newX + j' < BoardWidth && newY + i' < BoardHeight && (newY + i' >= 0 ==> board[newY + i', newX + j'] == 0)
      {
        for j := 0 to 4
          invariant forall i', j' | 0 <= i' < 4 && 0 <= j' < 4 && (i' < i || (i' == i && j' < j)) && p.shape[i'][j'] != 0 ::
            0 <= newX + j' < BoardWidth && newY + i' < BoardHeight && (newY + i' >= 0 ==> board[newY + i', newX + j'] == 0)
        {
          if p.shape[i][j] != 0 {
            var x := newX + j;
            var y := newY + i;
            if x < 0 || x >= BoardWidth || y >= BoardHeight {
              assert !CellFree(Rows(), x, y);
              return false;
            }
            if y >= 0 && board[y, x] != 0 {
              assert !CellFree(Rows(), x, y);
              return false;
            }
          }
        }
      }
      return true;
    }

    /** Move, rotate, step down or spawn: commit the candidate piece and
        anchor if they fit; otherwise change nothing. The board and the
        score are never touched. */
    method TryMove(newPiece: Piece, newX: int, newY: int) returns (ok: bool)
      requires Valid()
      modifies this`currentPiece, this`currentX, this`currentY
      ensures Valid()
      ensures ok == Fits(Rows(), newPiece, newX, newY)
      ensures ok ==> currentPiece == newPiece && currentX == newX && currentY == newY
      ensures !ok ==> currentPiece == old(currentPiece) && currentX == old(currentX) && currentY == old(currentY)
      ensures old(Playable(currentPiece)) && Playable(newPiece) ==> Playable(currentPiece)
    {
      ok := CanPlace(newPiece, newX, newY);
      if ok {
        FitsInBounds(Rows(), newPiece, newX, newY);
        currentPiece := newPiece;
        currentX := newX;
        currentY := newY;
      }
    }

    /** Spawn piece `index` at the top centre. If it does not fit the game is
        over, but the overlapping piece stays current: there is no game-over
        state. */
    method NewPiece(index: int)
      requires Valid() && 0 <= index < 7
      modifies this`currentPiece, this`currentX, this`currentY, this`gameOvers
      ensures Valid()
      ensures currentPiece == SpawnPiece(index) && currentX == SpawnX && currentY == 0
      ensures gameOvers == old(gameOvers) + (if Fits(Rows(), SpawnPiece(index), SpawnX, 0) then 0 else 1)
      ensures Playable(currentPiece)
    {
      currentPiece := SpawnPiece(index);
      currentX := SpawnX;
      currentY := 0;
      assert InBounds(currentPiece, currentX, currentY);
      var placed := TryMove(currentPiece, currentX, currentY);
      if !placed {
        gameOvers := gameOvers + 1;
      }
    }

    /** Gravity step: move down one row if that fits, else land. */
    method OneLineDown(index: int) returns (moved: bool)
      requires Valid() && 0 <= index < 7
      requires Fits(Rows(), currentPiece, currentX, currentY + 1) ||
               !IsFull(Locked(Rows(), currentPiece, currentX, currentY)[0])
      modifies board, this`currentPiece, this`currentX, this`currentY, this`score, this`scoreSignals, this`gameOvers
      ensures Valid()
      ensures moved == old(Fits(Rows(), currentPiece, currentX, currentY + 1))
      ensures moved ==> Rows() == old(Rows()) && currentPiece == old(currentPiece) &&
                        currentX == old(currentX) && currentY == old(currentY) + 1 &&
                        score == old(score) && scoreSignals == old(scoreSignals) && gameOvers == old(gameOvers)
      ensures !moved ==> LandedFrom(old(Rows()), old(score), old(scoreSignals), old(gameOvers),
                                    old(currentPiece), old(currentX), old(currentY), index)
      ensures old(Playable(currentPiece)) ==> Playable(currentPiece)
    {
      moved := TryMove(currentPiece, currentX, currentY + 1);
      if !moved {
        PieceDropped(index);
      }
    }

    /** Hard drop: step down until the piece lands. It ends because every
        step moves a piece with an occupied cell one row closer to the
        floor. */
    method DropDown(index: int)
      requires Valid() && 0 <= index < 7
      requires HasCell(currentPiece)
      requires !IsFull(Locked(Rows(), currentPiece, currentX,
                              DropRow(Rows(), currentPiece, currentX, currentY))[0])
      modifies board, this`currentPiece, this`currentX, this`currentY, this`score, this`scoreSignals, this`gameOvers
      ensures Valid()
      ensures LandedFrom(old(Rows()), old(score), old(scoreSignals), old(gameOvers),
                         old(currentPiece), old(currentX),
                         DropRow(old(Rows()), old(currentPiece), old(currentX), old(currentY)), index)
      ensures Playable(currentPiece)
    {
      ghost var g, p, x := Rows(), currentPiece, currentX;
      ghost var land := DropRow(g, p, x, currentY);
      var moved := OneLineDown(index);
      while moved
        invariant Valid()
        invariant moved ==> Rows() == g && currentPiece == p && currentX == x &&
                            DropRow(g, p, x, currentY) == land &&
                            score == old(score) && scoreSignals == old(scoreSignals) && gameOvers == old(gameOvers)
        invariant moved ==> currentY < BoardHeight
        invariant !moved ==> LandedFrom(g, old(score), old(scoreSignals), old(gameOvers), p, x, land, index)
        decreases if moved then BoardHeight - currentY else 0
      {
        moved := OneLineDown(index);
        if moved {
          FitsAboveFloor(g, p, x, currentY);
        }
      }
    }

    /** Landing: lock the piece, clear full rows, spawn the next piece. */
    method PieceDropped(index: int)
      requires Valid() && 0 <= index < 7
      requires !IsFull(Locked(Rows(), currentPiece, currentX, currentY)[0])
      modifies board, this`currentPiece, this`currentX, this`currentY, this`score, this`scoreSignals, this`gameOvers
      ensures Valid()
      ensures LandedFrom(old(Rows()), old(score), old(scoreSignals), old(gameOvers),
                         old(currentPiece), old(currentX), old(currentY), index)
      ensures Playable(currentPiece)
    {
      LockPiece();
      RemoveFullLines();
      NewPiece(index);
    }

    /** Write the piece's colour into every board cell it covers; cells
        above the board are skipped. */
    method LockPiece()
      requires Valid()
      modifies board
      ensures Rows() == Locked(old(Rows()), currentPiece, currentX, currentY)
      ensures currentPiece.color != 0 ==>
        forall r, c | 0 <= r < BoardHeight && 0 <= c < BoardWidth && Covers(currentPiece, currentX, currentY, r, c) ::
          Rows()[r][c] != 0
    {
      ghost var g := Rows();
      for i := 0 to 4
        invariant forall r, c | 0 <= r < BoardHeight && 0 <= c < BoardWidth ::
          board[r, c] == if Covers(currentPiece, currentX, currentY, r, c) && r - currentY < i
                         then currentPiece.color else g[r][c]
      {
        for j := 0 to 4
          invariant forall r, c | 0 <= r < BoardHeight && 0 <= c < BoardWidth ::
            board[r, c] == if Covers(currentPiece, currentX, currentY, r, c) &&
                              (r - currentY < i || (r - currentY == i && c - currentX < j))
                           then currentPiece.color else g[r][c]
        {
          if currentPiece.shape[i][j] != 0 {
            var x := currentX + j;
            var y := currentY + i;
            if y >= 0 {
              board[y, x] := currentPiece.color;
            }
          }
        }
      }
      RowsAre(Locked(g, currentPiece, currentX, currentY));
      if currentPiece.color != 0 {
        LockOccupies(g, currentPiece, currentX, currentY);
      }
    }

    /** Row y has no empty cell. */
    method RowIsFull(y: int) returns (full: bool)
      requires Valid() && 0 <= y < BoardHeight
      ensures full == IsFull(Rows()[y])
    {
      full := true;
      var x := 0;
      while x < BoardWidth
        invariant 0 <= x <= BoardWidth
        invariant forall c | 0 <= c < x :: board[y, c] != 0
      {
        if board[y, x] == 0 {
          full := false;
          break;
        }
        x := x + 1;
      }
    }

    /** Copy rows y-1, ..., 0 into rows y, ..., 1, bottom first. */
    method ShiftRowsDown(y: int)
      requires Valid() && 0 <= y < BoardHeight
      modifies board
      ensures Rows() == Shifted(old(Rows()), y)
    {
      ghost var g := Rows();
      var yy := y;
      while yy > 0
        invariant 0 <= yy <= y
        invariant forall r, c | 0 <= r < BoardHeight && 0 <= c < BoardWidth ::
          board[r, c] == if yy < r <= y then g[r - 1][c] else g[r][c]
      {
        for x := 0 to BoardWidth
          invariant forall r, c | 0 <= r < BoardHeight && 0 <= c < BoardWidth ::
            board[r, c] == if yy < r <= y || (r == yy && c < x) then g[r - 1][c] else g[r][c]
        {
          board[yy, x] := board[yy - 1, x];
        }
        yy := yy - 1;
      }
      RowsAre(Shifted(g, y));
    }

    /** One step of the scan on a full row y: the rows above it move down,
        which takes the scan one full row further. */
    method RemoveScannedRow(y: int, ghost g: Grid, ghost n: nat, ghost p: nat)
      requires Valid() && 0 < p <= BoardHeight && y == n + p - 1
      requires Rows() == ScanState(g, n, p)
      requires IsFull(g[p - 1]) && !IsFull(g[0])
      modifies board
      ensures Rows() == ScanState(g, n + 1, p - 1)
      ensures CountFull(g[p - 1..]) == CountFull(g[p..]) + 1
    {
      ShiftStep(g, n, p);
      ShiftRowsDown(y);
    }

    /** The scan state of the line clear: n full rows of g have been
        removed, the rows g[p..] have been examined, and y is the next row to
        examine. Once every row is examined (p == 0) the remaining rows up
        to y are copies of row 0. */
    ghost predicate Scanning(g: Grid, y: int, n: int, p: nat)
      reads this, board
    {
      board.Length0 == BoardHeight && board.Length1 == BoardWidth &&
      0 <= n && p <= BoardHeight &&
      Rows() == ScanState(g, n, p) &&
      n == CountFull(g[p..]) &&
      (p > 0 ==> y == n + p - 1) &&
      (p == 0 ==> -1 <= y < n)
    }

    /** One step of the scan at row y: a full row is removed and y is
        examined again, any other row is passed over. */
    method ScanStep(y: int, ghost g: Grid, n: int, ghost p: nat) returns (y': int, n': int, ghost p': nat)
      requires Valid() && !IsFull(g[0]) && 0 <= y
      requires Scanning(g, y, n, p)
      modifies board
      ensures Scanning(g, y', n', p')
      ensures y' < y || (y' == y && p' < p)
    {
      ScanView(g, n, p);
      var full := RowIsFull(y);
      if full {
        assert 0 < p && Rows()[y] == g[p - 1];
        RemoveScannedRow(y, g, n, p);
        y', n', p' := y, n + 1, p - 1;
      } else {
        y', n' := y - 1, n;
        if p > 0 {
          SkipStep(g, n, p);
          p' := p - 1;
        } else {
          p' := p;
        }
      }
    }

    /** The scan of the line clear: examine the rows bottom-up; remove each
        full row by shifting the rows above it down, then examine the same
        row again. Row 0 must not be full: for a full row 0 the scan never
        ends. Returns the number of rows removed. */
    method CompactRows() returns (numFullLines: int)
      requires Valid()
      requires !IsFull(Rows()[0])
      modifies board
      ensures Rows() == Compacted(old(Rows()))
      ensures numFullLines == CountFull(old(Rows()))
    {
      ghost var g := Rows();
      ghost var p: nat := BoardHeight;
      numFullLines := 0;
      var y := BoardHeight - 1;
      ScanStart(g);
      while y >= 0
        invariant Valid() && Scanning(g, y, numFullLines, p)
        decreases y + 1, p
      {
        y, numFullLines, p := ScanStep(y, g, numFullLines, p);
      }
      ScanEnd(g);
    }

    /** Line clear: compact the rows, then add 100 per removed row to the
        score and signal the new score if any row was removed. */
    method RemoveFullLines()
      requires Valid()
      requires !IsFull(Rows()[0])
      modifies board, this`score, this`scoreSignals
      ensures Valid()
      ensures Rows() == Compacted(old(Rows()))
      ensures score == old(score) + 100 * CountFull(old(Rows()))
      ensures scoreSignals == if CountFull(old(Rows())) > 0 then old(scoreSignals) + [score] else old(scoreSignals)
    {
      var numFullLines := CompactRows();
      if numFullLines > 0 {
        AddHundreds(score, numFullLines);
        score := score + 100 * numFullLines;
        scoreSignals := scoreSignals + [score];
      }
    }
  }
}
