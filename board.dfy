/** The playing field as a value: a grid of cells (0 is empty, anything else
    a colour), the placement test, locking a piece, and the row compaction
    that the line clear performs. The engine's array-backed board is
    specified by these functions. */
module Board {
  import opened Pieces

  const BoardWidth: int := 10
  const BoardHeight: int := 20

  /** Column of the anchor of a freshly spawned piece. */
  const SpawnX: int := BoardWidth / 2 - 2

  type Row = seq<int>

  /** A BoardHeight x BoardWidth grid; row 0 is the top row. */
  type Grid = g: seq<Row> | |g| == BoardHeight && forall r | 0 <= r < BoardHeight :: |g[r]| == BoardWidth
    witness seq(BoardHeight, _ => seq(BoardWidth, _ => 0))

  function EmptyGrid(): Grid
  {
    seq(BoardHeight, _ => seq(BoardWidth, _ => 0))
  }

  // ---------------------------------------------------------------------
  // Placement

  /** A piece cell may sit at column x, row y: x is on the board, y is above
      the floor, and if y is on the board the cell there is empty. Rows above
      the board (y < 0) are only checked for the column. */
  predicate CellFree(g: Grid, x: int, y: int)
  {
    0 <= x < BoardWidth && y < BoardHeight && (y >= 0 ==> g[y][x] == 0)
  }

  /** The placement test: every occupied mask cell (i, j), moved to
      (x + j, y + i), is free. */
  predicate Fits(g: Grid, p: Piece, x: int, y: int)
  {
    forall i, j | 0 <= i < 4 && 0 <= j < 4 && p.shape[i][j] != 0 :: CellFree(g, x + j, y + i)
  }

  /** Every occupied cell of the piece lies in a column of the board and above
      its floor (it may overlap filled cells). */
  predicate InBounds(p: Piece, x: int, y: int)
  {
    forall i, j | 0 <= i < 4 && 0 <= j < 4 && p.shape[i][j] != 0 :: 0 <= x + j < BoardWidth && y + i < BoardHeight
  }

  /** The three ways a placement is refused, one occupied cell at a time. */
  lemma RefusedCell(g: Grid, p: Piece, x: int, y: int, i: int, j: int)
    requires Occupies(p, i, j)
    ensures x + j < 0 ==> !Fits(g, p, x, y)
    ensures x + j >= BoardWidth ==> !Fits(g, p, x, y)
    ensures y + i >= BoardHeight ==> !Fits(g, p, x, y)
    ensures 0 <= x + j < BoardWidth && 0 <= y + i < BoardHeight && g[y + i][x + j] != 0 ==> !Fits(g, p, x, y)
  {
    if !CellFree(g, x + j, y + i) {
      assert !Fits(g, p, x, y);
    }
  }

  /** A placement that passes is in bounds. */
  lemma FitsInBounds(g: Grid, p: Piece, x: int, y: int)
    requires Fits(g, p, x, y)
    ensures InBounds(p, x, y)
  {
    forall i, j | Occupies(p, i, j)
      ensures 0 <= x + j < BoardWidth && y + i < BoardHeight
    {
      assert CellFree(g, x + j, y + i);
    }
  }

  /** On an empty board only the bounds matter. */
  lemma FitsOnEmpty(p: Piece, x: int, y: int)
    ensures Fits(EmptyGrid(), p, x, y) <==> InBounds(p, x, y)
  {
    if InBounds(p, x, y) {
      forall i, j | Occupies(p, i, j)
        ensures CellFree(EmptyGrid(), x + j, y + i)
      {
      }
    } else {
      var i, j :| 0 <= i < 4 && 0 <= j < 4 && p.shape[i][j] != 0 && !(0 <= x + j < BoardWidth && y + i < BoardHeight);
      RefusedCell(EmptyGrid(), p, x, y, i, j);
    }
  }

  /** Every spawn piece fits at the spawn anchor of an empty board. */
  lemma SpawnFitsOnEmpty(index: int)
    requires 0 <= index < 7
    ensures Fits(EmptyGrid(), SpawnPiece(index), SpawnX, 0)
  {
    var p := SpawnPiece(index);
    assert InBounds(p, SpawnX, 0);
    FitsOnEmpty(p, SpawnX, 0);
  }

  /** Below a placement that fits, there is still a row of the board. */
  lemma FitsAboveFloor(g: Grid, p: Piece, x: int, y: int)
    requires HasCell(p) && Fits(g, p, x, y)
    ensures y < BoardHeight
  {
    var i, j :| 0 <= i < 4 && 0 <= j < 4 && p.shape[i][j] != 0;
    assert CellFree(g, x + j, y + i);
  }

  /** The row a piece lands on when it falls from row y: it keeps moving down
      while the next row down fits. */
  ghost function DropRow(g: Grid, p: Piece, x: int, y: int): (r: int)
    requires HasCell(p)
    decreases BoardHeight - y
    ensures r >= y
    ensures forall k | y < k <= r :: Fits(g, p, x, k)
    ensures !Fits(g, p, x, r + 1)
  {
    if Fits(g, p, x, y + 1) then
      FitsAboveFloor(g, p, x, y + 1);
      DropRow(g, p, x, y + 1)
    else
      y
  }

  // ---------------------------------------------------------------------
  // Locking

  /** Board cell (c, r) lies under occupied mask cell (r - y, c - x). */
  predicate Covers(p: Piece, x: int, y: int, r: int, c: int)
  {
    Occupies(p, r - y, c - x)
  }

  /** The grid after writing the piece's colour into every board cell it
      covers. Covered cells above the board are dropped. */
  function Locked(g: Grid, p: Piece, x: int, y: int): Grid
  {
    seq(BoardHeight, r requires 0 <= r < BoardHeight =>
      seq(BoardWidth, c requires 0 <= c < BoardWidth =>
        if Covers(p, x, y, r, c) then p.color else g[r][c]))
  }

  /** With a nonzero colour, locking occupies every covered cell, never
      empties one, and leaves the piece unable to sit where it locked when
      one of its cells is on the board. */
  lemma LockOccupies(g: Grid, p: Piece, x: int, y: int)
    requires p.color != 0
    ensures forall r, c | 0 <= r < BoardHeight && 0 <= c < BoardWidth && Covers(p, x, y, r, c) ::
      Locked(g, p, x, y)[r][c] != 0
    ensures forall r, c | 0 <= r < BoardHeight && 0 <= c < BoardWidth && g[r][c] != 0 ::
      Locked(g, p, x, y)[r][c] != 0
    ensures (exists i, j | Occupies(p, i, j) :: 0 <= y + i && 0 <= x + j < BoardWidth && y + i < BoardHeight) ==>
      !Fits(Locked(g, p, x, y), p, x, y)
  {
    if exists i, j | Occupies(p, i, j) :: 0 <= y + i && 0 <= x + j < BoardWidth && y + i < BoardHeight {
      var i, j :| Occupies(p, i, j) && 0 <= y + i && 0 <= x + j < BoardWidth && y + i < BoardHeight;
      assert Covers(p, x, y, y + i, x + j);
      RefusedCell(Locked(g, p, x, y), p, x, y, i, j);
    }
  }

  /** Locking never touches a row outside the four the mask spans; a piece
      locked at row 1 or lower leaves the top row as it was. */
  lemma LockedFrame(g: Grid, p: Piece, x: int, y: int)
    ensures forall r | 0 <= r < BoardHeight && !(y <= r < y + 4) :: Locked(g, p, x, y)[r] == g[r]
    ensures y >= 1 ==> Locked(g, p, x, y)[0] == g[0]
  {
    forall r | 0 <= r < BoardHeight && !(y <= r < y + 4)
      ensures Locked(g, p, x, y)[r] == g[r]
    {
      assert forall c | 0 <= c < BoardWidth :: Locked(g, p, x, y)[r][c] == g[r][c];
    }
  }

  // ---------------------------------------------------------------------
  // Line clearing

  /** Every cell of the row is filled. */
  predicate IsFull(row: Row)
  {
    forall c | 0 <= c < |row| :: row[c] != 0
  }

  /** Number of full rows. */
  function CountFull(rows: seq<Row>): (n: nat)
    ensures n <= |rows|
  {
    if rows == [] then 0 else (if IsFull(rows[0]) then 1 else 0) + CountFull(rows[1..])
  }

  /** The rows that are not full, in their original order. */
  function NonFull(rows: seq<Row>): (r: seq<Row>)
    ensures |r| + CountFull(rows) == |rows|
    ensures forall k | 0 <= k < |r| :: !IsFull(r[k])
  {
    if rows == [] then [] else (if IsFull(rows[0]) then [] else [rows[0]]) + NonFull(rows[1..])
  }

  /** The kept rows are exactly the rows that are not full. */
  lemma {:induction false} NonFullMembers(rows: seq<Row>)
    ensures forall row :: row in NonFull(rows) <==> row in rows && !IsFull(row)
  {
    if rows != [] {
      NonFullMembers(rows[1..]);
      assert rows == [rows[0]] + rows[1..];
    }
  }

  /** n copies of one row. */
  function Repeat(row: Row, n: nat): (r: seq<Row>)
    ensures |r| == n
    ensures forall k | 0 <= k < n :: r[k] == row
  {
    if n == 0 then [] else [row] + Repeat(row, n - 1)
  }

  /** One shift of the line clear at row y: rows 1..y take the old rows
      0..y-1, row 0 stays as it was, rows below y are untouched. */
  function Shifted(rows: seq<Row>, y: int): (r: seq<Row>)
    requires 0 <= y < |rows|
    ensures |r| == |rows|
    ensures r[0] == rows[0]
    ensures forall k | 1 <= k <= y :: r[k] == rows[k - 1]
    ensures forall k | y < k < |rows| :: r[k] == rows[k]
  {
    [rows[0]] + rows[..y] + rows[y + 1..]
  }

  /** The board a complete line clear leaves: each full row removed, the
      rows above it moved down, and the top row copied once into the gap
      per removed row (the clear never blanks row 0). */
  function Compacted(rows: seq<Row>): (r: seq<Row>)
    requires |rows| > 0
    ensures |r| == |rows|
    ensures !IsFull(rows[0]) ==> forall k | 0 <= k < |r| :: !IsFull(r[k])
    ensures !IsFull(rows[0]) ==> forall k | 0 <= k <= CountFull(rows) :: r[k] == rows[0]
  {
    Repeat(rows[0], CountFull(rows)) + NonFull(rows)
  }

  /** The filter distributes over concatenation, so the kept rows keep their
      relative order. */
  lemma {:induction false} NonFullAppend(a: seq<Row>, b: seq<Row>)
    ensures NonFull(a + b) == NonFull(a) + NonFull(b)
    ensures CountFull(a + b) == CountFull(a) + CountFull(b)
  {
    if a == [] {
      assert a + b == b;
    } else {
      assert (a + b)[1..] == a[1..] + b;
      NonFullAppend(a[1..], b);
    }
  }

  /** A board with no full row passes through the line clear unchanged. */
  lemma {:induction false} NonFullOfOpenRows(rows: seq<Row>)
    requires CountFull(rows) == 0
    ensures NonFull(rows) == rows
  {
    if rows != [] {
      NonFullOfOpenRows(rows[1..]);
      assert [rows[0]] + rows[1..] == rows;
    }
  }

  /** No row is full exactly when the count of full rows is zero. */
  lemma {:induction false} NoFullRowIffZero(rows: seq<Row>)
    ensures (forall k | 0 <= k < |rows| :: !IsFull(rows[k])) <==> CountFull(rows) == 0
  {
    if rows != [] {
      NoFullRowIffZero(rows[1..]);
      assert forall k | 1 <= k < |rows| :: rows[k] == rows[1..][k - 1];
    }
  }

  /** An empty board whose bottom row has been filled: the line clear
      removes that one row and leaves the board empty again. */
  lemma BottomRowClears(fill: int)
    requires fill != 0
    ensures var g := EmptyGrid()[BoardHeight - 1 := seq(BoardWidth, _ => fill)];
      CountFull(g) == 1 && Compacted(g) == EmptyGrid()
  {
    var full := seq(BoardWidth, _ => fill);
    var g := EmptyGrid()[BoardHeight - 1 := full];
    var top := g[..BoardHeight - 1];
    assert g == top + [full];
    assert forall k | 0 <= k < |top| :: !IsFull(top[k]) by {
      forall k | 0 <= k < |top| ensures !IsFull(top[k]) {
        assert top[k][0] == 0;
      }
    }
    NoFullRowIffZero(top);
    NonFullOfOpenRows(top);
    NonFullAppend(top, [full]);
    assert [full][1..] == [];
    assert Compacted(g) == [g[0]] + top;
    assert Compacted(g) == EmptyGrid();
  }

  lemma CompactedWithoutFullRows(rows: seq<Row>)
    requires |rows| > 0 && CountFull(rows) == 0
    ensures Compacted(rows) == rows
  {
    NonFullOfOpenRows(rows);
  }

  /** Where the scan of the line clear stands after removing n rows, with
      the first p rows not yet examined: n copies of row 0, then the
      unexamined rows, then the rows kept so far. */
  function ScanState(rows: seq<Row>, n: nat, p: nat): (r: seq<Row>)
    requires 0 < |rows| && p <= |rows|
    ensures |r| == n + p + |NonFull(rows[p..])|
  {
    Repeat(rows[0], n) + rows[..p] + NonFull(rows[p..])
  }

  /** The scan starts on the board as it is. */
  lemma ScanStart(rows: seq<Row>)
    requires 0 < |rows|
    ensures ScanState(rows, 0, |rows|) == rows
  {
    assert rows[..|rows|] == rows;
  }

  /** Once every row is examined, the scan has produced the compacted board. */
  lemma ScanEnd(rows: seq<Row>)
    requires 0 < |rows|
    ensures ScanState(rows, CountFull(rows), 0) == Compacted(rows)
  {
    assert rows[..0] == [] && rows[0..] == rows;
  }

  /** The row under examination is rows[p - 1], or a copy of row 0 once
      every row has been examined. */
  lemma ScanView(rows: seq<Row>, n: nat, p: nat)
    requires 0 < |rows| && p <= |rows|
    ensures p > 0 ==> ScanState(rows, n, p)[n + p - 1] == rows[p - 1]
    ensures p == 0 ==> forall k | 0 <= k < n :: ScanState(rows, n, p)[k] == rows[0]
  {
  }

  /** A score made of whole hundreds. */
  predicate WholeHundreds(s: int)
  {
    s >= 0 && s % 100 == 0
  }

  /** Adding whole hundreds keeps a score of whole hundreds. */
  lemma {:induction false} AddHundreds(s: int, n: nat)
    requires WholeHundreds(s)
    ensures WholeHundreds(s + 100 * n)
  {
    if n > 0 {
      AddHundreds(s, n - 1);
      assert s + 100 * n == (s + 100 * (n - 1)) + 100;
    }
  }

  /** Cutting a three-part concatenation inside its middle part. */
  lemma ConcatCut(a: seq<Row>, b: seq<Row>, c: seq<Row>, k: nat)
    requires k <= |b|
    ensures (a + b + c)[..|a| + k] == a + b[..k]
    ensures (a + b + c)[|a| + |b|..] == c
  {
  }

  /** Shifting at the last row of the middle part of a concatenation drops
      that row and puts a copy of the first row in front. */
  lemma ShiftedSplit(a: seq<Row>, b: seq<Row>, c: seq<Row>)
    requires |b| > 0
    ensures Shifted(a + b + c, |a| + |b| - 1) == [(a + b + c)[0]] + a + b[..|b| - 1] + c
  {
    ConcatCut(a, b, c, |b| - 1);
  }

  /** A scan step that finds row y = n + p - 1 full: shifting at y gives the
      scan state with one more row removed and one fewer unexamined. */
  lemma {:induction false} ShiftStep(rows: seq<Row>, n: nat, p: nat)
    requires 0 < p <= |rows| && IsFull(rows[p - 1]) && !IsFull(rows[0])
    ensures n + p - 1 < |ScanState(rows, n, p)|
    ensures Shifted(ScanState(rows, n, p), n + p - 1) == ScanState(rows, n + 1, p - 1)
    ensures CountFull(rows[p - 1..]) == CountFull(rows[p..]) + 1
  {
    var a, b, c := Repeat(rows[0], n), rows[..p], NonFull(rows[p..]);
    assert NonFull(rows[p - 1..]) == c && CountFull(rows[p - 1..]) == CountFull(rows[p..]) + 1 by {
      assert rows[p - 1..][1..] == rows[p..];
    }
    assert (a + b + c)[0] == rows[0] by {
      if n > 0 { assert (a + b + c)[0] == a[0]; } else { assert (a + b + c)[0] == b[0]; }
    }
    ShiftedSplit(a, b, c);
    assert b[..p - 1] == rows[..p - 1];
    assert Repeat(rows[0], n + 1) == [rows[0]] + a;
  }

  /** A scan step that finds row y = n + p - 1 open: the board stays as it
      is and the open row joins the kept rows. */
  lemma {:induction false} SkipStep(rows: seq<Row>, n: nat, p: nat)
    requires 0 < p <= |rows| && !IsFull(rows[p - 1])
    ensures ScanState(rows, n, p) == ScanState(rows, n, p - 1)
    ensures CountFull(rows[p - 1..]) == CountFull(rows[p..])
  {
    assert rows[p - 1..][1..] == rows[p..];
    assert NonFull(rows[p - 1..]) == [rows[p - 1]] + NonFull(rows[p..]);
    assert rows[..p] == rows[..p - 1] + [rows[p - 1]];
  }
}
