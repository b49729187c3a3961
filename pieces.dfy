/** Tetromino pieces: a 4x4 occupancy mask plus a colour, the two rotations
    of the mask, and the seven spawn shapes with their colours. */
module Pieces {

  /** A 4x4 mask; a cell is occupied when its value is nonzero. */
  type Mask = m: seq<seq<int>> | |m| == 4 && forall i | 0 <= i < 4 :: |m[i]| == 4
    witness [[0, 0, 0, 0], [0, 0, 0, 0], [0, 0, 0, 0], [0, 0, 0, 0]]

  const EmptyMask: Mask := [[0, 0, 0, 0], [0, 0, 0, 0], [0, 0, 0, 0], [0, 0, 0, 0]]

  /** A piece is a value: rotating it yields a new piece. */
  datatype Piece = Piece(shape: Mask, color: int)

  /** Cell (i, j) of the mask (row i, column j) is occupied. */
  predicate Occupies(p: Piece, i: int, j: int)
  {
    0 <= i < 4 && 0 <= j < 4 && p.shape[i][j] != 0
  }

  /** The piece has at least one occupied cell. */
  predicate HasCell(p: Piece)
  {
    exists i, j | 0 <= i < 4 && 0 <= j < 4 :: Occupies(p, i, j)
  }

  function Bit(v: int): nat
  {
    if v != 0 then 1 else 0
  }

  function RowCount(row: seq<int>): nat
    requires |row| == 4
  {
    Bit(row[0]) + Bit(row[1]) + Bit(row[2]) + Bit(row[3])
  }

  /** Number of occupied cells of a mask. */
  function CellCount(m: Mask): nat
  {
    RowCount(m[0]) + RowCount(m[1]) + RowCount(m[2]) + RowCount(m[3])
  }

  /** Clockwise quarter turn: new cell (i, j) is old cell (3 - j, i). */
  function RotatedRight(p: Piece): (r: Piece)
    ensures r.color == p.color
    ensures CellCount(r.shape) == CellCount(p.shape)
  {
    Piece(seq(4, i requires 0 <= i < 4 => seq(4, j requires 0 <= j < 4 => p.shape[3 - j][i])), p.color)
  }

  /** Counter-clockwise quarter turn: new cell (i, j) is old cell (j, 3 - i). */
  function RotatedLeft(p: Piece): (r: Piece)
    ensures r.color == p.color
    ensures CellCount(r.shape) == CellCount(p.shape)
  {
    Piece(seq(4, i requires 0 <= i < 4 => seq(4, j requires 0 <= j < 4 => p.shape[j][3 - i])), p.color)
  }

  /** Two masks that agree cell by cell are equal. */
  lemma MaskExt(a: Mask, b: Mask)
    requires forall i, j | 0 <= i < 4 && 0 <= j < 4 :: a[i][j] == b[i][j]
    ensures a == b
  {
    forall i | 0 <= i < 4
      ensures a[i] == b[i]
    {
      assert forall j | 0 <= j < 4 :: a[i][j] == b[i][j];
    }
  }

  lemma LeftUndoesRight(p: Piece)
    ensures RotatedLeft(RotatedRight(p)) == p
  {
    MaskExt(RotatedLeft(RotatedRight(p)).shape, p.shape);
  }

  lemma RightUndoesLeft(p: Piece)
    ensures RotatedRight(RotatedLeft(p)) == p
  {
    MaskExt(RotatedRight(RotatedLeft(p)).shape, p.shape);
  }

  /** Two clockwise turns reflect the mask through its centre. */
  lemma HalfTurn(p: Piece)
    ensures forall i, j | 0 <= i < 4 && 0 <= j < 4 ::
      RotatedRight(RotatedRight(p)).shape[i][j] == p.shape[3 - i][3 - j]
  {
  }

  /** Rotation is a group of order four. */
  lemma FourRightTurns(p: Piece)
    ensures RotatedRight(RotatedRight(RotatedRight(RotatedRight(p)))) == p
  {
    var h := RotatedRight(RotatedRight(p));
    HalfTurn(p);
    HalfTurn(h);
    MaskExt(RotatedRight(RotatedRight(h)).shape, p.shape);
  }

  lemma FourLeftTurns(p: Piece)
    ensures RotatedLeft(RotatedLeft(RotatedLeft(RotatedLeft(p)))) == p
  {
    var q := RotatedLeft(RotatedLeft(RotatedLeft(RotatedLeft(p))));
    FourRightTurns(q);
    RightUndoesLeft(RotatedLeft(RotatedLeft(RotatedLeft(p))));
    RightUndoesLeft(RotatedLeft(RotatedLeft(p)));
    RightUndoesLeft(RotatedLeft(p));
    RightUndoesLeft(p);
  }

  /** A piece has an occupied cell exactly when its cell count is positive. */
  lemma HasCellIffCount(p: Piece)
    ensures HasCell(p) <==> CellCount(p.shape) > 0
  {
    if HasCell(p) {
      var i, j :| 0 <= i < 4 && 0 <= j < 4 && Occupies(p, i, j);
      assert RowCount(p.shape[i]) > 0;
    } else {
      forall i | 0 <= i < 4
        ensures RowCount(p.shape[i]) == 0
      {
        assert !Occupies(p, i, 0) && !Occupies(p, i, 1) && !Occupies(p, i, 2) && !Occupies(p, i, 3);
      }
    }
  }

  /** Rotating never empties or fills a piece. */
  lemma RotationKeepsHasCell(p: Piece)
    ensures HasCell(RotatedRight(p)) == HasCell(p)
    ensures HasCell(RotatedLeft(p)) == HasCell(p)
  {
    HasCellIffCount(p);
    HasCellIffCount(RotatedRight(p));
    HasCellIffCount(RotatedLeft(p));
  }

  /** A piece that can be in play: it has an occupied cell and a colour that
      is not the empty value 0. */
  predicate Playable(p: Piece)
  {
    HasCell(p) && p.color != 0
  }

  /** Rotating a piece in play gives a piece in play, and only such pieces
      rotate into one. */
  lemma RotationKeepsPlayable(p: Piece)
    ensures Playable(RotatedRight(p)) == Playable(p)
    ensures Playable(RotatedLeft(p)) == Playable(p)
  {
    RotationKeepsHasCell(p);
  }

  /** The seven spawn shapes, in the order I, L, J, O, S, T, Z. */
  const Shapes: seq<Mask> := [
    [[1, 1, 1, 1], [0, 0, 0, 0], [0, 0, 0, 0], [0, 0, 0, 0]],
    [[1, 1, 1, 0], [1, 0, 0, 0], [0, 0, 0, 0], [0, 0, 0, 0]],
    [[1, 1, 1, 0], [0, 0, 1, 0], [0, 0, 0, 0], [0, 0, 0, 0]],
    [[1, 1, 0, 0], [1, 1, 0, 0], [0, 0, 0, 0], [0, 0, 0, 0]],
    [[0, 1, 1, 0], [1, 1, 0, 0], [0, 0, 0, 0], [0, 0, 0, 0]],
    [[1, 1, 1, 0], [0, 1, 0, 0], [0, 0, 0, 0], [0, 0, 0, 0]],
    [[1, 1, 0, 0], [0, 1, 1, 0], [0, 0, 0, 0], [0, 0, 0, 0]]
  ]

  /** The colour table, as RGB values; index k colours shape k. */
  const Colors: seq<int> := [0x0000FF, 0xFF0000, 0x00FF00, 0xFF00FF, 0xFFFF00, 0x00FFFF, 0xFFA500]

  /** The piece chosen by spawn index `index`. */
  function SpawnPiece(index: int): (p: Piece)
    requires 0 <= index < 7
    ensures Playable(p)
  {
    var p := Piece(Shapes[index], Colors[index]);
    assert Occupies(p, 0, 1);
    p
  }

  /** Every spawn shape is a tetromino: exactly four occupied cells. */
  lemma SpawnIsTetromino(index: int)
    requires 0 <= index < 7
    ensures CellCount(SpawnPiece(index).shape) == 4
  {
    // One case per shape keeps each proof obligation small.
    if index == 0 {
    } else if index == 1 {
    } else if index == 2 {
    } else if index == 3 {
    } else if index == 4 {
    } else if index == 5 {
    } else {
    }
  }
}
