/**
 * The piece component: the seven tetromino matrices, clockwise rotation,
 * the occupied-cell count, and the falling piece itself.
 */
module Shapes {

  /** A shape matrix, row-major; a cell is occupied when it is non-zero. */
  type Matrix = seq<seq<int>>

  /** The seven canonical shapes: I, O, T, J, L, S, Z. */
  const SHAPES: seq<Matrix> := [
    [[1, 1, 1, 1]],
    [[1, 1], [1, 1]],
    [[1, 1, 1], [0, 1, 0]],
    [[1, 1, 1], [1, 0, 0]],
    [[1, 1, 1], [0, 0, 1]],
    [[1, 1, 0], [0, 1, 1]],
    [[0, 1, 1], [1, 1, 0]]
  ]

  /** Number of palette entries; entry 0 is the background, 1..7 colour pieces. */
  const PALETTE: nat := 8

  /** A non-empty rectangular matrix. */
  predicate IsMatrix(s: Matrix)
  {
    |s| > 0 && |s[0]| > 0 && forall r :: 0 <= r < |s| ==> |s[r]| == |s[0]|
  }

  /** Some cell of the matrix is occupied. */
  predicate Occupied(s: Matrix)
  {
    exists r, c :: 0 <= r < |s| && 0 <= c < |s[r]| && s[r][c] != 0
  }

  /** The columns of `s`, each read top to bottom (Python's `zip(*s)`). */
  function Columns(s: Matrix, w: nat): (t: Matrix)
    requires forall r :: 0 <= r < |s| ==> |s[r]| == w
  {
    seq(w, c requires 0 <= c < w => seq(|s|, r requires 0 <= r < |s| => s[r][c]))
  }

  /** A row read right to left (Python's `row[::-1]`). */
  function Reverse(row: seq<int>): (v: seq<int>)
  {
    seq(|row|, i requires 0 <= i < |row| => row[|row| - 1 - i])
  }

  /**
   * Clockwise quarter turn: transpose, then reverse every row.
   * An R x C matrix becomes a C x R matrix whose cell (c, R-1-r) is cell (r, c).
   */
  function Rotated(s: Matrix): (t: Matrix)
    requires IsMatrix(s)
    ensures IsMatrix(t) && |t| == |s[0]| && |t[0]| == |s|
    ensures forall r, c :: 0 <= r < |s| && 0 <= c < |s[0]| ==> t[c][|s| - 1 - r] == s[r][c]
  {
    var cols := Columns(s, |s[0]|);
    seq(|cols|, c requires 0 <= c < |cols| => Reverse(cols[c]))
  }

  /** A rotated piece still has an occupied cell. */
  lemma RotatedOccupied(s: Matrix)
    requires IsMatrix(s) && Occupied(s)
    ensures Occupied(Rotated(s))
  {
    var r, c :| 0 <= r < |s| && 0 <= c < |s[r]| && s[r][c] != 0;
    assert Rotated(s)[c][|s| - 1 - r] != 0;
  }

  /** `t` is `s` turned upside down and mirrored. */
  ghost predicate HalfTurn(t: Matrix, s: Matrix)
    requires IsMatrix(s)
  {
    IsMatrix(t) && |t| == |s| && |t[0]| == |s[0]| &&
    forall r, c :: 0 <= r < |s| && 0 <= c < |s[0]| ==> t[|s| - 1 - r][|s[0]| - 1 - c] == s[r][c]
  }

  /** Two quarter turns turn the matrix upside down and mirror it. */
  lemma RotatedTwice(s: Matrix)
    requires IsMatrix(s)
    ensures HalfTurn(Rotated(Rotated(s)), s)
  {
  }

  lemma HalfTurnTwice(s: Matrix, t: Matrix, u: Matrix)
    requires IsMatrix(s) && HalfTurn(t, s) && HalfTurn(u, t)
    ensures u == s
  {
    var h, w := |s|, |s[0]|;
    forall r | 0 <= r < h
      ensures u[r] == s[r]
    {
      assert |u[r]| == w;
      forall c | 0 <= c < w
        ensures u[r][c] == s[r][c]
      {
        var r', c' := h - 1 - r, w - 1 - c;
        assert u[h - 1 - r'][w - 1 - c'] == t[r'][c'];
      }
    }
  }

  /** Four quarter turns give back the original matrix, whatever its dimensions. */
  lemma RotatedFourTimes(s: Matrix)
    requires IsMatrix(s)
    ensures Rotated(Rotated(Rotated(Rotated(s)))) == s
  {
    var s2 := Rotated(Rotated(s));
    RotatedTwice(s);
    RotatedTwice(s2);
    HalfTurnTwice(s, s2, Rotated(Rotated(s2)));
  }

  /** `n` successive quarter turns. */
  function Turns(s: Matrix, n: nat): (t: Matrix)
    requires IsMatrix(s)
    ensures IsMatrix(t)
    decreases n
  {
    if n == 0 then s else Rotated(Turns(s, n - 1))
  }

  /** Four successive quarter turns are no turn at all. */
  lemma TurnsFour(s: Matrix)
    requires IsMatrix(s)
    ensures Turns(s, 4) == s
  {
    assert Turns(s, 1) == Rotated(s);
    assert Turns(s, 2) == Rotated(Rotated(s));
    assert Turns(s, 3) == Rotated(Rotated(Rotated(s)));
    RotatedFourTimes(s);
  }

  /** Number of occupied cells in a row. */
  function RowCells(row: seq<int>): (n: nat)
    ensures n <= |row|
  {
    if |row| == 0 then 0
    else RowCells(row[..|row| - 1]) + (if row[|row| - 1] != 0 then 1 else 0)
  }

  /** Number of occupied cells in a matrix. */
  function Cells(s: Matrix): (n: nat)
  {
    if |s| == 0 then 0 else Cells(s[..|s| - 1]) + RowCells(s[|s| - 1])
  }

  lemma {:induction false} RowCellsAppend(a: seq<int>, b: seq<int>)
    ensures RowCells(a + b) == RowCells(a) + RowCells(b)
    decreases |b|
  {
    if |b| == 0 {
      assert a + b == a;
    } else {
      var b' := b[..|b| - 1];
      assert (a + b)[..|a + b| - 1] == a + b';
      RowCellsAppend(a, b');
    }
  }

  lemma {:induction false} RowCellsReverse(row: seq<int>)
    ensures RowCells(Reverse(row)) == RowCells(row)
    decreases |row|
  {
    if |row| > 0 {
      var n := |row|;
      var init := row[..n - 1];
      assert Reverse(row) == [row[n - 1]] + Reverse(init);
      RowCellsAppend([row[n - 1]], Reverse(init));
      assert [row[n - 1]][..0] == [];
      RowCellsReverse(init);
    }
  }

  /** Matrices whose rows pairwise hold the same number of cells hold the same number overall. */
  lemma {:induction false} CellsRowwise(m1: Matrix, m2: Matrix)
    requires |m1| == |m2|
    requires forall i :: 0 <= i < |m1| ==> RowCells(m1[i]) == RowCells(m2[i])
    ensures Cells(m1) == Cells(m2)
    decreases |m1|
  {
    if |m1| > 0 {
      var n := |m1|;
      CellsRowwise(m1[..n - 1], m2[..n - 1]);
    }
  }

  /** Appending one cell to every row adds that column's cells. */
  lemma {:induction false} CellsAppendColumn(m: Matrix, v: seq<int>)
    requires |m| == |v|
    ensures Cells(seq(|m|, i requires 0 <= i < |m| => m[i] + [v[i]])) == Cells(m) + RowCells(v)
    decreases |m|
  {
    var n := |m|;
    var w := seq(n, i requires 0 <= i < n => m[i] + [v[i]]);
    if n > 0 {
      var m', v' := m[..n - 1], v[..n - 1];
      assert w[..n - 1] == seq(n - 1, i requires 0 <= i < n - 1 => m'[i] + [v'[i]]);
      CellsAppendColumn(m', v');
      assert (m[n - 1] + [v[n - 1]])[..|m[n - 1]|] == m[n - 1];
    }
  }

  lemma {:induction false} CellsOfEmptyRows(m: Matrix)
    requires forall i :: 0 <= i < |m| ==> m[i] == []
    ensures Cells(m) == 0
    decreases |m|
  {
    if |m| > 0 {
      CellsOfEmptyRows(m[..|m| - 1]);
    }
  }

  /** Transposition moves cells without creating or losing any. */
  lemma {:induction false} CellsColumns(s: Matrix, w: nat)
    requires forall r :: 0 <= r < |s| ==> |s[r]| == w
    ensures Cells(Columns(s, w)) == Cells(s)
    decreases |s|
  {
    var n := |s|;
    if n == 0 {
      CellsOfEmptyRows(Columns(s, w));
    } else {
      var s' := s[..n - 1];
      var t' := Columns(s', w);
      forall c | 0 <= c < w
        ensures Columns(s, w)[c] == t'[c] + [s[n - 1][c]]
      {
        assert |Columns(s, w)[c]| == n;
      }
      assert Columns(s, w) == seq(|t'|, c requires 0 <= c < |t'| => t'[c] + [s[n - 1][c]]);
      CellsAppendColumn(t', s[n - 1]);
      CellsColumns(s', w);
    }
  }

  /** Rotation preserves the number of occupied cells. */
  lemma RotatedCells(s: Matrix)
    requires IsMatrix(s)
    ensures Cells(Rotated(s)) == Cells(s)
  {
    var cols := Columns(s, |s[0]|);
    forall c | 0 <= c < |cols|
      ensures RowCells(Rotated(s)[c]) == RowCells(cols[c])
    {
      RowCellsReverse(cols[c]);
    }
    CellsRowwise(Rotated(s), cols);
    CellsColumns(s, |s[0]|);
  }

  /** Every canonical shape is a matrix of at most 2 rows and 4 columns whose second top cell is occupied. */
  lemma CanonicalShapes(k: nat)
    requires k < |SHAPES|
    ensures IsMatrix(SHAPES[k]) && Occupied(SHAPES[k])
    ensures |SHAPES[k]| <= 2 && |SHAPES[k][0]| <= 4 && SHAPES[k][0][1] != 0
  {
    var s := SHAPES[k];
    assert s[0][1] != 0;
  }

  /** The falling piece: shape, colour index and the position of its top-left cell. */
  class Tetromino {
    var shape: Matrix
    var color: int
    var x: int
    var y: int

    ghost predicate Valid()
      reads this
    {
      IsMatrix(shape) && Occupied(shape) && 1 <= color < PALETTE
    }

    /** A piece of the given canonical shape and colour at (x, y); the random choices are the caller's. */
    constructor (kind: nat, color: int, x: int, y: int)
      requires kind < |SHAPES| && 1 <= color < PALETTE
      ensures Valid()
      ensures this.shape == SHAPES[kind] && this.color == color && this.x == x && this.y == y
    {
      CanonicalShapes(kind);
      this.shape := SHAPES[kind];
      this.color := color;
      this.x := x;
      this.y := y;
    }

    /** Turns the shape a quarter clockwise in place, without any placement check. */
    method Rotate()
      requires Valid()
      modifies this
      ensures Valid()
      ensures shape == Rotated(old(shape))
      ensures color == old(color) && x == old(x) && y == old(y)
    {
      RotatedOccupied(shape);
      shape := Rotated(shape);
    }
  }
}
