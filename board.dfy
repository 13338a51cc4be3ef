/**
 * The board component: the 20 x 10 grid of locked cells, the collision
 * predicate, locking a piece into the grid and clearing full rows.
 */
module Board {
  import opened Shapes

  const GRID_WIDTH: int := 10
  const GRID_HEIGHT: int := 20

  /** Rows top to bottom; each cell is 0 (empty) or a palette index. */
  type Grid = seq<seq<int>>

  /** A row of the board: GRID_WIDTH cells, each a palette index. */
  predicate IsRow(row: seq<int>)
  {
    |row| == GRID_WIDTH && forall c :: 0 <= c < |row| ==> 0 <= row[c] < PALETTE
  }

  /** A board: GRID_HEIGHT well-formed rows. */
  predicate IsGrid(g: Grid)
  {
    |g| == GRID_HEIGHT && forall r :: 0 <= r < |g| ==> IsRow(g[r])
  }

  function EmptyRow(): (row: seq<int>)
    ensures IsRow(row) && forall c :: 0 <= c < |row| ==> row[c] == 0
  {
    seq(GRID_WIDTH, _ => 0)
  }

  function EmptyGrid(): (g: Grid)
    ensures IsGrid(g)
    ensures forall r, c :: 0 <= r < |g| && 0 <= c < |g[r]| ==> g[r][c] == 0
  {
    seq(GRID_HEIGHT, _ => EmptyRow())
  }

  /**
   * Whether an occupied piece cell placed at (col, row) is illegal: outside the
   * columns, below the floor, or on a locked cell. Rows above the top are
   * exempt from the occupancy test only.
   */
  predicate Blocked(g: Grid, col: int, row: int)
    requires IsGrid(g)
  {
    !(0 <= col < GRID_WIDTH && row < GRID_HEIGHT) || (row >= 0 && g[row][col] != 0)
  }

  /** Whether shape `s` with its top-left cell at (x + dx, y + dy) has a blocked occupied cell. */
  predicate Collides(g: Grid, s: Matrix, x: int, y: int, dx: int, dy: int)
    requires IsGrid(g)
  {
    exists r, c :: 0 <= r < |s| && 0 <= c < |s[r]| && s[r][c] != 0 && Blocked(g, x + c + dx, y + r + dy)
  }

  /** Testing at an offset is testing at the shifted position. */
  lemma CollidesShift(g: Grid, s: Matrix, x: int, y: int, dx: int, dy: int)
    requires IsGrid(g)
    ensures Collides(g, s, x, y, dx, dy) == Collides(g, s, x + dx, y + dy, 0, 0)
  {
  }

  /** Every occupied cell of `s` at (x, y) lies on the board. */
  predicate Fits(s: Matrix, x: int, y: int)
  {
    forall r, c :: 0 <= r < |s| && 0 <= c < |s[r]| && s[r][c] != 0 ==>
      0 <= x + c < GRID_WIDTH && 0 <= y + r < GRID_HEIGHT
  }

  /** A piece that does not collide and is not above the top lies wholly on the board, on empty cells. */
  lemma ClearPlacementFits(g: Grid, s: Matrix, x: int, y: int)
    requires IsGrid(g) && y >= 0 && !Collides(g, s, x, y, 0, 0)
    ensures Fits(s, x, y)
    ensures forall r, c :: 0 <= r < |s| && 0 <= c < |s[r]| && s[r][c] != 0 ==> g[y + r][x + c] == 0
  {
  }

  /** A piece with an occupied cell that does not collide has its top row above the floor. */
  lemma AboveFloor(g: Grid, s: Matrix, x: int, y: int)
    requires IsGrid(g) && Occupied(s) && !Collides(g, s, x, y, 0, 0)
    ensures y < GRID_HEIGHT
  {
  }

  /** Board cell (row, col) lies under an occupied cell of `s` placed at (x, y). */
  predicate Covers(s: Matrix, x: int, y: int, row: int, col: int)
  {
    0 <= row - y < |s| && 0 <= col - x < |s[row - y]| && s[row - y][col - x] != 0
  }

  /** The grid with the piece's colour written into every cell it covers. */
  function Locked(g: Grid, s: Matrix, x: int, y: int, color: int): (h: Grid)
  {
    seq(|g|, row requires 0 <= row < |g| =>
      seq(|g[row]|, col requires 0 <= col < |g[row]| =>
        if Covers(s, x, y, row, col) then color else g[row][col]))
  }

  /**
   * Locking a piece that lies on the board keeps the board well formed, and
   * afterwards the same piece at the same place collides with itself.
   */
  lemma LockedSpec(g: Grid, s: Matrix, x: int, y: int, color: int)
    requires IsGrid(g) && Occupied(s) && Fits(s, x, y) && 1 <= color < PALETTE
    ensures var h := Locked(g, s, x, y, color);
      IsGrid(h) && Collides(h, s, x, y, 0, 0)
  {
  }

  /** Python's `all(row)`: no cell of the row is empty. */
  predicate Full(row: seq<int>)
  {
    forall c :: 0 <= c < |row| ==> row[c] != 0
  }

  /** Number of full rows. */
  function FullCount(g: Grid): (n: nat)
    ensures n <= |g|
  {
    if |g| == 0 then 0
    else FullCount(g[..|g| - 1]) + (if Full(g[|g| - 1]) then 1 else 0)
  }

  /** The rows that are not full, in their original order. */
  function Kept(g: Grid): (k: Grid)
  {
    if |g| == 0 then []
    else Kept(g[..|g| - 1]) + (if Full(g[|g| - 1]) then [] else [g[|g| - 1]])
  }

  /** Extending a prefix by one row extends the count and the kept rows by that row. */
  lemma FullCountKeptStep(g: Grid, i: nat)
    requires i < |g|
    ensures FullCount(g[..i + 1]) == FullCount(g[..i]) + (if Full(g[i]) then 1 else 0)
    ensures Kept(g[..i + 1]) == Kept(g[..i]) + (if Full(g[i]) then [] else [g[i]])
  {
    assert g[..i + 1][..i] == g[..i];
  }

  /** `n` empty rows. */
  function Blank(n: nat): (b: Grid)
  {
    seq(n, _ => EmptyRow())
  }

  /** The board after one line-clearing pass: one empty row per full row, then the other rows. */
  function Cleared(g: Grid): (h: Grid)
  {
    Blank(FullCount(g)) + Kept(g)
  }

  /**
   * One step of the in-place pass. When rows before `i` are done, the row now
   * at `i` is still the original row `i`; deleting it and inserting an empty
   * row on top, or leaving a non-full row alone, gets rows up to `i` done.
   */
  lemma ClearPassStep(g0: Grid, g: Grid, i: nat, lines: nat)
    requires i < |g0| && lines == FullCount(g0[..i])
    requires g == Blank(lines) + Kept(g0[..i]) + g0[i..]
    ensures |g| == |g0| && g[i] == g0[i]
    ensures FullCount(g0[..i + 1]) == lines + (if Full(g[i]) then 1 else 0)
    ensures Full(g[i]) ==>
      [EmptyRow()] + g[..i] + g[i + 1..] == Blank(lines + 1) + Kept(g0[..i + 1]) + g0[i + 1..]
    ensures !Full(g[i]) ==> g == Blank(lines) + Kept(g0[..i + 1]) + g0[i + 1..]
  {
    KeptSpec(g0[..i]);
    FullCountKeptStep(g0, i);
    var done := Blank(lines) + Kept(g0[..i]);
    assert |done| == i;
    assert g[i] == g0[i];
    if Full(g0[i]) {
      assert g[..i] == done;
      assert g[i + 1..] == g0[i + 1..];
      assert [EmptyRow()] + Blank(lines) == Blank(lines + 1);
    } else {
      assert g0[i..] == [g0[i]] + g0[i + 1..];
    }
  }

  /** Every kept row is a non-full row of the original, and kept plus full rows account for all rows. */
  lemma {:induction false} KeptSpec(g: Grid)
    ensures |Kept(g)| + FullCount(g) == |g|
    ensures forall i :: 0 <= i < |Kept(g)| ==> Kept(g)[i] in g && !Full(Kept(g)[i])
    decreases |g|
  {
    if |g| > 0 {
      var init := g[..|g| - 1];
      KeptSpec(init);
      forall i | 0 <= i < |Kept(init)|
        ensures Kept(init)[i] in g
      {
        assert Kept(init)[i] in init;
      }
    }
  }

  /** With no full row, every row is kept. */
  lemma {:induction false} KeptAll(g: Grid)
    requires forall i :: 0 <= i < |g| ==> !Full(g[i])
    ensures Kept(g) == g && FullCount(g) == 0
    decreases |g|
  {
    if |g| > 0 {
      var init := g[..|g| - 1];
      KeptAll(init);
      assert init + [g[|g| - 1]] == g;
    }
  }

  /** Clearing keeps the board 20 rows of 10 well-formed cells, and leaves no full row. */
  lemma ClearedSpec(g: Grid)
    requires IsGrid(g)
    ensures IsGrid(Cleared(g))
    ensures forall i :: 0 <= i < GRID_HEIGHT ==> !Full(Cleared(g)[i])
  {
    KeptSpec(g);
    var h := Cleared(g);
    var k := FullCount(g);
    forall i | 0 <= i < |h|
      ensures IsRow(h[i]) && !Full(h[i])
    {
      if i < k {
        assert h[i] == EmptyRow();
        assert h[i][0] == 0;
      } else {
        assert h[i] == Kept(g)[i - k];
      }
    }
  }

  /** A board with no full row is left as it is. */
  lemma ClearedNoFullRows(g: Grid)
    requires forall i :: 0 <= i < |g| ==> !Full(g[i])
    ensures FullCount(g) == 0 && Cleared(g) == g
  {
    KeptAll(g);
    assert Blank(0) + g == g;
  }

  /** Clearing twice is clearing once. */
  lemma ClearedIdempotent(g: Grid)
    requires IsGrid(g)
    ensures FullCount(Cleared(g)) == 0 && Cleared(Cleared(g)) == Cleared(g)
  {
    ClearedSpec(g);
    ClearedNoFullRows(Cleared(g));
  }

  /** If only the bottom row is full, it disappears, the rows above move down one, and an empty row enters at the top. */
  lemma ClearedBottomRow(g: Grid)
    requires IsGrid(g) && Full(g[GRID_HEIGHT - 1])
    requires forall i :: 0 <= i < GRID_HEIGHT - 1 ==> !Full(g[i])
    ensures FullCount(g) == 1 && Cleared(g) == [EmptyRow()] + g[..GRID_HEIGHT - 1]
  {
    var above := g[..GRID_HEIGHT - 1];
    KeptAll(above);
    assert Blank(1) == [EmptyRow()];
  }

  /**
   * The row at which a hard drop comes to rest: descend from `y` one row at a
   * time while the row below is free.
   */
  function DropRow(g: Grid, s: Matrix, x: int, y: int): (r: int)
    requires IsGrid(g) && Occupied(s) && !Collides(g, s, x, y, 0, 0)
    ensures y <= r && !Collides(g, s, x, r, 0, 0) && Collides(g, s, x, r, 0, 1)
    ensures forall y' :: y <= y' < r ==> !Collides(g, s, x, y', 0, 1)
    decreases GRID_HEIGHT - y
  {
    AboveFloor(g, s, x, y);
    CollidesShift(g, s, x, y, 0, 1);
    if Collides(g, s, x, y, 0, 1) then y else DropRow(g, s, x, y + 1)
  }

  /** A spawned canonical shape at (4, 0) fits on the empty board. */
  lemma SpawnFitsEmpty(k: nat)
    requires k < |SHAPES|
    ensures !Collides(EmptyGrid(), SHAPES[k], 4, 0, 0, 0)
  {
  }

  /** With the top row full, every canonical shape spawned at (4, 0) collides. */
  lemma SpawnBlockedByTopRow(g: Grid, k: nat)
    requires IsGrid(g) && Full(g[0]) && k < |SHAPES|
    ensures Collides(g, SHAPES[k], 4, 0, 0, 0)
  {
    CanonicalShapes(k);
    var s := SHAPES[k];
    assert IsRow(g[0]) && s[0][1] != 0;
    assert Blocked(g, 4 + 1 + 0, 0 + 0 + 0);
  }
}
