/**
 * The controller: the session state, the collision query, locking and line
 * clearing in place, spawning with its game-over restart, and the key and
 * auto-fall transitions of the main loop.
 */
module Tetris {
  import opened Shapes
  import opened Board
  import opened Scoring

  /** Where every new piece appears. */
  const SPAWN_X: int := 4
  const SPAWN_Y: int := 0

  /** The keys the main loop reacts to: the four arrows and the space bar. */
  datatype Key = Left | Right | Down | Up | Space

  /** The two random choices for a new piece: an index into SHAPES and a colour. */
  datatype Spawn = Spawn(kind: nat, color: int)

  predicate ValidSpawn(sp: Spawn)
  {
    sp.kind < |SHAPES| && 1 <= sp.color < PALETTE
  }

  /**
   * What the outside world supplies when a piece locks: the next piece and,
   * should it not fit, the piece and the clock reading of the restarted session.
   */
  datatype Draws = Draws(next: Spawn, restart: Spawn, clock: int)

  predicate ValidDraws(d: Draws)
  {
    ValidSpawn(d.next) && ValidSpawn(d.restart)
  }

  /** A snapshot of the active piece. */
  datatype Placement = Placement(shape: Matrix, color: int, x: int, y: int)

  /** A snapshot of everything but the active piece. */
  datatype Session = Session(grid: Grid, progress: Progress, lastFall: int)

  function SpawnPlacement(sp: Spawn): (p: Placement)
    requires sp.kind < |SHAPES|
  {
    Placement(SHAPES[sp.kind], sp.color, SPAWN_X, SPAWN_Y)
  }

  class Game {
    var piece: Tetromino
    var grid: Grid
    var score: int
    var level: int
    var fallSpeed: int
    var lastFall: int

    ghost function Active(): (p: Placement)
      reads this, piece
    {
      Placement(piece.shape, piece.color, piece.x, piece.y)
    }

    ghost function Stats(): (st: Progress)
      reads this
    {
      Progress(score, level, fallSpeed)
    }

    ghost function SessionState(): (ss: Session)
      reads this
    {
      Session(grid, Stats(), lastFall)
    }

    /**
     * The session invariant: a 20 x 10 board of palette indices, a valid piece
     * at or below the top row that collides with nothing, and consistent progress.
     */
    ghost predicate Valid()
      reads this, piece
    {
      IsGrid(grid) && piece.Valid() && piece.y >= 0 &&
      !Collides(grid, piece.shape, piece.x, piece.y, 0, 0) &&
      Consistent(Stats())
    }

    /** Whether the active piece would collide at offset (dx, dy). */
    ghost predicate Hits(dx: int, dy: int)
      reads this, piece
      requires IsGrid(grid)
    {
      Collides(grid, piece.shape, piece.x, piece.y, dx, dy)
    }

    /** A fresh session: empty board, initial progress, the given piece at the spawn point. */
    ghost predicate Restarted(sp: Spawn, clock: int)
      reads this, piece
      requires sp.kind < |SHAPES|
    {
      grid == EmptyGrid() && Stats() == START && lastFall == clock && Active() == SpawnPlacement(sp)
    }

    /**
     * The state after locking `p` into board `g` (progress `st`, fall timer `t`),
     * clearing full rows, rescoring and spawning from `d`: a restart when the next
     * piece does not fit the cleared board.
     */
    ghost predicate AfterLock(g: Grid, p: Placement, st: Progress, t: int, d: Draws)
      reads this, piece
      requires ValidDraws(d)
    {
      var locked := Locked(g, p.shape, p.x, p.y, p.color);
      var cleared := Cleared(locked);
      IsGrid(cleared) &&
      if Collides(cleared, SHAPES[d.next.kind], SPAWN_X, SPAWN_Y, 0, 0) then
        Restarted(d.restart, d.clock)
      else
        grid == cleared && Stats() == Rescore(st, FullCount(locked)) && lastFall == t &&
        Active() == SpawnPlacement(d.next)
    }

    /** A new session with the given first piece, its fall timer started at `clock`. */
    constructor (first: Spawn, clock: int)
      requires ValidSpawn(first)
      ensures Valid() && fresh(piece) && Restarted(first, clock)
    {
      grid := EmptyGrid();
      score, level, fallSpeed := 0, 1, 1000;
      lastFall := clock;
      piece := new Tetromino(first.kind, first.color, SPAWN_X, SPAWN_Y);
      SpawnFitsEmpty(first.kind);
    }

    /** Ends the game by starting a new session in place. */
    method GameOver(first: Spawn, clock: int)
      requires ValidSpawn(first)
      modifies this
      ensures Valid() && fresh(piece) && Restarted(first, clock)
    {
      grid := EmptyGrid();
      score, level, fallSpeed := 0, 1, 1000;
      lastFall := clock;
      piece := new Tetromino(first.kind, first.color, SPAWN_X, SPAWN_Y);
      SpawnFitsEmpty(first.kind);
    }

    /** Whether the active piece, moved by (dx, dy), would collide; reads the state and changes nothing. */
    method CheckCollision(dx: int, dy: int) returns (hit: bool)
      requires IsGrid(grid)
      ensures hit == Collides(grid, piece.shape, piece.x, piece.y, dx, dy)
    {
      var s := piece.shape;
      var r := 0;
      while r < |s|
        invariant 0 <= r <= |s|
        invariant forall i, j :: 0 <= i < r && 0 <= j < |s[i]| && s[i][j] != 0 ==>
          !Blocked(grid, piece.x + j + dx, piece.y + i + dy)
      {
        var row := s[r];
        var c := 0;
        while c < |row|
          invariant 0 <= c <= |row|
          invariant forall i, j :: 0 <= i < r && 0 <= j < |s[i]| && s[i][j] != 0 ==>
            !Blocked(grid, piece.x + j + dx, piece.y + i + dy)
          invariant forall j :: 0 <= j < c && row[j] != 0 ==> !Blocked(grid, piece.x + j + dx, piece.y + r + dy)
        {
          if row[c] != 0 {
            var newX := piece.x + c + dx;
            var newY := piece.y + r + dy;
            if !(0 <= newX < GRID_WIDTH && newY < GRID_HEIGHT) {
              assert Blocked(grid, piece.x + c + dx, piece.y + r + dy);
              return true;
            }
            if newY >= 0 && grid[newY][newX] != 0 {
              assert Blocked(grid, piece.x + c + dx, piece.y + r + dy);
              return true;
            }
          }
          c := c + 1;
        }
        r := r + 1;
      }
      return false;
    }

    /** Writes the piece's colour into every board cell it covers. */
    method LockCells()
      requires IsGrid(grid) && Fits(piece.shape, piece.x, piece.y)
      modifies this`grid
      ensures grid == Locked(old(grid), piece.shape, piece.x, piece.y, piece.color)
    {
      ghost var g0 := grid;
      var s, x, y, color := piece.shape, piece.x, piece.y, piece.color;
      for r := 0 to |s|
        invariant |grid| == |g0| && forall row :: 0 <= row < |grid| ==> |grid[row]| == |g0[row]|
        invariant forall row, col :: 0 <= row < |g0| && 0 <= col < |g0[row]| ==>
          grid[row][col] == if Covers(s, x, y, row, col) && row - y < r then color else g0[row][col]
      {
        for c := 0 to |s[r]|
          invariant |grid| == |g0| && forall row :: 0 <= row < |grid| ==> |grid[row]| == |g0[row]|
          invariant forall row, col :: 0 <= row < |g0| && 0 <= col < |g0[row]| ==>
            grid[row][col] ==
              if Covers(s, x, y, row, col) && (row - y < r || (row - y == r && col - x < c)) then color
              else g0[row][col]
        {
          if s[r][c] != 0 {
            grid := grid[y + r := grid[y + r][x + c := color]];
          }
        }
      }
      ghost var h := Locked(g0, s, x, y, color);
      forall row | 0 <= row < |grid|
        ensures grid[row] == h[row]
      {
        assert |grid[row]| == |h[row]|;
      }
    }

    /**
     * One pass over the rows, top to bottom: a full row is deleted and an empty
     * row inserted on top; then score, level and fall interval are updated if
     * any row went.
     */
    method ClearLines() returns (lines: nat)
      requires IsGrid(grid)
      modifies this`grid, this`score, this`level, this`fallSpeed
      ensures grid == Cleared(old(grid)) && lines == FullCount(old(grid))
      ensures Stats() == Rescore(old(Stats()), lines)
    {
      ghost var g0 := grid;
      lines := 0;
      var i := 0;
      while i < |grid|
        invariant |grid| == |g0| && 0 <= i <= |g0|
        invariant lines == FullCount(g0[..i]) && Stats() == old(Stats())
        invariant grid == Blank(lines) + Kept(g0[..i]) + g0[i..]
      {
        ClearPassStep(g0, grid, i, lines);
        if Full(grid[i]) {
          grid := [EmptyRow()] + grid[..i] + grid[i + 1..];
          lines := lines + 1;
        }
        i := i + 1;
      }
      assert g0[..i] == g0;
      if lines > 0 {
        score := score + 100 * lines * level;
        level := 1 + score / 1000;
        fallSpeed := FallInterval(level);
      }
    }

    /** Spawns the next piece at the spawn point; a piece that does not fit ends the game. */
    method NewPiece(d: Draws)
      requires IsGrid(grid) && Consistent(Stats()) && ValidDraws(d)
      modifies this
      ensures Valid() && fresh(piece)
      ensures if Collides(old(grid), SHAPES[d.next.kind], SPAWN_X, SPAWN_Y, 0, 0) then
          Restarted(d.restart, d.clock)
        else
          SessionState() == old(SessionState()) && Active() == SpawnPlacement(d.next)
    {
      piece := new Tetromino(d.next.kind, d.next.color, SPAWN_X, SPAWN_Y);
      var over := CheckCollision(0, 0);
      if over {
        GameOver(d.restart, d.clock);
      }
    }

    /** Locks the active piece, clears full rows and spawns the next piece. */
    method MergePiece(d: Draws)
      requires Valid() && ValidDraws(d)
      modifies this
      ensures Valid() && fresh(piece)
      ensures AfterLock(old(grid), old(Active()), old(Stats()), old(lastFall), d)
    {
      ClearPlacementFits(grid, piece.shape, piece.x, piece.y);
      LockedSpec(grid, piece.shape, piece.x, piece.y, piece.color);
      LockCells();
      ClearedSpec(grid);
      var lines := ClearLines();
      RescoreSpec(old(Stats()), lines);
      NewPiece(d);
    }

    /** A move by one column or one row, made only when the moved piece would not collide. */
    method Shift(dx: int, dy: int)
      requires Valid()
      requires (dx, dy) == (-1, 0) || (dx, dy) == (1, 0) || (dx, dy) == (0, 1)
      modifies piece
      ensures Valid()
      ensures piece == old(piece) && SessionState() == old(SessionState())
      ensures Active() ==
        if old(Hits(dx, dy)) then old(Active())
        else old(Active()).(x := old(piece.x) + dx, y := old(piece.y) + dy)
    {
      var hit := CheckCollision(dx, dy);
      if !hit {
        CollidesShift(grid, piece.shape, piece.x, piece.y, dx, dy);
        piece.x, piece.y := piece.x + dx, piece.y + dy;
      }
    }

    /** A quarter turn, undone by three more when the turned piece collides. */
    method RotateOrRevert()
      requires Valid()
      modifies piece
      ensures Valid()
      ensures piece == old(piece) && SessionState() == old(SessionState())
      ensures Active() == old(Active()).(shape :=
        if Collides(grid, Rotated(old(piece.shape)), piece.x, piece.y, 0, 0)
        then old(piece.shape) else Rotated(old(piece.shape)))
    {
      ghost var s0 := piece.shape;
      piece.Rotate();
      var hit := CheckCollision(0, 0);
      if hit {
        var i := 0;
        while i < 3
          invariant 0 <= i <= 3
          invariant piece.Valid() && piece.shape == Turns(s0, i + 1)
          invariant piece.color == old(piece.color) && piece.x == old(piece.x) && piece.y == old(piece.y)
        {
          piece.Rotate();
          i := i + 1;
        }
        TurnsFour(s0);
      }
    }

    /** Descends while the row below is free, then locks the piece there. */
    method HardDrop(d: Draws)
      requires Valid() && ValidDraws(d)
      modifies this, piece
      ensures Valid() && fresh(piece)
      ensures AfterLock(old(grid),
        old(Active()).(y := DropRow(old(grid), old(piece.shape), old(piece.x), old(piece.y))),
        old(Stats()), old(lastFall), d)
    {
      ghost var g0, s0, x0, y0 := grid, piece.shape, piece.x, piece.y;
      var blocked := CheckCollision(0, 1);
      while !blocked
        invariant piece == old(piece) && SessionState() == old(SessionState())
        invariant piece.shape == s0 && piece.x == x0 && piece.color == old(piece.color) && piece.Valid()
        invariant y0 <= piece.y && !Collides(g0, s0, x0, piece.y, 0, 0)
        invariant DropRow(g0, s0, x0, piece.y) == DropRow(g0, s0, x0, y0)
        invariant blocked == Collides(g0, s0, x0, piece.y, 0, 1)
        decreases GRID_HEIGHT - piece.y
      {
        AboveFloor(g0, s0, x0, piece.y);
        CollidesShift(g0, s0, x0, piece.y, 0, 1);
        piece.y := piece.y + 1;
        blocked := CheckCollision(0, 1);
      }
      MergePiece(d);
    }

    /** One key press, dispatched as the main loop does. */
    method HandleKey(k: Key, d: Draws)
      requires Valid() && ValidDraws(d)
      modifies this, piece
      ensures Valid()
      ensures k.Left? ==> (piece == old(piece) && SessionState() == old(SessionState()) &&
        Active() == if old(Hits(-1, 0)) then old(Active()) else old(Active()).(x := old(piece.x) - 1))
      ensures k.Right? ==> (piece == old(piece) && SessionState() == old(SessionState()) &&
        Active() == if old(Hits(1, 0)) then old(Active()) else old(Active()).(x := old(piece.x) + 1))
      ensures k.Down? ==> (piece == old(piece) && SessionState() == old(SessionState()) &&
        Active() == if old(Hits(0, 1)) then old(Active()) else old(Active()).(y := old(piece.y) + 1))
      ensures k.Up? ==> (piece == old(piece) && SessionState() == old(SessionState()) &&
        Active() == old(Active()).(shape :=
          if Collides(old(grid), Rotated(old(piece.shape)), old(piece.x), old(piece.y), 0, 0)
          then old(piece.shape) else Rotated(old(piece.shape))))
      ensures k.Space? ==> (fresh(piece) &&
        AfterLock(old(grid),
          old(Active()).(y := DropRow(old(grid), old(piece.shape), old(piece.x), old(piece.y))),
          old(Stats()), old(lastFall), d))
    {
      match k
      case Left => Shift(-1, 0);
      case Right => Shift(1, 0);
      case Down => Shift(0, 1);
      case Up => RotateOrRevert();
      case Space => HardDrop(d);
    }

    /**
     * The timed part of a frame: once more than the fall interval has passed
     * since the last automatic descent, the piece moves down a row and the timer
     * restarts at `now`, or, when it cannot, it locks (the timer is left alone).
     */
    method AutoFall(now: int, d: Draws)
      requires Valid() && ValidDraws(d)
      modifies this, piece
      ensures Valid()
      ensures now - old(lastFall) <= old(fallSpeed) ==>
        (piece == old(piece) && SessionState() == old(SessionState()) && Active() == old(Active()))
      ensures now - old(lastFall) > old(fallSpeed) && !old(Hits(0, 1)) ==>
        (piece == old(piece) && grid == old(grid) && Stats() == old(Stats()) && lastFall == now &&
         Active() == old(Active()).(y := old(piece.y) + 1))
      ensures now - old(lastFall) > old(fallSpeed) && old(Hits(0, 1)) ==>
        (fresh(piece) && AfterLock(old(grid), old(Active()), old(Stats()), old(lastFall), d))
    {
      if now - lastFall > fallSpeed {
        var blocked := CheckCollision(0, 1);
        if !blocked {
          CollidesShift(grid, piece.shape, piece.x, piece.y, 0, 1);
          piece.y := piece.y + 1;
          lastFall := now;
        } else {
          MergePiece(d);
        }
      }
    }
  }
}
