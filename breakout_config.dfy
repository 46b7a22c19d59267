/**
  The immutable game configuration of gym_breakout_pygame/breakout_env.py
  (`BreakoutConfiguration`), its derived window and bin sizes, the commands, and the
  placement of bricks, together with the two integer conversions of Python the engine
  relies on (`//` and `int()`).
*/
module BreakoutConfig {
  import opened Wrappers

  /** Horizontal and vertical starting speed of the ball (`init_ball_speed_x/y`). */
  const InitBallSpeedX: int := 2
  const InitBallSpeedY: int := 5

  /** The window height is a constant 480 whatever the configuration. */
  const WinHeight: int := 480

  /** The number of ball direction codes (`n_ball_dir`). */
  const NBallDir: int := 10

  datatype Config = Config(
    brickRows: int,
    brickCols: int,
    paddleWidth: int,
    paddleHeight: int,
    paddleSpeed: int,
    brickWidth: int,
    brickHeight: int,
    brickXDistance: int,
    brickReward: int,
    ballRadius: int,
    resolutionX: int,
    resolutionY: int,
    horizon: int)
  {
    /** What the constructor asserts. */
    predicate Valid()
    {
      brickCols >= 3
    }
  }

  datatype ConfigError = TooFewColumns

  /** The commands the engine accepts. */
  datatype Command = NOP | LEFT | RIGHT

  /** `BreakoutConfiguration(...)`: rejects fewer than three columns; a missing horizon defaults. */
  function NewConfiguration(
    brickRows: int, brickCols: int, paddleWidth: int, paddleHeight: int, paddleSpeed: int,
    brickWidth: int, brickHeight: int, brickXDistance: int, brickReward: int,
    ballRadius: int, resolutionX: int, resolutionY: int, horizon: Option<int>): (r: Result<Config, ConfigError>)
    ensures r.Failure? <==> brickCols < 3
    ensures r.Success? ==> r.value.Valid()
    ensures r.Success? ==> r.value.brickRows == brickRows && r.value.brickCols == brickCols
    ensures r.Success? && horizon.None? ==> r.value.horizon == 300 * (brickCols * brickRows)
    ensures r.Success? && horizon.Some? ==> r.value.horizon == horizon.value
  {
    if brickCols < 3 then Failure(TooFewColumns)
    else Success(Config(
      brickRows, brickCols, paddleWidth, paddleHeight, paddleSpeed,
      brickWidth, brickHeight, brickXDistance, brickReward, ballRadius,
      resolutionX, resolutionY,
      if horizon.Some? then horizon.value else 300 * (brickCols * brickRows)))
  }

  /** `DefaultBreakoutConfiguration()`: every parameter at its default. */
  function DefaultConfiguration(): Config
  {
    Config(3, 3, 80, 10, 10, 60, 12, 20, 5, 10, 20, 10, 300 * (3 * 3))
  }

  // ---------------------------------------------------------------------------
  // Python integer conversions.

  /** Python's `a // b`: the floor of the quotient, for either sign of b. */
  function FloorDiv(a: int, b: int): (q: int)
    requires b != 0
    ensures b > 0 ==> b * q <= a < b * q + b
    ensures b < 0 ==> b * q >= a > b * q + b
  {
    if b > 0 then a / b else (-a) / (-b)
  }

  /** Python's `int(r)` on a float: truncation toward zero. */
  function Trunc(r: real): (n: int)
    ensures r >= 0.0 ==> n as real <= r < n as real + 1.0
    ensures r < 0.0 ==> n as real - 1.0 < r <= n as real
  {
    if r >= 0.0 then r.Floor else -((-r).Floor)
  }

  // ---------------------------------------------------------------------------
  // Derived geometry.

  /** `win_width`: the brick row plus a gap on either side of every brick. */
  function WinWidth(c: Config): int
  {
    (c.brickWidth + c.brickXDistance) * c.brickCols + c.brickXDistance
  }

  /** `n_ball_x` */
  function NBallX(c: Config): int
    requires c.resolutionX != 0
  {
    FloorDiv(WinWidth(c), c.resolutionX) + 1
  }

  /** `n_paddle_x` */
  function NPaddleX(c: Config): int
    requires c.resolutionX != 0
  {
    FloorDiv(WinWidth(c), c.resolutionX) + 1
  }

  /** `n_ball_y` as written: it divides the window WIDTH by resolution_y. */
  function NBallY(c: Config): int
    requires c.resolutionY != 0
  {
    FloorDiv(WinWidth(c), c.resolutionY) + 1
  }

  /** The evidently intended number of vertical ball bins: the window HEIGHT by resolution_y. */
  function NBallYByHeight(c: Config): int
    requires c.resolutionY != 0
  {
    FloorDiv(WinHeight, c.resolutionY) + 1
  }

  /** Bin of a coordinate in the observation: `int(v) // resolution`. */
  function Bin(v: real, resolution: int): int
    requires resolution != 0
  {
    FloorDiv(Trunc(v), resolution)
  }

  /** A coordinate of the window falls in one of the NBallX horizontal bins. */
  lemma ColumnBinInSpace(c: Config, x: real)
    requires c.resolutionX > 0 && 0.0 <= x <= WinWidth(c) as real
    ensures 0 <= Bin(x, c.resolutionX) < NBallX(c)
    ensures NBallX(c) == NPaddleX(c)
  {
    var t := Trunc(x);
    assert 0 <= t <= WinWidth(c);
    MonotoneFloorDiv(0, t, c.resolutionX);
    MonotoneFloorDiv(t, WinWidth(c), c.resolutionX);
  }

  /** With the corrected count, every height of the window falls in a vertical bin. */
  lemma RowBinInSpace(c: Config, y: real)
    requires c.resolutionY > 0 && 0.0 <= y <= WinHeight as real
    ensures 0 <= Bin(y, c.resolutionY) < NBallYByHeight(c)
  {
    var t := Trunc(y);
    assert 0 <= t <= WinHeight;
    MonotoneFloorDiv(0, t, c.resolutionY);
    MonotoneFloorDiv(t, WinHeight, c.resolutionY);
  }

  /**
    As written, the vertical bin count does not cover the window: with the default
    configuration the ball's starting height (480 - 100 - 10 = 370) lies in bin 37, while
    `n_ball_y` is 260 // 10 + 1 = 27.
  */
  lemma DefaultStartRowOutsideSpace()
    ensures var c := DefaultConfiguration();
            && NBallY(c) == 27
            && Bin((WinHeight - 100 - c.ballRadius) as real, c.resolutionY) == 37
            && Bin((WinHeight - 100 - c.ballRadius) as real, c.resolutionY) >= NBallY(c)
  {
    var c := DefaultConfiguration();
    assert WinWidth(c) == 260;
    assert (370.0).Floor == 370;
  }

  lemma MonotoneFloorDiv(a: int, b: int, d: int)
    requires d > 0 && a <= b
    ensures FloorDiv(a, d) <= FloorDiv(b, d)
  {
    var qa, qb := FloorDiv(a, d), FloorDiv(b, d);
    if qa > qb {
      assert d * qa >= d * qb + d by { MulStep(d, qb, qa); }
    }
  }

  lemma MulStep(d: int, x: int, y: int)
    requires d > 0 && x < y
    ensures d * y >= d * x + d
  {
    assert d * y - d * x == d * (y - x);
    assert d * (y - x) >= d * 1 by { MulMono(d, 1, y - x); }
  }

  lemma MulMono(d: int, x: int, y: int)
    requires d >= 0 && x <= y
    ensures d * x <= d * y
  {
  }

  // ---------------------------------------------------------------------------
  // Bricks.

  /** A grid cell `(i, j)`: column i, row j. */
  type Position = (int, int)

  /** `Brick(i, j, width, height, xdistance)`; its rectangle is computed from the cell. */
  datatype Brick = Brick(i: int, j: int, width: int, height: int, xdistance: int)
  {
    function X(): int { (width + xdistance) * i + xdistance }
    function Y(): int { 70 + (height + 8) * j }
  }

  /** `Brick(i, j, width, height, xdistance)` for cell p = (i, j), as `_init_bricks` creates it. */
  function BrickAt(p: Position, width: int, height: int, xdistance: int): Brick
  {
    Brick(p.0, p.1, width, height, xdistance)
  }

  /** The brick of cell p under configuration c. */
  function ConfigBrick(c: Config, p: Position): Brick
  {
    BrickAt(p, c.brickWidth, c.brickHeight, c.brickXDistance)
  }

  predicate InGrid(c: Config, p: Position)
  {
    0 <= p.0 < c.brickCols && 0 <= p.1 < c.brickRows
  }

  /** The bottom edge of the last brick row: rows are 8 apart and start at height 70. */
  function BrickBandBottom(c: Config): int
  {
    70 + (c.brickHeight + 8) * c.brickRows - 8
  }

  /**
    Every brick of the grid lies horizontally inside the window with at least one gap of
    margin on either side, and the last column ends exactly one gap before the right
    border. Vertically it lies in the band from height 70 to `BrickBandBottom`, which is
    inside the window only when the rows fit: the window height is fixed at 480.
  */
  lemma BricksInsideWindow(c: Config, p: Position)
    requires InGrid(c, p) && c.brickWidth >= 0 && c.brickXDistance >= 0 && c.brickHeight >= 0
    ensures var b := ConfigBrick(c, p);
            && b.X() >= c.brickXDistance
            && b.X() + c.brickWidth + c.brickXDistance <= WinWidth(c)
            && (p.0 == c.brickCols - 1 ==> b.X() + c.brickWidth + c.brickXDistance == WinWidth(c))
            && 70 <= b.Y() && b.Y() + c.brickHeight <= BrickBandBottom(c)
            && (BrickBandBottom(c) <= WinHeight ==> b.Y() + c.brickHeight <= WinHeight)
  {
    var s := c.brickWidth + c.brickXDistance;
    MulMono(s, 0, p.0);
    MulMono(s, p.0 + 1, c.brickCols);
    assert s * (p.0 + 1) == s * p.0 + s;
    var t := c.brickHeight + 8;
    MulMono(t, 0, p.1);
    MulMono(t, p.1 + 1, c.brickRows);
    assert t * (p.1 + 1) == t * p.1 + t;
  }

  /**
    With the default brick height, 21 rows already reach below the window: the top of
    row 20 is at 470 and its bottom at 482.
  */
  lemma TwentyOneRowsLeaveWindow()
    ensures var c := DefaultConfiguration().(brickRows := 21);
            && InGrid(c, (0, 20))
            && ConfigBrick(c, (0, 20)).Y() + c.brickHeight == 482 > WinHeight
  {
  }

  /** Bricks of distinct cells never overlap (given non-negative sizes and gaps). */
  lemma BricksDisjoint(c: Config, p: Position, q: Position)
    requires InGrid(c, p) && InGrid(c, q) && p != q
    requires c.brickWidth >= 0 && c.brickXDistance >= 0 && c.brickHeight >= 0
    ensures var a, b := ConfigBrick(c, p), ConfigBrick(c, q);
            || a.X() + c.brickWidth <= b.X() || b.X() + c.brickWidth <= a.X()
            || a.Y() + c.brickHeight <= b.Y() || b.Y() + c.brickHeight <= a.Y()
  {
    var s := c.brickWidth + c.brickXDistance;
    var t := c.brickHeight + 8;
    if p.0 < q.0 {
      MulMono(s, p.0 + 1, q.0);
      assert s * (p.0 + 1) == s * p.0 + s;
    } else if q.0 < p.0 {
      MulMono(s, q.0 + 1, p.0);
      assert s * (q.0 + 1) == s * q.0 + s;
    } else if p.1 < q.1 {
      MulMono(t, p.1 + 1, q.1);
      assert t * (p.1 + 1) == t * p.1 + t;
    } else {
      MulMono(t, q.1 + 1, p.1);
      assert t * (q.1 + 1) == t * q.1 + t;
    }
  }
}
