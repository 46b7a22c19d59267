/**
  The mutable objects of gym_breakout_pygame/breakout_env.py: the brick grid (a dictionary
  from cell to brick that remembers insertion order, mirrored by a 0/1 matrix), the ball,
  the paddle and the game state whose `Step` is one tick. The pygame collision test
  `colliderect` is not modelled: every operation that needs it takes it as the parameter
  `hits`, and what is proved holds for every such test.
*/
module BreakoutState {
  import opened Wrappers
  import opened BreakoutConfig
  import opened BreakoutPhysics
  import Codec

  // ---------------------------------------------------------------------------
  // Insertion order of the brick dictionary.

  /** Cells are created column by column, row by row inside a column. */
  predicate LexLess(a: Position, b: Position)
  {
    a.0 < b.0 || (a.0 == b.0 && a.1 < b.1)
  }

  predicate Sorted(s: seq<Position>)
  {
    forall k, m :: 0 <= k < m < |s| ==> LexLess(s[k], s[m])
  }

  /** The key order after `dict.pop(p)`: p is dropped, the rest keeps its order. */
  function Without(s: seq<Position>, p: Position): (r: seq<Position>)
    ensures forall x :: x in r <==> x in s && x != p
    ensures p !in s ==> r == s
  {
    if |s| == 0 then []
    else (if s[0] == p then [] else [s[0]]) + Without(s[1..], p)
  }

  /** Dropping a key keeps the order sorted and removes exactly one entry when the key is there. */
  lemma {:induction false} WithoutSorted(s: seq<Position>, p: Position)
    requires Sorted(s)
    ensures Sorted(Without(s, p))
    ensures p in s ==> |Without(s, p)| == |s| - 1
    decreases |s|
  {
    if |s| > 0 {
      var t := s[1..];
      assert Sorted(t) by {
        forall k, m | 0 <= k < m < |t| ensures LexLess(t[k], t[m]) {
          assert LexLess(s[k + 1], s[m + 1]);
        }
      }
      WithoutSorted(t, p);
      var w := Without(t, p);
      if s[0] != p {
        forall x | x in w ensures LexLess(s[0], x) {
          var m :| 0 <= m < |t| && t[m] == x;
          assert LexLess(s[0], s[m + 1]);
        }
        var r := [s[0]] + w;
        assert r == Without(s, p);
        forall k, m | 0 <= k < m < |r| ensures LexLess(r[k], r[m]) {
          assert r[m] == w[m - 1] && r[m] in w;
          if k > 0 {
            assert r[k] == w[k - 1];
          }
        }
      } else {
        assert p !in t by {
          forall m | 0 <= m < |t| ensures t[m] != p {
            assert LexLess(s[0], s[m + 1]);
          }
        }
        assert Without(s, p) == w;
      }
    }
  }

  /** A sorted key order has as many entries as the dictionary has keys. */
  lemma {:induction false} KeyCount(keys: set<Position>, s: seq<Position>)
    requires Sorted(s) && forall x :: x in keys <==> x in s
    ensures |keys| == |s|
    decreases |s|
  {
    if |s| > 0 {
      var last, init := s[|s| - 1], s[..|s| - 1];
      assert last !in init by {
        forall k | 0 <= k < |init| ensures init[k] != last {
          assert LexLess(s[k], s[|s| - 1]);
        }
      }
      assert Sorted(init) by {
        forall k, m | 0 <= k < m < |init| ensures LexLess(init[k], init[m]) {
          assert LexLess(s[k], s[m]);
        }
      }
      forall x ensures x in keys - {last} <==> x in init {
        if x in init { assert x in s; }
        if x in s && x != last {
          var k :| 0 <= k < |s| && s[k] == x;
          assert k < |s| - 1 && init[k] == x;
        }
      }
      KeyCount(keys - {last}, init);
    }
  }

  /**
    The brick scan of a tick: the index, in insertion order, of the first brick whose
    rectangle `hits` the ball's square, if any.
  */
  function FirstColliding(order: seq<Position>, bricks: map<Position, Brick>, ball: Rect,
                          hits: (Rect, Rect) -> bool): (r: Option<nat>)
    requires forall k :: 0 <= k < |order| ==> order[k] in bricks
    ensures r.Some? ==> r.value < |order| && hits(BrickRect(bricks[order[r.value]]), ball)
    ensures r.Some? ==> forall k :: 0 <= k < r.value ==> !hits(BrickRect(bricks[order[k]]), ball)
    ensures r.None? <==> forall k :: 0 <= k < |order| ==> !hits(BrickRect(bricks[order[k]]), ball)
    decreases |order|
  {
    if |order| == 0 then None
    else if hits(BrickRect(bricks[order[0]]), ball) then Some(0)
    else match FirstColliding(order[1..], bricks, ball, hits)
         case None => None
         case Some(k) => Some(k + 1)
  }

  // ---------------------------------------------------------------------------
  // Flattening the brick matrix (numpy's row-major `flatten()`).

  /** Position of cell (i, j) in the flattened matrix whose rows have `width` entries. */
  function RowMajor(i: int, j: int, width: int): int
  {
    i * width + j
  }

  /** An index into a flattened `outer` by `inner` matrix splits into a valid cell. */
  lemma FlatIndexBounds(k: int, outer: int, inner: int)
    requires 0 <= k < outer * inner && inner >= 0
    ensures inner > 0 && 0 <= k / inner < outer && 0 <= k % inner < inner
  {
    var q := k / inner;
    if q >= outer {
      MulMono(inner, outer, q);
    }
  }

  /** A cell of an `outer` by `inner` matrix has a flat index in range that splits back. */
  lemma RowMajorBounds(i: int, j: int, outer: int, inner: int)
    requires 0 <= i < outer && 0 <= j < inner
    ensures 0 <= RowMajor(i, j, inner) < outer * inner
    ensures RowMajor(i, j, inner) / inner == i && RowMajor(i, j, inner) % inner == j
  {
    MulMono(inner, i + 1, outer);
    MulMono(inner, 0, i);
    Codec.DivModUnique(RowMajor(i, j, inner), inner, i, j);
  }

  function Flatten(m: array2<int>): (s: seq<int>)
    reads m
    ensures |s| == m.Length0 * m.Length1
    ensures forall i, j :: 0 <= i < m.Length0 && 0 <= j < m.Length1 ==>
              0 <= RowMajor(i, j, m.Length1) < |s| && s[RowMajor(i, j, m.Length1)] == m[i, j]
  {
    var s := seq(m.Length0 * m.Length1, k requires 0 <= k < m.Length0 * m.Length1 reads m =>
                 FlatIndexBounds(k, m.Length0, m.Length1); m[k / m.Length1, k % m.Length1]);
    assert forall i, j :: 0 <= i < m.Length0 && 0 <= j < m.Length1 ==>
              0 <= RowMajor(i, j, m.Length1) < |s| && s[RowMajor(i, j, m.Length1)] == m[i, j] by {
      forall i, j | 0 <= i < m.Length0 && 0 <= j < m.Length1
        ensures 0 <= RowMajor(i, j, m.Length1) < |s| && s[RowMajor(i, j, m.Length1)] == m[i, j]
      {
        RowMajorBounds(i, j, m.Length0, m.Length1);
      }
    }
    s
  }

  /** A matrix of zeros and ones flattens to a sequence of zeros and ones. */
  lemma FlattenBinary(m: array2<int>)
    requires forall i, j :: 0 <= i < m.Length0 && 0 <= j < m.Length1 ==> m[i, j] == 0 || m[i, j] == 1
    ensures forall k :: 0 <= k < |Flatten(m)| ==> Flatten(m)[k] == 0 || Flatten(m)[k] == 1
  {
    var s := Flatten(m);
    forall k | 0 <= k < |s|
      ensures s[k] == 0 || s[k] == 1
    {
      FlatIndexBounds(k, m.Length0, m.Length1);
      assert s[k] == m[k / m.Length1, k % m.Length1];
    }
  }

  // ---------------------------------------------------------------------------

  /** `BrickGrid`: the live bricks by cell, their insertion order, and the 0/1 matrix. */
  class BrickGrid {
    const cols: nat
    const rows: nat
    const brickWidth: int
    const brickHeight: int
    const brickXDistance: int
    /** The dictionary `bricks`: cell to brick ... */
    var bricks: map<Position, Brick>
    /** ... and the order in which its keys were inserted. */
    var order: seq<Position>
    /** `bricksgrid`, of shape (cols, rows). */
    const matrix: array2<int>

    predicate Cell(p: Position)
    {
      0 <= p.0 < cols && 0 <= p.1 < rows
    }

    /** The dictionary and the matrix agree: a cell holds 1 exactly when its brick is live. */
    ghost predicate Valid()
      reads this, matrix
    {
      && matrix.Length0 == cols && matrix.Length1 == rows
      && Sorted(order)
      && (forall p :: p in bricks <==> p in order)
      && (forall p :: p in bricks ==> Cell(p) && bricks[p] == BrickAt(p, brickWidth, brickHeight, brickXDistance))
      && (forall i, j :: 0 <= i < cols && 0 <= j < rows ==> (matrix[i, j] == 1 <==> (i, j) in bricks))
      && (forall i, j :: 0 <= i < cols && 0 <= j < rows ==> (matrix[i, j] == 0 || matrix[i, j] == 1))
    }

    /** `BrickGrid(...)`: a zero matrix, then `_init_bricks` fills every cell. */
    constructor (cols: nat, rows: nat, brickWidth: int, brickHeight: int, brickXDistance: int)
      ensures Valid() && fresh(matrix)
      ensures this.cols == cols && this.rows == rows
      ensures this.brickWidth == brickWidth && this.brickHeight == brickHeight
      ensures this.brickXDistance == brickXDistance
      ensures |order| == cols * rows && |bricks| == cols * rows
      ensures forall i, j :: 0 <= i < cols && 0 <= j < rows ==> (i, j) in bricks && matrix[i, j] == 1
    {
      this.cols := cols;
      this.rows := rows;
      this.brickWidth := brickWidth;
      this.brickHeight := brickHeight;
      this.brickXDistance := brickXDistance;
      bricks := map[];
      order := [];
      matrix := new int[cols, rows]((i, j) => 0);
      new;
      assert FilledBefore((0, 0));
      InitBricks();
      KeyCount(bricks.Keys, order);
    }

    /**
      The state of `_init_bricks` just before it adds brick q: exactly the cells that come
      before q are filled, in the dictionary and in the matrix.
    */
    ghost predicate FilledBefore(q: Position)
      reads this, matrix
    {
      && matrix.Length0 == cols && matrix.Length1 == rows
      && Sorted(order)
      && (forall p :: p in bricks <==> p in order)
      && (forall p :: p in bricks ==> Cell(p) && bricks[p] == BrickAt(p, brickWidth, brickHeight, brickXDistance) && LexLess(p, q))
      && (forall a, b :: 0 <= a < cols && 0 <= b < rows ==>
            (matrix[a, b] == 1 <==> LexLess((a, b), q)) && (matrix[a, b] == 0 || matrix[a, b] == 1))
      && (forall a, b :: 0 <= a < cols && 0 <= b < rows && LexLess((a, b), q) ==> (a, b) in bricks)
    }

    /** Once a column is done, the cells before (i, rows) are those before (i + 1, 0). */
    lemma NextColumn(i: int)
      requires FilledBefore((i, rows))
      ensures FilledBefore((i + 1, 0))
    {
    }

    /** `_init_bricks`: for every column i, for every row j, add brick (i, j) and set its cell. */
    method InitBricks()
      requires FilledBefore((0, 0)) && order == []
      modifies this`bricks, this`order, matrix
      ensures Valid()
      ensures |order| == cols * rows
      ensures forall i, j :: 0 <= i < cols && 0 <= j < rows ==> (i, j) in bricks && matrix[i, j] == 1
    {
      var i := 0;
      while i < cols
        invariant 0 <= i <= cols
        invariant |order| == i * rows
        invariant FilledBefore((i, 0))
      {
        var j := 0;
        while j < rows
          invariant 0 <= j <= rows
          invariant |order| == i * rows + j
          invariant FilledBefore((i, j))
        {
          AddBrick(i, j);
          j := j + 1;
        }
        NextColumn(i);
        assert |order| == (i + 1) * rows;
        i := i + 1;
      }
    }

    /** One iteration of `_init_bricks`. */
    method AddBrick(i: int, j: int)
      requires FilledBefore((i, j)) && Cell((i, j))
      modifies this`bricks, this`order, matrix
      ensures FilledBefore((i, j + 1))
      ensures order == old(order) + [(i, j)]
    {
      bricks := bricks[(i, j) := BrickAt((i, j), brickWidth, brickHeight, brickXDistance)];
      order := order + [(i, j)];
      matrix[i, j] := 1;
    }

    /**
      `remove_brick_at_position`: `pop` the key, then zero its cell. A missing key raises
      KeyError before anything changes; `found` is false then.
    */
    method RemoveBrickAt(p: Position) returns (found: bool)
      requires Valid()
      modifies this`bricks, this`order, matrix
      ensures Valid()
      ensures found == (p in old(bricks))
      ensures bricks == old(bricks) - {p}
      ensures order == Without(old(order), p)
      ensures found ==> |order| == |old(order)| - 1
      ensures forall i, j :: 0 <= i < cols && 0 <= j < rows ==>
                matrix[i, j] == if found && (i, j) == p then 0 else old(matrix[i, j])
    {
      if p !in bricks {
        return false;
      }
      WithoutSorted(order, p);
      bricks := bricks - {p};
      order := Without(order, p);
      matrix[p.0, p.1] := 0;
      return true;
    }

    /** `is_empty` */
    function IsEmpty(): (r: bool)
      reads this
      ensures r <==> bricks == map[]
    {
      |bricks| == 0
    }

    /** The grid is empty exactly when the whole matrix is zero. */
    lemma EmptyIffMatrixZero()
      requires Valid()
      ensures IsEmpty() <==> forall i, j :: 0 <= i < cols && 0 <= j < rows ==> matrix[i, j] == 0
    {
      if !IsEmpty() {
        var p :| p in bricks;
        assert matrix[p.0, p.1] == 1;
      }
    }

    /** The brick loop of `step`: the first live brick, in insertion order, that `hits` the ball. */
    method FirstHit(ball: Rect, hits: (Rect, Rect) -> bool) returns (idx: Option<nat>)
      requires Valid()
      ensures idx == FirstColliding(order, bricks, ball, hits)
    {
      var k := 0;
      while k < |order|
        invariant 0 <= k <= |order|
        invariant forall m :: 0 <= m < k ==> !hits(BrickRect(bricks[order[m]]), ball)
      {
        if hits(BrickRect(bricks[order[k]]), ball) {
          return Some(k);
        }
        k := k + 1;
      }
      return None;
    }

    /**
      The brick loop's effect on the grid: `idx` is the first brick, in the old insertion
      order, that `hits` the ball's square; that brick and its cell are removed, and nothing
      else changes. With no hit, the grid is untouched.
    */
    twostate predicate RemovedFirst(ball: Rect, hits: (Rect, Rect) -> bool, new idx: Option<nat>)
      reads this, matrix
    {
      && old(forall k :: 0 <= k < |order| ==> order[k] in bricks)
      && idx == FirstColliding(old(order), old(bricks), ball, hits)
      && (idx.None? ==> bricks == old(bricks) && order == old(order)
                        && forall i, j :: 0 <= i < cols && 0 <= j < rows && i < matrix.Length0 && j < matrix.Length1 ==>
                             matrix[i, j] == old(matrix[i, j]))
      && (idx.Some? ==>
            var p := old(order)[idx.value];
            && bricks == old(bricks) - {p}
            && order == Without(old(order), p)
            && |order| == |old(order)| - 1
            && forall i, j :: 0 <= i < cols && 0 <= j < rows && i < matrix.Length0 && j < matrix.Length1 ==>
                 matrix[i, j] == if (i, j) == p then 0 else old(matrix[i, j]))
    }

    /** The removal half of the brick loop: the brick `FirstHit` finds, if any, is removed. */
    method RemoveFirstHit(ball: Rect, hits: (Rect, Rect) -> bool) returns (idx: Option<nat>)
      requires Valid()
      modifies this`bricks, this`order, matrix
      ensures Valid()
      ensures RemovedFirst(ball, hits, idx)
    {
      idx := FirstHit(ball, hits);
      if idx.Some? {
        var found := RemoveBrickAt(order[idx.value]);
      }
    }
  }

  // ---------------------------------------------------------------------------

  class Ball {
    const config: Config
    var x: real
    var y: real
    var speedX: real
    var speedY: real

    /** The ball starts centred, 100 above the bottom, moving right and down. */
    constructor (config: Config)
      ensures this.config == config
      ensures Value() == Kinematics((WinWidth(config) / 2) as real, (WinHeight - 100 - config.ballRadius) as real,
                                    InitBallSpeedX as real, InitBallSpeedY as real)
    {
      this.config := config;
      x := (WinWidth(config) / 2) as real;
      y := (WinHeight - 100 - config.ballRadius) as real;
      speedX := InitBallSpeedX as real;
      speedY := InitBallSpeedY as real;
    }

    function Radius(): int
    {
      config.ballRadius
    }

    function Value(): Kinematics
      reads this
    {
      Kinematics(x, y, speedX, speedY)
    }

    /** `Ball.update` */
    method Update()
      modifies this
      ensures Value() == Moved(old(Value()))
    {
      x := x + speedX;
      y := y + speedY;
    }
  }

  class Paddle {
    const config: Config
    var x: int
    const y: int

    /** The paddle starts centred, 20 above the bottom. */
    constructor (config: Config)
      ensures this.config == config
      ensures x == WinWidth(config) / 2 && y == WinHeight - 20
    {
      this.config := config;
      x := WinWidth(config) / 2;
      y := WinHeight - 20;
    }

    function Width(): int { config.paddleWidth }
    function Height(): int { config.paddleHeight }
    function Speed(): int { config.paddleSpeed }

    /** `Paddle.update`: move by the command, then clamp at 0 and at `win_width - width`. */
    method Update(cmd: Command)
      modifies this`x
      ensures x == ClampPaddle(old(x) + Delta(cmd, Speed()), WinWidth(config), Width())
      ensures Width() <= WinWidth(config) ==> 0 <= x <= WinWidth(config) - Width()
    {
      match cmd {
        case LEFT => x := x - Speed();
        case RIGHT => x := x + Speed();
        case NOP =>
      }
      if x < 0 {
        x := 0;
      }
      if x > WinWidth(config) - Width() {
        x := WinWidth(config) - Width();
      }
    }
  }

  /** What `observe` returns. */
  datatype Observation = Observation(ballX: int, ballY: int, ballDir: int, paddleX: int, bricksMatrix: seq<int>)

  class State {
    const config: Config
    const ball: Ball
    const paddle: Paddle
    const grid: BrickGrid
    var lastCommand: Command
    var score: int
    var steps: int

    ghost predicate Valid()
      reads this, grid, grid.matrix
    {
      && ball.config == config && paddle.config == config
      && grid.Valid()
      && grid.cols == config.brickCols && grid.rows == config.brickRows
      && grid.brickWidth == config.brickWidth && grid.brickHeight == config.brickHeight
      && grid.brickXDistance == config.brickXDistance
    }

    /** `State(config)`: a fresh ball, paddle and full grid, no score and no steps. */
    constructor (config: Config)
      requires config.Valid() && config.brickRows >= 0
      ensures Valid() && this.config == config
      ensures fresh(ball) && fresh(paddle) && fresh(grid) && fresh(grid.matrix)
      ensures ball.Value() == Kinematics((WinWidth(config) / 2) as real, (WinHeight - 100 - config.ballRadius) as real,
                                         InitBallSpeedX as real, InitBallSpeedY as real)
      ensures paddle.x == WinWidth(config) / 2 && paddle.y == WinHeight - 20
      ensures lastCommand == NOP && score == 0 && steps == 0
      ensures |grid.bricks| == config.brickCols * config.brickRows
      ensures forall i, j :: 0 <= i < config.brickCols && 0 <= j < config.brickRows ==>
                (i, j) in grid.bricks && grid.matrix[i, j] == 1
    {
      this.config := config;
      ball := new Ball(config);
      paddle := new Paddle(config);
      grid := new BrickGrid(config.brickCols, config.brickRows, config.brickWidth,
                            config.brickHeight, config.brickXDistance);
      lastCommand := NOP;
      score := 0;
      steps := 0;
    }

    /** `State.update`: move the paddle and the ball, remember the command. */
    method Update(cmd: Command)
      requires paddle.config == config
      modifies this`lastCommand, ball, paddle
      ensures lastCommand == cmd
      ensures paddle.x == ClampPaddle(old(paddle.x) + Delta(cmd, config.paddleSpeed), WinWidth(config), config.paddleWidth)
      ensures ball.Value() == Moved(old(ball.Value()))
    {
      paddle.Update(cmd);
      ball.Update();
      lastCommand := cmd;
    }

    /**
      `State.step`: one tick. The ball's square is taken after the move and before the
      walls clamp it; the paddle rules apply on a paddle hit; then the first live brick the
      square hits, in insertion order, is removed and pays `brick_reward`.
    */
    method Step(cmd: Command, hits: (Rect, Rect) -> bool) returns (reward: int, ghost hit: Option<nat>)
      requires Valid()
      modifies this, ball, paddle, grid, grid.matrix
      ensures Valid()
      ensures steps == old(steps) + 1 && lastCommand == cmd
      ensures paddle.x == ClampPaddle(old(paddle.x) + Delta(cmd, config.paddleSpeed), WinWidth(config), config.paddleWidth)
      ensures var square := BallRect(Moved(old(ball.Value())), config.ballRadius);
              && grid.RemovedFirst(square, hits, hit)
              && ball.Value() == Tick(old(ball.Value()), config, paddle.x,
                                      hits(square, PaddleRect(paddle.x, paddle.y, config)), hit.Some?)
      ensures reward == if hit.Some? then config.brickReward else 0
      ensures score == old(score) + reward
    {
      reward := 0;
      steps := steps + 1;
      Update(cmd);
      ghost var moved := ball.Value();
      var radius := ball.Radius();
      var square := Rect(ball.x - radius as real, ball.y - radius as real, (radius * 2) as real, (radius * 2) as real);
      var paddleRect := Rect(paddle.x as real, paddle.y as real, paddle.Width() as real, paddle.Height() as real);
      assert square == BallRect(moved, config.ballRadius);
      assert paddleRect == PaddleRect(paddle.x, paddle.y, config);
      BounceOffWalls();
      ghost var walled := ball.Value();
      if hits(square, paddleRect) {
        BounceOffPaddle();
      }
      ghost var bounced := ball.Value();
      assert bounced == if hits(square, paddleRect) then PaddleBounce(walled, paddle.x, config.paddleWidth) else walled;
      assert grid.order == old(grid.order) && grid.bricks == old(grid.bricks) && unchanged(grid.matrix);
      assert Valid();
      reward, hit := HitBrick(square, hits);
      assert ball.Value() == Tick(old(ball.Value()), config, paddle.x, hits(square, paddleRect), hit.Some?);
    }

    /** The screen-border part of `step`: top, then left, then right. */
    method BounceOffWalls()
      requires ball.config == config
      modifies ball
      ensures ball.Value() == Walls(old(ball.Value()), config.ballRadius, WinWidth(config))
    {
      var radius := ball.Radius();
      if ball.y < radius as real {
        ball.y := radius as real;
        ball.speedY := -ball.speedY;
      }
      if ball.x < radius as real {
        ball.x := radius as real;
        ball.speedX := -ball.speedX;
      }
      if ball.x > (WinWidth(config) - radius) as real {
        ball.x := (WinWidth(config) - radius) as real;
        ball.speedX := -ball.speedX;
      }
    }

    /** The paddle part of `step`, taken when the ball's square touches the paddle. */
    method BounceOffPaddle()
      requires paddle.config == config
      modifies ball
      ensures ball.Value() == PaddleBounce(old(ball.Value()), paddle.x, config.paddleWidth)
    {
      ghost var k := ball.Value();
      var dbp := Abs(ball.x - (paddle.x + paddle.Width() / 2) as real);
      if dbp < 20.0 {
        if ball.speedX < -5.0 {
          ball.speedX := ball.speedX + 2.0;
        } else if ball.speedX > 5.0 {
          ball.speedX := ball.speedX - 2.0;
        } else if ball.speedX <= -0.5 {
          ball.speedX := ball.speedX + 0.5;
        } else if ball.speedX >= 0.5 {
          ball.speedX := ball.speedX - 0.5;
        }
      }
      ghost var centred := ball.speedX;
      assert centred == if NearCenter(k.x, paddle.x, config.paddleWidth) then CenterSpeedX(k.speedX) else k.speedX;
      dbp := Abs(ball.x - (paddle.x + 0) as real);
      if dbp < 10.0 {
        ball.speedX := -Abs(ball.speedX) - 1.0;
      }
      ghost var leftward := ball.speedX;
      assert leftward == if NearLeftEdge(k.x, paddle.x) then -Abs(centred) - 1.0 else centred;
      dbp := Abs(ball.x - (paddle.x + paddle.Width()) as real);
      if dbp < 10.0 {
        ball.speedX := Abs(ball.speedX) + 1.0;
      }
      assert ball.speedX == PaddleSpeedX(k.x, paddle.x, config.paddleWidth, k.speedX);
      ball.speedY := -Abs(ball.speedY);
    }

    /** The brick part of `step`: remove the first brick the square hits and pay for it. */
    method HitBrick(square: Rect, hits: (Rect, Rect) -> bool) returns (reward: int, ghost hit: Option<nat>)
      requires Valid()
      modifies this`score, ball, grid, grid.matrix
      ensures Valid()
      ensures grid.RemovedFirst(square, hits, hit)
      ensures ball.Value() == if hit.Some? then FlipY(old(ball.Value())) else old(ball.Value())
      ensures reward == if hit.Some? then config.brickReward else 0
      ensures score == old(score) + reward
    {
      reward := 0;
      var first := grid.RemoveFirstHit(square, hits);
      hit := first;
      if first.Some? {
        score := score + config.brickReward;
        ball.speedY := -ball.speedY;
        reward := reward + config.brickReward;
      }
    }

    /** `observe`: the discretised positions, the direction code and the flattened matrix. */
    function Observe(): (o: Observation)
      reads this, ball, paddle, grid, grid.matrix
      requires Valid() && config.resolutionX != 0 && config.resolutionY != 0
      ensures 0 <= o.ballDir < NBallDir && (o.ballDir >= 5 <==> ball.speedY > 0.0)
      ensures |o.bricksMatrix| == grid.cols * grid.rows
      ensures forall i, j :: 0 <= i < grid.cols && 0 <= j < grid.rows ==>
                0 <= RowMajor(i, j, grid.rows) < |o.bricksMatrix|
                && o.bricksMatrix[RowMajor(i, j, grid.rows)] == grid.matrix[i, j]
    {
      Observation(
        Bin(ball.x, config.resolutionX),
        Bin(ball.y, config.resolutionY),
        BallDir(ball.speedX, ball.speedY),
        FloorDiv(paddle.x, config.resolutionX),
        Flatten(grid.matrix))
    }

    /** `is_finished`: the ball is below the bottom, or no brick is left. The horizon plays no part. */
    function IsFinished(): (r: bool)
      reads this, ball, grid, grid.matrix
      requires Valid()
      ensures r <==> ball.y > (WinHeight - config.ballRadius) as real || grid.bricks == map[]
    {
      ball.y > (WinHeight - ball.Radius()) as real || grid.IsEmpty()
    }

    /** The dense matrix alone tells whether the episode has ended by clearing the grid. */
    lemma FinishedIffFallenOrMatrixZero()
      requires Valid()
      ensures IsFinished() <==>
                ball.y > (WinHeight - config.ballRadius) as real
                || forall i, j :: 0 <= i < grid.cols && 0 <= j < grid.rows ==> grid.matrix[i, j] == 0
    {
      grid.EmptyIffMatrixZero();
    }

    /**
      A live brick is the brick the configuration places in its cell: it lies horizontally
      inside the window, and inside it vertically when the rows fit.
    */
    lemma LiveBrickInsideWindow(p: Position)
      requires Valid() && p in grid.bricks
      requires config.brickWidth >= 0 && config.brickXDistance >= 0 && config.brickHeight >= 0
      ensures InGrid(config, p) && grid.bricks[p] == ConfigBrick(config, p)
      ensures var b := grid.bricks[p];
              && config.brickXDistance <= b.X() && b.X() + config.brickWidth + config.brickXDistance <= WinWidth(config)
              && 70 <= b.Y() && b.Y() + config.brickHeight <= BrickBandBottom(config)
              && (BrickBandBottom(config) <= WinHeight ==> b.Y() + config.brickHeight <= WinHeight)
    {
      BricksInsideWindow(config, p);
    }

    /** Two live bricks of distinct cells never overlap. */
    lemma LiveBricksDisjoint(p: Position, q: Position)
      requires Valid() && p in grid.bricks && q in grid.bricks && p != q
      requires config.brickWidth >= 0 && config.brickXDistance >= 0 && config.brickHeight >= 0
      ensures var a, b := grid.bricks[p], grid.bricks[q];
              || a.X() + a.width <= b.X() || b.X() + b.width <= a.X()
              || a.Y() + a.height <= b.Y() || b.Y() + b.height <= a.Y()
    {
      BricksDisjoint(config, p, q);
    }

    /**
      While the ball and the paddle are inside the window, every component of the
      observation lies in its space, with the vertical count taken from the window height.
    */
    lemma ObservationInSpace()
      requires Valid() && config.resolutionX > 0 && config.resolutionY > 0
      requires 0.0 <= ball.x <= WinWidth(config) as real && 0.0 <= ball.y <= WinHeight as real
      requires 0 <= paddle.x <= WinWidth(config)
      ensures var o := Observe();
              && 0 <= o.ballX < NBallX(config)
              && 0 <= o.ballY < NBallYByHeight(config)
              && 0 <= o.paddleX < NPaddleX(config)
              && 0 <= o.ballDir < NBallDir
              && |o.bricksMatrix| == config.brickCols * config.brickRows
              && forall k :: 0 <= k < |o.bricksMatrix| ==> o.bricksMatrix[k] == 0 || o.bricksMatrix[k] == 1
    {
      FlattenBinary(grid.matrix);
      ColumnBinInSpace(config, ball.x);
      RowBinInSpace(config, ball.y);
      ColumnBinInSpace(config, paddle.x as real);
      assert Trunc(paddle.x as real) == paddle.x;
    }
  }
}
