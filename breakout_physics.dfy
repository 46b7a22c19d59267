/**
  The per-tick rules of gym_breakout_pygame/breakout_env.py stated on values: the ball's
  Euler step, the wall bounces, the paddle's zone rules, the direction code of the
  observation and the paddle's clamped move. The classes of BreakoutState perform these
  updates in place and are proved to agree with them.
*/
module BreakoutPhysics {
  import opened BreakoutConfig

  /** Position and velocity of the ball. Every value is a multiple of 0.5, so `real` is exact. */
  datatype Kinematics = Kinematics(x: real, y: real, speedX: real, speedY: real)

  /** An axis-aligned rectangle as given to pygame: left, top, width, height. */
  datatype Rect = Rect(left: real, top: real, width: real, height: real)

  function Abs(r: real): real
  {
    if r < 0.0 then -r else r
  }

  /** `Ball.update`: one Euler step of unit length. */
  function Moved(k: Kinematics): Kinematics
  {
    k.(x := k.x + k.speedX, y := k.y + k.speedY)
  }

  /** The ball's bounding square, `ball_rect`. */
  function BallRect(k: Kinematics, radius: int): Rect
  {
    Rect(k.x - radius as real, k.y - radius as real, (radius * 2) as real, (radius * 2) as real)
  }

  /** The paddle's rectangle, `paddle_rect`. */
  function PaddleRect(x: int, y: int, c: Config): Rect
  {
    Rect(x as real, y as real, c.paddleWidth as real, c.paddleHeight as real)
  }

  /** The rectangle of a brick, `brick.rect`. */
  function BrickRect(b: Brick): Rect
  {
    Rect(b.X() as real, b.Y() as real, b.width as real, b.height as real)
  }

  /** The ball lies between the walls that bounce it. */
  predicate BetweenWalls(k: Kinematics, radius: int, winWidth: int)
  {
    k.y >= radius as real && radius as real <= k.x <= (winWidth - radius) as real
  }

  /**
    The screen-border rules: the top wall, then the left wall, then the right wall, each
    clamping the position and reversing the matching speed component.
  */
  function Walls(k: Kinematics, radius: int, winWidth: int): (w: Kinematics)
    ensures w.y >= radius as real
    ensures w.x <= (winWidth - radius) as real
    ensures winWidth >= 2 * radius ==> BetweenWalls(w, radius, winWidth)
    ensures Abs(w.speedX) == Abs(k.speedX) && Abs(w.speedY) == Abs(k.speedY)
    ensures w.speedY == if k.y < radius as real then -k.speedY else k.speedY
    ensures BetweenWalls(k, radius, winWidth) ==> w == k
  {
    var r := radius as real;
    var top := if k.y < r then k.(y := r, speedY := -k.speedY) else k;
    var left := if top.x < r then top.(x := r, speedX := -top.speedX) else top;
    if left.x > (winWidth - radius) as real
    then left.(x := (winWidth - radius) as real, speedX := -left.speedX)
    else left
  }

  /**
    The centre zone of the paddle: a fast ball loses 2 of horizontal speed, a slower one
    0.5, and one below 0.5 keeps its speed. The ball never speeds up and never changes side.
  */
  function CenterSpeedX(sx: real): (r: real)
    ensures Abs(r) <= Abs(sx)
    ensures Abs(sx) >= 0.5 ==> Abs(r) < Abs(sx) && Abs(r) >= Abs(sx) - 2.0
    ensures Abs(sx) < 0.5 ==> r == sx
    ensures (sx < 0.0 ==> r <= 0.0) && (sx > 0.0 ==> r >= 0.0)
  {
    if sx < -5.0 then sx + 2.0
    else if sx > 5.0 then sx - 2.0
    else if sx <= -0.5 then sx + 0.5
    else if sx >= 0.5 then sx - 0.5
    else sx
  }

  /** The ball is within 20 of the paddle's centre (`paddle.width // 2`). */
  predicate NearCenter(bx: real, px: int, pw: int)
  {
    Abs(bx - (px + pw / 2) as real) < 20.0
  }

  /** The ball is within 10 of the paddle's left end. */
  predicate NearLeftEdge(bx: real, px: int)
  {
    Abs(bx - px as real) < 10.0
  }

  /** The ball is within 10 of the paddle's right end. */
  predicate NearRightEdge(bx: real, px: int, pw: int)
  {
    Abs(bx - (px + pw) as real) < 10.0
  }

  /**
    The three paddle zones applied in order to the horizontal speed, each later rule
    overriding the earlier ones: the centre rule, then the left edge (sends the ball left,
    one faster), then the right edge (sends it right, one faster).
  */
  function PaddleSpeedX(bx: real, px: int, pw: int, sx: real): (r: real)
    ensures NearRightEdge(bx, px, pw) ==> r >= 1.0
    ensures NearLeftEdge(bx, px) && !NearRightEdge(bx, px, pw) ==> r <= -1.0
    ensures !NearLeftEdge(bx, px) && !NearRightEdge(bx, px, pw) ==>
              r == if NearCenter(bx, px, pw) then CenterSpeedX(sx) else sx
    ensures NearLeftEdge(bx, px) || NearRightEdge(bx, px, pw) ==> Abs(r) >= Abs(sx) - 1.0
    ensures Abs(r) <= Abs(sx) + 2.0
  {
    var centred := if NearCenter(bx, px, pw) then CenterSpeedX(sx) else sx;
    var leftward := if NearLeftEdge(bx, px) then -Abs(centred) - 1.0 else centred;
    if NearRightEdge(bx, px, pw) then Abs(leftward) + 1.0 else leftward
  }

  /** What a paddle hit does to the ball: the zone rules, and the ball is sent upward. */
  function PaddleBounce(k: Kinematics, px: int, pw: int): (b: Kinematics)
    ensures b.x == k.x && b.y == k.y
    ensures b.speedY <= 0.0 && Abs(b.speedY) == Abs(k.speedY)
  {
    k.(speedX := PaddleSpeedX(k.x, px, pw, k.speedX), speedY := -Abs(k.speedY))
  }

  /** What a brick hit does to the ball: the vertical speed is reversed. */
  function FlipY(k: Kinematics): Kinematics
  {
    k.(speedY := -k.speedY)
  }

  /**
    The direction code of the observation: 5 is added when the ball falls; the horizontal
    class is 1 for quick-left, 2 for left, 3 for quick-right, 4 for right and 0 when still.
  */
  function BallDir(sx: real, sy: real): (d: int)
    ensures 0 <= d < NBallDir
    ensures d >= 5 <==> sy > 0.0
    ensures d % 5 == 0 <==> sx == 0.0
    ensures d % 5 == 1 <==> sx < -2.5
    ensures d % 5 == 2 <==> -2.5 <= sx < 0.0
    ensures d % 5 == 3 <==> sx > 2.5
    ensures d % 5 == 4 <==> 0.0 < sx <= 2.5
  {
    (if sy > 0.0 then 5 else 0)
    + (if sx < -2.5 then 1
       else if sx < 0.0 then 2
       else if sx > 2.5 then 3
       else if sx > 0.0 then 4
       else 0)
  }

  /**
    The codes of a rising (or level) ball are 0 to 4 and those of a falling ball 5 to 9: a
    ball falling straight down has code 5.
  */
  lemma FallingStraightIsFive()
    ensures BallDir(0.0, InitBallSpeedY as real) == 5
    ensures forall sx, sy :: sy <= 0.0 ==> BallDir(sx, sy) <= 4
  {
  }

  /**
    The ball over one tick: the Euler move, the border rules, the paddle rules when the
    ball's square touched the paddle, and the reversal when it touched a brick. The ball
    ends below the top wall and left of the right wall (and right of the left one when the
    window is at least a ball wide), and the vertical speed keeps its magnitude.
  */
  function Tick(k: Kinematics, c: Config, px: int, paddleHit: bool, brickHit: bool): (t: Kinematics)
    ensures t.y >= c.ballRadius as real && t.x <= (WinWidth(c) - c.ballRadius) as real
    ensures WinWidth(c) >= 2 * c.ballRadius ==> c.ballRadius as real <= t.x
    ensures Abs(t.speedY) == Abs(k.speedY)
    ensures paddleHit && !brickHit ==> t.speedY <= 0.0
    ensures paddleHit && brickHit ==> t.speedY >= 0.0
  {
    var walled := Walls(Moved(k), c.ballRadius, WinWidth(c));
    var bounced := if paddleHit then PaddleBounce(walled, px, c.paddleWidth) else walled;
    if brickHit then FlipY(bounced) else bounced
  }

  /** How far a command moves the paddle before clamping. */
  function Delta(cmd: Command, speed: int): int
  {
    match cmd
    case LEFT => -speed
    case RIGHT => speed
    case NOP => 0
  }

  /**
    The paddle clamp: first at 0, then at `win_width - width`. The range is kept whenever
    the paddle fits the window, and a position already inside it is left alone.
  */
  function ClampPaddle(v: int, winWidth: int, width: int): (r: int)
    ensures width <= winWidth ==> 0 <= r <= winWidth - width
    ensures 0 <= v <= winWidth - width ==> r == v
    ensures v < 0 && width <= winWidth ==> r == 0
    ensures v > winWidth - width ==> r == winWidth - width
    ensures r == v || r == 0 || r == winWidth - width
  {
    var low := if v < 0 then 0 else v;
    if low > winWidth - width then winWidth - width else low
  }
}
