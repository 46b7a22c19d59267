# gym-breakout-pygame in Dafny

This project models the game engine of gym-breakout-pygame in Dafny, together with its observation codec and its frame-skipping wrapper, and proves what each of them promises.

- **The engine** is `gym_breakout_pygame/breakout_env.py`.
  - `BreakoutConfiguration` with its derived window and bin sizes (`breakout_config.dfy`).
  - The pure ball and paddle rules of one tick (`breakout_physics.dfy`).
  - The mutable objects (`breakout_state.dfy`):
    - the `BrickGrid`: a dictionary from cell to brick that remembers insertion order, mirrored by a 0/1 matrix;
    - the `Ball` and the `Paddle`;
    - the `State`, whose `Step` is one tick: move, bounce off the walls, apply the paddle zones, then remove the first brick hit.
- **The codec** is `encode`/`decode` in `gym_breakout_pygame/utils.py` (`codec.dfy`). It is the mixed-radix flattening of a tuple of bounded integers into one integer.
- **The frame-skipper** is `gym_breakout_pygame/wrappers/skipper.py` (`skipper.dfy`). It repeats an action while the observation stays equal to the one seen before the call and the episode is not over.

Modelling choices:

- The engine's classes are Dafny classes. Their methods update fields in place, under `modifies` clauses.
- The insertion-ordered dictionary is a `map` plus a `seq` of its keys. The numpy matrix is an `array2<int>`.
- Positions and speeds of the ball are `real`. Every value they take is a multiple of 0.5 starting from integers, so `real` is exact.
- Python's `//` and `int()` are written out, as `FloorDiv` and `Trunc`.
- pygame's rectangle collision test is a parameter `hits` of every operation that needs it. Everything proved holds for every such test. The argument order of the source is kept:
  - the ball's square comes first against the paddle;
  - the brick comes first against the ball.
- The codec's `encode` and `decode` are methods with the source's loops. They are proved equal to the mathematical definitions `Value` (the sum of digit times place value) and `Digits`. Every `assert` or exception of the source is a `Failure` result.
- The environment wrapped by the skipper is a finite trace of the replies its successive `step` calls give.
  - `compare` is the choice the observation wrappers make: exact equality (`wrappers/normal_space.py:71-73`, `:124-126`) or never equal (`wrappers/dict_space.py:38-41`).
  - A missing previous observation equals nothing.

The engine has none of the following, and the model has none of them either:

- a FIRE command or a bullet;
- a random number generator perturbing the ball's speed;
- per-step and game-over rewards;
- float rewards;
- termination at the horizon.

In particular, `is_finished` computes the horizon condition `end3` and never uses it, and the model leaves it out of the result as well.

## Model

| member | source | states |
|---|---|---|
| Codec.Encode | gym_breakout_pygame/utils.py:29-45 | Fails on a length mismatch (the `assert`) and on empty lists (`obs[0]`). Otherwise it is the mixed-radix value, with `obs[0]` least significant. In one dimension it is `obs[0]`. |
| Codec.Decode | gym_breakout_pygame/utils.py:48-68 | Fails on empty sizes (`reduce` of an empty list) and on any zero size (a division by zero). Otherwise it returns exactly the mixed-radix digits of x. In one dimension it is `[x]`. |
| Codec.Digits | gym_breakout_pygame/utils.py:58-68 | The decoded list has one entry per size. |
| Codec.Value | gym_breakout_pygame/utils.py:38-45 | Definition of the mixed-radix value: `obs[i]` times the product of the sizes before i, summed. `Encode` is proved to compute it; `ValueInRange`, `DigitsOfValue`, `ValueOfDigits` and `EncodeInjective` state its properties. |
| Codec.ValueInRange | gym_breakout_pygame/utils.py:38-45 | An in-bounds observation encodes into `[0, product of the sizes)`, the range of the `Discrete` space built from that product. |
| Codec.DigitsOfValue | gym_breakout_pygame/utils.py:48-68 | Round trip: decoding the encoding of an in-bounds observation gives the observation back, as the docstring at line 52 expects. |
| Codec.ValueOfDigits | gym_breakout_pygame/utils.py:29-68 | The other round trip: encoding the digits of any integer gives the integer back. |
| Codec.DigitsInBounds | gym_breakout_pygame/utils.py:48-68 | Every integer in `[0, product)` decodes into an in-bounds observation. |
| Codec.EncodeInjective | gym_breakout_pygame/utils.py:38-45 | Distinct in-bounds observations have distinct codes. |
| Codec.ProdZero | gym_breakout_pygame/utils.py:60-65 | The product of the sizes is positive exactly when every size is. So a zero last size fails at the first division (line 60). Any other zero size makes `shift` zero, and decoding fails at the first quotient (line 62). |
| Codec.DigitsSplitLast | gym_breakout_pygame/utils.py:61-66 | One iteration of the decoding loop: the quotient by the top place value is the most significant digit, and the remainder has the remaining digits. |
| BreakoutConfig.NewConfiguration | gym_breakout_pygame/breakout_env.py:105-131 | Fails exactly when there are fewer than three columns. Rows and columns are kept. A missing horizon becomes `300 * (cols * rows)`. |
| BreakoutConfig.DefaultConfiguration | gym_breakout_pygame/breakout_env.py:427-430 | Definition: every constructor parameter at its default (3 rows, 3 columns, paddle 80 by 10 with speed 10, bricks 60 by 12 with gap 20, reward 5, radius 10, resolutions 20 and 10). `DefaultStartRowOutsideSpace` and `TwentyOneRowsLeaveWindow` are stated on it. |
| BreakoutConfig.FloorDiv | gym_breakout_pygame/breakout_env.py:145-155 | Python's `//`: the floor of the quotient, for either sign of the divisor. |
| BreakoutConfig.Trunc | gym_breakout_pygame/breakout_env.py:332-333 | Python's `int()` on a float: truncation toward zero, for either sign. |
| BreakoutConfig.WinWidth | gym_breakout_pygame/breakout_env.py:137-139 | Definition of `win_width`: `(brick_width + brick_xdistance) * brick_cols + brick_xdistance`. `BricksInsideWindow` proves the bricks fit it. |
| BreakoutConfig.NBallX | gym_breakout_pygame/breakout_env.py:145-147 | Definition of `n_ball_x`: `win_width // resolution_x + 1`. `ColumnBinInSpace` proves every in-window horizontal bin is below it. |
| BreakoutConfig.NPaddleX | gym_breakout_pygame/breakout_env.py:149-151 | Definition of `n_paddle_x`, the same expression as `n_ball_x`. `ColumnBinInSpace` proves the two are equal. |
| BreakoutConfig.NBallY | gym_breakout_pygame/breakout_env.py:153-155 | Definition of `n_ball_y` as written: `win_width // resolution_y + 1`. It is the as-written side of the first finding, shown by `DefaultStartRowOutsideSpace`. |
| BreakoutConfig.NBallYByHeight | gym_breakout_pygame/breakout_env.py:141-155 | The corrected count `win_height // resolution_y + 1`, the corrected side of the first finding. `RowBinInSpace` proves every in-window height bins below it. |
| BreakoutConfig.Bin | gym_breakout_pygame/breakout_env.py:332-333 | Definition of the observation binning `int(v) // resolution`, also used for `paddle_x` at line 347. `ColumnBinInSpace` and `RowBinInSpace` bound it. |
| BreakoutConfig.ColumnBinInSpace | gym_breakout_pygame/breakout_env.py:145-151 | For a coordinate inside the window, the horizontal bin lies in `[0, n_ball_x)`. Also `n_ball_x == n_paddle_x`. |
| BreakoutConfig.RowBinInSpace | gym_breakout_pygame/breakout_env.py:141-155 | Corrected half of the finding: for a height inside the window, the vertical bin lies in `[0, win_height // resolution_y + 1)`. |
| BreakoutConfig.DefaultStartRowOutsideSpace | gym_breakout_pygame/breakout_env.py:153-155 | As-written half of the finding. With the default configuration `n_ball_y` is 27, but the ball's starting height falls in bin 37. |
| BreakoutConfig.BricksInsideWindow | gym_breakout_pygame/breakout_env.py:137-143 | Every brick, placed by the formulas at lines 193-194, lies horizontally inside the window with a gap of margin. The last column ends exactly one gap before the border. Vertically it lies between height 70 and the bottom of the last row, `70 + (brick_height + 8) * brick_rows - 8`. It is inside the 480-high window when that bottom is. |
| BreakoutConfig.TwentyOneRowsLeaveWindow | gym_breakout_pygame/breakout_env.py:141-143 | The vertical bound needs its condition. With default heights and 21 rows, brick (0, 20) ends at height 482, below the window. |
| BreakoutConfig.BricksDisjoint | gym_breakout_pygame/breakout_env.py:193-194 | Bricks of distinct cells never overlap. |
| BreakoutConfig.BrickAt | gym_breakout_pygame/breakout_env.py:186-195 | Definition of the brick `Brick(i, j, width, height, xdistance)` for a cell. Its position is computed at lines 193-194. `BricksInsideWindow` and `BricksDisjoint` are stated on it. |
| BreakoutConfig.BrickBandBottom | gym_breakout_pygame/breakout_env.py:194 | Definition of the bottom edge of the last brick row, from `y = 70 + (height + 8) * j`. `BricksInsideWindow` bounds every brick by it. |
| BreakoutPhysics.Moved | gym_breakout_pygame/breakout_env.py:256-258 | Definition of `Ball.update`: each coordinate advances by its speed. `Ball.Update` is proved to compute it. |
| BreakoutPhysics.BallRect | gym_breakout_pygame/breakout_env.py:370-373 | Definition of `ball_rect`, the square of side `2 * radius` centred on the ball. `State.Step` takes it after the move. |
| BreakoutPhysics.PaddleRect | gym_breakout_pygame/breakout_env.py:374 | Definition of `paddle_rect` at the paddle's position and size. `State.Step` tests it against the ball's square. |
| BreakoutPhysics.BrickRect | gym_breakout_pygame/breakout_env.py:195 | Definition of `brick.rect` at the brick's computed position and size. `FirstColliding` tests it against the ball's square. |
| BreakoutPhysics.Walls | gym_breakout_pygame/breakout_env.py:376-385 | After the border rules `y >= radius` and `x <= win_width - radius`. When the window is at least a ball wide, `x >= radius` too. Speed magnitudes are kept. The vertical speed flips exactly when the ball was above the top. A ball already between the walls is untouched. |
| BreakoutPhysics.CenterSpeedX | gym_breakout_pygame/breakout_env.py:389-399 | The centre zone never speeds the ball up and never turns it around. A speed of at least 0.5 strictly drops, by at most 2. A slower speed is kept. |
| BreakoutPhysics.PaddleSpeedX | gym_breakout_pygame/breakout_env.py:389-406 | A right-edge hit leaves `speed_x >= 1`; it overrides a left-edge hit. A left-edge-only hit leaves `speed_x <= -1`. With no edge hit, only the centre rule applies. The magnitude changes by at most 2 up. |
| BreakoutPhysics.PaddleBounce | gym_breakout_pygame/breakout_env.py:388-408 | A paddle hit leaves the position alone and sends the ball upward with the same vertical speed magnitude (`-abs(speed_y)`). |
| BreakoutPhysics.Tick | gym_breakout_pygame/breakout_env.py:365-414 | The ball over one tick: move, border rules, paddle rules on a paddle hit, reversal on a brick hit. Afterwards it is below the top wall and left of the right wall; when the window is at least a ball wide, it is right of the left wall too. The vertical speed keeps its magnitude. After a paddle hit alone it points up. |
| BreakoutPhysics.FlipY | gym_breakout_pygame/breakout_env.py:414 | Definition of the brick reversal `speed_y = -speed_y`. `State.HitBrick` is proved to apply it on a hit. |
| BreakoutPhysics.Delta | gym_breakout_pygame/breakout_env.py:287-292 | Definition of the shift a command gives before clamping: minus the speed, plus the speed, or 0. `Paddle.Update` is proved to apply it and then `ClampPaddle`. |
| BreakoutPhysics.BallDir | gym_breakout_pygame/breakout_env.py:335-345 | The direction code lies in 0..9. It is at least 5 exactly when the ball falls. Its value mod 5 names exactly one horizontal class (still, quick-left, left, quick-right, right). |
| BreakoutPhysics.FallingStraightIsFive | gym_breakout_pygame/breakout_env.py:159-163 | A ball falling straight down has code 5, and a ball that does not fall has a code of at most 4. The docstring's split (up 0-5, down 6-9) is therefore not what the code computes. |
| BreakoutPhysics.ClampPaddle | gym_breakout_pygame/breakout_env.py:296-299 | The clamp keeps the paddle in `[0, win_width - width]` when it fits. It leaves a position already inside alone. It returns the position, 0 or the right limit. |
| BreakoutState.Without | gym_breakout_pygame/breakout_env.py:230 | The key order after `pop(p)` holds exactly the other keys. It is unchanged when p was missing. |
| BreakoutState.WithoutSorted | gym_breakout_pygame/breakout_env.py:229-230 | Removing a key keeps the insertion order sorted. It shortens the order by exactly one when the key was there. |
| BreakoutState.KeyCount | gym_breakout_pygame/breakout_env.py:218-223 | A sorted key order has as many entries as the dictionary has keys. |
| BreakoutState.FirstColliding | gym_breakout_pygame/breakout_env.py:410-416 | The index found is the first brick, in insertion order, that the ball's square hits. None means no brick is hit. |
| BreakoutState.Flatten | gym_breakout_pygame/breakout_env.py:348 | Row-major `flatten()`: the result has `cols * rows` entries, and cell (i, j) sits at `i * rows + j`. |
| BreakoutState.FlattenBinary | gym_breakout_pygame/breakout_env.py:348 | A matrix of zeros and ones flattens into zeros and ones. |
| BreakoutState.BrickGrid.constructor | gym_breakout_pygame/breakout_env.py:203-216 | A new grid is consistent (`Valid`). It holds exactly `cols * rows` bricks and every cell of its matrix is 1. |
| BreakoutState.BrickGrid.Valid | gym_breakout_pygame/breakout_env.py:214-231 | The grid invariant: the key order is sorted and holds exactly the keys, and every key is an in-grid cell holding the brick `BrickAt` gives. A matrix cell is 1 exactly when its key is live, and 0 otherwise. The constructor establishes it; `RemoveBrickAt`, `RemoveFirstHit` and `State.Step` preserve it. |
| BreakoutState.BrickGrid.InitBricks | gym_breakout_pygame/breakout_env.py:218-223 | The nested loops add every cell's brick in column-major order and set every matrix cell to 1. |
| BreakoutState.BrickGrid.AddBrick | gym_breakout_pygame/breakout_env.py:221-223 | One iteration appends the next cell to the key order and fills its cell. |
| BreakoutState.BrickGrid.RemoveBrickAt | gym_breakout_pygame/breakout_env.py:229-231 | Deletes the key and zeroes exactly that cell. The rest of the matrix and the order of the other keys are unchanged, and "key present iff cell is 1" still holds. A missing key, where the source raises `KeyError`, returns `found == false` and changes nothing. |
| BreakoutState.BrickGrid.IsEmpty | gym_breakout_pygame/breakout_env.py:233-234 | Empty exactly when no brick remains. |
| BreakoutState.BrickGrid.EmptyIffMatrixZero | gym_breakout_pygame/breakout_env.py:229-234 | The grid is empty exactly when the whole matrix is zero. |
| BreakoutState.BrickGrid.FirstHit | gym_breakout_pygame/breakout_env.py:410-411 | The brick scan returns `FirstColliding` of the live bricks. |
| BreakoutState.BrickGrid.RemoveFirstHit | gym_breakout_pygame/breakout_env.py:410-416 | It establishes `RemovedFirst`. The index is the first brick, in the old insertion order, that the square hits. That brick's key and cell, and nothing else, are removed, so the order shrinks by exactly one. With no hit, nothing changes. |
| BreakoutState.BrickGrid.RemovedFirst | gym_breakout_pygame/breakout_env.py:410-416 | Definition of the brick loop's effect on the grid: the index is `FirstColliding` on the old order. With no hit, keys, order and matrix are unchanged. With a hit, exactly that key is removed from the dictionary and the order, and only its cell becomes 0. |
| BreakoutState.Ball.constructor | gym_breakout_pygame/breakout_env.py:239-247 | The ball starts at `(win_width // 2, win_height - 100 - radius)` with speeds (2, 5). |
| BreakoutState.Ball.Update | gym_breakout_pygame/breakout_env.py:256-258 | One Euler step: the position moves by the speed. |
| BreakoutState.Paddle.constructor | gym_breakout_pygame/breakout_env.py:263-269 | The paddle starts at `(win_width // 2, win_height - 20)`. |
| BreakoutState.Paddle.Update | gym_breakout_pygame/breakout_env.py:286-299 | LEFT and RIGHT shift by the paddle speed and NOP does not, then comes the clamp. The paddle stays in `[0, win_width - width]` when it fits. |
| BreakoutState.State.constructor | gym_breakout_pygame/breakout_env.py:304-317 | A fresh consistent state: the ball at its start position and speed, the paddle at `(win_width // 2, win_height - 20)`, a full grid of `cols * rows` bricks, score 0, step 0, last command NOP. |
| BreakoutState.State.Update | gym_breakout_pygame/breakout_env.py:322-325 | Moves the paddle by the command, moves the ball, and records the command. |
| BreakoutState.State.Step | gym_breakout_pygame/breakout_env.py:358-418 | One tick, step by step:<br>• The step count grows by exactly 1.<br>• The paddle is moved and clamped.<br>• The ball ends as `Tick` gives it, with the ball's square taken after the move and before the clamp.<br>• The grid satisfies `RemovedFirst` for that square: at most one brick, the first one hit in insertion order, is removed.<br>• The reward is 0 or `brick_reward`, and the score grows by exactly the reward.<br>• Consistency is kept. |
| BreakoutState.State.BounceOffWalls | gym_breakout_pygame/breakout_env.py:376-385 | The border statements compute `Walls`. |
| BreakoutState.State.BounceOffPaddle | gym_breakout_pygame/breakout_env.py:388-408 | The paddle statements compute `PaddleBounce`. |
| BreakoutState.State.HitBrick | gym_breakout_pygame/breakout_env.py:410-418 | The grid satisfies `RemovedFirst`. A hit flips the vertical speed and pays `brick_reward` into both score and reward. Without a hit, nothing changes. |
| BreakoutState.State.Observe | gym_breakout_pygame/breakout_env.py:330-356 | The direction code lies in 0..9 and is at least 5 exactly when the ball falls. The brick matrix entry at `i * rows + j` is cell (i, j). |
| BreakoutState.State.IsFinished | gym_breakout_pygame/breakout_env.py:420-424 | The episode ends exactly when the ball is below `win_height - radius` or no brick is left. |
| BreakoutState.State.FinishedIffFallenOrMatrixZero | gym_breakout_pygame/breakout_env.py:420-424 | The same condition, read off the brick matrix. |
| BreakoutState.State.ObservationInSpace | gym_breakout_pygame/breakout_env.py:330-348 | With the ball and paddle inside the window, every component except `ball_y` lies in its space as declared at lines 442-448. `ball_x` and `paddle_x` are in `[0, n_ball_x)`, the direction code is in 0..9, and the brick matrix has `cols * rows` entries, each 0 or 1, as `MultiDiscrete([2] * cols * rows)` requires. `ball_y` lies in `[0, win_height // resolution_y + 1)`, not in the declared `Discrete(n_ball_y)` (see Findings). |
| BreakoutState.State.LiveBrickInsideWindow | gym_breakout_pygame/breakout_env.py:218-223 | A live brick of the grid is the configuration's brick for its cell. So `BricksInsideWindow` holds for it. |
| BreakoutState.State.LiveBricksDisjoint | gym_breakout_pygame/breakout_env.py:218-223 | Two live bricks of distinct cells never overlap. |
| Skipper.Same | gym_breakout_pygame/wrappers/normal_space.py:71-73 | Definition of `compare`: equal to the previous observation under the multi-discrete and the encoded wrappers (`normal_space.py:124-126`), never equal under the dictionary wrapper (`dict_space.py:38-41`). A missing previous observation is equal to nothing. `RepeatUntilChanged` states the one-call behaviour of the never-equal case. |
| Skipper.Continues | gym_breakout_pygame/wrappers/skipper.py:55 | Definition of the loop condition: the observation compares equal and the episode is not finished. `StopIndex` and `RepeatUntilChanged` are stated with it. |
| Skipper.StopIndex | gym_breakout_pygame/wrappers/skipper.py:55 | The first reply on which the loop condition fails. Every earlier reply satisfies it. |
| Skipper.TotalReward | gym_breakout_pygame/wrappers/skipper.py:54-58 | Definition of the summed reward of a stretch of replies. `TotalRewardAppend` and `TotalRewardOfSplit` prove it additive. `RepeatUntilChanged` is proved to return it. |
| Skipper.AnyDone | gym_breakout_pygame/wrappers/skipper.py:54-59 | Definition of the OR of the done flags of a stretch of replies. `AnyDoneIffSome` characterises it. `RepeatUntilChanged` is proved to return it. |
| Skipper.TotalRewardAppend | gym_breakout_pygame/wrappers/skipper.py:54-58 | Rewards add up over consecutive stretches of calls. |
| Skipper.TotalRewardOfSplit | gym_breakout_pygame/wrappers/skipper.py:52-63 | The reward of the first n + m replies is the reward of the first n plus the reward of the next m. So two consecutive `step` calls, which consume the first n replies and then the next m, earn together what the replies they consumed earn. |
| Skipper.AnyDoneIffSome | gym_breakout_pygame/wrappers/skipper.py:59 | The accumulated done flag is true exactly when some call reported done. |
| Skipper.RepeatUntilChanged | gym_breakout_pygame/wrappers/skipper.py:52-60 | The loop stops on the first reply that differs from the previous observation or is done. It makes `StopIndex + 1` calls and returns that reply's observation. The reward is the sum of all their rewards, and done is the OR of their flags. On return the observation differs or the episode is over. With the never-equal compare, exactly one call is made. |
| Skipper.BreakoutSkipper.constructor | gym_breakout_pygame/wrappers/skipper.py:35-38 | No previous observation yet. |
| Skipper.BreakoutSkipper.Reset | gym_breakout_pygame/wrappers/skipper.py:46-50 | The observation from reset becomes the previous observation. |
| Skipper.BreakoutSkipper.Step | gym_breakout_pygame/wrappers/skipper.py:52-63 | The response is that of `RepeatUntilChanged` on the wrapped replies. Every wrapped call received the same action. Exactly the replies used are consumed. The returned observation becomes the previous observation. |

## Left out

- Rendering is not modelled. This covers `PygameViewer`, every `draw_on_screen`, `render`/`close` and the colours; it is pygame I/O.
- `pygame.Rect.colliderect` and pygame's rounding of float rectangle coordinates to integers are not modelled. Both are foreign library code, so collision is the parameter `hits`.
- gym plumbing is not modelled: the observation and action spaces, `Breakout.__init__`/`step`/`reset`, `Command.__str__`, and `info` dictionaries. `Breakout.step` (breakout_env.py:452-458) only composes `State.Step`, `State.Observe` and `State.IsFinished`. `info.update` in the skipper is left out with the dictionaries.
- The observation wrappers are not modelled beyond their `compare` choice: `normal.py`, `wrappers/normal_space.py`, `wrappers/observation_space.py` and `wrappers/dict_space.py`.
- BreakoutState.State.Update: `last_command` holds the display string `str(command)` in the source; the model stores the command itself.
- The error raised by `Paddle.update` for an unrecognised command cannot happen in the model. Its command type has only NOP, LEFT and RIGHT.
- BreakoutState.State.constructor: requires `brick_rows >= 0`, because numpy rejects a negative shape and the model does not represent that error.
- BreakoutState.State.Observe: requires non-zero resolutions. A zero resolution makes Python raise `ZeroDivisionError`, and the model does not represent that error.
- The numpy matrix holds floats 0.0/1.0; the model holds the integers 0/1.
- `State.reset`, which builds a new `State`, is not modelled separately; the constructor covers it.
- `State.remove_brick_at_position`, which only delegates, is modelled by `BrickGrid.RemoveBrickAt`.
- The brick loop `for ... break` is modelled as a scan (`FirstHit`) followed by the removal. Nothing is removed during the scan, so the two orders agree.
- `accy` is never used. `horizon` is kept in the configuration but plays no part in termination, because `end3` is unused.
- Skipper.BreakoutSkipper.Reset: `wrappers/skipper.py:48` passes `seed=seed` to the wrapped reset, but `Breakout.reset` (`breakout_env.py:460`) takes no argument besides `self`, so against the engine as shown the call raises `TypeError`. The model assumes a wrapped reset that accepts the seed and returns an initial observation `initial`.
- Skipper.RepeatUntilChanged: the source loop need not terminate, since it runs for as long as the wrapped environment keeps answering unchanged and undone. The model bounds it by the finite trace and returns `None` when the trace runs out.
- Codec: sizes are natural numbers, as gym `Discrete` sizes are. Negative sizes are not modelled.
- IEEE float rounding is not modelled. Speeds and positions are exact reals.

## Findings

| source | as written | input that shows it | evidently intended | confidence | as-written member | corrected member |
|---|---|---|---|---|---|---|
| gym_breakout_pygame/breakout_env.py:153-155 | `n_ball_y` is `win_width // resolution_y + 1`, counting vertical bins from the window's width | The default configuration: `win_width` is 260, so `n_ball_y` is 27, while the ball starts at height 370, whose bin `370 // 10` is 37 | `win_height // resolution_y + 1`, so that every height inside the window has a bin | not executed | BreakoutConfig.DefaultStartRowOutsideSpace | BreakoutConfig.RowBinInSpace |
| gym_breakout_pygame/breakout_env.py:159-163 | The `n_ball_dir` docstring says codes 0-5 mean the ball goes up and 6-9 that it goes down | A ball falling straight down (`speed_x` 0, `speed_y` 5) gets code 5 at lines 336-337, a code the docstring counts as up | Up is 0-4 and down is 5-9, which is what `observe` computes; the docstring is the part in error | not executed | BreakoutPhysics.FallingStraightIsFive | BreakoutPhysics.BallDir |
