# Snake game engine (tanchishe) in Dafny

This project models the game-state engine of the browser snake game in
`script.js`. A snake moves one cell per timer tick on a 20 × 20 grid. It grows
by 1 and scores 10 when it eats food. Each food also shortens the tick interval
by 5 ms, down to a floor of 50 ms. The game ends when the head leaves the grid
or lands on any cell of the body as it was before the move, tail included.
Arrow keys and on-screen buttons buffer a pending direction. A request that is
the reverse of the current direction is ignored. The space key restarts the
game only once it is over. The restart button always restarts.

Files, one module each:

- `config.dfy` (`Config`): the `config` constants and the literal speed floor 50.
- `grid.dfy` (`Grid`): cells, directions, the one-step `Shift`, and the shape
  predicates of a body (in bounds, no repeated cells, connected). It also holds
  `Occupies`, the linear scan that `update` and `generateFood` both run over the
  snake.
- `food.dfy` (`Food`): `generateFood`'s rejection sampling. `Math.random()`
  becomes a parameter: the sequence of attempts (`Draw`, one pair of values in
  [0, 1) per attempt). The accepted cell is the first attempt that lands off the
  snake.
- `engine.dfy` (`Engine`): the game variables as a value (`State`). Each
  handler is a function: `Update` (one tick), `Request` (the direction rule),
  `KeyDown`, `Click` and `TimerFired` (the `!isGameOver` guard). `Step` and
  `Run` fold events over a state. This module also holds the invariant `Inv` and
  the lemmas about all of these.
- `game.dfy` (`Game`): the class `SnakeGame`. Its fields are the module-level
  variables of `script.js`. Its methods update those fields in place: `Tick`
  with the body scan, `GenerateFood` with its retry loop and inner scan, and
  the rest. The constructor, `InitGame`, `Tick`, `OnTimer`, `RequestDirection`,
  `HandleKeyDown` and `HandleClick` are each proved to leave `Snapshot()` equal
  to the matching `Engine` function of the old snapshot, and to leave `Valid()`
  true (`Valid()` is `Inv(Snapshot())`). `GenerateFood` and `EndGame` are helpers
  that each change a single field. `GenerateFood` sets `food` to
  `Food.FirstFree(draws, snake)`. `EndGame` sets `isGameOver`.

The invariant `Inv` holds of every reachable state (`InitialStateInv`,
`UpdateInv`, `RequestInv`, `StepInv`, `RunInv`). It says:

- the body has at least one cell, all in the grid, none repeated, each next to
  the one before;
- the food is in the grid and off the body;
- the pending direction is not the reverse of the current one;
- while the game runs, the head is one step from the neck in the current
  direction;
- the length is `3 + score / 10`, and the interval is `max(50, 150 - 5 · score / 10)`.

Two facts about `script.js` that the model keeps:

- A tick that ends the game still commits the pending direction. `update`
  assigns `direction` at script.js:98, before the wall and body checks at
  script.js:121-133. So a colliding tick leaves snake, food, score and speed
  unchanged, but not `direction`.
- The initial body (10,10), (9,10), (8,10) built at script.js:34-38 is
  connected. So every cell is adjacent to the one before it in every reachable
  state, including right after a reset.

## Model

| member | source | states |
|---|---|---|
| Grid.Opposite | script.js:217-237 | the direction each arrow refuses to reverse into; it is never the direction itself |
| Grid.Shift | script.js:104-117 | the moved head is adjacent to the old head; the four cases of the body are the `switch` (up decreases y, down increases y, left decreases x, right increases x) |
| Grid.ShiftBack | script.js:217-237 | moving twice returns to the start exactly when the second move is the reverse of the first, which is why reversal is refused |
| Grid.Occupies | script.js:128-133 | the body scan reports a hit exactly when the cell is one of the snake's cells |
| Food.Scale | script.js:65-66 | `Math.floor(r * gridSize)` for `r` in [0, 1) lies in [0, 20) and is the floor of the product |
| Food.CellOf | script.js:64-67 | an attempt proposes an in-grid cell built from its two scaled values |
| Food.FirstFreeIndex | script.js:62-76 | the accepted attempt is the first one whose cell is off the snake: it is off the snake and every earlier one is on it |
| Food.FirstFree | script.js:59-77 | the generated food is inside the grid and not on any snake cell |
| Food.FirstFreeUnique | script.js:62-76 | any attempt that is off the snake, with every earlier attempt on it, is the accepted one |
| Game.SnakeGame.GenerateFood | script.js:59-77 | the retry loop with its inner scan sets `food` to the first free attempt (in the grid, off the snake) and changes nothing else |
| Engine.InitialSnake | script.js:34-38 | the starting body has `INITIAL_LENGTH` (3) cells; `InitialStateInv` states which ones |
| Engine.NextHead | script.js:101-117 | the candidate head is the current head moved one step in the pending direction, so it is adjacent to the current head |
| Engine.Collides | script.js:121-133 | a collision is a head outside the grid or on any pre-move body cell; in a running game the head can never hit the current head or the neck, so only the wall and the cells from the third one on can end it |
| Engine.HeadMissesHeadAndNeck | script.js:128-133 | in a running valid game the new head is on the body exactly when it is on a cell from the third one on |
| Engine.Eats | script.js:139 | a tick eats when it does not collide and the head is on the food; under the invariant, that is an in-grid head on the food |
| Engine.InitialState | script.js:32-52 | the reset state puts the food off the starting snake |
| Engine.InitialStateInv | script.js:32-52 | `initGame` gives snake [(10,10),(9,10),(8,10)], both directions right, score 0, speed 150, not over, and a state satisfying the invariant |
| Game.SnakeGame.InitGame | script.js:32-52 | resetting from any state leaves exactly the initial state and a valid object |
| Game.SnakeGame.constructor | script.js:9-284 | the variables start as declared and `init` runs `initGame`, giving the initial state |
| Engine.Update | script.js:96-154 | a tick commits the pending direction, ends the game exactly on a wall or body collision, and never lowers the score |
| Engine.WallHit | script.js:121-125 | a head outside [0, 20) on either axis sets the over flag and leaves snake, food, score and speed unchanged |
| Engine.SelfHit | script.js:128-133 | a head equal to any pre-move body cell sets the over flag and leaves snake, food, score and speed unchanged |
| Engine.TailIsObstacle | script.js:128-136 | moving onto the current tail is a collision, because the check runs before `unshift`/`pop` |
| Engine.Move | script.js:136-152 | a plain move gives `[newHead] + old[..len-1]` with `newHead` the old head shifted in the committed direction; length, food, score and speed unchanged; for a body without repeated cells (every reachable one) the old tail is gone |
| Engine.Eat | script.js:136-149 | eating gives `[newHead] + old` (length + 1), score + 10, speed `max(50, speed - 5)` (never above the old speed nor below 50), and new food in the grid, off the grown snake, and different from the old food |
| Engine.UpdateMonotone | script.js:145 | a tick never clears the over flag, and from an interval of at least 50 (every reachable one) it never lengthens the interval nor drops it below 50 |
| Engine.UpdateInv | script.js:96-154 | every tick keeps the invariant: cells in bounds, distinct and connected, length at least 1, food off the snake, the counting of length, score and speed |
| Engine.UpdateNeverReverses | script.js:98 | the direction a tick commits is never the reverse of the previous direction |
| Engine.NoReversalIntoNeck | script.js:98-117 | in a running game the next head is never the second cell of the body |
| Engine.EatAheadExample | script.js:136-149 | from the start body with food at (11,10), one tick grows to [(11,10),(10,10),(9,10),(8,10)], score 10, speed 145, with food off the new body |
| Engine.LeftWallExample | script.js:121-125 | a head at (0,5) moving left ends the game with the body unchanged |
| Engine.TurnDownExample | script.js:98-117 | heading left with down pending, the head at (5,5) moves to (5,6) and the direction becomes down |
| Game.SnakeGame.Tick | script.js:96-154 | the in-place tick (direction commit, wall check, body scan, `unshift`, then growth or `pop`) leaves the fields equal to `Update` of the old ones, and keeps the invariant |
| Game.SnakeGame.EndGame | script.js:200-201 | `gameOver` sets the over flag and nothing else |
| Engine.Request | script.js:217-237 | a direction request either sets the pending direction to the request or leaves it; nothing else changes |
| Engine.RequestRule | script.js:252-274 | a request for the reverse of the current direction (not of the pending one) changes nothing; any other request becomes the pending direction |
| Engine.RequestsLastValidWins | script.js:217-237 | after several requests the pending direction is the last one that did not reverse the current direction, or the old pending one if all did |
| Engine.RequestInv | script.js:217-237 | a request keeps the invariant, so the pending direction never becomes the reverse of the current one |
| Game.SnakeGame.RequestDirection | script.js:252-274 | each arrow key and direction button updates `nextDirection` as `Request` says and changes nothing else |
| Engine.KeyDown | script.js:210-244 | each arrow applies the direction rule for its own direction, other keys change nothing, and space leaves a running game unchanged and resets a finished one to the initial state |
| Game.SnakeGame.HandleKeyDown | script.js:210-244 | the key handler follows `KeyDown`: arrows request a direction, and space resets only when the game is over |
| Engine.Click | script.js:252-277 | each direction button applies the direction rule for its own direction, and restart always gives the initial state |
| Game.SnakeGame.HandleClick | script.js:252-277 | the restart button resets unconditionally; the direction buttons follow `Request` |
| Engine.TimerFired | script.js:87-92 | once the game is over, a timer firing changes nothing |
| Game.SnakeGame.OnTimer | script.js:88-91 | the timer callback leaves the object unchanged when the game is over, and ticks otherwise |
| Engine.StepInv | script.js:87-277 | every event (timer, key, button) keeps the invariant |
| Engine.RunInv | script.js:87-277 | every state reached from a valid state by any sequence of events satisfies the invariant |
| Engine.GameOverIsTerminal | script.js:200-201 | after game over, no sequence of events without a restart changes the over flag, snake, food, score, speed or direction |

## Left out

- `draw` (canvas rendering with fractional cell sizes and arcs) is pure output and is not modelled.
- The DOM updates are not modelled: the score text, the game-over overlay and the final score. They are user-interface side effects.
- Timer plumbing is not modelled: `setInterval`, `clearInterval` and the re-arming of `startGameLoop` after a speed change. This is host scheduling. The model keeps only the `!isGameOver` guard and the new value of `gameSpeed`.
- Event registration and `preventDefault` are not modelled. They are browser glue.
- Game.SnakeGame.GenerateFood: does not model the distribution of `Math.random()` or termination without a free attempt. Random values are a parameter in the model. Every precondition that leads to food placement asks that some attempt lands off the snake, because `generateFood`'s `do…while` in script.js loops for ever when none does.
- Food.Scale: computes `Math.floor(r * 20)` on exact reals. JavaScript uses a double product, which can round up across a whole number. The result still lies in [0, 20) either way.
- JavaScript numbers are doubles, and the model uses unbounded `int`s. The two agree here because no reachable coordinate, score or interval comes near 2^53.
- `food = {}` before the first `initGame` is modelled as the cell (0, 0). `initGame` overwrites it before anything reads it.
- Game.SnakeGame.Tick: requires `Valid()`, the object invariant, which `script.js` never checks. `RunInv` proves that every reachable state satisfies it, so no reachable call is excluded. The pure `Engine.Update` asks only for a non-empty snake and enough attempts.
