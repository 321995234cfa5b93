/**
 * The game state of script.js as a value, and each event handler as a function
 * from the state before to the state after. The class in game.dfy updates its
 * fields in place and is proved to follow these functions.
 */
module Engine {
  import opened Config
  import opened Grid
  import opened Food

  /** The module-level variables of the game, apart from the timer handle. */
  datatype State = State(
    snake: seq<Cell>,
    food: Cell,
    direction: Direction,
    nextDirection: Direction,
    score: int,
    gameSpeed: int,
    isGameOver: bool)

  /** Number of cells `initGame` gives the snake. */
  const INITIAL_LENGTH: int := 3

  function InitialSnake(): (s: seq<Cell>)
    ensures |s| == INITIAL_LENGTH
  {
    [Cell(10, 10), Cell(9, 10), Cell(8, 10)]
  }

  function Max(a: int, b: int): int {
    if a >= b then a else b
  }

  /** The tick interval after `eaten` foods, given that each food shortens it down to the floor. */
  function SpeedAfter(eaten: int): int {
    Max(MIN_SPEED, INITIAL_SPEED - SPEED_INCREASE * eaten)
  }

  /**
   * What holds of every state the game reaches: the body is in the grid,
   * without repeated cells and connected; the food is off it; the pending
   * direction does not reverse the current one; while the game runs the head
   * sits one step from the neck in the current direction; and length, score
   * and speed all count the same number of foods eaten.
   */
  ghost predicate Inv(st: State) {
    |st.snake| >= 1 &&
    AllInBounds(st.snake) && Distinct(st.snake) && Connected(st.snake) &&
    InBounds(st.food) && st.food !in st.snake &&
    st.nextDirection != Opposite(st.direction) &&
    (!st.isGameOver && |st.snake| >= 2 ==> st.snake[0] == Shift(st.snake[1], st.direction)) &&
    st.score >= 0 && st.score % FOOD_VALUE == 0 &&
    |st.snake| == INITIAL_LENGTH + st.score / FOOD_VALUE &&
    st.gameSpeed == SpeedAfter(st.score / FOOD_VALUE)
  }

  /** `initGame`: everything reset, then food placed off the new snake. */
  function InitialState(draws: seq<Draw>): (r: State)
    requires HasFreeDraw(draws, InitialSnake())
    ensures r.food !in r.snake
  {
    State(InitialSnake(), FirstFree(draws, InitialSnake()), Right, Right, 0, INITIAL_SPEED, false)
  }

  lemma {:induction false} InitialStateInv(draws: seq<Draw>)
    requires HasFreeDraw(draws, InitialSnake())
    ensures Inv(InitialState(draws))
    ensures InitialState(draws).snake == [Cell(10, 10), Cell(9, 10), Cell(8, 10)]
    ensures InitialState(draws).direction == Right && InitialState(draws).nextDirection == Right
    ensures InitialState(draws).score == 0 && InitialState(draws).gameSpeed == 150
    ensures !InitialState(draws).isGameOver
  {
    var s := InitialSnake();
    assert Adjacent(s[0], s[1]) && Adjacent(s[1], s[2]);
  }

  // ---------------------------------------------------------------- update

  /** The head `update` computes: the current head moved in the pending direction. */
  function NextHead(st: State): (h: Cell)
    requires |st.snake| >= 1
    ensures Adjacent(st.snake[0], h)
  {
    Shift(st.snake[0], st.nextDirection)
  }

  /**
   * The new head hits a wall, or any cell of the body before the move, tail
   * included. In a running game the head and the neck can never be the cell
   * hit, so only the wall and the cells from the third one on matter.
   */
  predicate Collides(st: State)
    requires |st.snake| >= 1
    ensures Inv(st) && !st.isGameOver ==>
      (Collides(st) <==> !InBounds(NextHead(st)) || NextHead(st) in st.snake[2..])
  {
    HeadMissesHeadAndNeck(st);
    !InBounds(NextHead(st)) || NextHead(st) in st.snake
  }

  /** In a running game the new head is neither the current head nor the neck. */
  lemma {:induction false} HeadMissesHeadAndNeck(st: State)
    requires |st.snake| >= 1
    ensures Inv(st) && !st.isGameOver ==>
      (NextHead(st) in st.snake <==> NextHead(st) in st.snake[2..])
  {
    if Inv(st) && !st.isGameOver {
      NoReversalIntoNeck(st);
      assert st.snake == [st.snake[0], st.snake[1]] + st.snake[2..];
    }
  }

  /** Under the invariant the food is off the body, so eating is just an in-grid head on the food. */
  predicate Eats(st: State)
    requires |st.snake| >= 1
    ensures Inv(st) ==> (Eats(st) <==> InBounds(NextHead(st)) && NextHead(st) == st.food)
  {
    !Collides(st) && NextHead(st) == st.food
  }

  /** The attempts given to `update` are enough for the new food if it eats. */
  predicate UpdateReady(st: State, draws: seq<Draw>) {
    |st.snake| >= 1 && DrawsInRange(draws) &&
    (Eats(st) ==> HasFreeDraw(draws, [NextHead(st)] + st.snake))
  }

  /**
   * `update`: commit the pending direction, then either end the game (wall or
   * body hit), grow onto the food, or move by dropping the tail.
   */
  function Update(st: State, draws: seq<Draw>): (r: State)
    requires UpdateReady(st, draws)
    ensures r.direction == r.nextDirection == st.nextDirection
    ensures r.isGameOver <==> st.isGameOver || Collides(st)
    ensures r.score >= st.score
  {
    var d := st.nextDirection;
    var head := Shift(st.snake[0], d);
    if !InBounds(head) then
      st.(direction := d, isGameOver := true)
    else if head in st.snake then
      st.(direction := d, isGameOver := true)
    else if head == st.food then
      var grown := [head] + st.snake;
      st.(snake := grown, direction := d, score := st.score + FOOD_VALUE,
          gameSpeed := Max(MIN_SPEED, st.gameSpeed - SPEED_INCREASE),
          food := FirstFree(draws, grown))
    else
      st.(snake := [head] + st.snake[..|st.snake| - 1], direction := d)
  }

  /** A wall hit ends the game and changes nothing else but the committed direction. */
  lemma WallHit(st: State, draws: seq<Draw>)
    requires UpdateReady(st, draws) && !InBounds(NextHead(st))
    ensures Update(st, draws) == st.(direction := st.nextDirection, isGameOver := true)
  {
  }

  /** Landing on any cell of the body before the move, the tail too, ends the game the same way. */
  lemma SelfHit(st: State, draws: seq<Draw>, i: int)
    requires UpdateReady(st, draws) && InBounds(NextHead(st))
    requires 0 <= i < |st.snake| && NextHead(st) == st.snake[i]
    ensures Update(st, draws) == st.(direction := st.nextDirection, isGameOver := true)
  {
  }

  /** Moving onto the cell the tail is about to leave is a collision. */
  lemma TailIsObstacle(st: State, draws: seq<Draw>)
    requires UpdateReady(st, draws) && NextHead(st) == st.snake[|st.snake| - 1]
    ensures Update(st, draws).isGameOver
    ensures Update(st, draws).snake == st.snake
  {
  }

  /**
   * A plain move: the new head is the old head one step in the committed
   * direction, the rest is the old body without its tail, the length is
   * kept, and the old tail is gone from a body without repeated cells.
   */
  lemma Move(st: State, draws: seq<Draw>)
    requires UpdateReady(st, draws) && !Collides(st) && NextHead(st) != st.food
    ensures var r := Update(st, draws);
      && r.snake == [Shift(st.snake[0], st.nextDirection)] + st.snake[..|st.snake| - 1]
      && |r.snake| == |st.snake|
      && r.food == st.food && r.score == st.score && r.gameSpeed == st.gameSpeed
      && r.isGameOver == st.isGameOver
      && (Distinct(st.snake) ==> st.snake[|st.snake| - 1] !in r.snake)
  {
    var r := Update(st, draws);
    var n := |st.snake|;
    if Distinct(st.snake) {
      forall j | 0 <= j < n - 1 ensures st.snake[j] != st.snake[n - 1] { }
      assert st.snake[n - 1] !in st.snake[..n - 1];
    }
  }

  /**
   * Eating: the snake grows by the new head, the score rises by the food
   * value, the interval drops by one step but not below the floor, and the
   * new food is in the grid, off the grown snake and not where the old one was.
   */
  lemma Eat(st: State, draws: seq<Draw>)
    requires UpdateReady(st, draws) && Eats(st)
    ensures var r := Update(st, draws);
      && r.snake == [NextHead(st)] + st.snake
      && |r.snake| == |st.snake| + 1
      && r.score == st.score + FOOD_VALUE
      && r.gameSpeed == Max(MIN_SPEED, st.gameSpeed - SPEED_INCREASE)
      && (st.gameSpeed >= MIN_SPEED ==> MIN_SPEED <= r.gameSpeed <= st.gameSpeed)
      && InBounds(r.food) && r.food !in r.snake && r.food != st.food
  {
    var r := Update(st, draws);
    assert r.snake[0] == st.food;
  }

  /**
   * A tick never clears the over flag, and from an interval at or above the
   * floor (every reachable one, by `Inv`) it never makes the interval longer
   * nor lets it fall below the floor.
   */
  lemma UpdateMonotone(st: State, draws: seq<Draw>)
    requires UpdateReady(st, draws) && st.gameSpeed >= MIN_SPEED
    ensures st.isGameOver ==> Update(st, draws).isGameOver
    ensures MIN_SPEED <= Update(st, draws).gameSpeed <= st.gameSpeed
  {
  }

  /** Every tick keeps the invariant, whether it ends the game, moves or grows. */
  lemma {:induction false} UpdateInv(st: State, draws: seq<Draw>)
    requires Inv(st) && UpdateReady(st, draws)
    ensures Inv(Update(st, draws))
  {
    var s := st.snake;
    var n := |s|;
    var head := NextHead(st);
    var r := Update(st, draws);
    if Collides(st) {
      assert r == st.(direction := st.nextDirection, isGameOver := true);
    } else if head == st.food {
      PrependDistinct(head, s);
      PrependConnected(head, s);
      var k := st.score / FOOD_VALUE;
      assert (st.score + FOOD_VALUE) / FOOD_VALUE == k + 1;
      assert r.snake == [head] + s;
    } else {
      var body := s[..n - 1];
      assert Distinct(body) by {
        forall i, j | 0 <= i < j < |body| ensures body[i] != body[j] {
          assert body[i] == s[i] && body[j] == s[j];
        }
      }
      assert Connected(body) by {
        forall i | 0 < i < |body| ensures Adjacent(body[i - 1], body[i]) {
          assert body[i - 1] == s[i - 1] && body[i] == s[i];
        }
      }
      assert forall c :: c in body ==> c in s;
      PrependDistinct(head, body);
      PrependConnected(head, body);
      assert r.snake == [head] + body;
    }
  }

  /** The direction a tick commits is never the reverse of the direction before it. */
  lemma UpdateNeverReverses(st: State, draws: seq<Draw>)
    requires Inv(st) && UpdateReady(st, draws)
    ensures Update(st, draws).direction != Opposite(st.direction)
  {
  }

  /** So a running snake of two or more cells never turns its head back onto its neck. */
  lemma {:induction false} NoReversalIntoNeck(st: State)
    requires Inv(st) && !st.isGameOver && |st.snake| >= 2
    ensures NextHead(st) != st.snake[1]
  {
    ShiftBack(st.snake[1], st.direction, st.nextDirection);
  }

  /** From the starting body heading right with food just ahead: the snake grows onto it. */
  lemma EatAheadExample(draws: seq<Draw>)
    requires HasFreeDraw(draws, [Cell(11, 10)] + InitialSnake())
    ensures var st := State(InitialSnake(), Cell(11, 10), Right, Right, 0, INITIAL_SPEED, false);
      UpdateReady(st, draws) &&
      Update(st, draws).snake == [Cell(11, 10), Cell(10, 10), Cell(9, 10), Cell(8, 10)] &&
      Update(st, draws).score == 10 && Update(st, draws).gameSpeed == 145 &&
      Update(st, draws).food !in Update(st, draws).snake
  {
  }

  /** A head on the left edge moving left ends the game with the body where it was. */
  lemma LeftWallExample(draws: seq<Draw>)
    requires DrawsInRange(draws)
    ensures var st := State([Cell(0, 5), Cell(1, 5), Cell(2, 5)], Cell(7, 7), Left, Left, 0, INITIAL_SPEED, false);
      UpdateReady(st, draws) &&
      Update(st, draws).isGameOver && Update(st, draws).snake == st.snake
  {
  }

  /** Heading left with down pending, the tick turns the head down. */
  lemma TurnDownExample(draws: seq<Draw>)
    requires DrawsInRange(draws)
    ensures var st := State([Cell(5, 5), Cell(6, 5), Cell(7, 5)], Cell(0, 0), Left, Down, 0, INITIAL_SPEED, false);
      UpdateReady(st, draws) &&
      Update(st, draws).snake == [Cell(5, 6), Cell(5, 5), Cell(6, 5)] &&
      Update(st, draws).direction == Down
  {
  }

  // ----------------------------------------------------------------- input

  /**
   * An arrow key or direction button: ignored when it asks for the reverse of
   * the current direction, otherwise it overwrites the pending one.
   */
  function Request(st: State, d: Direction): (r: State)
    ensures r.nextDirection == d || r.nextDirection == st.nextDirection
    ensures r.(nextDirection := st.nextDirection) == st
  {
    if st.direction != Opposite(d) then st.(nextDirection := d) else st
  }

  lemma RequestRule(st: State, d: Direction)
    ensures d == Opposite(st.direction) ==> Request(st, d) == st
    ensures d != Opposite(st.direction) ==> Request(st, d).nextDirection == d
  {
    if d == Opposite(st.direction) {
      assert st.direction == Opposite(d) by { OppositeTwice(st.direction); }
    } else {
      assert st.direction != Opposite(d) by { OppositeTwice(st.direction); }
    }
  }

  /** Several requests between two ticks. */
  function Requests(st: State, ds: seq<Direction>): State
    decreases |ds|
  {
    if ds == [] then st else Requests(Request(st, ds[0]), ds[1..])
  }

  /**
   * Last writer wins: after several requests the pending direction is the
   * last one that was not the reverse of the current direction, or the old
   * pending direction when every one was; nothing else changes.
   */
  lemma {:induction false} RequestsLastValidWins(st: State, ds: seq<Direction>)
    ensures Requests(st, ds).(nextDirection := st.nextDirection) == st
    ensures (forall i :: 0 <= i < |ds| ==> ds[i] == Opposite(st.direction)) ==>
      Requests(st, ds).nextDirection == st.nextDirection
    ensures forall i :: 0 <= i < |ds| && ds[i] != Opposite(st.direction) &&
                        (forall j :: i < j < |ds| ==> ds[j] == Opposite(st.direction))
                        ==> Requests(st, ds).nextDirection == ds[i]
    decreases |ds|
  {
    if ds != [] {
      var st1 := Request(st, ds[0]);
      RequestRule(st, ds[0]);
      RequestsLastValidWins(st1, ds[1..]);
      assert st1.direction == st.direction;
      var tail := ds[1..];
      forall i | 0 <= i < |ds| && ds[i] != Opposite(st.direction) &&
        (forall j :: i < j < |ds| ==> ds[j] == Opposite(st.direction))
        ensures Requests(st, ds).nextDirection == ds[i]
      {
        if i > 0 {
          assert tail[i - 1] == ds[i];
          forall j | i - 1 < j < |tail| ensures tail[j] == Opposite(st.direction) {
            assert tail[j] == ds[j + 1];
          }
        } else {
          assert forall j :: 0 <= j < |tail| ==> tail[j] == ds[j + 1];
        }
      }
    }
  }

  /** A request keeps the invariant: the pending direction never becomes the reverse of the current one. */
  lemma RequestInv(st: State, d: Direction)
    requires Inv(st)
    ensures Inv(Request(st, d))
  {
    RequestRule(st, d);
  }

  // -------------------------------------------------------- events, driver

  datatype Key = ArrowUp | ArrowDown | ArrowLeft | ArrowRight | Space | OtherKey

  datatype Button = UpButton | DownButton | LeftButton | RightButton | RestartButton

  /** The three sources of change: the interval timer, a key press and a button click. */
  datatype Input = Timer | KeyPress(key: Key) | ButtonClick(button: Button)

  /** An input with the random attempts available to it, should it need food. */
  datatype Event = Event(input: Input, draws: seq<Draw>)

  /** `handleKeyDown`: arrows request a direction; space restarts, but only after game over. */
  function KeyDown(st: State, k: Key, draws: seq<Draw>): (r: State)
    requires k == Space && st.isGameOver ==> HasFreeDraw(draws, InitialSnake())
    ensures k != Space ==> r.(nextDirection := st.nextDirection) == st
    ensures k == ArrowUp ==> r == Request(st, Up)
    ensures k == ArrowDown ==> r == Request(st, Down)
    ensures k == ArrowLeft ==> r == Request(st, Left)
    ensures k == ArrowRight ==> r == Request(st, Right)
    ensures k == OtherKey ==> r == st
    ensures k == Space && !st.isGameOver ==> r == st
    ensures k == Space && st.isGameOver ==> r == InitialState(draws)
  {
    match k
    case ArrowUp => Request(st, Up)
    case ArrowDown => Request(st, Down)
    case ArrowLeft => Request(st, Left)
    case ArrowRight => Request(st, Right)
    case Space => if st.isGameOver then InitialState(draws) else st
    case OtherKey => st
  }

  /** The on-screen buttons: four direction requests and an unconditional restart. */
  function Click(st: State, b: Button, draws: seq<Draw>): (r: State)
    requires b == RestartButton ==> HasFreeDraw(draws, InitialSnake())
    ensures b != RestartButton ==> r.(nextDirection := st.nextDirection) == st
    ensures b == UpButton ==> r == Request(st, Up)
    ensures b == DownButton ==> r == Request(st, Down)
    ensures b == LeftButton ==> r == Request(st, Left)
    ensures b == RightButton ==> r == Request(st, Right)
    ensures b == RestartButton ==> r == InitialState(draws)
  {
    match b
    case UpButton => Request(st, Up)
    case DownButton => Request(st, Down)
    case LeftButton => Request(st, Left)
    case RightButton => Request(st, Right)
    case RestartButton => InitialState(draws)
  }

  /** The timer callback of `startGameLoop`: tick only while the game is not over. */
  function TimerFired(st: State, draws: seq<Draw>): (r: State)
    requires !st.isGameOver ==> UpdateReady(st, draws)
    ensures st.isGameOver ==> r == st
  {
    if !st.isGameOver then Update(st, draws) else st
  }

  predicate StepReady(st: State, ev: Event) {
    |st.snake| >= 1 &&
    match ev.input
    case Timer => !st.isGameOver ==> UpdateReady(st, ev.draws)
    case KeyPress(k) => k == Space && st.isGameOver ==> HasFreeDraw(ev.draws, InitialSnake())
    case ButtonClick(b) => b == RestartButton ==> HasFreeDraw(ev.draws, InitialSnake())
  }

  function Step(st: State, ev: Event): State
    requires StepReady(st, ev)
  {
    match ev.input
    case Timer => TimerFired(st, ev.draws)
    case KeyPress(k) => KeyDown(st, k, ev.draws)
    case ButtonClick(b) => Click(st, b, ev.draws)
  }

  /** Inputs that reinitialise the game when it is over. */
  predicate IsRestart(input: Input) {
    input == KeyPress(Space) || input == ButtonClick(RestartButton)
  }

  predicate RunReady(st: State, evs: seq<Event>)
    decreases |evs|
  {
    evs == [] || (StepReady(st, evs[0]) && RunReady(Step(st, evs[0]), evs[1..]))
  }

  /** The state after handling the events in order. */
  function Run(st: State, evs: seq<Event>): State
    requires RunReady(st, evs)
    decreases |evs|
  {
    if evs == [] then st else Run(Step(st, evs[0]), evs[1..])
  }

  lemma StepInv(st: State, ev: Event)
    requires Inv(st) && StepReady(st, ev)
    ensures Inv(Step(st, ev))
  {
    match ev.input {
      case Timer =>
        if !st.isGameOver { UpdateInv(st, ev.draws); }
      case KeyPress(k) =>
        match k {
          case ArrowUp => RequestInv(st, Up);
          case ArrowDown => RequestInv(st, Down);
          case ArrowLeft => RequestInv(st, Left);
          case ArrowRight => RequestInv(st, Right);
          case Space => if st.isGameOver { InitialStateInv(ev.draws); }
          case OtherKey =>
        }
      case ButtonClick(b) =>
        match b {
          case UpButton => RequestInv(st, Up);
          case DownButton => RequestInv(st, Down);
          case LeftButton => RequestInv(st, Left);
          case RightButton => RequestInv(st, Right);
          case RestartButton => InitialStateInv(ev.draws);
        }
    }
  }

  /** Every reachable state satisfies the invariant. */
  lemma {:induction false} RunInv(st: State, evs: seq<Event>)
    requires Inv(st) && RunReady(st, evs)
    ensures Inv(Run(st, evs))
    decreases |evs|
  {
    if evs != [] {
      StepInv(st, evs[0]);
      RunInv(Step(st, evs[0]), evs[1..]);
    }
  }

  /**
   * Game over is terminal: until a restart, no event moves the snake, the
   * food, the score or the interval, and the game stays over.
   */
  lemma {:induction false} GameOverIsTerminal(st: State, evs: seq<Event>)
    requires st.isGameOver && RunReady(st, evs)
    requires forall i :: 0 <= i < |evs| ==> !IsRestart(evs[i].input)
    ensures var r := Run(st, evs);
      r.isGameOver && r.snake == st.snake && r.food == st.food &&
      r.score == st.score && r.gameSpeed == st.gameSpeed && r.direction == st.direction
    decreases |evs|
  {
    if evs != [] {
      var st1 := Step(st, evs[0]);
      assert !IsRestart(evs[0].input);
      assert st1.(nextDirection := st.nextDirection) == st;
      assert forall i :: 0 <= i < |evs[1..]| ==> evs[1..][i] == evs[i + 1];
      GameOverIsTerminal(st1, evs[1..]);
    }
  }
}
