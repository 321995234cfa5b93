/**
 * The game as script.js runs it: module-level variables that the event
 * handlers overwrite. The constructor, InitGame, Tick, OnTimer,
 * RequestDirection, HandleKeyDown and HandleClick change the fields in place
 * and are proved to leave them as the matching function of the Engine module
 * says. GenerateFood and EndGame are helpers that each change one field.
 */
module Game {
  import opened Config
  import opened Grid
  import opened Food
  import opened Engine

  class SnakeGame {
    var snake: seq<Cell>
    var food: Cell
    var direction: Direction
    var nextDirection: Direction
    var score: int
    var gameSpeed: int
    var isGameOver: bool

    /** The fields as one value. */
    function Snapshot(): State
      reads this
    {
      State(snake, food, direction, nextDirection, score, gameSpeed, isGameOver)
    }

    ghost predicate Valid()
      reads this
    {
      Inv(Snapshot())
    }

    /** `init`: the variables start as declared, then `initGame` runs. */
    constructor (draws: seq<Draw>)
      requires HasFreeDraw(draws, InitialSnake())
      ensures Valid() && Snapshot() == InitialState(draws)
    {
      snake := [];
      food := Cell(0, 0);
      direction := Right;
      nextDirection := Right;
      score := 0;
      gameSpeed := INITIAL_SPEED;
      isGameOver := false;
      new;
      InitGame(draws);
    }

    /** `initGame`, also the restart button and the space key after game over. */
    method InitGame(draws: seq<Draw>)
      requires HasFreeDraw(draws, InitialSnake())
      modifies this
      ensures Valid() && Snapshot() == InitialState(draws)
    {
      snake := InitialSnake();
      direction := Right;
      nextDirection := Right;
      score := 0;
      gameSpeed := INITIAL_SPEED;
      isGameOver := false;
      GenerateFood(draws);
      InitialStateInv(draws);
    }

    /** `generateFood`: try the attempts in order until one lands off the snake. */
    method GenerateFood(draws: seq<Draw>)
      requires HasFreeDraw(draws, snake)
      modifies this`food
      ensures food == FirstFree(draws, snake)
      ensures InBounds(food) && food !in snake
    {
      var i := 0;
      var overlapping := true;
      while overlapping
        invariant 0 <= i <= |draws|
        invariant forall j :: 0 <= j < i - 1 ==> CellOf(draws[j]) in snake
        invariant overlapping ==> forall j :: 0 <= j < i ==> CellOf(draws[j]) in snake
        invariant !overlapping ==> 0 < i && food == CellOf(draws[i - 1]) && food !in snake
        decreases |draws| - i
      {
        overlapping := false;
        food := CellOf(draws[i]);
        i := i + 1;
        var onSnake := Occupies(snake, food);
        if onSnake {
          overlapping := true;
        }
      }
      FirstFreeUnique(draws, snake, i - 1);
    }

    /** `gameOver`: raise the flag; the timer and the overlay are left out. */
    method EndGame()
      modifies this`isGameOver
      ensures isGameOver
    {
      isGameOver := true;
    }

    /** `update`. */
    method Tick(draws: seq<Draw>)
      requires Valid() && UpdateReady(Snapshot(), draws)
      modifies this
      ensures Valid() && Snapshot() == Update(old(Snapshot()), draws)
    {
      ghost var st := Snapshot();
      direction := nextDirection;
      var head := Shift(snake[0], direction);
      if !InBounds(head) {
        EndGame();
      } else {
        var hit := Occupies(snake, head);
        if hit {
          EndGame();
        } else {
          snake := [head] + snake;
          if head == food {
            score := score + FOOD_VALUE;
            gameSpeed := Max(MIN_SPEED, gameSpeed - SPEED_INCREASE);
            GenerateFood(draws);
          } else {
            snake := snake[..|snake| - 1];
          }
        }
      }
      assert Snapshot() == Update(st, draws);
      UpdateInv(st, draws);
    }

    /** The timer callback: tick only while the game is not over. */
    method OnTimer(draws: seq<Draw>)
      requires Valid() && (!isGameOver ==> UpdateReady(Snapshot(), draws))
      modifies this
      ensures Valid() && Snapshot() == TimerFired(old(Snapshot()), draws)
      ensures old(isGameOver) ==> unchanged(this)
    {
      if !isGameOver {
        Tick(draws);
      }
    }

    /** The direction check shared by the four arrow keys and the four direction buttons. */
    method RequestDirection(d: Direction)
      requires Valid()
      modifies this`nextDirection
      ensures Valid() && Snapshot() == Request(old(Snapshot()), d)
    {
      if direction != Opposite(d) {
        nextDirection := d;
      }
      RequestInv(old(Snapshot()), d);
    }

    /** `handleKeyDown`, without `preventDefault`. */
    method HandleKeyDown(k: Key, draws: seq<Draw>)
      requires Valid() && (k == Space && isGameOver ==> HasFreeDraw(draws, InitialSnake()))
      modifies this
      ensures Valid() && Snapshot() == KeyDown(old(Snapshot()), k, draws)
    {
      match k {
        case ArrowUp => RequestDirection(Up);
        case ArrowDown => RequestDirection(Down);
        case ArrowLeft => RequestDirection(Left);
        case ArrowRight => RequestDirection(Right);
        case Space =>
          if isGameOver {
            InitGame(draws);
          }
        case OtherKey =>
      }
    }

    /** The click handlers of the five on-screen buttons. */
    method HandleClick(b: Button, draws: seq<Draw>)
      requires Valid() && (b == RestartButton ==> HasFreeDraw(draws, InitialSnake()))
      modifies this
      ensures Valid() && Snapshot() == Click(old(Snapshot()), b, draws)
    {
      match b {
        case UpButton => RequestDirection(Up);
        case DownButton => RequestDirection(Down);
        case LeftButton => RequestDirection(Left);
        case RightButton => RequestDirection(Right);
        case RestartButton => InitGame(draws);
      }
    }
  }
}
