/** The `SnakeGame` component of frontend/src/App.jsx as an object: its
    React state hooks are fields, and the game loop, the input handlers and
    the session buttons are methods that update them. */
module SnakeSession {
  import opened Optional
  import opened SnakeRules

  /** The keys the keyboard handler distinguishes. */
  datatype Key = Arrow(d: Dir) | Space | OtherKey

  /** A copy of every state field, to state what a method leaves alone. */
  datatype GameState = GameState(
    snake: seq<Pos>, direction: Pos, food: Pos, score: int,
    gameSpeed: int, isPlaying: bool, gameOver: bool, highScore: int)

  /** The state `resetGame` installs; the best score survives. */
  function ResetState(highScore: int): GameState {
    GameState(InitialSnake, InitialDirection, InitialFood, 0, InitialSpeed, false, false, highScore)
  }

  /** `!startX`: a touch start that was never recorded, or recorded at 0. */
  predicate Unset(coordinate: Option<int>) {
    coordinate.None? || coordinate.value == 0
  }

  class Game {
    var snake: seq<Pos>
    var direction: Pos
    var food: Pos
    var score: int
    var gameSpeed: int
    var isPlaying: bool
    var gameOver: bool
    var highScore: int

    /** The snake lies on the board without overlaps, the direction is one
        of the four, and score and speed both follow from the number of
        foods eaten, which is the snake's length less one. */
    ghost predicate Valid()
      reads this
    {
      && |snake| >= 1
      && AllInGrid(snake)
      && Distinct(snake)
      && IsUnit(direction)
      && InGrid(food)
      && score == FoodPoints * (|snake| - 1)
      && gameSpeed == SpeedAfter(|snake| - 1)
      && highScore >= 0
    }

    ghost function State(): GameState
      reads this
    {
      GameState(snake, direction, food, score, gameSpeed, isPlaying, gameOver, highScore)
    }

    /** The cell the head moves into on the next tick. */
    ghost function NewHead(): Pos
      reads this
      requires |snake| >= 1
    {
      NextHead(snake[0], direction)
    }

    /** A tick would run (`gameLoop` returns early otherwise). */
    ghost predicate Running()
      reads this
    {
      isPlaying && !gameOver
    }

    ghost predicate WillCrash()
      reads this
      requires |snake| >= 1
    {
      Running() && CheckCollision(snake, NewHead())
    }

    ghost predicate WillEat()
      reads this
      requires |snake| >= 1
    {
      Running() && !CheckCollision(snake, NewHead()) && NewHead() == food
    }

    ghost predicate WillSlide()
      reads this
      requires |snake| >= 1
    {
      Running() && !CheckCollision(snake, NewHead()) && NewHead() != food
    }

    constructor ()
      ensures Valid()
      ensures State() == ResetState(0)
    {
      snake := InitialSnake;
      direction := InitialDirection;
      food := InitialFood;
      score := 0;
      gameSpeed := InitialSpeed;
      isPlaying := false;
      gameOver := false;
      highScore := 0;
    }

    /** `gameLoop`: one step of the snake. `draws` supplies the random
        numbers `generateFood` consumes; when the snake eats, they must
        contain a free cell, since the source keeps drawing until it finds
        one. */
    method Tick(draws: seq<Draw>)
      requires Valid() && ValidDraws(draws)
      requires WillEat() ==> FirstFree(snake, draws).Some?
      modifies this
      ensures Valid()
      ensures !old(Running()) ==> State() == old(State())
      ensures old(WillCrash()) ==>
        State() == old(State()).(gameOver := true, isPlaying := false,
                                 highScore := Max(old(highScore), old(score)))
      ensures old(WillEat()) ==>
        State() == old(State()).(snake := [old(NewHead())] + old(snake),
                                 score := old(score) + FoodPoints,
                                 gameSpeed := SpeedUp(old(gameSpeed)),
                                 food := FirstFree(old(snake), draws).value)
      ensures old(WillSlide()) ==>
        State() == old(State()).(snake := [old(NewHead())] + old(snake)[..|old(snake)| - 1])
    {
      if !isPlaying || gameOver {
        return;
      }
      var head := NextHead(snake[0], direction);
      if CheckCollision(snake, head) {
        gameOver := true;
        isPlaying := false;
        if score > highScore {
          highScore := score;
        }
        return;
      }
      if head == food {
        GrowKeepsShape(snake, head);
        var placed := GenerateFood(snake, draws);
        food := placed.value;
        snake := [head] + snake;
        score := score + FoodPoints;
        gameSpeed := SpeedUp(gameSpeed);
      } else {
        SlideKeepsShape(snake, head);
        snake := [head] + snake[..|snake| - 1];
      }
    }

    /** `handleKeyPress`: ignored unless playing; arrows turn by the
        perpendicular rule and the space bar toggles play. */
    method KeyPress(k: Key)
      requires Valid()
      modifies this
      ensures Valid()
      ensures State() ==
        if !old(isPlaying) then old(State())
        else match k
             case Arrow(d) => old(State()).(direction := KeyTurn(old(direction), d))
             case Space => old(State()).(isPlaying := false)
             case OtherKey => old(State())
    {
      if !isPlaying {
        return;
      }
      match k
      case Arrow(d) => direction := KeyTurn(direction, d);
      case Space => Toggle();
      case OtherKey =>
    }

    /** `handleDirectionChange`, driven by the on-screen buttons. */
    method ChangeDirection(d: Dir)
      requires Valid()
      modifies this
      ensures Valid()
      ensures State() ==
        if !old(isPlaying) then old(State())
        else old(State()).(direction := ButtonTurn(old(direction), d))
    {
      if !isPlaying {
        return;
      }
      direction := ButtonTurn(direction, d);
    }

    /** `handleTouchEnd`, given where the last touch started and where this
        one ended. */
    method TouchEnd(startX: Option<int>, startY: Option<int>, endX: int, endY: int)
      requires Valid()
      modifies this
      ensures Valid()
      ensures State() ==
        if Unset(startX) || Unset(startY) || !old(isPlaying) then old(State())
        else old(State()).(direction :=
               SwipeTurn(old(direction), endX - startX.value, endY - startY.value))
    {
      if Unset(startX) || Unset(startY) || !isPlaying {
        return;
      }
      direction := SwipeTurn(direction, endX - startX.value, endY - startY.value);
    }

    /** `toggleGame` */
    method Toggle()
      requires Valid()
      modifies this
      ensures Valid()
      ensures State() == old(State()).(isPlaying := !old(isPlaying))
    {
      isPlaying := !isPlaying;
    }

    /** `resetGame` */
    method Reset()
      requires Valid()
      modifies this
      ensures Valid()
      ensures State() == ResetState(old(highScore))
    {
      snake := InitialSnake;
      direction := InitialDirection;
      food := InitialFood;
      gameOver := false;
      score := 0;
      isPlaying := false;
      gameSpeed := InitialSpeed;
    }

    /** `startGame`: a finished game is reset first. */
    method Start()
      requires Valid()
      modifies this
      ensures Valid()
      ensures State() ==
        (if old(gameOver) then ResetState(old(highScore)) else old(State())).(isPlaying := true)
    {
      if gameOver {
        Reset();
      }
      isPlaying := true;
    }
  }

  /** A client: the first tick of a fresh game moves the snake up one cell,
      and a request to reverse is refused. */
  method FirstMoves()
  {
    var g := new Game();
    g.Start();
    assert g.isPlaying && !g.gameOver && g.snake == [Pos(10, 10)];
    g.ChangeDirection(Down);
    assert g.direction == Pos(0, -1);
    g.Tick([]);
    assert g.snake == [Pos(10, 9)] && g.score == 0 && !g.gameOver;
    g.KeyPress(Arrow(Left));
    assert g.direction == Pos(-1, 0);
    g.KeyPress(Arrow(Right));
    assert g.direction == Pos(-1, 0);
  }
}
