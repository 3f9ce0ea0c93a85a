/** The game component's state, updated in place the way the component's
    handlers update it: each field is one piece of component state, and each
    method is one handler run to completion. Every method is proved to leave
    the snapshot that the matching function in module Rules computes, and to
    keep the invariant Rules.WellFormed. */
module Engine {
  import opened Grid
  import opened Rules

  /** The self-collision test: does any segment occupy `head`? */
  method HitsBody(snake: seq<Position>, head: Position) returns (hit: bool)
    ensures hit <==> head in snake
  {
    hit := false;
    var k := 0;
    while k < |snake| && !hit
      invariant 0 <= k <= |snake|
      invariant hit <==> head in snake[..k]
    {
      hit := snake[k].x == head.x && snake[k].y == head.y;
      k := k + 1;
    }
    assert !hit ==> snake[..k] == snake;
  }

  class Game {
    var snake: seq<Position>
    var food: Position
    var direction: Direction
    var gameOver: bool
    var isPlaying: bool
    var score: int

    /** The current values of all six fields. */
    function Snapshot(): GameState
      reads this
    {
      GameState(snake, food, direction, gameOver, isPlaying, score)
    }

    ghost predicate Valid()
      reads this
    {
      WellFormed(Snapshot())
    }

    /** The component's first render: every field takes its initial value. */
    constructor ()
      ensures Valid() && Snapshot() == INITIAL
    {
      snake := INITIAL_SNAKE;
      food := INITIAL_FOOD;
      direction := INITIAL_DIRECTION;
      gameOver := false;
      score := 0;
      isPlaying := false;
    }

    /** The Reset button, the Play Again button and Space after a game over. */
    method ResetGame()
      modifies this
      ensures Valid() && Snapshot() == Reset(old(Snapshot()))
    {
      snake := INITIAL_SNAKE;
      food := INITIAL_FOOD;
      direction := INITIAL_DIRECTION;
      gameOver := false;
      score := 0;
      isPlaying := false;
    }

    /** One tick of the game loop; `nextFood` is where the food goes if it is eaten. */
    method MoveSnake(nextFood: Position)
      requires Valid()
      modifies this
      ensures Valid() && Snapshot() == Tick(old(Snapshot()), nextFood)
    {
      TickPreservesWellFormed(Snapshot(), nextFood);
      if gameOver || !isPlaying {
        return;
      }
      var newSnake := snake;
      var head := newSnake[0];
      match direction {
        case Up => head := head.(y := head.y - 1);
        case Down => head := head.(y := head.y + 1);
        case Left => head := head.(x := head.x - 1);
        case Right => head := head.(x := head.x + 1);
      }
      assert head == Moved(snake[0], direction);

      if head.x < 0 || head.x >= GRID_SIZE || head.y < 0 || head.y >= GRID_SIZE {
        gameOver := true;
        isPlaying := false;
        return;
      }

      var hit := HitsBody(newSnake, head);
      if hit {
        gameOver := true;
        isPlaying := false;
        return;
      }

      newSnake := [head] + newSnake;
      if head.x == food.x && head.y == food.y {
        score := score + FOOD_SCORE;
        food := nextFood;
      } else {
        newSnake := newSnake[..|newSnake| - 1];
      }
      snake := newSnake;
    }

    /** The keyboard handler for one key press. */
    method HandleKey(key: Key)
      requires Valid()
      modifies this
      ensures Valid() && Snapshot() == KeyPress(old(Snapshot()), key)
    {
      if !isPlaying && !gameOver {
        return;
      }
      match key {
        case ArrowUp => direction := if direction != Down then Up else direction;
        case ArrowDown => direction := if direction != Up then Down else direction;
        case ArrowLeft => direction := if direction != Right then Left else direction;
        case ArrowRight => direction := if direction != Left then Right else direction;
        case Space =>
          if gameOver {
            ResetGame();
          } else {
            isPlaying := !isPlaying;
          }
        case OtherKey =>
      }
    }

    /** The Start button. */
    method StartGame()
      requires Valid()
      modifies this
      ensures Valid() && Snapshot() == Start(old(Snapshot()))
    {
      isPlaying := true;
    }

    /** The Pause button. */
    method PauseGame()
      requires Valid()
      modifies this
      ensures Valid() && Snapshot() == Pause(old(Snapshot()))
    {
      isPlaying := false;
    }
  }
}
