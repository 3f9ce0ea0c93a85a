/** The rules of the game as functions on a snapshot of the game state: one
    tick of the game loop, one key press, the Start, Pause and Reset buttons,
    and the invariant every reachable state keeps. The class in module Engine
    performs the same steps in place and is proved against these functions. */
module Rules {
  import opened Grid

  /** Points for one piece of food. */
  const FOOD_SCORE: int := 10

  const INITIAL_SNAKE: seq<Position> := [Position(10, 10)]
  const INITIAL_FOOD: Position := Position(15, 15)
  const INITIAL_DIRECTION: Direction := Right

  /** The six pieces of component state: the snake (head first), the food
      cell, the direction of travel, the two flags, and the score. */
  datatype GameState = GameState(
    snake: seq<Position>,
    food: Position,
    direction: Direction,
    gameOver: bool,
    isPlaying: bool,
    score: int)

  /** The state on first render and after every reset. */
  const INITIAL: GameState :=
    GameState(INITIAL_SNAKE, INITIAL_FOOD, INITIAL_DIRECTION, false, false, 0)

  /** The state both collisions lead to: the game stops, nothing else changes. */
  function Crashed(s: GameState): GameState {
    s.(gameOver := true, isPlaying := false)
  }

  /** One tick of the game loop. `nextFood` is the random cell the food moves
      to when it is eaten; nothing constrains it, in particular not to lie
      off the snake. An empty snake cannot arise; for it the source would
      compute a head without coordinates, fail every comparison and end with
      an empty snake again, which is what this returns. */
  function Tick(s: GameState, nextFood: Position): (r: GameState)
    ensures r.direction == s.direction
    ensures r.score == s.score || r.score == s.score + FOOD_SCORE
    ensures r.food == s.food || r.score == s.score + FOOD_SCORE
    ensures r.snake == s.snake ||
      (s.snake != [] && r.snake != [] && r.snake[0] == Moved(s.snake[0], s.direction) && r.snake[1..] <= s.snake)
    ensures r.gameOver ==> !r.isPlaying || r == s
  {
    if s.gameOver || !s.isPlaying then s
    else if s.snake == [] then s
    else
      var head := Moved(s.snake[0], s.direction);
      if !InBounds(head) then Crashed(s)
      else if head in s.snake then Crashed(s)
      else if head == s.food then
        s.(snake := [head] + s.snake, score := s.score + FOOD_SCORE, food := nextFood)
      else
        s.(snake := [head] + s.snake[..|s.snake| - 1])
  }

  /** A stopped or finished game does not move. */
  lemma TickWhileStopped(s: GameState, nextFood: Position)
    requires s.gameOver || !s.isPlaying
    ensures Tick(s, nextFood) == s
  {}

  /** A head that would leave the board ends the game and leaves the snake,
      food, direction and score exactly as they were. */
  lemma TickIntoWall(s: GameState, nextFood: Position)
    requires !s.gameOver && s.isPlaying && s.snake != []
    requires !InBounds(Moved(s.snake[0], s.direction))
    ensures var r := Tick(s, nextFood);
      r.gameOver && !r.isPlaying &&
      r.snake == s.snake && r.food == s.food && r.direction == s.direction && r.score == s.score
  {}

  /** A head that would land on any current segment, the tail included, ends
      the game and leaves everything else as it was. */
  lemma TickIntoSelf(s: GameState, nextFood: Position)
    requires !s.gameOver && s.isPlaying && s.snake != []
    requires Moved(s.snake[0], s.direction) in s.snake
    ensures var r := Tick(s, nextFood);
      r.gameOver && !r.isPlaying &&
      r.snake == s.snake && r.food == s.food && r.direction == s.direction && r.score == s.score
  {}

  /** A free head cell: the snake gains the new head; it keeps its tail and
      scores FOOD_SCORE exactly when the head reaches the food (which then moves
      to `nextFood`), and otherwise drops its tail, keeping length and score. */
  lemma TickAdvances(s: GameState, nextFood: Position)
    requires !s.gameOver && s.isPlaying && s.snake != []
    requires InBounds(Moved(s.snake[0], s.direction))
    requires Moved(s.snake[0], s.direction) !in s.snake
    ensures var r := Tick(s, nextFood);
      var head := Moved(s.snake[0], s.direction);
      var eats := head == s.food;
      && !r.gameOver && r.isPlaying && r.direction == s.direction
      && r.snake[0] == head
      && r.snake[1..] == (if eats then s.snake else s.snake[..|s.snake| - 1])
      && |r.snake| == (if eats then |s.snake| + 1 else |s.snake|)
      && r.score == (if eats then s.score + FOOD_SCORE else s.score)
      && r.food == (if eats then nextFood else s.food)
  {}

  /** Whatever happens in a tick, the score rises by FOOD_SCORE or not at all,
      and the snake grows by one segment exactly when it does. */
  lemma TickScoresByLength(s: GameState, nextFood: Position)
    ensures var r := Tick(s, nextFood);
      (r.score == s.score && |r.snake| == |s.snake|) ||
      (r.score == s.score + FOOD_SCORE && |r.snake| == |s.snake| + 1)
  {}

  /** The invariant of every reachable state: a non-empty snake whose segments
      are on the board and pairwise different, and a score of FOOD_SCORE per
      segment grown. */
  predicate WellFormed(s: GameState): (b: bool)
    ensures b ==> |s.snake| <= CELL_COUNT && 0 <= s.score <= FOOD_SCORE * (CELL_COUNT - 1)
  {
    if && s.snake != []
       && AllInBounds(s.snake)
       && Distinct(s.snake)
       && s.score == FOOD_SCORE * (|s.snake| - 1)
    then
      DistinctCellsFit(s.snake);
      true
    else
      false
  }

  /** The first render's values: a one-segment snake at (10, 10) heading
      right, food at (15, 15), score 0, neither playing nor over; they
      satisfy the invariant. */
  lemma InitialWellFormed()
    ensures INITIAL.snake == [Position(10, 10)] && INITIAL.food == Position(15, 15)
    ensures INITIAL.direction == Right && INITIAL.score == 0
    ensures !INITIAL.gameOver && !INITIAL.isPlaying
    ensures WellFormed(INITIAL)
  {}

  /** The wall and self checks run before the head is added, so a tick keeps
      the segments on the board and pairwise different. */
  lemma TickPreservesWellFormed(s: GameState, nextFood: Position)
    requires WellFormed(s)
    ensures WellFormed(Tick(s, nextFood))
  {}

  /** A direction change as the four arrow-key updaters perform it: the wanted
      direction, unless it is the reverse of the current one. */
  function Turn(current: Direction, wanted: Direction): (r: Direction)
    ensures r != Opposite(current)
    ensures r == wanted <==> wanted != Opposite(current)
    ensures r != wanted ==> r == current
  {
    if current != Opposite(wanted) then wanted else current
  }

  datatype Key = ArrowUp | ArrowDown | ArrowLeft | ArrowRight | Space | OtherKey

  predicate IsArrow(k: Key) {
    k == ArrowUp || k == ArrowDown || k == ArrowLeft || k == ArrowRight
  }

  function ArrowDirection(k: Key): Direction
    requires IsArrow(k)
  {
    match k
    case ArrowUp => Up
    case ArrowDown => Down
    case ArrowLeft => Left
    case ArrowRight => Right
  }

  /** Resetting: every field back to its initial value, whatever the state. */
  function Reset(s: GameState): (r: GameState)
    ensures r.snake == [Position(10, 10)] && r.food == Position(15, 15) && r.direction == Right
    ensures WellFormed(r) && !r.gameOver && !r.isPlaying && r.score == 0
  {
    INITIAL
  }

  /** The Start button. */
  function Start(s: GameState): (r: GameState)
    ensures r.isPlaying
    ensures WellFormed(r) <==> WellFormed(s)
    ensures r.(isPlaying := s.isPlaying) == s
    ensures forall f :: Tick(r, f) == r <==> r.gameOver || r.snake == []
  {
    s.(isPlaying := true)
  }

  /** The Pause button. */
  function Pause(s: GameState): (r: GameState)
    ensures !r.isPlaying
    ensures WellFormed(r) <==> WellFormed(s)
    ensures r.(isPlaying := s.isPlaying) == s
    ensures forall f :: Tick(r, f) == r
  {
    s.(isPlaying := false)
  }

  /** The keyboard handler. Keys arriving while neither playing nor over are
      dropped; an arrow turns the snake unless it would reverse it; Space
      resets a finished game and otherwise flips `isPlaying`. */
  function KeyPress(s: GameState, k: Key): (r: GameState)
    ensures k != Space ==> r == s.(direction := r.direction)
    ensures k != Space ==> r.direction != Opposite(s.direction)
    ensures IsArrow(k) && (s.isPlaying || s.gameOver) ==>
      r.direction == if ArrowDirection(k) == Opposite(s.direction) then s.direction else ArrowDirection(k)
    ensures k == OtherKey ==> r == s
    ensures k == Space ==> r == INITIAL || r == s.(isPlaying := !s.isPlaying) || r == s
    ensures r.snake == s.snake || r == INITIAL
    ensures WellFormed(s) ==> WellFormed(r)
  {
    if !s.isPlaying && !s.gameOver then s
    else
      match k
      case ArrowUp => s.(direction := Turn(s.direction, Up))
      case ArrowDown => s.(direction := Turn(s.direction, Down))
      case ArrowLeft => s.(direction := Turn(s.direction, Left))
      case ArrowRight => s.(direction := Turn(s.direction, Right))
      case Space => if s.gameOver then Reset(s) else s.(isPlaying := !s.isPlaying)
      case OtherKey => s
  }

  /** Before the game starts and while it is paused every key is dropped; in
      particular Space cannot resume a paused game from the keyboard. */
  lemma KeyIgnoredWhileStopped(s: GameState, k: Key)
    requires !s.isPlaying && !s.gameOver
    ensures KeyPress(s, k) == s
  {}

  /** An arrow key (accepted while playing and also after the game is over)
      changes only the direction, takes the key's direction when that is not
      the reverse of the current one, and never reverses the snake. */
  lemma ArrowNeverReverses(s: GameState, k: Key)
    requires s.isPlaying || s.gameOver
    requires IsArrow(k)
    ensures var r := KeyPress(s, k);
      && r == s.(direction := r.direction)
      && r.direction != Opposite(s.direction)
      && (r.direction == ArrowDirection(k) <==> ArrowDirection(k) != Opposite(s.direction))
      && (ArrowDirection(k) == Opposite(s.direction) ==> r.direction == s.direction)
  {}

  /** Space after the game is over restores the initial state. */
  lemma SpaceWhenOverResets(s: GameState)
    requires s.gameOver
    ensures KeyPress(s, Space) == INITIAL
    ensures KeyPress(s, Space).snake == [Position(10, 10)] && KeyPress(s, Space).score == 0
  {}

  /** Space during play pauses the game and changes nothing else. */
  lemma SpaceWhilePlayingPauses(s: GameState)
    requires s.isPlaying && !s.gameOver
    ensures KeyPress(s, Space) == s.(isPlaying := false)
  {}

  /** Each updater compares the key with the direction currently stored, not
      with the direction of the last move, so two arrow presses inside one
      tick can point the snake straight back: from any playing state, a
      perpendicular arrow followed by the reverse arrow gives the reverse
      direction, and when the second segment lies behind the head the next
      tick ends the game. */
  lemma TwoPressesReverse(s: GameState, nextFood: Position)
    requires s.isPlaying && !s.gameOver
    ensures var side := if Vertical(s.direction) then ArrowLeft else ArrowUp;
      var back := match Opposite(s.direction)
        case Up => ArrowUp case Down => ArrowDown case Left => ArrowLeft case Right => ArrowRight;
      var r := KeyPress(KeyPress(s, side), back);
      && r.direction == Opposite(s.direction)
      && (|s.snake| >= 2 && s.snake[1] == Moved(s.snake[0], Opposite(s.direction)) ==>
            Tick(r, nextFood).gameOver)
  {}

  /** Everything the player or the timer can do to the game. */
  datatype Event =
    | TickEvent(nextFood: Position)
    | KeyEvent(key: Key)
    | StartClick
    | PauseClick
    | ResetClick

  function Step(s: GameState, e: Event): GameState {
    match e
    case TickEvent(f) => Tick(s, f)
    case KeyEvent(k) => KeyPress(s, k)
    case StartClick => Start(s)
    case PauseClick => Pause(s)
    case ResetClick => Reset(s)
  }

  function Run(s: GameState, events: seq<Event>): GameState
    decreases |events|
  {
    if events == [] then s else Run(Step(s, events[0]), events[1..])
  }

  lemma StepPreservesWellFormed(s: GameState, e: Event)
    requires WellFormed(s)
    ensures WellFormed(Step(s, e))
  {}

  /** From any well-formed state (the initial one included, InitialWellFormed),
      every sequence of ticks, keys and button clicks keeps the snake on the
      board, free of overlaps, at most CELL_COUNT long, and the score at FOOD_SCORE per piece of food eaten. */
  lemma {:induction false} RunPreservesWellFormed(s: GameState, events: seq<Event>)
    requires WellFormed(s)
    ensures WellFormed(Run(s, events))
    ensures |Run(s, events).snake| <= CELL_COUNT
    decreases |events|
  {
    if events != [] {
      StepPreservesWellFormed(s, events[0]);
      RunPreservesWellFormed(Step(s, events[0]), events[1..]);
    }
  }
}
