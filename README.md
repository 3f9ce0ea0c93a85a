# Snake game state, modelled in Dafny

A browser Snake game keeps six pieces of component state: the snake (a
sequence of grid cells, head first), the food cell, the direction of travel,
the `gameOver` and `isPlaying` flags, and the score. A timer advances the
game one tick at a time. A keyboard handler and three buttons (Start,
Pause, Reset) change the direction and the flags. The board renderer draws
each of the 20 × 20 cells as food, head, body or empty.

The project has four modules:

- `Grid` (grid.dfy): positions, directions, the one-cell move, the wall test,
  the row-major cell numbering the renderer uses, and a pigeonhole bound
  (distinct on-board cells number at most 400).
- `Rules` (rules.dfy): the state as a value (`GameState`), and the tick, the
  key handler, and the Start, Pause and Reset actions as functions on it. It
  also holds the invariant `WellFormed`: a non-empty snake, every segment on
  the board, no two segments alike, and score = 10 × (length − 1). Lemmas
  state what each step does and show that every sequence of steps keeps the
  invariant.
- `Board` (board.dfy): the cell classification and the board as a sequence
  of 400 cells.
- `Engine` (game.dfy): the class `Game`, whose fields are the six pieces of
  state. Its methods update the fields in place as the handlers do, and each
  is proved to produce exactly the state that its `Rules` function computes.
  The self-collision scan is a loop (`HitsBody`).

Each tick and each key press is one atomic step that reads one consistent
state and writes the next. The random cell the food moves to is a parameter
of the tick (`nextFood`) and is unconstrained: the code never checks it
against the snake, so nothing here promises that food lands off the body.

Where this code differs from how such a game is often described, the model
follows the code:

- There is no high score.
- The food is placed once, with no retry loop.
- The state is two booleans, not an idle/playing/paused/over enumeration.
- Arrow keys are still accepted after the game is over.
- Space cannot resume a paused game. The key gate at src/App.tsx:101 drops
  every key while the game is neither playing nor over, although the pause
  overlay and the instructions (src/App.tsx:242, src/App.tsx:251) tell the
  player that space resumes.
- The no-reversal rule compares against the stored direction, not the
  direction of the last move. Two arrow presses within one tick can
  therefore point the snake back onto its own neck (`Rules.TwoPressesReverse`).

## Model

| member | source | states |
|---|---|---|
| Grid.Opposite | src/App.tsx:106-118 | each direction's reverse is a different direction on the same axis |
| Grid.Moved | src/App.tsx:46-62 | the new head is the adjacent cell (Manhattan distance 1), on the vertical axis exactly for UP/DOWN, towards smaller coordinates exactly for UP/LEFT |
| Grid.InBounds | src/App.tsx:65 | the wall test holds exactly for the cells the renderer draws: those whose row-major index lies in [0, 400) and decodes back to the cell |
| Grid.CellIndex | src/App.tsx:196-198 | an on-board cell's index lies in [0, 400) and has remainder x and quotient y by 20 |
| Grid.CellAt | src/App.tsx:196-198 | an index in [0, 400) decodes to an on-board cell whose row-major index is that index |
| Grid.MovedThenBack | src/App.tsx:46-62 | a move followed by a move in the opposite direction returns to the start cell |
| Grid.CellIndexRoundTrip | src/App.tsx:196-198 | an on-board cell's row-major index lies in [0, 400) and decodes (x = i % 20, y = i / 20) back to the cell |
| Grid.CellAtRoundTrip | src/App.tsx:196-198 | every board index decodes to an on-board cell whose row-major index is the index again |
| Grid.DistinctCellsFit | src/App.tsx:11 | distinct on-board cells number at most GRID_SIZE² = 400 |
| Rules.Tick | src/App.tsx:41-90 | a tick never changes the direction; it adds 0 or 10 points, and moves the food only when it adds 10; the snake either stays as it was or becomes the moved head followed by a prefix of the old snake; a game that ends in it is no longer playing. Case by case: TickWhileStopped, TickIntoWall, TickIntoSelf, TickAdvances |
| Rules.TickWhileStopped | src/App.tsx:41-42 | a tick leaves every field unchanged when the game is over or not playing |
| Rules.TickIntoWall | src/App.tsx:64-69 | a head outside [0, 20) on either axis sets gameOver, clears isPlaying, and leaves snake, food, direction and score as they were |
| Rules.TickIntoSelf | src/App.tsx:71-76 | a head on any current segment, tail included, sets gameOver, clears isPlaying, and leaves everything else as it was |
| Rules.TickAdvances | src/App.tsx:78-88 | on a free cell the new snake is the new head followed by the old snake; on food it grows by one, the score rises by 10 and the food moves to the supplied cell; otherwise the tail is dropped and length, score and food stay |
| Rules.TickScoresByLength | src/App.tsx:78-86 | every tick either keeps score and length or adds exactly 10 points and exactly one segment |
| Rules.InitialWellFormed | src/App.tsx:11-14 | the initial state INITIAL is snake [(10,10)], food (15,15), direction RIGHT, score 0, neither over nor playing, and satisfies the invariant |
| Rules.WellFormed | src/App.tsx:11-14 | the invariant (non-empty snake, every segment on the board, no repeated segment, score 10 per segment grown) bounds the snake at 400 segments and the score to [0, 3990]; kept by every step (TickPreservesWellFormed, StepPreservesWellFormed) |
| Rules.TickPreservesWellFormed | src/App.tsx:64-88 | a tick keeps the snake non-empty, on the board and free of repeated cells, and the score at 10 per segment grown |
| Rules.Turn | src/App.tsx:106-118 | an arrow updater never yields the reverse of the current direction; it yields the key's direction exactly when that is not the reverse, and otherwise keeps the current one |
| Rules.Reset | src/App.tsx:32-39 | whatever the state before, a reset gives snake [(10,10)], food (15,15), direction RIGHT, score 0, neither over nor playing, a well-formed state |
| Rules.Start | src/App.tsx:135-137 | Start sets isPlaying and leaves the other five fields as they were; it keeps the invariant both ways, and whatever the next food, the next tick moves the state unless the game is over |
| Rules.Pause | src/App.tsx:139-141 | Pause clears isPlaying and leaves the other five fields as they were; it keeps the invariant both ways, and every tick then leaves the state unchanged |
| Rules.KeyPress | src/App.tsx:100-129 | a key other than Space changes only the direction and never to the reverse of the current one; an accepted arrow sets the key's direction, or keeps the current one when the key is its reverse; any other key changes nothing; Space resets, flips isPlaying, or is dropped; the snake changes only by a reset; the invariant is kept. Case by case: KeyIgnoredWhileStopped, ArrowNeverReverses, SpaceWhenOverResets, SpaceWhilePlayingPauses |
| Rules.KeyIgnoredWhileStopped | src/App.tsx:101 | every key is dropped while neither playing nor over, so Space cannot resume a paused game |
| Rules.ArrowNeverReverses | src/App.tsx:103-119 | an arrow key changes only the direction, never to the reverse of the current one; it sets the key's direction exactly when that is not the reverse, and otherwise keeps the current direction |
| Rules.SpaceWhenOverResets | src/App.tsx:120-123 | Space after game over yields snake [(10,10)], food (15,15), direction RIGHT, score 0, not over, not playing |
| Rules.SpaceWhilePlayingPauses | src/App.tsx:124-126 | Space during play clears isPlaying and changes nothing else |
| Rules.TwoPressesReverse | src/App.tsx:106-118 | from any playing state a perpendicular arrow and then the reverse arrow set the reverse direction; when the second segment lies behind the head, the next tick then ends the game |
| Rules.StepPreservesWellFormed | src/App.tsx:32-141 | every tick, key press and button click keeps the invariant |
| Rules.RunPreservesWellFormed | src/App.tsx:32-141 | every sequence of ticks, keys and clicks from a well-formed state keeps the invariant and keeps the snake at most 400 long |
| Board.Classify | src/App.tsx:196-215 | a cell is drawn as food exactly when the food is on it; as the head only when the first segment is on it; as body only when a later segment but not the head is on it; empty exactly when neither snake nor food is on it |
| Board.Render | src/App.tsx:196 | the board has GRID_SIZE² cells |
| Board.RenderAt | src/App.tsx:196-215 | the cell of an on-board position is drawn as food over head over body over empty |
| Board.RenderShowsSnake | src/App.tsx:200-215 | every on-board segment's cell is drawn non-empty, and a cell is empty exactly when neither a segment nor the food is on it |
| Board.RenderMarksOnce | src/App.tsx:201-202 | no two different cells are both drawn as head, or both as food |
| Board.RenderHead | src/App.tsx:201-211 | an on-board head not under the food is drawn as the head in its own cell and in no other cell |
| Engine.HitsBody | src/App.tsx:72 | the scan reports a hit exactly when some segment equals the new head |
| Engine.Game.constructor | src/App.tsx:17-22 | the fields start at the initial state, which satisfies the invariant |
| Engine.Game.ResetGame | src/App.tsx:32-39 | the fields become the reset state |
| Engine.Game.MoveSnake | src/App.tsx:41-90 | the in-place tick leaves exactly the state `Rules.Tick` computes and keeps the invariant |
| Engine.Game.HandleKey | src/App.tsx:100-129 | the in-place key handler leaves exactly the state `Rules.KeyPress` computes and keeps the invariant |
| Engine.Game.StartGame | src/App.tsx:135-137 | Start sets isPlaying and changes nothing else |
| Engine.Game.PauseGame | src/App.tsx:139-141 | Pause clears isPlaying and changes nothing else |

## Left out

- Food placement (src/App.tsx:24-30) uses `Math.random`. The model takes the new food cell as an unconstrained parameter of the tick.
- The 150 ms interval timer (src/App.tsx:93-96) and the keydown listener registration (src/App.tsx:131-132) are left out. A tick or a key press is one atomic step.
- React state batching and stale closures are left out. Each step reads one consistent state and writes the next.
- `preventDefault`, the JSX layout, CSS classes, icons and overlays are presentational and left out. The model keeps the cell classification only.
- Button visibility is left out. Start is shown only when neither playing nor over, and Pause only while playing. `Engine.Game.StartGame` and `Engine.Game.PauseGame` model the handlers as they run, whatever is on screen.
- Coordinates and the score are unbounded integers. The source uses JavaScript numbers. Under the invariant every value stays below 4000, so the two agree.
- The empty snake is unreachable. For it, `Rules.Tick` returns the state unchanged, which is what the source computes (a head without coordinates fails every comparison, and `unshift` then `pop` leaves the snake empty).
- High-score persistence and touch-swipe input do not exist in this code, so they are not modelled.
