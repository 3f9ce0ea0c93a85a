/** What the board shows: each of the CELL_COUNT cells, walked in row-major
    order, is drawn as food, the snake's head, its body, or empty. Food is
    drawn over the head and the head over the body. */
module Board {
  import opened Grid

  datatype Cell = Empty | Body | Head | Food

  /** The drawing of cell number `i`. */
  function Classify(snake: seq<Position>, food: Position, i: int): (c: Cell)
    ensures c == Food <==> CellAt(i) == food
    ensures c == Head ==> snake != [] && snake[0] == CellAt(i)
    ensures c == Body ==> CellAt(i) in snake && snake[0] != CellAt(i)
    ensures c == Empty <==> CellAt(i) !in snake && CellAt(i) != food
  {
    var p := CellAt(i);
    var isSnake := p in snake;
    var isHead := |snake| > 0 && snake[0] == p;
    var isFood := food == p;
    if isFood then Food
    else if isHead then Head
    else if isSnake then Body
    else Empty
  }

  /** The whole board, one cell per index 0 .. CELL_COUNT - 1. */
  function Render(snake: seq<Position>, food: Position): (board: seq<Cell>)
    ensures |board| == CELL_COUNT
  {
    seq(CELL_COUNT, i requires 0 <= i < CELL_COUNT => Classify(snake, food, i))
  }

  /** The cell of an on-board position `p` is drawn by the precedence food,
      head, body, empty. */
  lemma RenderAt(snake: seq<Position>, food: Position, p: Position)
    requires InBounds(p)
    ensures 0 <= CellIndex(p) < CELL_COUNT
    ensures Render(snake, food)[CellIndex(p)] ==
      if food == p then Food
      else if snake != [] && snake[0] == p then Head
      else if p in snake then Body
      else Empty
  {}

  /** Every on-board segment shows up: as the head, the body, or hidden under
      the food; a cell is empty exactly when neither the snake nor the food
      occupies it. */
  lemma RenderShowsSnake(snake: seq<Position>, food: Position)
    requires AllInBounds(snake)
    ensures forall k :: 0 <= k < |snake| ==>
      0 <= CellIndex(snake[k]) < CELL_COUNT &&
      Render(snake, food)[CellIndex(snake[k])] != Empty
    ensures forall i :: 0 <= i < CELL_COUNT ==>
      (Render(snake, food)[i] == Empty <==> CellAt(i) !in snake && CellAt(i) != food)
  {}

  /** At most one cell is drawn as the head and at most one as the food. */
  lemma RenderMarksOnce(snake: seq<Position>, food: Position, i: int, j: int)
    requires 0 <= i < CELL_COUNT && 0 <= j < CELL_COUNT
    requires Render(snake, food)[i] == Render(snake, food)[j]
    requires Render(snake, food)[i] == Head || Render(snake, food)[i] == Food
    ensures i == j
  {}

  /** The head is drawn in its own cell unless the food is drawn over it. */
  lemma RenderHead(snake: seq<Position>, food: Position)
    requires snake != [] && InBounds(snake[0]) && snake[0] != food
    ensures 0 <= CellIndex(snake[0]) < CELL_COUNT
    ensures Render(snake, food)[CellIndex(snake[0])] == Head
    ensures forall i :: 0 <= i < CELL_COUNT && Render(snake, food)[i] == Head ==> i == CellIndex(snake[0])
  {}
}
