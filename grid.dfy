/** Geometry of the Snake board: grid positions, the four directions, the
    one-cell move of the head, and the row-major numbering of the
    GRID_SIZE × GRID_SIZE cells that the board renderer walks through. */
module Grid {

  /** Side length of the square board, in cells. */
  const GRID_SIZE: int := 20

  /** Number of cells on the board. */
  const CELL_COUNT: int := GRID_SIZE * GRID_SIZE

  datatype Position = Position(x: int, y: int)

  /** Screen directions: y grows downwards, x grows to the right. */
  datatype Direction = Up | Down | Left | Right

  function Abs(n: int): int { if n < 0 then -n else n }

  predicate Vertical(d: Direction) { d == Up || d == Down }

  /** The direction a snake moving in `d` would have to take to turn back onto itself. */
  function Opposite(d: Direction): (r: Direction)
    ensures r != d
    ensures Vertical(r) == Vertical(d)
  {
    match d
    case Up => Down
    case Down => Up
    case Left => Right
    case Right => Left
  }

  /** The cell next to `p` in direction `d`: the head's new position after one tick. */
  function Moved(p: Position, d: Direction): (q: Position)
    ensures Abs(q.x - p.x) + Abs(q.y - p.y) == 1
    ensures Vertical(d) <==> q.x == p.x
    ensures q.x + q.y < p.x + p.y <==> d == Up || d == Left
  {
    match d
    case Up => p.(y := p.y - 1)
    case Down => p.(y := p.y + 1)
    case Left => p.(x := p.x - 1)
    case Right => p.(x := p.x + 1)
  }

  /** Moving one cell and then one cell back the other way returns to the start. */
  lemma MovedThenBack(p: Position, d: Direction)
    ensures Moved(Moved(p, d), Opposite(d)) == p
  {}

  /** The wall test of a tick: a position is on the board when both coordinates lie in [0, GRID_SIZE). */
  predicate InBounds(p: Position): (b: bool)
    ensures b <==> 0 <= CellIndex(p) < CELL_COUNT && CellAt(CellIndex(p)) == p
  {
    0 <= p.x < GRID_SIZE && 0 <= p.y < GRID_SIZE
  }

  /** Row-major number of a cell: the renderer's index for the cell at `p`. */
  function CellIndex(p: Position): (i: int)
    ensures 0 <= p.x < GRID_SIZE && 0 <= p.y < GRID_SIZE ==>
      0 <= i < CELL_COUNT && i % GRID_SIZE == p.x && i / GRID_SIZE == p.y
  {
    p.y * GRID_SIZE + p.x
  }

  /** The cell the renderer draws at index `i`: column i % GRID_SIZE, row i / GRID_SIZE
      (for the non-negative indices used, Euclidean division agrees with Math.floor). */
  function CellAt(i: int): (p: Position)
    ensures 0 <= i < CELL_COUNT ==>
      0 <= p.x < GRID_SIZE && 0 <= p.y < GRID_SIZE && p.y * GRID_SIZE + p.x == i
  {
    Position(i % GRID_SIZE, i / GRID_SIZE)
  }

  /** Numbering an on-board cell and decoding the number gives the cell back. */
  lemma CellIndexRoundTrip(p: Position)
    requires InBounds(p)
    ensures 0 <= CellIndex(p) < CELL_COUNT
    ensures CellAt(CellIndex(p)) == p
  {}

  /** Decoding an index of the board and numbering the cell gives the index back. */
  lemma CellAtRoundTrip(i: int)
    requires 0 <= i < CELL_COUNT
    ensures InBounds(CellAt(i))
    ensures CellIndex(CellAt(i)) == i
  {}

  /** Two on-board cells with the same number are the same cell. */
  lemma CellIndexInjective(p: Position, q: Position)
    requires InBounds(p) && InBounds(q)
    requires CellIndex(p) == CellIndex(q)
    ensures p == q
  {}

  predicate AllInBounds(cells: seq<Position>) {
    forall i :: 0 <= i < |cells| ==> InBounds(cells[i])
  }

  predicate Distinct<T(==)>(s: seq<T>) {
    forall i, j :: 0 <= i < j < |s| ==> s[i] != s[j]
  }

  /** Pigeonhole: distinct on-board cells are at most as many as the board has. */
  lemma DistinctCellsFit(cells: seq<Position>)
    requires AllInBounds(cells) && Distinct(cells)
    ensures |cells| <= CELL_COUNT
  {
    var indices := seq(|cells|, k requires 0 <= k < |cells| => CellIndex(cells[k]));
    forall i, j | 0 <= i < j < |indices| ensures indices[i] != indices[j] {
      if indices[i] == indices[j] {
        CellIndexInjective(cells[i], cells[j]);
      }
    }
    forall k | 0 <= k < |indices| ensures 0 <= indices[k] < CELL_COUNT {
      CellIndexRoundTrip(cells[k]);
    }
    DistinctBelow(indices, CELL_COUNT);
  }

  /** Distinct integers drawn from [0, n) number at most n. */
  lemma DistinctBelow(s: seq<int>, n: nat)
    requires Distinct(s)
    requires forall k :: 0 <= k < |s| ==> 0 <= s[k] < n
    ensures |s| <= n
  {
    var elems := set v | v in s;
    DistinctElementCount(s);
    assert elems <= Below(n);
    assert Below(n) == elems + (Below(n) - elems);
  }

  lemma {:induction false} DistinctElementCount<T>(s: seq<T>)
    requires Distinct(s)
    ensures |set v | v in s| == |s|
  {
    if s != [] {
      DistinctElementCount(s[1..]);
      assert (set v | v in s) == {s[0]} + (set v | v in s[1..]);
      assert s[0] !in s[1..];
    }
  }

  /** The set {0, ..., n-1}. */
  function Below(n: nat): (r: set<int>)
    ensures forall v :: v in r <==> 0 <= v < n
    ensures |r| == n
  {
    if n == 0 then {} else Below(n - 1) + {n - 1}
  }
}
