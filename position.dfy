/** Board coordinates and one-square steps (src/board.rs, duplicated in src/board/position.rs). */
module Geometry {

  /** A square, 0-indexed; both coordinates are `usize` in the source. */
  datatype Position = Position(row: nat, col: nat)

  datatype Direction = North | East | South | West

  /** Stepping South or West from coordinate 0 underflows `usize` in the source (a panic). */
  predicate CanStep(p: Position, d: Direction)
  {
    match d
    case South => p.row > 0
    case West => p.col > 0
    case _ => true
  }

  /** Orthogonal neighbours. */
  predicate Adjacent(p: Position, q: Position)
  {
    (p.row == q.row && (p.col + 1 == q.col || q.col + 1 == p.col)) ||
    (p.col == q.col && (p.row + 1 == q.row || q.row + 1 == p.row))
  }

  /** `Position::go`: the neighbouring square in direction `d`. */
  function Go(p: Position, d: Direction): (r: Position)
    requires CanStep(p, d)
    ensures r.row == p.row <==> (d == East || d == West)
    ensures (d == North || d == East) <==> r.row + r.col > p.row + p.col
  {
    match d
    case North => Position(p.row + 1, p.col)
    case South => Position(p.row - 1, p.col)
    case East => Position(p.row, p.col + 1)
    case West => Position(p.row, p.col - 1)
  }

  /** A step reaches an orthogonal neighbour. */
  lemma GoAdjacent(p: Position, d: Direction)
    requires CanStep(p, d)
    ensures Adjacent(p, Go(p, d))
  {
  }

  function Opposite(d: Direction): Direction
  {
    match d
    case North => South
    case South => North
    case East => West
    case West => East
  }

  /** A step followed by the opposite step returns to the start. */
  lemma GoThenOpposite(p: Position, d: Direction)
    requires CanStep(p, d)
    ensures CanStep(Go(p, d), Opposite(d)) && Go(Go(p, d), Opposite(d)) == p
  {
  }

  /** A position is on an `n` by `n` board (`valid_pos`). */
  predicate OnBoard(n: nat, p: Position)
  {
    p.row < n && p.col < n
  }

  /** `j` steps from `p` in direction `d` stay at non-negative coordinates. */
  predicate CanHop(p: Position, d: Direction, j: nat)
  {
    match d
    case South => p.row >= j
    case West => p.col >= j
    case _ => true
  }

  /** The square `j` steps from `p` in direction `d`. */
  function Hop(p: Position, d: Direction, j: nat): (r: Position)
    requires CanHop(p, d, j)
    ensures j == 0 ==> r == p
  {
    match d
    case North => Position(p.row + j, p.col)
    case South => Position(p.row - j, p.col)
    case East => Position(p.row, p.col + j)
    case West => Position(p.row, p.col - j)
  }

  /** One more hop is one more step. */
  lemma HopStep(p: Position, d: Direction, j: nat)
    requires CanHop(p, d, j + 1)
    ensures CanStep(Hop(p, d, j), d) && Hop(p, d, j + 1) == Go(Hop(p, d, j), d)
  {
  }

  /** Distinct hop counts reach distinct squares. */
  lemma HopInjective(p: Position, d: Direction, i: nat, j: nat)
    requires CanHop(p, d, i) && CanHop(p, d, j)
    ensures Hop(p, d, i) == Hop(p, d, j) <==> i == j
  {
  }
}
