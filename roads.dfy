/** What a road is, and the facts the breadth-first road search of src/simulator/logic.rs
    relies on. */
module Roads {
  import opened Options
  import opened Player
  import opened Pieces
  import opened Geometry
  import opened Boards

  /** A square on the board whose top is a flat stone or a cap stone of colour `c`
      (`qualifies`). */
  predicate Qualifies(st: BoardState, c: Color, p: Position)
    requires st.Valid()
  {
    st.ValidPos(p) && st.At(p).IsRoad() && st.At(p).TopColor() == Some(c)
  }

  /** The edge a search in direction `dir` starts from. */
  predicate IsStart(n: nat, dir: Direction, p: Position)
  {
    match dir
    case North => p.row == 0
    case South => p.row + 1 == n
    case East => p.col == 0
    case West => p.col + 1 == n
  }

  /** The edge a search in direction `dir` must reach (`is_goal`). */
  predicate IsGoal(n: nat, dir: Direction, p: Position)
  {
    match dir
    case North => p.row + 1 == n
    case South => p.row == 0
    case East => p.col + 1 == n
    case West => p.col == 0
  }

  /** The `ix`-th square of the start edge, as the initial frontier enumerates it. */
  function StartSquare(n: nat, dir: Direction, ix: nat): (p: Position)
    requires 0 < n
    ensures IsStart(n, dir, p)
    ensures ix < n ==> OnBoard(n, p)
  {
    match dir
    case North => Position(0, ix)
    case South => Position(n - 1, ix)
    case East => Position(ix, 0)
    case West => Position(ix, n - 1)
  }

  /** Every start square is enumerated by its index along the edge. */
  lemma StartSquareIndex(n: nat, dir: Direction, p: Position)
    requires OnBoard(n, p) && IsStart(n, dir, p)
    ensures var ix := if dir == North || dir == South then p.col else p.row;
      ix < n && StartSquare(n, dir, ix) == p
  {
  }

  /** `collect_neighbours`: the squares one step away that are still on the board. */
  function Neighbours(n: nat, p: Position): (r: set<Position>)
    ensures OnBoard(n, p) ==> forall q :: q in r <==> OnBoard(n, q) && Adjacent(p, q)
  {
    var west := if p.col > 0 then {Go(p, West)} else {};
    var east := if p.col < n - 1 then {Go(p, East)} else {};
    var south := if p.row > 0 then {Go(p, South)} else {};
    var north := if p.row < n - 1 then {Go(p, North)} else {};
    west + east + south + north
  }

  /** Every square of `path` qualifies for `c`, and consecutive squares are neighbours. */
  ghost predicate IsChain(st: BoardState, c: Color, path: seq<Position>)
    requires st.Valid()
  {
    (forall i :: 0 <= i < |path| ==> Qualifies(st, c, path[i])) &&
    (forall i :: 0 < i < |path| ==> Adjacent(path[i - 1], path[i]))
  }

  /** A chain from the start edge of `dir` to the square `p`. */
  ghost predicate IsChainTo(st: BoardState, c: Color, dir: Direction, path: seq<Position>, p: Position)
    requires st.Valid()
  {
    |path| > 0 && IsStart(st.Size(), dir, path[0]) && path[|path| - 1] == p && IsChain(st, c, path)
  }

  /** `p` can be reached from the start edge through squares that qualify for `c`. */
  ghost predicate Reachable(st: BoardState, c: Color, dir: Direction, p: Position)
    requires st.Valid()
  {
    exists path :: IsChainTo(st, c, dir, path, p)
  }

  /** A road of colour `c` joins the start edge of `dir` to its goal edge. */
  ghost predicate HasRoad(st: BoardState, c: Color, dir: Direction)
    requires st.Valid()
  {
    exists p :: IsGoal(st.Size(), dir, p) && Reachable(st, c, dir, p)
  }

  /** `c` has won: a road joins row 0 to the last row, or column 0 to the last column. */
  ghost predicate Won(st: BoardState, c: Color)
    requires st.Valid()
  {
    HasRoad(st, c, North) || HasRoad(st, c, East)
  }

  /** A qualifying start square is reachable on its own. */
  lemma StartReachable(st: BoardState, c: Color, dir: Direction, p: Position)
    requires st.Valid() && Qualifies(st, c, p) && IsStart(st.Size(), dir, p)
    ensures Reachable(st, c, dir, p)
  {
    assert IsChainTo(st, c, dir, [p], p);
  }

  /** A reachable square extends its reach to every qualifying neighbour. */
  lemma ExtendReach(st: BoardState, c: Color, dir: Direction, p: Position, q: Position)
    requires st.Valid() && Reachable(st, c, dir, p) && Qualifies(st, c, q) && Adjacent(p, q)
    ensures Reachable(st, c, dir, q)
  {
    var path :| IsChainTo(st, c, dir, path, p);
    var longer := path + [q];
    assert forall i :: 0 <= i < |path| ==> longer[i] == path[i];
    assert IsChainTo(st, c, dir, longer, q);
  }

  /** A set of squares that holds every qualifying start square and every qualifying
      neighbour of its members holds every square of every chain from the start edge. */
  lemma {:induction false} ClosedHoldsChain(st: BoardState, c: Color, dir: Direction,
                                             seen: set<Position>, path: seq<Position>)
    requires st.Valid() && |path| > 0 && IsStart(st.Size(), dir, path[0]) && IsChain(st, c, path)
    requires forall p :: Qualifies(st, c, p) && IsStart(st.Size(), dir, p) ==> p in seen
    requires forall p, q :: p in seen && q in Neighbours(st.Size(), p) && Qualifies(st, c, q) ==> q in seen
    ensures path[|path| - 1] in seen
  {
    var n := |path|;
    if n > 1 {
      var prefix := path[..n - 1];
      assert forall i :: 0 <= i < |prefix| ==> prefix[i] == path[i];
      assert IsChain(st, c, prefix);
      ClosedHoldsChain(st, c, dir, seen, prefix);
      assert Qualifies(st, c, path[n - 2]) && Adjacent(path[n - 2], path[n - 1]);
      assert path[n - 1] in Neighbours(st.Size(), path[n - 2]);
    } else {
      assert Qualifies(st, c, path[0]);
    }
  }

  /** If such a closed set holds no goal square, there is no road. */
  lemma NoRoadOutside(st: BoardState, c: Color, dir: Direction, seen: set<Position>)
    requires st.Valid()
    requires forall p :: Qualifies(st, c, p) && IsStart(st.Size(), dir, p) ==> p in seen
    requires forall p, q :: p in seen && q in Neighbours(st.Size(), p) && Qualifies(st, c, q) ==> q in seen
    requires forall p :: p in seen ==> !IsGoal(st.Size(), dir, p)
    ensures !HasRoad(st, c, dir)
  {
    if HasRoad(st, c, dir) {
      var p :| IsGoal(st.Size(), dir, p) && Reachable(st, c, dir, p);
      var path :| IsChainTo(st, c, dir, path, p);
      ClosedHoldsChain(st, c, dir, seen, path);
      assert false;
    }
  }

  /** Every square of an `n` by `n` board. */
  function AllSquares(n: nat): (r: set<Position>)
    ensures forall p {:trigger p in r} :: p in r <==> OnBoard(n, p)
  {
    var r := set row: nat, col: nat | row < n && col < n :: Position(row, col);
    assert forall p :: OnBoard(n, p) ==> p in r by {
      forall p | OnBoard(n, p) ensures p in r {
        assert p == Position(p.row, p.col);
      }
    }
    r
  }
  /** The search's first frontier: the qualifying squares of the start edge. */
  function StartFrontier(st: BoardState, c: Color, dir: Direction): (r: set<Position>)
    requires st.Valid()
    ensures forall p {:trigger p in r} :: p in r <==> Qualifies(st, c, p) && IsStart(st.Size(), dir, p)
  {
    var n := st.Size();
    var r := set ix: nat | ix < n && Qualifies(st, c, StartSquare(n, dir, ix)) :: StartSquare(n, dir, ix);
    assert forall p :: Qualifies(st, c, p) && IsStart(n, dir, p) ==> p in r by {
      forall p | Qualifies(st, c, p) && IsStart(n, dir, p) ensures p in r {
        StartSquareIndex(n, dir, p);
      }
    }
    r
  }

  /** The next frontier: the qualifying neighbours of the squares just closed. */
  function NextFrontier(st: BoardState, c: Color, next: set<Position>): (r: set<Position>)
    requires st.Valid()
    ensures next == {} ==> r == {}
  {
    set p, q | p in next && q in Neighbours(st.Size(), p) && Qualifies(st, c, q) :: q
  }

  /** The next frontier holds exactly the qualifying neighbours of the squares just closed. */
  lemma NextFrontierMembers(st: BoardState, c: Color, next: set<Position>)
    requires st.Valid()
    ensures forall q :: q in NextFrontier(st, c, next) ==> Qualifies(st, c, q)
    ensures forall q :: q in NextFrontier(st, c, next) ==> exists p :: p in next && q in Neighbours(st.Size(), p)
    ensures forall p, q :: p in next && q in Neighbours(st.Size(), p) && Qualifies(st, c, q) ==>
      q in NextFrontier(st, c, next)
  {
  }

  /** What the search knows between rounds: every square it has seen is on the board and
      reachable; every qualifying start square has been seen; and every qualifying neighbour
      of a closed square has been seen. */
  ghost predicate Searched(st: BoardState, c: Color, dir: Direction, closed: set<Position>, frontier: set<Position>)
    requires st.Valid()
  {
    var n := st.Size();
    (forall p :: p in closed || p in frontier ==> OnBoard(n, p)) &&
    (forall p {:trigger Reachable(st, c, dir, p)} :: p in closed || p in frontier ==> Reachable(st, c, dir, p)) &&
    (forall p :: Qualifies(st, c, p) && IsStart(n, dir, p) ==> p in closed || p in frontier) &&
    (forall p, q :: p in closed && q in Neighbours(n, p) && Qualifies(st, c, q) ==> q in closed || q in frontier)
  }

  /** The search starts knowing what `Searched` says. */
  lemma SearchStarts(st: BoardState, c: Color, dir: Direction)
    requires st.Valid()
    ensures Searched(st, c, dir, {}, StartFrontier(st, c, dir))
  {
    forall p | p in StartFrontier(st, c, dir)
      ensures Reachable(st, c, dir, p)
    {
      StartReachable(st, c, dir, p);
    }
  }

  /** One round of the search keeps what `Searched` says, and leaves no goal square among
      what it has seen when none is in the new frontier. */
  lemma SearchStep(st: BoardState, c: Color, dir: Direction, closed: set<Position>, frontier: set<Position>,
                   closed': set<Position>, frontier': set<Position>)
    requires st.Valid() && Searched(st, c, dir, closed, frontier)
    requires closed' == closed + (frontier - closed) && frontier' == NextFrontier(st, c, frontier - closed)
    ensures Searched(st, c, dir, closed', frontier')
    ensures (forall p :: p in closed || p in frontier ==> !IsGoal(st.Size(), dir, p)) &&
            (forall p :: p in frontier' ==> !IsGoal(st.Size(), dir, p)) ==>
            forall p :: p in closed' || p in frontier' ==> !IsGoal(st.Size(), dir, p)
  {
    var n := st.Size();
    var next := frontier - closed;
    NextFrontierMembers(st, c, next);
    forall q | q in frontier'
      ensures OnBoard(n, q) && Reachable(st, c, dir, q)
    {
      var p :| p in next && q in Neighbours(n, p);
      ExtendReach(st, c, dir, p, q);
    }
  }

  /** A round that closes a new square leaves fewer squares to close. */
  lemma SearchShrinks(n: nat, closed: set<Position>, next: set<Position>)
    requires next != {} && next !! closed && forall p :: p in next ==> OnBoard(n, p)
    ensures AllSquares(n) - (closed + next) < AllSquares(n) - closed
  {
    var x :| x in next;
    assert x in AllSquares(n) - closed;
  }

  /** A goal square the search has seen ends a road. */
  lemma GoalReached(st: BoardState, c: Color, dir: Direction, closed: set<Position>, frontier: set<Position>, g: Position)
    requires st.Valid() && Searched(st, c, dir, closed, frontier) && g in frontier && IsGoal(st.Size(), dir, g)
    ensures HasRoad(st, c, dir)
  {
    assert Reachable(st, c, dir, g);
  }
}
