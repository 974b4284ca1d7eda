/** The game engine of src/simulator/logic.rs: it owns the board, checks moves, carries them
    out and searches for roads. */
module Simulator {
  import opened Options
  import opened Player
  import opened Pieces
  import opened Geometry
  import opened Stash
  import opened Boards
  import opened Actions
  import opened GameOver
  import opened Roads
  import opened Lines
  import opened Rules

  /** `contains_0`: some carry is zero. */
  method ContainsZero(v: seq<nat>) returns (found: bool)
    ensures found <==> !Positive(v)
  {
    var i := 0;
    while i < |v|
      invariant 0 <= i <= |v|
      invariant forall j :: 0 <= j < i ==> v[j] > 0
    {
      if v[i] == 0 {
        return true;
      }
      i := i + 1;
    }
    return false;
  }

  /** `decreasing`: every carry is smaller than the one before it. */
  method Decreasing(v: seq<nat>) returns (ok: bool)
    requires |v| > 0
    ensures ok <==> StrictlyDecreasing(v)
  {
    var last := v[0];
    var i := 1;
    while i < |v|
      invariant 1 <= i <= |v| && last == v[i - 1]
      invariant forall a, b :: 0 <= a < b < i ==> v[a] > v[b]
    {
      if v[i] >= last {
        return false;
      }
      last := v[i];
      i := i + 1;
    }
    return true;
  }

  /** One hop of `all_compatible`: the square after hop `i`, the top `v[i]` pieces of what
      reached it, and whether that square accepts them. */
  method NextHop(st: BoardState, pos: Position, dir: Direction, v: seq<nat>, i: nat,
                 src: Position, full: Stack)
    returns (dst: Position, carried: Stack, fits: bool)
    requires st.Valid() && st.ValidPos(pos) && StrictlyDecreasing(v) && i < |v|
    requires v[0] <= st.At(pos).Len() && InBounds(st.Size(), pos, dir, |v|)
    requires CanHop(pos, dir, i) && src == Hop(pos, dir, i)
    requires full == if i == 0 then st.At(pos) else st.At(pos).PeekFromTop(v[i - 1])
    ensures CanHop(pos, dir, i + 1) && dst == Hop(pos, dir, i + 1) && st.ValidPos(dst)
    ensures v[i] <= st.At(pos).Len() && carried == st.At(pos).PeekFromTop(v[i])
    ensures fits <==> st.At(dst).CompatibleWith(carried)
  {
    HopWithinBounds(st.Size(), pos, dir, |v|, i + 1);
    HopStep(pos, dir, i);
    dst := Go(src, dir);
    PeekAlong(st.At(pos), v, i, full);
    carried := full.PeekFromTop(v[i]);
    fits := st.At(dst).CompatibleWith(carried);
  }

  /** `all_compatible`: the source holds at least `v[0]` pieces and is not the opponent's,
      and walking the hops, the top `v[i]` pieces of what reached hop `i` are accepted by hop
      `i + 1`. */
  method AllCompatible(st: BoardState, pos: Position, dir: Direction, v: seq<nat>, player: Color)
    returns (ok: bool)
    requires st.Valid() && st.ValidPos(pos) && |v| > 0 && Positive(v) && StrictlyDecreasing(v)
    requires InBounds(st.Size(), pos, dir, |v|)
    ensures ok <==> v[0] <= st.At(pos).Len() && OwnedOrEmpty(st.At(pos), player) &&
                    HopsCompatible(st, pos, dir, v)
  {
    var src := pos;
    var original := st.At(src);
    if original.Len() < v[0] {
      return false;
    }
    if original.TopColor().Some? && original.TopColor().value != player {
      return false;
    }
    var full := original;
    var i := 0;
    while i < |v|
      invariant 0 <= i <= |v| && CanHop(pos, dir, i) && src == Hop(pos, dir, i)
      invariant full == if i == 0 then original else original.PeekFromTop(v[i - 1])
      invariant forall j :: 0 <= j < i ==>
        st.At(Hop(pos, dir, j + 1)).CompatibleWith(original.PeekFromTop(v[j]))
    {
      var dst, carried, fits := NextHop(st, pos, dir, v, i, src, full);
      if !fits {
        return false;
      }
      src := dst;
      full := carried;
      i := i + 1;
    }
    return true;
  }

  class Logic {
    const board: Board

    ghost predicate Valid()
      reads board
    {
      board.Valid()
    }

    /** `Logic::new(size)`: an empty board with full stashes. */
    constructor (n: nat)
      requires SupportedSize(n)
      ensures Valid() && board.State() == Initial(n) && fresh(board)
    {
      board := new Board(n);
    }

    /** `applicable`: whether `mv` may be made on the current board. */
    method Applicable(mv: Move) returns (ok: bool)
      requires Valid()
      ensures ok <==> Legal(board.State(), mv)
    {
      var st := board.State();
      match mv.action {
        case Place(pos, kind) =>
          ok := st.ValidPos(pos) && st.At(pos).IsEmpty() && st.PieceCount(mv.player, kind) > 0;
        case Slide(pos, dir, carries) =>
          if !st.ValidPos(pos) {
            return false;
          }
          var v := Carries(carries, st.At(pos).Len());
          if |v| == 0 {
            return false;
          }
          var zero := ContainsZero(v);
          if zero {
            return false;
          }
          var decreasing := Decreasing(v);
          if !decreasing {
            return false;
          }
          if !OwnedOrEmpty(st.At(pos), mv.player) {
            return false;
          }
          if !InBounds(st.Size(), pos, dir, |v|) {
            return false;
          }
          ok := AllCompatible(st, pos, dir, v, mv.player);
      }
    }

    /** `apply`: carry out a legal move and report the outcome it leads to. */
    method Apply(mv: Move) returns (oc: Option<Outcome>)
      requires Valid() && Legal(board.State(), mv)
      modifies board
      ensures Valid() && AppliedTo(old(board.State()), mv, board.State())
      ensures IsOutcome(oc, board.State())
    {
      match mv.action {
        case Place(pos, kind) =>
          board.Place(Piece(kind, mv.player), pos);
        case Slide(pos, dir, carries) =>
          SlideAlong(pos, dir, Carries(carries, board.State().At(pos).Len()));
      }
      oc := GetOutcome();
    }

    /** The carries loop of `apply`: one `slide` per carry, each from the square the previous
        one reached. */
    method SlideAlong(pos: Position, dir: Direction, v: seq<nat>)
      requires Valid() && WalkOk(board.State(), pos, dir, v) && HopsCompatible(board.State(), pos, dir, v)
      modifies board
      ensures Valid() && SlideResult(old(board.State()), pos, dir, v, board.State())
    {
      ghost var st0 := board.State();
      var src := pos;
      var i := 0;
      while i < |v|
        invariant 0 <= i <= |v| && CanHop(pos, dir, i) && src == Hop(pos, dir, i)
        invariant board.Valid() && SlidePartway(st0, pos, dir, v, i, board.State())
      {
        src := SlideHop(st0, pos, dir, v, i, src);
        i := i + 1;
      }
      SlideDone(st0, pos, dir, v, board.State());
    }

    /** Step `i` of the carries loop: `slide(src, dir, v[i])`, then `src = src.go(dir)`. */
    method SlideHop(ghost st0: BoardState, pos: Position, dir: Direction, v: seq<nat>, i: nat,
                    src: Position)
      returns (next: Position)
      requires st0.Valid() && WalkOk(st0, pos, dir, v) && HopsCompatible(st0, pos, dir, v)
      requires i < |v| && CanHop(pos, dir, i) && src == Hop(pos, dir, i)
      requires board.Valid() && SlidePartway(st0, pos, dir, v, i, board.State())
      modifies board
      ensures CanHop(pos, dir, i + 1) && next == Hop(pos, dir, i + 1)
      ensures board.Valid() && SlidePartway(st0, pos, dir, v, i + 1, board.State())
    {
      SlideStep(st0, pos, dir, v, i, board.State());
      HopWithinBounds(st0.Size(), pos, dir, |v|, i + 1);
      HopStep(pos, dir, i);
      board.Slide(src, dir, v[i]);
      next := Go(src, dir);
    }

    /** `first_turn(pos, c)`: the opening placement of an opponent's flat stone. */
    method FirstTurn(pos: Position, c: Color)
      requires Valid() && Legal(board.State(), Move(Place(pos, Stone), Opponent(c)))
      modifies board
      ensures Valid() && board.State() == old(board.State()).Placed(Piece(Stone, Opponent(c)), pos)
    {
      var _ := Apply(Move(Place(pos, Stone), Opponent(c)));
    }

    /** `get_outcome`. */
    method GetOutcome() returns (oc: Option<Outcome>)
      requires Valid()
      ensures IsOutcome(oc, board.State())
    {
      var red := IsWinner(Red);
      var blk := IsWinner(Blk);
      if red && blk {
        oc := Some(Outcome(Tie, board.State()));
      } else if red {
        oc := Some(Outcome(Winner(Red), board.State()));
      } else if blk {
        oc := Some(Outcome(Winner(Blk), board.State()));
      } else {
        oc := None;
      }
    }

    /** `is_winner`: a road from row 0 to the last row, or from column 0 to the last column. */
    method IsWinner(c: Color) returns (won: bool)
      requires Valid()
      ensures won <==> Won(board.State(), c)
    {
      won := IsWinnerForDir(c, North);
      if !won {
        won := IsWinnerForDir(c, East);
      }
    }

    /** `is_winner_for_dir`: breadth-first search from the qualifying squares of the start
        edge; it answers `true` as soon as a newly reached frontier touches the goal edge. */
    method IsWinnerForDir(c: Color, dir: Direction) returns (won: bool)
      requires Valid()
      ensures won <==> HasRoad(board.State(), c, dir)
    {
      var st := board.State();
      var n := st.Size();
      var closed: set<Position> := {};
      var frontier := StartFrontier(st, c, dir);
      SearchStarts(st, c, dir);
      while frontier != {}
        invariant Searched(st, c, dir, closed, frontier)
        invariant forall p :: p in closed || p in frontier ==> !IsGoal(n, dir, p)
        decreases AllSquares(n) - closed, frontier
      {
        var next := frontier - closed;
        if next != {} {
          SearchShrinks(n, closed, next);
        } else {
          assert closed + next == closed;
        }
        ghost var closed0, frontier0 := closed, frontier;
        closed := closed + next;
        frontier := NextFrontier(st, c, next);
        SearchStep(st, c, dir, closed0, frontier0, closed, frontier);
        if g :| g in frontier && IsGoal(n, dir, g) {
          GoalReached(st, c, dir, closed, frontier, g);
          return true;
        }
      }
      NoRoadOutside(st, c, dir, closed);
      return false;
    }
  }
}
