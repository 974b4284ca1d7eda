/** The rules that `Logic::applicable` checks and `Logic::apply` carries out
    (src/simulator/logic.rs), stated on board values. */
module Rules {
  import opened Options
  import opened Player
  import opened Pieces
  import opened Geometry
  import opened Stash
  import opened Boards
  import opened Actions
  import opened GameOver
  import opened Roads
  import opened Lines

  /** Absent carries stand for the whole source stack moving one square. */
  function Carries(carries: Option<seq<nat>>, height: nat): seq<nat>
  {
    match carries
    case Some(v) => v
    case None => [height]
  }

  predicate Positive(v: seq<nat>)
  {
    forall i :: 0 <= i < |v| ==> v[i] > 0
  }

  /** All `k` hops of a slide from `pos` land on an `n` by `n` board (the intended `!oob`). */
  predicate InBounds(n: nat, pos: Position, dir: Direction, k: nat)
  {
    match dir
    case North => pos.row + k < n
    case East => pos.col + k < n
    case South => pos.row >= k
    case West => pos.col >= k
  }

  /** `oob` as written: North and East compare with `> size`. */
  predicate OutOfBoundsAsWritten(n: nat, pos: Position, dir: Direction, k: nat)
  {
    match dir
    case North => pos.row + k > n
    case East => pos.col + k > n
    case South => pos.row < k
    case West => pos.col < k
  }

  /** The intended rule holds exactly when the last hop is a square of the board. */
  lemma InBoundsMeansLastHopOnBoard(n: nat, pos: Position, dir: Direction, k: nat)
    requires OnBoard(n, pos)
    ensures InBounds(n, pos, dir, k) <==> CanHop(pos, dir, k) && OnBoard(n, Hop(pos, dir, k))
  {
  }

  /** Every hop up to an in-bounds last hop is on the board. */
  lemma HopWithinBounds(n: nat, pos: Position, dir: Direction, k: nat, j: nat)
    requires OnBoard(n, pos) && InBounds(n, pos, dir, k) && j <= k
    ensures CanHop(pos, dir, j) && OnBoard(n, Hop(pos, dir, j))
  {
  }

  /** As written, a North or East slide whose last hop is one square past the edge passes
      the bounds check; South and West agree with the intended rule. */
  lemma OutOfBoundsAsWrittenAdmitsOffBoardHop(n: nat, pos: Position, dir: Direction)
    requires OnBoard(n, pos)
    ensures dir == North ==> var k := n - pos.row;
      !OutOfBoundsAsWritten(n, pos, dir, k) && !OnBoard(n, Hop(pos, dir, k))
    ensures dir == East ==> var k := n - pos.col;
      !OutOfBoundsAsWritten(n, pos, dir, k) && !OnBoard(n, Hop(pos, dir, k))
    ensures dir == South || dir == West ==>
      forall k: nat :: OutOfBoundsAsWritten(n, pos, dir, k) <==> !InBounds(n, pos, dir, k)
  {
  }

  /** The structural checks of a slide walk `v` from `pos`: carries given, none zero, strictly
      decreasing, every hop on the board, and the first carry no higher than the source. */
  predicate WalkOk(st: BoardState, pos: Position, dir: Direction, v: seq<nat>)
    requires st.Valid()
  {
    st.ValidPos(pos) && |v| > 0 && Positive(v) && StrictlyDecreasing(v) &&
    InBounds(st.Size(), pos, dir, |v|) && v[0] <= st.At(pos).Len()
  }

  /** A source stack may be moved by `player` when it is empty or topped by their colour. */
  predicate OwnedOrEmpty(s: Stack, player: Color)
  {
    match s.TopColor()
    case Some(c) => c == player
    case None => true
  }

  /** Hop `i + 1` accepts the top `v[i]` pieces of the original source stack, judged on the
      board before the move. */
  ghost predicate HopsCompatible(st: BoardState, pos: Position, dir: Direction, v: seq<nat>)
    requires st.Valid() && WalkOk(st, pos, dir, v)
  {
    forall i :: 0 <= i < |v| ==>
      st.At(Hop(pos, dir, i + 1)).CompatibleWith(st.At(pos).PeekFromTop(v[i]))
  }

  /** `applicable`, on the board value. */
  ghost predicate Legal(st: BoardState, mv: Move)
    requires st.Valid()
  {
    match mv.action
    case Place(pos, kind) =>
      st.ValidPos(pos) && st.At(pos).IsEmpty() && st.PieceCount(mv.player, kind) > 0
    case Slide(pos, dir, carries) =>
      st.ValidPos(pos) &&
      var v := Carries(carries, st.At(pos).Len());
      WalkOk(st, pos, dir, v) && OwnedOrEmpty(st.At(pos), mv.player) && HopsCompatible(st, pos, dir, v)
  }

  /** A slide without explicit carries is the slide that carries the whole source stack one
      square; an empty carries list, although documented as that shorthand, is rejected. */
  lemma SlideCarriesShorthand(st: BoardState, pos: Position, dir: Direction, player: Color)
    requires st.Valid() && st.ValidPos(pos)
    ensures Legal(st, Move(Slide(pos, dir, None), player)) <==>
            Legal(st, Move(Slide(pos, dir, Some([st.At(pos).Len()])), player))
    ensures !Legal(st, Move(Slide(pos, dir, Some([])), player))
  {
  }

  /** A slide from an empty square, or from a square the opponent tops, is never legal. */
  lemma SlideNeedsOwnStack(st: BoardState, pos: Position, dir: Direction, carries: Option<seq<nat>>, player: Color)
    requires st.Valid() && st.ValidPos(pos)
    requires st.At(pos).IsEmpty() || st.At(pos).TopColor() == Some(Opponent(player))
    ensures !Legal(st, Move(Slide(pos, dir, carries), player))
  {
  }

  /** `q` is none of the squares a walk of `k` hops from `pos` visits. */
  predicate OffPath(pos: Position, dir: Direction, k: nat, q: Position)
    requires CanHop(pos, dir, k)
  {
    forall j :: 0 <= j <= k ==> q != Hop(pos, dir, j)
  }

  /** The stacks on the squares `0` to `k` hops from `pos`, in walk order. */
  ghost function Line(st: BoardState, pos: Position, dir: Direction, k: nat): (r: seq<Stack>)
    requires st.Valid() && st.ValidPos(pos) && InBounds(st.Size(), pos, dir, k)
    ensures |r| == k + 1
    ensures forall j {:trigger r[j]} :: 0 <= j <= k ==>
      CanHop(pos, dir, j) && st.ValidPos(Hop(pos, dir, j)) && r[j] == st.At(Hop(pos, dir, j))
  {
    forall j | 0 <= j <= k
      ensures CanHop(pos, dir, j) && st.ValidPos(Hop(pos, dir, j))
    {
      HopWithinBounds(st.Size(), pos, dir, k, j);
    }
    seq(k + 1, j requires 0 <= j <= k => st.At(Hop(pos, dir, j)))
  }

  /** One `slide` from hop `i` leaves on hop `i` what was not lifted, and on hop `i + 1` its
      stack with the lifted pieces added. */
  lemma SlidAtHops(st: BoardState, pos: Position, dir: Direction, k: nat, i: nat, n: nat)
    requires st.Valid() && st.ValidPos(pos) && InBounds(st.Size(), pos, dir, k) && i < k
    requires CanHop(pos, dir, i) && st.CanSlide(Hop(pos, dir, i), dir, n)
    ensures CanHop(pos, dir, i + 1) && st.ValidPos(Hop(pos, dir, i + 1))
    ensures st.Slid(Hop(pos, dir, i), dir, n).At(Hop(pos, dir, i)) == st.At(Hop(pos, dir, i)).DropTop(n)
    ensures st.Slid(Hop(pos, dir, i), dir, n).At(Hop(pos, dir, i + 1)) ==
      st.At(Hop(pos, dir, i + 1)).AddStack(st.At(Hop(pos, dir, i)).PeekFromTop(n))
  {
    HopStep(pos, dir, i);
  }

  /** One `slide` from hop `i` leaves every other hop untouched. */
  lemma SlidAtOtherHop(st: BoardState, pos: Position, dir: Direction, k: nat, i: nat, n: nat, j: nat)
    requires st.Valid() && st.ValidPos(pos) && InBounds(st.Size(), pos, dir, k) && i < k && j <= k
    requires j != i && j != i + 1
    requires CanHop(pos, dir, i) && st.CanSlide(Hop(pos, dir, i), dir, n)
    ensures CanHop(pos, dir, j) && st.ValidPos(Hop(pos, dir, j))
    ensures st.Slid(Hop(pos, dir, i), dir, n).At(Hop(pos, dir, j)) == st.At(Hop(pos, dir, j))
  {
    HopWithinBounds(st.Size(), pos, dir, k, j);
    HopStep(pos, dir, i);
    HopInjective(pos, dir, j, i);
    HopInjective(pos, dir, j, i + 1);
  }

  /** A `slide` from hop `i` to hop `i + 1` is the step from entry `i` to entry `i + 1` of the line. */
  lemma SlidOnLine(st: BoardState, pos: Position, dir: Direction, k: nat, i: nat, n: nat)
    requires st.Valid() && st.ValidPos(pos) && InBounds(st.Size(), pos, dir, k)
    requires StepOk(Line(st, pos, dir, k), i, n)
    ensures CanHop(pos, dir, i + 1) && st.CanSlide(Hop(pos, dir, i), dir, n)
    ensures Line(st.Slid(Hop(pos, dir, i), dir, n), pos, dir, k) == LineStep(Line(st, pos, dir, k), i, n)
  {
    var line := Line(st, pos, dir, k);
    HopStep(pos, dir, i);
    assert line[i] == st.At(Hop(pos, dir, i)) && line[i + 1] == st.At(Hop(pos, dir, i + 1));
    var next := st.Slid(Hop(pos, dir, i), dir, n);
    var after := Line(next, pos, dir, k);
    var stepped := LineStep(line, i, n);
    SlidAtHops(st, pos, dir, k, i, n);
    assert after[i] == stepped[i];
    assert after[i + 1] == stepped[i + 1];
    forall j | 0 <= j <= k && j != i && j != i + 1
      ensures after[j] == stepped[j]
    {
      SlidAtOtherHop(st, pos, dir, k, i, n, j);
      assert line[j] == st.At(Hop(pos, dir, j));
    }
    assert after == stepped;
  }

  /** A `slide` from hop `i` leaves every square off the walk untouched. */
  lemma SlidOffLine(st: BoardState, pos: Position, dir: Direction, k: nat, i: nat, n: nat, q: Position)
    requires st.Valid() && st.ValidPos(pos) && InBounds(st.Size(), pos, dir, k) && i < k
    requires CanHop(pos, dir, i) && st.CanSlide(Hop(pos, dir, i), dir, n)
    requires st.ValidPos(q) && OffPath(pos, dir, k, q)
    ensures st.Slid(Hop(pos, dir, i), dir, n).At(q) == st.At(q)
  {
    HopStep(pos, dir, i);
    assert q != Hop(pos, dir, i) && q != Hop(pos, dir, i + 1);
  }

  /** The checks of `applicable` on the board are the walk's checks on its line. */
  lemma CheckedWalkOnLine(st: BoardState, pos: Position, dir: Direction, v: seq<nat>)
    requires st.Valid() && WalkOk(st, pos, dir, v) && HopsCompatible(st, pos, dir, v)
    ensures WalkShape(Line(st, pos, dir, |v|), v) && LineCompatible(Line(st, pos, dir, |v|), v)
  {
    var line := Line(st, pos, dir, |v|);
    assert line[0] == st.At(pos);
    forall i | 0 <= i < |v|
      ensures v[i] <= line[0].Len() && line[i + 1].CompatibleWith(line[0].PeekFromTop(v[i]))
    {
      assert line[i + 1] == st.At(Hop(pos, dir, i + 1));
    }
  }

  /** The board `st` after the first `i` steps of the carries loop of a checked slide from
      `st0`: nothing yet when `i == 0`; otherwise the walk's stacks are as `LineMid` says. Squares
      off the walk, the stashes and the piece total are as before. */
  ghost predicate SlidePartway(st0: BoardState, pos: Position, dir: Direction, v: seq<nat>, i: nat, st: BoardState)
    requires st0.Valid() && WalkOk(st0, pos, dir, v) && i <= |v|
  {
    st.Valid() && st.Size() == st0.Size() && st.red == st0.red && st.blk == st0.blk &&
    st.TotalPieces() == st0.TotalPieces() &&
    (i == 0 ==> st == st0) &&
    (i > 0 ==> LineMid(Line(st0, pos, dir, |v|), v, i, Line(st, pos, dir, |v|))) &&
    (forall q :: st0.ValidPos(q) && OffPath(pos, dir, |v|, q) ==> st.At(q) == st0.At(q))
  }

  /** Step `i` of the carries loop of a slide that passes the checks of `applicable` is an
      allowed `slide`, and it takes the board from `i` steps done to `i + 1`. */
  lemma SlideStep(st0: BoardState, pos: Position, dir: Direction, v: seq<nat>, i: nat, st: BoardState)
    requires st0.Valid() && WalkOk(st0, pos, dir, v) && HopsCompatible(st0, pos, dir, v)
    requires i < |v| && SlidePartway(st0, pos, dir, v, i, st)
    ensures CanHop(pos, dir, i) && st.Valid() && st.CanSlide(Hop(pos, dir, i), dir, v[i])
    ensures SlidePartway(st0, pos, dir, v, i + 1, st.Slid(Hop(pos, dir, i), dir, v[i]))
  {
    var k := |v|;
    var line0 := Line(st0, pos, dir, k);
    var line := Line(st, pos, dir, k);
    CheckedWalkOnLine(st0, pos, dir, v);
    if i == 0 {
      LineFirstStep(line0, v);
    } else {
      LineNextStep(line0, v, i, line);
    }
    SlidOnLine(st, pos, dir, k, i, v[i]);
    var next := st.Slid(Hop(pos, dir, i), dir, v[i]);
    SlidConservesPieces(st, Hop(pos, dir, i), dir, v[i]);
    forall q | st0.ValidPos(q) && OffPath(pos, dir, k, q)
      ensures next.At(q) == st0.At(q)
    {
      SlidOffLine(st, pos, dir, k, i, v[i], q);
    }
  }

  /** What a checked slide leaves on the board: the source keeps what was not lifted, hop `j`
      holds its original stack (flattened) under the source pieces `v[j - 1]` to `v[j]` from the
      top, the last hop holds its original stack with all `v[|v| - 1]` of them added, and every
      square off the walk, both stashes and the piece total are as before. */
  ghost predicate SlideResult(st0: BoardState, pos: Position, dir: Direction, v: seq<nat>, st: BoardState)
    requires st0.Valid() && WalkOk(st0, pos, dir, v) && HopsCompatible(st0, pos, dir, v)
  {
    var k := |v|;
    var src := st0.At(pos);
    HopWithinBounds(st0.Size(), pos, dir, k, k);
    st.Valid() && st.Size() == st0.Size() && st.red == st0.red && st.blk == st0.blk &&
    st.TotalPieces() == st0.TotalPieces() &&
    st.At(pos) == src.DropTop(v[0]) &&
    (forall j :: 1 <= j < k ==>
      HopOnBoard(st0, pos, dir, k, j) &&
      st.At(Hop(pos, dir, j)) == st0.At(Hop(pos, dir, j)).Flatten().Extend(src.PeekFromTop(v[j - 1]).DropTop(v[j]))) &&
    st0.At(Hop(pos, dir, k)).CompatibleWith(src.PeekFromTop(v[k - 1])) &&
    st.At(Hop(pos, dir, k)) == st0.At(Hop(pos, dir, k)).AddStack(src.PeekFromTop(v[k - 1])) &&
    (forall q :: st0.ValidPos(q) && OffPath(pos, dir, k, q) ==> st.At(q) == st0.At(q))
  }

  /** Hop `j` of a walk of `k` in-bounds hops is a square of the board (a fact in a form the
      quantifiers of `SlideResult` can use). */
  predicate HopOnBoard(st: BoardState, pos: Position, dir: Direction, k: nat, j: nat)
    requires st.Valid()
  {
    CanHop(pos, dir, j) && st.ValidPos(Hop(pos, dir, j))
  }

  /** Once every step is done the board is the slide's result. */
  lemma SlideDone(st0: BoardState, pos: Position, dir: Direction, v: seq<nat>, st: BoardState)
    requires st0.Valid() && WalkOk(st0, pos, dir, v) && HopsCompatible(st0, pos, dir, v)
    requires SlidePartway(st0, pos, dir, v, |v|, st)
    ensures SlideResult(st0, pos, dir, v, st)
  {
    var k := |v|;
    var line0 := Line(st0, pos, dir, k);
    var line := Line(st, pos, dir, k);
    CheckedWalkOnLine(st0, pos, dir, v);
    assert line[0] == st.At(pos) && line0[0] == st0.At(pos);
    forall j | 1 <= j < k
      ensures HopOnBoard(st0, pos, dir, k, j)
      ensures st.At(Hop(pos, dir, j)) == st0.At(Hop(pos, dir, j)).Flatten().Extend(st0.At(pos).PeekFromTop(v[j - 1]).DropTop(v[j]))
    {
      assert line[j] == st.At(Hop(pos, dir, j)) && line0[j] == st0.At(Hop(pos, dir, j));
      LandedEntry(line0, v, j, line[j]);
    }
    assert line[k] == st.At(Hop(pos, dir, k)) && line0[k] == st0.At(Hop(pos, dir, k));
  }

  /** The game's allotment: pieces on the board plus pieces left in both stashes. */
  function Allotment(st: BoardState): nat
  {
    st.TotalPieces() + st.red.stones + st.red.caps + st.blk.stones + st.blk.caps
  }

  /** `get_outcome`'s answer for the board `st`: no outcome while neither colour has a road,
      a tie when both have one, otherwise the one colour that has. */
  ghost predicate IsOutcome(oc: Option<Outcome>, st: BoardState)
    requires st.Valid()
  {
    match oc
    case None => !Won(st, Red) && !Won(st, Blk)
    case Some(o) =>
      o.board == st &&
      match o.result
      case Tie => Won(st, Red) && Won(st, Blk)
      case Winner(c) => Won(st, c) && !Won(st, Opponent(c))
  }
  /** `after` is the board `apply` leaves when it carries out the legal move `mv` on `st`:
      a placement puts the piece on its square; a slide leaves `SlideResult`. */
  ghost predicate AppliedTo(st: BoardState, mv: Move, after: BoardState)
    requires st.Valid() && Legal(st, mv)
  {
    match mv.action
    case Place(pos, kind) => after == st.Placed(Piece(kind, mv.player), pos)
    case Slide(pos, dir, carries) => SlideResult(st, pos, dir, Carries(carries, st.At(pos).Len()), after)
  }

  /** A placement moves one piece from a stash onto the board. */
  lemma PlacedKeepsAllotment(st: BoardState, piece: Piece, pos: Position)
    requires st.Valid() && st.ValidPos(pos) && st.At(pos).IsEmpty()
    requires st.PieceCount(piece.color, piece.kind) > 0
    ensures Allotment(st.Placed(piece, pos)) == Allotment(st)
    ensures st.Placed(piece, pos).StashOf(Opponent(piece.color)) == st.StashOf(Opponent(piece.color))
  {
    PlacedAddsOnePiece(st, piece, pos);
    var after := st.Taken(piece.color, piece.kind);
    assert st.Placed(piece, pos) == after.With(pos, st.At(pos).PushPiece(piece));
  }

  /** No legal move creates or destroys a piece: what is on the board plus what is left in
      both stashes stays the same, and no stash grows. */
  lemma AppliedKeepsAllotment(st: BoardState, mv: Move, after: BoardState)
    requires st.Valid() && Legal(st, mv) && AppliedTo(st, mv, after)
    ensures Allotment(after) == Allotment(st)
    ensures after.red.stones <= st.red.stones && after.red.caps <= st.red.caps
    ensures after.blk.stones <= st.blk.stones && after.blk.caps <= st.blk.caps
  {
    match mv.action
    case Place(pos, kind) =>
      PlacedKeepsAllotment(st, Piece(kind, mv.player), pos);
      var taken := st.Taken(mv.player, kind);
      assert after == taken.With(pos, st.At(pos).PushPiece(Piece(kind, mv.player)));
    case Slide(pos, dir, carries) =>
  }
}
