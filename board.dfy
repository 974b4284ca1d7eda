/** The square grid of stacks and both sides' stashes (src/board.rs, with the stash and the
    `place`/`slide` primitives of src/move_logic.rs moved onto the board). */
module Boards {
  import opened Player
  import opened Pieces
  import opened Geometry
  import opened Stash

  /** Rows of stacks: `cells[row][col]`. */
  type Grid = seq<seq<Stack>>

  /** A value snapshot of a board: what `Board::clone` copies and `Outcome` carries. */
  datatype BoardState = BoardState(cells: Grid, red: PiecesStash, blk: PiecesStash) {

    /** `size`: the number of rows. */
    function Size(): nat { |cells| }

    /** Square, of a size the stash table knows. */
    predicate Valid()
    {
      SupportedSize(|cells|) && (forall r :: 0 <= r < |cells| ==> |cells[r]| == |cells|)
    }

    /** No stack on the board buries a wall or a cap stone. */
    ghost predicate StacksWellFormed()
      requires Valid()
    {
      forall p :: ValidPos(p) ==> At(p).WellFormed()
    }

    /** `valid_pos`. */
    predicate ValidPos(p: Position)
    {
      OnBoard(|cells|, p)
    }

    /** `Index<Position>`: the stack at `p`. */
    function At(p: Position): Stack
      requires Valid() && ValidPos(p)
    {
      cells[p.row][p.col]
    }

    /** The board after writing `s` through `IndexMut<Position>` at `p`. */
    function With(p: Position, s: Stack): (r: BoardState)
      requires Valid() && ValidPos(p)
      ensures r.Valid() && r.Size() == Size() && r.red == red && r.blk == blk
      ensures r.At(p) == s
      ensures forall q :: ValidPos(q) && q != p ==> r.At(q) == At(q)
      ensures StacksWellFormed() && s.WellFormed() ==> r.StacksWellFormed()
    {
      BoardState(cells[p.row := cells[p.row][p.col := s]], red, blk)
    }

    function StashOf(c: Color): PiecesStash
    {
      match c
      case Red => red
      case Blk => blk
    }

    /** `piece_count(c, kind)`. */
    function PieceCount(c: Color, kind: PieceKind): nat
    {
      StashOf(c).Count(kind)
    }

    /** The board after `take_piece(c, kind)`. */
    function Taken(c: Color, kind: PieceKind): (r: BoardState)
      requires PieceCount(c, kind) > 0
      ensures r.cells == cells
      ensures r.PieceCount(c, kind) == PieceCount(c, kind) - 1
      ensures forall c', k' :: c' != c || (k' == CapStone) != (kind == CapStone) ==>
        r.PieceCount(c', k') == PieceCount(c', k')
      ensures r.StashOf(Opponent(c)) == StashOf(Opponent(c))
    {
      match c
      case Red => BoardState(cells, red.Take(kind), blk)
      case Blk => BoardState(cells, red, blk.Take(kind))
    }

    /** The board after `place(piece, pos)`: `take_piece` followed by `+= piece` on an empty square. */
    function Placed(piece: Piece, pos: Position): (r: BoardState)
      requires Valid() && ValidPos(pos) && At(pos).IsEmpty()
      requires PieceCount(piece.color, piece.kind) > 0
      ensures r.Valid() && r.Size() == Size()
      ensures r.At(pos) == On(Empty, piece)
      ensures forall q :: ValidPos(q) && q != pos ==> r.At(q) == At(q)
      ensures r.PieceCount(piece.color, piece.kind) == PieceCount(piece.color, piece.kind) - 1
      ensures forall c', k' :: c' != piece.color || (k' == CapStone) != (piece.kind == CapStone) ==>
        r.PieceCount(c', k') == PieceCount(c', k')
      ensures StacksWellFormed() ==> r.StacksWellFormed()
    {
      var after := Taken(piece.color, piece.kind);
      assert after.At(pos) == At(pos);
      after.With(pos, At(pos).PushPiece(piece))
    }

    /** What `slide(src, dir, n)` needs: both squares on the board, `n` pieces at `src`, and
        the lifted pieces allowed onto the neighbour (the assertion in `+=`). */
    predicate CanSlide(src: Position, dir: Direction, n: nat)
      requires Valid()
    {
      ValidPos(src) && CanStep(src, dir) && ValidPos(Go(src, dir)) && n <= At(src).Len() &&
      At(Go(src, dir)).CompatibleWith(At(src).PeekFromTop(n))
    }

    /** The board after `slide(src, dir, n)`: `board[dst] += board[src].take_off(n)`. */
    function Slid(src: Position, dir: Direction, n: nat): (r: BoardState)
      requires Valid() && CanSlide(src, dir, n)
      ensures r.Valid() && r.Size() == Size() && r.red == red && r.blk == blk
      ensures r.At(src) == At(src).DropTop(n)
      ensures r.At(Go(src, dir)) == At(Go(src, dir)).AddStack(At(src).PeekFromTop(n))
      ensures forall q :: ValidPos(q) && q != src && q != Go(src, dir) ==> r.At(q) == At(q)
    {
      var dst := Go(src, dir);
      var lifted := With(src, At(src).DropTop(n));
      var r := lifted.With(dst, At(dst).AddStack(At(src).PeekFromTop(n)));
      assert r.At(src) == lifted.At(src);
      r
    }

    /** The number of pieces on the board. */
    function TotalPieces(): nat
    {
      SumRows(cells)
    }
  }

  function SumRow(row: seq<Stack>): nat
  {
    if row == [] then 0 else row[0].Len() + SumRow(row[1..])
  }

  function SumRows(g: Grid): nat
  {
    if g == [] then 0 else SumRow(g[0]) + SumRows(g[1..])
  }

  lemma {:induction false} SumRowUpdate(row: seq<Stack>, c: nat, s: Stack)
    requires c < |row|
    ensures SumRow(row[c := s]) + row[c].Len() == SumRow(row) + s.Len()
  {
    if c > 0 {
      assert row[c := s][1..] == row[1..][c - 1 := s];
      SumRowUpdate(row[1..], c - 1, s);
    } else {
      assert row[c := s][1..] == row[1..];
    }
  }

  lemma {:induction false} SumRowsUpdate(g: Grid, r: nat, row: seq<Stack>)
    requires r < |g|
    ensures SumRows(g[r := row]) + SumRow(g[r]) == SumRows(g) + SumRow(row)
  {
    if r > 0 {
      assert g[r := row][1..] == g[1..][r - 1 := row];
      SumRowsUpdate(g[1..], r - 1, row);
    } else {
      assert g[r := row][1..] == g[1..];
    }
  }

  /** Writing one square changes the piece total by the difference in that square's height. */
  lemma WithCount(st: BoardState, p: Position, s: Stack)
    requires st.Valid() && st.ValidPos(p)
    ensures st.With(p, s).TotalPieces() + st.At(p).Len() == st.TotalPieces() + s.Len()
  {
    var row := st.cells[p.row];
    SumRowUpdate(row, p.col, s);
    SumRowsUpdate(st.cells, p.row, row[p.col := s]);
  }

  /** A slide step neither creates nor destroys pieces; flattening only changes a kind. */
  lemma SlidConservesPieces(st: BoardState, src: Position, dir: Direction, n: nat)
    requires st.Valid() && st.CanSlide(src, dir, n)
    ensures st.Slid(src, dir, n).TotalPieces() == st.TotalPieces()
  {
    var dst := Go(src, dir);
    var mid := st.With(src, st.At(src).DropTop(n));
    WithCount(st, src, st.At(src).DropTop(n));
    WithCount(mid, dst, st.At(dst).AddStack(st.At(src).PeekFromTop(n)));
  }

  /** A placement puts exactly one more piece on the board. */
  lemma PlacedAddsOnePiece(st: BoardState, piece: Piece, pos: Position)
    requires st.Valid() && st.ValidPos(pos) && st.At(pos).IsEmpty()
    requires st.PieceCount(piece.color, piece.kind) > 0
    ensures st.Placed(piece, pos).TotalPieces() == st.TotalPieces() + 1
  {
    var after := st.Taken(piece.color, piece.kind);
    WithCount(after, pos, st.At(pos).PushPiece(piece));
  }

  /** `Board::new(size)` with both stashes from the table, as `MoveLogic::new` sets them up. */
  function Initial(n: nat): (r: BoardState)
    requires SupportedSize(n)
    ensures r.Valid() && r.StacksWellFormed() && r.Size() == n
    ensures forall p :: r.ValidPos(p) ==> r.At(p).IsEmpty()
    ensures r.red == r.blk == ForBoardSize(n)
  {
    BoardState(seq(n, _ => seq(n, _ => Empty)), ForBoardSize(n), ForBoardSize(n))
  }

  /** The game board as the engine mutates it in place. */
  class Board {
    var cells: Grid
    var red: PiecesStash
    var blk: PiecesStash

    function State(): BoardState
      reads this
    {
      BoardState(cells, red, blk)
    }

    ghost predicate Valid()
      reads this
    {
      State().Valid() && State().StacksWellFormed()
    }

    constructor (n: nat)
      requires SupportedSize(n)
      ensures Valid() && State() == Initial(n)
    {
      cells := seq(n, _ => seq(n, _ => Stack.Empty));
      var stash := ForBoardSize(n);
      red := stash;
      blk := stash;
    }

    /** Write a stack through `IndexMut<Position>`. */
    method Set(p: Position, s: Stack)
      requires Valid() && State().ValidPos(p) && s.WellFormed()
      modifies this
      ensures Valid() && State() == old(State()).With(p, s)
    {
      cells := cells[p.row := cells[p.row][p.col := s]];
      assert State() == old(State()).With(p, s);
    }

    /** `remove_from`: hand back the stack at `p` and leave the square empty. */
    method RemoveFrom(p: Position) returns (s: Stack)
      requires Valid() && State().ValidPos(p)
      modifies this
      ensures Valid() && s == old(State()).At(p)
      ensures State() == old(State()).With(p, Stack.Empty)
    {
      s := State().At(p);
      Set(p, Stack.Empty);
    }

    /** `empty`: leave the square at `p` empty. */
    method Empty(p: Position)
      requires Valid() && State().ValidPos(p)
      modifies this
      ensures Valid() && State() == old(State()).With(p, Stack.Empty)
    {
      Set(p, Stack.Empty);
    }

    /** `take_piece`: decrement the counter that `piece_count_mut(c, kind)` points at. */
    method TakePiece(c: Color, kind: PieceKind) returns (piece: Piece)
      requires Valid() && State().PieceCount(c, kind) > 0
      modifies this
      ensures Valid() && piece == Piece(kind, c)
      ensures State() == old(State()).Taken(c, kind)
    {
      match c {
        case Red => red := red.Take(kind);
        case Blk => blk := blk.Take(kind);
      }
      assert forall p :: State().ValidPos(p) ==> State().At(p) == old(State()).At(p);
      piece := Piece(kind, c);
    }

    /** `place`: take the piece from its owner's stash and push it on the empty square. */
    method Place(piece: Piece, pos: Position)
      requires Valid() && State().ValidPos(pos) && State().At(pos).IsEmpty()
      requires State().PieceCount(piece.color, piece.kind) > 0
      modifies this
      ensures Valid() && State() == old(State()).Placed(piece, pos)
    {
      var p := TakePiece(piece.color, piece.kind);
      Set(pos, State().At(pos).PushPiece(p));
    }

    /** `slide`: move the top `n` pieces of `src` onto its neighbour in direction `dir`. */
    method Slide(src: Position, dir: Direction, n: nat)
      requires Valid() && State().CanSlide(src, dir, n)
      modifies this
      ensures Valid() && State() == old(State()).Slid(src, dir, n)
    {
      var dst := Go(src, dir);
      var parts := State().At(src).TakeOff(n);
      Set(src, parts.kept);
      Set(dst, State().At(dst).AddStack(parts.taken));
    }
  }
}
