/** The pieces a side still has to place (the `PiecesStash` of src/move_logic.rs). */
module Stash {
  import opened Pieces

  /** `stones` serves both flat and standing stones; `caps` the cap stones. Both are `u16`
      in the source; they start at most 50 and only ever go down, so no width matters. */
  datatype PiecesStash = PiecesStash(stones: nat, caps: nat) {

    /** The counter that placing a piece of `kind` draws on (`piece_count` for one side). */
    function Count(kind: PieceKind): nat
    {
      match kind
      case CapStone => caps
      case _ => stones
    }

    /** Remove one piece of `kind` (`take_piece`'s `*n -= 1`). */
    function Take(kind: PieceKind): (r: PiecesStash)
      requires Count(kind) > 0
      ensures r.Count(kind) == Count(kind) - 1
      ensures forall k :: (k == CapStone) != (kind == CapStone) ==> r.Count(k) == Count(k)
      ensures r.Count(Stone) == r.Count(StandingStone)
      ensures r.stones + r.caps + 1 == stones + caps
    {
      match kind
      case CapStone => PiecesStash(stones, caps - 1)
      case _ => PiecesStash(stones - 1, caps)
    }
  }

  /** The board sizes the stash table knows; every other size panics. */
  predicate SupportedSize(n: nat)
  {
    n == 3 || n == 4 || n == 5 || n == 6 || n == 8
  }

  /** `PiecesStash::for_board_size`. */
  function ForBoardSize(n: nat): PiecesStash
    requires SupportedSize(n)
  {
    match n
    case 3 => PiecesStash(10, 0)
    case 4 => PiecesStash(15, 0)
    case 5 => PiecesStash(21, 1)
    case 6 => PiecesStash(30, 1)
    case 8 => PiecesStash(50, 2)
  }
}
