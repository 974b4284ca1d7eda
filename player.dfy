/** The two sides of the game (src/player.rs). */
module Player {
  datatype Color = Red | Blk

  /** The other side: Rust's `Not` for `Color`. */
  function Opponent(c: Color): (r: Color)
    ensures r != c
  {
    match c
    case Red => Blk
    case Blk => Red
  }
}
