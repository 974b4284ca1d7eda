/** What a player asks the engine to do (src/actions.rs). */
module Actions {
  import opened Options
  import opened Player
  import opened Pieces
  import opened Geometry

  /** `Slide(src, dir, carries)`: `carries[i]` is the number of pieces carried from the i-th
      square of the walk onto the next one (the first is lifted off `src`); `None` asks for the
      whole source stack to move one square. `Place(pos, kind)` puts one fresh piece. */
  datatype Action =
    | Slide(src: Position, dir: Direction, carries: Option<seq<nat>>)
    | Place(pos: Position, kind: PieceKind)

  /** An action and the side that makes it. */
  datatype Move = Move(action: Action, player: Color)
}
