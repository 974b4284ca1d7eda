/** How a game ends (src/simulator/game_over.rs). */
module GameOver {
  import opened Player
  import opened Boards

  datatype MatchResult = Winner(color: Color) | Tie

  /** The result together with a copy of the final board. */
  datatype Outcome = Outcome(result: MatchResult, board: BoardState)
}
