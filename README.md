# RustTak rules engine, modelled in Dafny

This project models the rules engine of RustTak, a two-player Tak-style stacking game on an
N by N board. Players place flat stones, standing stones (walls) and cap stones from a
per-colour stash, or slide part of a stack they top across the board, dropping pieces on each
square. A player wins by building a road of flat or cap stones of their colour, either from
row 0 to the last row or from column 0 to the last column.

The modules follow the source files:

- `Pieces` (piece.dfy): piece kinds, pieces and stacks (`src/board/piece.rs`).
  - The per-kind predicates, `compatible_with` and `flatten`.
  - `take_off`, `peek_from_top`, `+=` and `-=`.
- `Geometry` (position.dfy): `Position` and `Position::go`. `src/board.rs` and
  `src/board/position.rs` define identical copies, so the model has one.
- `Stash` (stash.dfy): `PiecesStash` and its size table (`src/move_logic.rs`).
- `Boards` (board.dfy) models the board of `src/board.rs` as a class `Board`:
  - it mutates its grid and both stashes in place;
  - `State()` gives a value snapshot, `BoardState`, which the readers and the rules use;
  - `src/board.rs` has no `place`, `slide` or `piece_count`, although `src/simulator/logic.rs`
    calls them, so the board carries the two stashes and builds these from `take_piece`,
    `+= Piece` and `board[dst] += board[src].take_off(n)`, as `src/move_logic.rs` does.
- `Actions` (actions.dfy) and `GameOver` (game_over.dfy): `Action`/`Move` and
  `Outcome`/`MatchResult`.
- `Player` (player.dfy): `Color` and its `!` operator.
- `Rules`, `Lines` and `Roads` (rules.dfy, lines.dfy, roads.dfy) hold the specification that
  the engine's methods are proved against:
  - `Legal` is what `applicable` decides;
  - `AppliedTo` and `SlideResult` are the board `apply` leaves;
  - `HasRoad` and `Won` are the road a search looks for;
  - `IsOutcome` is the answer `get_outcome` gives.
- `Simulator` (logic.dfy): the class `Logic` of `src/simulator/logic.rs`.
  - `Applicable` runs the source's checks, with the `decreasing` and `all_compatible` loops.
  - `Apply` runs the carries loop with a moving source square.
  - `IsWinnerForDir` is the breadth-first search with its `closed` and `frontier` sets.
- `Analyzer` (analyzer.dfy): `src/analyzer.rs`.
  - `Metric`, `absolute_road_dominance`, `stones_left` and `caps_left`.
  - The action enumerator `applicable_actions`, with `make_slides` and `distribute`.

The file that defines the board iterator (`Board::iter`, `with_pos`) is not part of this model.
The analyzer's walk over the board is modelled as row by row, column by column (`Fields`).

Carries follow the documented meaning of `Action::Slide` and the source's tests. `v[i]` is the
number of pieces carried from the i-th square of the walk onto the next one, the first being
lifted off the source. A valid carries list is positive and strictly decreasing, and `None`
stands for `[height of the source]`.

## Model

| member | source | states |
|---|---|---|
| Player.Opponent | src/player.rs:54-61 | `!c` is the other colour |
| Pieces.Stackable | src/board/piece.rs:25-31 | only a flat stone is stackable |
| Pieces.Road | src/board/piece.rs:33-39 | flat stones and cap stones count toward a road, walls do not |
| Pieces.Flattenable | src/board/piece.rs:41-47 | flat and standing stones are flattenable, cap stones are not |
| Pieces.Stack.Len | src/board/piece.rs:122-124 | the height is zero exactly for the empty stack |
| Pieces.Stack.Content | src/board/piece.rs:50-54 | the content vector has one entry per piece and its last entry is the top |
| Pieces.Stack.IsFlattening | src/board/piece.rs:74-80 | holds iff the stack is a single cap stone |
| Pieces.Stack.IsFlattenable | src/board/piece.rs:82-84 | holds iff the stack is empty or its top is not a cap stone |
| Pieces.Stack.IsRoad | src/board/piece.rs:86-88 | holds iff the stack is non-empty and its top is not a wall |
| Pieces.Stack.IsStackable | src/board/piece.rs:90-92 | holds iff the stack is empty or topped by a flat stone |
| Pieces.Stack.TopColor | src/board/piece.rs:118-120 | no colour exactly for the empty stack, otherwise the top piece's colour |
| Pieces.Stack.NthPiece | src/board/piece.rs:126-128 | piece `n` is `content[len - 1 - n]`, and piece 0 is the top |
| Pieces.Stack.PushPiece | src/board/piece.rs:144-148 | `+= Piece`: one piece more, the new piece on top, the content vector extended by it, and dropping it gives back the stack |
| Pieces.Stack.DropTop | src/board/piece.rs:150-154 | `-= n` (intended): the height falls by `n` |
| Pieces.Stack.PeekFromTop | src/board/piece.rs:113-116 | `peek_from_top(n)` (intended): exactly `n` pieces, with the same top |
| Pieces.Stack.TakeOff | src/board/piece.rs:109-111 | `take_off(n)` (intended): `n` pieces lifted, kept content followed by taken content is the original content, and both halves of a well-formed stack are well-formed |
| Pieces.Stack.Flatten | src/board/piece.rs:94-103 | a wall top becomes a flat stone of the same colour; the height and the pieces below do not change; every other stack is unchanged |
| Pieces.Stack.CompatibleWith | src/board/piece.rs:105-107 | empty or flat-topped stacks accept anything, a wall accepts only a lone cap stone, a cap stone accepts nothing |
| Pieces.Stack.Extend | src/board/piece.rs:140-140 | extending adds the other stack's height, and its top becomes the top |
| Pieces.Stack.AddStack | src/board/piece.rs:136-142 | `+= Stack`: heights add; the top pieces are exactly `other` and below them is this stack flattened; well-formedness is kept |
| Pieces.Stack.TakeOffAsWritten | src/board/piece.rs:109-111 | the index `len - 1 - n` exists exactly when `n < len` |
| Pieces.TakeOffAsWrittenTakesOneMore | src/board/piece.rs:109-116 | as written, `take_off(n)` lifts `n + 1` pieces, and it panics for `n == len` |
| Pieces.TakeOffAsWrittenFailsOnSinglePiece | src/board/piece.rs:109-111 | as written, a one-piece stack cannot lift its piece; the intended `take_off(1)` lifts it and leaves the square empty |
| Pieces.PeekAll | src/board/piece.rs:113-116 | peeking at all pieces gives the whole stack |
| Pieces.DropDrop | src/board/piece.rs:150-154 | `-= a` then `-= b` is `-= a + b` |
| Pieces.SplitRebuilds | src/board/piece.rs:109-116 | what `-= n` keeps followed by what `peek_from_top(n)` shows is the whole content |
| Pieces.TakeOffKeepsWellFormed | src/board/piece.rs:109-111 | splitting a stack with only flat stones below its top gives two such stacks |
| Pieces.PeekOfAdd | src/board/piece.rs:136-142 | the top `m` pieces after `+= other` are the top `m` of `other` |
| Pieces.DropOfAdd | src/board/piece.rs:136-142 | dropping `l` of the added pieces leaves the flattened stack extended by the rest |
| Pieces.PeekOfPeek | src/board/piece.rs:113-116 | peeking `b` pieces from a peek of `a >= b` pieces is peeking `b` pieces |
| Pieces.FlattenedBase | src/board/piece.rs:94-107 | a well-formed stack that accepts another has only flat stones once flattened |
| Geometry.Go | src/board.rs:19-26 | a step changes one coordinate, and North and East increase it |
| Geometry.GoAdjacent | src/board.rs:19-26 | a step reaches an orthogonal neighbour |
| Geometry.GoThenOpposite | src/board.rs:19-26 | a step then the opposite step returns to the start |
| Geometry.HopStep | src/simulator/logic.rs:111-114 | the cursor after `j + 1` steps is one step on from the cursor after `j` |
| Geometry.HopInjective | src/simulator/logic.rs:111-114 | different step counts reach different squares |
| Stash.PiecesStash.Take | src/move_logic.rs:82-86 | `take_piece` lowers the counter for the kind by one, leaves the other counter, and keeps walls and flat stones on one counter |
| Boards.BoardState.With | src/board.rs:34-38 | writing through `IndexMut` changes that square only, and neither stash |
| Boards.BoardState.Taken | src/move_logic.rs:82-86 | the grid is unchanged, the drawn counter falls by one, every other counter is unchanged |
| Boards.BoardState.Placed | src/move_logic.rs:131-132 | `place`: the square holds just the new piece, every other square is unchanged, and exactly the drawn counter falls by one |
| Boards.BoardState.Slid | src/move_logic.rs:137-138 | `slide`: the source loses its top `n`, the neighbour gets them with `+=`, every other square and both stashes are unchanged |
| Boards.Initial | src/move_logic.rs:41-50 | an empty square board of the size with the same stash from the table for both colours |
| Boards.WithCount | src/board.rs:34-38 | writing one square changes the piece total by the change in that square's height |
| Boards.SlidConservesPieces | src/move_logic.rs:137-138 | a slide keeps the number of pieces on the board |
| Boards.PlacedAddsOnePiece | src/move_logic.rs:131-132 | a placement adds exactly one piece to the board |
| Boards.Board.constructor | src/board.rs:48-50 | `Board::new` with both stashes from the table |
| Boards.Board.Set | src/board.rs:34-38 | `IndexMut` write, as `BoardState.With`, for well-formed stacks only |
| Boards.Board.RemoveFrom | src/board.rs:52-56 | returns the old stack and leaves the square empty, everything else unchanged |
| Boards.Board.Empty | src/board.rs:58-60 | leaves the square empty, everything else unchanged |
| Boards.Board.TakePiece | src/move_logic.rs:82-86 | returns `Piece(kind, c)` and draws it, as `BoardState.Taken` |
| Boards.Board.Place | src/move_logic.rs:131-132 | as `BoardState.Placed` |
| Boards.Board.Slide | src/move_logic.rs:137-138 | as `BoardState.Slid` |
| Lines.LineStep | src/move_logic.rs:137-138 | one slide on the walk's stacks changes only the two entries concerned |
| Lines.LineNextStep | src/simulator/logic.rs:111-114 | after `i` steps of a checked walk, step `i + 1` is allowed and keeps the partial-walk description |
| Lines.LandedEntry | src/simulator/logic.rs:111-114 | a square left behind holds its flattened stack under source pieces `v[j - 1]` to `v[j]` from the top |
| Rules.InBoundsMeansLastHopOnBoard | src/simulator/logic.rs:70-75 | the intended bounds rule holds iff the last hop is on the board |
| Rules.OutOfBoundsAsWrittenAdmitsOffBoardHop | src/simulator/logic.rs:70-75 | as written, North and East accept a last hop one square past the edge; South and West match the intended rule |
| Rules.SlideCarriesShorthand | src/simulator/logic.rs:54-57 | absent carries are the same move as carrying the whole stack one square; empty carries are rejected |
| Rules.SlideNeedsOwnStack | src/simulator/logic.rs:69-84 | a slide from an empty or opponent-topped square is never legal |
| Rules.CheckedWalkOnLine | src/simulator/logic.rs:76-96 | the checks of `applicable` are the walk's conditions on the line of visited stacks |
| Rules.SlidOnLine | src/simulator/logic.rs:111-114 | a slide from hop `i` is the step from entry `i` to entry `i + 1` of that line |
| Rules.SlidOffLine | src/simulator/logic.rs:111-114 | a slide leaves every square off the walk unchanged |
| Rules.SlideStep | src/simulator/logic.rs:111-114 | each carries step of a legal slide is allowed, and the partial result advances by one hop |
| Rules.SlideDone | src/simulator/logic.rs:108-115 | after all steps the board is `SlideResult`: source, intermediate squares, last square, untouched squares, stashes and total |
| Rules.PlacedKeepsAllotment | src/simulator/logic.rs:105-106 | a placement keeps board pieces plus stash pieces, and the opponent's stash |
| Rules.AppliedKeepsAllotment | src/simulator/logic.rs:102-116 | a legal move keeps board pieces plus stash pieces, and no stash counter grows |
| Roads.StartSquare | src/simulator/logic.rs:169-175 | the `ix`-th square of the start edge is on that edge and on the board |
| Roads.StartSquareIndex | src/simulator/logic.rs:169-175 | every square of the start edge is the start square of its index |
| Roads.Neighbours | src/simulator/logic.rs:145-161 | `collect_neighbours` gives exactly the orthogonal neighbours on the board |
| Roads.StartFrontier | src/simulator/logic.rs:168-177 | the first frontier is exactly the qualifying squares of the start edge |
| Roads.NextFrontier | src/simulator/logic.rs:182-182 | nothing closed, nothing next |
| Roads.NextFrontierMembers | src/simulator/logic.rs:182-182 | the next frontier is exactly the qualifying neighbours of the squares just closed |
| Roads.StartReachable | src/simulator/logic.rs:162-177 | a qualifying start square is reachable |
| Roads.ExtendReach | src/simulator/logic.rs:182-182 | reachability passes to qualifying neighbours |
| Roads.ClosedHoldsChain | src/simulator/logic.rs:179-187 | a set closed under starts and qualifying neighbours holds the end of every chain |
| Roads.NoRoadOutside | src/simulator/logic.rs:179-187 | if such a closed set holds no goal square, there is no road |
| Roads.SearchStarts | src/simulator/logic.rs:168-177 | the search invariant holds before the first round |
| Roads.SearchStep | src/simulator/logic.rs:179-186 | one round keeps the search invariant, and no goal square has been seen if the round does not return |
| Roads.SearchShrinks | src/simulator/logic.rs:179-181 | closing a new square leaves fewer squares to close |
| Roads.GoalReached | src/simulator/logic.rs:183-185 | a goal square in the frontier ends a road |
| Simulator.ContainsZero | src/simulator/logic.rs:58-58 | true iff some carry is zero |
| Simulator.Decreasing | src/simulator/logic.rs:59-68 | true iff the carries are strictly decreasing |
| Simulator.NextHop | src/simulator/logic.rs:86-93 | one hop of the walk: the next square, the top `v[i]` pieces of the source, and whether the square accepts them |
| Simulator.AllCompatible | src/simulator/logic.rs:76-96 | true iff the source has `v[0]` pieces, is not the opponent's, and every hop accepts its pieces |
| Simulator.Logic.constructor | src/simulator/logic.rs:15-17 | a new engine holds the initial board |
| Simulator.Logic.Applicable | src/simulator/logic.rs:47-100 | true iff the move is `Legal` on the current board |
| Simulator.Logic.Apply | src/simulator/logic.rs:102-118 | a legal move leaves the board `AppliedTo` requires, and the answer is the outcome of the new board |
| Simulator.Logic.SlideAlong | src/simulator/logic.rs:108-115 | the carries loop leaves `SlideResult` |
| Simulator.Logic.SlideHop | src/simulator/logic.rs:111-114 | one slide and one cursor step advance the partial result |
| Simulator.Logic.FirstTurn | src/simulator/logic.rs:31-33 | the board after placing a flat stone of the opponent's colour |
| Simulator.Logic.GetOutcome | src/simulator/logic.rs:120-129 | no outcome if neither colour has won, a tie if both have, otherwise the winner, always with the current board |
| Simulator.Logic.IsWinner | src/simulator/logic.rs:131-133 | true iff the colour has a North or an East road |
| Simulator.Logic.IsWinnerForDir | src/simulator/logic.rs:135-188 | true iff a chain of squares that qualify for the colour joins the start edge to the goal edge |
| Analyzer.Metric.With | src/analyzer.rs:35-40 | `of(c)` reads what `of_mut(c)` wrote, and the other colour is unchanged |
| Analyzer.Fields | src/analyzer.rs:82-82 | the board's fields: each names a square with its stack, every square appears, no square twice |
| Analyzer.FieldsOfBoard | src/analyzer.rs:82-82 | `(p, s)` is a field iff `p` is on the board and `s` is its stack |
| Analyzer.DominanceCounts | src/analyzer.rs:54-57 | the fold counts, per colour, the fields that colour tops |
| Analyzer.OccupiedSplits | src/analyzer.rs:54-54 | each occupied square is topped by exactly one colour |
| Analyzer.DominanceOfBoard | src/analyzer.rs:53-58 | the fold over the board counts, per colour, the squares that colour tops |
| Analyzer.AbsoluteRoadDominance | src/analyzer.rs:53-58 | per colour, the number of squares that colour tops; red plus black is the number of occupied squares |
| Analyzer.StonesLeft | src/analyzer.rs:60-64 | each colour's stone counter |
| Analyzer.CapsLeft | src/analyzer.rs:66-70 | each colour's cap stone counter |
| Analyzer.PlacingLowersOneMetric | src/analyzer.rs:60-70 | a placement lowers exactly one of the four counters, by one |
| Analyzer.SpaceToBorderBounds | src/analyzer.rs:96-101 | a walk of `k` hops stays on the board iff `k` is at most the space to the border |
| Analyzer.DistributeAsWrittenWitnesses | src/analyzer.rs:102-114 | as written, `distribute(4, 2)` is the flat list `[1, 3, 2, 2]`, `distribute(2, 2)` is empty, and `distribute(1, 2)` underflows |
| Analyzer.DistributeMembers | src/analyzer.rs:102-114 | the intended `distribute` lists exactly the splits of `pieces` into `parts` positive counts |
| Analyzer.DistributeDistinct | src/analyzer.rs:102-114 | the intended `distribute` lists each split once |
| Analyzer.DistributeFromDistinct | src/analyzer.rs:106-112 | the splits with first count at least `taken` are listed once each, since those starting at `taken` differ in their first count from the later ones |
| Analyzer.CarriesOfInjective | src/analyzer.rs:120-120 | two splits with the same carries list are the same split |
| Analyzer.DistributeFromMembers | src/analyzer.rs:106-112 | the loop over the first count lists exactly the splits whose first count is at least where it starts |
| Analyzer.CarriesOfShape | src/analyzer.rs:102-120 | positive drop counts turn into positive, strictly decreasing carries that start with their sum |
| Analyzer.DropsRebuild | src/analyzer.rs:102-120 | every positive, strictly decreasing carries list comes from positive drop counts that sum to its first carry |
| Analyzer.AsSlidesMembers | src/analyzer.rs:118-120 | the slides for the splits of `pieces` into `parts` are exactly the `parts`-hop slides lifting `pieces` |
| Analyzer.SlidesByPartsMembers | src/analyzer.rs:118-118 | the inner loop offers exactly the slides with a hop count in its range |
| Analyzer.SlidesByPiecesMembers | src/analyzer.rs:116-119 | the outer loop offers exactly the slides with a lifted count in its range |
| Analyzer.AsSlidesDistinct | src/analyzer.rs:118-120 | distinct splits become distinct slides |
| Analyzer.SlidesByPartsDistinct | src/analyzer.rs:118-118 | the inner loop lists each slide once, since each hop count gives slides of its own length |
| Analyzer.SlidesByPiecesDistinct | src/analyzer.rs:116-119 | the outer loop lists each slide once, since each lifted count gives slides of its own first carry |
| Analyzer.MakeSlidesDistinct | src/analyzer.rs:95-122 | the intended `make_slides` lists each slide once |
| Analyzer.MakeSlidesMembers | src/analyzer.rs:95-122 | intended `make_slides` offers exactly the carries lists that are positive, strictly decreasing, at most the space to the border long, and lift at most the stack height and the board size |
| Analyzer.OfferedPassesChecks | src/analyzer.rs:115-120 | from a player-topped square, a list is offered iff it passes the structural, ownership and board-size checks of `applicable` |
| Analyzer.CornerWalksAsWritten | src/analyzer.rs:115-121 | as written, a corner stack of height 1 or 2 on a 3 by 3 board gets only the North slides `[1]` and `[2]` |
| Analyzer.MakeSlidesAsWrittenOverlifts | src/analyzer.rs:115-115 | as written, `max` offers a slide lifting two pieces from a one-piece stack |
| Analyzer.MakeSlidesAsWrittenMissesLastHop | src/analyzer.rs:116-118 | as written, the exclusive ranges miss the two-hop slide `[2, 1]` |
| Analyzer.MakeSlidesAsWrittenUnderflows | src/analyzer.rs:106-106 | as written, a one-piece stack on a 5 by 5 board reaches `distribute(1, 2)` and underflows |
| Analyzer.Partition | src/analyzer.rs:82-83 | free squares are exactly the fields with an empty stack, and occupied fields exactly those with a non-empty one |
| Analyzer.PartitionDistinct | src/analyzer.rs:82-83 | over fields at distinct squares, each free square is listed once and the occupied fields stay at distinct squares |
| Analyzer.OwnedBy | src/analyzer.rs:126-126 | exactly the fields the player tops |
| Analyzer.OwnedByDistinct | src/analyzer.rs:126-126 | the kept fields stay at distinct squares |
| Analyzer.FourWaysDistinct | src/analyzer.rs:127-133 | the four directions' slides of one square are listed once each, all from that square |
| Analyzer.SlidesFromDistinct | src/analyzer.rs:124-134 | over fields at distinct squares, each slide is listed once |
| Analyzer.Placements | src/analyzer.rs:88-92 | one `Place` of the kind per free square, and nothing else |
| Analyzer.SlidesFromMembers | src/analyzer.rs:124-134 | the slides from the fields are the `make_slides` of some field, in one of the four directions |
| Analyzer.SlidesOfBoard | src/analyzer.rs:124-134 | the slides from the player's fields are exactly the offered slides of squares the player tops |
| Analyzer.PlacementsDistinct | src/analyzer.rs:88-92 | distinct free squares give distinct placements |
| Analyzer.PlaceActionsDistinct | src/analyzer.rs:87-93 | each placement is listed once, since the three blocks place different kinds |
| Analyzer.PlaceActionsMembers | src/analyzer.rs:87-93 | flat and standing placements only with stones left, cap placements only with caps left, each on a free square |
| Analyzer.PlacementsLegal | src/analyzer.rs:85-93 | every offered placement is a `Place`, and a placement is offered iff it is legal |
| Analyzer.ActionsOfBoard | src/analyzer.rs:85-137 | placements followed by slides have the four properties below |
| Analyzer.ApplicableActions | src/analyzer.rs:80-138 | a placement is listed iff it is legal; every listed slide is an offered slide of a square the player tops; every such slide is listed; no action is listed twice |

## Left out

- Analyzer.ApplicableActions: a listed slide is not checked against the squares it lands on,
  because `make_slides` does not check that either, so it may still not be legal.
- Analyzer.ApplicableActions: the order of the listed actions is not stated, only which
  actions are listed.
- Analyzer.OfferedPassesChecks: this states the intended generator. As written, the
  generator produces drop counts rather than carries, and other lists; see Findings.
- Analyzer.Fields: the board iterator is not part of this model, so row by row order is
  an assumption.
- Analyzer: the analyzer borrows a board. Every member takes the board value, because the
  analyzer never changes the board.
- `Metric<T>` is generic in the source, but only `Metric<u16>` is used, so it is modelled
  with `nat` counts.
- `Analyzer::highest_stack` is left out. It keeps only the empty stacks and then unwraps
  their colour, so it always panics.
- `Analyzer::longest_road` is left out because it is `unimplemented!`.
- Integer widths are not modelled: `usize` and `u16` become unbounded `nat`.
  - Stash counters start at most at 50 and only go down.
  - Heights and positions are bounded by the board.
  - The `usize` underflows in `go` (South/West from 0), in `take_off` and in `distribute`
    are modelled as preconditions or as `None`.
  - The `u16` decrement in `take_piece` (src/move_logic.rs:82-86) would underflow on a
    zero counter; see `Stash.PiecesStash.Take` below.
- Stash.PiecesStash.Take: requires a positive counter for the kind. The source decrements
  without a check; `apply` reaches it only after `debug_assert!(self.applicable(..))`,
  and `applicable` checks the counter (a check made in debug builds only).
- Boards.Board.Set: requires a well-formed stack, which `IndexMut` does not demand. The
  class keeps every stack well formed: every stack written is `Empty`, or comes from
  `PushPiece`, `AddStack` or splitting a well-formed stack.
- `Logic::applicable` on an off-board source with absent carries indexes the board first
  and panics. The model answers `false` there.
- `PiecesStash::for_board_size` panics on sizes other than 3, 4, 5, 6 and 8. Here
  `SupportedSize` is part of `BoardState.Valid`, so every board operation requires it.
- `Stack` is a value type in the source (`Clone`, stored by value, never shared).
  `take_off`, `flatten`, `+=` and `-=` change a stack in place; here they are functions
  returning the new stack. The board that holds the stacks is a class that is updated in
  place.
- `Logic::last_applied_move` is left out: `apply` never writes the field, so it is always
  `None`.
- `Logic::peek` and the test-only `Logic::from_board` are left out. The class exposes its
  board directly.
- `MoveLogic::applicable`, `MoveLogic::is_winner_for_dir`, `MoveLogic::get_outcome` and
  `MoveLogic::is_winner` are left out. They are the superseded engine; `src/simulator/logic.rs`
  replaces them. Its stash, `new`, `piece_count`, `take_piece` and the bodies of its Place and
  Slide branches are modelled, as the board's stash, `place` and `slide`.
- The console player, printer, command-line parser, turn loop and binary are left out. They
  are I/O and orchestration outside the rules engine.
- The two `HashSet`s of the road search are Dafny sets. Their hashing and iteration order
  do not affect the answer.
- The concrete expected boards of the source's tests are not restated as lemmas. The
  general slide result (`Rules.SlideDone`) and conservation (`Rules.AppliedKeepsAllotment`)
  cover them.

## Findings

| source | as written | input that shows it | evidently intended | confidence | as-written member | corrected member |
|---|---|---|---|---|---|---|
| src/board/piece.rs:109-116 | `take_off`, `peek_from_top` and `-=` (line 152) split at `len - 1 - n`, so they select `n + 1` pieces and underflow for `n == len` | `take_off(1)` on a one-piece stack, which happens when one piece slides off a single stone | exactly the top `n` pieces | not executed | Pieces.TakeOffAsWrittenTakesOneMore | Pieces.Stack.TakeOff |
| src/simulator/logic.rs:70-75 | North and East reject only when `row + k > size` (resp. `col`) | on a 3 by 3 board a one-carry North slide from row 2: `2 + 1 > 3` is false, so the hop onto row 3 passes the bounds check; the compatibility walk (src/simulator/logic.rs:86-93) then indexes `board[pos.go(dir)]` at row 3, outside the board, and panics, so as written this slide crashes `applicable` rather than being accepted | reject when the last hop is off the board, `row + k >= size` | not executed | Rules.OutOfBoundsAsWrittenAdmitsOffBoardHop | Rules.InBoundsMeansLastHopOnBoard |
| src/analyzer.rs:102-113 | `distribute` concatenates every split into one flat list of drop counts | `distribute(4, 2)` is `[1, 3, 2, 2]` instead of the splits `[1, 3]`, `[2, 2]`, `[3, 1]`, and drop counts are not the carries `Slide` expects | one list per split, each turned into carries | not executed | Analyzer.DistributeAsWrittenWitnesses | Analyzer.DistributeMembers |
| src/analyzer.rs:106-106 | the first count runs over `1..=(pieces - parts)` | `distribute(2, 2)` misses `[1, 1]`; `distribute(1, 2)` underflows `usize` | first counts `1..=(pieces - parts + 1)`, and no split when `pieces < parts` | not executed | Analyzer.MakeSlidesAsWrittenUnderflows | Analyzer.DistributeFromMembers |
| src/analyzer.rs:115-115 | `effective_size = max(stack.len(), size)` | a one-piece stack in the corner of a 3 by 3 board is offered a slide lifting two pieces | `min`: at most the stack height and at most the board size | not executed | Analyzer.MakeSlidesAsWrittenOverlifts | Analyzer.MakeSlidesMembers |
| src/analyzer.rs:116-118 | both ranges are exclusive, `1..effective_size` and `1..min(effective_size, space_to_border)` | a two-piece corner stack on a 3 by 3 board is not offered the two-hop slide `[2, 1]` | inclusive ranges up to the limit, for both the lifted count and the hop count | not executed | Analyzer.MakeSlidesAsWrittenMissesLastHop | Analyzer.SlidesByPiecesMembers |
