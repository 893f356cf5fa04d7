# minimax: alpha-beta search over two-player games, in Dafny

This project models the core of `minimax`, a Rust library. The library solves
two-player, zero-sum games with depth-limited minimax search and alpha-beta
pruning. The model covers four parts of the library.

- **The game contract** (`GameStrategy`). A game offers these read-only queries:
  `evaluate`, `get_winner`, `is_game_tied`, `is_game_complete`,
  `get_available_moves`, `get_board`, `is_a_valid_move` and
  `get_a_sentinel_move`. It also offers two mutators, `play` and `clear`.
  - The contract is modelled as the record of functions `GameStrategy.Game`.
    Each query is a function of the state, and `play` and `clear` return the new
    state.
  - `GameStrategy.Lawful` states what the engine relies on: the sentinel is never
    available, available moves are valid, and `clear` undoes `play` on an
    available move.
- **The engine** (`AlphaBetaMiniMaxStrategy`).
  - For any lawful `Game`, `AlphaBetaMinimax.Minimax` says what `minimax_score`
    computes, and `AlphaBetaMinimax.BestMove` says what `get_best_move` computes.
    Both state the leaf case, the max/min fold, the alpha-beta cut-off, the
    mate-distance shift and the root's last-best tie-break. Every score they
    give is finite. They score every child from the parent's state, which is
    what the source's play, recurse, clear yields when `clear` undoes `play`.
  - The two routines themselves are methods of `TicTacToeSearch` that work in
    place on a tic-tac-toe board: play a move, recurse, clear it again. They
    are proved to return what the specification functions say of `Rules()`
    and to leave the board as they found it.
  - `AlphaBetaProperties` proves what the specification means for every lawful
    game:
    - the score is the shifted best of the child scores explored before the
      cut-off;
    - exploration stops exactly at the first child that closes the window;
    - `alpha` only rises and `beta` only falls;
    - the root returns the sentinel on a finished game, and otherwise the last of
      the best-scoring available moves.
- **Tic-tac-toe** (`TicTacToe`). This is an N x N board kept as one flat vector.
  - The line scans, `get_winner`'s precedence (diagonals, then rows, then
    columns, the maximiser before the minimiser) and the tie and completion
    predicates are all modelled, and so are the 0 / +1000 / -1000 evaluation and
    the moves in index order.
  - `play` and `clear` write one cell of an `array<char>` in place.
  - Tic-tac-toe is proved lawful when its empty character is `'-'`.
- **One search worked out** (`SearchExamples`). On the 3 x 3 position
  `x x o / x - o / - o -`, with 'x' to move, cell 6 wins at once. The root
  called as `get_best_move(max_depth, true)` picks cell 8 at `max_depth == 1`
  and cell 6 at `max_depth == 2`.
- **The older copy in `src/lib.rs`**. It has the same struct under a `Strategy`
  trait and the same engine. It differs in three ways:
  - the winner is a bare `char`;
  - `value`, `alpha` and `beta` are updated with explicit `>=` / `<=`
    comparisons;
  - the root plays every candidate for the minimiser, whichever side asks.

  Its queries and engine are proved to compute the same as the current code. The
  root is proved to equal `BestMove` with the candidates played for the
  minimiser. When `is_maximizing` is true, that is the choice the current code
  makes.

## Model

| member | source | states |
|---|---|---|
| TicTacToeGame.CreateGame | src/games/tic_tac_toe.rs:17-31 | a board of `size*size` cells, each holding the empty character; the defaults are '-', 'o' for the maximiser and 'x' for the minimiser |
| TicTacToeGame.TicTacToe.constructor | src/games/tic_tac_toe.rs:17-31 | the new game's position is exactly `CreateGame` of the same arguments, on a fresh array |
| TicTacToeGame.RowFrom | src/games/tic_tac_toe.rs:108-115 | the early-return scan of a row from `from` on is true iff every remaining cell of the row is `ch` |
| TicTacToeGame.ColFrom | src/games/tic_tac_toe.rs:98-105 | the same for a column |
| TicTacToeGame.MainDiagonalFrom | src/games/tic_tac_toe.rs:121-127 | the same for the main diagonal, cell `i` at `size*i+i` |
| TicTacToeGame.AntiDiagonalFrom | src/games/tic_tac_toe.rs:128-138 | the same for the anti-diagonal, cell `i` at `size*(size-1-i)+i` |
| TicTacToeGame.CheckRow | src/games/tic_tac_toe.rs:107-115 | `check_row` is true iff row `row` is full of `ch` |
| TicTacToeGame.CheckCol | src/games/tic_tac_toe.rs:97-105 | `check_col` is true iff column `col` is full of `ch` |
| TicTacToeGame.CheckDiagonal | src/games/tic_tac_toe.rs:117-139 | `check_diagonal` is true iff the main diagonal (flag set) or the anti-diagonal is full of `ch` |
| TicTacToeGame.CheckDiagonals | src/games/tic_tac_toe.rs:49-63 | a maximiser diagonal beats a minimiser diagonal; with neither, the empty character; a non-empty answer owns a diagonal |
| TicTacToeGame.RowsFrom | src/games/tic_tac_toe.rs:66-79 | the loop from row `from` on answers the empty character or a player, and a player only when it fills a row at or after `from` |
| TicTacToeGame.RowsFromFirstWins | src/games/tic_tac_toe.rs:66-79 | the first row that either player fills decides, the maximiser first in that row; with no full row, the empty character |
| TicTacToeGame.ColsFrom | src/games/tic_tac_toe.rs:82-95 | the same as `RowsFrom`, over columns |
| TicTacToeGame.ColsFromFirstWins | src/games/tic_tac_toe.rs:82-95 | the first column that either player fills decides, the maximiser first in that column; with none, the empty character |
| TicTacToeGame.CheckRows | src/games/tic_tac_toe.rs:65-79 | the first full row decides, the maximiser before the minimiser; no full row gives the empty character; a non-empty answer owns a row |
| TicTacToeGame.CheckCols | src/games/tic_tac_toe.rs:81-95 | the same over columns |
| TicTacToeGame.Winner | src/games/tic_tac_toe.rs:170-180 | always `Some`; the answer is the empty character or one of the two players |
| TicTacToeGame.MovesFrom | src/games/tic_tac_toe.rs:194-202 | the push loop from `from` on lists at most one move per remaining cell |
| TicTacToeGame.MovesFromExactly | src/games/tic_tac_toe.rs:194-202 | the push loop from `from` on lists, in strictly increasing order, exactly the '-' cells at or after `from` |
| TicTacToeGame.AvailableMoves | src/games/tic_tac_toe.rs:194-202 | exactly the indices of the '-' cells, in strictly increasing order |
| TicTacToeGame.IsGameTied | src/games/tic_tac_toe.rs:182-186 | `is_game_tied`: the winner is the empty character and no move is left; a tied game is complete |
| TicTacToeGame.IsGameComplete | src/games/tic_tac_toe.rs:188-192 | `is_game_complete`: no move left, or a winner other than '-'; a game that is not complete has an empty cell |
| TicTacToeGame.IsAValidMove | src/games/tic_tac_toe.rs:222-224 | `is_a_valid_move`: with '-' as the empty character, a cell is a valid move iff it is an available move |
| TicTacToeGame.Evaluate | src/games/tic_tac_toe.rs:157-168 | 0 iff tied; 1000 iff not tied and the maximiser is the winner; -1000 iff not tied and the winner is anyone else, the empty character of an unfinished game included |
| TicTacToeGame.SentinelMove | src/games/tic_tac_toe.rs:226-228 | `size*size+1` lies past the end of the board and is never an available move |
| TicTacToeGame.Played | src/games/tic_tac_toe.rs:204-212 | the mover's character at `mv`, every other cell and every setting unchanged |
| TicTacToeGame.Cleared | src/games/tic_tac_toe.rs:214-216 | the empty character at `mv`, every other cell and every setting unchanged |
| TicTacToeGame.Rules | src/games/tic_tac_toe.rs:144-229 | tic-tac-toe as a `Game`: each field of the record is the matching query or update on the board |
| TicTacToeGame.TicTacToe.Position | src/games/tic_tac_toe.rs:3-9 | the snapshot of the struct that the queries read: the array's contents and the four settings |
| TicTacToeGame.TicTacToe.Play | src/games/tic_tac_toe.rs:204-212 | the new position is `Played` of the old one: one cell written in place |
| TicTacToeGame.TicTacToe.Clear | src/games/tic_tac_toe.rs:214-216 | the new position is `Cleared` of the old one |
| TicTacToeProperties.WinnerOwnsALine | src/games/tic_tac_toe.rs:170-180 | a winner other than the empty character is a player with a full row, column or diagonal |
| TicTacToeProperties.NoLineNoWinner | src/games/tic_tac_toe.rs:170-180 | with no full line for either player the winner is the empty character |
| TicTacToeProperties.LineMeansWinner | src/games/tic_tac_toe.rs:170-180 | with distinct characters, a full line for either player means a non-empty winner |
| TicTacToeProperties.WinnerPrecedence | src/games/tic_tac_toe.rs:171-178 | diagonals are checked first and the maximiser first within them; with no diagonal, a full row decides |
| TicTacToeProperties.NoMovesIffFull | src/games/tic_tac_toe.rs:194-202 | no move is available iff no cell holds '-' |
| TicTacToeProperties.TiedIff | src/games/tic_tac_toe.rs:182-186 | tied iff the board is full and neither player has a line |
| TicTacToeProperties.CompleteIff | src/games/tic_tac_toe.rs:188-192 | with '-' as the empty character: complete iff the board is full or either player has a line |
| TicTacToeProperties.EvaluateByLines | src/games/tic_tac_toe.rs:157-168 | 1000 for a maximiser line only, -1000 for a minimiser line only, 0 for a full board without lines, and -1000 for an unfinished board without lines |
| TicTacToeProperties.ClearUndoesPlay | src/games/tic_tac_toe.rs:204-216 | clearing a just-played available move restores the position exactly |
| TicTacToeProperties.CustomEmptyBreaksUndo | src/games/tic_tac_toe.rs:214-216 | with another empty character, clear writes it into a '-' cell, so it does not undo play, and an available move is not a valid one |
| TicTacToeProperties.CustomEmptyIsComplete | src/games/tic_tac_toe.rs:188-192 | with another empty character and players other than '-', every position counts as complete |
| TicTacToeProperties.MovesFromAfterPlay | src/games/tic_tac_toe.rs:194-212 | after playing an empty cell, the move list from any index up to that cell loses exactly that cell |
| TicTacToeProperties.MovesFromPastPlayedCell | src/games/tic_tac_toe.rs:194-212 | past the played cell the move list is unchanged |
| TicTacToeProperties.RemoveMove | src/games/tic_tac_toe.rs:204-212 | helper of `PlayTakesMove` and `MovesFromAfterPlay`, the move list of a position after `play`: the list without `x` holds exactly the other elements |
| TicTacToeProperties.RemoveStrictlySorted | src/games/tic_tac_toe.rs:204-212 | helper of `PlayTakesMove`: removing a present element from a strictly increasing move list shortens it by one |
| TicTacToeProperties.RemoveAbsent | src/games/tic_tac_toe.rs:204-212 | helper of `MovesFromAfterPlay`: removing an absent element changes nothing |
| TicTacToeProperties.PlayTakesMove | src/games/tic_tac_toe.rs:194-212 | playing an available move removes it, and only it, from the available moves |
| TicTacToeProperties.TicTacToeIsLawful | src/strategy/game_strategy.rs:27-39 | with '-' as the empty character, tic-tac-toe keeps the game contract: the sentinel is not available, available moves are valid, and clear undoes play |
| TicTacToeProperties.MovesFromFresh | src/games/tic_tac_toe.rs:194-202 | on a blank board every cell from `from` on is a move |
| TicTacToeProperties.BlankBoardHasNoLine | src/games/tic_tac_toe.rs:98-139 | on a non-empty blank board no player has a line |
| TicTacToeProperties.FreshGame | src/games/tic_tac_toe.rs:17-31 | a fresh default game of size at least 1 has all `n*n` cells available, no winner, is neither complete nor tied, and evaluates to -1000 |
| TicTacToeProperties.EmptyBoardMaximizerWins | src/games/tic_tac_toe.rs:49-63 | on a 0 x 0 board the empty diagonal counts as the maximiser's, so the game is complete and worth 1000 |
| GameStrategy.Lawful | src/strategy/game_strategy.rs:27-39 | what the engine relies on from a game: the sentinel is never available, available moves are valid, and `clear` undoes `play` of an available move for either side |
| Scores.Le | src/strategy/alpha_beta_minimax.rs:108-110 | the `<=` of `f64` on integers and the two infinities: -inf is below and +inf above every score, and it is reflexive |
| Scores.Start | src/strategy/alpha_beta_minimax.rs:94-95 | the loop's starting `value`: -inf (below every score) for the maximiser, +inf (above every score) for the minimiser |
| Scores.LeTotalOrder | src/strategy/alpha_beta_minimax.rs:58-75 | `<=` on scores is reflexive, total, antisymmetric and transitive |
| Scores.Max | src/strategy/alpha_beta_minimax.rs:102-103 | `max`: an upper bound of both arguments that is one of them |
| Scores.Min | src/strategy/alpha_beta_minimax.rs:121-122 | `min`: a lower bound of both arguments that is one of them |
| Scores.MaxOf | src/strategy/alpha_beta_minimax.rs:95-111 | the running maximum over a sequence bounds the start and every element, and is one of them |
| Scores.MinOf | src/strategy/alpha_beta_minimax.rs:117-133 | the running minimum over a sequence: the lower bound of the start and every element, and one of them |
| Scores.Shift | src/strategy/alpha_beta_minimax.rs:112-115 | 0 is returned as it is; a nonzero finite score moves down by the distance when maximising and up when minimising |
| Scores.ShiftPrefersSooner | src/strategy/alpha_beta_minimax.rs:112-138 | for a nonzero score, a deeper node's shift gives the maximiser a strictly lower score and the minimiser a strictly higher one |
| AlphaBetaMinimax.Minimax | src/strategy/alpha_beta_minimax.rs:81-140 | `minimax_score` for any game: its result is always finite |
| AlphaBetaMinimax.MinimaxChildren | src/strategy/alpha_beta_minimax.rs:94-134 | the loop over the moves with its cut-off: finite from a finite start, or from -inf / +inf when there is a move |
| AlphaBetaMinimax.AtLeastAsGood | src/strategy/alpha_beta_minimax.rs:58-75 | the root's comparison, `<=` for `is_maximizing` and `>=` otherwise; equal scores count, so the later candidate wins a tie |
| AlphaBetaMinimax.BestMove | src/strategy/alpha_beta_minimax.rs:37-79 | `get_best_move` for any game: the sentinel on a complete game, and otherwise the sentinel or an available move |
| AlphaBetaMinimax.PickBest | src/strategy/alpha_beta_minimax.rs:51-78 | the root loop from a running best: the result is the running best move or one of the candidates |
| AlphaBetaMinimax.ExploredScores | src/strategy/alpha_beta_minimax.rs:96-111 | the loop explores at most all moves, and at least one when there is a move |
| AlphaBetaMinimax.RootScores | src/strategy/alpha_beta_minimax.rs:53-56 | one score per candidate: the candidate played for the root's side, scored by `minimax_score(max_depth, is_maximizing, -inf, +inf, max_depth)` |
| TicTacToeSearch.MinimaxScore | src/strategy/alpha_beta_minimax.rs:81-140 | the in-place routine returns `Minimax` of the position on entry and leaves the board as it found it |
| TicTacToeSearch.ScoreChildren | src/strategy/alpha_beta_minimax.rs:94-134 | the in-place loop over the available moves returns `MinimaxChildren` from the start value and leaves the board unchanged |
| TicTacToeSearch.ScoreMove | src/strategy/alpha_beta_minimax.rs:96-107 | one turn of the loop: play, score one level deeper for the other side, clear; the board is unchanged and the score is the child's `Minimax` |
| TicTacToeSearch.GetBestMove | src/strategy/alpha_beta_minimax.rs:37-79 | the in-place root returns `BestMove` with candidates played for `!is_maximizing`, and leaves the board as it found it |
| AlphaBetaProperties.ChildrenFold | src/strategy/alpha_beta_minimax.rs:94-133 | the loop's `value` is the max (maximising) or min (minimising) of the explored child scores |
| AlphaBetaProperties.AlphaAfter | src/strategy/alpha_beta_minimax.rs:103 | `alpha` after any prefix of child scores is at least the starting `alpha` |
| AlphaBetaProperties.BetaAfter | src/strategy/alpha_beta_minimax.rs:122 | `beta` after any prefix of child scores is at most the starting `beta` |
| AlphaBetaProperties.ExploredChildScores | src/strategy/alpha_beta_minimax.rs:96-98 | the j-th explored score is the j-th move's `Minimax` one level deeper, searched with the window the first j scores left |
| AlphaBetaProperties.ExploredUntilCutOff | src/strategy/alpha_beta_minimax.rs:107-110 | no child before the last explored one closes the window; when the loop stops early, the window is closed (`beta <= alpha`) |
| AlphaBetaProperties.MinimaxMeaning | src/strategy/alpha_beta_minimax.rs:81-140 | a leaf returns `evaluate` unchanged; otherwise the score is the shifted best of the explored child scores, and that best is finite |
| AlphaBetaProperties.RootIsUnshifted | src/strategy/alpha_beta_minimax.rs:55-56 | a root candidate is scored at `depth == max_depth`, so its score gets no shift |
| AlphaBetaProperties.GoodnessIsTotalOrder | src/strategy/alpha_beta_minimax.rs:58-75 | the root's comparison (`<=` or `>=`) is total and transitive |
| AlphaBetaProperties.PickBestPicksAmongRootScores | src/strategy/alpha_beta_minimax.rs:51-77 | the root loop picks according to the candidates' root scores alone |
| AlphaBetaProperties.IsLastBest | src/strategy/alpha_beta_minimax.rs:51-77 | the root's choice: `k` scores at least as well as every candidate and the start, and no later candidate scores at least as well |
| AlphaBetaProperties.PickAmong | src/strategy/alpha_beta_minimax.rs:51-77 | the root loop on given scores: the result is the running best move or one of the candidates |
| AlphaBetaProperties.PickAmongKeeps | src/strategy/alpha_beta_minimax.rs:58-61 | when no score is at least as good as the running best, the running best move is kept |
| AlphaBetaProperties.PickAmongIsLastBest | src/strategy/alpha_beta_minimax.rs:51-77 | when some score is at least as good as the start, the pick is the last of the best-scoring candidates |
| AlphaBetaProperties.BestMoveMeaning | src/strategy/alpha_beta_minimax.rs:37-79 | for a lawful game: the sentinel when the game is complete; otherwise the last of the best-scoring available moves, lowest score for `is_maximizing` and highest otherwise, an available, valid, non-sentinel move |
| AlphaBetaProperties.TicTacToeBestMoveIsPlayable | src/strategy/alpha_beta_minimax.rs:37-79 | on an unfinished tic-tac-toe game the chosen move is an available '-' cell of the board |
| AlphaBetaProperties.TicTacToeFinishedGivesSentinel | src/strategy/alpha_beta_minimax.rs:42-46 | on a finished tic-tac-toe game the result is `size*size+1` |
| SearchExamples.HasLine3 | src/games/tic_tac_toe.rs:49-139 | on a 3 x 3 board, a player owns a row, column or diagonal iff one of the eight lines is full of its character |
| SearchExamples.Root | src/strategy/alpha_beta_minimax.rs:51-64 | on the sample position, with 'x' in 4 worth 1000, the root picks 8 when 'x' in 8 scores at most -1000 and 6 otherwise |
| SearchExamples.ShallowSearchMissesWin | src/strategy/alpha_beta_minimax.rs:37-140 | 'x' in 6 wins at once, yet `get_best_move(1, true)` picks 8: both score -1000 and the later one is kept |
| SearchExamples.DeeperSearchTakesWin | src/strategy/alpha_beta_minimax.rs:37-140 | `get_best_move(2, true)` picks the immediate win in 6, the only candidate scored -1000 |
| Legacy.LegacyWinner | src/lib.rs:196-206 | the bare winner character is what the current `get_winner` wraps in `Some`, and is the empty character or a player |
| Legacy.LegacyIsGameTied | src/lib.rs:208-212 | agrees with the current `is_game_tied` |
| Legacy.LegacyIsGameComplete | src/lib.rs:214-218 | agrees with the current `is_game_complete` |
| Legacy.LegacyEvaluate | src/lib.rs:183-194 | agrees with the current `evaluate` |
| Legacy.DocExample | src/lib.rs:17-20 | `create_game(3, None, None, None)` has size 3, '-' as the empty character, nine '-' cells, 'o' and 'x' as the players, nine moves, and is not complete |
| Legacy.LegacyMinimaxScore | src/lib.rs:305-361 | the explicit `>=` / `<=` updates compute the same `Minimax` as the current routine, and the board is left unchanged |
| Legacy.LegacyScoreChildren | src/lib.rs:319-354 | the older in-place loop returns the same `MinimaxChildren` as the current one and leaves the board unchanged |
| Legacy.LegacyScoreMove | src/lib.rs:321-330 | one turn of the older loop: the board is unchanged and the score is the child's `Minimax` |
| Legacy.LegacyGetBestMove | src/lib.rs:265-303 | the older root returns `BestMove` with every candidate played for the minimiser, and leaves the board unchanged |

## Left out

- The `GameStrategy` trait is modelled as a record of functions. The queries
  are pure functions of the state, which is what `&self` gives them. `play` and `clear` return the new state in the record and update the
  array in place in the tic-tac-toe class.
- The in-place engine runs on the tic-tac-toe class only.
- `AlphaBetaMinimax.Minimax` and `AlphaBetaMinimax.BestMove` model the source
  only for lawful games, where `clear` undoes `play`. For a game whose `clear`
  does not restore the state, the source scores later children from a changed
  state, and the specification does not follow it. Of the generic properties
  in `AlphaBetaProperties`, `BestMoveMeaning` assumes `Lawful`; the others hold
  for any `Game`, as statements about the specification.
- The loop of `minimax_score` is the separate method `ScoreChildren`, and its
  body the method `ScoreMove` (`LegacyScoreChildren` and `LegacyScoreMove` for
  the older copy). They do the same play, recurse and clear.
- `Scores.Shift`: the mate-distance shift is meant to make a sooner win score
  better. `ShiftPrefersSooner` proves this for two shifts of the same score.
  It is not proved that the root prefers an immediate win, and it does not
  always do so. `evaluate` gives -1000 to an unfinished position, the same
  score as a win for the minimiser, and the root keeps the later of two equal
  candidates. `SearchExamples.ShallowSearchMissesWin` exhibits such a position
  at `max_depth == 1`, and `SearchExamples.DeeperSearchTakesWin` shows the same
  position searched one level deeper taking the win.
- `TicTacToeSearch.MinimaxScore`: requires `depth >= 0`. With a negative
  `max_depth` the source never reaches `depth == 0` and searches until the game
  ends. The model requires a non-negative depth so that the recursion
  terminates.
- `TicTacToeSearch.GetBestMove`: requires `max_depth >= 0`, for the same
  reason.
- `Legacy.LegacyMinimaxScore`: requires `depth >= 0`, for the same reason.
- `Legacy.LegacyGetBestMove`: requires `max_depth >= 0`, for the same reason.
- The engine methods require the empty character to be '-'.
  - With any other empty character, `clear` writes that character into a cell
    that held '-'. The board then does not return to its state on entry, which
    `CustomEmptyBreaksUndo` shows.
  - A fresh game with a custom empty character is already complete
    (`CustomEmptyIsComplete`), so the source returns the sentinel without
    searching.
- A move off the board makes the source panic when it indexes the vector. In
  `Rules()` such a move is left alone; the engine never plays one. The class
  methods require the move to be on the board.
- Scores are `f64` in the source. Every value is an integer or one of the two
  infinities, so the model uses extended integers. NaN, rounding and overflow do
  not arise and are not modelled.
- The model does not claim that pruning gives the same score as plain minimax.
  The shift is applied inside the pruned recursion, and the source only calls its
  result "good enough, sometimes".
- The searches of `src/tests.rs` are not proved. That file is commented out.
  Its 3 x 3 test plays 'o' in 4 and 'x' in 0, then expects
  `get_best_move(12, true)` to answer in a corner (an even cell). A search
  that deep is far beyond what the verifier can unfold. Its 4 x 4 and 5 x 5
  searches assert nothing. Its setup test is covered by `CreateGame` and
  `FreshGame`.
- `get_board` appears only as the `board` field of the record and the array of
  the class. It has no contract beyond returning the board.
- The unused `GameResult` enum is not modelled.
- The chess wrapper `src/games/chess.rs` is not part of this model. It depends on
  an external chess library, and its `evaluate` is unimplemented.
- `print_board`, `src/drivers/tic_tac_toe.rs` and `src/main.rs` are not part of
  this model. They are console input and output and argument parsing.
- The older `Strategy` trait's associated `Player` type is a bare `char`. The
  older winner is therefore `Legacy.LegacyWinner`, not a field of a separate
  record.
- `play`, `clear` and `get_available_moves` of the older copy
  (`src/lib.rs:220-242`) are identical to the current ones. The class
  `TicTacToeGame.TicTacToe` models both.
