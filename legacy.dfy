/** The older copy of the library (`src/lib.rs`): the same tic-tac-toe struct
    under a `Strategy` trait and the same engine. It differs from the current
    code in three places: the winner is a bare character rather than an
    `Option`, `value`, `alpha` and `beta` are updated with explicit `>=` and
    `<=` comparisons rather than `max` and `min`, and the root plays every
    candidate for the minimiser whichever side asks. The struct with its
    `play` and `clear` is the class `TicTacToe` of the current code. */
module Legacy {
  import opened Scores
  import opened GameStrategy
  import opened TicTacToeGame
  import opened AlphaBetaMinimax
  import opened TicTacToeSearch
  import TicTacToeProperties

  /** `get_winner` of the older copy: the character itself, which is what the
      current `get_winner` wraps in `Some`. */
  function LegacyWinner(p: Position): (r: char)
    ensures Winner(p) == Some(r)
    ensures r == p.defaultChar || r == p.maximizer || r == p.minimizer
  {
    var diagonals := CheckDiagonals(p);
    var rows := if diagonals == p.defaultChar then CheckRows(p) else diagonals;
    if rows == p.defaultChar then CheckCols(p) else rows
  }

  /** `is_game_tied` of the older copy, on the bare winner. */
  predicate LegacyIsGameTied(p: Position)
    ensures LegacyIsGameTied(p) <==> IsGameTied(p)
  {
    LegacyWinner(p) == p.defaultChar && AvailableMoves(p) == []
  }

  /** `is_game_complete` of the older copy, which compares the winner with
      '-' itself rather than with `default_char`. */
  predicate LegacyIsGameComplete(p: Position)
    ensures LegacyIsGameComplete(p) <==> IsGameComplete(p)
  {
    AvailableMoves(p) == [] || LegacyWinner(p) != EMPTY
  }

  /** `evaluate` of the older copy: the same score as the current one. */
  function LegacyEvaluate(p: Position): (r: int)
    ensures r == Evaluate(p)
  {
    if LegacyIsGameTied(p) then 0
    else if LegacyWinner(p) == p.maximizer then 1000
    else -1000
  }

  /** The doc example of the older copy: `create_game(3, None, None, None)`
      has size 3, the '-' empty character and nine empty cells. */
  lemma DocExample()
    ensures var p := CreateGame(3, None, None, None);
      && p.size == 3 && p.defaultChar == '-' && |p.board| == 9
      && (forall i :: 0 <= i < 9 ==> p.board[i] == '-')
      && p.maximizer == 'o' && p.minimizer == 'x'
      && |AvailableMoves(p)| == 9 && !IsGameComplete(p)
  {
    TicTacToeProperties.FreshGame(3);
  }

  /** `minimax_score` of the older copy: `value`, `alpha` and `beta` are
      updated with `>=` and `<=` comparisons instead of `max` and `min`, which
      computes the same score. */
  method LegacyMinimaxScore(game: TicTacToe, depth: int, isMaximizing: bool, alpha: Score, beta: Score,
                            maxDepth: int)
    returns (r: Score)
    requires game.Valid() && game.defaultChar == EMPTY
    requires depth >= 0
    modifies game.board
    ensures game.board[..] == old(game.board[..])
    ensures r == Minimax(Rules(), old(game.Position()), depth, isMaximizing, alpha, beta, maxDepth)
    decreases depth, 2
  {
    TicTacToeNode(game.Position(), depth, isMaximizing, alpha, beta, maxDepth);
    var avail := AvailableMoves(game.Position());
    if depth == 0 || LegacyIsGameComplete(game.Position()) || |avail| == 0 {
      return Fin(LegacyEvaluate(game.Position()));
    }
    var value := LegacyScoreChildren(game, avail, depth, isMaximizing, alpha, beta, maxDepth);
    r := Shift(value, isMaximizing, maxDepth - depth);
  }

  /** The loop of the older `minimax_score`, with its alpha-beta cut-off. */
  method LegacyScoreChildren(game: TicTacToe, avail: seq<nat>, depth: int, isMaximizing: bool, alpha: Score,
                             beta: Score, maxDepth: int)
    returns (value: Score)
    requires game.Valid() && game.defaultChar == EMPTY
    requires depth >= 1 && avail == AvailableMoves(game.Position())
    modifies game.board
    ensures game.board[..] == old(game.board[..])
    ensures value == MinimaxChildren(Rules(), old(game.Position()), avail, depth, isMaximizing, alpha, beta, maxDepth,
                                     Start(isMaximizing))
    decreases depth, 1
  {
    ghost var s0 := game.Position();
    var a, b := alpha, beta;
    value := Start(isMaximizing);
    for i := 0 to |avail|
      invariant game.Position() == s0
      invariant MinimaxChildren(Rules(), s0, avail, depth, isMaximizing, alpha, beta, maxDepth, Start(isMaximizing))
             == MinimaxChildren(Rules(), s0, avail[i..], depth, isMaximizing, a, b, maxDepth, value)
    {
      var mv := avail[i];
      var score := LegacyScoreMove(game, mv, depth, isMaximizing, a, b, maxDepth);
      ghost var value0, a0, b0 := value, a, b;
      LeTotalOrder(score, value, a);
      LeTotalOrder(score, b, a);
      if isMaximizing {
        if Le(value, score) {
          value := score;
        }
        if Le(a, score) {
          a := score;
        }
      } else {
        if Le(score, value) {
          value := score;
        }
        if Le(score, b) {
          b := score;
        }
      }
      TicTacToeStep(s0, avail, i, depth, isMaximizing, a0, b0, maxDepth, value0, score, a, b, value);
      if Le(b, a) {
        break;
      }
    }
  }

  /** The body of the loop of the older `minimax_score`. */
  method LegacyScoreMove(game: TicTacToe, mv: nat, depth: int, isMaximizing: bool, alpha: Score, beta: Score,
                         maxDepth: int)
    returns (score: Score)
    requires game.Valid() && game.defaultChar == EMPTY
    requires depth >= 1 && mv in AvailableMoves(game.Position())
    modifies game.board
    ensures game.board[..] == old(game.board[..])
    ensures mv < |old(game.Position()).board|
    ensures score == Minimax(Rules(), Played(old(game.Position()), mv, isMaximizing), depth - 1, !isMaximizing,
                             alpha, beta, maxDepth)
    decreases depth, 0
  {
    ghost var s0 := game.Position();
    game.Play(mv, isMaximizing);
    score := LegacyMinimaxScore(game, depth - 1, !isMaximizing, alpha, beta, maxDepth);
    game.Clear(mv);
    TicTacToeProperties.ClearUndoesPlay(s0, mv, isMaximizing);
  }

  /** `get_best_move` of the older copy: every candidate is played for the
      minimiser, and scored with the caller's `is_maximizing`. */
  method LegacyGetBestMove(game: TicTacToe, maxDepth: int, isMaximizing: bool) returns (bestMove: nat)
    requires game.Valid() && game.defaultChar == EMPTY
    requires maxDepth >= 0
    modifies game.board
    ensures game.board[..] == old(game.board[..])
    ensures bestMove == BestMove(Rules(), old(game.Position()), maxDepth, isMaximizing, false)
  {
    ghost var s0 := game.Position();
    bestMove := SentinelMove(game.Position());
    if LegacyIsGameComplete(game.Position()) {
      return;
    }

    var alpha, beta := NegInf, PosInf;
    var bestMoveValue := if isMaximizing then PosInf else NegInf;
    var moves := AvailableMoves(game.Position());
    for i := 0 to |moves|
      invariant game.Position() == s0
      invariant BestMove(Rules(), s0, maxDepth, isMaximizing, false)
             == PickBest(Rules(), s0, moves[i..], maxDepth, isMaximizing, false, bestMoveValue, bestMove)
    {
      var mv := moves[i];
      assert moves[i..][0] == mv && moves[i..][1..] == moves[i + 1..];
      game.Play(mv, false);
      var value := LegacyMinimaxScore(game, maxDepth, isMaximizing, alpha, beta, maxDepth);
      game.Clear(mv);
      TicTacToeProperties.ClearUndoesPlay(s0, mv, false);
      if isMaximizing {
        if Le(value, bestMoveValue) {
          bestMoveValue := value;
          bestMove := mv;
        }
      } else {
        if Le(bestMoveValue, value) {
          bestMoveValue := value;
          bestMove := mv;
        }
      }
    }
  }
}
