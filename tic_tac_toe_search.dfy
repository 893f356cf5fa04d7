/** The two routines of `AlphaBetaMiniMaxStrategy` as the source runs them on
    a tic-tac-toe board: play a move, recurse, clear it again, all in place on
    the board's array. They are proved to return what `Minimax` and `BestMove`
    say of `Rules()` and to leave the board as they found it. */
module TicTacToeSearch {
  import opened Scores
  import opened TicTacToeGame
  import opened AlphaBetaMinimax
  import TicTacToeProperties

  /** One call of `minimax_score` on a tic-tac-toe position, unfolded. */
  lemma TicTacToeNode(s: Position, depth: int, isMaximizing: bool, alpha: Score, beta: Score, maxDepth: int)
    requires depth >= 0
    ensures Minimax(Rules(), s, depth, isMaximizing, alpha, beta, maxDepth)
         == if depth == 0 || IsGameComplete(s) || |AvailableMoves(s)| == 0 then Fin(Evaluate(s))
            else Shift(MinimaxChildren(Rules(), s, AvailableMoves(s), depth, isMaximizing, alpha, beta, maxDepth,
                                       Start(isMaximizing)), isMaximizing, maxDepth - depth)
  {
  }

  /** One turn of the loop of `minimax_score` on a tic-tac-toe position:
      `value'`, `alpha'` and `beta'` are the running values once the score of
      the move `avail[i]` is taken in. */
  lemma TicTacToeStep(s: Position, avail: seq<nat>, i: nat, depth: int, isMaximizing: bool,
                      alpha: Score, beta: Score, maxDepth: int, value: Score, score: Score,
                      alpha': Score, beta': Score, value': Score)
    requires depth >= 1 && i < |avail| && avail[i] < |s.board|
    requires score == Minimax(Rules(), Played(s, avail[i], isMaximizing), depth - 1, !isMaximizing, alpha, beta, maxDepth)
    requires value' == if isMaximizing then Max(value, score) else Min(value, score)
    requires alpha' == if isMaximizing then Max(alpha, score) else alpha
    requires beta' == if isMaximizing then beta else Min(beta, score)
    ensures Le(beta', alpha') ==>
      MinimaxChildren(Rules(), s, avail[i..], depth, isMaximizing, alpha, beta, maxDepth, value) == value'
    ensures !Le(beta', alpha') ==>
      MinimaxChildren(Rules(), s, avail[i..], depth, isMaximizing, alpha, beta, maxDepth, value)
        == MinimaxChildren(Rules(), s, avail[i + 1..], depth, isMaximizing, alpha', beta', maxDepth, value')
  {
    assert avail[i..][0] == avail[i] && avail[i..][1..] == avail[i + 1..];
    ChildrenStep(Rules(), s, avail[i..], depth, isMaximizing, alpha, beta, maxDepth, value, score);
  }

  /** `minimax_score` */
  method MinimaxScore(game: TicTacToe, depth: int, isMaximizing: bool, alpha: Score, beta: Score, maxDepth: int)
    returns (r: Score)
    requires game.Valid() && game.defaultChar == EMPTY
    requires depth >= 0
    modifies game.board
    ensures game.board[..] == old(game.board[..])
    ensures r == Minimax(Rules(), old(game.Position()), depth, isMaximizing, alpha, beta, maxDepth)
    decreases depth, 2
  {
    TicTacToeNode(game.Position(), depth, isMaximizing, alpha, beta, maxDepth);
    var avail := AvailableMoves(game.Position());
    if depth == 0 || IsGameComplete(game.Position()) || |avail| == 0 {
      return Fin(Evaluate(game.Position()));
    }
    var value := ScoreChildren(game, avail, depth, isMaximizing, alpha, beta, maxDepth);
    r := Shift(value, isMaximizing, maxDepth - depth);
  }

  /** The loop of `minimax_score` over the available moves `avail`, with its
      alpha-beta cut-off. */
  method ScoreChildren(game: TicTacToe, avail: seq<nat>, depth: int, isMaximizing: bool, alpha: Score, beta: Score,
                       maxDepth: int)
    returns (value: Score)
    requires game.Valid() && game.defaultChar == EMPTY
    requires depth >= 1 && avail == AvailableMoves(game.Position())
    modifies game.board
    ensures game.board[..] == old(game.board[..])
    ensures value == MinimaxChildren(Rules(), old(game.Position()), avail, depth, isMaximizing, alpha, beta, maxDepth,
                                     Start(isMaximizing))
    decreases depth, 1
  {
    ghost var s0 := game.Position();
    var a, b := alpha, beta;
    value := Start(isMaximizing);
    for i := 0 to |avail|
      invariant game.Position() == s0
      invariant MinimaxChildren(Rules(), s0, avail, depth, isMaximizing, alpha, beta, maxDepth, Start(isMaximizing))
             == MinimaxChildren(Rules(), s0, avail[i..], depth, isMaximizing, a, b, maxDepth, value)
    {
      var mv := avail[i];
      var score := ScoreMove(game, mv, depth, isMaximizing, a, b, maxDepth);
      ghost var value0, a0, b0 := value, a, b;
      if isMaximizing {
        value := Max(value, score);
        a := Max(a, score);
      } else {
        value := Min(value, score);
        b := Min(b, score);
      }
      TicTacToeStep(s0, avail, i, depth, isMaximizing, a0, b0, maxDepth, value0, score, a, b, value);
      if Le(b, a) {
        break;
      }
    }
  }

  /** The body of the loop of `minimax_score`: play `mv` for the side to
      move, score the position one level deeper for the other side, then clear
      `mv` again. */
  method ScoreMove(game: TicTacToe, mv: nat, depth: int, isMaximizing: bool, alpha: Score, beta: Score, maxDepth: int)
    returns (score: Score)
    requires game.Valid() && game.defaultChar == EMPTY
    requires depth >= 1 && mv in AvailableMoves(game.Position())
    modifies game.board
    ensures game.board[..] == old(game.board[..])
    ensures mv < |old(game.Position()).board|
    ensures score == Minimax(Rules(), Played(old(game.Position()), mv, isMaximizing), depth - 1, !isMaximizing,
                             alpha, beta, maxDepth)
    decreases depth, 0
  {
    ghost var s0 := game.Position();
    game.Play(mv, isMaximizing);
    score := MinimaxScore(game, depth - 1, !isMaximizing, alpha, beta, maxDepth);
    game.Clear(mv);
    TicTacToeProperties.ClearUndoesPlay(s0, mv, isMaximizing);
  }

  /** `get_best_move` */
  method GetBestMove(game: TicTacToe, maxDepth: int, isMaximizing: bool) returns (bestMove: nat)
    requires game.Valid() && game.defaultChar == EMPTY
    requires maxDepth >= 0
    modifies game.board
    ensures game.board[..] == old(game.board[..])
    ensures bestMove == BestMove(Rules(), old(game.Position()), maxDepth, isMaximizing, !isMaximizing)
  {
    ghost var g := Rules();
    ghost var s0 := game.Position();
    bestMove := SentinelMove(game.Position());
    if IsGameComplete(game.Position()) {
      return;
    }

    var alpha, beta := NegInf, PosInf;
    var bestMoveValue := if isMaximizing then PosInf else NegInf;
    var moves := AvailableMoves(game.Position());
    for i := 0 to |moves|
      invariant game.Position() == s0
      invariant BestMove(g, s0, maxDepth, isMaximizing, !isMaximizing)
             == PickBest(g, s0, moves[i..], maxDepth, isMaximizing, !isMaximizing, bestMoveValue, bestMove)
    {
      var mv := moves[i];
      assert moves[i..][0] == mv && moves[i..][1..] == moves[i + 1..];
      game.Play(mv, !isMaximizing);
      var value := MinimaxScore(game, maxDepth, isMaximizing, alpha, beta, maxDepth);
      game.Clear(mv);
      TicTacToeProperties.ClearUndoesPlay(s0, mv, !isMaximizing);
      if isMaximizing {
        if Le(value, bestMoveValue) {
          bestMoveValue := value;
          bestMove := mv;
        }
      } else {
        if Le(bestMoveValue, value) {
          bestMoveValue := value;
          bestMove := mv;
        }
      }
    }
  }
}
