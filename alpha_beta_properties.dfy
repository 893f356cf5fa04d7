/** What the search computes, stated without its loops: the score of a
    position is the evaluation at a leaf and otherwise the shifted best of the
    child scores explored before the cut-off; the root picks the last of the
    best-scoring candidates; and on a lawful game the root move is playable. */
module AlphaBetaProperties {
  import opened Scores
  import opened GameStrategy
  import opened TicTacToeGame
  import opened AlphaBetaMinimax
  import TicTacToeProperties

  // ---------------------------------------------------------------------------
  // The loop of `minimax_score` as a fold

  lemma MaxOfCons(v: Score, x: Score, u: seq<Score>)
    ensures MaxOf(v, [x] + u) == MaxOf(Max(v, x), u)
  {
    assert ([x] + u)[0] == x && ([x] + u)[1..] == u;
  }

  lemma MinOfCons(v: Score, x: Score, u: seq<Score>)
    ensures MinOf(v, [x] + u) == MinOf(Min(v, x), u)
  {
    assert ([x] + u)[0] == x && ([x] + u)[1..] == u;
  }

  /** The loop of `minimax_score` from `value` on ends on the max (maximiser)
      or min (minimiser) of `value` and the child scores it explored. */
  lemma {:induction false} ChildrenFold<S, M, P, B>(g: Game<S, M, P, B>, s: S, ms: seq<M>, depth: int,
                                                    isMaximizing: bool, alpha: Score, beta: Score,
                                                    maxDepth: int, value: Score)
    requires depth >= 1
    ensures var t := ExploredScores(g, s, ms, depth, isMaximizing, alpha, beta, maxDepth);
      MinimaxChildren(g, s, ms, depth, isMaximizing, alpha, beta, maxDepth, value)
        == if isMaximizing then MaxOf(value, t) else MinOf(value, t)
    decreases |ms|
  {
    if ms != [] {
      var score := Minimax(g, g.play(s, ms[0], isMaximizing), depth - 1, !isMaximizing, alpha, beta, maxDepth);
      var alpha' := if isMaximizing then Max(alpha, score) else alpha;
      var beta' := if isMaximizing then beta else Min(beta, score);
      var value' := if isMaximizing then Max(value, score) else Min(value, score);
      if Le(beta', alpha') {
        MaxOfCons(value, score, []);
        MinOfCons(value, score, []);
        assert [score] + [] == [score];
      } else {
        var t' := ExploredScores(g, s, ms[1..], depth, isMaximizing, alpha', beta', maxDepth);
        ChildrenFold(g, s, ms[1..], depth, isMaximizing, alpha', beta', maxDepth, value');
        MaxOfCons(value, score, t');
        MinOfCons(value, score, t');
      }
    }
  }

  /** The bounds the loop of `minimax_score` runs with, on entry to turn `j`
      when the scores `u` have been taken in: the maximiser raises `alpha` to
      the best score so far, the minimiser lowers `beta`. */
  function AlphaAfter(isMaximizing: bool, alpha: Score, u: seq<Score>): (r: Score)
    ensures Le(alpha, r)
  {
    if isMaximizing then MaxOf(alpha, u) else alpha
  }

  function BetaAfter(isMaximizing: bool, beta: Score, u: seq<Score>): (r: Score)
    ensures Le(r, beta)
  {
    if isMaximizing then beta else MinOf(beta, u)
  }

  /** Taking in the first score, then the first `j - 1` of the rest, gives
      the same bounds as starting from the bounds after the first score. */
  lemma BoundsAfterFirst(isMaximizing: bool, alpha: Score, beta: Score, score: Score, t': seq<Score>, j: nat)
    requires 0 < j <= |t'| + 1
    ensures AlphaAfter(isMaximizing, alpha, ([score] + t')[..j])
         == AlphaAfter(isMaximizing, if isMaximizing then Max(alpha, score) else alpha, t'[..j - 1])
    ensures BetaAfter(isMaximizing, beta, ([score] + t')[..j])
         == BetaAfter(isMaximizing, if isMaximizing then beta else Min(beta, score), t'[..j - 1])
  {
    assert ([score] + t')[..j] == [score] + t'[..j - 1];
    MaxOfCons(alpha, score, t'[..j - 1]);
    MinOfCons(beta, score, t'[..j - 1]);
  }

  /** The child scores the loop of `minimax_score` explores: child `j` is
      played for the side to move and scored one level deeper for the other
      side, with the bounds raised (maximiser) or lowered (minimiser) by the
      scores before it. */
  lemma {:induction false} ExploredChildScores<S, M, P, B>(g: Game<S, M, P, B>, s: S, ms: seq<M>, depth: int,
                                                           isMaximizing: bool, alpha: Score, beta: Score,
                                                           maxDepth: int)
    requires depth >= 1
    ensures var t := ExploredScores(g, s, ms, depth, isMaximizing, alpha, beta, maxDepth);
      forall j :: 0 <= j < |t| ==>
        t[j] == Minimax(g, g.play(s, ms[j], isMaximizing), depth - 1, !isMaximizing,
                        AlphaAfter(isMaximizing, alpha, t[..j]), BetaAfter(isMaximizing, beta, t[..j]), maxDepth)
    decreases |ms|
  {
    if ms != [] {
      var t := ExploredScores(g, s, ms, depth, isMaximizing, alpha, beta, maxDepth);
      var score := Minimax(g, g.play(s, ms[0], isMaximizing), depth - 1, !isMaximizing, alpha, beta, maxDepth);
      var alpha' := if isMaximizing then Max(alpha, score) else alpha;
      var beta' := if isMaximizing then beta else Min(beta, score);
      assert t[..0] == [] && t[0] == score;
      assert AlphaAfter(isMaximizing, alpha, t[..0]) == alpha && BetaAfter(isMaximizing, beta, t[..0]) == beta;
      if !Le(beta', alpha') {
        var t' := ExploredScores(g, s, ms[1..], depth, isMaximizing, alpha', beta', maxDepth);
        assert t == [score] + t';
        ExploredChildScores(g, s, ms[1..], depth, isMaximizing, alpha', beta', maxDepth);
        forall j | 0 < j < |t|
          ensures t[j] == Minimax(g, g.play(s, ms[j], isMaximizing), depth - 1, !isMaximizing,
                                  AlphaAfter(isMaximizing, alpha, t[..j]), BetaAfter(isMaximizing, beta, t[..j]),
                                  maxDepth)
        {
          BoundsAfterFirst(isMaximizing, alpha, beta, score, t', j);
          assert t[j] == t'[j - 1] && ms[j] == ms[1..][j - 1];
        }
      }
    }
  }

  /** Where the loop of `minimax_score` stops: no child before the last one
      explored closes the window `beta <= alpha`, and the loop stops before
      the end of the moves only because the last child explored closed it. */
  lemma {:induction false} ExploredUntilCutOff<S, M, P, B>(g: Game<S, M, P, B>, s: S, ms: seq<M>, depth: int,
                                                           isMaximizing: bool, alpha: Score, beta: Score,
                                                           maxDepth: int)
    requires depth >= 1
    ensures var t := ExploredScores(g, s, ms, depth, isMaximizing, alpha, beta, maxDepth);
      forall j :: 0 < j < |t| ==>
        !Le(BetaAfter(isMaximizing, beta, t[..j]), AlphaAfter(isMaximizing, alpha, t[..j]))
    ensures var t := ExploredScores(g, s, ms, depth, isMaximizing, alpha, beta, maxDepth);
      |t| < |ms| ==> Le(BetaAfter(isMaximizing, beta, t), AlphaAfter(isMaximizing, alpha, t))
    decreases |ms|
  {
    if ms != [] {
      var t := ExploredScores(g, s, ms, depth, isMaximizing, alpha, beta, maxDepth);
      var score := Minimax(g, g.play(s, ms[0], isMaximizing), depth - 1, !isMaximizing, alpha, beta, maxDepth);
      var alpha' := if isMaximizing then Max(alpha, score) else alpha;
      var beta' := if isMaximizing then beta else Min(beta, score);
      if Le(beta', alpha') {
        assert t == [score];
        BoundsAfterFirst(isMaximizing, alpha, beta, score, [], 1);
        assert t[..1] == t;
      } else {
        var t' := ExploredScores(g, s, ms[1..], depth, isMaximizing, alpha', beta', maxDepth);
        assert t == [score] + t';
        ExploredUntilCutOff(g, s, ms[1..], depth, isMaximizing, alpha', beta', maxDepth);
        forall j | 0 < j <= |t'| + 1
          ensures AlphaAfter(isMaximizing, alpha, t[..j]) == AlphaAfter(isMaximizing, alpha', t'[..j - 1])
          ensures BetaAfter(isMaximizing, beta, t[..j]) == BetaAfter(isMaximizing, beta', t'[..j - 1])
        {
          BoundsAfterFirst(isMaximizing, alpha, beta, score, t', j);
        }
        assert t[..|t|] == t;
        assert t'[..|t'|] == t';
      }
    }
  }

  /** `minimax_score` in one statement. At a leaf (no depth left, game
      complete, or no move) the evaluation, unshifted. Otherwise the best of
      the explored child scores (the highest for the maximiser, the lowest for
      the minimiser), one of those scores, finite, and moved by the mate
      distance `max_depth - depth` unless it is 0. */
  lemma MinimaxMeaning<S, M, P, B>(g: Game<S, M, P, B>, s: S, depth: int, isMaximizing: bool,
                                   alpha: Score, beta: Score, maxDepth: int)
    requires depth >= 0
    ensures var avail := g.availableMoves(s);
      depth == 0 || g.isGameComplete(s) || avail == [] ==>
        Minimax(g, s, depth, isMaximizing, alpha, beta, maxDepth) == Fin(g.evaluate(s))
    ensures var avail := g.availableMoves(s);
      !(depth == 0 || g.isGameComplete(s) || avail == []) ==>
        var t := ExploredScores(g, s, avail, depth, isMaximizing, alpha, beta, maxDepth);
        exists best ::
          && best in t && best.Fin?
          && (forall x :: x in t ==> if isMaximizing then Le(x, best) else Le(best, x))
          && Minimax(g, s, depth, isMaximizing, alpha, beta, maxDepth) == Shift(best, isMaximizing, maxDepth - depth)
  {
    var avail := g.availableMoves(s);
    if !(depth == 0 || g.isGameComplete(s) || avail == []) {
      var t := ExploredScores(g, s, avail, depth, isMaximizing, alpha, beta, maxDepth);
      var value := Start(isMaximizing);
      ChildrenFold(g, s, avail, depth, isMaximizing, alpha, beta, maxDepth, value);
      var best := if isMaximizing then MaxOf(value, t) else MinOf(value, t);
      assert best in t;
      assert forall x :: x in t ==> if isMaximizing then Le(x, best) else Le(best, x);
    }
  }

  /** At the root (`depth == max_depth`) the shift is 0: a root candidate's
      score is its plain evaluation or the plain best of its explored
      children. */
  lemma RootIsUnshifted<S, M, P, B>(g: Game<S, M, P, B>, s: S, maxDepth: int, isMaximizing: bool)
    requires maxDepth >= 0
    ensures var avail := g.availableMoves(s);
      !(maxDepth == 0 || g.isGameComplete(s) || avail == []) ==>
        Minimax(g, s, maxDepth, isMaximizing, NegInf, PosInf, maxDepth)
          == MinimaxChildren(g, s, avail, maxDepth, isMaximizing, NegInf, PosInf, maxDepth, Start(isMaximizing))
  {
  }

  // ---------------------------------------------------------------------------
  // The root choice of `get_best_move`

  /** `k` is the last of the best-scoring candidates in `t`, and its score is
      at least as good as `bound`. */
  ghost predicate IsLastBest(isMaximizing: bool, t: seq<Score>, bound: Score, k: int) {
    && 0 <= k < |t|
    && AtLeastAsGood(isMaximizing, t[k], bound)
    && (forall j :: 0 <= j < |t| ==> AtLeastAsGood(isMaximizing, t[k], t[j]))
    && (forall j :: k < j < |t| ==> !AtLeastAsGood(isMaximizing, t[j], t[k]))
  }

  lemma GoodnessIsTotalOrder(isMaximizing: bool, a: Score, b: Score, c: Score)
    ensures AtLeastAsGood(isMaximizing, a, b) || AtLeastAsGood(isMaximizing, b, a)
    ensures AtLeastAsGood(isMaximizing, a, b) && AtLeastAsGood(isMaximizing, b, c) ==> AtLeastAsGood(isMaximizing, a, c)
  {
    LeTotalOrder(a, b, c);
    LeTotalOrder(c, b, a);
  }

  /** The root loop over candidates `ms` whose scores `t` are given. */
  function PickAmong<M>(isMaximizing: bool, t: seq<Score>, ms: seq<M>, bestValue: Score, best: M): (r: M)
    requires |t| == |ms|
    ensures r == best || r in ms
    decreases |ms|
  {
    if ms == [] then best
    else if AtLeastAsGood(isMaximizing, t[0], bestValue) then PickAmong(isMaximizing, t[1..], ms[1..], t[0], ms[0])
    else PickAmong(isMaximizing, t[1..], ms[1..], bestValue, best)
  }

  /** The root loop scores the candidates as `RootScores` does. */
  lemma {:induction false} PickBestPicksAmongRootScores<S, M, P, B>(g: Game<S, M, P, B>, s: S, ms: seq<M>,
                                                                    maxDepth: int, isMaximizing: bool,
                                                                    playAs: bool, bestValue: Score, best: M)
    requires maxDepth >= 0
    ensures PickBest(g, s, ms, maxDepth, isMaximizing, playAs, bestValue, best)
         == PickAmong(isMaximizing, RootScores(g, s, ms, maxDepth, isMaximizing, playAs), ms, bestValue, best)
    decreases |ms|
  {
    if ms != [] {
      var t := RootScores(g, s, ms, maxDepth, isMaximizing, playAs);
      assert t[1..] == RootScores(g, s, ms[1..], maxDepth, isMaximizing, playAs);
      PickBestPicksAmongRootScores(g, s, ms[1..], maxDepth, isMaximizing, playAs, t[0], ms[0]);
      PickBestPicksAmongRootScores(g, s, ms[1..], maxDepth, isMaximizing, playAs, bestValue, best);
    }
  }

  /** The root loop keeps the running best move when no candidate is at
      least as good as its score `bestValue`. */
  lemma {:induction false} PickAmongKeeps<M>(isMaximizing: bool, t: seq<Score>, ms: seq<M>, bestValue: Score, best: M)
    requires |t| == |ms|
    requires forall j :: 0 <= j < |t| ==> !AtLeastAsGood(isMaximizing, t[j], bestValue)
    ensures PickAmong(isMaximizing, t, ms, bestValue, best) == best
    decreases |ms|
  {
    if ms != [] {
      assert !AtLeastAsGood(isMaximizing, t[0], bestValue);
      assert forall j :: 0 <= j < |t[1..]| ==> t[1..][j] == t[j + 1];
      PickAmongKeeps(isMaximizing, t[1..], ms[1..], bestValue, best);
    }
  }

  /** When some candidate is at least as good as the running best score, the
      root loop ends on the last of the best candidates. */
  lemma {:induction false} PickAmongIsLastBest<M>(isMaximizing: bool, t: seq<Score>, ms: seq<M>,
                                                 bestValue: Score, best: M)
    requires |t| == |ms|
    requires exists j :: 0 <= j < |t| && AtLeastAsGood(isMaximizing, t[j], bestValue)
    ensures exists k :: IsLastBest(isMaximizing, t, bestValue, k)
                     && PickAmong(isMaximizing, t, ms, bestValue, best) == ms[k]
    decreases |ms|
  {
    var t' := t[1..];
    assert forall j :: 0 <= j < |t'| ==> t'[j] == t[j + 1];
    var r := PickAmong(isMaximizing, t, ms, bestValue, best);
    if AtLeastAsGood(isMaximizing, t[0], bestValue) {
      if forall j :: 0 <= j < |t'| ==> !AtLeastAsGood(isMaximizing, t'[j], t[0]) {
        PickAmongKeeps(isMaximizing, t', ms[1..], t[0], ms[0]);
        forall j | 0 <= j < |t|
          ensures AtLeastAsGood(isMaximizing, t[0], t[j])
        {
          GoodnessIsTotalOrder(isMaximizing, t[0], t[j], t[j]);
        }
        assert IsLastBest(isMaximizing, t, bestValue, 0);
      } else {
        PickAmongIsLastBest(isMaximizing, t', ms[1..], t[0], ms[0]);
        var k' :| IsLastBest(isMaximizing, t', t[0], k') && r == ms[1..][k'];
        GoodnessIsTotalOrder(isMaximizing, t[k' + 1], t[0], bestValue);
        assert IsLastBest(isMaximizing, t, bestValue, k' + 1);
      }
    } else {
      var j0 :| 0 <= j0 < |t| && AtLeastAsGood(isMaximizing, t[j0], bestValue);
      assert 0 <= j0 - 1 < |t'| && AtLeastAsGood(isMaximizing, t'[j0 - 1], bestValue);
      PickAmongIsLastBest(isMaximizing, t', ms[1..], bestValue, best);
      var k' :| IsLastBest(isMaximizing, t', bestValue, k') && r == ms[1..][k'];
      GoodnessIsTotalOrder(isMaximizing, bestValue, t[0], t[0]);
      GoodnessIsTotalOrder(isMaximizing, t[k' + 1], bestValue, t[0]);
      assert IsLastBest(isMaximizing, t, bestValue, k' + 1);
    }
  }

  /** `get_best_move`: the sentinel when the game is complete or there is no
      move; otherwise the last of the available moves whose score is the best
      (the lowest when called for the maximiser, the highest otherwise), which
      on a lawful game is never the sentinel. */
  lemma BestMoveMeaning<S(!new), M(!new), P, B>(g: Game<S, M, P, B>, inv: S -> bool, s: S, maxDepth: int,
                                                isMaximizing: bool, playAs: bool)
    requires maxDepth >= 0
    requires Lawful(g, inv) && inv(s)
    ensures var moves := g.availableMoves(s);
      g.isGameComplete(s) || moves == [] ==> BestMove(g, s, maxDepth, isMaximizing, playAs) == g.sentinelMove(s)
    ensures var moves := g.availableMoves(s);
      !g.isGameComplete(s) && moves != [] ==>
        var t := RootScores(g, s, moves, maxDepth, isMaximizing, playAs);
        exists k :: IsLastBest(isMaximizing, t, if isMaximizing then PosInf else NegInf, k)
                 && BestMove(g, s, maxDepth, isMaximizing, playAs) == moves[k]
    ensures !g.isGameComplete(s) && g.availableMoves(s) != [] ==>
      var mv := BestMove(g, s, maxDepth, isMaximizing, playAs);
      mv in g.availableMoves(s) && mv != g.sentinelMove(s) && g.isAValidMove(s, mv)
  {
    var moves := g.availableMoves(s);
    var worst := if isMaximizing then PosInf else NegInf;
    if !g.isGameComplete(s) && moves != [] {
      var t := RootScores(g, s, moves, maxDepth, isMaximizing, playAs);
      assert AtLeastAsGood(isMaximizing, t[0], worst);
      PickBestPicksAmongRootScores(g, s, moves, maxDepth, isMaximizing, playAs, worst, g.sentinelMove(s));
      PickAmongIsLastBest(isMaximizing, t, moves, worst, g.sentinelMove(s));
    }
  }

  // ---------------------------------------------------------------------------
  // On tic-tac-toe

  /** On a tic-tac-toe game that is not over, the move `get_best_move` picks
      is an empty cell of the board. */
  lemma TicTacToeBestMoveIsPlayable(p: Position, maxDepth: int, isMaximizing: bool, playAs: bool)
    requires Conforming(p) && maxDepth >= 0
    requires !IsGameComplete(p)
    ensures var mv := BestMove(Rules(), p, maxDepth, isMaximizing, playAs);
      mv in AvailableMoves(p) && mv < |p.board| && p.board[mv] == EMPTY
  {
    TicTacToeProperties.TicTacToeIsLawful();
    BestMoveMeaning(Rules(), (q: Position) => Conforming(q), p, maxDepth, isMaximizing, playAs);
  }

  /** On a finished tic-tac-toe game `get_best_move` returns `size * size + 1`. */
  lemma TicTacToeFinishedGivesSentinel(p: Position, maxDepth: int, isMaximizing: bool, playAs: bool)
    requires maxDepth >= 0
    requires IsGameComplete(p)
    ensures BestMove(Rules(), p, maxDepth, isMaximizing, playAs) == p.size * p.size + 1
  {
  }
}
