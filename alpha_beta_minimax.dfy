/** Depth-limited minimax with alpha-beta pruning (`AlphaBetaMiniMaxStrategy`):
    what the two routines compute, for any game given as a `Game` record.
    `Minimax` is `minimax_score` and `BestMove` is `get_best_move`. The state
    after `play`, the recursive call and `clear` is taken to be the state
    before, which is what a lawful game guarantees. */
module AlphaBetaMinimax {
  import opened Scores
  import opened GameStrategy

  // ---------------------------------------------------------------------------
  // What the routines compute

  /** `minimax_score(depth, is_maximizing, alpha, beta, max_depth)` on state `s`.
      At a leaf (no depth left, game complete, or no move) the static
      evaluation; otherwise the best child score (highest for the maximiser,
      lowest for the minimiser), moved by the mate-distance shift. The score
      is always a finite number: a node with a move takes in at least one
      finite child score. */
  function Minimax<S, M, P, B>(g: Game<S, M, P, B>, s: S, depth: int, isMaximizing: bool,
                               alpha: Score, beta: Score, maxDepth: int): (r: Score)
    requires depth >= 0
    ensures r.Fin?
    decreases depth, 1
  {
    var avail := g.availableMoves(s);
    if depth == 0 || g.isGameComplete(s) || |avail| == 0 then Fin(g.evaluate(s))
    else
      var value := MinimaxChildren(g, s, avail, depth, isMaximizing, alpha, beta, maxDepth, Start(isMaximizing));
      Shift(value, isMaximizing, maxDepth - depth)
  }

  /** The loop over the moves `ms` of `minimax_score`, from the running
      `value`, `alpha` and `beta` on: each move is played for the side to move
      and scored one level deeper for the other side; `value` and the side's
      bound take the child score in with max or min; the loop stops after the
      first child that leaves `beta <= alpha`. The loop ends on a finite value
      when it starts on one, or when it starts on the side's infinite start
      value and has at least one move to take in. */
  function MinimaxChildren<S, M, P, B>(g: Game<S, M, P, B>, s: S, ms: seq<M>, depth: int, isMaximizing: bool,
                                       alpha: Score, beta: Score, maxDepth: int, value: Score): (r: Score)
    requires depth >= 1
    ensures value.Fin? || (ms != [] && value == Start(isMaximizing)) ==> r.Fin?
    decreases depth, 0, |ms|
  {
    if ms == [] then value
    else
      var score := Minimax(g, g.play(s, ms[0], isMaximizing), depth - 1, !isMaximizing, alpha, beta, maxDepth);
      var value' := if isMaximizing then Max(value, score) else Min(value, score);
      var alpha' := if isMaximizing then Max(alpha, score) else alpha;
      var beta' := if isMaximizing then beta else Min(beta, score);
      if Le(beta', alpha') then value'
      else MinimaxChildren(g, s, ms[1..], depth, isMaximizing, alpha', beta', maxDepth, value')
  }

  /** The child scores that loop computes before it stops, in order. */
  function ExploredScores<S, M, P, B>(g: Game<S, M, P, B>, s: S, ms: seq<M>, depth: int, isMaximizing: bool,
                                      alpha: Score, beta: Score, maxDepth: int): (t: seq<Score>)
    requires depth >= 1
    ensures |t| <= |ms|
    ensures ms != [] ==> |t| >= 1
    decreases |ms|
  {
    if ms == [] then []
    else
      var score := Minimax(g, g.play(s, ms[0], isMaximizing), depth - 1, !isMaximizing, alpha, beta, maxDepth);
      var alpha' := if isMaximizing then Max(alpha, score) else alpha;
      var beta' := if isMaximizing then beta else Min(beta, score);
      if Le(beta', alpha') then [score]
      else [score] + ExploredScores(g, s, ms[1..], depth, isMaximizing, alpha', beta', maxDepth)
  }

  /** `a` is at least as good as `b` for the root: the root that is called
      with `is_maximizing` keeps the lowest score, the other the highest. */
  predicate AtLeastAsGood(isMaximizing: bool, a: Score, b: Score)
    ensures a == b ==> AtLeastAsGood(isMaximizing, a, b)
  {
    if isMaximizing then Le(a, b) else Le(b, a)
  }

  /** `get_best_move(max_depth, is_maximizing)` on state `s`, where each
      candidate is played for the side `playAs` (`!is_maximizing` here, always
      the minimiser in the older copy of the engine). */
  function BestMove<S, M, P, B>(g: Game<S, M, P, B>, s: S, maxDepth: int, isMaximizing: bool, playAs: bool): (r: M)
    requires maxDepth >= 0
    ensures g.isGameComplete(s) ==> r == g.sentinelMove(s)
    ensures r == g.sentinelMove(s) || r in g.availableMoves(s)
  {
    if g.isGameComplete(s) then g.sentinelMove(s)
    else
      PickBest(g, s, g.availableMoves(s), maxDepth, isMaximizing, playAs,
               if isMaximizing then PosInf else NegInf, g.sentinelMove(s))
  }

  /** The root loop over `ms` from the running best score and move on: a
      candidate replaces the best one when its score is at least as good, so
      among equal scores the later candidate wins. */
  function PickBest<S, M, P, B>(g: Game<S, M, P, B>, s: S, ms: seq<M>, maxDepth: int, isMaximizing: bool,
                                playAs: bool, bestValue: Score, best: M): (r: M)
    requires maxDepth >= 0
    ensures r == best || r in ms
    decreases |ms|
  {
    if ms == [] then best
    else
      var value := Minimax(g, g.play(s, ms[0], playAs), maxDepth, isMaximizing, NegInf, PosInf, maxDepth);
      if AtLeastAsGood(isMaximizing, value, bestValue)
      then PickBest(g, s, ms[1..], maxDepth, isMaximizing, playAs, value, ms[0])
      else PickBest(g, s, ms[1..], maxDepth, isMaximizing, playAs, bestValue, best)
  }

  /** The score the root gives each candidate in `ms`. */
  function RootScores<S, M, P, B>(g: Game<S, M, P, B>, s: S, ms: seq<M>, maxDepth: int, isMaximizing: bool,
                                  playAs: bool): (t: seq<Score>)
    requires maxDepth >= 0
    ensures |t| == |ms|
    ensures forall j :: 0 <= j < |ms| ==>
              t[j] == Minimax(g, g.play(s, ms[j], playAs), maxDepth, isMaximizing, NegInf, PosInf, maxDepth)
  {
    if ms == [] then []
    else
      [Minimax(g, g.play(s, ms[0], playAs), maxDepth, isMaximizing, NegInf, PosInf, maxDepth)]
      + RootScores(g, s, ms[1..], maxDepth, isMaximizing, playAs)
  }

  /** One turn of the loop of `minimax_score`, given the child's score. */
  lemma ChildrenStep<S, M, P, B>(g: Game<S, M, P, B>, s: S, ms: seq<M>, depth: int, isMaximizing: bool,
                                 alpha: Score, beta: Score, maxDepth: int, value: Score, score: Score)
    requires depth >= 1 && ms != []
    requires score == Minimax(g, g.play(s, ms[0], isMaximizing), depth - 1, !isMaximizing, alpha, beta, maxDepth)
    ensures var value' := if isMaximizing then Max(value, score) else Min(value, score);
      var alpha' := if isMaximizing then Max(alpha, score) else alpha;
      var beta' := if isMaximizing then beta else Min(beta, score);
      MinimaxChildren(g, s, ms, depth, isMaximizing, alpha, beta, maxDepth, value)
        == if Le(beta', alpha') then value'
           else MinimaxChildren(g, s, ms[1..], depth, isMaximizing, alpha', beta', maxDepth, value')
  {
  }
}
