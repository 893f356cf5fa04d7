/** The search on one concrete 3 x 3 position, worked out to the leaves:

        x x o
        x - o
        - o -

    The minimiser 'x' is to move and wins at once in cell 6. The root is
    called as the driver calls it, `get_best_move(max_depth, true)`, so every
    candidate is played for 'x' and the lowest score is kept. With
    `max_depth == 1` the search does not take the win: `evaluate` gives -1000
    to every unfinished position as well as to a win for 'x', so cells 6 and
    8 tie and the later one is kept. With `max_depth == 2` the mate-distance
    shift lifts the slower lines to -999 and the search takes cell 6. */
module SearchExamples {
  import opened Scores
  import opened TicTacToeGame
  import opened TicTacToeProperties
  import opened AlphaBetaMinimax
  import opened TicTacToeSearch

  // ---------------------------------------------------------------------------
  // Lines of a 3 x 3 board, cell by cell

  /** Cells `i`, `j` and `k` all hold `ch`. */
  predicate Three(b: seq<char>, ch: char, i: nat, j: nat, k: nat)
    requires i < |b| && j < |b| && k < |b|
  {
    b[i] == ch && b[j] == ch && b[k] == ch
  }

  /** One of the eight lines of a 3 x 3 board is full of `ch`. */
  predicate Line3(b: seq<char>, ch: char)
    requires |b| == 9
  {
    || Three(b, ch, 0, 1, 2) || Three(b, ch, 3, 4, 5) || Three(b, ch, 6, 7, 8)
    || Three(b, ch, 0, 3, 6) || Three(b, ch, 1, 4, 7) || Three(b, ch, 2, 5, 8)
    || Three(b, ch, 0, 4, 8) || Three(b, ch, 6, 4, 2)
  }

  lemma RowWon3(p: Position, ch: char, row: nat)
    requires p.size == 3 && row < 3
    ensures RowWon(p, ch, row) <==> Three(p.board, ch, 3 * row, 3 * row + 1, 3 * row + 2)
  {
    assert At(p, row, 0) == p.board[3 * row] && At(p, row, 1) == p.board[3 * row + 1]
        && At(p, row, 2) == p.board[3 * row + 2];
  }

  lemma ColWon3(p: Position, ch: char, col: nat)
    requires p.size == 3 && col < 3
    ensures ColWon(p, ch, col) <==> Three(p.board, ch, col, col + 3, col + 6)
  {
    assert At(p, 0, col) == p.board[col] && At(p, 1, col) == p.board[col + 3] && At(p, 2, col) == p.board[col + 6];
  }

  /** On a 3 x 3 board, a full row, column or diagonal is one of the eight
      lines written out cell by cell. */
  lemma HasLine3(p: Position, ch: char)
    requires p.size == 3
    ensures HasLine(p, ch) <==> Line3(p.board, ch)
  {
    assert At(p, 0, 0) == p.board[0] && At(p, 1, 1) == p.board[4] && At(p, 2, 2) == p.board[8];
    assert AntiDiagonalCell(p, 0) == p.board[6] && AntiDiagonalCell(p, 1) == p.board[4]
        && AntiDiagonalCell(p, 2) == p.board[2];
    RowWon3(p, ch, 0);
    RowWon3(p, ch, 1);
    RowWon3(p, ch, 2);
    ColWon3(p, ch, 0);
    ColWon3(p, ch, 1);
    ColWon3(p, ch, 2);
    assert MainDiagonalWon(p, ch) <==> Three(p.board, ch, 0, 4, 8);
    assert AntiDiagonalWon(p, ch) <==> Three(p.board, ch, 6, 4, 2);
  }

  /** A 3 x 3 game with the default characters. */
  predicate Classic(p: Position) {
    p.size == 3 && p.defaultChar == EMPTY && p.maximizer == 'o' && p.minimizer == 'x'
  }

  function Grid(b: seq<char>): (p: Position)
    requires |b| == 9
    ensures Classic(p) && p.board == b
  {
    State(b, 3, '-', 'o', 'x')
  }

  /** A line for the minimiser alone ends the game at -1000. */
  lemma MinimizerLine(p: Position)
    requires Classic(p) && Line3(p.board, 'x') && !Line3(p.board, 'o')
    ensures IsGameComplete(p) && Evaluate(p) == -1000
  {
    HasLine3(p, 'o');
    HasLine3(p, 'x');
    CompleteIff(p);
    EvaluateByLines(p);
  }

  /** A line for the maximiser alone ends the game at 1000. */
  lemma MaximizerLine(p: Position)
    requires Classic(p) && Line3(p.board, 'o') && !Line3(p.board, 'x')
    ensures IsGameComplete(p) && Evaluate(p) == 1000
  {
    HasLine3(p, 'o');
    HasLine3(p, 'x');
    CompleteIff(p);
    EvaluateByLines(p);
  }

  /** No line and an empty cell `k`: the game goes on, and `evaluate` still
      gives -1000. */
  lemma Unfinished(p: Position, k: nat)
    requires Classic(p) && !Line3(p.board, 'o') && !Line3(p.board, 'x')
    requires k < |p.board| && p.board[k] == EMPTY
    ensures !IsGameComplete(p) && Evaluate(p) == -1000
  {
    HasLine3(p, 'o');
    HasLine3(p, 'x');
    CompleteIff(p);
    EvaluateByLines(p);
  }

  // ---------------------------------------------------------------------------
  // The positions of the search tree

  /** The root position. */
  function Sample(): Position {
    Grid(['x', 'x', 'o', 'x', '-', 'o', '-', 'o', '-'])
  }

  /** 'x' in cell 4. */
  function X4(): Position {
    Grid(['x', 'x', 'o', 'x', 'x', 'o', '-', 'o', '-'])
  }

  /** 'x' in cell 6: the column of 'x' is full. */
  function X6(): Position {
    Grid(['x', 'x', 'o', 'x', '-', 'o', 'x', 'o', '-'])
  }

  /** 'x' in cell 8. */
  function X8(): Position {
    Grid(['x', 'x', 'o', 'x', '-', 'o', '-', 'o', 'x'])
  }

  /** 'x' in 4, then 'o' in 6. */
  function X4O6(): Position {
    Grid(['x', 'x', 'o', 'x', 'x', 'o', 'o', 'o', '-'])
  }

  /** 'x' in 4, then 'o' in 8: the column of 'o' is full. */
  function X4O8(): Position {
    Grid(['x', 'x', 'o', 'x', 'x', 'o', '-', 'o', 'o'])
  }

  /** 'x' in 8, then 'o' in 4. */
  function X8O4(): Position {
    Grid(['x', 'x', 'o', 'x', 'o', 'o', '-', 'o', 'x'])
  }

  /** 'x' in 8, then 'o' in 6. */
  function X8O6(): Position {
    Grid(['x', 'x', 'o', 'x', '-', 'o', 'o', 'o', 'x'])
  }

  /** The full board after 'x' 4, 'o' 6, 'x' 8 (or 'x' 8, 'o' 6, 'x' 4): the
      main diagonal of 'x' is full. */
  function Full468(): Position {
    Grid(['x', 'x', 'o', 'x', 'x', 'o', 'o', 'o', 'x'])
  }

  /** The full board after 'x' 8, 'o' 4, 'x' 6: the column of 'x' is full. */
  function Full846(): Position {
    Grid(['x', 'x', 'o', 'x', 'o', 'o', 'x', 'o', 'x'])
  }

  // The moves of each position, and where they lead.

  lemma MovesSample()
    ensures AvailableMoves(Sample()) == [4, 6, 8]
    ensures Played(Sample(), 4, false) == X4() && Played(Sample(), 6, false) == X6()
    ensures Played(Sample(), 8, false) == X8()
  {
  }

  lemma MovesX4()
    ensures AvailableMoves(X4()) == [6, 8] && Played(X4(), 6, true) == X4O6() && Played(X4(), 8, true) == X4O8()
  {
  }

  lemma MovesX8()
    ensures AvailableMoves(X8()) == [4, 6] && Played(X8(), 4, true) == X8O4() && Played(X8(), 6, true) == X8O6()
  {
    assert MovesFrom(X8(), 5) == [6];
  }

  lemma MovesX4O6()
    ensures AvailableMoves(X4O6()) == [8] && Played(X4O6(), 8, false) == Full468()
  {
  }

  lemma MovesX8O4()
    ensures AvailableMoves(X8O4()) == [6] && Played(X8O4(), 6, false) == Full846()
  {
  }

  lemma MovesX8O6()
    ensures AvailableMoves(X8O6()) == [4] && Played(X8O6(), 4, false) == Full468()
  {
  }

  // How each position ends or goes on.

  lemma OutcomeSample()
    ensures !IsGameComplete(Sample())
  {
    Unfinished(Sample(), 4);
  }

  lemma OutcomeX4()
    ensures !IsGameComplete(X4()) && Evaluate(X4()) == -1000
  {
    Unfinished(X4(), 6);
  }

  lemma OutcomeX6()
    ensures IsGameComplete(X6()) && Evaluate(X6()) == -1000
  {
    MinimizerLine(X6());
  }

  lemma OutcomeX8()
    ensures !IsGameComplete(X8()) && Evaluate(X8()) == -1000
  {
    Unfinished(X8(), 4);
  }

  lemma OutcomeX4O6()
    ensures !IsGameComplete(X4O6()) && Evaluate(X4O6()) == -1000
  {
    Unfinished(X4O6(), 8);
  }

  lemma OutcomeX4O8()
    ensures IsGameComplete(X4O8()) && Evaluate(X4O8()) == 1000
  {
    MaximizerLine(X4O8());
  }

  lemma OutcomeX8O4()
    ensures !IsGameComplete(X8O4()) && Evaluate(X8O4()) == -1000
  {
    Unfinished(X8O4(), 6);
  }

  lemma OutcomeX8O6()
    ensures !IsGameComplete(X8O6()) && Evaluate(X8O6()) == -1000
  {
    Unfinished(X8O6(), 4);
  }

  lemma OutcomeFull468()
    ensures IsGameComplete(Full468()) && Evaluate(Full468()) == -1000
  {
    MinimizerLine(Full468());
  }

  lemma OutcomeFull846()
    ensures IsGameComplete(Full846()) && Evaluate(Full846()) == -1000
  {
    MinimizerLine(Full846());
  }

  // ---------------------------------------------------------------------------
  // The search, one turn of a loop per lemma

  /** 'x' in 6 is a win for 'x', and the search scores it at a leaf, unshifted. */
  lemma ScoreX6(maxDepth: nat)
    ensures HasLine(X6(), 'x')
    ensures Minimax(Rules(), X6(), maxDepth, true, NegInf, PosInf, maxDepth) == Fin(-1000)
  {
    HasLine3(X6(), 'x');
    OutcomeX6();
    TicTacToeNode(X6(), maxDepth, true, NegInf, PosInf, maxDepth);
  }

  /** 'o' in 8 after 'x' 4 is a win for 'o', scored at a leaf. */
  lemma ScoreX4O8(depth: nat, alpha: Score, maxDepth: int)
    ensures Minimax(Rules(), X4O8(), depth, false, alpha, PosInf, maxDepth) == Fin(1000)
  {
    OutcomeX4O8();
    TicTacToeNode(X4O8(), depth, false, alpha, PosInf, maxDepth);
  }

  /** With no depth left, the evaluation. */
  lemma DepthZero(p: Position, isMaximizing: bool, alpha: Score, beta: Score, maxDepth: int)
    ensures Minimax(Rules(), p, 0, isMaximizing, alpha, beta, maxDepth) == Fin(Evaluate(p))
  {
  }

  /** The last turn of the loop of `minimax_score`, given the child's score. */
  lemma LastMove(p: Position, mv: nat, child: Position, depth: int, isMaximizing: bool,
                 alpha: Score, beta: Score, maxDepth: int, value: Score, score: Score)
    requires depth >= 1 && mv < |p.board| && Played(p, mv, isMaximizing) == child
    requires score == Minimax(Rules(), child, depth - 1, !isMaximizing, alpha, beta, maxDepth)
    ensures MinimaxChildren(Rules(), p, [mv], depth, isMaximizing, alpha, beta, maxDepth, value)
         == if isMaximizing then Max(value, score) else Min(value, score)
  {
    ChildrenStep(Rules(), p, [mv], depth, isMaximizing, alpha, beta, maxDepth, value, score);
    assert [mv][1..] == [];
  }

  /** A turn of the loop of `minimax_score` that does not close the window,
      given the child's score. */
  lemma NextMove(p: Position, ms: seq<nat>, child: Position, depth: int, isMaximizing: bool,
                 alpha: Score, beta: Score, maxDepth: int, value: Score, score: Score,
                 alpha': Score, beta': Score, value': Score)
    requires depth >= 1 && ms != [] && ms[0] < |p.board| && Played(p, ms[0], isMaximizing) == child
    requires score == Minimax(Rules(), child, depth - 1, !isMaximizing, alpha, beta, maxDepth)
    requires value' == (if isMaximizing then Max(value, score) else Min(value, score))
    requires alpha' == (if isMaximizing then Max(alpha, score) else alpha)
    requires beta' == (if isMaximizing then beta else Min(beta, score))
    requires !Le(beta', alpha')
    ensures MinimaxChildren(Rules(), p, ms, depth, isMaximizing, alpha, beta, maxDepth, value)
         == MinimaxChildren(Rules(), p, ms[1..], depth, isMaximizing, alpha', beta', maxDepth, value')
  {
    ChildrenStep(Rules(), p, ms, depth, isMaximizing, alpha, beta, maxDepth, value, score);
  }

  // With one ply: 'x' in 4 loses to 'o' in 8, 'x' in 8 leaves two unfinished
  // boards, and both score like the win in 6.

  lemma LastChildX4DepthOne()
    ensures MinimaxChildren(Rules(), X4(), [8], 1, true, Fin(-1000), PosInf, 1, Fin(-1000)) == Fin(1000)
  {
    MovesX4();
    ScoreX4O8(0, Fin(-1000), 1);
    LastMove(X4(), 8, X4O8(), 1, true, Fin(-1000), PosInf, 1, Fin(-1000), Fin(1000));
  }

  lemma ChildrenX4DepthOne()
    ensures MinimaxChildren(Rules(), X4(), [6, 8], 1, true, NegInf, PosInf, 1, NegInf) == Fin(1000)
  {
    MovesX4();
    OutcomeX4O6();
    LastChildX4DepthOne();
    DepthZero(X4O6(), false, NegInf, PosInf, 1);
    NextMove(X4(), [6, 8], X4O6(), 1, true, NegInf, PosInf, 1, NegInf, Fin(-1000), Fin(-1000), PosInf, Fin(-1000));
    assert [6, 8][1..] == [8];
  }

  lemma ScoreX4DepthOne()
    ensures Minimax(Rules(), X4(), 1, true, NegInf, PosInf, 1) == Fin(1000)
  {
    MovesX4();
    OutcomeX4();
    ChildrenX4DepthOne();
    TicTacToeNode(X4(), 1, true, NegInf, PosInf, 1);
  }

  lemma LastChildX8DepthOne()
    ensures MinimaxChildren(Rules(), X8(), [6], 1, true, Fin(-1000), PosInf, 1, Fin(-1000)) == Fin(-1000)
  {
    MovesX8();
    OutcomeX8O6();
    DepthZero(X8O6(), false, Fin(-1000), PosInf, 1);
    LastMove(X8(), 6, X8O6(), 1, true, Fin(-1000), PosInf, 1, Fin(-1000), Fin(-1000));
  }

  lemma ChildrenX8DepthOne()
    ensures MinimaxChildren(Rules(), X8(), [4, 6], 1, true, NegInf, PosInf, 1, NegInf) == Fin(-1000)
  {
    MovesX8();
    OutcomeX8O4();
    LastChildX8DepthOne();
    DepthZero(X8O4(), false, NegInf, PosInf, 1);
    NextMove(X8(), [4, 6], X8O4(), 1, true, NegInf, PosInf, 1, NegInf, Fin(-1000), Fin(-1000), PosInf, Fin(-1000));
    assert [4, 6][1..] == [6];
  }

  lemma ScoreX8DepthOne()
    ensures Minimax(Rules(), X8(), 1, true, NegInf, PosInf, 1) == Fin(-1000)
  {
    MovesX8();
    OutcomeX8();
    ChildrenX8DepthOne();
    TicTacToeNode(X8(), 1, true, NegInf, PosInf, 1);
  }

  // With two plies: each answer of 'o' to 'x' 4 or 'x' 8 that does not win
  // lets 'x' win one ply below the root, at -999.

  /** 'x' wins with the last cell `mv` of `p`, which leads to `full`. */
  lemma LastCellWins(p: Position, mv: nat, full: Position, alpha: Score)
    requires mv < |p.board| && AvailableMoves(p) == [mv] && Played(p, mv, false) == full
    requires !IsGameComplete(p) && IsGameComplete(full) && Evaluate(full) == -1000
    ensures Minimax(Rules(), p, 1, false, alpha, PosInf, 2) == Fin(-999)
  {
    DepthZero(full, true, alpha, PosInf, 2);
    LastMove(p, mv, full, 1, false, alpha, PosInf, 2, PosInf, Fin(-1000));
    TicTacToeNode(p, 1, false, alpha, PosInf, 2);
  }

  lemma ScoreX4O6DepthTwo()
    ensures Minimax(Rules(), X4O6(), 1, false, NegInf, PosInf, 2) == Fin(-999)
  {
    MovesX4O6();
    OutcomeX4O6();
    OutcomeFull468();
    LastCellWins(X4O6(), 8, Full468(), NegInf);
  }

  lemma ScoreX8O4DepthTwo()
    ensures Minimax(Rules(), X8O4(), 1, false, NegInf, PosInf, 2) == Fin(-999)
  {
    MovesX8O4();
    OutcomeX8O4();
    OutcomeFull846();
    LastCellWins(X8O4(), 6, Full846(), NegInf);
  }

  /** Searched with `alpha == -999`, the win in 4 closes the window. */
  lemma ScoreX8O6DepthTwo()
    ensures Minimax(Rules(), X8O6(), 1, false, Fin(-999), PosInf, 2) == Fin(-999)
  {
    MovesX8O6();
    OutcomeX8O6();
    OutcomeFull468();
    LastCellWins(X8O6(), 4, Full468(), Fin(-999));
  }

  lemma LastChildX4DepthTwo()
    ensures MinimaxChildren(Rules(), X4(), [8], 2, true, Fin(-999), PosInf, 2, Fin(-999)) == Fin(1000)
  {
    MovesX4();
    ScoreX4O8(1, Fin(-999), 2);
    LastMove(X4(), 8, X4O8(), 2, true, Fin(-999), PosInf, 2, Fin(-999), Fin(1000));
  }

  lemma ChildrenX4DepthTwo()
    ensures MinimaxChildren(Rules(), X4(), [6, 8], 2, true, NegInf, PosInf, 2, NegInf) == Fin(1000)
  {
    MovesX4();
    ScoreX4O6DepthTwo();
    LastChildX4DepthTwo();
    NextMove(X4(), [6, 8], X4O6(), 2, true, NegInf, PosInf, 2, NegInf, Fin(-999), Fin(-999), PosInf, Fin(-999));
    assert [6, 8][1..] == [8];
  }

  /** With two plies 'x' in 4 still loses to 'o' in 8. */
  lemma ScoreX4DepthTwo()
    ensures Minimax(Rules(), X4(), 2, true, NegInf, PosInf, 2) == Fin(1000)
  {
    MovesX4();
    OutcomeX4();
    ChildrenX4DepthTwo();
    TicTacToeNode(X4(), 2, true, NegInf, PosInf, 2);
  }

  lemma LastChildX8DepthTwo()
    ensures MinimaxChildren(Rules(), X8(), [6], 2, true, Fin(-999), PosInf, 2, Fin(-999)) == Fin(-999)
  {
    MovesX8();
    ScoreX8O6DepthTwo();
    LastMove(X8(), 6, X8O6(), 2, true, Fin(-999), PosInf, 2, Fin(-999), Fin(-999));
  }

  lemma ChildrenX8DepthTwo()
    ensures MinimaxChildren(Rules(), X8(), [4, 6], 2, true, NegInf, PosInf, 2, NegInf) == Fin(-999)
  {
    MovesX8();
    ScoreX8O4DepthTwo();
    LastChildX8DepthTwo();
    NextMove(X8(), [4, 6], X8O4(), 2, true, NegInf, PosInf, 2, NegInf, Fin(-999), Fin(-999), PosInf, Fin(-999));
    assert [4, 6][1..] == [6];
  }

  /** With two plies 'x' in 8 wins one move later: -999. */
  lemma ScoreX8DepthTwo()
    ensures Minimax(Rules(), X8(), 2, true, NegInf, PosInf, 2) == Fin(-999)
  {
    MovesX8();
    OutcomeX8();
    ChildrenX8DepthTwo();
    TicTacToeNode(X8(), 2, true, NegInf, PosInf, 2);
  }

  // The root loop of `get_best_move(max_depth, true)`: each candidate is
  // played for 'x', and one whose score is at most the best so far replaces it.

  /** One turn of the root loop, given the candidate's score. */
  lemma PickStep(s: Position, ms: seq<nat>, maxDepth: int, bestValue: Score, best: nat, value: Score)
    requires maxDepth >= 0 && ms != [] && ms[0] < |s.board|
    requires value == Minimax(Rules(), Played(s, ms[0], false), maxDepth, true, NegInf, PosInf, maxDepth)
    ensures PickBest(Rules(), s, ms, maxDepth, true, false, bestValue, best)
         == if Le(value, bestValue) then PickBest(Rules(), s, ms[1..], maxDepth, true, false, value, ms[0])
            else PickBest(Rules(), s, ms[1..], maxDepth, true, false, bestValue, best)
  {
  }

  /** The root loop from cell 8 on, with cell 6 the best so far at `best`. */
  lemma RootLast(maxDepth: nat, best: Score, score8: Score)
    requires score8 == Minimax(Rules(), X8(), maxDepth, true, NegInf, PosInf, maxDepth)
    ensures PickBest(Rules(), Sample(), [8], maxDepth, true, false, best, 6) == if Le(score8, best) then 8 else 6
  {
    MovesSample();
    PickStep(Sample(), [8], maxDepth, best, 6, score8);
    assert [8][1..] == [];
  }

  /** The root loop from cell 6 on, with cell 4 the best so far at 1000. */
  lemma RootMiddle(maxDepth: nat, score8: Score)
    requires score8 == Minimax(Rules(), X8(), maxDepth, true, NegInf, PosInf, maxDepth)
    ensures PickBest(Rules(), Sample(), [6, 8], maxDepth, true, false, Fin(1000), 4)
         == if Le(score8, Fin(-1000)) then 8 else 6
  {
    MovesSample();
    ScoreX6(maxDepth);
    RootLast(maxDepth, Fin(-1000), score8);
    PickStep(Sample(), [6, 8], maxDepth, Fin(1000), 4, Fin(-1000));
    assert [6, 8][1..] == [8];
  }

  /** The whole root loop, when 'x' in 4 scores 1000. */
  lemma Root(maxDepth: nat, score8: Score)
    requires Minimax(Rules(), X4(), maxDepth, true, NegInf, PosInf, maxDepth) == Fin(1000)
    requires score8 == Minimax(Rules(), X8(), maxDepth, true, NegInf, PosInf, maxDepth)
    ensures BestMove(Rules(), Sample(), maxDepth, true, false) == if Le(score8, Fin(-1000)) then 8 else 6
  {
    MovesSample();
    OutcomeSample();
    RootMiddle(maxDepth, score8);
    PickStep(Sample(), [4, 6, 8], maxDepth, PosInf, SentinelMove(Sample()), Fin(1000));
    assert [4, 6, 8][1..] == [6, 8];
  }

  /** With `max_depth == 1` the root does not take the immediate win in 6:
      the candidates score 1000, -1000 and -1000, and the later of the two
      lowest, 8, is kept. */
  lemma ShallowSearchMissesWin()
    ensures HasLine(Played(Sample(), 6, false), 'x')
    ensures BestMove(Rules(), Sample(), 1, true, false) == 8
  {
    MovesSample();
    ScoreX6(1);
    ScoreX4DepthOne();
    ScoreX8DepthOne();
    Root(1, Fin(-1000));
  }

  /** With `max_depth == 2` the root takes the immediate win: the candidates
      score 1000, -1000 and -999, and 6 alone is lowest. */
  lemma DeeperSearchTakesWin()
    ensures BestMove(Rules(), Sample(), 2, true, false) == 6
  {
    ScoreX4DepthTwo();
    ScoreX8DepthTwo();
    Root(2, Fin(-999));
  }
}
