/** What the tic-tac-toe queries mean in terms of the lines on the board,
    and the facts the search engine needs from `play` and `clear`. */
module TicTacToeProperties {
  import opened GameStrategy
  import opened TicTacToeGame

  /** No cell holds '-', so no move is left. */
  ghost predicate BoardFull(p: Position) {
    forall i :: 0 <= i < |p.board| ==> p.board[i] != EMPTY
  }

  // ---------------------------------------------------------------------------
  // get_winner

  /** A winner other than the empty character is one of the two players and
      owns a full line. */
  lemma WinnerOwnsALine(p: Position)
    ensures var w := Winner(p).value;
      w != p.defaultChar ==> (w == p.maximizer || w == p.minimizer) && HasLine(p, w)
  {
    var w := Winner(p).value;
    if w != p.defaultChar {
      var d := CheckDiagonals(p);
      if d != p.defaultChar {
        assert w == d;
      } else if CheckRows(p) != p.defaultChar {
        assert w == CheckRows(p);
        var row :| 0 <= row < p.size && RowWon(p, w, row);
      } else {
        assert w == CheckCols(p);
        var col :| 0 <= col < p.size && ColWon(p, w, col);
      }
    }
  }

  /** Without a line of either player, `get_winner` reports the empty character. */
  lemma NoLineNoWinner(p: Position)
    requires !HasLine(p, p.maximizer) && !HasLine(p, p.minimizer)
    ensures Winner(p).value == p.defaultChar
  {
    assert NoRowWonBetween(p, 0, p.size);
    assert NoColWonBetween(p, 0, p.size);
  }

  /** With three different characters, a line of either player is always reported. */
  lemma LineMeansWinner(p: Position)
    requires Distinct(p)
    requires HasLine(p, p.maximizer) || HasLine(p, p.minimizer)
    ensures Winner(p).value != p.defaultChar
  {
    if !DiagonalWon(p, p.maximizer) && !DiagonalWon(p, p.minimizer) && NoRowWonBetween(p, 0, p.size) {
      assert !NoColWonBetween(p, 0, p.size);
    }
  }

  /** Winner precedence: diagonals before rows and columns, the maximiser's
      diagonal before the minimiser's, and rows before columns. */
  lemma WinnerPrecedence(p: Position)
    requires Distinct(p)
    ensures DiagonalWon(p, p.maximizer) ==> Winner(p).value == p.maximizer
    ensures !DiagonalWon(p, p.maximizer) && DiagonalWon(p, p.minimizer) ==> Winner(p).value == p.minimizer
    ensures !DiagonalWon(p, p.maximizer) && !DiagonalWon(p, p.minimizer) && !NoRowWonBetween(p, 0, p.size) ==>
              exists row :: 0 <= row < p.size && RowWon(p, Winner(p).value, row)
  {
    if !DiagonalWon(p, p.maximizer) && !DiagonalWon(p, p.minimizer) && !NoRowWonBetween(p, 0, p.size) {
      assert CheckDiagonals(p) == p.defaultChar;
      assert Winner(p).value == CheckRows(p);
    }
  }

  // ---------------------------------------------------------------------------
  // is_game_tied, is_game_complete, evaluate

  lemma NoMovesIffFull(p: Position)
    ensures AvailableMoves(p) == [] <==> BoardFull(p)
  {
    if !BoardFull(p) {
      var i :| 0 <= i < |p.board| && p.board[i] == EMPTY;
      assert i in AvailableMoves(p);
    }
    if AvailableMoves(p) != [] {
      assert p.board[AvailableMoves(p)[0]] == EMPTY;
    }
  }

  /** A tie is a full board on which neither player has a line. */
  lemma TiedIff(p: Position)
    requires Distinct(p)
    ensures IsGameTied(p) <==> BoardFull(p) && !HasLine(p, p.maximizer) && !HasLine(p, p.minimizer)
  {
    NoMovesIffFull(p);
    if HasLine(p, p.maximizer) || HasLine(p, p.minimizer) {
      LineMeansWinner(p);
    } else {
      NoLineNoWinner(p);
    }
  }

  /** With '-' as the empty character, the game is complete exactly when the
      board is full or a player has a line. */
  lemma CompleteIff(p: Position)
    requires Conforming(p) && Distinct(p)
    ensures IsGameComplete(p) <==> BoardFull(p) || HasLine(p, p.maximizer) || HasLine(p, p.minimizer)
  {
    NoMovesIffFull(p);
    if HasLine(p, p.maximizer) || HasLine(p, p.minimizer) {
      LineMeansWinner(p);
    } else {
      NoLineNoWinner(p);
    }
  }

  /** `evaluate` in terms of the board: 1000 when the maximiser has a line
      (and the minimiser has none), 0 for a full board without lines, and
      -1000 otherwise, which includes every unfinished position without lines. */
  lemma EvaluateByLines(p: Position)
    requires Distinct(p)
    ensures HasLine(p, p.maximizer) && !HasLine(p, p.minimizer) ==> Evaluate(p) == 1000
    ensures !HasLine(p, p.maximizer) && !HasLine(p, p.minimizer) ==>
              Evaluate(p) == if BoardFull(p) then 0 else -1000
    ensures HasLine(p, p.minimizer) && !HasLine(p, p.maximizer) ==> Evaluate(p) == -1000
  {
    TiedIff(p);
    WinnerOwnsALine(p);
    if HasLine(p, p.maximizer) || HasLine(p, p.minimizer) {
      LineMeansWinner(p);
    } else {
      NoLineNoWinner(p);
    }
  }

  // ---------------------------------------------------------------------------
  // is_a_valid_move, play, clear

  /** `clear` undoes `play` on an available move when the empty character is '-'. */
  lemma ClearUndoesPlay(p: Position, mv: nat, maximizer: bool)
    requires Conforming(p) && mv in AvailableMoves(p)
    ensures mv < |p.board|
    ensures Cleared(Played(p, mv, maximizer), mv) == p
  {
    assert Cleared(Played(p, mv, maximizer), mv).board == p.board;
  }

  /** With any other empty character, `clear` leaves that character where a '-'
      was, so it does not undo `play`, and no available move is a valid move. */
  lemma CustomEmptyBreaksUndo(p: Position, mv: nat, maximizer: bool)
    requires !Conforming(p) && mv in AvailableMoves(p)
    ensures mv < |p.board|
    ensures Cleared(Played(p, mv, maximizer), mv) != p
    ensures !IsAValidMove(p, mv)
  {
    assert Cleared(Played(p, mv, maximizer), mv).board[mv] != p.board[mv];
  }

  /** With an empty character other than '-' (and players that are not '-'),
      every position, a fresh one included, counts as complete. */
  lemma CustomEmptyIsComplete(p: Position)
    requires !Conforming(p) && p.maximizer != EMPTY && p.minimizer != EMPTY
    ensures IsGameComplete(p)
  {
  }

  lemma {:induction false} MovesFromAfterPlay(p: Position, mv: nat, maximizer: bool, from: nat)
    requires mv < |p.board| && p.board[mv] == EMPTY
    requires (if maximizer then p.maximizer else p.minimizer) != EMPTY
    requires from <= mv
    ensures MovesFrom(Played(p, mv, maximizer), from) == RemoveMove(MovesFrom(p, from), mv)
    decreases mv - from
  {
    if from == mv {
      MovesFromPastPlayedCell(p, mv, maximizer, mv + 1);
      MovesFromAtPlayedCell(p, mv, maximizer);
    } else {
      MovesFromAfterPlay(p, mv, maximizer, from + 1);
      MovesFromBeforePlayedCell(p, mv, maximizer, from);
    }
  }

  /** Past the played cell the move list is unchanged. */
  lemma {:induction false} MovesFromPastPlayedCell(p: Position, mv: nat, maximizer: bool, from: nat)
    requires mv < from <= |p.board|
    ensures MovesFrom(Played(p, mv, maximizer), from) == MovesFrom(p, from)
    decreases |p.board| - from
  {
    if from < |p.board| {
      MovesFromPastPlayedCell(p, mv, maximizer, from + 1);
      MovesFromAfterPlayedCell(p, mv, maximizer, from);
    }
  }

  /** The step of `MovesFromAfterPlay` at the played cell itself. */
  lemma MovesFromAtPlayedCell(p: Position, mv: nat, maximizer: bool)
    requires mv < |p.board| && p.board[mv] == EMPTY
    requires (if maximizer then p.maximizer else p.minimizer) != EMPTY
    requires MovesFrom(Played(p, mv, maximizer), mv + 1) == MovesFrom(p, mv + 1)
    ensures MovesFrom(Played(p, mv, maximizer), mv) == RemoveMove(MovesFrom(p, mv), mv)
  {
    var rest := MovesFrom(p, mv + 1);
    MovesFromExactly(p, mv + 1);
    assert MovesFrom(p, mv) == [mv] + rest;
    assert mv !in rest;
    RemoveAbsent(rest, mv);
    assert ([mv] + rest)[1..] == rest;
  }

  /** The step of `MovesFromAfterPlay` at a cell after the played one. */
  lemma MovesFromAfterPlayedCell(p: Position, mv: nat, maximizer: bool, from: nat)
    requires mv < from < |p.board|
    requires MovesFrom(Played(p, mv, maximizer), from + 1) == MovesFrom(p, from + 1)
    ensures MovesFrom(Played(p, mv, maximizer), from) == MovesFrom(p, from)
  {
    assert Played(p, mv, maximizer).board[from] == p.board[from];
  }

  /** The step of `MovesFromAfterPlay` at a cell before the played one. */
  lemma MovesFromBeforePlayedCell(p: Position, mv: nat, maximizer: bool, from: nat)
    requires from < mv < |p.board|
    requires MovesFrom(Played(p, mv, maximizer), from + 1) == RemoveMove(MovesFrom(p, from + 1), mv)
    ensures MovesFrom(Played(p, mv, maximizer), from) == RemoveMove(MovesFrom(p, from), mv)
  {
    var rest := MovesFrom(p, from + 1);
    assert Played(p, mv, maximizer).board[from] == p.board[from];
    if p.board[from] == EMPTY {
      assert ([from] + rest)[0] == from && ([from] + rest)[1..] == rest;
    }
  }

  /** `s` without the occurrences of `x`. */
  function RemoveMove(s: seq<nat>, x: nat): (r: seq<nat>)
    ensures forall y :: y in r <==> y in s && y != x
  {
    if s == [] then []
    else if s[0] == x then RemoveMove(s[1..], x)
    else [s[0]] + RemoveMove(s[1..], x)
  }

  lemma {:induction false} RemoveStrictlySorted(s: seq<nat>, x: nat)
    requires forall k, l :: 0 <= k < l < |s| ==> s[k] < s[l]
    requires x in s
    ensures |RemoveMove(s, x)| == |s| - 1
  {
    if s[0] == x {
      assert x !in s[1..];
      RemoveAbsent(s[1..], x);
    } else {
      RemoveStrictlySorted(s[1..], x);
    }
  }

  lemma {:induction false} RemoveAbsent(s: seq<nat>, x: nat)
    requires x !in s
    ensures RemoveMove(s, x) == s
  {
    if s != [] {
      RemoveAbsent(s[1..], x);
      assert [s[0]] + s[1..] == s;
    }
  }

  /** Playing an available move takes exactly that move out of the available
      ones, so the count of '-' cells falls by one at each level of the search. */
  lemma PlayTakesMove(p: Position, mv: nat, maximizer: bool)
    requires mv in AvailableMoves(p)
    requires (if maximizer then p.maximizer else p.minimizer) != EMPTY
    ensures mv < |p.board|
    ensures AvailableMoves(Played(p, mv, maximizer)) == RemoveMove(AvailableMoves(p), mv)
    ensures |AvailableMoves(Played(p, mv, maximizer))| == |AvailableMoves(p)| - 1
  {
    MovesFromAfterPlay(p, mv, maximizer, 0);
    RemoveStrictlySorted(AvailableMoves(p), mv);
  }

  /** The game keeps the contract on every position whose empty character is '-'. */
  lemma TicTacToeIsLawful()
    ensures Lawful(Rules(), (p: Position) => Conforming(p))
  {
    var g := Rules();
    forall p: Position, mv: nat, side: bool | Conforming(p) && mv in g.availableMoves(p)
      ensures Conforming(g.play(p, mv, side)) && g.clear(g.play(p, mv, side), mv) == p
    {
      ClearUndoesPlay(p, mv, side);
    }
  }

  // ---------------------------------------------------------------------------
  // create_game

  lemma {:induction false} MovesFromFresh(p: Position, from: nat)
    requires forall i :: 0 <= i < |p.board| ==> p.board[i] == EMPTY
    requires from <= |p.board|
    ensures |MovesFrom(p, from)| == |p.board| - from
    decreases |p.board| - from
  {
    if from < |p.board| {
      MovesFromFresh(p, from + 1);
    }
  }

  /** On a board of at least one cell where every cell is '-', nobody has a line. */
  lemma {:induction false} BlankBoardHasNoLine(p: Position, ch: char)
    requires p.size >= 1 && ch != EMPTY
    requires forall i :: 0 <= i < |p.board| ==> p.board[i] == EMPTY
    ensures !HasLine(p, ch)
  {
    assert At(p, 0, 0) == EMPTY;
    assert AntiDiagonalCell(p, 0) == EMPTY;
    forall row | 0 <= row < p.size
      ensures !RowWon(p, ch, row)
    {
      assert At(p, row, 0) == EMPTY;
    }
    forall col | 0 <= col < p.size
      ensures !ColWon(p, ch, col)
    {
      assert At(p, 0, col) == EMPTY;
    }
  }

  /** A fresh default game of size at least 1: every cell is an available
      move, nobody has won, the game is not complete, and `evaluate` already
      says -1000. */
  lemma FreshGame(n: nat)
    requires n >= 1
    ensures var p := CreateGame(n, None, None, None);
      && |AvailableMoves(p)| == n * n
      && Winner(p).value == '-'
      && !IsGameComplete(p)
      && !IsGameTied(p)
      && Evaluate(p) == -1000
  {
    var p := CreateGame(n, None, None, None);
    MovesFromFresh(p, 0);
    BlankBoardHasNoLine(p, 'o');
    BlankBoardHasNoLine(p, 'x');
    NoLineNoWinner(p);
  }

  /** On a 0 x 0 board every diagonal is trivially full, so the maximiser has
      already won. */
  lemma EmptyBoardMaximizerWins()
    ensures var p := CreateGame(0, None, None, None);
      Winner(p).value == 'o' && IsGameComplete(p) && Evaluate(p) == 1000
  {
    var p := CreateGame(0, None, None, None);
    assert MainDiagonalWon(p, 'o');
  }
}
