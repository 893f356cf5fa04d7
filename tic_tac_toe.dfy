/** The N x N tic-tac-toe game, the one complete implementation of the game
    contract. The struct keeps the board as one flat vector of `size * size`
    characters, row by row; a move is an index into it. The queries are pure
    functions of a snapshot `State` of the struct; `play` and `clear` are
    methods of the class `TicTacToe`, which writes single cells of its array. */
module TicTacToeGame {
  import opened GameStrategy

  datatype State = State(board: seq<char>, size: nat, defaultChar: char, maximizer: char, minimizer: char)

  /** A state whose board holds `size * size` cells, as `create_game` builds it. */
  type Position = s: State | |s.board| == s.size * s.size
    witness State([], 0, '-', 'o', 'x')

  /** The character `get_available_moves` and `is_game_complete` compare against,
      written into the code rather than taken from `default_char`. */
  const EMPTY: char := '-'

  /** The three characters of the game are pairwise different (true of the defaults). */
  predicate Distinct(p: Position) {
    p.maximizer != p.minimizer && p.maximizer != p.defaultChar && p.minimizer != p.defaultChar
  }

  // ---------------------------------------------------------------------------
  // create_game

  function CharOr(c: Option<char>, default: char): char {
    match c
    case Some(x) => x
    case None => default
  }

  /** A fresh game: `size * size` cells of the empty character, which defaults
      to '-', with 'o' for the maximiser and 'x' for the minimiser by default. */
  function CreateGame(size: nat, defaultChar: Option<char>, maximizer: Option<char>, minimizer: Option<char>): (p: Position)
    ensures p.size == size && |p.board| == size * size
    ensures p.defaultChar == CharOr(defaultChar, '-')
    ensures p.maximizer == CharOr(maximizer, 'o') && p.minimizer == CharOr(minimizer, 'x')
    ensures forall i :: 0 <= i < |p.board| ==> p.board[i] == p.defaultChar
  {
    var d := CharOr(defaultChar, '-');
    State(seq(size * size, _ => d), size, d, CharOr(maximizer, 'o'), CharOr(minimizer, 'x'))
  }

  // ---------------------------------------------------------------------------
  // Lines of the grid

  lemma CellInBoard(n: nat, row: nat, col: nat)
    requires row < n && col < n
    ensures n * row + col < n * n
  {
    calc {
      n * row + col;
    <
      n * row + n;
    ==
      n * (row + 1);
    <=
      n * n;
    }
  }

  /** The cell at (`row`, `col`), stored at index `size * row + col`. */
  function At(p: Position, row: nat, col: nat): char
    requires row < p.size && col < p.size
  {
    CellInBoard(p.size, row, col);
    p.board[p.size * row + col]
  }

  /** Cell `i` of the anti-diagonal, in row `size - 1 - i` and column `i`. */
  function AntiDiagonalCell(p: Position, i: nat): char
    requires i < p.size
  {
    At(p, p.size - 1 - i, i)
  }

  ghost predicate RowWon(p: Position, ch: char, row: nat)
    requires row < p.size
  {
    forall col :: 0 <= col < p.size ==> At(p, row, col) == ch
  }

  ghost predicate ColWon(p: Position, ch: char, col: nat)
    requires col < p.size
  {
    forall row :: 0 <= row < p.size ==> At(p, row, col) == ch
  }

  ghost predicate MainDiagonalWon(p: Position, ch: char) {
    forall i :: 0 <= i < p.size ==> At(p, i, i) == ch
  }

  ghost predicate AntiDiagonalWon(p: Position, ch: char) {
    forall i :: 0 <= i < p.size ==> AntiDiagonalCell(p, i) == ch
  }

  ghost predicate DiagonalWon(p: Position, ch: char) {
    MainDiagonalWon(p, ch) || AntiDiagonalWon(p, ch)
  }

  /** Some row, column or diagonal is full of `ch`. */
  ghost predicate HasLine(p: Position, ch: char) {
    || DiagonalWon(p, ch)
    || (exists row :: 0 <= row < p.size && RowWon(p, ch, row))
    || (exists col :: 0 <= col < p.size && ColWon(p, ch, col))
  }

  // The loops of check_row, check_col and check_diagonal: each scans its line
  // from index `from` on and answers false at the first cell that is not `ch`.

  function RowFrom(p: Position, ch: char, row: nat, from: nat): (r: bool)
    requires row < p.size && from <= p.size
    ensures r <==> forall col :: from <= col < p.size ==> At(p, row, col) == ch
    decreases p.size - from
  {
    if from == p.size then true
    else if At(p, row, from) != ch then false
    else RowFrom(p, ch, row, from + 1)
  }

  function ColFrom(p: Position, ch: char, col: nat, from: nat): (r: bool)
    requires col < p.size && from <= p.size
    ensures r <==> forall row :: from <= row < p.size ==> At(p, row, col) == ch
    decreases p.size - from
  {
    if from == p.size then true
    else if At(p, from, col) != ch then false
    else ColFrom(p, ch, col, from + 1)
  }

  function MainDiagonalFrom(p: Position, ch: char, from: nat): (r: bool)
    requires from <= p.size
    ensures r <==> forall i :: from <= i < p.size ==> At(p, i, i) == ch
    decreases p.size - from
  {
    if from == p.size then true
    else if At(p, from, from) != ch then false
    else MainDiagonalFrom(p, ch, from + 1)
  }

  function AntiDiagonalFrom(p: Position, ch: char, from: nat): (r: bool)
    requires from <= p.size
    ensures r <==> forall i :: from <= i < p.size ==> AntiDiagonalCell(p, i) == ch
    decreases p.size - from
  {
    if from == p.size then true
    else if AntiDiagonalCell(p, from) != ch then false
    else AntiDiagonalFrom(p, ch, from + 1)
  }

  /** `check_row`: every cell of row `row` holds `ch`. */
  function CheckRow(p: Position, ch: char, row: nat): (r: bool)
    requires row < p.size
    ensures r == RowWon(p, ch, row)
  {
    RowFrom(p, ch, row, 0)
  }

  /** `check_col`: every cell of column `col` holds `ch`. */
  function CheckCol(p: Position, ch: char, col: nat): (r: bool)
    requires col < p.size
    ensures r == ColWon(p, ch, col)
  {
    ColFrom(p, ch, col, 0)
  }

  /** `check_diagonal`: every cell of the main diagonal (`diag`) or of the
      anti-diagonal (`!diag`) holds `ch`. */
  function CheckDiagonal(p: Position, ch: char, diag: bool): (r: bool)
    ensures r == if diag then MainDiagonalWon(p, ch) else AntiDiagonalWon(p, ch)
  {
    if diag then MainDiagonalFrom(p, ch, 0) else AntiDiagonalFrom(p, ch, 0)
  }

  /** `check_diagonals`: a diagonal of the maximiser wins over one of the
      minimiser; with neither, the empty character. */
  function CheckDiagonals(p: Position): (r: char)
    ensures DiagonalWon(p, p.maximizer) ==> r == p.maximizer
    ensures !DiagonalWon(p, p.maximizer) && DiagonalWon(p, p.minimizer) ==> r == p.minimizer
    ensures !DiagonalWon(p, p.maximizer) && !DiagonalWon(p, p.minimizer) ==> r == p.defaultChar
    ensures r != p.defaultChar ==> DiagonalWon(p, r)
  {
    if CheckDiagonal(p, p.maximizer, true) || CheckDiagonal(p, p.maximizer, false) then p.maximizer
    else if CheckDiagonal(p, p.minimizer, true) || CheckDiagonal(p, p.minimizer, false) then p.minimizer
    else p.defaultChar
  }

  /** Neither player fills any row in `lo..hi`. */
  ghost predicate NoRowWonBetween(p: Position, lo: nat, hi: nat)
    requires hi <= p.size
  {
    forall row :: lo <= row < hi ==> !RowWon(p, p.maximizer, row) && !RowWon(p, p.minimizer, row)
  }

  ghost predicate NoColWonBetween(p: Position, lo: nat, hi: nat)
    requires hi <= p.size
  {
    forall col :: lo <= col < hi ==> !ColWon(p, p.maximizer, col) && !ColWon(p, p.minimizer, col)
  }

  /** The loop of `check_rows` from row `from` on: the maximiser, then the
      minimiser, is tried on each row in turn; with no full row, the empty
      character. */
  function RowsFrom(p: Position, from: nat): (r: char)
    requires from <= p.size
    ensures r == p.defaultChar || r == p.maximizer || r == p.minimizer
    ensures r != p.defaultChar ==> exists row :: from <= row < p.size && RowWon(p, r, row)
    decreases p.size - from
  {
    if from == p.size then p.defaultChar
    else if CheckRow(p, p.maximizer, from) then p.maximizer
    else if CheckRow(p, p.minimizer, from) then p.minimizer
    else RowsFrom(p, from + 1)
  }

  /** The first row that either player fills decides `RowsFrom`, the
      maximiser first within that row; with none, the empty character. */
  lemma {:induction false} RowsFromFirstWins(p: Position, from: nat)
    requires from <= p.size
    ensures NoRowWonBetween(p, from, p.size) ==> RowsFrom(p, from) == p.defaultChar
    ensures !NoRowWonBetween(p, from, p.size) ==> RowsFrom(p, from) == p.maximizer || RowsFrom(p, from) == p.minimizer
    ensures forall row :: from <= row < p.size && NoRowWonBetween(p, from, row) && RowWon(p, p.maximizer, row)
              ==> RowsFrom(p, from) == p.maximizer
    ensures forall row :: from <= row < p.size && NoRowWonBetween(p, from, row) && RowWon(p, p.minimizer, row)
              && !RowWon(p, p.maximizer, row)
              ==> RowsFrom(p, from) == p.minimizer
    decreases p.size - from
  {
    if from == p.size {
      assert NoRowWonBetween(p, from, p.size);
    } else if CheckRow(p, p.maximizer, from) {
      assert RowsFrom(p, from) == p.maximizer;
    } else if CheckRow(p, p.minimizer, from) {
      assert RowsFrom(p, from) == p.minimizer;
    } else {
      RowsFromFirstWins(p, from + 1);
      assert RowsFrom(p, from) == RowsFrom(p, from + 1);
      assert NoRowWonBetween(p, from, p.size) <==> NoRowWonBetween(p, from + 1, p.size);
      forall row | from <= row < p.size && NoRowWonBetween(p, from, row) && RowWon(p, p.maximizer, row)
        ensures RowsFrom(p, from) == p.maximizer
      {
        assert from < row && NoRowWonBetween(p, from + 1, row);
      }
      forall row | from <= row < p.size && NoRowWonBetween(p, from, row) && RowWon(p, p.minimizer, row)
                   && !RowWon(p, p.maximizer, row)
        ensures RowsFrom(p, from) == p.minimizer
      {
        assert from < row && NoRowWonBetween(p, from + 1, row);
      }
    }
  }

  /** The loop of `check_cols` from column `from` on. */
  function ColsFrom(p: Position, from: nat): (r: char)
    requires from <= p.size
    ensures r == p.defaultChar || r == p.maximizer || r == p.minimizer
    ensures r != p.defaultChar ==> exists col :: from <= col < p.size && ColWon(p, r, col)
    decreases p.size - from
  {
    if from == p.size then p.defaultChar
    else if CheckCol(p, p.maximizer, from) then p.maximizer
    else if CheckCol(p, p.minimizer, from) then p.minimizer
    else ColsFrom(p, from + 1)
  }

  /** The first column that either player fills decides `ColsFrom`. */
  lemma {:induction false} ColsFromFirstWins(p: Position, from: nat)
    requires from <= p.size
    ensures NoColWonBetween(p, from, p.size) ==> ColsFrom(p, from) == p.defaultChar
    ensures !NoColWonBetween(p, from, p.size) ==> ColsFrom(p, from) == p.maximizer || ColsFrom(p, from) == p.minimizer
    ensures forall col :: from <= col < p.size && NoColWonBetween(p, from, col) && ColWon(p, p.maximizer, col)
              ==> ColsFrom(p, from) == p.maximizer
    ensures forall col :: from <= col < p.size && NoColWonBetween(p, from, col) && ColWon(p, p.minimizer, col)
              && !ColWon(p, p.maximizer, col)
              ==> ColsFrom(p, from) == p.minimizer
    decreases p.size - from
  {
    if from == p.size {
      assert NoColWonBetween(p, from, p.size);
    } else if CheckCol(p, p.maximizer, from) {
      assert ColsFrom(p, from) == p.maximizer;
    } else if CheckCol(p, p.minimizer, from) {
      assert ColsFrom(p, from) == p.minimizer;
    } else {
      ColsFromFirstWins(p, from + 1);
      assert ColsFrom(p, from) == ColsFrom(p, from + 1);
      assert NoColWonBetween(p, from, p.size) <==> NoColWonBetween(p, from + 1, p.size);
      forall col | from <= col < p.size && NoColWonBetween(p, from, col) && ColWon(p, p.maximizer, col)
        ensures ColsFrom(p, from) == p.maximizer
      {
        assert from < col && NoColWonBetween(p, from + 1, col);
      }
      forall col | from <= col < p.size && NoColWonBetween(p, from, col) && ColWon(p, p.minimizer, col)
                   && !ColWon(p, p.maximizer, col)
        ensures ColsFrom(p, from) == p.minimizer
      {
        assert from < col && NoColWonBetween(p, from + 1, col);
      }
    }
  }

  /** `check_rows` */
  function CheckRows(p: Position): (r: char)
    ensures r == p.defaultChar || r == p.maximizer || r == p.minimizer
    ensures NoRowWonBetween(p, 0, p.size) ==> r == p.defaultChar
    ensures !NoRowWonBetween(p, 0, p.size) ==> r == p.maximizer || r == p.minimizer
    ensures r != p.defaultChar ==> exists row :: 0 <= row < p.size && RowWon(p, r, row)
    ensures forall row :: 0 <= row < p.size && NoRowWonBetween(p, 0, row) && RowWon(p, p.maximizer, row)
              ==> r == p.maximizer
    ensures forall row :: 0 <= row < p.size && NoRowWonBetween(p, 0, row) && RowWon(p, p.minimizer, row)
              && !RowWon(p, p.maximizer, row)
              ==> r == p.minimizer
  {
    RowsFromFirstWins(p, 0);
    RowsFrom(p, 0)
  }

  /** `check_cols` */
  function CheckCols(p: Position): (r: char)
    ensures r == p.defaultChar || r == p.maximizer || r == p.minimizer
    ensures NoColWonBetween(p, 0, p.size) ==> r == p.defaultChar
    ensures !NoColWonBetween(p, 0, p.size) ==> r == p.maximizer || r == p.minimizer
    ensures r != p.defaultChar ==> exists col :: 0 <= col < p.size && ColWon(p, r, col)
    ensures forall col :: 0 <= col < p.size && NoColWonBetween(p, 0, col) && ColWon(p, p.maximizer, col)
              ==> r == p.maximizer
    ensures forall col :: 0 <= col < p.size && NoColWonBetween(p, 0, col) && ColWon(p, p.minimizer, col)
              && !ColWon(p, p.maximizer, col)
              ==> r == p.minimizer
  {
    ColsFromFirstWins(p, 0);
    ColsFrom(p, 0)
  }

  // ---------------------------------------------------------------------------
  // The GameStrategy queries

  /** `get_winner`: diagonals, then rows, then columns; the empty character
      (wrapped in `Some`) when nobody has a line. */
  function Winner(p: Position): (r: Option<char>)
    ensures r.Some?
    ensures r.value == p.defaultChar || r.value == p.maximizer || r.value == p.minimizer
  {
    var diagonals := CheckDiagonals(p);
    var rows := if diagonals == p.defaultChar then CheckRows(p) else diagonals;
    var winner := if rows == p.defaultChar then CheckCols(p) else rows;
    Some(winner)
  }

  /** The loop of `get_available_moves` from index `from` on. */
  function MovesFrom(p: Position, from: nat): (r: seq<nat>)
    requires from <= |p.board|
    ensures |r| <= |p.board| - from
    decreases |p.board| - from
  {
    if from == |p.board| then []
    else if p.board[from] == EMPTY then [from] + MovesFrom(p, from + 1)
    else MovesFrom(p, from + 1)
  }

  /** The loop lists, in strictly increasing order, exactly the '-' cells at
      or after `from`. */
  lemma {:induction false} MovesFromExactly(p: Position, from: nat)
    requires from <= |p.board|
    ensures forall k :: 0 <= k < |MovesFrom(p, from)| ==>
              from <= MovesFrom(p, from)[k] < |p.board| && p.board[MovesFrom(p, from)[k]] == EMPTY
    ensures forall k, l :: 0 <= k < l < |MovesFrom(p, from)| ==> MovesFrom(p, from)[k] < MovesFrom(p, from)[l]
    ensures forall i :: from <= i < |p.board| && p.board[i] == EMPTY ==> i in MovesFrom(p, from)
    decreases |p.board| - from
  {
    if from < |p.board| {
      MovesFromExactly(p, from + 1);
    }
  }

  /** `get_available_moves`: exactly the indices of the '-' cells, in strictly
      increasing order. */
  function AvailableMoves(p: Position): (r: seq<nat>)
    ensures forall k :: 0 <= k < |r| ==> r[k] < |p.board| && p.board[r[k]] == EMPTY
    ensures forall k, l :: 0 <= k < l < |r| ==> r[k] < r[l]
    ensures forall i :: 0 <= i < |p.board| && p.board[i] == EMPTY ==> i in r
  {
    MovesFromExactly(p, 0);
    MovesFrom(p, 0)
  }

  /** `is_game_tied`: nobody has won and no move is left. */
  predicate IsGameTied(p: Position)
    ensures IsGameTied(p) ==> IsGameComplete(p)
  {
    Winner(p).value == p.defaultChar && AvailableMoves(p) == []
  }

  /** `is_game_complete`: no move is left, or the winner is not '-'. */
  predicate IsGameComplete(p: Position)
    ensures !IsGameComplete(p) ==> exists i :: 0 <= i < |p.board| && p.board[i] == EMPTY
  {
    var moves := AvailableMoves(p);
    assert moves != [] ==> moves[0] < |p.board| && p.board[moves[0]] == EMPTY;
    moves == [] || Winner(p).value != EMPTY
  }

  /** `evaluate`: 0 exactly for a tie, 1000 for a maximiser win, and -1000 for
      everything else, unfinished positions included. */
  function Evaluate(p: Position): (r: int)
    ensures r == 0 <==> IsGameTied(p)
    ensures r == 1000 <==> !IsGameTied(p) && Winner(p).value == p.maximizer
    ensures r == -1000 <==> !IsGameTied(p) && Winner(p).value != p.maximizer
  {
    if IsGameTied(p) then 0
    else if Winner(p).value == p.maximizer then 1000
    else -1000
  }

  /** `is_a_valid_move`: the cell holds the empty character. The source indexes
      the board, so `mv` must be on it. */
  predicate IsAValidMove(p: Position, mv: nat)
    requires mv < |p.board|
    ensures p.defaultChar == EMPTY ==> (IsAValidMove(p, mv) <==> mv in AvailableMoves(p))
  {
    p.board[mv] == p.defaultChar
  }

  /** `get_a_sentinel_move`: `size * size + 1`, one past the end of the board,
      so never an available move. */
  function SentinelMove(p: Position): (r: nat)
    ensures r > |p.board|
    ensures r !in AvailableMoves(p)
  {
    p.size * p.size + 1
  }

  /** The position after `play(mv, maximizer)`: the mover's character at `mv`,
      every other cell and every setting as before. */
  function Played(p: Position, mv: nat, maximizer: bool): (r: Position)
    requires mv < |p.board|
    ensures r.size == p.size && r.defaultChar == p.defaultChar
    ensures r.maximizer == p.maximizer && r.minimizer == p.minimizer
    ensures |r.board| == |p.board|
    ensures r.board[mv] == if maximizer then p.maximizer else p.minimizer
    ensures forall i :: 0 <= i < |p.board| && i != mv ==> r.board[i] == p.board[i]
  {
    p.(board := p.board[mv := if maximizer then p.maximizer else p.minimizer])
  }

  /** The position after `clear(mv)`: the empty character at `mv`, nothing else changed. */
  function Cleared(p: Position, mv: nat): (r: Position)
    requires mv < |p.board|
    ensures r.size == p.size && r.defaultChar == p.defaultChar
    ensures r.maximizer == p.maximizer && r.minimizer == p.minimizer
    ensures |r.board| == |p.board|
    ensures r.board[mv] == p.defaultChar
    ensures forall i :: 0 <= i < |p.board| && i != mv ==> r.board[i] == p.board[i]
  {
    p.(board := p.board[mv := p.defaultChar])
  }

  /** The positions on which tic-tac-toe keeps the game contract. */
  predicate Conforming(p: Position) {
    p.defaultChar == EMPTY
  }

  /** Tic-tac-toe as a `Game`. A move off the board makes the source panic
      when it indexes the vector; here `play`, `clear` and `is_a_valid_move`
      leave such a move alone, a case the engine never reaches because it
      plays only available moves. */
  function Rules(): (g: Game<Position, nat, char, seq<char>>)
    ensures forall p :: g.evaluate(p) == Evaluate(p)
    ensures forall p :: g.winner(p) == Winner(p)
    ensures forall p :: g.isGameTied(p) == IsGameTied(p)
    ensures forall p :: g.isGameComplete(p) == IsGameComplete(p)
    ensures forall p :: g.availableMoves(p) == AvailableMoves(p)
    ensures forall p: Position, mv: nat, side: bool :: mv < |p.board| ==> g.play(p, mv, side) == Played(p, mv, side)
    ensures forall p: Position, mv: nat :: mv < |p.board| ==> g.clear(p, mv) == Cleared(p, mv)
    ensures forall p :: g.board(p) == p.board
    ensures forall p: Position, mv: nat :: mv < |p.board| ==> g.isAValidMove(p, mv) == IsAValidMove(p, mv)
    ensures forall p :: g.sentinelMove(p) == SentinelMove(p)
  {
    Game<Position, nat, char, seq<char>>.Game(
      (p: Position) => Evaluate(p),
      (p: Position) => Winner(p),
      (p: Position) => IsGameTied(p),
      (p: Position) => IsGameComplete(p),
      (p: Position) => AvailableMoves(p),
      (p: Position, mv: nat, maximizer: bool) => if mv < |p.board| then Played(p, mv, maximizer) else p,
      (p: Position, mv: nat) => if mv < |p.board| then Cleared(p, mv) else p,
      (p: Position) => p.board,
      (p: Position, mv: nat) => mv < |p.board| && IsAValidMove(p, mv),
      (p: Position) => SentinelMove(p))
  }

  // ---------------------------------------------------------------------------
  // The mutable game

  /** The `TicTacToe` struct. Only the cells of the board ever change. */
  class TicTacToe {
    const board: array<char>
    const size: nat
    const defaultChar: char
    const maximizer: char
    const minimizer: char

    ghost predicate Valid() {
      board.Length == size * size
    }

    /** The current position, as the queries see it. */
    function Position(): (p: Position)
      requires Valid()
      reads board
      ensures p.board == board[..] && p.size == size && p.defaultChar == defaultChar
      ensures p.maximizer == maximizer && p.minimizer == minimizer
    {
      State(board[..], size, defaultChar, maximizer, minimizer)
    }

    /** `create_game` */
    constructor (size: nat, defaultChar: Option<char>, maximizer: Option<char>, minimizer: Option<char>)
      ensures Valid() && fresh(board)
      ensures Position() == CreateGame(size, defaultChar, maximizer, minimizer)
    {
      var d := CharOr(defaultChar, '-');
      this.board := new char[size * size](_ => d);
      this.size := size;
      this.defaultChar := d;
      this.maximizer := CharOr(maximizer, 'o');
      this.minimizer := CharOr(minimizer, 'x');
    }

    /** `play`: write the mover's character into cell `mv`. */
    method Play(mv: nat, maximizer: bool)
      requires Valid() && mv < board.Length
      modifies board
      ensures Position() == Played(old(Position()), mv, maximizer)
    {
      if maximizer {
        board[mv] := this.maximizer;
      } else {
        board[mv] := minimizer;
      }
    }

    /** `clear`: write the empty character into cell `mv`. */
    method Clear(mv: nat)
      requires Valid() && mv < board.Length
      modifies board
      ensures Position() == Cleared(old(Position()), mv)
    {
      board[mv] := defaultChar;
    }
  }
}
