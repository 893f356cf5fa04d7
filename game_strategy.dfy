/** The capability set every two-player, zero-sum game offers the search
    engine (the `GameStrategy` trait), modelled as a record of functions over
    the game's state `S`, with moves `M`, players `P` and a board view `B`.
    The queries are functions of the state, so they cannot change it; `play`
    and `clear` are the only operations that produce a new state, which a
    mutable implementation (see the tic-tac-toe class) performs in place. */
module GameStrategy {

  datatype Option<T> = None | Some(value: T)

  datatype Game<!S, !M, P, B> = Game(
    /** static evaluation, higher is better for the maximiser */
    evaluate: S -> int,
    /** the winner, if any */
    winner: S -> Option<P>,
    isGameTied: S -> bool,
    isGameComplete: S -> bool,
    /** the playable moves of the position, in the order the engine tries them */
    availableMoves: S -> seq<M>,
    /** `play(s, mv, maximizer)`: `mv` played for the maximiser when the flag is set */
    play: (S, M, bool) -> S,
    /** `clear(s, mv)`: reset the cell or square of a played move */
    clear: (S, M) -> S,
    board: S -> B,
    isAValidMove: (S, M) -> bool,
    /** a move that is never playable */
    sentinelMove: S -> M
  )

  /** The promises of the contract that the engine relies on, on the states
      `inv` admits: the sentinel is never among the available moves; every
      available move is a valid move; playing an available move keeps the
      state in `inv`, and clearing it again gives back exactly the state
      before, whichever side played it. */
  ghost predicate Lawful<S(!new), M(!new), P, B>(g: Game<S, M, P, B>, inv: S -> bool) {
    && (forall s :: inv(s) ==> g.sentinelMove(s) !in g.availableMoves(s))
    && (forall s, mv :: inv(s) && mv in g.availableMoves(s) ==> g.isAValidMove(s, mv))
    && (forall s, mv, side :: inv(s) && mv in g.availableMoves(s) ==>
          inv(g.play(s, mv, side)) && g.clear(g.play(s, mv, side), mv) == s)
  }
}
