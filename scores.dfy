/** Search scores. The source keeps them in `f64`, but every value it ever
    produces is an integer (0, +-1000 and integer depth shifts) or one of the
    two infinities that start an accumulator, so the model uses integers
    extended with -oo and +oo. */
module Scores {

  datatype Score = NegInf | Fin(n: int) | PosInf

  /** The order of the extended integers: `a <= b`, with -oo below and +oo
      above every score. */
  predicate Le(a: Score, b: Score)
    ensures a == NegInf || b == PosInf || a == b ==> Le(a, b)
  {
    match (a, b)
    case (NegInf, _) => true
    case (_, PosInf) => true
    case (Fin(x), Fin(y)) => x <= y
    case _ => false
  }

  /** `a.max(b)`: the larger of the two. */
  function Max(a: Score, b: Score): (r: Score)
    ensures Le(a, r) && Le(b, r)
    ensures r == a || r == b
  {
    if Le(a, b) then b else a
  }

  /** `a.min(b)`: the smaller of the two. */
  function Min(a: Score, b: Score): (r: Score)
    ensures Le(r, a) && Le(r, b)
    ensures r == a || r == b
  {
    if Le(a, b) then a else b
  }

  /** The value an accumulator starts from: -oo for the maximiser, +oo for
      the minimiser, so that the first score taken in replaces it. */
  function Start(isMaximizing: bool): (r: Score)
    ensures !r.Fin?
    ensures isMaximizing ==> forall x :: Le(r, x)
    ensures !isMaximizing ==> forall x :: Le(x, r)
  {
    if isMaximizing then NegInf else PosInf
  }

  /** `v` folded with `max` over `t`, left to right, as a loop over `t` does. */
  function MaxOf(v: Score, t: seq<Score>): (r: Score)
    ensures Le(v, r)
    ensures forall i :: 0 <= i < |t| ==> Le(t[i], r)
    ensures r == v || r in t
    decreases |t|
  {
    if t == [] then v else MaxOf(Max(v, t[0]), t[1..])
  }

  /** `v` folded with `min` over `t`, left to right. */
  function MinOf(v: Score, t: seq<Score>): (r: Score)
    ensures Le(r, v)
    ensures forall i :: 0 <= i < |t| ==> Le(r, t[i])
    ensures r == v || r in t
    decreases |t|
  {
    if t == [] then v else MinOf(Min(v, t[0]), t[1..])
  }

  /** Mate-distance adjustment: a nonzero score moves by `distance` towards the
      opponent (down for the maximiser, up for the minimiser); 0, a draw, stays
      where it is, and so do the infinities. */
  function Shift(value: Score, isMaximizing: bool, distance: int): (r: Score)
    ensures value == Fin(0) ==> r == Fin(0)
    ensures value.Fin? && value != Fin(0) ==>
              r == Fin(if isMaximizing then value.n - distance else value.n + distance)
    ensures !value.Fin? ==> r == value
  {
    match value
    case Fin(v) =>
      if v == 0 then value
      else if isMaximizing then Fin(v - distance)
      else Fin(v + distance)
    case _ => value
  }

  /** A nonzero score found farther from the root is worse for the side that
      found it: the maximiser's value drops and the minimiser's rises with
      every level, so a sooner win (or a later loss) ranks higher. */
  lemma ShiftPrefersSooner(v: int, d1: int, d2: int)
    requires v != 0 && d1 < d2
    ensures Shift(Fin(v), true, d2).n < Shift(Fin(v), true, d1).n
    ensures Shift(Fin(v), false, d2).n > Shift(Fin(v), false, d1).n
  {
  }

  lemma LeTotalOrder(a: Score, b: Score, c: Score)
    ensures Le(a, a)
    ensures Le(a, b) || Le(b, a)
    ensures Le(a, b) && Le(b, a) ==> a == b
    ensures Le(a, b) && Le(b, c) ==> Le(a, c)
  {
  }
}
