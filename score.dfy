/** Search scores: real evaluations extended with the two infinities that
    open a search window, ordered as floating-point numbers are. */
module Score {

  datatype Ext = NegInf | Fin(v: real) | PosInf

  /** Strictly below, as `<` on floats. */
  predicate Less(x: Ext, y: Ext) {
    match x
    case NegInf => !y.NegInf?
    case Fin(a) => y.PosInf? || (y.Fin? && a < y.v)
    case PosInf => false
  }

  /** At most, as `<=` on floats. */
  predicate AtMost(x: Ext, y: Ext) {
    !Less(y, x)
  }

  /** Python's `max(x, y)`: the first argument unless the second is larger. */
  function Max(x: Ext, y: Ext): (z: Ext)
    ensures AtMost(x, z) && AtMost(y, z) && (z == x || z == y)
  {
    if Less(x, y) then y else x
  }

  /** Python's `min(x, y)`: the first argument unless the second is smaller. */
  function Min(x: Ext, y: Ext): (z: Ext)
    ensures AtMost(z, x) && AtMost(z, y) && (z == x || z == y)
  {
    if Less(y, x) then y else x
  }

  /** Float addition of a finite amount: the infinities absorb it. */
  function Shift(x: Ext, d: real): (z: Ext)
    ensures z.Fin? <==> x.Fin?
    ensures x.Fin? ==> z.v - x.v == d
  {
    match x
    case Fin(a) => Fin(a + d)
    case _ => x
  }

  /** What a fail-soft search over the window (alpha, beta) promises about
      the score it returns against the exact value: a score at or below
      alpha is an upper bound, a score at or above beta a lower bound, and
      a score strictly inside the window is exact. */
  predicate FailSoft(alpha: Ext, beta: Ext, score: Ext, exact: real) {
    (AtMost(score, alpha) ==> AtMost(Fin(exact), score)) &&
    (AtMost(beta, score) ==> AtMost(score, Fin(exact))) &&
    (Less(alpha, score) && Less(score, beta) ==> score == Fin(exact))
  }

  /** Over the full window every finite fail-soft score is exact. */
  lemma FullWindowIsExact(score: Ext, exact: real)
    requires score.Fin? && FailSoft(NegInf, PosInf, score, exact)
    ensures score == Fin(exact)
  {
  }

  /** One child of a maximising node, searched in the window raised to
      `a == Max(alpha, best)`: if its score beats the best so far it becomes
      the new best and is fail-soft against the child's value for the
      node's own window (and exact or an upper bound unless it cuts off);
      otherwise the child's value is no better than the best so far. */
  lemma MaxChildStep(alpha: Ext, beta: Ext, a: Ext, best: Ext, s: Ext, c: real)
    requires a == Max(alpha, best) && Less(a, beta) && s.Fin? && !best.PosInf?
    requires FailSoft(a, beta, s, c)
    ensures Less(best, s) ==> FailSoft(alpha, beta, s, c)
    ensures Less(best, s) && Less(Max(a, s), beta) ==> c <= s.v
    ensures Less(best, s) && AtMost(beta, Max(a, s)) ==> AtMost(beta, s)
    ensures !Less(best, s) ==> best.Fin? && c <= best.v
  {
  }

  /** The mirror image for a minimising node searched in the window lowered
      to `b == Min(beta, best)`. */
  lemma MinChildStep(alpha: Ext, beta: Ext, b: Ext, best: Ext, s: Ext, c: real)
    requires b == Min(beta, best) && Less(alpha, b) && s.Fin? && !best.NegInf?
    requires FailSoft(alpha, b, s, c)
    ensures Less(s, best) ==> FailSoft(alpha, beta, s, c)
    ensures Less(s, best) && Less(alpha, Min(b, s)) ==> s.v <= c
    ensures Less(s, best) && AtMost(Min(b, s), alpha) ==> AtMost(s, alpha)
    ensures !Less(s, best) ==> best.Fin? && best.v <= c
  {
  }

  /** A maximising node's result: the best score is fail-soft against its
      own child's value, that value is at most the node's value `v`, and
      either the search was cut off at beta or every child was at most the
      best score.  Then the best score is fail-soft against `v`. */
  lemma MaxResult(alpha: Ext, beta: Ext, best: Ext, bestVal: real, v: real)
    requires Less(alpha, beta) && best.Fin?
    requires FailSoft(alpha, beta, best, bestVal) && bestVal <= v
    requires AtMost(beta, best) || v <= best.v
    ensures FailSoft(alpha, beta, best, v)
  {
  }

  /** The mirror image for a minimising node. */
  lemma MinResult(alpha: Ext, beta: Ext, best: Ext, bestVal: real, v: real)
    requires Less(alpha, beta) && best.Fin?
    requires FailSoft(alpha, beta, best, bestVal) && v <= bestVal
    requires AtMost(best, alpha) || best.v <= v
    ensures FailSoft(alpha, beta, best, v)
  {
  }
}
