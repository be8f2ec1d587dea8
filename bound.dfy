/** The values alpha-beta search keeps in alpha, beta and its running value: an
    integer, or minus or plus infinity (float('-inf') and float('inf') in Python,
    compared with the integers the evaluation returns). */
module Bounds {

  datatype Bound = NegInf | Fin(n: int) | PosInf

  /** a <= b, with -inf below and +inf above every integer. */
  predicate Le(a: Bound, b: Bound)
  {
    a.NegInf? || b.PosInf? || (a.Fin? && b.Fin? && a.n <= b.n)
  }

  /** a < b. */
  predicate Lt(a: Bound, b: Bound)
  {
    !Le(b, a)
  }

  /** max(a, b). */
  function MaxB(a: Bound, b: Bound): (m: Bound)
    ensures Le(a, m) && Le(b, m)
    ensures m == a || m == b
  {
    if Le(a, b) then b else a
  }

  /** min(a, b). */
  function MinB(a: Bound, b: Bound): (m: Bound)
    ensures Le(m, a) && Le(m, b)
    ensures m == a || m == b
  {
    if Le(a, b) then a else b
  }

  /** Le is a total order on bounds, so that every pair is comparable and the
      comparisons chain. */
  lemma LeTotalOrder(a: Bound, b: Bound, c: Bound)
    ensures Le(a, a)
    ensures Le(a, b) || Le(b, a)
    ensures Le(a, b) && Le(b, a) ==> a == b
    ensures Le(a, b) && Le(b, c) ==> Le(a, c)
    ensures Lt(a, b) <==> Le(a, b) && a != b
  {
  }

  /** What an alpha-beta search that fails soft returns for a node whose exact value
      is `exact` when it is called with the window (alpha, beta): the exact value
      when that lies strictly inside the window, otherwise a value on the same side
      of the window as the exact value, and no further from the window than it. */
  predicate FailSoft(alpha: Bound, beta: Bound, exact: int, v: int)
  {
    (Le(Fin(exact), alpha) ==> exact <= v && Le(Fin(v), alpha))
    && (Lt(alpha, Fin(exact)) && Lt(Fin(exact), beta) ==> v == exact)
    && (Le(beta, Fin(exact)) ==> v <= exact && Le(beta, Fin(v)))
  }

  /** Searched with the full window, the result is the exact value. */
  lemma FullWindow(exact: int, v: int)
    requires FailSoft(NegInf, PosInf, exact, v)
    ensures v == exact
  {
  }

  /** One step of max_value's loop. The values of the children seen so far have the
      largest value m and the loop holds v, which fails soft against (alpha, beta)
      for m and is still below beta. The next child, whose exact value is c, is
      searched with the window (max(alpha, v), beta) and returns r. Then max(v, r)
      fails soft against (alpha, beta) for max(m, c). */
  lemma {:induction false} MaxStep(alpha: Bound, beta: Bound, m: int, v: int, c: int, r: int)
    requires Lt(alpha, beta)
    requires FailSoft(alpha, beta, m, v) && Lt(Fin(v), beta)
    requires FailSoft(MaxB(alpha, Fin(v)), beta, c, r)
    ensures FailSoft(alpha, beta, if c > m then c else m, if r > v then r else v)
  {
    if Le(Fin(m), alpha) {
      assert MaxB(alpha, Fin(v)) == alpha;
    } else {
      assert v == m && MaxB(alpha, Fin(v)) == Fin(m);
    }
  }

  /** One step of min_value's loop, the mirror image of MaxStep. */
  lemma {:induction false} MinStep(alpha: Bound, beta: Bound, m: int, v: int, c: int, r: int)
    requires Lt(alpha, beta)
    requires FailSoft(alpha, beta, m, v) && Lt(alpha, Fin(v))
    requires FailSoft(alpha, MinB(beta, Fin(v)), c, r)
    ensures FailSoft(alpha, beta, if c < m then c else m, if r < v then r else v)
  {
    if Le(beta, Fin(m)) {
      assert MinB(beta, Fin(v)) == beta;
    } else {
      assert v == m && MinB(beta, Fin(v)) == Fin(m);
    }
  }

  /** max_value returning early, once its running value v reached beta: the exact
      value, which is at least the largest value m seen so far, is then at least
      beta too, and v still fails soft for it. */
  lemma CutoffAbove(alpha: Bound, beta: Bound, m: int, v: int, exact: int)
    requires FailSoft(alpha, beta, m, v) && Le(beta, Fin(v)) && Lt(alpha, beta)
    requires m <= exact
    ensures FailSoft(alpha, beta, exact, v)
  {
  }

  /** min_value returning early, once its running value v fell to alpha. */
  lemma CutoffBelow(alpha: Bound, beta: Bound, m: int, v: int, exact: int)
    requires FailSoft(alpha, beta, m, v) && Le(Fin(v), alpha) && Lt(alpha, beta)
    requires exact <= m
    ensures FailSoft(alpha, beta, exact, v)
  {
  }
}
