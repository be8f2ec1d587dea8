/** The search of the AlphaBeta strategy as functions on values: what max_value and
    min_value with the window (alpha, beta) return, and how many positions they
    evaluate on the way. Each search walks the children in the order of
    Actions(s) and stops at the first child whose value closes the window. */
module Pruning {
  import opened Builtins
  import opened Game
  import opened Bounds
  import HeuristicSearch

  /** What a search returns, and how many positions it evaluated (num_leafs). */
  datatype Search = Search(value: int, leaves: nat)

  // ---------------------------------------------------------------------------
  // The pruned search

  /** AlphaBeta.max_value(s, p, depth, alpha, beta). */
  function MaxAB(g: Square, s: State, p: Player, depth: int, alpha: Bound, beta: Bound): Search
    requires |s| == Size(g)
    decreases |Actions(s)|, 1, 0, 0
  {
    if depth == 0 || TerminalTest(g, s) then Search(HeuristicSearch.Heuristic(g, s, p), 1)
    else MaxLoop(g, s, p, depth, alpha, beta, 0, NegInf, 0)
  }

  /** The loop of max_value from child i on, with the running value v, the window
      (alpha, beta) as narrowed so far and the positions evaluated so far. */
  function MaxLoop(g: Square, s: State, p: Player, depth: int, alpha: Bound, beta: Bound,
                   i: nat, v: Bound, leaves: nat): Search
    requires |s| == Size(g) && i <= |Actions(s)|
    requires v.Fin? || (v.NegInf? && i < |Actions(s)|)
    decreases |Actions(s)|, 0, |Actions(s)| - i, 1
  {
    if i == |Actions(s)| then Search(v.n, leaves)
    else
      var c := MinChild(g, s, p, depth, i, alpha, beta);
      var w := MaxB(v, Fin(c.value));
      if Le(beta, w) then Search(w.n, leaves + c.leaves)
      else MaxLoop(g, s, p, depth, MaxB(alpha, w), beta, i + 1, w, leaves + c.leaves)
  }

  /** AlphaBeta.min_value(s, p, depth, alpha, beta). */
  function MinAB(g: Square, s: State, p: Player, depth: int, alpha: Bound, beta: Bound): Search
    requires |s| == Size(g)
    decreases |Actions(s)|, 1, 0, 0
  {
    if depth == 0 || TerminalTest(g, s) then Search(HeuristicSearch.Heuristic(g, s, p), 1)
    else MinLoop(g, s, p, depth, alpha, beta, 0, PosInf, 0)
  }

  /** The loop of min_value from child i on, the mirror image of MaxLoop. */
  function MinLoop(g: Square, s: State, p: Player, depth: int, alpha: Bound, beta: Bound,
                   i: nat, v: Bound, leaves: nat): Search
    requires |s| == Size(g) && i <= |Actions(s)|
    requires v.Fin? || (v.PosInf? && i < |Actions(s)|)
    decreases |Actions(s)|, 0, |Actions(s)| - i, 1
  {
    if i == |Actions(s)| then Search(v.n, leaves)
    else
      var c := MaxChild(g, s, p, depth, i, alpha, beta);
      var w := MinB(v, Fin(c.value));
      if Le(w, alpha) then Search(w.n, leaves + c.leaves)
      else MinLoop(g, s, p, depth, alpha, MinB(beta, w), i + 1, w, leaves + c.leaves)
  }

  /** One turn of max_value's loop at child i, unfolded: c is what the child's
      search returns, and with the new running value w = max(v, c) the loop either
      returns w, having reached beta, or goes on with child i + 1. */
  lemma MaxLoopStep(g: Square, s: State, p: Player, depth: int, alpha: Bound, beta: Bound,
                    i: nat, v: Bound, leaves: nat, c: Search)
    requires |s| == Size(g) && i < |Actions(s)|
    requires v.Fin? || v.NegInf?
    requires c == MinChildSearch(g, s, p, depth, i, alpha, beta)
    ensures MaxB(v, Fin(c.value)).Fin?
    ensures Le(beta, MaxB(v, Fin(c.value))) ==>
      MaxLoop(g, s, p, depth, alpha, beta, i, v, leaves) == Search(MaxB(v, Fin(c.value)).n, leaves + c.leaves)
    ensures !Le(beta, MaxB(v, Fin(c.value))) ==>
      MaxLoop(g, s, p, depth, alpha, beta, i, v, leaves)
      == MaxLoop(g, s, p, depth, MaxB(alpha, MaxB(v, Fin(c.value))), beta, i + 1, MaxB(v, Fin(c.value)), leaves + c.leaves)
  {
  }

  /** One turn of min_value's loop at child i, the mirror image of MaxLoopStep. */
  lemma MinLoopStep(g: Square, s: State, p: Player, depth: int, alpha: Bound, beta: Bound,
                    i: nat, v: Bound, leaves: nat, c: Search)
    requires |s| == Size(g) && i < |Actions(s)|
    requires v.Fin? || v.PosInf?
    requires c == MaxChildSearch(g, s, p, depth, i, alpha, beta)
    ensures MinB(v, Fin(c.value)).Fin?
    ensures Le(MinB(v, Fin(c.value)), alpha) ==>
      MinLoop(g, s, p, depth, alpha, beta, i, v, leaves) == Search(MinB(v, Fin(c.value)).n, leaves + c.leaves)
    ensures !Le(MinB(v, Fin(c.value)), alpha) ==>
      MinLoop(g, s, p, depth, alpha, beta, i, v, leaves)
      == MinLoop(g, s, p, depth, alpha, MinB(beta, MinB(v, Fin(c.value))), i + 1, MinB(v, Fin(c.value)), leaves + c.leaves)
  {
  }

  /** max_value's loop past the last child returns its running value. */
  lemma MaxLoopDone(g: Square, s: State, p: Player, depth: int, alpha: Bound, beta: Bound, v: Bound, leaves: nat)
    requires |s| == Size(g) && v.Fin?
    ensures MaxLoop(g, s, p, depth, alpha, beta, |Actions(s)|, v, leaves) == Search(v.n, leaves)
  {
  }

  /** min_value's loop past the last child returns its running value. */
  lemma MinLoopDone(g: Square, s: State, p: Player, depth: int, alpha: Bound, beta: Bound, v: Bound, leaves: nat)
    requires |s| == Size(g) && v.Fin?
    ensures MinLoop(g, s, p, depth, alpha, beta, |Actions(s)|, v, leaves) == Search(v.n, leaves)
  {
  }

  /** min_value(result(s, a), p, depth - 1, alpha, beta) for the i-th legal move a. */
  function MinChild(g: Square, s: State, p: Player, depth: int, i: nat, alpha: Bound, beta: Bound): Search
    requires |s| == Size(g) && i < |Actions(s)|
    decreases |Actions(s)|, 0, 0, 0
  {
    PlayAction(s, i);
    MinAB(g, Result(s, Actions(s)[i]), p, depth - 1, alpha, beta)
  }

  /** max_value(result(s, a), p, depth - 1, alpha, beta) for the i-th legal move a. */
  function MaxChild(g: Square, s: State, p: Player, depth: int, i: nat, alpha: Bound, beta: Bound): Search
    requires |s| == Size(g) && i < |Actions(s)|
    decreases |Actions(s)|, 0, 0, 0
  {
    PlayAction(s, i);
    MaxAB(g, Result(s, Actions(s)[i]), p, depth - 1, alpha, beta)
  }

  /** The positions AlphaBeta.action evaluates below each child of s, each child
      being searched with the whole window. */
  function RootLeaves(g: Square, s: State, p: Player, depth: int): (ns: seq<nat>)
    requires |s| == Size(g)
    ensures |ns| == |Actions(s)|
  {
    var acts := Actions(s);
    seq(|acts|, k requires 0 <= k < |acts| =>
      MinChild(g, s, p, depth, k, NegInf, PosInf).leaves)
  }

  // ---------------------------------------------------------------------------
  // Pruning keeps the value inside the window

  /** With a non-empty window, max_value fails soft for the value the search
      without pruning gives s (Heuristic.max_value). */
  lemma {:induction false} MaxABFailSoft(g: Square, s: State, p: Player, depth: int, alpha: Bound, beta: Bound)
    requires |s| == Size(g) && Lt(alpha, beta)
    ensures FailSoft(alpha, beta, HeuristicSearch.MaxValue(g, s, p, depth), MaxAB(g, s, p, depth, alpha, beta).value)
    decreases |Actions(s)|
  {
    if !(depth == 0 || TerminalTest(g, s)) {
      var exact := HeuristicSearch.ChildMinValues(g, s, p, depth);
      forall k: nat, a: Bound, b: Bound | k < |exact| && Lt(a, b)
        ensures FailSoft(a, b, exact[k], MinChildSearch(g, s, p, depth, k, a, b).value)
      {
        PlayAction(s, k);
        MinABFailSoft(g, Result(s, Actions(s)[k]), p, depth - 1, a, b);
      }
      MaxLoopFailSoft(g, s, p, depth, exact, alpha, alpha, beta, 0, NegInf, 0, MaxAB(g, s, p, depth, alpha, beta).value);
    }
  }

  /** With a non-empty window, min_value fails soft for Heuristic.min_value. */
  lemma {:induction false} MinABFailSoft(g: Square, s: State, p: Player, depth: int, alpha: Bound, beta: Bound)
    requires |s| == Size(g) && Lt(alpha, beta)
    ensures FailSoft(alpha, beta, HeuristicSearch.MinValue(g, s, p, depth), MinAB(g, s, p, depth, alpha, beta).value)
    decreases |Actions(s)|
  {
    if !(depth == 0 || TerminalTest(g, s)) {
      var exact := HeuristicSearch.ChildMaxValues(g, s, p, depth);
      forall k: nat, a: Bound, b: Bound | k < |exact| && Lt(a, b)
        ensures FailSoft(a, b, exact[k], MaxChildSearch(g, s, p, depth, k, a, b).value)
      {
        PlayAction(s, k);
        MaxABFailSoft(g, Result(s, Actions(s)[k]), p, depth - 1, a, b);
      }
      MinLoopFailSoft(g, s, p, depth, exact, alpha, beta, beta, 0, PosInf, 0, MinAB(g, s, p, depth, alpha, beta).value);
    }
  }

  /** The children's values `exact`, one per legal move, for which the min_value
      search of each child fails soft with every non-empty window. */
  ghost predicate MinChildrenFailSoft(g: Square, s: State, p: Player, depth: int, exact: seq<int>)
    requires |s| == Size(g)
  {
    |exact| == |Actions(s)|
    && forall k: nat, a: Bound, b: Bound :: k < |exact| && Lt(a, b) ==>
         FailSoft(a, b, exact[k], MinChildSearch(g, s, p, depth, k, a, b).value)
  }

  /** Proof aid, not part of the model: MinChild as a ghost function outside
      the recursion. Its own definition unfolds MinChild once, so that facts
      stated with it stay about the child's result and do not reach into the
      child's search. */
  ghost function MinChildSearch(g: Square, s: State, p: Player, depth: int, i: nat, alpha: Bound, beta: Bound): Search
    requires |s| == Size(g) && i < |Actions(s)|
  {
    MinChild(g, s, p, depth, i, alpha, beta)
  }

  /** The same for the max_value search of each child. */
  ghost predicate MaxChildrenFailSoft(g: Square, s: State, p: Player, depth: int, exact: seq<int>)
    requires |s| == Size(g)
  {
    |exact| == |Actions(s)|
    && forall k: nat, a: Bound, b: Bound :: k < |exact| && Lt(a, b) ==>
         FailSoft(a, b, exact[k], MaxChildSearch(g, s, p, depth, k, a, b).value)
  }

  /** Proof aid, not part of the model: MaxChild outside the recursion, as
      MinChildSearch. */
  ghost function MaxChildSearch(g: Square, s: State, p: Player, depth: int, i: nat, alpha: Bound, beta: Bound): Search
    requires |s| == Size(g) && i < |Actions(s)|
  {
    MaxChild(g, s, p, depth, i, alpha, beta)
  }

  /** What holds of max_value's loop before child i, for children whose exact
      values are `exact`: the running value v fails soft against the original window
      (alpha0, beta) for the largest of the first i of them, and alpha has been
      raised to max(alpha0, v). */
  ghost predicate MaxLoopWindow(exact: seq<int>, alpha0: Bound, alpha: Bound, beta: Bound, i: nat, v: Bound)
  {
    0 < |exact| && i <= |exact|
    && Lt(alpha0, beta) && alpha == MaxB(alpha0, v)
    && (i == 0 ==> v == NegInf)
    && (i > 0 ==> v.Fin? && Lt(v, beta) && FailSoft(alpha0, beta, MaxOfFirst(exact, i), v.n))
  }

  /** What holds of min_value's loop before child i, the mirror image of
      MaxLoopWindow. */
  ghost predicate MinLoopWindow(exact: seq<int>, alpha: Bound, beta0: Bound, beta: Bound, i: nat, v: Bound)
  {
    0 < |exact| && i <= |exact|
    && Lt(alpha, beta0) && beta == MinB(beta0, v)
    && (i == 0 ==> v == PosInf)
    && (i > 0 ==> v.Fin? && Lt(alpha, v) && FailSoft(alpha, beta0, MinOfFirst(exact, i), v.n))
  }

  /** max_value's loop, started where MaxLoopWindow holds, ends with a value r that
      fails soft against the original window for the largest of the children's
      values. */
  lemma {:induction false} MaxLoopFailSoft(g: Square, s: State, p: Player, depth: int, exact: seq<int>,
                                           alpha0: Bound, alpha: Bound, beta: Bound, i: nat, v: Bound, leaves: nat,
                                           r: int)
    requires |s| == Size(g) && MinChildrenFailSoft(g, s, p, depth, exact)
    requires MaxLoopWindow(exact, alpha0, alpha, beta, i, v)
    requires r == MaxLoop(g, s, p, depth, alpha, beta, i, v, leaves).value
    ensures FailSoft(alpha0, beta, Max(exact), r)
    decreases |exact| - i, 2
  {
    if i == |exact| {
      MaxLoopEnd(exact, alpha0, alpha, beta, i, v);
      MaxLoopDone(g, s, p, depth, alpha, beta, v, leaves);
    } else {
      MaxLoopTurn(g, s, p, depth, exact, alpha0, alpha, beta, i, v, leaves, r);
    }
  }

  /** One turn of max_value's loop, at child i: either the child's value reaches
      beta and the loop returns, or the loop goes on. */
  lemma {:induction false} MaxLoopTurn(g: Square, s: State, p: Player, depth: int, exact: seq<int>,
                                       alpha0: Bound, alpha: Bound, beta: Bound, i: nat, v: Bound, leaves: nat,
                                       r: int)
    requires |s| == Size(g) && MinChildrenFailSoft(g, s, p, depth, exact)
    requires MaxLoopWindow(exact, alpha0, alpha, beta, i, v) && i < |exact|
    requires r == MaxLoop(g, s, p, depth, alpha, beta, i, v, leaves).value
    ensures FailSoft(alpha0, beta, Max(exact), r)
    decreases |exact| - i, 1
  {
    var c := MinChildSearch(g, s, p, depth, i, alpha, beta);
    MaxLoopStep(g, s, p, depth, alpha, beta, i, v, leaves, c);
    var w := MaxB(v, Fin(c.value));
    if Le(beta, w) {
      MaxTurnBounds(exact, alpha0, alpha, beta, i, v, c.value);
    } else {
      MaxLoopNext(g, s, p, depth, exact, alpha0, alpha, beta, i, v, c.value, w, leaves + c.leaves, r);
    }
  }

  /** max_value's loop after child i, whose result cv left the window open: the
      loop goes on with child i + 1 and ends with a value r that fails soft. */
  lemma {:induction false} MaxLoopNext(g: Square, s: State, p: Player, depth: int, exact: seq<int>,
                                     alpha0: Bound, alpha: Bound, beta: Bound, i: nat, v: Bound,
                                     cv: int, w: Bound, leaves: nat, r: int)
    requires |s| == Size(g) && MinChildrenFailSoft(g, s, p, depth, exact)
    requires MaxLoopWindow(exact, alpha0, alpha, beta, i, v) && i < |exact|
    requires Lt(alpha, beta) ==> FailSoft(alpha, beta, exact[i], cv)
    requires w == MaxB(v, Fin(cv)) && !Le(beta, w)
    requires r == MaxLoop(g, s, p, depth, MaxB(alpha, w), beta, i + 1, w, leaves).value
    ensures FailSoft(alpha0, beta, Max(exact), r)
    decreases |exact| - i, 0
  {
    MaxTurnBounds(exact, alpha0, alpha, beta, i, v, cv);
    MaxLoopFailSoft(g, s, p, depth, exact, alpha0, MaxB(alpha, w), beta, i + 1, w, leaves, r);
  }

  /** max_value's loop having run through every child. */
  lemma MaxLoopEnd(exact: seq<int>, alpha0: Bound, alpha: Bound, beta: Bound, i: nat, v: Bound)
    requires MaxLoopWindow(exact, alpha0, alpha, beta, i, v) && i == |exact|
    ensures v.Fin? && FailSoft(alpha0, beta, Max(exact), v.n)
  {
    MaxOfFirstIsMax(exact, i);
    assert exact[..i] == exact;
  }

  /** The bounds reasoning of one turn of max_value's loop: the running value either
      reaches beta and fails soft for the whole node, or MaxLoopWindow holds for the
      next child. */
  lemma MaxTurnBounds(exact: seq<int>, alpha0: Bound, alpha: Bound, beta: Bound, i: nat, v: Bound, r: int)
    requires MaxLoopWindow(exact, alpha0, alpha, beta, i, v) && i < |exact|
    requires Lt(alpha, beta) ==> FailSoft(alpha, beta, exact[i], r)
    ensures
      var w := MaxB(v, Fin(r));
      w.Fin?
      && (Le(beta, w) ==> FailSoft(alpha0, beta, Max(exact), w.n))
      && (!Le(beta, w) ==> MaxLoopWindow(exact, alpha0, MaxB(alpha, w), beta, i + 1, w))
  {
    MaxStepInvariant(alpha0, beta, exact, i, v, r);
    var w := MaxB(v, Fin(r));
    if Le(beta, w) {
      MaxCutoff(alpha0, beta, exact, i + 1, w.n);
    } else {
      LeTotalOrder(alpha0, v, w);
    }
  }

  /** min_value's loop, the mirror image of MaxLoopFailSoft. */
  lemma {:induction false} MinLoopFailSoft(g: Square, s: State, p: Player, depth: int, exact: seq<int>,
                                           alpha: Bound, beta0: Bound, beta: Bound, i: nat, v: Bound, leaves: nat,
                                           r: int)
    requires |s| == Size(g) && MaxChildrenFailSoft(g, s, p, depth, exact)
    requires MinLoopWindow(exact, alpha, beta0, beta, i, v)
    requires r == MinLoop(g, s, p, depth, alpha, beta, i, v, leaves).value
    ensures FailSoft(alpha, beta0, Min(exact), r)
    decreases |exact| - i, 2
  {
    if i == |exact| {
      MinLoopEnd(exact, alpha, beta0, beta, i, v);
      MinLoopDone(g, s, p, depth, alpha, beta, v, leaves);
    } else {
      MinLoopTurn(g, s, p, depth, exact, alpha, beta0, beta, i, v, leaves, r);
    }
  }

  /** One turn of min_value's loop, the mirror image of MaxLoopTurn. */
  lemma {:induction false} MinLoopTurn(g: Square, s: State, p: Player, depth: int, exact: seq<int>,
                                       alpha: Bound, beta0: Bound, beta: Bound, i: nat, v: Bound, leaves: nat,
                                       r: int)
    requires |s| == Size(g) && MaxChildrenFailSoft(g, s, p, depth, exact)
    requires MinLoopWindow(exact, alpha, beta0, beta, i, v) && i < |exact|
    requires r == MinLoop(g, s, p, depth, alpha, beta, i, v, leaves).value
    ensures FailSoft(alpha, beta0, Min(exact), r)
    decreases |exact| - i, 1
  {
    var c := MaxChildSearch(g, s, p, depth, i, alpha, beta);
    MinLoopStep(g, s, p, depth, alpha, beta, i, v, leaves, c);
    var w := MinB(v, Fin(c.value));
    if Le(w, alpha) {
      MinTurnBounds(exact, alpha, beta0, beta, i, v, c.value);
    } else {
      MinLoopNext(g, s, p, depth, exact, alpha, beta0, beta, i, v, c.value, w, leaves + c.leaves, r);
    }
  }

  /** min_value's loop after child i, the mirror image of MaxLoopNext. */
  lemma {:induction false} MinLoopNext(g: Square, s: State, p: Player, depth: int, exact: seq<int>,
                                     alpha: Bound, beta0: Bound, beta: Bound, i: nat, v: Bound,
                                     cv: int, w: Bound, leaves: nat, r: int)
    requires |s| == Size(g) && MaxChildrenFailSoft(g, s, p, depth, exact)
    requires MinLoopWindow(exact, alpha, beta0, beta, i, v) && i < |exact|
    requires Lt(alpha, beta) ==> FailSoft(alpha, beta, exact[i], cv)
    requires w == MinB(v, Fin(cv)) && !Le(w, alpha)
    requires r == MinLoop(g, s, p, depth, alpha, MinB(beta, w), i + 1, w, leaves).value
    ensures FailSoft(alpha, beta0, Min(exact), r)
    decreases |exact| - i, 0
  {
    MinTurnBounds(exact, alpha, beta0, beta, i, v, cv);
    MinLoopFailSoft(g, s, p, depth, exact, alpha, beta0, MinB(beta, w), i + 1, w, leaves, r);
  }

  /** min_value's loop having run through every child. */
  lemma MinLoopEnd(exact: seq<int>, alpha: Bound, beta0: Bound, beta: Bound, i: nat, v: Bound)
    requires MinLoopWindow(exact, alpha, beta0, beta, i, v) && i == |exact|
    ensures v.Fin? && FailSoft(alpha, beta0, Min(exact), v.n)
  {
    MinOfFirstIsMin(exact, i);
    assert exact[..i] == exact;
  }

  /** The bounds reasoning of one turn of min_value's loop, the mirror image of
      MaxTurnBounds. */
  lemma MinTurnBounds(exact: seq<int>, alpha: Bound, beta0: Bound, beta: Bound, i: nat, v: Bound, r: int)
    requires MinLoopWindow(exact, alpha, beta0, beta, i, v) && i < |exact|
    requires Lt(alpha, beta) ==> FailSoft(alpha, beta, exact[i], r)
    ensures
      var w := MinB(v, Fin(r));
      w.Fin?
      && (Le(w, alpha) ==> FailSoft(alpha, beta0, Min(exact), w.n))
      && (!Le(w, alpha) ==> MinLoopWindow(exact, alpha, beta0, MinB(beta, w), i + 1, w))
  {
    MinStepInvariant(alpha, beta0, exact, i, v, r);
    var w := MinB(v, Fin(r));
    if Le(w, alpha) {
      MinCutoff(alpha, beta0, exact, i + 1, w.n);
    } else {
      LeTotalOrder(beta0, v, w);
    }
  }

  /** The step of max_value's loop at child i: if the child's result r fails soft,
      against the narrowed window, for the child's exact value, then the new running
      value fails soft against the original window for the largest exact value seen. */
  lemma MaxStepInvariant(alpha: Bound, beta: Bound, exact: seq<int>, i: nat, best: Bound, r: int)
    requires i < |exact|
    requires i == 0 ==> best == NegInf
    requires i > 0 ==> best.Fin? && Lt(best, beta)
    requires i > 0 && Lt(alpha, beta) ==> FailSoft(alpha, beta, MaxOfFirst(exact, i), best.n)
    requires Lt(MaxB(alpha, best), beta) ==> FailSoft(MaxB(alpha, best), beta, exact[i], r)
    ensures Lt(alpha, beta) ==> FailSoft(alpha, beta, MaxOfFirst(exact, i + 1), MaxB(best, Fin(r)).n)
  {
    if Lt(alpha, beta) && i > 0 {
      MaxStep(alpha, beta, MaxOfFirst(exact, i), best.n, exact[i], r);
    }
  }

  /** The step of min_value's loop, the mirror image of MaxStepInvariant. */
  lemma MinStepInvariant(alpha: Bound, beta: Bound, exact: seq<int>, i: nat, best: Bound, r: int)
    requires i < |exact|
    requires i == 0 ==> best == PosInf
    requires i > 0 ==> best.Fin? && Lt(alpha, best)
    requires i > 0 && Lt(alpha, beta) ==> FailSoft(alpha, beta, MinOfFirst(exact, i), best.n)
    requires Lt(alpha, MinB(beta, best)) ==> FailSoft(alpha, MinB(beta, best), exact[i], r)
    ensures Lt(alpha, beta) ==> FailSoft(alpha, beta, MinOfFirst(exact, i + 1), MinB(best, Fin(r)).n)
  {
    if Lt(alpha, beta) && i > 0 {
      MinStep(alpha, beta, MinOfFirst(exact, i), best.n, exact[i], r);
    }
  }

  /** max_value leaving its loop early after child i - 1 with the value v, which
      has reached beta: v then fails soft for the value of the whole node. */
  lemma MaxCutoff(alpha: Bound, beta: Bound, exact: seq<int>, i: nat, v: int)
    requires 0 < i <= |exact|
    requires Lt(alpha, beta) ==> FailSoft(alpha, beta, MaxOfFirst(exact, i), v)
    requires Le(beta, Fin(v))
    ensures Lt(alpha, beta) ==> FailSoft(alpha, beta, Max(exact), v)
  {
    if Lt(alpha, beta) {
      MaxOfFirstIsMax(exact, i);
      PrefixMaxAtMost(exact, i);
      CutoffAbove(alpha, beta, MaxOfFirst(exact, i), v, Max(exact));
    }
  }

  /** min_value leaving its loop early after child i - 1 with the value v, which
      has fallen to alpha: v then fails soft for the value of the whole node. */
  lemma MinCutoff(alpha: Bound, beta: Bound, exact: seq<int>, i: nat, v: int)
    requires 0 < i <= |exact|
    requires Lt(alpha, beta) ==> FailSoft(alpha, beta, MinOfFirst(exact, i), v)
    requires Le(Fin(v), alpha)
    ensures Lt(alpha, beta) ==> FailSoft(alpha, beta, Min(exact), v)
  {
    if Lt(alpha, beta) {
      MinOfFirstIsMin(exact, i);
      PrefixMinAtLeast(exact, i);
      CutoffBelow(alpha, beta, MinOfFirst(exact, i), v, Min(exact));
    }
  }

  /** Searched with the whole window, the pruned search gives exactly the value of
      the search without pruning. */
  lemma FullWindowExact(g: Square, s: State, p: Player, depth: int)
    requires |s| == Size(g)
    ensures MaxAB(g, s, p, depth, NegInf, PosInf).value == HeuristicSearch.MaxValue(g, s, p, depth)
    ensures MinAB(g, s, p, depth, NegInf, PosInf).value == HeuristicSearch.MinValue(g, s, p, depth)
  {
    MaxABFailSoft(g, s, p, depth, NegInf, PosInf);
    FullWindow(HeuristicSearch.MaxValue(g, s, p, depth), MaxAB(g, s, p, depth, NegInf, PosInf).value);
    MinABFailSoft(g, s, p, depth, NegInf, PosInf);
    FullWindow(HeuristicSearch.MinValue(g, s, p, depth), MinAB(g, s, p, depth, NegInf, PosInf).value);
  }

  // ---------------------------------------------------------------------------
  // Pruning evaluates no more positions

  /** max_value evaluates at least one position and no more than the search without
      pruning does. */
  lemma {:induction false} MaxABLeaves(g: Square, s: State, p: Player, depth: int, alpha: Bound, beta: Bound)
    requires |s| == Size(g)
    ensures 1 <= MaxAB(g, s, p, depth, alpha, beta).leaves <= HeuristicSearch.Leaves(g, s, depth)
    decreases |Actions(s)|, 1, 0, 0
  {
    if !(depth == 0 || TerminalTest(g, s)) {
      MaxLoopLeaves(g, s, p, depth, alpha, beta, 0, NegInf, 0);
    }
  }

  /** min_value evaluates at least one position and no more than the search without
      pruning does. */
  lemma {:induction false} MinABLeaves(g: Square, s: State, p: Player, depth: int, alpha: Bound, beta: Bound)
    requires |s| == Size(g)
    ensures 1 <= MinAB(g, s, p, depth, alpha, beta).leaves <= HeuristicSearch.Leaves(g, s, depth)
    decreases |Actions(s)|, 1, 0, 0
  {
    if !(depth == 0 || TerminalTest(g, s)) {
      MinLoopLeaves(g, s, p, depth, alpha, beta, 0, PosInf, 0);
    }
  }

  /** The search of child i from min_value's side evaluates at least one position
      and no more than the search without pruning does below that child. */
  lemma MinChildLeaves(g: Square, s: State, p: Player, depth: int, i: nat, alpha: Bound, beta: Bound)
    requires |s| == Size(g) && i < |Actions(s)|
    ensures 1 <= MinChildSearch(g, s, p, depth, i, alpha, beta).leaves <= HeuristicSearch.ListedLeaves(g, s, depth)[i]
    decreases |Actions(s)|, 0, 0, 0
  {
    PlayAction(s, i);
    MinABLeaves(g, Result(s, Actions(s)[i]), p, depth - 1, alpha, beta);
  }

  /** The search of child i from max_value's side, as MinChildLeaves. */
  lemma MaxChildLeaves(g: Square, s: State, p: Player, depth: int, i: nat, alpha: Bound, beta: Bound)
    requires |s| == Size(g) && i < |Actions(s)|
    ensures 1 <= MaxChildSearch(g, s, p, depth, i, alpha, beta).leaves <= HeuristicSearch.ListedLeaves(g, s, depth)[i]
    decreases |Actions(s)|, 0, 0, 0
  {
    PlayAction(s, i);
    MaxABLeaves(g, Result(s, Actions(s)[i]), p, depth - 1, alpha, beta);
  }

  /** What holds of the positions counted before child i: no more than the search
      without pruning evaluates below the first i children, and at least one once
      a child has been searched. */
  ghost predicate LeavesSoFar(g: Square, s: State, depth: int, i: nat, leaves: nat)
    requires |s| == Size(g)
  {
    0 < |Actions(s)| && i <= |Actions(s)|
    && (i > 0 ==> leaves > 0)
    && leaves <= Sum(HeuristicSearch.ListedLeaves(g, s, depth)[..i])
  }

  /** Counting the positions of child i, at least one and no more than the search
      without pruning evaluates below it, keeps LeavesSoFar and stays within the
      count of all the children. */
  lemma LeavesSoFarNext(g: Square, s: State, depth: int, i: nat, leaves: nat, n: nat)
    requires |s| == Size(g) && LeavesSoFar(g, s, depth, i, leaves) && i < |Actions(s)|
    requires 1 <= n <= HeuristicSearch.ListedLeaves(g, s, depth)[i]
    ensures LeavesSoFar(g, s, depth, i + 1, leaves + n)
    ensures leaves + n <= Sum(HeuristicSearch.ListedLeaves(g, s, depth))
  {
    var counts := HeuristicSearch.ListedLeaves(g, s, depth);
    SumOfLongerPrefix(counts, i);
    SumOfPrefix(counts, i + 1);
  }

  /** The loop of max_value from child i on evaluates no more positions than the
      search without pruning does below all the children. */
  lemma {:induction false} MaxLoopLeaves(g: Square, s: State, p: Player, depth: int, alpha: Bound, beta: Bound,
                                         i: nat, v: Bound, leaves: nat)
    requires |s| == Size(g) && LeavesSoFar(g, s, depth, i, leaves)
    requires v.Fin? || (v.NegInf? && i < |Actions(s)|)
    ensures 1 <= MaxLoop(g, s, p, depth, alpha, beta, i, v, leaves).leaves <= Sum(HeuristicSearch.ListedLeaves(g, s, depth))
    decreases |Actions(s)|, 0, |Actions(s)| - i, 1
  {
    if i == |Actions(s)| {
      assert HeuristicSearch.ListedLeaves(g, s, depth)[..i] == HeuristicSearch.ListedLeaves(g, s, depth);
    } else {
      var c := MinChildSearch(g, s, p, depth, i, alpha, beta);
      MinChildLeaves(g, s, p, depth, i, alpha, beta);
      LeavesSoFarNext(g, s, depth, i, leaves, c.leaves);
      MaxLoopStep(g, s, p, depth, alpha, beta, i, v, leaves, c);
      var w := MaxB(v, Fin(c.value));
      if !Le(beta, w) {
        MaxLoopLeaves(g, s, p, depth, MaxB(alpha, w), beta, i + 1, w, leaves + c.leaves);
      }
    }
  }

  /** The loop of min_value, the mirror image of MaxLoopLeaves. */
  lemma {:induction false} MinLoopLeaves(g: Square, s: State, p: Player, depth: int, alpha: Bound, beta: Bound,
                                         i: nat, v: Bound, leaves: nat)
    requires |s| == Size(g) && LeavesSoFar(g, s, depth, i, leaves)
    requires v.Fin? || (v.PosInf? && i < |Actions(s)|)
    ensures 1 <= MinLoop(g, s, p, depth, alpha, beta, i, v, leaves).leaves <= Sum(HeuristicSearch.ListedLeaves(g, s, depth))
    decreases |Actions(s)|, 0, |Actions(s)| - i, 1
  {
    if i == |Actions(s)| {
      assert HeuristicSearch.ListedLeaves(g, s, depth)[..i] == HeuristicSearch.ListedLeaves(g, s, depth);
    } else {
      var c := MaxChildSearch(g, s, p, depth, i, alpha, beta);
      MaxChildLeaves(g, s, p, depth, i, alpha, beta);
      LeavesSoFarNext(g, s, depth, i, leaves, c.leaves);
      MinLoopStep(g, s, p, depth, alpha, beta, i, v, leaves, c);
      var w := MinB(v, Fin(c.value));
      if !Le(w, alpha) {
        MinLoopLeaves(g, s, p, depth, alpha, MinB(beta, w), i + 1, w, leaves + c.leaves);
      }
    }
  }

  /** The k-th child as AlphaBeta.action searches it, with the whole window: its
      value is the one Heuristic.action computes for that child, and its
      evaluated positions are the k-th entry of RootLeaves. */
  lemma RootChild(g: Square, s: State, p: Player, depth: int, k: nat)
    requires |s| == Size(g) && k < |Actions(s)|
    ensures |Result(s, Actions(s)[k])| == Size(g)
    ensures HeuristicSearch.ChildMinValues(g, s, p, depth)[k]
         == MinAB(g, Result(s, Actions(s)[k]), p, depth - 1, NegInf, PosInf).value
    ensures RootLeaves(g, s, p, depth)[k]
         == MinAB(g, Result(s, Actions(s)[k]), p, depth - 1, NegInf, PosInf).leaves
  {
    PlayAction(s, k);
    FullWindowExact(g, Result(s, Actions(s)[k]), p, depth - 1);
  }

  /** AlphaBeta.action evaluates no more positions than Heuristic.action does. */
  lemma RootLeavesAtMost(g: Square, s: State, p: Player, depth: int)
    requires |s| == Size(g)
    ensures Sum(RootLeaves(g, s, p, depth)) <= Sum(HeuristicSearch.ChildLeaves(g, s, depth))
    ensures |Actions(s)| > 0 ==> Sum(RootLeaves(g, s, p, depth)) > 0
  {
    var acts, pruned, full := Actions(s), RootLeaves(g, s, p, depth), HeuristicSearch.ChildLeaves(g, s, depth);
    forall k | 0 <= k < |acts|
      ensures 1 <= pruned[k] <= full[k]
    {
      PlayAction(s, k);
      MinABLeaves(g, Result(s, acts[k]), p, depth - 1, NegInf, PosInf);
    }
    SumMonotone(pruned, full);
    if |acts| > 0 {
      SumAtLeastElement(pruned, 0);
    }
  }
}
