/** Class MinMax of game.py: the game itself, extended with exhaustive minimax search
    and a counter num_utility of the calls to utility. Its terminal_test calls that
    same counting utility whenever the position still has a legal move, so the
    counter also counts the end-of-game tests the search makes. */
module GameMinMax {
  import opened Builtins
  import opened Game
  import Exhaustive = Minimax

  /** The calls to utility that max_value or min_value make on s and below: one from
      terminal_test unless s has no legal move (the `or` stops before calling it),
      one more to score s when it is final, else those of every child. */
  function UtilityCalls(g: Square, s: State): (n: nat)
    requires |s| == Size(g)
    ensures n >= 1
    decreases |Actions(s)|, 1
  {
    (if |Actions(s)| == 0 then 0 else 1)
    + (if TerminalTest(g, s) then 1
       else
         var ns := ChildUtilityCalls(g, s);
         SumAtLeastElement(ns, 0);
         Sum(ns))
  }

  /** UtilityCalls of each child of s, in the order of Actions(s). */
  function ChildUtilityCalls(g: Square, s: State): (ns: seq<nat>)
    requires |s| == Size(g)
    ensures |ns| == |Actions(s)|
    ensures forall k :: 0 <= k < |ns| ==> ns[k] >= 1
    decreases |Actions(s)|, 0
  {
    var acts := Actions(s);
    seq(|acts|, k requires 0 <= k < |acts| =>
      (PlayAction(s, k); UtilityCalls(g, Result(s, acts[k]))))
  }

  /** num_utility grows by at least the number of final positions a search scores,
      and by more than that whenever the search starts from a position that has a
      legal move. */
  lemma {:induction false} UtilityCallsCoverLeaves(g: Square, s: State)
    requires |s| == Size(g)
    ensures Exhaustive.Leaves(g, s) <= UtilityCalls(g, s)
    ensures |Actions(s)| > 0 ==> Exhaustive.Leaves(g, s) < UtilityCalls(g, s)
    decreases |Actions(s)|
  {
    if !TerminalTest(g, s) {
      var acts, leaves, calls := Actions(s), Exhaustive.ChildLeaves(g, s), ChildUtilityCalls(g, s);
      forall k | 0 <= k < |acts|
        ensures leaves[k] <= calls[k]
      {
        PlayAction(s, k);
        UtilityCallsCoverLeaves(g, Result(s, acts[k]));
      }
      SumMonotone(leaves, calls);
    }
  }

  class MinMax {
    /** The board's height and width. */
    const game: Square
    /** num_utility: how many times utility has been called. */
    var numUtility: nat

    constructor (game: Square)
      ensures this.game == game && numUtility == 0
    {
      this.game := game;
      numUtility := 0;
    }

    /** utility, counted. */
    method Utility(s: State, p: Player) returns (u: int)
      requires |s| == Size(game)
      modifies this
      ensures u == Game.Utility(game, s, p)
      ensures numUtility == old(numUtility) + 1
    {
      numUtility := numUtility + 1;
      u := Game.Utility(game, s, p);
    }

    /** terminal_test, which reaches the counted utility only when s has a legal move. */
    method TerminalTest(s: State) returns (t: bool)
      requires |s| == Size(game)
      modifies this
      ensures t == Game.TerminalTest(game, s)
      ensures numUtility == old(numUtility) + if |Actions(s)| == 0 then 0 else 1
    {
      if |Actions(s)| == 0 {
        t := true;
      } else {
        var u := Utility(s, X);
        t := u != DRAW;
      }
    }

    /** minimax: the move with the largest min_value, the first one on a tie. */
    method Minimax(s: State, p: Player) returns (a: nat)
      requires |s| == Size(game) && |Actions(s)| > 0
      modifies this
      ensures a == Exhaustive.BestAction(game, s, p)
      ensures numUtility == old(numUtility) + Sum(ChildUtilityCalls(game, s))
    {
      var values := MinValues(s, p);
      a := Actions(s)[ArgMax(values)];
    }

    /** max_value. */
    method MaxValue(s: State, p: Player) returns (v: int)
      requires |s| == Size(game)
      modifies this
      ensures v == Exhaustive.MaxValue(game, s, p)
      ensures numUtility == old(numUtility) + UtilityCalls(game, s)
      decreases |Actions(s)|, 1
    {
      var over := TerminalTest(s);
      if over {
        v := Utility(s, p);
      } else {
        var values := MinValues(s, p);
        v := Max(values);
      }
    }

    /** min_value. */
    method MinValue(s: State, p: Player) returns (v: int)
      requires |s| == Size(game)
      modifies this
      ensures v == Exhaustive.MinValue(game, s, p)
      ensures numUtility == old(numUtility) + UtilityCalls(game, s)
      decreases |Actions(s)|, 1
    {
      var over := TerminalTest(s);
      if over {
        v := Utility(s, p);
      } else {
        var values := MaxValues(s, p);
        v := Min(values);
      }
    }

    /** The list [min_value(result(s, a), p) for a in actions(s)]. */
    method MinValues(s: State, p: Player) returns (values: seq<int>)
      requires |s| == Size(game)
      modifies this
      ensures values == Exhaustive.ChildMinValues(game, s, p)
      ensures numUtility == old(numUtility) + Sum(ChildUtilityCalls(game, s))
      decreases |Actions(s)|, 0
    {
      var acts := Actions(s);
      ghost var calls := ChildUtilityCalls(game, s);
      ghost var target := Exhaustive.ListedMinValues(game, s, p);
      values := [];
      for i := 0 to |acts|
        invariant values == target[..i]
        invariant numUtility == old(numUtility) + Sum(calls[..i])
      {
        PlayAction(s, i);
        var v := MinValue(Result(s, acts[i]), p);
        PrefixExtend(target, i);
        values := values + [v];
        SumOfLongerPrefix(calls, i);
      }
      assert calls[..|acts|] == calls;
    }

    /** The list [max_value(result(s, a), p) for a in actions(s)]. */
    method MaxValues(s: State, p: Player) returns (values: seq<int>)
      requires |s| == Size(game)
      modifies this
      ensures values == Exhaustive.ChildMaxValues(game, s, p)
      ensures numUtility == old(numUtility) + Sum(ChildUtilityCalls(game, s))
      decreases |Actions(s)|, 0
    {
      var acts := Actions(s);
      ghost var calls := ChildUtilityCalls(game, s);
      ghost var target := Exhaustive.ListedMaxValues(game, s, p);
      values := [];
      for i := 0 to |acts|
        invariant values == target[..i]
        invariant numUtility == old(numUtility) + Sum(calls[..i])
      {
        PlayAction(s, i);
        var v := MaxValue(Result(s, acts[i]), p);
        PrefixExtend(target, i);
        values := values + [v];
        SumOfLongerPrefix(calls, i);
      }
      assert calls[..|acts|] == calls;
    }
  }
}
