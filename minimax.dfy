/** The exact minimax value that both MinMax classes compute (the one in game.py and
    the one in strategy.py): search to the end of the game and score every final
    position by its utility for the player p the search is run for. */
module Minimax {
  import opened Builtins
  import opened Game

  /** min_value of each child of s, in the order of Actions(s). */
  function ChildMinValues(g: Square, s: State, p: Player): (vs: seq<int>)
    requires |s| == Size(g)
    ensures |vs| == |Actions(s)|
    decreases |Actions(s)|, 0
  {
    var acts := Actions(s);
    seq(|acts|, k requires 0 <= k < |acts| =>
      (PlayAction(s, k); MinValue(g, Result(s, acts[k]), p)))
  }

  /** max_value of each child of s, in the order of Actions(s). */
  function ChildMaxValues(g: Square, s: State, p: Player): (vs: seq<int>)
    requires |s| == Size(g)
    ensures |vs| == |Actions(s)|
    decreases |Actions(s)|, 0
  {
    var acts := Actions(s);
    seq(|acts|, k requires 0 <= k < |acts| =>
      (PlayAction(s, k); MaxValue(g, Result(s, acts[k]), p)))
  }

  /** The value of s for p when p is to move: the utility of a final position, else
      the largest min_value among the children. */
  function MaxValue(g: Square, s: State, p: Player): int
    requires |s| == Size(g)
    decreases |Actions(s)|, 1
  {
    if TerminalTest(g, s) then Utility(g, s, p) else Max(ChildMinValues(g, s, p))
  }

  /** The value of s for p when p's opponent is to move: the utility of a final
      position, else the smallest max_value among the children. */
  function MinValue(g: Square, s: State, p: Player): int
    requires |s| == Size(g)
    decreases |Actions(s)|, 1
  {
    if TerminalTest(g, s) then Utility(g, s, p) else Min(ChildMaxValues(g, s, p))
  }

  /** The move MinMax.action chooses: a legal move whose child has the largest
      min_value, the first such move in the order of Actions(s) when several tie. */
  function BestAction(g: Square, s: State, p: Player): (a: nat)
    requires |s| == Size(g) && |Actions(s)| > 0
    ensures a in Actions(s)
    ensures forall k :: 0 <= k < |Actions(s)| ==>
      MinValue(g, Result(s, Actions(s)[k]), p) <= MinValue(g, Result(s, a), p)
    ensures forall k :: 0 <= k < |Actions(s)| && Actions(s)[k] < a ==>
      MinValue(g, Result(s, Actions(s)[k]), p) < MinValue(g, Result(s, a), p)
  {
    var vs := ChildMinValues(g, s, p);
    var i := ArgMax(vs);
    FirstLargest(g, s, p, i);
    Actions(s)[i]
  }

  lemma FirstLargest(g: Square, s: State, p: Player, i: nat)
    requires |s| == Size(g) && |Actions(s)| > 0
    requires i < |Actions(s)|
    requires forall k :: 0 <= k < |Actions(s)| ==> ChildMinValues(g, s, p)[k] <= ChildMinValues(g, s, p)[i]
    requires forall k :: 0 <= k < i ==> ChildMinValues(g, s, p)[k] < ChildMinValues(g, s, p)[i]
    ensures forall k :: 0 <= k < |Actions(s)| ==>
      MinValue(g, Result(s, Actions(s)[k]), p) <= MinValue(g, Result(s, Actions(s)[i]), p)
    ensures forall k :: 0 <= k < |Actions(s)| && Actions(s)[k] < Actions(s)[i] ==>
      MinValue(g, Result(s, Actions(s)[k]), p) < MinValue(g, Result(s, Actions(s)[i]), p)
  {
    var acts, vs := Actions(s), ChildMinValues(g, s, p);
    var best := MinValue(g, Result(s, acts[i]), p);
    assert vs[i] == best;
    forall k | 0 <= k < |acts|
      ensures MinValue(g, Result(s, acts[k]), p) <= best
      ensures acts[k] < acts[i] ==> MinValue(g, Result(s, acts[k]), p) < best
    {
      assert vs[k] == MinValue(g, Result(s, acts[k]), p);
      if acts[k] < acts[i] {
        ActionsInOrder(s, k, i);
      }
    }
  }



  /** At a position that is not over, the chosen move reaches the position's value. */
  lemma BestActionAchievesValue(g: Square, s: State, p: Player)
    requires |s| == Size(g) && !TerminalTest(g, s)
    ensures MinValue(g, Result(s, BestAction(g, s, p)), p) == MaxValue(g, s, p)
  {
    var acts, vs := Actions(s), ChildMinValues(g, s, p);
    var a := BestAction(g, s, p);
    var k :| 0 <= k < |acts| && acts[k] == a;
    var m := Max(vs);
    var j :| 0 <= j < |vs| && vs[j] == m;
    assert acts[j] in acts;
  }

  /** The number of positions MinMax evaluates searching from s (num_leafs). */
  function Leaves(g: Square, s: State): (n: nat)
    requires |s| == Size(g)
    ensures n >= 1
    decreases |Actions(s)|, 1
  {
    if TerminalTest(g, s) then 1
    else
      var ns := ChildLeaves(g, s);
      SumAtLeastElement(ns, 0);
      Sum(ns)
  }

  /** Leaves of each child of s, in the order of Actions(s). */
  function ChildLeaves(g: Square, s: State): (ns: seq<nat>)
    requires |s| == Size(g)
    ensures |ns| == |Actions(s)|
    ensures forall k :: 0 <= k < |ns| ==> ns[k] >= 1
    decreases |Actions(s)|, 0
  {
    var acts := Actions(s);
    seq(|acts|, k requires 0 <= k < |acts| =>
      (PlayAction(s, k); Leaves(g, Result(s, acts[k]))))
  }

  /** Proof aid, not part of the model: ChildMinValues, ChildMaxValues and
      ChildLeaves under a second, non-recursive name. The loops that build these
      lists are proved against them, so that their proofs do not unfold the search
      of every child. */
  ghost function ListedMinValues(g: Square, s: State, p: Player): (vs: seq<int>)
    requires |s| == Size(g)
    ensures |vs| == |Actions(s)|
  {
    ChildMinValues(g, s, p)
  }

  ghost function ListedMaxValues(g: Square, s: State, p: Player): (vs: seq<int>)
    requires |s| == Size(g)
    ensures |vs| == |Actions(s)|
  {
    ChildMaxValues(g, s, p)
  }

  ghost function ListedLeaves(g: Square, s: State): (ns: seq<nat>)
    requires |s| == Size(g)
    ensures |ns| == |Actions(s)|
  {
    ChildLeaves(g, s)
  }

  /** Every minimax value is the utility of some final position: LOSE, DRAW or WIN. */
  lemma {:induction false} ValueIsOutcome(g: Square, s: State, p: Player)
    requires |s| == Size(g)
    ensures LOSE <= MaxValue(g, s, p) <= WIN && LOSE <= MinValue(g, s, p) <= WIN
    decreases |Actions(s)|
  {
    if !TerminalTest(g, s) {
      var acts, mins, maxs := Actions(s), ChildMinValues(g, s, p), ChildMaxValues(g, s, p);
      forall k | 0 <= k < |acts|
        ensures LOSE <= mins[k] <= WIN && LOSE <= maxs[k] <= WIN
      {
        PlayAction(s, k);
        ValueIsOutcome(g, Result(s, acts[k]), p);
      }
      var i :| 0 <= i < |mins| && mins[i] == Max(mins);
      var j :| 0 <= j < |maxs| && maxs[j] == Min(maxs);
    }
  }

  /** Minimax is zero-sum: what p can force is the negation of what the opponent
      can force with the roles of mover and waiter exchanged. */
  lemma {:induction false} ZeroSum(g: Square, s: State, p: Player)
    requires |s| == Size(g)
    ensures MaxValue(g, s, p) == -MinValue(g, s, Opponent(p))
    ensures MinValue(g, s, p) == -MaxValue(g, s, Opponent(p))
    decreases |Actions(s)|
  {
    UtilityAntisymmetric(g, s, p);
    if !TerminalTest(g, s) {
      var acts, q := Actions(s), Opponent(p);
      var minP, maxQ := ChildMinValues(g, s, p), ChildMaxValues(g, s, q);
      var maxP, minQ := ChildMaxValues(g, s, p), ChildMinValues(g, s, q);
      forall k | 0 <= k < |acts|
        ensures minP[k] == -maxQ[k] && maxP[k] == -minQ[k]
      {
        PlayAction(s, k);
        ZeroSum(g, Result(s, acts[k]), p);
      }
      MaxOfNegated(minP, maxQ);
      MaxOfNegated(minQ, maxP);
    }
  }
}
