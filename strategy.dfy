/** The players of strategy.py. Each keeps the game it plays and a counter
    num_leafs of the positions it has evaluated (class Strategy): MinMax searches
    to the end of the game, Heuristic searches to a fixed depth and scores the
    positions there by counting open lines, and AlphaBeta makes the same search
    as Heuristic while skipping the branches that cannot change its result. */
module Strategies {
  import opened Builtins
  import opened Game
  import opened Bounds
  import Exhaustive = Minimax
  import HeuristicSearch
  import Pruning

  /** Heuristic.possible_winning_lines: fill the EMPTY cells with p's marks and
      count the rows, columns and diagonals that p then owns, testing the
      anti-diagonal's first cell for being marked at all. */
  method PossibleWinningLines(game: Square, s: State, p: Player) returns (cnt: nat)
    requires |s| == Size(game)
    ensures cnt == HeuristicSearch.WinningLines(game, s, p)
  {
    var b, w := HeuristicSearch.Fill(s, p), game.width;
    ghost var rows, cols := HeuristicSearch.RowTests(game, b, p), HeuristicSearch.ColumnTests(game, b, p);
    cnt := 0;
    for i := 0 to game.height
      invariant cnt == Tally(rows[..i])
    {
      if Cell(game, b, i, 0) == p && AllSame(RowSlice(game, b, i)) {
        cnt := cnt + 1;
      }
      TallyOfLongerPrefix(rows, i);
    }
    assert rows[..game.height] == rows;
    for i := 0 to w
      invariant cnt == Tally(rows) + Tally(cols[..i])
    {
      if Cell(game, b, 0, i) == p && AllSame(ColumnSlice(game, b, i)) {
        cnt := cnt + 1;
      }
      TallyOfLongerPrefix(cols, i);
    }
    assert cols[..w] == cols;
    if Cell(game, b, 0, 0) == p && AllSame(DiagonalSlice(game, b)) {
      cnt := cnt + 1;
    }
    if Cell(game, b, 0, w - 1) != EMPTY && AllSame(AntiDiagonalSlice(game, b)) {
      cnt := cnt + 1;
    }
    HeuristicSearch.WinningLinesByParts(game, s, p);
  }

  /** Heuristic.heuristic: a hundred times the utility of a final position, else
      p's possible winning lines less the opponent's. */
  method HeuristicValue(game: Square, s: State, p: Player) returns (h: int)
    requires |s| == Size(game)
    ensures h == HeuristicSearch.Heuristic(game, s, p)
  {
    if TerminalTest(game, s) {
      h := Utility(game, s, p) * 100;
    } else {
      var mine := PossibleWinningLines(game, s, p);
      var theirs := PossibleWinningLines(game, s, Opponent(p));
      h := mine as int - theirs as int;
    }
    HeuristicSearch.HeuristicAsWritten(game, s, p);
  }

  /** Exhaustive minimax, scoring final positions by their utility. */
  class MinMax {
    const game: Square
    /** num_leafs: how many positions have been evaluated. */
    var numLeafs: nat

    constructor (game: Square)
      ensures this.game == game && numLeafs == 0
    {
      this.game := game;
      numLeafs := 0;
    }

    /** evaluation: the utility of s for p, counted. */
    method Evaluation(s: State, p: Player) returns (u: int)
      requires |s| == Size(game)
      modifies this
      ensures u == Utility(game, s, p)
      ensures numLeafs == old(numLeafs) + 1
    {
      numLeafs := numLeafs + 1;
      u := Utility(game, s, p);
    }

    /** action: the move with the largest min_value, the first one on a tie. */
    method Action(s: State, p: Player) returns (a: nat)
      requires |s| == Size(game) && |Actions(s)| > 0
      modifies this
      ensures a == Exhaustive.BestAction(game, s, p)
      ensures numLeafs == old(numLeafs) + Sum(Exhaustive.ChildLeaves(game, s))
    {
      var values := MinValues(s, p);
      a := Actions(s)[ArgMax(values)];
    }

    /** max_value. */
    method MaxValue(s: State, p: Player) returns (v: int)
      requires |s| == Size(game)
      modifies this
      ensures v == Exhaustive.MaxValue(game, s, p)
      ensures numLeafs == old(numLeafs) + Exhaustive.Leaves(game, s)
      decreases |Actions(s)|, 2
    {
      if TerminalTest(game, s) {
        v := Evaluation(s, p);
      } else {
        var values := MinValues(s, p);
        v := Max(values);
      }
    }

    /** min_value. */
    method MinValue(s: State, p: Player) returns (v: int)
      requires |s| == Size(game)
      modifies this
      ensures v == Exhaustive.MinValue(game, s, p)
      ensures numLeafs == old(numLeafs) + Exhaustive.Leaves(game, s)
      decreases |Actions(s)|, 2
    {
      if TerminalTest(game, s) {
        v := Evaluation(s, p);
      } else {
        var values := MaxValues(s, p);
        v := Min(values);
      }
    }

    /** The list [min_value(result(s, a), p) for a in actions(s)]. */
    method MinValues(s: State, p: Player) returns (values: seq<int>)
      requires |s| == Size(game)
      modifies this
      ensures values == Exhaustive.ChildMinValues(game, s, p)
      ensures numLeafs == old(numLeafs) + Sum(Exhaustive.ChildLeaves(game, s))
      decreases |Actions(s)|, 1
    {
      var acts := Actions(s);
      ghost var leaves := Exhaustive.ListedLeaves(game, s);
      ghost var target := Exhaustive.ListedMinValues(game, s, p);
      values := [];
      for i := 0 to |acts|
        invariant values == target[..i]
        invariant numLeafs == old(numLeafs) + Sum(leaves[..i])
      {
        var v := MinChild(s, p, i);
        PrefixExtend(target, i);
        values := values + [v];
        SumOfLongerPrefix(leaves, i);
      }
      assert leaves[..|acts|] == leaves;
    }

    /** The list [max_value(result(s, a), p) for a in actions(s)]. */
    method MaxValues(s: State, p: Player) returns (values: seq<int>)
      requires |s| == Size(game)
      modifies this
      ensures values == Exhaustive.ChildMaxValues(game, s, p)
      ensures numLeafs == old(numLeafs) + Sum(Exhaustive.ChildLeaves(game, s))
      decreases |Actions(s)|, 1
    {
      var acts := Actions(s);
      ghost var leaves := Exhaustive.ListedLeaves(game, s);
      ghost var target := Exhaustive.ListedMaxValues(game, s, p);
      values := [];
      for i := 0 to |acts|
        invariant values == target[..i]
        invariant numLeafs == old(numLeafs) + Sum(leaves[..i])
      {
        var v := MaxChild(s, p, i);
        PrefixExtend(target, i);
        values := values + [v];
        SumOfLongerPrefix(leaves, i);
      }
      assert leaves[..|acts|] == leaves;
    }

    /** min_value(result(s, a), p) for the i-th legal move a. */
    method MinChild(s: State, p: Player, i: nat) returns (v: int)
      requires |s| == Size(game) && i < |Actions(s)|
      modifies this
      ensures v == Exhaustive.ChildMinValues(game, s, p)[i]
      ensures numLeafs == old(numLeafs) + Exhaustive.ChildLeaves(game, s)[i]
      decreases |Actions(s)|, 0
    {
      PlayAction(s, i);
      v := MinValue(Result(s, Actions(s)[i]), p);
    }

    /** max_value(result(s, a), p) for the i-th legal move a. */
    method MaxChild(s: State, p: Player, i: nat) returns (v: int)
      requires |s| == Size(game) && i < |Actions(s)|
      modifies this
      ensures v == Exhaustive.ChildMaxValues(game, s, p)[i]
      ensures numLeafs == old(numLeafs) + Exhaustive.ChildLeaves(game, s)[i]
      decreases |Actions(s)|, 0
    {
      PlayAction(s, i);
      v := MaxValue(Result(s, Actions(s)[i]), p);
    }
  }

  /** Minimax cut off after `depth` moves, scoring the positions there by
      heuristic. */
  class Heuristic {
    const game: Square
    /** How many moves ahead action looks (3 unless given). */
    const depth: int
    /** num_leafs: how many positions have been evaluated. */
    var numLeafs: nat

    constructor (game: Square, depth: int)
      ensures this.game == game && this.depth == depth && numLeafs == 0
    {
      this.game := game;
      this.depth := depth;
      numLeafs := 0;
    }

    /** evaluation: the heuristic value of s for p, counted. */
    method Evaluation(s: State, p: Player) returns (h: int)
      requires |s| == Size(game)
      modifies this
      ensures h == HeuristicSearch.Heuristic(game, s, p)
      ensures numLeafs == old(numLeafs) + 1
    {
      numLeafs := numLeafs + 1;
      h := HeuristicValue(game, s, p);
    }

    /** action: the move whose child has the largest min_value at depth - 1, the
        first one on a tie. */
    method Action(s: State, p: Player) returns (a: nat)
      requires |s| == Size(game) && |Actions(s)| > 0
      modifies this
      ensures a == HeuristicSearch.BestAction(game, s, p, depth)
      ensures numLeafs == old(numLeafs) + Sum(HeuristicSearch.ChildLeaves(game, s, depth))
    {
      var values := MinValues(s, p, depth);
      a := Actions(s)[ArgMax(values)];
    }

    /** max_value. */
    method MaxValue(s: State, p: Player, depth: int) returns (v: int)
      requires |s| == Size(game)
      modifies this
      ensures v == HeuristicSearch.MaxValue(game, s, p, depth)
      ensures numLeafs == old(numLeafs) + HeuristicSearch.Leaves(game, s, depth)
      decreases |Actions(s)|, 2
    {
      if depth == 0 || TerminalTest(game, s) {
        v := Evaluation(s, p);
      } else {
        var values := MinValues(s, p, depth);
        v := Max(values);
      }
    }

    /** min_value. */
    method MinValue(s: State, p: Player, depth: int) returns (v: int)
      requires |s| == Size(game)
      modifies this
      ensures v == HeuristicSearch.MinValue(game, s, p, depth)
      ensures numLeafs == old(numLeafs) + HeuristicSearch.Leaves(game, s, depth)
      decreases |Actions(s)|, 2
    {
      if depth == 0 || TerminalTest(game, s) {
        v := Evaluation(s, p);
      } else {
        var values := MaxValues(s, p, depth);
        v := Min(values);
      }
    }

    /** The list [min_value(result(s, a), p, depth - 1) for a in actions(s)]. */
    method MinValues(s: State, p: Player, depth: int) returns (values: seq<int>)
      requires |s| == Size(game)
      modifies this
      ensures values == HeuristicSearch.ChildMinValues(game, s, p, depth)
      ensures numLeafs == old(numLeafs) + Sum(HeuristicSearch.ChildLeaves(game, s, depth))
      decreases |Actions(s)|, 1
    {
      var acts := Actions(s);
      ghost var leaves := HeuristicSearch.ListedLeaves(game, s, depth);
      ghost var target := HeuristicSearch.ListedMinValues(game, s, p, depth);
      values := [];
      for i := 0 to |acts|
        invariant values == target[..i]
        invariant numLeafs == old(numLeafs) + Sum(leaves[..i])
      {
        var v := MinChild(s, p, depth, i);
        PrefixExtend(target, i);
        values := values + [v];
        SumOfLongerPrefix(leaves, i);
      }
      assert leaves[..|acts|] == leaves;
    }

    /** The list [max_value(result(s, a), p, depth - 1) for a in actions(s)]. */
    method MaxValues(s: State, p: Player, depth: int) returns (values: seq<int>)
      requires |s| == Size(game)
      modifies this
      ensures values == HeuristicSearch.ChildMaxValues(game, s, p, depth)
      ensures numLeafs == old(numLeafs) + Sum(HeuristicSearch.ChildLeaves(game, s, depth))
      decreases |Actions(s)|, 1
    {
      var acts := Actions(s);
      ghost var leaves := HeuristicSearch.ListedLeaves(game, s, depth);
      ghost var target := HeuristicSearch.ListedMaxValues(game, s, p, depth);
      values := [];
      for i := 0 to |acts|
        invariant values == target[..i]
        invariant numLeafs == old(numLeafs) + Sum(leaves[..i])
      {
        var v := MaxChild(s, p, depth, i);
        PrefixExtend(target, i);
        values := values + [v];
        SumOfLongerPrefix(leaves, i);
      }
      assert leaves[..|acts|] == leaves;
    }

    /** min_value(result(s, a), p, depth - 1) for the i-th legal move a. */
    method MinChild(s: State, p: Player, depth: int, i: nat) returns (v: int)
      requires |s| == Size(game) && i < |Actions(s)|
      modifies this
      ensures v == HeuristicSearch.ChildMinValues(game, s, p, depth)[i]
      ensures numLeafs == old(numLeafs) + HeuristicSearch.ChildLeaves(game, s, depth)[i]
      decreases |Actions(s)|, 0
    {
      PlayAction(s, i);
      v := MinValue(Result(s, Actions(s)[i]), p, depth - 1);
    }

    /** max_value(result(s, a), p, depth - 1) for the i-th legal move a. */
    method MaxChild(s: State, p: Player, depth: int, i: nat) returns (v: int)
      requires |s| == Size(game) && i < |Actions(s)|
      modifies this
      ensures v == HeuristicSearch.ChildMaxValues(game, s, p, depth)[i]
      ensures numLeafs == old(numLeafs) + HeuristicSearch.ChildLeaves(game, s, depth)[i]
      decreases |Actions(s)|, 0
    {
      PlayAction(s, i);
      v := MaxValue(Result(s, Actions(s)[i]), p, depth - 1);
    }
  }

  /** Heuristic's search with alpha-beta pruning. The window (alpha, beta) holds
      what the two players are already sure of elsewhere in the tree; a node stops
      searching its children once its value cannot fall inside it. */
  class AlphaBeta {
    const game: Square
    /** How many moves ahead action looks (3 unless given). */
    const depth: int
    /** num_leafs: how many positions have been evaluated. */
    var numLeafs: nat

    constructor (game: Square, depth: int)
      ensures this.game == game && this.depth == depth && numLeafs == 0
    {
      this.game := game;
      this.depth := depth;
      numLeafs := 0;
    }

    /** evaluation, as in Heuristic. */
    method Evaluation(s: State, p: Player) returns (h: int)
      requires |s| == Size(game)
      modifies this
      ensures h == HeuristicSearch.Heuristic(game, s, p)
      ensures numLeafs == old(numLeafs) + 1
    {
      numLeafs := numLeafs + 1;
      h := HeuristicValue(game, s, p);
    }

    /** action: every child is searched with the whole window, so this picks the
        move Heuristic.action picks, while evaluating at most as many positions. */
    method Action(s: State, p: Player) returns (a: nat)
      requires |s| == Size(game) && |Actions(s)| > 0
      modifies this
      ensures a == HeuristicSearch.BestAction(game, s, p, depth)
      ensures numLeafs == old(numLeafs) + Sum(Pruning.RootLeaves(game, s, p, depth))
      ensures old(numLeafs) < numLeafs <= old(numLeafs) + Sum(HeuristicSearch.ChildLeaves(game, s, depth))
    {
      var values := RootValues(s, p);
      Pruning.RootLeavesAtMost(game, s, p, depth);
      a := Actions(s)[ArgMax(values)];
    }

    /** The list [min_value(result(s, a), p, depth - 1, -inf, inf) for a in
        actions(s)] that action builds: the values Heuristic.action compares. */
    method RootValues(s: State, p: Player) returns (values: seq<int>)
      requires |s| == Size(game)
      modifies this
      ensures values == HeuristicSearch.ChildMinValues(game, s, p, depth)
      ensures numLeafs == old(numLeafs) + Sum(Pruning.RootLeaves(game, s, p, depth))
    {
      ghost var leaves := Pruning.RootLeaves(game, s, p, depth);
      ghost var target := HeuristicSearch.ListedMinValues(game, s, p, depth);
      var acts := Actions(s);
      values := [];
      for i := 0 to |acts|
        invariant values == target[..i]
        invariant numLeafs == old(numLeafs) + Sum(leaves[..i])
      {
        var v := RootChild(s, p, i);
        PrefixExtend(target, i);
        values := values + [v];
        SumOfLongerPrefix(leaves, i);
      }
      assert leaves[..|acts|] == leaves;
    }

    /** min_value(result(s, a), p, depth - 1, -inf, inf) for the i-th legal move a. */
    method RootChild(s: State, p: Player, i: nat) returns (v: int)
      requires |s| == Size(game) && i < |Actions(s)|
      modifies this
      ensures v == HeuristicSearch.ChildMinValues(game, s, p, depth)[i]
      ensures numLeafs == old(numLeafs) + Pruning.RootLeaves(game, s, p, depth)[i]
    {
      Pruning.RootChild(game, s, p, depth, i);
      v := MinValue(Result(s, Actions(s)[i]), p, depth - 1, NegInf, PosInf);
    }

    /** max_value: a position at the depth limit or at the end of the game is
        evaluated; otherwise its children are searched. The result is exact inside
        the window and fails soft outside it (Pruning.MaxABFailSoft). */
    method MaxValue(s: State, p: Player, depth: int, alpha: Bound, beta: Bound) returns (v: int)
      requires |s| == Size(game)
      modifies this
      ensures v == Pruning.MaxAB(game, s, p, depth, alpha, beta).value
      ensures numLeafs == old(numLeafs) + Pruning.MaxAB(game, s, p, depth, alpha, beta).leaves
      decreases |Actions(s)|, 2
    {
      if depth == 0 || TerminalTest(game, s) {
        v := Evaluation(s, p);
      } else {
        v := MaxOverChildren(s, p, depth, alpha, beta);
      }
    }

    /** The loop of max_value: v starts at minus infinity and takes the larger of
        itself and each child's min_value, searched with the window narrowed to
        (max(alpha, v), beta); the loop returns as soon as v reaches beta. */
    method MaxOverChildren(s: State, p: Player, depth: int, alpha: Bound, beta: Bound) returns (v: int)
      requires |s| == Size(game) && |Actions(s)| > 0
      modifies this
      ensures v == Pruning.MaxLoop(game, s, p, depth, alpha, beta, 0, NegInf, 0).value
      ensures numLeafs == old(numLeafs) + Pruning.MaxLoop(game, s, p, depth, alpha, beta, 0, NegInf, 0).leaves
      decreases |Actions(s)|, 1
    {
      var acts := Actions(s);
      ghost var target := Pruning.MaxLoop(game, s, p, depth, alpha, beta, 0, NegInf, 0);
      ghost var spent: nat := 0;
      var best: Bound := NegInf;
      var a := alpha;
      for i := 0 to |acts|
        invariant i == 0 ==> best == NegInf
        invariant i > 0 ==> best.Fin?
        invariant numLeafs == old(numLeafs) + spent
        invariant Pruning.MaxLoop(game, s, p, depth, a, beta, i, best, spent) == target
      {
        var c := MinChild(s, p, depth, i, a, beta);
        ghost var child := Pruning.MinChildSearch(game, s, p, depth, i, a, beta);
        Pruning.MaxLoopStep(game, s, p, depth, a, beta, i, best, spent, child);
        spent := spent + child.leaves;
        best := MaxB(best, Fin(c));
        if Le(beta, best) {
          v := best.n;
          return;
        }
        a := MaxB(a, best);
      }
      Pruning.MaxLoopDone(game, s, p, depth, a, beta, best, spent);
      v := best.n;
    }

    /** min_value: the mirror image of MaxValue. */
    method MinValue(s: State, p: Player, depth: int, alpha: Bound, beta: Bound) returns (v: int)
      requires |s| == Size(game)
      modifies this
      ensures v == Pruning.MinAB(game, s, p, depth, alpha, beta).value
      ensures numLeafs == old(numLeafs) + Pruning.MinAB(game, s, p, depth, alpha, beta).leaves
      decreases |Actions(s)|, 2
    {
      if depth == 0 || TerminalTest(game, s) {
        v := Evaluation(s, p);
      } else {
        v := MinOverChildren(s, p, depth, alpha, beta);
      }
    }

    /** The loop of min_value: v starts at plus infinity and takes the smaller of
        itself and each child's max_value, searched with the window narrowed to
        (alpha, min(beta, v)); the loop returns as soon as v falls to alpha. */
    method MinOverChildren(s: State, p: Player, depth: int, alpha: Bound, beta: Bound) returns (v: int)
      requires |s| == Size(game) && |Actions(s)| > 0
      modifies this
      ensures v == Pruning.MinLoop(game, s, p, depth, alpha, beta, 0, PosInf, 0).value
      ensures numLeafs == old(numLeafs) + Pruning.MinLoop(game, s, p, depth, alpha, beta, 0, PosInf, 0).leaves
      decreases |Actions(s)|, 1
    {
      var acts := Actions(s);
      ghost var target := Pruning.MinLoop(game, s, p, depth, alpha, beta, 0, PosInf, 0);
      ghost var spent: nat := 0;
      var best: Bound := PosInf;
      var b := beta;
      for i := 0 to |acts|
        invariant i == 0 ==> best == PosInf
        invariant i > 0 ==> best.Fin?
        invariant numLeafs == old(numLeafs) + spent
        invariant Pruning.MinLoop(game, s, p, depth, alpha, b, i, best, spent) == target
      {
        var c := MaxChild(s, p, depth, i, alpha, b);
        ghost var child := Pruning.MaxChildSearch(game, s, p, depth, i, alpha, b);
        Pruning.MinLoopStep(game, s, p, depth, alpha, b, i, best, spent, child);
        spent := spent + child.leaves;
        best := MinB(best, Fin(c));
        if Le(best, alpha) {
          v := best.n;
          return;
        }
        b := MinB(b, best);
      }
      Pruning.MinLoopDone(game, s, p, depth, alpha, b, best, spent);
      v := best.n;
    }

    /** min_value(result(s, a), p, depth - 1, alpha, beta) for the i-th legal move a. */
    method MinChild(s: State, p: Player, depth: int, i: nat, alpha: Bound, beta: Bound) returns (c: int)
      requires |s| == Size(game) && i < |Actions(s)|
      modifies this
      ensures c == Pruning.MinChildSearch(game, s, p, depth, i, alpha, beta).value
      ensures numLeafs == old(numLeafs) + Pruning.MinChildSearch(game, s, p, depth, i, alpha, beta).leaves
      decreases |Actions(s)|, 0
    {
      PlayAction(s, i);
      c := MinValue(Result(s, Actions(s)[i]), p, depth - 1, alpha, beta);
    }

    /** max_value(result(s, a), p, depth - 1, alpha, beta) for the i-th legal move a. */
    method MaxChild(s: State, p: Player, depth: int, i: nat, alpha: Bound, beta: Bound) returns (c: int)
      requires |s| == Size(game) && i < |Actions(s)|
      modifies this
      ensures c == Pruning.MaxChildSearch(game, s, p, depth, i, alpha, beta).value
      ensures numLeafs == old(numLeafs) + Pruning.MaxChildSearch(game, s, p, depth, i, alpha, beta).leaves
      decreases |Actions(s)|, 0
    {
      PlayAction(s, i);
      c := MaxValue(Result(s, Actions(s)[i]), p, depth - 1, alpha, beta);
    }
  }
}
