/** The depth-limited search of the Heuristic and AlphaBeta strategies: the count of
    lines a player can still complete (possible_winning_lines), the evaluation built
    on it (heuristic), and the value a search of a given depth gives a position. */
module HeuristicSearch {
  import opened Builtins
  import opened Game
  import Minimax

  // ---------------------------------------------------------------------------
  // Lines a player can still complete

  /** A cell of best_state: an empty cell is given to p, a marked cell keeps its mark. */
  function FillMark(m: Mark, p: Player): Mark
  {
    if m == EMPTY then p else m
  }

  /** best_state: the board with every empty cell given to p. */
  function Fill(s: State, p: Player): (b: State)
    ensures |b| == |s| && forall i :: 0 <= i < |s| ==> b[i] == FillMark(s[i], p)
  {
    seq(|s|, i requires 0 <= i < |s| => FillMark(s[i], p))
  }

  /** The test possible_winning_lines applies to each row of the filled board b:
      its first cell is p's and the row is uniform. */
  function RowTests(g: Square, b: State, p: Player): (tests: seq<bool>)
    requires |b| == Size(g)
    ensures |tests| == g.height
  {
    seq(g.height, i requires 0 <= i < g.height => Cell(g, b, i, 0) == p && AllSame(RowSlice(g, b, i)))
  }

  /** The same test on each column of b. */
  function ColumnTests(g: Square, b: State, p: Player): (tests: seq<bool>)
    requires |b| == Size(g)
    ensures |tests| == g.width
  {
    seq(g.width, i requires 0 <= i < g.width => Cell(g, b, 0, i) == p && AllSame(ColumnSlice(g, b, i)))
  }

  /** The main-diagonal test on b. */
  predicate DiagonalTest(g: Square, b: State, p: Player)
    requires |b| == Size(g)
  {
    Cell(g, b, 0, 0) == p && AllSame(DiagonalSlice(g, b))
  }

  /** The tests possible_winning_lines makes, in its order: rows, columns, the main
      diagonal, and the anti-diagonal, whose first cell is only required to be
      non-empty rather than p's. */
  function WrittenTests(g: Square, b: State, p: Player): (tests: seq<bool>)
    requires |b| == Size(g)
    ensures |tests| == g.height + g.width + 2
  {
    RowTests(g, b, p) + ColumnTests(g, b, p)
    + [DiagonalTest(g, b, p), Cell(g, b, 0, g.width - 1) != EMPTY && AllSame(AntiDiagonalSlice(g, b))]
  }

  /** The same tests with the anti-diagonal tested like every other line. */
  function IntendedTests(g: Square, b: State, p: Player): (tests: seq<bool>)
    requires |b| == Size(g)
    ensures |tests| == g.height + g.width + 2
  {
    RowTests(g, b, p) + ColumnTests(g, b, p)
    + [DiagonalTest(g, b, p), Cell(g, b, 0, g.width - 1) == p && AllSame(AntiDiagonalSlice(g, b))]
  }

  /** The number of lines that hold no mark q. */
  function FreeLines(lines: seq<seq<Mark>>, q: Player): (n: nat)
    ensures n <= |lines|
  {
    Tally(seq(|lines|, j requires 0 <= j < |lines| => q !in lines[j]))
  }

  /** possible_winning_lines(state, p) as written. It is between 0 and
      height + width + 2. */
  function WinningLines(g: Square, s: State, p: Player): (n: nat)
    requires |s| == Size(g)
    ensures n <= g.height + g.width + 2
  {
    Tally(WrittenTests(g, Fill(s, p), p))
  }

  /** possible_winning_lines as written, counted part by part as its loops count:
      the rows, then the columns, then the two diagonals. */
  lemma WinningLinesByParts(g: Square, s: State, p: Player)
    requires |s| == Size(g)
    ensures var b := Fill(s, p);
      WinningLines(g, s, p) == Tally(RowTests(g, b, p)) + Tally(ColumnTests(g, b, p))
        + (if DiagonalTest(g, b, p) then 1 else 0)
        + (if Cell(g, b, 0, g.width - 1) != EMPTY && AllSame(AntiDiagonalSlice(g, b)) then 1 else 0)
  {
    var b := Fill(s, p);
    var rows, cols := RowTests(g, b, p), ColumnTests(g, b, p);
    var diag := [DiagonalTest(g, b, p), Cell(g, b, 0, g.width - 1) != EMPTY && AllSame(AntiDiagonalSlice(g, b))];
    TallyAppend(rows + cols, diag);
    TallyAppend(rows, cols);
    assert diag[..1] == [diag[0]] && [diag[0]][..0] == [];
  }

  /** possible_winning_lines with every line tested alike: exactly the number of
      lines of the board that hold no mark of p's opponent. */
  function IntendedWinningLines(g: Square, s: State, p: Player): (n: nat)
    requires |s| == Size(g)
    ensures n == FreeLines(Lines(g, s), Opponent(p))
    ensures n <= g.height + g.width + 2
  {
    IntendedTestsCountFreeLines(g, s, p);
    Tally(IntendedTests(g, Fill(s, p), p))
  }

  /** A line of the filled board passes the row test exactly when the original line
      holds no opponent mark; it passes the anti-diagonal test as written also when
      the original line is all opponent marks. */
  lemma FilledLine(line: seq<Mark>, filled: seq<Mark>, p: Player)
    requires |line| == |filled| > 0
    requires forall k :: 0 <= k < |line| ==> filled[k] == FillMark(line[k], p)
    ensures filled[0] == p && AllSame(filled) <==> Opponent(p) !in line
    ensures filled[0] != EMPTY && AllSame(filled) <==>
      Opponent(p) !in line || forall k :: 0 <= k < |line| ==> line[k] == Opponent(p)
  {
    if Opponent(p) !in line {
      forall k | 0 <= k < |line|
        ensures filled[k] == p
      {
        assert line[k] in line;
      }
    }
    if filled[0] == p && AllSame(filled) {
      forall k | 0 <= k < |line|
        ensures line[k] != Opponent(p)
      {
        assert filled[k] == p;
      }
    }
  }

  /** Each line of the filled board is the corresponding line of s, filled. */
  lemma FilledLines(g: Square, s: State, p: Player)
    requires |s| == Size(g)
    ensures |Lines(g, Fill(s, p))| == |Lines(g, s)| == 2 * g.width + 2
    ensures forall j :: 0 <= j < |Lines(g, s)| ==>
      |Lines(g, s)[j]| == |Lines(g, Fill(s, p))[j]| == g.width
    ensures forall j, k :: 0 <= j < |Lines(g, s)| && 0 <= k < g.width ==>
      Lines(g, Fill(s, p))[j][k] == FillMark(Lines(g, s)[j][k], p)
  {
    forall j | 0 <= j < 2 * g.width + 2
      ensures |Lines(g, s)[j]| == |Lines(g, Fill(s, p))[j]| == g.width
      ensures forall k :: 0 <= k < g.width ==> Lines(g, Fill(s, p))[j][k] == FillMark(Lines(g, s)[j][k], p)
    {
      FilledLineAt(g, s, p, j);
    }
  }

  lemma FilledLineAt(g: Square, s: State, p: Player, j: nat)
    requires |s| == Size(g) && j < 2 * g.width + 2
    ensures |Lines(g, s)[j]| == |Lines(g, Fill(s, p))[j]| == g.width
    ensures forall k :: 0 <= k < g.width ==> Lines(g, Fill(s, p))[j][k] == FillMark(Lines(g, s)[j][k], p)
  {
    var b, w := Fill(s, p), g.width;
    forall r, c | 0 <= r < w && 0 <= c < w
      ensures Cell(g, b, r, c) == FillMark(Cell(g, s, r, c), p)
    {
      CellWithinBoard(g, r, c);
    }
    if j < w {
      assert Lines(g, s)[j] == RowSlice(g, s, j) && Lines(g, b)[j] == RowSlice(g, b, j);
      RowShape(g, s, j);
      RowShape(g, b, j);
    } else if j < 2 * w {
      assert Lines(g, s)[j] == ColumnSlice(g, s, j - w) && Lines(g, b)[j] == ColumnSlice(g, b, j - w);
      ColumnShape(g, s, j - w);
      ColumnShape(g, b, j - w);
    } else {
      assert Lines(g, s)[2 * w] == DiagonalSlice(g, s) && Lines(g, b)[2 * w] == DiagonalSlice(g, b);
      assert Lines(g, s)[2 * w + 1] == AntiDiagonalSlice(g, s) && Lines(g, b)[2 * w + 1] == AntiDiagonalSlice(g, b);
      DiagonalShapes(g, s);
      DiagonalShapes(g, b);
    }
  }

  /** The tests with the anti-diagonal tested alike count the lines free of the
      opponent's marks. */
  lemma IntendedTestsCountFreeLines(g: Square, s: State, p: Player)
    requires |s| == Size(g)
    ensures Tally(IntendedTests(g, Fill(s, p), p)) == FreeLines(Lines(g, s), Opponent(p))
  {
    var lines, q := Lines(g, s), Opponent(p);
    var tests := IntendedTests(g, Fill(s, p), p);
    var free := seq(|lines|, j requires 0 <= j < |lines| => q !in lines[j]);
    LinesShape(g, s);
    forall j | 0 <= j < |lines|
      ensures tests[j] == free[j]
    {
      IntendedTestAt(g, s, p, j);
    }
    assert tests == free;
  }

  /** The intended test on line j of the filled board holds exactly when line j
      of the board holds none of the opponent's marks. */
  lemma IntendedTestAt(g: Square, s: State, p: Player, j: nat)
    requires |s| == Size(g) && j < 2 * g.width + 2
    ensures IntendedTests(g, Fill(s, p), p)[j] == (Opponent(p) !in Lines(g, s)[j])
  {
    var b, w := Fill(s, p), g.width;
    var line, filled := Lines(g, s)[j], Lines(g, b)[j];
    FilledLineAt(g, s, p, j);
    FilledLine(line, filled, p);
    IntendedTestsAt(g, b, p, j);
    if j < w {
      assert filled == RowSlice(g, b, j);
      RowShape(g, b, j);
    } else if j < 2 * w {
      assert filled == ColumnSlice(g, b, j - w);
      ColumnShape(g, b, j - w);
    } else if j == 2 * w {
      assert filled == DiagonalSlice(g, b);
      DiagonalShapes(g, b);
    } else {
      assert filled == AntiDiagonalSlice(g, b);
      DiagonalShapes(g, b);
    }
  }

  /** Test j of the intended tests: a row's, a column's, the diagonal's or the
      anti-diagonal's. */
  lemma IntendedTestsAt(g: Square, b: State, p: Player, j: nat)
    requires |b| == Size(g) && j < 2 * g.width + 2
    ensures IntendedTests(g, b, p)[j] ==
      if j < g.width then RowTests(g, b, p)[j]
      else if j < 2 * g.width then ColumnTests(g, b, p)[j - g.width]
      else if j == 2 * g.width then DiagonalTest(g, b, p)
      else Cell(g, b, 0, g.width - 1) == p && AllSame(AntiDiagonalSlice(g, b))
  {
  }

  /** Whether q holds every cell of the line. */
  predicate Owns(line: seq<Mark>, q: Player)
  {
    forall k :: 0 <= k < |line| ==> line[k] == q
  }

  /** Whether q holds every cell of the anti-diagonal of s. */
  predicate OwnsAntiDiagonal(g: Square, s: State, q: Player)
    requires |s| == Size(g)
  {
    Owns(AntiDiagonalSlice(g, s), q)
  }

  /** possible_winning_lines as written counts one line too many exactly when the
      opponent holds the whole anti-diagonal: that line is uniform once filled, but
      p cannot complete it. */
  lemma AntiDiagonalMiscount(g: Square, s: State, p: Player)
    requires |s| == Size(g)
    ensures WinningLines(g, s, p) ==
      IntendedWinningLines(g, s, p) + (if OwnsAntiDiagonal(g, s, Opponent(p)) then 1 else 0)
  {
    var b, w := Fill(s, p), g.width;
    var lines, filled := Lines(g, s), Lines(g, b);
    FilledLines(g, s, p);
    LinesShape(g, b);
    var xs := RowTests(g, b, p) + ColumnTests(g, b, p) + [DiagonalTest(g, b, p)];
    var written, intended := WrittenTests(g, b, p), IntendedTests(g, b, p);
    assert written == xs + [written[|xs|]] && intended == xs + [intended[|xs|]];
    assert (xs + [written[|xs|]])[..|xs|] == xs && (xs + [intended[|xs|]])[..|xs|] == xs;
    assert filled[2 * w + 1][0] == Cell(g, b, 0, w - 1 - 0);
    FilledLine(lines[2 * w + 1], filled[2 * w + 1], p);
    assert lines[2 * w + 1] == AntiDiagonalSlice(g, s);
    if OwnsAntiDiagonal(g, s, Opponent(p)) {
      assert lines[2 * w + 1][0] in lines[2 * w + 1];
    }
  }

  /** While the game goes on, nobody owns a whole line, so possible_winning_lines as
      written gives the intended count. */
  lemma WinningLinesWhilePlaying(g: Square, s: State, p: Player)
    requires |s| == Size(g) && !TerminalTest(g, s)
    ensures WinningLines(g, s, p) == IntendedWinningLines(g, s, p)
  {
    AntiDiagonalMiscount(g, s, p);
    GameOver(g, s);
    DiagonalShapes(g, s);
    var anti := Lines(g, s)[2 * g.width + 1];
    assert anti == AntiDiagonalSlice(g, s);
    if OwnsAntiDiagonal(g, s, Opponent(p)) {
      assert false;
    }
  }

  // ---------------------------------------------------------------------------
  // The evaluation

  /** heuristic(state, p): a hundred times the utility at the end of the game;
      before it, the number of lines p can still complete minus the number the
      opponent can. */
  function Heuristic(g: Square, s: State, p: Player): (h: int)
    requires |s| == Size(g)
    ensures TerminalTest(g, s) ==> h == 100 * Utility(g, s, p)
    ensures !TerminalTest(g, s) ==>
      h == FreeLines(Lines(g, s), Opponent(p)) - FreeLines(Lines(g, s), p)
  {
    if TerminalTest(g, s) then 100 * Utility(g, s, p)
    else IntendedWinningLines(g, s, p) - IntendedWinningLines(g, s, Opponent(p))
  }

  /** Heuristic is what heuristic computes from possible_winning_lines as written. */
  lemma HeuristicAsWritten(g: Square, s: State, p: Player)
    requires |s| == Size(g)
    ensures Heuristic(g, s, p) == if TerminalTest(g, s) then Utility(g, s, p) * 100
      else WinningLines(g, s, p) - WinningLines(g, s, Opponent(p))
  {
    if !TerminalTest(g, s) {
      WinningLinesWhilePlaying(g, s, p);
      WinningLinesWhilePlaying(g, s, Opponent(p));
    }
  }

  /** The evaluation is zero-sum, and while the game goes on it stays within the
      number of lines of the board. */
  lemma HeuristicAntisymmetric(g: Square, s: State, p: Player)
    requires |s| == Size(g)
    ensures Heuristic(g, s, p) == -Heuristic(g, s, Opponent(p))
    ensures !TerminalTest(g, s) ==> -(g.height + g.width + 2) <= Heuristic(g, s, p) <= g.height + g.width + 2
  {
    UtilityAntisymmetric(g, s, p);
  }

  // ---------------------------------------------------------------------------
  // The search to a given depth

  /** min_value(child, p, depth - 1) of each child of s, in the order of Actions(s). */
  function ChildMinValues(g: Square, s: State, p: Player, depth: int): (vs: seq<int>)
    requires |s| == Size(g)
    ensures |vs| == |Actions(s)|
    decreases |Actions(s)|, 0
  {
    var acts := Actions(s);
    seq(|acts|, k requires 0 <= k < |acts| =>
      (PlayAction(s, k); MinValue(g, Result(s, acts[k]), p, depth - 1)))
  }

  /** max_value(child, p, depth - 1) of each child of s, in the order of Actions(s). */
  function ChildMaxValues(g: Square, s: State, p: Player, depth: int): (vs: seq<int>)
    requires |s| == Size(g)
    ensures |vs| == |Actions(s)|
    decreases |Actions(s)|, 0
  {
    var acts := Actions(s);
    seq(|acts|, k requires 0 <= k < |acts| =>
      (PlayAction(s, k); MaxValue(g, Result(s, acts[k]), p, depth - 1)))
  }

  /** Heuristic.max_value: the evaluation once depth reaches zero or the game is
      over, else the largest child min_value one level shallower. A negative depth
      never reaches zero, and the search then runs to the end of the game. */
  function MaxValue(g: Square, s: State, p: Player, depth: int): int
    requires |s| == Size(g)
    decreases |Actions(s)|, 1
  {
    if depth == 0 || TerminalTest(g, s) then Heuristic(g, s, p)
    else Max(ChildMinValues(g, s, p, depth))
  }

  /** Heuristic.min_value: as MaxValue, with the smallest child max_value. */
  function MinValue(g: Square, s: State, p: Player, depth: int): int
    requires |s| == Size(g)
    decreases |Actions(s)|, 1
  {
    if depth == 0 || TerminalTest(g, s) then Heuristic(g, s, p)
    else Min(ChildMaxValues(g, s, p, depth))
  }

  /** The number of positions the search from s evaluates (num_leafs). */
  function Leaves(g: Square, s: State, depth: int): (n: nat)
    requires |s| == Size(g)
    ensures n >= 1
    decreases |Actions(s)|, 1
  {
    if depth == 0 || TerminalTest(g, s) then 1
    else
      var ns := ChildLeaves(g, s, depth);
      SumAtLeastElement(ns, 0);
      Sum(ns)
  }

  /** Leaves of each child of s one level shallower, in the order of Actions(s). */
  function ChildLeaves(g: Square, s: State, depth: int): (ns: seq<nat>)
    requires |s| == Size(g)
    ensures |ns| == |Actions(s)|
    ensures forall k :: 0 <= k < |ns| ==> ns[k] >= 1
    decreases |Actions(s)|, 0
  {
    var acts := Actions(s);
    seq(|acts|, k requires 0 <= k < |acts| =>
      (PlayAction(s, k); Leaves(g, Result(s, acts[k]), depth - 1)))
  }

  /** Proof aid, not part of the model: ChildMinValues, ChildMaxValues and
      ChildLeaves under a second, non-recursive name. The loops that build these
      lists are proved against them, so that their proofs do not unfold the search
      of every child. */
  ghost function ListedMinValues(g: Square, s: State, p: Player, depth: int): (vs: seq<int>)
    requires |s| == Size(g)
    ensures |vs| == |Actions(s)|
  {
    ChildMinValues(g, s, p, depth)
  }

  ghost function ListedMaxValues(g: Square, s: State, p: Player, depth: int): (vs: seq<int>)
    requires |s| == Size(g)
    ensures |vs| == |Actions(s)|
  {
    ChildMaxValues(g, s, p, depth)
  }

  ghost function ListedLeaves(g: Square, s: State, depth: int): (ns: seq<nat>)
    requires |s| == Size(g)
    ensures |ns| == |Actions(s)|
  {
    ChildLeaves(g, s, depth)
  }

  /** How many moves ahead the search from s looks: none when it evaluates s, else
      one more than the deepest search from a child. It never looks further than
      depth moves, nor further than the end of the game. */
  function Plies(g: Square, s: State, depth: int): (n: nat)
    requires |s| == Size(g)
    ensures depth >= 0 ==> n <= depth
    ensures n <= |Actions(s)|
    decreases |Actions(s)|, 1
  {
    if depth == 0 || TerminalTest(g, s) then 0
    else
      var ps := ChildPlies(g, s, depth);
      1 + Max(ps)
  }

  /** Plies of each child of s one level shallower, in the order of Actions(s). */
  function ChildPlies(g: Square, s: State, depth: int): (ps: seq<int>)
    requires |s| == Size(g)
    ensures |ps| == |Actions(s)|
    ensures forall k :: 0 <= k < |ps| ==> 0 <= ps[k] < |Actions(s)|
    ensures depth > 0 ==> forall k :: 0 <= k < |ps| ==> ps[k] <= depth - 1
    decreases |Actions(s)|, 0
  {
    var acts := Actions(s);
    ChildrenHaveFewerMoves(s);
    seq(|acts|, k requires 0 <= k < |acts| => Plies(g, Result(s, acts[k]), depth - 1))
  }

  /** A search with no look-ahead left evaluates s itself and nothing else: one
      position, valued by the heuristic for either side of the search. */
  lemma SearchAtHorizon(g: Square, s: State, p: Player, depth: int)
    requires |s| == Size(g) && Plies(g, s, depth) == 0
    ensures Leaves(g, s, depth) == 1
    ensures MaxValue(g, s, p, depth) == Heuristic(g, s, p)
    ensures MinValue(g, s, p, depth) == Heuristic(g, s, p)
  {
  }

  /** A search with look-ahead left expands s, and the search of each child one
      level shallower looks strictly fewer moves ahead. */
  lemma SearchBelowHorizon(g: Square, s: State, depth: int, k: nat)
    requires |s| == Size(g) && Plies(g, s, depth) > 0 && k < |Actions(s)|
    ensures depth != 0 && !TerminalTest(g, s)
    ensures Plies(g, Result(s, Actions(s)[k]), depth - 1) < Plies(g, s, depth)
  {
    assert ChildPlies(g, s, depth)[k] <= Max(ChildPlies(g, s, depth));
  }

  /** The move Heuristic.action chooses with search depth depth: the first legal
      move whose child has the largest min_value one level shallower. */
  function BestAction(g: Square, s: State, p: Player, depth: int): (a: nat)
    requires |s| == Size(g) && |Actions(s)| > 0
    ensures a in Actions(s)
    ensures forall k :: 0 <= k < |Actions(s)| ==>
      MinValue(g, Result(s, Actions(s)[k]), p, depth - 1) <= MinValue(g, Result(s, a), p, depth - 1)
    ensures forall k :: 0 <= k < |Actions(s)| && Actions(s)[k] < a ==>
      MinValue(g, Result(s, Actions(s)[k]), p, depth - 1) < MinValue(g, Result(s, a), p, depth - 1)
  {
    var vs := ChildMinValues(g, s, p, depth);
    var i := ArgMax(vs);
    FirstLargest(g, s, p, depth, i);
    Actions(s)[i]
  }

  lemma FirstLargest(g: Square, s: State, p: Player, depth: int, i: nat)
    requires |s| == Size(g) && |Actions(s)| > 0
    requires i < |Actions(s)|
    requires forall k :: 0 <= k < |Actions(s)| ==> ChildMinValues(g, s, p, depth)[k] <= ChildMinValues(g, s, p, depth)[i]
    requires forall k :: 0 <= k < i ==> ChildMinValues(g, s, p, depth)[k] < ChildMinValues(g, s, p, depth)[i]
    ensures forall k :: 0 <= k < |Actions(s)| ==>
      MinValue(g, Result(s, Actions(s)[k]), p, depth - 1) <= MinValue(g, Result(s, Actions(s)[i]), p, depth - 1)
    ensures forall k :: 0 <= k < |Actions(s)| && Actions(s)[k] < Actions(s)[i] ==>
      MinValue(g, Result(s, Actions(s)[k]), p, depth - 1) < MinValue(g, Result(s, Actions(s)[i]), p, depth - 1)
  {
    var acts, vs := Actions(s), ChildMinValues(g, s, p, depth);
    var best := MinValue(g, Result(s, acts[i]), p, depth - 1);
    assert vs[i] == best;
    forall k | 0 <= k < |acts|
      ensures MinValue(g, Result(s, acts[k]), p, depth - 1) <= best
      ensures acts[k] < acts[i] ==> MinValue(g, Result(s, acts[k]), p, depth - 1) < best
    {
      assert vs[k] == MinValue(g, Result(s, acts[k]), p, depth - 1);
      if acts[k] < acts[i] {
        ActionsInOrder(s, k, i);
      }
    }
  }



  /** The depth-limited search is zero-sum, like the evaluation it rests on. */
  lemma {:induction false} ZeroSum(g: Square, s: State, p: Player, depth: int)
    requires |s| == Size(g)
    ensures MaxValue(g, s, p, depth) == -MinValue(g, s, Opponent(p), depth)
    ensures MinValue(g, s, p, depth) == -MaxValue(g, s, Opponent(p), depth)
    decreases |Actions(s)|
  {
    HeuristicAntisymmetric(g, s, p);
    if depth != 0 && !TerminalTest(g, s) {
      var acts, q := Actions(s), Opponent(p);
      var minP, maxQ := ChildMinValues(g, s, p, depth), ChildMaxValues(g, s, q, depth);
      var maxP, minQ := ChildMaxValues(g, s, p, depth), ChildMinValues(g, s, q, depth);
      forall k | 0 <= k < |acts|
        ensures minP[k] == -maxQ[k] && maxP[k] == -minQ[k]
      {
        PlayAction(s, k);
        ZeroSum(g, Result(s, acts[k]), p, depth - 1);
      }
      MaxOfNegated(minP, maxQ);
      MaxOfNegated(minQ, maxP);
    }
  }

  /** A search deep enough to reach the end of every line of play (a negative depth,
      or at least as many plies as there are empty cells) is exact minimax scaled by
      100. */
  lemma {:induction false} FullDepth(g: Square, s: State, p: Player, depth: int)
    requires |s| == Size(g) && (depth < 0 || depth >= |Actions(s)|)
    ensures MaxValue(g, s, p, depth) == 100 * Minimax.MaxValue(g, s, p)
    ensures MinValue(g, s, p, depth) == 100 * Minimax.MinValue(g, s, p)
    decreases |Actions(s)|
  {
    if !TerminalTest(g, s) {
      FullDepthChildren(g, s, p, depth);
    }
  }

  /** The inductive step of FullDepth: it holds for s when it holds for every child. */
  lemma {:induction false} FullDepthChildren(g: Square, s: State, p: Player, depth: int)
    requires |s| == Size(g) && (depth < 0 || depth >= |Actions(s)|) && !TerminalTest(g, s)
    ensures Max(ChildMinValues(g, s, p, depth)) == 100 * Max(Minimax.ChildMinValues(g, s, p))
    ensures Min(ChildMaxValues(g, s, p, depth)) == 100 * Min(Minimax.ChildMaxValues(g, s, p))
    decreases |Actions(s)|, 1
  {
    var minH, maxH := ChildMinValues(g, s, p, depth), ChildMaxValues(g, s, p, depth);
    var minE, maxE := Minimax.ChildMinValues(g, s, p), Minimax.ChildMaxValues(g, s, p);
    forall k | 0 <= k < |Actions(s)|
      ensures minH[k] == 100 * minE[k] && maxH[k] == 100 * maxE[k]
    {
      FullDepthChild(g, s, p, depth, k);
    }
    MaxScaled(minH, minE, 100);
    MinScaled(maxH, maxE, 100);
  }

  lemma {:induction false} FullDepthChild(g: Square, s: State, p: Player, depth: int, k: nat)
    requires |s| == Size(g) && (depth < 0 || depth >= |Actions(s)|) && k < |Actions(s)|
    ensures ChildMinValues(g, s, p, depth)[k] == 100 * Minimax.ChildMinValues(g, s, p)[k]
    ensures ChildMaxValues(g, s, p, depth)[k] == 100 * Minimax.ChildMaxValues(g, s, p)[k]
    decreases |Actions(s)|, 0
  {
    PlayAction(s, k);
    var child := Result(s, Actions(s)[k]);
    FullDepth(g, child, p, depth - 1);
    assert ChildMinValues(g, s, p, depth)[k] == MinValue(g, child, p, depth - 1);
    assert Minimax.ChildMinValues(g, s, p)[k] == Minimax.MinValue(g, child, p);
    assert ChildMaxValues(g, s, p, depth)[k] == MaxValue(g, child, p, depth - 1);
    assert Minimax.ChildMaxValues(g, s, p)[k] == Minimax.MaxValue(g, child, p);
  }

  /** A search that deep also evaluates exactly the positions minimax evaluates. */
  lemma {:induction false} FullDepthLeaves(g: Square, s: State, depth: int)
    requires |s| == Size(g) && (depth < 0 || depth >= |Actions(s)|)
    ensures Leaves(g, s, depth) == Minimax.Leaves(g, s)
    decreases |Actions(s)|
  {
    if !TerminalTest(g, s) {
      var acts := Actions(s);
      assert depth != 0;
      var leavesH, leavesE := ChildLeaves(g, s, depth), Minimax.ChildLeaves(g, s);
      forall k | 0 <= k < |acts|
        ensures leavesH[k] == leavesE[k]
      {
        PlayAction(s, k);
        FullDepthLeaves(g, Result(s, acts[k]), depth - 1);
      }
      assert leavesH == leavesE;
    }
  }
}
