/** The rules of Tic-Tac-Toe (class TicTacToe of game.py): positions, legal moves,
    the move function, the value of a position for a player, and the end of the game. */
module Game {

  /** What a cell holds, which is also how the players are named: X is 1, O is -1
      and an empty cell 0, so that the other player is the negation of a player. */
  type Mark = m: int | -1 <= m <= 1

  /** One of the two players. Utilities and searches are only ever asked about X or O. */
  type Player = m: Mark | m != 0 witness 1

  /** The other player, -p. */
  function Opponent(p: Player): Player
  {
    -(p as int)
  }

  const X: Player := 1
  const O: Player := -1
  const EMPTY: Mark := 0

  const WIN: int := 1
  const LOSE: int := -1
  const DRAW: int := 0

  /** A position: the board's cells row after row, each X, O or EMPTY. */
  type State = seq<Mark>

  /** The game's configuration, fixed when the game is created (3 by 3 by default). */
  datatype TicTacToe = TicTacToe(height: int, width: int)

  /** The configurations this model covers: square boards at least 2 cells wide,
      the only ones on which the diagonal slices pick out the diagonals. */
  type Square = g: TicTacToe | g.height == g.width && g.width >= 2 witness TicTacToe(3, 3)

  /** The number of cells of a board. */
  function Size(g: Square): nat
  {
    g.height * g.width
  }

  /** The position the game starts from: every cell EMPTY. */
  function InitialState(g: Square): (s: State)
    ensures |s| == g.height * g.width
    ensures forall i :: 0 <= i < |s| ==> s[i] == EMPTY
  {
    seq(Size(g), _ => EMPTY)
  }

  // ---------------------------------------------------------------------------
  // Legal moves and the move function

  /** The legal moves: the indices of the EMPTY cells, in increasing order. */
  function Actions(s: State): (acts: seq<nat>)
    ensures forall k :: 0 <= k < |acts| ==> acts[k] < |s| && s[acts[k]] == EMPTY
    ensures forall j, k :: 0 <= j < k < |acts| ==> acts[j] < acts[k]
  {
    EmptyCellsBelowMembers(s, |s|);
    EmptyCellsBelow(s, |s|)
  }

  /** The legal moves are exactly the EMPTY cells. */
  lemma ActionsAreEmptyCells(s: State)
    ensures forall a: nat :: a in Actions(s) <==> a < |s| && s[a] == EMPTY
  {
    EmptyCellsBelowMembers(s, |s|);
  }

  /** The indices below n of the EMPTY cells, in increasing order. */
  function EmptyCellsBelow(s: State, n: nat): (acts: seq<nat>)
    requires n <= |s|
    ensures forall j :: 0 <= j < |acts| ==> acts[j] < n
    ensures forall j, k :: 0 <= j < k < |acts| ==> acts[j] < acts[k]
  {
    if n == 0 then []
    else EmptyCellsBelow(s, n - 1) + (if s[n - 1] == EMPTY then [n - 1] else [])
  }

  /** EmptyCellsBelow(s, n) holds exactly the EMPTY cells below n. */
  lemma {:induction false} EmptyCellsBelowMembers(s: State, n: nat)
    requires n <= |s|
    ensures forall a: nat :: a in EmptyCellsBelow(s, n) <==> a < n && s[a] == EMPTY
  {
    if n > 0 {
      EmptyCellsBelowMembers(s, n - 1);
    }
  }

  /** The number of cells holding mark m (Python's state.count(m)). */
  function Count(s: State, m: Mark): nat
  {
    multiset(s)[m]
  }

  /** The player to move, inferred from the marks: O when X has more marks, else X. */
  function Mover(s: State): Player
  {
    if Count(s, X) > Count(s, O) then O else X
  }

  /** The position after the mover marks cell a: a copy of s differing at a only.
      Nothing checks that cell a is EMPTY. */
  function Result(s: State, a: nat): (r: State)
    requires a < |s|
    ensures |r| == |s| && r[a] == Mover(s)
    ensures forall i :: 0 <= i < |s| && i != a ==> r[i] == s[i]
  {
    s[a := Mover(s)]
  }

  /** xs without the element a. */
  function Without(xs: seq<nat>, a: nat): seq<nat>
  {
    if xs == [] then [] else Without(xs[..|xs| - 1], a) + (if xs[|xs| - 1] == a then [] else [xs[|xs| - 1]])
  }

  /** Without removes a and keeps every other element. */
  lemma {:induction false} WithoutMembers(xs: seq<nat>, a: nat)
    ensures forall x :: x in Without(xs, a) <==> x in xs && x != a
  {
    if xs != [] {
      WithoutMembers(xs[..|xs| - 1], a);
      assert xs == xs[..|xs| - 1] + [xs[|xs| - 1]];
    }
  }

  /** Marking an EMPTY cell removes exactly that cell from the legal moves, keeping
      the order of the others; so each move leaves one legal move fewer. */
  lemma ActionsAfterResult(s: State, a: nat)
    requires a < |s| && s[a] == EMPTY
    ensures Actions(Result(s, a)) == Without(Actions(s), a)
    ensures |Actions(Result(s, a))| == |Actions(s)| - 1
  {
    EmptyCellsAfterResult(s, a, |s|);
    ActionsAreEmptyCells(s);
    WithoutLength(Actions(s), a);
  }

  /** Playing the k-th legal move fills an empty cell and leaves one legal move fewer. */
  lemma PlayAction(s: State, k: nat)
    requires k < |Actions(s)|
    ensures Actions(s)[k] < |s| && s[Actions(s)[k]] == EMPTY
    ensures |Actions(Result(s, Actions(s)[k]))| == |Actions(s)| - 1
  {
    ActionsAfterResult(s, Actions(s)[k]);
  }

  /** Every child of s has one legal move fewer than s. */
  lemma ChildrenHaveFewerMoves(s: State)
    ensures forall k :: 0 <= k < |Actions(s)| ==>
      Actions(s)[k] < |s| && |Actions(Result(s, Actions(s)[k]))| == |Actions(s)| - 1
  {
    forall k | 0 <= k < |Actions(s)|
      ensures Actions(s)[k] < |s| && |Actions(Result(s, Actions(s)[k]))| == |Actions(s)| - 1
    {
      PlayAction(s, k);
    }
  }

  /** The legal moves are listed in increasing order, so a smaller move comes first. */
  lemma ActionsInOrder(s: State, j: nat, k: nat)
    requires j < |Actions(s)| && k < |Actions(s)| && Actions(s)[j] < Actions(s)[k]
    ensures j < k
  {
  }

  lemma {:induction false} EmptyCellsAfterResult(s: State, a: nat, n: nat)
    requires a < |s| && s[a] == EMPTY && n <= |s|
    ensures EmptyCellsBelow(Result(s, a), n) == Without(EmptyCellsBelow(s, n), a)
  {
    if n > 0 {
      EmptyCellsAfterResult(s, a, n - 1);
      EmptyCellsStep(s, a, n);
    }
  }

  /** One step of EmptyCellsAfterResult: from the cells below n - 1 to those below n. */
  lemma EmptyCellsStep(s: State, a: nat, n: nat)
    requires a < |s| && s[a] == EMPTY && 0 < n <= |s|
    requires EmptyCellsBelow(Result(s, a), n - 1) == Without(EmptyCellsBelow(s, n - 1), a)
    ensures EmptyCellsBelow(Result(s, a), n) == Without(EmptyCellsBelow(s, n), a)
  {
    var r := Result(s, a);
    var prev, prevR := EmptyCellsBelow(s, n - 1), EmptyCellsBelow(r, n - 1);
    if s[n - 1] != EMPTY {
      assert r[n - 1] == s[n - 1];
      assert EmptyCellsBelow(s, n) == prev + [] == prev;
      assert EmptyCellsBelow(r, n) == prevR + [] == prevR;
    } else if n - 1 == a {
      WithoutLast(prev, n - 1, a);
      assert EmptyCellsBelow(s, n) == prev + [n - 1];
      assert EmptyCellsBelow(r, n) == prevR + [] == prevR;
    } else {
      WithoutLast(prev, n - 1, a);
      assert r[n - 1] == s[n - 1];
      assert EmptyCellsBelow(s, n) == prev + [n - 1];
      assert EmptyCellsBelow(r, n) == prevR + [n - 1];
    }
  }

  /** Removing an element from a strictly increasing list shortens it by one
      exactly when the element occurs in it. */
  lemma {:induction false} WithoutLength(xs: seq<nat>, a: nat)
    requires forall j, k :: 0 <= j < k < |xs| ==> xs[j] < xs[k]
    ensures |Without(xs, a)| == |xs| - (if a in xs then 1 else 0)
  {
    if xs != [] {
      var init, last := xs[..|xs| - 1], xs[|xs| - 1];
      assert xs == init + [last];
      WithoutLength(init, a);
      if last == a {
        assert a !in init by {
          forall j | 0 <= j < |init|
            ensures init[j] != a
          {
            assert xs[j] < xs[|xs| - 1];
          }
        }
      }
    }
  }

  lemma WithoutLast(xs: seq<nat>, y: nat, a: nat)
    ensures Without(xs + [y], a) == Without(xs, a) + (if y == a then [] else [y])
  {
    assert (xs + [y])[..|xs|] == xs;
  }

  /** Positions reached by alternating moves from the empty board: X has as many
      marks as O, or one more. */
  predicate Alternating(s: State)
  {
    Count(s, X) == Count(s, O) || Count(s, X) == Count(s, O) + 1
  }

  /** The inferred mover makes the players alternate, X first: the empty board is
      X's to move, each move on an EMPTY cell keeps the marks alternating, and it
      hands the turn to the other player. */
  lemma MoverAlternates(g: Square, s: State, a: nat)
    requires a < |s| && s[a] == EMPTY && Alternating(s)
    ensures Mover(InitialState(g)) == X && Alternating(InitialState(g))
    ensures Alternating(Result(s, a))
    ensures Mover(Result(s, a)) == Opponent(Mover(s))
  {
    var s0 := InitialState(g);
    assert forall i :: 0 <= i < |s0| ==> s0[i] != X && s0[i] != O;
    assert multiset(s0)[X] == 0 && multiset(s0)[O] == 0;
    assert multiset(Result(s, a)) == multiset(s) - multiset{EMPTY} + multiset{Mover(s)};
  }

  // ---------------------------------------------------------------------------
  // Lines of the board, as the Python slices pick them out

  /** Python's s[start:stop:step] for a positive step and stop <= |s|. */
  function Stride(s: seq<Mark>, start: nat, stop: nat, step: nat): seq<Mark>
    requires step > 0 && stop <= |s|
    decreases if start < stop then stop - start else 0
  {
    if start >= stop then [] else [s[start]] + Stride(s, start + step, stop, step)
  }

  /** Row i, s[i*width : (i+1)*width]. */
  function RowSlice(g: Square, s: seq<Mark>, i: nat): seq<Mark>
    requires |s| == Size(g) && i < g.height
  {
    RowWithinBoard(g, i);
    s[i * g.width .. (i + 1) * g.width]
  }

  /** Column i, s[i::width]. */
  function ColumnSlice(g: Square, s: seq<Mark>, i: nat): seq<Mark>
    requires |s| == Size(g) && i < g.width
  {
    Stride(s, i, |s|, g.width)
  }

  /** The main diagonal, s[::width+1]. */
  function DiagonalSlice(g: Square, s: seq<Mark>): seq<Mark>
    requires |s| == Size(g)
  {
    Stride(s, 0, |s|, g.width + 1)
  }

  /** The anti-diagonal, s[width-1:-1:width-1]. */
  function AntiDiagonalSlice(g: Square, s: seq<Mark>): seq<Mark>
    requires |s| == Size(g)
  {
    Stride(s, g.width - 1, |s| - 1, g.width - 1)
  }

  /** Every line utility scans, in the order it scans them: the rows, the columns,
      the main diagonal, the anti-diagonal. */
  function Lines(g: Square, s: seq<Mark>): seq<seq<Mark>>
    requires |s| == Size(g)
  {
    seq(g.height, i requires 0 <= i < g.height => RowSlice(g, s, i))
    + seq(g.width, i requires 0 <= i < g.width => ColumnSlice(g, s, i))
    + [DiagonalSlice(g, s), AntiDiagonalSlice(g, s)]
  }

  /** The cell in row r and column c. */
  function Cell(g: Square, s: seq<Mark>, r: nat, c: nat): Mark
    requires |s| == Size(g) && r < g.width && c < g.width
  {
    CellWithinBoard(g, r, c);
    s[r * g.width + c]
  }

  /** On a square board the slices are the board's 2*width+2 lines, each width
      cells long: line i is row i, line width+i is column i, then come the main
      diagonal (r, r) and the anti-diagonal (r, width-1-r). */
  lemma LinesShape(g: Square, s: seq<Mark>)
    requires |s| == Size(g)
    ensures |Lines(g, s)| == 2 * g.width + 2
    ensures forall j :: 0 <= j < |Lines(g, s)| ==> |Lines(g, s)[j]| == g.width
    ensures forall i, k :: 0 <= i < g.width && 0 <= k < g.width ==>
      Lines(g, s)[i][k] == Cell(g, s, i, k) && Lines(g, s)[g.width + i][k] == Cell(g, s, k, i)
    ensures forall k :: 0 <= k < g.width ==>
      Lines(g, s)[2 * g.width][k] == Cell(g, s, k, k)
      && Lines(g, s)[2 * g.width + 1][k] == Cell(g, s, k, g.width - 1 - k)
  {
    var w, lines := g.width, Lines(g, s);
    forall j | 0 <= j < |lines|
      ensures |lines[j]| == w
    {
      if j < w {
        RowShape(g, s, j);
      } else if j < 2 * w {
        ColumnShape(g, s, j - w);
      } else {
        DiagonalShapes(g, s);
      }
    }
    forall i, k | 0 <= i < w && 0 <= k < w
      ensures lines[i][k] == Cell(g, s, i, k) && lines[w + i][k] == Cell(g, s, k, i)
    {
      RowShape(g, s, i);
      ColumnShape(g, s, i);
    }
    DiagonalShapes(g, s);
  }

  lemma RowShape(g: Square, s: seq<Mark>, i: nat)
    requires |s| == Size(g) && i < g.width
    ensures |RowSlice(g, s, i)| == g.width
    ensures forall k :: 0 <= k < g.width ==> RowSlice(g, s, i)[k] == Cell(g, s, i, k)
  {
    RowWithinBoard(g, i);
  }

  lemma ColumnShape(g: Square, s: seq<Mark>, i: nat)
    requires |s| == Size(g) && i < g.width
    ensures |ColumnSlice(g, s, i)| == g.width
    ensures forall k :: 0 <= k < g.width ==> ColumnSlice(g, s, i)[k] == Cell(g, s, k, i)
  {
    var w := g.width;
    MulSucc(w - 1, w);
    StrideLength(s, i, |s|, w, w);
    forall k | 0 <= k < w
      ensures ColumnSlice(g, s, i)[k] == Cell(g, s, k, i)
    {
      StrideAt(s, i, |s|, w, k);
    }
  }

  lemma DiagonalShapes(g: Square, s: seq<Mark>)
    requires |s| == Size(g)
    ensures |DiagonalSlice(g, s)| == g.width && |AntiDiagonalSlice(g, s)| == g.width
    ensures forall k :: 0 <= k < g.width ==>
      DiagonalSlice(g, s)[k] == Cell(g, s, k, k)
      && AntiDiagonalSlice(g, s)[k] == Cell(g, s, k, g.width - 1 - k)
  {
    var w := g.width;
    SquareFacts(w);
    StrideLength(s, 0, |s|, w + 1, w);
    StrideLength(s, w - 1, |s| - 1, w - 1, w);
    forall k | 0 <= k < w
      ensures DiagonalSlice(g, s)[k] == Cell(g, s, k, k)
      ensures AntiDiagonalSlice(g, s)[k] == Cell(g, s, k, w - 1 - k)
    {
      StrideAt(s, 0, |s|, w + 1, k);
      StrideAt(s, w - 1, |s| - 1, w - 1, k);
      SquareFacts(k);
      ProductFacts(k, w);
    }
  }

  /** A slice whose start, stop and step take n steps to cover holds n cells. */
  lemma {:induction false} StrideLength(s: seq<Mark>, start: nat, stop: nat, step: nat, n: nat)
    requires step > 0 && stop <= |s| && n > 0
    requires start + (n - 1) * step < stop <= start + n * step
    ensures |Stride(s, start, stop, step)| == n
    decreases n
  {
    MulSucc(n - 1, step);
    if n > 1 {
      MulSucc(n - 2, step);
      StrideLength(s, start + step, stop, step, n - 1);
    } else {
      assert start + step >= stop;
    }
  }

  /** Element k of a slice is the cell start + k*step. */
  lemma {:induction false} StrideAt(s: seq<Mark>, start: nat, stop: nat, step: nat, k: nat)
    requires step > 0 && stop <= |s| && k < |Stride(s, start, stop, step)|
    ensures start + k * step < |s|
    ensures Stride(s, start, stop, step)[k] == s[start + k * step]
    decreases k
  {
    if k > 0 {
      StrideAt(s, start + step, stop, step, k - 1);
      MulSucc(k - 1, step);
    }
  }

  lemma MulSucc(k: int, step: int)
    ensures (k + 1) * step == k * step + step
  {
  }

  lemma SquareFacts(w: int)
    ensures (w - 1) * (w + 1) == w * w - 1 && w * (w + 1) == w * w + w
    ensures (w - 1) * (w - 1) == w * w - 2 * w + 1 && w * (w - 1) == w * w - w
  {
  }

  lemma ProductFacts(k: int, w: int)
    ensures k * (w + 1) == k * w + k && k * (w - 1) == k * w - k
  {
  }

  lemma RowWithinBoard(g: Square, i: nat)
    requires i < g.height
    ensures 0 <= i * g.width && (i + 1) * g.width <= g.height * g.width
  {
    MulLeft(i + 1, g.height, g.width);
  }

  lemma CellWithinBoard(g: Square, r: nat, c: nat)
    requires r < g.width && c < g.width
    ensures 0 <= r * g.width + c < g.height * g.width
  {
    MulLeft(r + 1, g.height, g.width);
  }

  lemma MulLeft(a: nat, b: nat, c: nat)
    requires a <= b
    ensures a * c <= b * c
  {
  }

  // ---------------------------------------------------------------------------
  // Utility and the end of the game

  /** Python's len(set(line)) == 1. */
  function AllSame(line: seq<Mark>): (same: bool)
    ensures same <==> |line| > 0 && forall k :: 0 <= k < |line| ==> line[k] == line[0]
  {
    AllSameMeansOneMark(line);
    |set m: Mark | m in line| == 1
  }

  lemma AllSameMeansOneMark(line: seq<Mark>)
    ensures |set m: Mark | m in line| == 1 <==> |line| > 0 && forall k :: 0 <= k < |line| ==> line[k] == line[0]
  {
    var marks := set m: Mark | m in line;
    if |line| > 0 && forall k :: 0 <= k < |line| ==> line[k] == line[0] {
      forall m | m in marks
        ensures m == line[0]
      {
        var k :| 0 <= k < |line| && line[k] == m;
      }
      assert marks == {line[0]};
    }
    if |marks| == 1 {
      assert |line| > 0;
      assert line[0] in marks;
      forall k | 0 <= k < |line|
        ensures line[k] == line[0]
      {
        assert line[k] in marks;
        OneElement(marks, line[0], line[k]);
      }
    }
  }

  lemma OneElement(marks: set<Mark>, x: Mark, y: Mark)
    requires |marks| == 1 && x in marks && y in marks
    ensures x == y
  {
    var rest := marks - {x};
    assert |rest| == 0;
  }

  /** A line that decides the game: all its cells hold the same player's mark. */
  predicate Decisive(line: seq<Mark>)
  {
    AllSame(line) && line[0] != EMPTY
  }

  /** Line j is the first deciding line of lines. */
  predicate FirstDecisive(lines: seq<seq<Mark>>, j: int)
  {
    0 <= j < |lines| && Decisive(lines[j]) && forall k :: 0 <= k < j ==> !Decisive(lines[k])
  }

  /** The scan of utility: the first line whose cells hold one mark decides, WIN if
      the mark is p's, LOSE if it is the other player's; lines of EMPTY cells are
      passed over; DRAW when no line decides. */
  function Scan(lines: seq<seq<Mark>>, p: Player): (u: int)
    ensures u in {WIN, LOSE, DRAW}
  {
    if lines == [] then DRAW
    else if AllSame(lines[0]) && lines[0][0] == p then WIN
    else if AllSame(lines[0]) && lines[0][0] != EMPTY then LOSE
    else Scan(lines[1..], p)
  }

  /** Scan returns DRAW exactly when no line decides, and otherwise the verdict of
      the first deciding line. */
  lemma {:induction false} ScanFirstDecisive(lines: seq<seq<Mark>>, p: Player)
    ensures Scan(lines, p) == DRAW <==> forall j :: 0 <= j < |lines| ==> !Decisive(lines[j])
    ensures forall j :: FirstDecisive(lines, j) ==> Scan(lines, p) == if lines[j][0] == p then WIN else LOSE
  {
    if lines != [] && !Decisive(lines[0]) {
      ScanFirstDecisive(lines[1..], p);
      assert forall j :: FirstDecisive(lines, j) ==> FirstDecisive(lines[1..], j - 1);
    }
  }

  /** The value of a position for player p: WIN or LOSE as decided by the first line
      (rows, then columns, then the two diagonals) that one mark fills, DRAW if none. */
  function Utility(g: Square, s: State, p: Player): (u: int)
    requires |s| == Size(g)
    ensures u in {WIN, LOSE, DRAW}
  {
    Scan(Lines(g, s), p)
  }

  /** The first line of the board that is uniform and not empty decides the game:
      WIN when p holds it, LOSE when the opponent does; without such a line the
      position is a DRAW. */
  lemma UtilityDecidedByFirstLine(g: Square, s: State, p: Player)
    requires |s| == Size(g)
    ensures Utility(g, s, p) == DRAW <==> forall j :: 0 <= j < |Lines(g, s)| ==> !Decisive(Lines(g, s)[j])
    ensures forall j :: FirstDecisive(Lines(g, s), j) ==>
      Utility(g, s, p) == if Lines(g, s)[j][0] == p then WIN else LOSE
  {
    ScanFirstDecisive(Lines(g, s), p);
  }

  /** The game is zero-sum: a position is worth to one player the negation of what
      it is worth to the other. */
  lemma UtilityAntisymmetric(g: Square, s: State, p: Player)
    requires |s| == Size(g)
    ensures Utility(g, s, p) == -Utility(g, s, Opponent(p))
  {
    ScanAntisymmetric(Lines(g, s), p);
  }

  lemma {:induction false} ScanAntisymmetric(lines: seq<seq<Mark>>, p: Player)
    ensures Scan(lines, p) == -Scan(lines, Opponent(p))
  {
    if lines != [] && !(AllSame(lines[0]) && lines[0][0] != EMPTY) {
      ScanAntisymmetric(lines[1..], p);
    }
  }

  /** Whether the game is over: no legal move is left, or utility (for X) is not DRAW. */
  predicate TerminalTest(g: Square, s: State)
    requires |s| == Size(g)
  {
    |Actions(s)| == 0 || Utility(g, s, X) != DRAW
  }

  /** The game is over exactly when every cell is marked or some line of the board
      is uniform and not empty. */
  lemma GameOver(g: Square, s: State)
    requires |s| == Size(g)
    ensures TerminalTest(g, s) <==>
      (forall i :: 0 <= i < |s| ==> s[i] != EMPTY)
      || exists j :: 0 <= j < |Lines(g, s)| && Decisive(Lines(g, s)[j])
  {
    ActionsAreEmptyCells(s);
    assert |Actions(s)| > 0 ==> Actions(s)[0] in Actions(s);
    UtilityDecidedByFirstLine(g, s, X);
  }
}
