# Tic-Tac-Toe search, modelled in Dafny

This project models the game engine and the computer players of a small Python
Tic-Tac-Toe program, and proves what they compute.

- **The game** (`game.py`, class `TicTacToe`) is modelled in module `Game`. A
  position is the board's cells row after row. `X` is 1, `O` is -1 and `EMPTY`
  is 0.
  - The legal moves are the indices of the empty cells.
  - `result` lets O move when X has more marks on the board, and X otherwise.
  - `utility` scans the rows, then the columns, then the diagonal, then the
    anti-diagonal. It stops at the first uniform line that is not empty.
  - `terminal_test` says the game is over when no cell is empty or `utility`
    is not a draw.
- **game.py's `MinMax` subclass** is a class in module `GameMinMax`. It adds
  exhaustive minimax search and the counter `num_utility`. The exact value it
  computes is specified by the functions of module `Minimax`.
- **The three players of `strategy.py`** are classes in module `Strategies`.
  Each keeps the counter `num_leafs`.
  - `MinMax` searches to the end of the game.
  - `Heuristic` searches to a fixed depth. It scores positions by
    `possible_winning_lines`, the number of lines a player can still complete.
    This search is specified in module `HeuristicSearch`.
  - `AlphaBeta` searches with a fail-soft (alpha, beta) window. Module
    `Pruning` holds its value and number of evaluated positions as functions.
    It proves the search fails soft for Heuristic's value, so both players pick
    the same move. It also proves that AlphaBeta never evaluates more positions
    than Heuristic does.
- `float('inf')` and `-float('inf')` are the `Bound` datatype of module `Bounds`.
- The Python built-ins `max`, `min` and `list.index` are in module `Builtins`.
  Its `Sum` and `Tally` add up the counts that the source's loops and counters
  accumulate: the leaves below each child, and the `cnt += 1` steps of
  `possible_winning_lines`.

Every method that changes a counter is proved against a function of its inputs.
Its postcondition gives the value it returns and the exact new value of the
counter. The lemmas state what those functions mean.

## Model

| member | source | states |
|---|---|---|
| Game.InitialState | game.py:77-78 | the start position has height*width cells, all EMPTY |
| Game.Actions | game.py:80-81 | every action is an in-board index of an EMPTY cell, and the actions are strictly increasing |
| Game.ActionsAreEmptyCells | game.py:80-81 | a is an action exactly when cell a is on the board and EMPTY |
| Game.Mover | game.py:85 | the mark that moves next: O when X has more marks, otherwise X; MoverAlternates states what this means over a game |
| Game.Result | game.py:83-87 | the new position has the same length, holds the mover's mark at the chosen cell and equals the old one everywhere else |
| Game.ActionsAfterResult | game.py:80-87 | after a move on an empty cell, the actions are the old ones without that cell, one fewer |
| Game.PlayAction | game.py:80-87 | the k-th action is an empty cell, and playing it leaves one action fewer |
| Game.MoverAlternates | game.py:77-87 | X moves first, and in a game of alternating moves each move passes the turn to the opponent |
| Game.AllSame | game.py:89-90 | a line is "all same" exactly when it is non-empty and every mark equals its first |
| Game.AllSameMeansOneMark | game.py:89-90 | the set of a line's marks has one element exactly when the line is non-empty and uniform |
| Game.Lines | game.py:94-118 | the lines utility inspects, in scan order; their meaning is stated by LinesShape |
| Game.LinesShape | game.py:94-118 | utility's slices are the board's rows, its columns, its diagonal and its anti-diagonal, in that order, each width cells long |
| Game.StrideAt | game.py:102-114 | element k of the Python slice s[start:stop:step] is s[start + k*step] |
| Game.Scan | game.py:93-120 | the scan over those lines stops at the first uniform non-empty one and returns WIN, LOSE or DRAW; UtilityDecidedByFirstLine states the result |
| Game.Utility | game.py:93-120 | utility is WIN, LOSE or DRAW |
| Game.UtilityDecidedByFirstLine | game.py:93-120 | utility is DRAW exactly when no line is uniform and non-empty; otherwise the first such line decides it, WIN when it holds the player's mark and LOSE when it holds the opponent's |
| Game.UtilityAntisymmetric | game.py:93-120 | the utility for a player is minus the utility for the opponent |
| Game.TerminalTest | game.py:122-123 | terminal_test; its meaning is stated by GameOver |
| Game.GameOver | game.py:122-123 | the game is over exactly when every cell is marked or some line is uniform and non-empty |
| Minimax.MaxValue | game.py:147-151 | max_value of exhaustive minimax; ValueIsOutcome bounds it, ZeroSum relates it to min_value, BestActionAchievesValue ties it to the chosen move |
| Minimax.MinValue | game.py:153-157 | min_value of exhaustive minimax; ValueIsOutcome and ZeroSum state what it means |
| Minimax.Leaves | strategy.py:38-56 | the number of final positions MinMax's search evaluates, at least one; Strategies.MinMax.MaxValue adds exactly this to num_leafs |
| Minimax.BestAction | game.py:143-145 | minimax returns a legal move of largest min_value, and the first one in board order on a tie |
| Minimax.BestActionAchievesValue | game.py:143-151 | the move minimax picks reaches the max_value of the position |
| Minimax.ValueIsOutcome | game.py:147-157 | the minimax values lie between LOSE and WIN |
| Minimax.ZeroSum | game.py:147-157 | max_value for a player is minus min_value for the opponent, and the other way round |
| GameMinMax.UtilityCalls | game.py:139-157 | the number of utility calls of game.py's search, at least one; UtilityCallsCoverLeaves compares it with Minimax.Leaves |
| GameMinMax.UtilityCallsCoverLeaves | game.py:139-157 | num_utility grows by at least the number of final positions the search scores, and by more when the search starts from a position with a legal move |
| GameMinMax.MinMax.constructor | game.py:135-137 | a new game has the given size and num_utility 0 |
| GameMinMax.MinMax.Utility | game.py:139-141 | the counting utility returns the game's utility and adds one to num_utility |
| GameMinMax.MinMax.TerminalTest | game.py:122-123 | terminal_test returns the end-of-game test, and counts one utility call exactly when a legal move is left |
| GameMinMax.MinMax.Minimax | game.py:143-145 | returns Minimax.BestAction; num_utility grows by the utility calls below every child |
| GameMinMax.MinMax.MaxValue | game.py:147-151 | returns the exact minimax max_value; num_utility grows by UtilityCalls |
| GameMinMax.MinMax.MinValue | game.py:153-157 | returns the exact minimax min_value; num_utility grows by UtilityCalls |
| GameMinMax.MinMax.MinValues | game.py:150 | the loop builds the list of the children's min_values, in the order of the actions |
| GameMinMax.MinMax.MaxValues | game.py:156 | the loop builds the list of the children's max_values, in the order of the actions |
| Builtins.Max | game.py:151 | max of a non-empty list is an element and is at least every element |
| Builtins.Min | game.py:157 | min of a non-empty list is an element and is at most every element |
| Builtins.ArgMax | game.py:145 | value.index(max(value)) is a largest element, and no earlier element is as large |
| Strategies.MinMax.constructor | strategy.py:8-11 | a new player keeps the game and has num_leafs 0 |
| Strategies.MinMax.Evaluation | strategy.py:38-40 | returns the utility and adds one to num_leafs |
| Strategies.MinMax.Action | strategy.py:42-44 | returns Minimax.BestAction; num_leafs grows by the final positions below every child |
| Strategies.MinMax.MaxValue | strategy.py:46-50 | returns the exact minimax max_value; num_leafs grows by the final positions below |
| Strategies.MinMax.MinValue | strategy.py:52-56 | returns the exact minimax min_value; num_leafs grows by the final positions below |
| Strategies.MinMax.MinValues | strategy.py:49 | the children's min_values in the order of the actions |
| Strategies.MinMax.MaxValues | strategy.py:55 | the children's max_values in the order of the actions |
| Strategies.MinMax.MinChild | strategy.py:49 | min_value of the i-th child, and the final positions counted below it |
| Strategies.MinMax.MaxChild | strategy.py:55 | max_value of the i-th child, and the final positions counted below it |
| HeuristicSearch.Fill | strategy.py:76 | best_state gives every EMPTY cell to the player and keeps every marked cell |
| HeuristicSearch.WinningLines | strategy.py:69-92 | possible_winning_lines as written counts at most height + width + 2 lines |
| HeuristicSearch.WinningLinesByParts | strategy.py:77-92 | the count is the rows' tests, plus the columns' tests, plus the diagonal test, plus the anti-diagonal test as written |
| Strategies.PossibleWinningLines | strategy.py:69-92 | the loops of possible_winning_lines return HeuristicSearch.WinningLines |
| HeuristicSearch.FilledLine | strategy.py:76-90 | after filling, a line is p's and uniform exactly when the opponent has no mark in it; the test of line 89 also passes when the opponent holds the whole line |
| HeuristicSearch.IntendedWinningLines | strategy.py:69-92 | the intended count is the number of lines without an opponent's mark |
| HeuristicSearch.AntiDiagonalMiscount | strategy.py:89-90 | the count as written is the intended count, plus one when the opponent holds the whole anti-diagonal |
| HeuristicSearch.WinningLinesWhilePlaying | strategy.py:89-105 | on a position where the game is not over, the count as written equals the intended count |
| HeuristicSearch.Heuristic | strategy.py:95-105 | a final position scores 100 times its utility; any other scores the player's open lines minus the opponent's |
| HeuristicSearch.HeuristicAsWritten | strategy.py:95-105 | heuristic equals the source's formula with possible_winning_lines as written |
| HeuristicSearch.HeuristicAntisymmetric | strategy.py:95-105 | the heuristic for a player is minus the heuristic for the opponent; off the end of the game it lies within ±(height + width + 2) |
| Strategies.HeuristicValue | strategy.py:95-105 | the method, calling possible_winning_lines twice, returns HeuristicSearch.Heuristic |
| HeuristicSearch.MaxValue | strategy.py:115-119 | depth-limited max_value; FullDepth ties it to exhaustive minimax and ZeroSum to min_value |
| HeuristicSearch.MinValue | strategy.py:121-125 | depth-limited min_value; FullDepth and ZeroSum state what it means |
| HeuristicSearch.Leaves | strategy.py:107-125 | the number of positions Heuristic's search evaluates, at least one; FullDepthLeaves compares it with MinMax's count |
| HeuristicSearch.Plies | strategy.py:115-125 | the look-ahead of the search is never more than depth moves, nor past the end of the game |
| HeuristicSearch.SearchAtHorizon | strategy.py:116-123 | with no look-ahead left, the search evaluates one position and max_value and min_value are its heuristic |
| HeuristicSearch.SearchBelowHorizon | strategy.py:118-124 | with look-ahead left, the search expands the position and each child's search one level shallower looks strictly fewer moves ahead |
| HeuristicSearch.BestAction | strategy.py:111-113 | Heuristic.action returns a legal move of largest depth-limited min_value, the first one on a tie |
| HeuristicSearch.ZeroSum | strategy.py:115-125 | the depth-limited max_value for a player is minus the min_value for the opponent |
| HeuristicSearch.FullDepth | strategy.py:115-125 | with a depth of at least the number of empty cells, or a negative one, the depth-limited values are 100 times the exact minimax values |
| HeuristicSearch.FullDepthLeaves | strategy.py:115-125 | with such a depth, the search evaluates the same positions as MinMax |
| Strategies.Heuristic.constructor | strategy.py:60-66 | a new player keeps the game and the depth, and has num_leafs 0 |
| Strategies.Heuristic.Evaluation | strategy.py:107-109 | returns the heuristic and adds one to num_leafs |
| Strategies.Heuristic.Action | strategy.py:111-113 | returns HeuristicSearch.BestAction; num_leafs grows by the positions evaluated below every child |
| Strategies.Heuristic.MaxValue | strategy.py:115-119 | returns the depth-limited max_value; num_leafs grows by HeuristicSearch.Leaves |
| Strategies.Heuristic.MinValue | strategy.py:121-125 | returns the depth-limited min_value; num_leafs grows by HeuristicSearch.Leaves |
| Strategies.Heuristic.MinValues | strategy.py:118 | the children's min_values one level shallower, in the order of the actions |
| Strategies.Heuristic.MaxValues | strategy.py:124 | the children's max_values one level shallower, in the order of the actions |
| Strategies.Heuristic.MinChild | strategy.py:118 | min_value of the i-th child one level shallower, and the positions evaluated below it |
| Strategies.Heuristic.MaxChild | strategy.py:124 | max_value of the i-th child one level shallower, and the positions evaluated below it |
| Bounds.MaxB | strategy.py:142-145 | max over the extended integers is one of its arguments and at least both |
| Bounds.MinB | strategy.py:153-156 | min over the extended integers is one of its arguments and at most both |
| Bounds.MaxStep | strategy.py:141-145 | one child of max_value keeps the fail-soft property of the running maximum |
| Bounds.MinStep | strategy.py:152-156 | one child of min_value keeps the fail-soft property of the running minimum |
| Bounds.CutoffAbove | strategy.py:143-144 | a value that reaches beta still fails soft for any larger exact value |
| Bounds.CutoffBelow | strategy.py:154-155 | a value that falls to alpha still fails soft for any smaller exact value |
| Pruning.MaxAB | strategy.py:137-146 | AlphaBeta's max_value and the positions it evaluates; MaxABFailSoft and MaxABLeaves state what they mean |
| Pruning.MaxLoop | strategy.py:140-146 | the rest of max_value's loop from the i-th child; MaxLoopFailSoft and MaxLoopLeaves state what it means |
| Pruning.MinAB | strategy.py:148-157 | AlphaBeta's min_value and the positions it evaluates; MinABFailSoft and MinABLeaves state what they mean |
| Pruning.MinLoop | strategy.py:151-157 | the rest of min_value's loop from the i-th child; MinLoopFailSoft and MinLoopLeaves state what it means |
| Pruning.MaxABFailSoft | strategy.py:137-146 | with alpha < beta, max_value's result equals Heuristic's max_value when that lies inside the window, is at most alpha when the value is, and at least beta when the value is |
| Pruning.MinABFailSoft | strategy.py:148-157 | the same fail-soft property for min_value against Heuristic's min_value |
| Pruning.MaxLoopFailSoft | strategy.py:140-146 | from any child on, the rest of max_value's loop fails soft for the largest child value |
| Pruning.MinLoopFailSoft | strategy.py:151-157 | from any child on, the rest of min_value's loop fails soft for the smallest child value |
| Pruning.MaxCutoff | strategy.py:143-144 | leaving max_value's loop early at beta fails soft for the value of the whole node |
| Pruning.MinCutoff | strategy.py:154-155 | leaving min_value's loop early at alpha fails soft for the value of the whole node |
| Pruning.FullWindowExact | strategy.py:133-157 | searched with (-inf, inf), max_value and min_value return exactly Heuristic's values |
| Pruning.RootChild | strategy.py:133-134 | each child as AlphaBeta.action searches it gets the value Heuristic.action computes for it |
| Pruning.MaxABLeaves | strategy.py:137-146 | max_value evaluates at least one position and no more than Heuristic's max_value does |
| Pruning.MinABLeaves | strategy.py:148-157 | min_value evaluates at least one position and no more than Heuristic's min_value does |
| Pruning.MaxLoopLeaves | strategy.py:140-146 | max_value's loop evaluates at least one position and no more than Heuristic does below all the children |
| Pruning.MinLoopLeaves | strategy.py:151-157 | min_value's loop evaluates at least one position and no more than Heuristic does below all the children |
| Pruning.MinChildLeaves | strategy.py:142 | the search of one child from max_value's loop evaluates at least one position and no more than Heuristic does below that child |
| Pruning.MaxChildLeaves | strategy.py:153 | the search of one child from min_value's loop evaluates at least one position and no more than Heuristic does below that child |
| Pruning.RootLeavesAtMost | strategy.py:132-135 | AlphaBeta.action evaluates no more positions than Heuristic.action, and at least one when a move is left |
| Strategies.AlphaBeta.constructor | strategy.py:129-130 | a new player keeps the game and the depth, and has num_leafs 0 |
| Strategies.AlphaBeta.Evaluation | strategy.py:107-109 | returns the heuristic and adds one to num_leafs |
| Strategies.AlphaBeta.Action | strategy.py:132-135 | returns the same move as Heuristic.action; num_leafs grows by at least one and by no more than Heuristic.action's count |
| Strategies.AlphaBeta.RootValues | strategy.py:133-134 | the children's values with the whole window are Heuristic's min_values of the children |
| Strategies.AlphaBeta.RootChild | strategy.py:133 | one child's value with the whole window is Heuristic's min_value of that child |
| Strategies.AlphaBeta.MaxValue | strategy.py:137-146 | returns Pruning.MaxAB, which fails soft for Heuristic's max_value; num_leafs grows by its count |
| Strategies.AlphaBeta.MaxOverChildren | strategy.py:140-146 | the loop, with its cutoff at beta, returns Pruning.MaxLoop from the first child with v = -inf |
| Strategies.AlphaBeta.MinValue | strategy.py:148-157 | returns Pruning.MinAB, which fails soft for Heuristic's min_value; num_leafs grows by its count |
| Strategies.AlphaBeta.MinOverChildren | strategy.py:151-157 | the loop, with its cutoff at alpha, returns Pruning.MinLoop from the first child with v = inf |
| Strategies.AlphaBeta.MinChild | strategy.py:142 | min_value of the i-th child with the current window, and the positions it evaluates |
| Strategies.AlphaBeta.MaxChild | strategy.py:153 | max_value of the i-th child with the current window, and the positions it evaluates |

The lemmas `Bounds.FullWindow`, `Pruning.MaxLoopStep`, `Pruning.MinLoopStep`,
`Pruning.MaxLoopDone`, `Pruning.MinLoopDone` and `Pruning.LeavesSoFarNext` are
proof steps: each unfolds one turn of a loop or one window for the theorems
above (`Pruning.MaxABFailSoft`, `Pruning.FullWindowExact`,
`Pruning.RootLeavesAtMost`). The ghost functions `ListedMinValues`,
`ListedMaxValues`, `ListedLeaves`, `MinChildSearch` and `MaxChildSearch` are
proof aids that name a recursive function's result without unfolding it.

## Left out

- `print_state` and the `__main__` blocks of both files are not modelled. They are console I/O, a game loop and wall-clock timing.
- `@cache` on `possible_winning_lines` and `heuristic` is not modelled. As written, the cache rejects game.py's `array` states with `TypeError`, since an `array` cannot be hashed. The model assumes hashable states and does not capture that failure.
- strategy.py:5 imports `State`, `Player`, `Action` and `Utility`, which game.py defines only in lower case (game.py:4-7), so strategy.py fails to import as written. The model assumes these names resolve to game.py's `state`, `player`, `action` and `utility`.
- The abstract base classes `Game` and `Strategy.action`/`Strategy.evaluation` are not modelled. They only declare an interface.
- `Strategy.__getattr__` delegates to the game. Here each strategy keeps the board configuration and calls the `Game` functions directly. So a strategy built on a game.py `MinMax` object does not also raise that object's `num_utility`.
- Boards are square and at least 2 wide (`Game.Square`). On a board 1 wide, the anti-diagonal slice `state[0:-1:0]` has step 0, and Python raises `ValueError` from `utility`. On boards that are not square, the diagonal slices do not pick out the diagonals.
- Default arguments (`size=(3, 3)`, `depth=3`) are not modelled. The constructors take both values explicitly.
- `Game.Result` takes the action as a `nat` below the board size. Negative actions are excluded by the type: for -len(state) <= a < 0 Python writes the cell counted from the end instead. Python raises `IndexError` only for a >= len(state) or a < -len(state). A move onto a marked cell is modelled: it overwrites the cell, as the source does.
- Cells hold only X, O and EMPTY, and the searches are asked only about X or O (`Game.Player`). The byte array of the source could hold other values.
- The `action` methods of the strategies and `GameMinMax.MinMax.Minimax` require a legal move to be left. On a full board the source raises `ValueError` from `max([])`.
- Integer and float arithmetic is not modelled at machine width. Python integers are unbounded, and the only floats are the infinities, which are `Bounds.Bound`.

## Findings

| source | as written | input that shows it | evidently intended | confidence | as-written member | corrected member |
|---|---|---|---|---|---|---|
| strategy.py:89-90 | the anti-diagonal is counted when `best_state[width - 1]` is any mark and the line is uniform, so a line held entirely by the opponent counts for the player | 3x3 board with O on cells 2, 4 and 6 and every other cell EMPTY, player X: the count as written includes the anti-diagonal, which X cannot complete | test `best_state[width - 1] == player`, as the rows, columns and diagonal do | not executed; heuristic only calls the count on positions where the game is not over, where the two agree (`HeuristicSearch.WinningLinesWhilePlaying`) | HeuristicSearch.AntiDiagonalMiscount | HeuristicSearch.IntendedWinningLines |
