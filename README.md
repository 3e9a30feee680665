# Verified model of the puzzle solvers

This project models the solvers of a collection of puzzle games and benchmark
scripts: crossword filling, Sudoku, N-Queens, maze search and graph colouring.
Each solver checks a candidate against the current state, writes it into a
grid or array in place, recurses, and restores the state when the branch fails.
The model follows the same structure at two levels.

- A pure function or recursive family of functions follows each search on
  values, branch for branch, with the same loop order and counters.
  For example: `Crossword.SolveFrom`, `Sudoku.Solve`, `NQueens.Backtrack`,
  `NQueensComparison.Search` and `Bfs`, `Maze.Solve`, `Coloring.Search`.
  Lemmas about these functions state what the searches promise:
  - soundness;
  - completeness;
  - exact undo;
  - search order;
  - step and backtrack counts;
  - agreement between the solvers.
- Imperative Dafny works on the `array2` boards, arrays and solver objects
  that the source mutates. The solver objects are `Crossword.Solver`,
  `CrosswordGame.GameSolver`, `NQueens.NQueensSolver` and `Maze.MazeGame`.
  The loops become `while` loops with invariants. Each method's `ensures` ties
  its result and the state it leaves to the pure function.

Modules and the source files they follow:

| module | source |
|---|---|
| `Common`, `Grids` | shared vocabulary: `Option`, `Abs`, finite-set facts, the `Cells` snapshot of an `array2` |
| `Crossword` | crossword.py, and the identical base class and backtracking/brute-force `solve` of crosswod_comparison.py |
| `CrosswordComparison` | the greedy solver of crosswod_comparison.py |
| `CrosswordGame` | games/crossword.py: the dictionary run-scan, `word_positions`, `highlight_intersections` |
| `Sudoku` | games/sudoku.py (N x N) and sudoku.py (the instance N = 9) |
| `SudokuComparison` | games/sudoku_comparison.py |
| `NQueens` | games/n_queens.py |
| `NQueensComparison` | games/n_queens_comparison.py |
| `Maze` | games/maze.py, `solve_maze` |
| `MazeComparison` | maze_comparison.py |
| `Coloring` | graph_coloring_compare.py, graph_coloring.py, games/graph_coloring.py |

The model keeps these quirks of the source as written:

- **Crossword dictionary guard.** In `check_intersections` this guard always
  holds (`CrosswordGame.Checked`), so the new word's own run is looked up
  too.
- **Maze abandoned cells.** `solve_maze` marks an abandoned cell '.' instead
  of restoring '-'. A later branch therefore never enters it again.
- **Start cell in `backtracking`.** The visited-set search of
  maze_comparison.py exempts the start cell from the visited check, so the
  start can occur more than once on the path (`MazeComparison.Trail`).
- **Benchmark-wrapped Sudoku solvers.** `solve_dfs` and `solve_mrv` test
  `solve_dfs(board)[0]`, the first component of the benchmark wrapper's
  pair. That component is always truthy, so these solvers never take a
  digit back (`SudokuComparison.GreedyNeverUndoes`).
- **N-Queens leaf.** At a full board `_backtrack` does not return. It falls
  through to the column loop, which counts `n` more steps and places
  nothing (`NQueens.ProbesAtLeaf`).
- **Identical copies.** Where the source repeats the same code in several
  files, one Dafny member models all the copies. Its row in the table below
  cites one copy and names the others in its third column.

## Model

| member | source | states |
|---|---|---|
| Coloring.NoConflictFrom | graph_coloring_compare.py:8-11 | the neighbour scan from `v` on is true exactly when no later neighbour of `node` holds `color` |
| Coloring.IsValidColoring | graph_coloring_compare.py:7-11 | true exactly when no vertex `v` with `graph[node][v] == 1` has `colors[v] == color`; the copy at graph_coloring.py:4-8 and the copy at games/graph_coloring.py:64-68 are the same code |
| Coloring.Search | graph_coloring_compare.py:13-22 | the backtracking search keeps the array length and never changes a vertex before `node` |
| Coloring.TryColors | graph_coloring_compare.py:16-22 | the colour loop keeps the array length and the colours of the vertices before `node` |
| Coloring.SearchFailureRestores | graph_coloring_compare.py:20-22 | with the vertices from `node` on uncoloured, a failed search leaves exactly the input array (each tried colour is reset to 0) |
| Coloring.TryFailureRestores | graph_coloring_compare.py:16-22 | the same restore property for the colour loop from any colour on |
| Coloring.SearchSuccess | graph_coloring_compare.py:13-22 | a successful search keeps the vertices before `node` and gives every later vertex a colour in 1..m differing from all its earlier neighbours |
| Coloring.TrySuccess | graph_coloring_compare.py:16-20 | the same success property for the colour loop |
| Coloring.SearchComplete | graph_coloring_compare.py:13-22 | the search is exhaustive: if any completion of the uncoloured vertices exists, it succeeds |
| Coloring.TryComplete | graph_coloring_compare.py:16-22 | the colour loop succeeds when a completion uses a colour not below the current one |
| Coloring.SearchDecides | graph_coloring.py:68-79 | from all-zero colours: success iff an m-colouring exists, the result is one, and a failure leaves all zeros |
| Coloring.ForwardProperIsProper | graph_coloring_compare.py:13-22 | on a symmetric matrix with colours in 1..m, the colourings the search accepts are exactly the proper colourings |
| Coloring.SolveGraphColoring | graph_coloring_compare.py:13-22 | `solve_graph_coloring_backtracking` in place: result flag and final array are those of `Search` on the input array; `solve_graph_coloring` with `visualize=False` (graph_coloring.py:45-66) and the console and pygame solvers (games/graph_coloring.py:70-105) make the same writes and resets, drawing aside |
| Coloring.GraphColoring | graph_coloring.py:68-79 | returns a value iff an m-colouring exists; the value is the colouring the search found, each vertex in 1..m and different from its earlier neighbours |
| Coloring.Palette | graph_coloring_compare.py:28 | exactly the colours 1..m |
| Coloring.FreeShrinks | graph_coloring_compare.py:27-36 | colouring more vertices only removes colours from a vertex's free set |
| Coloring.Dfs | graph_coloring_compare.py:27-36 | the nested `dfs(u)` gives `u` the least colour no neighbour holds (0 when none is free), never recolours a vertex, keeps colours in 0..m and keeps coloured neighbours distinct on a symmetric matrix |
| Coloring.DfsColoring | graph_coloring_compare.py:24-40 | every colour is in 0..m, a vertex left 0 has no free colour, and on a symmetric matrix coloured neighbours differ |
| Coloring.GreedyColoring | graph_coloring_compare.py:42-55 | `None` exactly on the empty graph (the IndexError); otherwise vertex 0 gets 0, each later vertex the least non-negative colour not held by an earlier neighbour, so `result[u] <= u`, and the result is proper on a symmetric matrix |
| Sudoku.Isqrt | games/sudoku.py:12 | `int(size**0.5)` as the integer square root: `s*s <= n < (s+1)*(s+1)` |
| Sudoku.Base | games/sudoku.py:11-12 | the box side of a well-formed board squares to its side |
| Sudoku.NineHasBase3 | sudoku.py:14 | the 9 x 9 board has box side 3 |
| Sudoku.BoxStart | games/sudoku.py:16-17 | the start of the box holding `x` lies at most `base - 1` below `x` |
| Sudoku.BoxStart3 | sudoku.py:14 | for side 3 the box start is `3 * (x // 3)` |
| Sudoku.BoxInBounds | games/sudoku.py:16-19 | a box that starts inside the board ends inside it |
| Sudoku.SameBox | games/sudoku.py:16-19 | every cell of a box has that box's start |
| Sudoku.ScanLinesMeans | games/sudoku.py:13-15 | the row and column scan from `i` on is true exactly when `num` is in neither the row nor the column at those indices (the target cell included) |
| Sudoku.ScanBoxRowMeans | games/sudoku.py:19-21 | the scan of one box row is true exactly when `num` is absent from the remaining columns |
| Sudoku.ScanBoxMeans | games/sudoku.py:18-21 | the box scan is true exactly when `num` is absent from the remaining box rows |
| Sudoku.IsValidMeans | games/sudoku.py:10-22 | `is_valid` is true exactly when `num` is absent from the row, the column and the `base x base` box of the cell |
| Sudoku.IsValid9 | sudoku.py:9-21 | the 9 x 9 check is true exactly when `num` is absent from the row, the column and the block starting at `3*(row//3)`, `3*(col//3)` |
| Sudoku.ZeroCells | games/sudoku.py:24-30 | the set of cells holding 0 |
| Sudoku.FullHasNoZeroCells | games/sudoku.py:43-45 | a full board has no empty cell |
| Sudoku.FindInRow | games/sudoku.py:27-29 | a cell found in a row is an empty cell of that row at or after `col` |
| Sudoku.FindInRowMeans | games/sudoku.py:27-29 | the row scan finds nothing exactly when the rest of the row is filled, and otherwise the cells it skipped are filled |
| Sudoku.FindFromRow | games/sudoku.py:26-30 | a cell found from row `row` on is an empty cell in those rows |
| Sudoku.FindFromRowMeans | games/sudoku.py:26-30 | the scan from a row on finds nothing exactly when those rows are filled, otherwise every earlier cell in row-major order is filled |
| Sudoku.FindEmptyCell | games/sudoku.py:24-30 | a returned cell is on the board and holds 0 |
| Sudoku.FindEmptyCellMeans | games/sudoku.py:24-30 | `None` exactly on a full board; otherwise the first 0 cell in row-major order; the 9 x 9 copy at sudoku.py:23-28 is the same scan |
| Sudoku.WriteShrinksZeros | games/sudoku.py:50 | writing a digit into an empty cell removes one empty cell (the search's termination measure) |
| Sudoku.Solve | games/sudoku.py:42-54 | `solve_backtracking` on values: keeps the board square and, on failure, returns the input board |
| Sudoku.TryDigits | games/sudoku.py:48-54 | the digit loop keeps the board square and, on failure, returns the input board |
| Sudoku.TryDigitsUnfold | games/sudoku.py:48-54 | one turn of the digit loop: a rejected digit is skipped; an accepted one is written, kept on success, and reset to 0 before the next digit on failure, with the writes recorded in that order |
| Sudoku.TryDigitsStep | games/sudoku.py:48-54 | the same turn seen through the result flag and board |
| Sudoku.KeepsCluesThroughWrite | games/sudoku.py:50 | writing into an empty cell keeps every filled cell |
| Sudoku.InRangeAfterWrite | games/sudoku.py:48-50 | writing a digit 1..N keeps every cell in 0..N |
| Sudoku.SolveFills | games/sudoku.py:42-54 | the fill never changes a filled cell, writes only digits 1..N, and a true result leaves no 0 cell |
| Sudoku.TryDigitsFills | games/sudoku.py:48-54 | the same for the digit loop |
| Sudoku.FreeDiffers | games/sudoku.py:10-22 | a digit `is_valid` accepts differs from every other cell in the row, column and box |
| Sudoku.ValidWriteKeepsUnique | games/sudoku.py:49-50 | after an accepted write, every other filled cell still has a value unique in its row, column and box |
| Sudoku.ValidWriteKeepsConsistent | games/sudoku.py:49-50 | a write `is_valid` accepts keeps a consistent board consistent |
| Sudoku.SolveKeepsConsistent | games/sudoku.py:42-54 | every board the search returns is consistent when its input is |
| Sudoku.TryDigitsKeepsConsistent | games/sudoku.py:48-54 | the same for the digit loop |
| Sudoku.SolveSound | games/sudoku.py:42-54 | on a consistent board with digits in range, a true result is a solution that keeps every clue |
| Sudoku.SolutionDigitIsValid | games/sudoku.py:49 | the digit a solution puts into an empty cell passes `is_valid` |
| Sudoku.SolutionThroughWrite | games/sudoku.py:50 | a solution stays a solution after its digit is written into an empty cell |
| Sudoku.SolveComplete | games/sudoku.py:42-54 | the search is exhaustive: if a solution exists the fill succeeds |
| Sudoku.TryDigitsComplete | games/sudoku.py:48-54 | the digit loop succeeds when a solution's digit is not below the current one |
| Sudoku.SolveDecides | games/sudoku.py:42-54 | on a consistent board with digits in range: success iff a solution exists, and the returned board is one |
| Sudoku.Replay | games/sudoku.py:50-53 | replaying writes keeps the board square |
| Sudoku.ReplayAppend | games/sudoku.py:50-53 | replaying two write lists in turn is replaying their concatenation |
| Sudoku.ReplayOne | games/sudoku.py:50 | replaying one in-bounds write first is applying it, then the rest |
| Sudoku.SolveReplays | games/sudoku.py:42-54 | the recorded writes, replayed in order on the input, give exactly the returned board |
| Sudoku.TryDigitsReplays | games/sudoku.py:48-54 | the same for the digit loop |
| Sudoku.SolveBacktracking | games/sudoku.py:42-54 | the in-place fill: result flag and final board are those of `Solve` on the input |
| Sudoku.SolveBacktracking9 | sudoku.py:40-51 | the 9 x 9 fill: the same search, flag and board |
| Sudoku.VisualTurn | games/sudoku.py:81-90 | one turn of the visual digit loop: the written, kept or reset digit extends the shown writes exactly as `Solve` records them |
| Sudoku.VisualSolve | games/sudoku.py:75-91 | `visual_solve_console`: the flag, final board and shown writes are those of `Solve`, so it makes the same writes as `solve_backtracking`; `visual_solve_pygame` (games/sudoku.py:142-161) and the 9 x 9 `visual_solve_console` (sudoku.py:72-87) make the same writes, drawing aside |
| SudokuComparison.CountFrom | games/sudoku_comparison.py:203 | the count from digit `num` on is at most the number of digits left to try |
| SudokuComparison.CountFromMeans | games/sudoku_comparison.py:203 | the count from `num` on equals the number of digits `num`..N that `is_valid` accepts |
| SudokuComparison.CountValidOptions | games/sudoku_comparison.py:201-203 | `count_valid_options` lies in 0..N |
| SudokuComparison.CountValidOptionsMeans | games/sudoku_comparison.py:201-203 | it equals the number of digits 1..N `is_valid` accepts, and is 0 exactly when no digit is valid |
| SudokuComparison.MrvFrom | games/sudoku_comparison.py:209-218 | a cell the scan returns is an empty cell of the board |
| SudokuComparison.MrvCell | games/sudoku_comparison.py:205-218 | `find_empty_cell_mrv` returns, if anything, an empty cell |
| SudokuComparison.MrvStopsAtOne | games/sudoku_comparison.py:216-217 | stopping at the first cell with one option meets the picker's promise |
| SudokuComparison.MrvTakes | games/sudoku_comparison.py:213-215 | a strictly smaller count replaces the best cell and the scan invariant holds at the next cell |
| SudokuComparison.MrvSkips | games/sudoku_comparison.py:211-213 | a filled cell, or one without a strictly smaller count, keeps the scan invariant |
| SudokuComparison.MrvNextRow | games/sudoku_comparison.py:209-210 | the invariant carries from the end of a row to the start of the next |
| SudokuComparison.MrvEnd | games/sudoku_comparison.py:218 | at the end of the board the best cell so far meets the picker's promise |
| SudokuComparison.MrvFromMeans | games/sudoku_comparison.py:209-218 | from any scan state meeting the invariant, the scan's answer meets the picker's promise |
| SudokuComparison.MrvCellStep | games/sudoku_comparison.py:211-217 | the same for one cell of the scan |
| SudokuComparison.MrvCellMeans | games/sudoku_comparison.py:205-218 | `None` exactly on a full board; otherwise an empty cell with fewer options than every earlier empty cell (and more than one option there), and, unless its count is 1, no empty cell has fewer |
| SudokuComparison.FindEmptyCellMrv | games/sudoku_comparison.py:205-218 | the loop with `min_options` and `best_cell` returns what the scan function specifies |
| SudokuComparison.NextCell | games/sudoku_comparison.py:187-222 | either picker, `find_empty_cell` (line 187) or `find_empty_cell_mrv` (line 222), returns, if anything, an empty cell |
| SudokuComparison.NextCellNoneIffFull | games/sudoku_comparison.py:187-189 | either picker returns `None` exactly on a full board |
| SudokuComparison.UndoKeepsZeros | games/sudoku_comparison.py:197 | taking back a digit never adds more empty cells than the board had |
| SudokuComparison.GreedySolve | games/sudoku_comparison.py:185-198 | `solve_dfs`/`solve_mrv` on values never add empty cells and keep the board square |
| SudokuComparison.GreedyDigits | games/sudoku_comparison.py:192-198 | the digit loop never adds empty cells and keeps the board square |
| SudokuComparison.GreedySolveTruthy | games/sudoku_comparison.py:170-198 | the inner result is `True`, `(True, 0)` or `(False, 0)`, so it is always truthy |
| SudokuComparison.GreedyDigitsTruthy | games/sudoku_comparison.py:192-198 | the digit loop answers `(True, 0)` or `(False, 0)` |
| SudokuComparison.GreedyNeverUndoes | games/sudoku_comparison.py:193-197 | once a digit passes `is_valid` the loop answers `(True, 0)` with the recursive board; the reset at line 197 is never reached |
| SudokuComparison.GreedySolveFills | games/sudoku_comparison.py:185-198 | the fill keeps every clue, writes only digits in range, keeps a consistent board consistent, and ends full or stuck at a cell with no valid digit |
| SudokuComparison.GreedyDigitsFills | games/sudoku_comparison.py:192-198 | the same for the digit loop |
| SudokuComparison.GreedyValue | games/sudoku_comparison.py:185-198 | the result is `True` exactly on a full board, `(False, 0)` exactly when the chosen cell has no valid digit, and then the board is unchanged |
| SudokuComparison.GreedyDigitsValue | games/sudoku_comparison.py:192-198 | the loop answers `(False, 0)` exactly when no digit from `num` on is valid, then leaving the board unchanged |
| SudokuComparison.GreedySound | games/sudoku_comparison.py:185-198 | on a consistent board with digits in range, a full final board is a solution |
| SudokuComparison.Trap | games/sudoku_comparison.py:185-198 | a well-formed 4 x 4 board |
| SudokuComparison.TrapSolution | games/sudoku_comparison.py:185-198 | a square 4 x 4 board |
| SudokuComparison.GreedyMissesSolution | games/sudoku_comparison.py:195-197 | a board with a solution, which the backtracking fill solves, on which `solve_dfs` ends with an empty cell |
| SudokuComparison.TrapFirstWrite | games/sudoku_comparison.py:187-194 | on that board the first empty cell is (2, 1) and digit 1 is valid there |
| SudokuComparison.TrapStuck | games/sudoku_comparison.py:187-198 | after that write the next empty cell (2, 3) has no valid digit |
| SudokuComparison.TrapSolved | games/sudoku_comparison.py:185-198 | the trap board has a solution |
| SudokuComparison.GreedyTurn | games/sudoku_comparison.py:194-197 | one turn of the digit loop: a truthy recursive result ends the loop with `(True, 0)`; otherwise the reset board continues with the next digit |
| SudokuComparison.GreedySkip | games/sudoku_comparison.py:193 | a rejected digit is skipped |
| SudokuComparison.GreedySearch | games/sudoku_comparison.py:185-198 | the in-place solver returns the inner value and board of `GreedySolve` |
| SudokuComparison.GreedyTurnOnBoard | games/sudoku_comparison.py:193-197 | one turn of the in-place digit loop, against `GreedyDigits` |
| SudokuComparison.SolveDfs | games/sudoku_comparison.py:185-198 | `solve_dfs` is the greedy fill with `find_empty_cell` |
| SudokuComparison.SolveMrv | games/sudoku_comparison.py:220-233 | `solve_mrv` is the greedy fill with `find_empty_cell_mrv` |
| SudokuComparison.SolveBacktrackingReported | games/sudoku_comparison.py:179-182 | the wrapped `solve_backtracking` reports `True` whatever the fill gives, and leaves the board the fill leaves |
| NQueens.SafeFromMeans | games/n_queens.py:56-61 | the scan from row `i` on is true exactly when no queen in rows `i`..`row-1` shares the column or a diagonal (`abs` of the differences) with (`row`, `col`) |
| NQueens.IsSafeMeans | games/n_queens.py:52-61 | `_is_safe` is true exactly when, for every `i < row`, `board[i] != col` and `abs(board[i]-col) != abs(i-row)` |
| NQueens.IsSafePrefix | games/n_queens.py:56 | `_is_safe` reads only the rows above `row` |
| NQueens.SafeExtends | games/n_queens.py:44-45 | a column is safe exactly when writing it extends the placement to a placement |
| NQueens.NoClashExtends | games/n_queens.py:44-45 | a non-attacked column extends a placement |
| NQueens.ExtensionHasNoClash | games/n_queens.py:44-45 | only a non-attacked column extends a placement |
| NQueens.CompletionsShape | games/n_queens.py:40-47 | every completion has `n` rows and extends the current placement |
| NQueens.CompletionsFromShape | games/n_queens.py:42-47 | the completions from column `c` on put the next queen at `c` or later |
| NQueens.CompletionsSound | games/n_queens.py:40-47 | every completion is a placement: distinct columns in 0..n-1, no shared diagonal |
| NQueens.CompletionsFromSound | games/n_queens.py:42-47 | the same from column `c` on |
| NQueens.CompletionsComplete | games/n_queens.py:40-47 | every placement of `n` queens extending the current one is a completion |
| NQueens.CompletionsFromComplete | games/n_queens.py:42-47 | the same from column `c` on |
| NQueens.PrefixPlacement | games/n_queens.py:44 | every prefix of a placement is a placement |
| NQueens.LexSortedAppend | games/n_queens.py:42 | sorted lists, each element of the first before each of the second, concatenate to a sorted list |
| NQueens.CompletionsSorted | games/n_queens.py:42 | the completions come out in strictly increasing lexicographic order |
| NQueens.CompletionsFromSorted | games/n_queens.py:42 | the same from column `c` on |
| NQueens.AllSolutions | games/n_queens.py:24-34 | the solutions of the empty board are exactly the placements of `n` queens, in lexicographic order |
| NQueens.Columns | games/n_queens.py:42 | exactly the `n` columns 0..n-1 |
| NQueens.ColumnsUsedCard | games/n_queens.py:57-58 | `k` distinct column entries use `k` columns |
| NQueens.FullCovers | games/n_queens.py:40-44 | with a queen in every row every column is taken |
| NQueens.LeafHasNoSafeColumn | games/n_queens.py:40-44 | at a complete board `_is_safe` rejects every column, so the leaf's fall-through loop only counts steps |
| NQueens.PlusAssoc | games/n_queens.py:41-50 | adding counter contributions is associative |
| NQueens.PlusNothing | games/n_queens.py:41-50 | adding nothing leaves the counters |
| NQueens.EmptyPlus | games/n_queens.py:28-30 | counters reset to zero then increased equal the increase |
| NQueens.Pad | games/n_queens.py:31 | a placement padded with -1 to `n` rows keeps its rows and is blank below |
| NQueens.PadNext | games/n_queens.py:45 | writing the next row of a padded placement pads the extended placement |
| NQueens.ProbesAtLeaf | games/n_queens.py:40-44 | at a complete board the column loop finds nothing and costs one step per column |
| NQueens.BacktrackCounts | games/n_queens.py:36-50 | from a placement, `_backtrack` appends exactly its completions, adds `n` steps per node of its search tree and one backtrack per node below it |
| NQueens.ProbesCounts | games/n_queens.py:42-50 | the same for the column loop from column `c` on |
| NQueens.Distribute | games/n_queens.py:43 | multiplication distributes over the step counts |
| NQueens.SolveCounts | games/n_queens.py:24-50 | from the blank board, the solutions are all placements, `steps_count` is `n` times the search-tree size and `backtracks_count` is the number of accepted placements |
| NQueens.FourQueensFrom0 | games/n_queens.py:42 | no 4-queens solution starts in column 0 |
| NQueens.FourQueensFrom1 | games/n_queens.py:42 | the only one starting in column 1 is `[1,3,0,2]` |
| NQueens.FourQueensFrom2 | games/n_queens.py:42 | the only one starting in column 2 is `[2,0,3,1]` |
| NQueens.FourQueensFrom3 | games/n_queens.py:42 | none starts in column 3 |
| NQueens.FourQueens | games/n_queens.py:24-34 | for n = 4 the solutions are `[[1,3,0,2],[2,0,3,1]]`, in that order |
| NQueens.NQueensSolver.constructor | games/n_queens.py:15-22 | no solutions, zero counters, no current state |
| NQueens.NQueensSolver.Solve | games/n_queens.py:24-34 | resets solutions and counters, then leaves exactly what `_backtrack` gives from the blank board, whatever an earlier call left; returns the solutions; the current state is the blank board again |
| NQueens.NQueensSolver.BacktrackOn | games/n_queens.py:36-50 | `_backtrack` on the board list adds the contributions of `Backtrack` and leaves the board as it found it |
| NQueens.NQueensSolver.ProbeOn | games/n_queens.py:43-50 | one column probe adds one step and, for a safe column, the search below it and one backtrack; the board is restored |
| NQueens.NQueensSolver.GetStatistics | games/n_queens.py:63-71 | `solutions_count` is the number of solutions; steps and backtracks are the counters |
| NQueensComparison.Stats | games/n_queens_comparison.py:96-100 | the statistics carry the step count, the backtrack count and the number of solutions |
| NQueensComparison.RowClearMeans | games/n_queens_comparison.py:35-37 | the first loop of `is_safe` is true exactly when no cell left of (`row`, `col`) on its row holds 1 |
| NQueensComparison.UpLeftClearMeans | games/n_queens_comparison.py:38-40 | the second loop is true exactly when no cell on the up-left diagonal through (`row`, `col`), the cell itself included, holds 1 |
| NQueensComparison.DownLeftClearMeans | games/n_queens_comparison.py:41-43 | the third loop is true exactly when no cell on the down-left diagonal through (`row`, `col`) holds 1 |
| NQueensComparison.IsSafeCellMeans | games/n_queens_comparison.py:30-44 | `is_safe` is true exactly when no queen in the columns up to `col` shares the row or a diagonal with (`row`, `col`) |
| NQueensComparison.Encode | games/n_queens_comparison.py:54 | the board of a column-by-column placement is `n` by `n` |
| NQueensComparison.EncodeZeroFrom | games/n_queens_comparison.py:92-95 | the board of a placement of the first `k` columns is empty from column `k` on |
| NQueensComparison.EncodeNext | games/n_queens_comparison.py:70 | writing a 1 at (`row`, `k`) gives the board of the placement extended by `row` |
| NQueensComparison.EncodeSafe | games/n_queens_comparison.py:69 | on the board of a placement, the free-row test and `is_safe` together accept exactly the rows that extend the placement to a placement |
| NQueensComparison.IndexOfMeans | games/n_queens_comparison.py:61-64 | the first index that holds `v`, or the length when `v` does not occur |
| NQueensComparison.MapInverseAppend | games/n_queens_comparison.py:65 | inverting the solutions commutes with concatenation |
| NQueensComparison.IndexOfFull | games/n_queens_comparison.py:60-64 | on a full placement every row is found |
| NQueensComparison.ReadoutInverse | games/n_queens_comparison.py:58-66 | the solution read off the board of a full placement is its inverse permutation: for each row, the column of its queen |
| NQueensComparison.FirstQueenOfRow | games/n_queens_comparison.py:61-64 | the scan of one row finds the column of its only queen |
| NQueensComparison.InverseFull | games/n_queens_comparison.py:60-64 | the inverse of a full placement maps every row to a column whose queen stands on that row |
| NQueensComparison.InversePlacement | games/n_queens_comparison.py:58-66 | the inverse of a full placement is a full placement and inverting twice gives it back |
| NQueensComparison.SearchCounts | games/n_queens_comparison.py:56-91 | from the board of a placement, `backtrack` records the inverses of the completions in order, counts one backtrack per node below the root of the search tree and `n` steps per inner node |
| NQueensComparison.SearchSolutions | games/n_queens_comparison.py:56-91 | the solutions and the backtrack count of `backtrack` in terms of the one-queen-per-row search tree |
| NQueensComparison.RowsSolutions | games/n_queens_comparison.py:67-91 | the same for the rows `row`..n-1 of the current column |
| NQueensComparison.AttemptSolutions | games/n_queens_comparison.py:68-82 | one row: a safe row contributes the completions through it and their subtree, an unsafe one nothing |
| NQueensComparison.SearchSteps | games/n_queens_comparison.py:56-91 | the step count of `backtrack` is `n` per inner node of the search tree |
| NQueensComparison.RowsSteps | games/n_queens_comparison.py:67-68 | the same for the rows `row`..n-1 |
| NQueensComparison.AttemptSteps | games/n_queens_comparison.py:68-80 | one row counts one step plus those of the search below a safe row |
| NQueensComparison.InverseAll | games/n_queens_comparison.py:58-66 | the inverses of the completions of the empty placement are exactly the placements of `n` queens |
| NQueensComparison.BacktrackingSolutions | games/n_queens_comparison.py:46-101 | `backtracking_solver` returns exactly the placements of `n` queens |
| NQueensComparison.BacktrackingSolver | games/n_queens_comparison.py:46-101 | the imperative solver on a mutable board returns the solutions and statistics of the search function |
| NQueensComparison.BacktrackColumn | games/n_queens_comparison.py:56-91 | `backtrack(col)` leaves the board as it found it and adds the search of column `col` to the tally |
| NQueensComparison.AttemptOn | games/n_queens_comparison.py:68-82 | one row of the loop: place, recurse, remove; the board is restored |
| NQueensComparison.ReadSolution | games/n_queens_comparison.py:59-64 | the nested loop reads the first queen of each row |
| NQueensComparison.Weight | games/n_queens_comparison.py:113-135 | every queue entry weighs at least one (the termination measure of the queue loop) |
| NQueensComparison.QueueWeightAppend | games/n_queens_comparison.py:113-135 | the weight of a queue adds up over concatenation |
| NQueensComparison.ExpandShape | games/n_queens_comparison.py:119-135 | every column is either rejected or enqueued one row lower |
| NQueensComparison.UniformWeight | games/n_queens_comparison.py:119-135 | entries of one row all weigh the same |
| NQueensComparison.BfsShrinks | games/n_queens_comparison.py:113-135 | dequeuing an entry and enqueueing its children makes the queue lighter, so the loop ends |
| NQueensComparison.ClashMeans | games/n_queens_comparison.py:121-125 | the scan finds a clash exactly when some earlier queen shares the column or a diagonal with (`row`, `col`) |
| NQueensComparison.ClashIsUnsafe | games/n_queens_comparison.py:120-126 | the clash scan rejects exactly the columns `_is_safe` of the plain solver rejects |
| NQueensComparison.ExpandKids | games/n_queens_comparison.py:126-135 | the enqueued children are one row lower with one queen more |
| NQueensComparison.ExpandPlacements | games/n_queens_comparison.py:126-135 | the children of a placement are placements |
| NQueensComparison.FlatAppend | games/n_queens_comparison.py:113-135 | the completions below a queue add up over concatenation |
| NQueensComparison.ExpandFlat | games/n_queens_comparison.py:119-135 | the completions below the children are the completions of the parent |
| NQueensComparison.ChildrenFlat | games/n_queens_comparison.py:119-135 | the same for a whole level of the queue |
| NQueensComparison.LevelsQueue | games/n_queens_comparison.py:111-135 | a queue holding the end of one level followed by the start of the next is well formed |
| NQueensComparison.KidsAtRow | games/n_queens_comparison.py:135 | the children of a level-`k` entry are all at level `k+1` |
| NQueensComparison.BfsFront | games/n_queens_comparison.py:113-135 | one turn of the queue loop keeps the solutions found from here on |
| NQueensComparison.BfsLeaves | games/n_queens_comparison.py:116-118 | a queue of full placements yields exactly those placements |
| NQueensComparison.BfsLevels | games/n_queens_comparison.py:113-135 | processing the queue level by level yields the completions of the queued entries in order |
| NQueensComparison.BfsSolutions | games/n_queens_comparison.py:103-141 | `bfs_solver` returns the placements of `n` queens in lexicographic order, the same list as the plain solver |
| NQueensComparison.CensusAppend | games/n_queens_comparison.py:113-125 | the nodes and rejections below a queue add up over concatenation |
| NQueensComparison.ExpandCensus | games/n_queens_comparison.py:119-135 | the children's subtrees and the rejected columns are those below the parent |
| NQueensComparison.BfsCounts | games/n_queens_comparison.py:113-125 | the steps are the nodes below the queue and the backtracks its rejected columns |
| NQueensComparison.BfsTotals | games/n_queens_comparison.py:103-141 | `bfs_solver` counts one step per node of the search tree and one backtrack per rejected column |
| NQueensComparison.ProbesAddUp | games/n_queens_comparison.py:119-125 | every inner node probes `n` columns: rejected, accepted inner, or accepted leaf |
| NQueensComparison.SolversAgree | games/n_queens_comparison.py:46-141 | both solvers find the same solutions, as many of them, and the backtracking solver's backtracks are one fewer than the breadth-first solver's steps |
| NQueensComparison.BfsSolver | games/n_queens_comparison.py:103-141 | the imperative queue loop returns the solutions and statistics of the queue function |
| NQueensComparison.EnqueueChildren | games/n_queens_comparison.py:119-135 | the column loop appends the children and counts the rejected columns |
| NQueensComparison.NoConflict | games/n_queens_comparison.py:120-125 | the inner scan reports validity exactly when no clash is found |
| Maze.InsertPermutes | games/maze.py:221 | inserting into the sorted list adds exactly the new entry |
| Maze.InsertAscending | games/maze.py:221 | inserting keeps the list in ascending key order |
| Maze.WithKeyCons | games/maze.py:221 | the entries of one key in a list with a known head |
| Maze.InsertStable | games/maze.py:221 | an inserted entry goes after every entry of the same key already there (Python's sort is stable) |
| Maze.SortByMeans | games/maze.py:221 | the sort orders by key, is a permutation of its input, and keeps the input order among entries of equal key |
| Maze.SortByMembers | games/maze.py:221 | the sort keeps the length and draws its entries from its input |
| Maze.InsertMembers | games/maze.py:221 | one insertion adds one entry and nothing else |
| Maze.InsertBetween | games/maze.py:221 | inserting an entry whose key lies above every key of one part and at most the key of the other puts it exactly between them |
| Maze.InsertTwoKeys | games/maze.py:221 | in a list grouped by two keys, a lower-key entry is inserted in front and a higher-key entry at the head of its group |
| Maze.SortByTwoKeys | games/maze.py:221 | sorting entries of only two key values puts every entry of the lower key first and keeps input order within each key |
| Maze.WithKeyAll | games/maze.py:221 | the entries selected by a key all have that key |
| Maze.WithKeyFour | games/maze.py:221 | the entries of one key among four, in their order |
| Maze.KeyValues | games/maze.py:221 | each of the four directions has key one less than the current distance when it leads towards the goal and one more otherwise |
| Maze.OrderSorts | games/maze.py:220-221 | the written-out order of the directions is exactly Python's stable sort of up, down, left, right by distance to the goal |
| Maze.OrderMeans | games/maze.py:220-221 | the four directions are tried nearest the goal first, a permutation of up, down, left, right, ties in that order |
| Maze.OrderUnits | games/maze.py:220-224 | every sorted entry is a step to one of the four neighbours |
| Maze.OrderExample | games/maze.py:220-221 | from (1, 1) towards (1, 3): right first, then up, down, left |
| Maze.Dashes | games/maze.py:225-229 | the set of open '-' cells, all on the maze |
| Maze.EvolvesTrans | games/maze.py:223-239 | successive searches compose: the maze only ever loses '-' cells |
| Maze.EvolvesKeeps | games/maze.py:225-239 | a search keeps the 'B' cells and never opens a cell |
| Maze.MarkShrinks | games/maze.py:228-229 | marking a '-' cell '*' leaves one open cell fewer |
| Maze.UnmarkEvolves | games/maze.py:238-239 | a failed branch leaves its entry cell '.', never '-' again |
| Maze.Solve | games/maze.py:209-245 | the search only turns '-' cells into '*' or '.'; when it fails the bound is unchanged and only '.' marks are added; when it succeeds the bound drops below the old one and is at least the path so far plus the Manhattan distance to the goal (the route a success stands for is `Maze.SolveFinds`) |
| Maze.Moves | games/maze.py:223-245 | the loop over the sorted directions keeps the same promises |
| Maze.Step | games/maze.py:224-243 | one neighbour: off the maze, a wall or a visited cell is skipped; a 'B' neighbour is searched without marking |
| Maze.Enter | games/maze.py:226-243 | an entered '-' cell is left '*' when the search through it succeeds and '.' when it fails |
| Maze.StepDistance | games/maze.py:235 | one step brings the search at most one closer to the goal |
| Maze.StepIntoB | games/maze.py:228-235 | a 'B' neighbour that is not the goal is searched unmarked, and the search there ranks lower |
| Maze.RankDrops | games/maze.py:228-235 | a 'B' neighbour of a cell other than the goal ranks lower by more than one, so searching it unmarked still terminates |
| Maze.StepSkips | games/maze.py:224-225 | a neighbour off the maze or holding neither '-' nor 'B' is skipped and changes nothing |
| Maze.StepIntoDash | games/maze.py:225-239 | a '-' neighbour is entered: marked, searched from and unmarked on failure |
| Maze.StepCases | games/maze.py:224-243 | the three cases of a turn: skipped, searched from an unmarked 'B' neighbour, or a '-' neighbour entered |
| Maze.MovesTurn | games/maze.py:223-245 | one turn of the loop on the maze earlier turns left: a success ends the loop with that turn's outcome; a failure leaves the loop to go on from the next direction on the maze the turn left |
| Maze.PathBefore | games/maze.py:225-239 | a path of the maze after a search is a path of the maze before it, because the search writes only over '-' cells |
| Maze.PathCons | games/maze.py:224-235 | a step to an open neighbour in front of a path from that neighbour is a path one longer |
| Maze.FoundPathCons | games/maze.py:235-236 | a success from a neighbour one step further on is a success from the cell |
| Maze.FoundPathBefore | games/maze.py:235-239 | a success on the maze earlier turns left is a success on the maze before them |
| Maze.SolveFinds | games/maze.py:209-245 | a successful search stands for a path from its cell to the goal, each later cell on the maze and holding '-' or 'B' in the maze it was given, and the bound it sets is the steps so far plus that path's length |
| Maze.MovesFind | games/maze.py:223-245 | the same for the loop over the sorted directions |
| Maze.StepFinds | games/maze.py:224-243 | the same for one turn of the loop |
| Maze.StepIntoBFinds | games/maze.py:228-236 | the same for a turn into a 'B' neighbour |
| Maze.StepIntoDashFinds | games/maze.py:226-239 | the same for a turn into a '-' neighbour |
| Maze.EnterFinds | games/maze.py:228-239 | the same for entering a '-' cell, whose path starts at that cell |
| Maze.SolveRunsMoves | games/maze.py:212-223 | a search neither cut off by the bound nor at the goal runs the loop over the sorted directions |
| Maze.MazeGame.constructor | games/maze.py:207 | the bound starts infinite |
| Maze.MazeGame.SolveMaze | games/maze.py:209-245 | the search on the maze in place returns, leaves behind and sets the bound to exactly what `Maze.Solve` gives, so a `True` result stands for the route of `Maze.SolveFinds` |
| Maze.MazeGame.TryDirections | games/maze.py:223-245 | the loop over the directions on the maze in place returns, leaves behind and sets the bound to exactly what the loop function gives |
| Maze.MazeGame.TryMove | games/maze.py:224-243 | one turn of the loop on the maze in place agrees with the function of one turn |
| Maze.MazeGame.EnterCell | games/maze.py:226-239 | marking a '-' neighbour '*', searching from it and marking it '.' on failure, in place, agrees with the function for entering it |
| MazeComparison.Open | maze_comparison.py:29-33 | the passable cells: inside the grid and holding '-' or 'B' |
| MazeComparison.IsValidMeans | maze_comparison.py:29-33 | `is_valid` accepts exactly the passable cells that are not yet visited |
| MazeComparison.VisitShrinks | maze_comparison.py:75-79 | visiting a cell that `is_valid` accepts leaves fewer passable unvisited cells |
| MazeComparison.HeuristicMeans | maze_comparison.py:37-39 | the Manhattan distance is symmetric, zero exactly between equal cells, and obeys the triangle inequality |
| MazeComparison.DirsAdjacent | maze_comparison.py:7 | the four directions lead exactly to the four neighbours |
| MazeComparison.FindFrom | maze_comparison.py:45-51 | a found cell is inside the grid, holds the symbol, and is not before the scan position |
| MazeComparison.FindFromMeans | maze_comparison.py:43-53 | the scan finds nothing exactly when no remaining cell holds the symbol, and otherwise the first such cell in row-major order |
| MazeComparison.FindPoint | maze_comparison.py:43-53 | a found cell is inside the grid and holds the symbol |
| MazeComparison.FindPointMeans | maze_comparison.py:43-53 | `find_point` returns `None` exactly when no cell holds the symbol, and otherwise the first one, row by row |
| MazeComparison.TrailCons | maze_comparison.py:79-87 | a cell put in front of a trail found from its neighbour gives a trail from the cell |
| MazeComparison.TrailBehind | maze_comparison.py:81-87 | the path a successful recursive call leaves behind extends the current path by the cell and a trail |
| MazeComparison.TrailLinks | maze_comparison.py:59-97 | the path `backtracking` returns links `start` to `end`: from the last visit of `start` on it passes only passable cells |
| MazeComparison.SealedUnlinked | maze_comparison.py:83-91 | once every cell the search visited, `start` among them, has no neighbour `end` and only visited passable neighbours, no walk links `start` to `end` |
| MazeComparison.Dfs | maze_comparison.py:67-91 | the inner `dfs(r, c)` only adds to `visited`, and never `end`; on success it appends a walk of neighbouring cells from (`r`, `c`) to `end`, through the start or cells passable and unvisited at the call, with only the start repeated; on failure it leaves `path` as it was, has visited (`r`, `c`) unless it rejected it, and every cell it visited has no neighbour `end` and only visited passable neighbours |
| MazeComparison.Explore | maze_comparison.py:79-91 | the same once (`r`, `c`) is accepted: marked, appended, the four directions tried, and popped again when all fail |
| MazeComparison.Backtracking | maze_comparison.py:59-97 | `backtracking` returns a walk of neighbouring cells from `start` to `end`, and returns nothing exactly when no walk through passable cells links `start` to `end` (the goal itself is tested before `is_valid`, so it need not be passable) |
| MazeComparison.PendingExtend | maze_comparison.py:127-129 | a route to an expanded cell extended by a neighbour `is_valid` accepts is a route to that neighbour |
| MazeComparison.StackReadyGrows | maze_comparison.py:117-121 | pending stack entries stay pending as `visited` grows |
| MazeComparison.StackReadyPop | maze_comparison.py:111 | popping the top entry leaves the rest ready and the popped entry pending |
| MazeComparison.StackPush | maze_comparison.py:129 | pushing a pending entry keeps the stack ready and adds its cell to the stack's cells |
| MazeComparison.RouteReaches | maze_comparison.py:113-115 | the route returned on reaching `end` makes `end` reachable |
| MazeComparison.FrontierSkip | maze_comparison.py:117-119 | dropping an entry whose cell is already expanded keeps the search invariant: `end` unexpanded, `start` expanded or pending, every passable neighbour of an expanded cell expanded or pending |
| MazeComparison.FrontierExpand | maze_comparison.py:121-129 | expanding a cell other than `end`, with every neighbour `is_valid` accepts pushed, keeps the search invariant |
| MazeComparison.FrontierExhausted | maze_comparison.py:109-131 | with nothing pending, the search invariant makes `end` unreachable, so the final `return []` is right |
| MazeComparison.ClosedUnreachable | maze_comparison.py:109-131 | a set of cells holding `start` but not `end` that holds every passable neighbour of its cells leaves `end` unreachable |
| MazeComparison.DfsStack | maze_comparison.py:101-131 | `dfs_stack` returns a route from `start` to `end` (neighbouring cells, none repeated, all after the start passable), and returns nothing exactly when `end` is not reachable from `start` through passable cells |
| MazeComparison.PushNeighbours | maze_comparison.py:123-129 | the direction loop pushes at most four entries on top of the stack, each the current path extended by a neighbour `is_valid` accepts, and every neighbour `is_valid` accepts gets one |
| MazeComparison.PathBeforeOrder | maze_comparison.py:149 | Python's `<` on paths is irreflexive and transitive |
| MazeComparison.EntryBeforeOrder | maze_comparison.py:149 | the order of heap entries is irreflexive and transitive |
| MazeComparison.PathBeforeTotal | maze_comparison.py:149 | Python's `<` on paths is total: of two different paths one comes first |
| MazeComparison.EntryBeforeTotal | maze_comparison.py:149 | the order of heap entries is total |
| MazeComparison.Least | maze_comparison.py:149 | `heappop` takes an entry that no other entry precedes |
| MazeComparison.LeastIsLeast | maze_comparison.py:149 | the entry `heappop` takes precedes every other entry of the heap |
| MazeComparison.HeapRemove | maze_comparison.py:149 | removing an entry keeps the others ready and leaves it pending |
| MazeComparison.HeapCellsRemove | maze_comparison.py:149 | removing an entry removes its cell from the heap's cells and nothing else |
| MazeComparison.HeapPush | maze_comparison.py:169 | `heappush` of a pending entry carrying the heuristic of its cell keeps the heap ready and adds the cell |
| MazeComparison.Greedy | maze_comparison.py:137-171 | `greedy` returns a route from `start` to `end`, and returns nothing exactly when `end` is not reachable from `start` through passable cells |
| MazeComparison.PushEntries | maze_comparison.py:161-169 | the direction loop pushes at most four entries, each carrying the heuristic of its cell and the current path extended by it, and every neighbour `is_valid` accepts gets one |
| MazeComparison.MarkPath | maze_comparison.py:11-19 | the printed copy has the grid's shape, a '*' in each '-' cell on the path, and every other cell unchanged |
| Crossword.LettersFitMeans | crossword.py:46-48 | the letter loop accepts exactly when every covered cell from the `i`-th on is empty or already holds that letter |
| Crossword.IsValidPlacementMeans | crossword.py:42-55 | `is_valid_placement` accepts exactly the placements that fit: the word stays inside the grid in its direction and every covered cell is '-' or the word's letter; the copy at crosswod_comparison.py:18-37 is the same code |
| Crossword.Write | crossword.py:57-75 | writing letters over covered cells keeps the grid's shape |
| Crossword.WriteMeans | crossword.py:60-66 | after the writes a covered cell holds its letter of the word and every other cell is unchanged |
| Crossword.Read | crossword.py:58-65 | the saved previous state is the old contents of the covered cells, in order |
| Crossword.Place | crossword.py:57-67 | `place_word` keeps the grid's shape |
| Crossword.PlaceRemoveAt | crossword.py:69-75 | after placing and removing a word every cell holds its old value |
| Crossword.PlaceRemove | crossword.py:57-75 | `remove_word` with the state `place_word` returned restores the grid; the copy at crosswod_comparison.py:39-66 is the same code |
| Crossword.SolveFrom | crossword.py:78-104 | `solve(index)` keeps the grid's shape and, when it fails, leaves the grid as it found it |
| Crossword.Attempt | crossword.py:82-103 | the loops over the start cells, 'H' before 'V', keep the same promises |
| Crossword.Try | crossword.py:84-102 | one accepted placement is placed, then the rest searched, and undone on failure |
| Crossword.ChainCons | crossword.py:84-91 | an accepted placement in front of a chain for the rest is a chain |
| Crossword.SolveSound | crossword.py:78-104 | a success of `solve(index)` leaves the grid that placing the remaining words one by one, each accepted, produces |
| Crossword.AttemptSound | crossword.py:82-103 | the same for the loops from a start cell on |
| Crossword.TrySound | crossword.py:84-102 | the same for one placement |
| Crossword.SolveComplete | crossword.py:78-104 | if the remaining words can be placed one by one, `solve(index)` succeeds |
| Crossword.AttemptComplete | crossword.py:82-103 | the loops find a placement no earlier in row-major order than the first placement of a chain |
| Crossword.SolveDecides | crossword.py:78-104 | `solve(0)` succeeds exactly when the words can be placed in list order, each on the grid the earlier ones left; `BacktrackingSolver.solve` (crosswod_comparison.py:72-93) and `BruteForceSolver.solve` (crosswod_comparison.py:99-120) of the comparison script are the same code |
| Crossword.WriteLetter | crossword.py:60-62 | one turn of the letter loop saves the old contents of the covered cell and writes the letter |
| Crossword.Solver.constructor | crossword.py:18-22 | the solver works on a fresh copy of the template |
| Crossword.Solver.PlaceWord | crossword.py:57-67 | `place_word` writes the word over the covered cells and returns their previous contents |
| Crossword.Solver.RemoveWord | crossword.py:69-75 | `remove_word` writes the saved contents back over the covered cells |
| Crossword.Solver.Solve | crossword.py:78-104 | the method on the grid in place returns and leaves exactly what the search function gives; the comparison script's solver (crosswod_comparison.py:72-93) is the same code |
| Crossword.Solver.TryAt | crossword.py:84-102 | one placement on the grid in place agrees with the function of one placement |
| CrosswordComparison.Overlap | crosswod_comparison.py:126-142 | the score counts the covered cells that already hold the word's letter: at most the word's length, and equal to it exactly when every covered cell matches |
| CrosswordComparison.ScorePlacement | crosswod_comparison.py:126-142 | `score_placement` on the solver's grid returns that count |
| CrosswordComparison.SlotStep | crosswod_comparison.py:152-166 | the slot after `p` in the loop order ('H' then 'V' at each cell, row-major) |
| CrosswordComparison.LeadingStep | crosswod_comparison.py:155-166 | one placement of the loops keeps the best so far best among the placements seen, the earliest among equal scores |
| CrosswordComparison.LeadingRow | crosswod_comparison.py:152-153 | the end of a row moves on to the start of the next |
| CrosswordComparison.BestFromMeans | crosswod_comparison.py:152-166 | the loops from a start cell on end with the best placement of the whole grid |
| CrosswordComparison.LeadingEnd | crosswod_comparison.py:152 | past the last row there is nothing more to see |
| CrosswordComparison.FindBestMeans | crosswod_comparison.py:144-168 | `find_best_placement` returns `(None, -1)` exactly when no placement is valid; otherwise a valid placement of greatest score, the first such in loop order, with its score |
| CrosswordComparison.FindBestFound | crosswod_comparison.py:144-168 | the result is `None` exactly when the score is -1, exactly when nothing fits, and otherwise valid |
| CrosswordComparison.FindBestPlacement | crosswod_comparison.py:144-168 | the method on the solver's grid returns what the function gives |
| CrosswordComparison.Consider | crosswod_comparison.py:155-166 | one step of its loops on the solver's grid |
| CrosswordComparison.GreedyFrom | crosswod_comparison.py:170-181 | the greedy search keeps the grid's shape |
| CrosswordComparison.GreedyMeans | crosswod_comparison.py:170-181 | the greedy solver places a prefix of the words in order, each valid on the grid the earlier ones left, and never takes one back; it succeeds exactly when it places them all, and when it fails the next word fits nowhere |
| CrosswordComparison.GreedyStep | crosswod_comparison.py:176-179 | a valid placement in front of the rest of a greedy run is a greedy run |
| CrosswordComparison.GreedyImpliesPlaceable | crosswod_comparison.py:72-181 | whenever the greedy solver succeeds, the backtracking solver succeeds too |
| CrosswordComparison.GreedySolve | crosswod_comparison.py:170-181 | `GreedySolver.solve` on the grid in place returns and leaves what the greedy function gives |
| CrosswordGame.Checked | games/crossword.py:141-144 | the guard in front of the dictionary lookup is always true, so every run of two or more letters is looked up, the new word's own run included |
| CrosswordGame.Column | games/crossword.py:151-152 | the column read top to bottom |
| CrosswordGame.RunsAt | games/crossword.py:132-147 | the run that ends at a non-letter or at the end of the line is the only maximal run starting where it starts, and no other run starts inside it |
| CrosswordGame.ScanLineMeans | games/crossword.py:129-147 | the scan of a line from any position accepts exactly when every maximal run of two or more letters from there on is, lowercased, in the dictionary |
| CrosswordGame.LineScanMeans | games/crossword.py:129-147 | the scan of a whole line accepts exactly when all its runs of two or more letters are dictionary words |
| CrosswordGame.RowsOkMeans | games/crossword.py:128-147 | the row loop accepts exactly when every row from `r` on passes |
| CrosswordGame.ColsOkMeans | games/crossword.py:148-167 | the column loop accepts exactly when every column from `c` on passes |
| CrosswordGame.CheckIntersectionsMeans | games/crossword.py:119-169 | `check_intersections` holds exactly when, on the grid with the word written in, every maximal horizontal and vertical run of two or more letters is, lowercased, a dictionary word |
| CrosswordGame.PositionsMeans | games/crossword.py:173-184 | the recorded positions are the covered cells, in order |
| CrosswordGame.RemoveFirstMeans | games/crossword.py:204-210 | without a matching record the list is unchanged; otherwise exactly the first match is removed |
| CrosswordGame.RemoveRecorded | games/crossword.py:204-210 | taking back a recorded placement removes one copy of its record and keeps the list well formed |
| CrosswordGame.FirstMatch | games/crossword.py:204-210 | when some record matches, a first one exists |
| CrosswordGame.RecordsCons | games/crossword.py:186-192 | the records of words placed one after the other |
| CrosswordGame.InnerRow | games/crossword.py:219-221 | the inner loop for one cell of the first record lists that cell when the second record covers it from the cursor on, then goes on with the next cell |
| CrosswordGame.InnerFrom | games/crossword.py:218-221 | from the `k`-th cell of the first record on, the inner loops list exactly the cells both records cover |
| CrosswordGame.InnerAll | games/crossword.py:218-221 | the inner loops for a pair of records list exactly the cells the two share |
| CrosswordGame.SharedFromRow | games/crossword.py:214-215 | the end of a row of the outer loops moves on to the next record |
| CrosswordGame.SharedFromStep | games/crossword.py:215-217 | one pair of the outer loops counts only when `i < j` |
| CrosswordGame.OuterMeans | games/crossword.py:214-221 | the outer loops from the cursor on list exactly the cells two later records share |
| CrosswordGame.IntersectionsMeans | games/crossword.py:212-223 | `highlight_intersections` lists exactly the cells covered by two different records |
| CrosswordGame.SharedCells | games/crossword.py:218-221 | the imperative inner loops return the list the function gives |
| CrosswordGame.GameSolver.constructor | games/crossword.py:21-28 | the solver copies the template, keeps the word list and dictionary, and starts with no records |
| CrosswordGame.GameSolver.IsValidPlacement | games/crossword.py:101-117 | `is_valid_placement` accepts exactly the placements that fit and pass the dictionary scan |
| CrosswordGame.GameSolver.PlaceWord | games/crossword.py:171-194 | `place_word` writes the word, returns the previous contents of the covered cells, and appends the record of the placement |
| CrosswordGame.GameSolver.RemoveWord | games/crossword.py:196-210 | `remove_word` writes the saved contents back and drops the first matching record |
| CrosswordGame.GameSolver.Forget | games/crossword.py:204-210 | the record loop pops the first record of the word at the placement |
| CrosswordGame.GameSolver.HighlightIntersections | games/crossword.py:212-223 | the imperative loops return the intersection list of the records |
| CrosswordGame.GameSolver.Solve | games/crossword.py:226-283 | `solve(index)` with the dictionary test returns and leaves what the shared search gives; on success the records gained are those of the remaining words, up to order; on failure the records are the same records as at the call, up to order |
| CrosswordGame.GameSolver.TryAt | games/crossword.py:238-281 | one placement of the loops returns and leaves what the shared search gives for it, with the records gained, or kept on failure, the same up to order |
| CrosswordGame.GameSolver.Extend | games/crossword.py:239-255 | an accepted placement is written and recorded and the search goes on; on success the records gained are this placement's and the rest's, up to order; on failure the grid is restored and the records are the same as at the call, up to order |
| CrosswordGame.GameSolver.Undo | games/crossword.py:196-210 | `remove_word` on a recorded placement restores the cells and drops one copy of its record |

## Left out

- Rendering and timing: pygame drawing, event polling and the quit handling, console printing, `time.sleep` and `perf_counter` are not modelled. The searches make the same writes without them.
- The benchmark wrapper's elapsed time is not modelled: `SudokuComparison` keeps only the inner result of each wrapped call. The solvers read only `[0]` of a pair; the benchmarking loop at games/sudoku_comparison.py:265-267, which reads the time `[1]`, is not modelled.
- launcher.py, file and command-line plumbing, the word-list loader, the `input()` menus and the module-level scripts are not modelled: they make no decisions of the solvers.
- Randomness is not modelled: `generate_sudoku`, the random word selection, the random graph generator and the N-Queens `greedy_solver` of games/n_queens_comparison.py depend on a random source.
- The visualisation callbacks of games/n_queens_comparison.py, and the `current_state` copies built for them, are not modelled: they only observe the board.
- Sudoku.WellFormed: the board side must be a perfect square. `int(size**0.5)` is modelled as the integer square root `Sudoku.Isqrt`, and a non-square side, where the source's boxes would not tile the board, is outside the model.
- Crossword.InBounds: only start cells inside the grid are modelled, which are the only ones the solvers try. Direction strings other than 'H' and 'V' are not modelled: the solvers pass only those two.
- Crossword.Solver.constructor, CrosswordGame.GameSolver.constructor: the template must be a non-empty rectangle. On an empty template the source fails at `len(grid[0])`, and on ragged rows `array2` cannot hold it.
- CrosswordGame.Lower: `str.lower()` is modelled on the letters A to Z only; other characters are left as they are.
- CrosswordGame.GameSolver.Solve: the `highlight_intersections` and `print_board` calls after each placement are modelled only as the separate method `HighlightIntersections`, which changes nothing. Their drawing is left out.
- Maze.Solve, Maze.MazeGame.SolveMaze: these require that no two neighbouring 'B' cells other than the goal exist (`NoStrayPair`). The search enters 'B' cells without marking them, so on such a maze it can bounce between two of them until the bound cuts it off or Python hits its recursion limit. The model does not cover those mazes.
- Maze.MazeGame.SolveMaze: the maze is an `array2`, so ragged rows, and the IndexError of an empty maze at `len(maze[0])`, are not modelled. `float('inf')` is the `Infinite` case of `Maze.Bound`.
- MazeComparison.Rectangular: every row must be as long as the first. On ragged rows `is_valid` could raise IndexError, and that is not modelled.
- MazeComparison.Least: the `heapq` heap is modelled as an unordered sequence from which `heappop` removes a least entry in Python's tuple order. The heap's internal layout is not modelled.
- MazeComparison.Dfs: the shared `path` list and `visited` set of the nested function are passed in and returned as values.
- MazeComparison.MarkPath: the printing in `print_path` is left out; only the marked copy is modelled.
- NQueens.Probe: the leaf test is written `row < n && _is_safe(...)`. On a full board that is a placement, `_is_safe` rejects every column (`NQueens.LeafHasNoSafeColumn`), so the two agree on every board the solver builds. On a full board that is not a placement, which the solver never builds, the source could index past the end of the list.
- NQueensComparison.NoConflict: the `backtracks += 1` of the clash scan is counted by the caller, `EnqueueChildren`, which receives the clash as a result.
- Coloring.Square: every row must be exactly `len(graph)` long. The source reads each row only up to `len(graph)`, so it also accepts longer rows and ignores their extra entries; those matrices are not modelled.
- Coloring: `visualize=True` in graph_coloring.py and the plotting with matplotlib and networkx are not modelled. Only side calls depend on them.

## Findings

| source | as written | input that shows it | evidently intended | confidence | as-written member | corrected member |
|---|---|---|---|---|---|---|
| games/sudoku_comparison.py:195 | `if solve_dfs(board)[0]:` reads the first component of the benchmark pair, which is `True` or the non-empty tuple `(False, 0)` and so always truthy; the digit is never taken back and the solver stops at the first dead end | the 4 x 4 board `SudokuComparison.Trap`: the first empty cell takes digit 1, after which cell (2, 3) has no valid digit, although the board has a solution | backtrack on failure: take the digit back and try the next one, as `solve_backtracking` does | not executed | SudokuComparison.GreedyMissesSolution | Sudoku.SolveDecides |
