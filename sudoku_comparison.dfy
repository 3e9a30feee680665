/** The solvers of the benchmark script: the backtracking solver behind a timing
    wrapper, and the "depth-first" and "fewest options" solvers, which choose
    the cell to fill with `find_empty_cell` and with the minimum-remaining-values
    scan `find_empty_cell_mrv`. Both read the success of their recursive call as
    `solve_dfs(board)[0]`, the first component of the timing wrapper's pair;
    that component is `True` or a non-empty tuple, so it is always truthy and
    the search never takes a digit back: it fills greedily until the board is
    full or the chosen cell has no valid digit. */
module SudokuComparison {
  import opened Common
  import opened Grids
  import opened Sudoku

  // ---------------------------------------------------------------------------
  // `count_valid_options`
  // ---------------------------------------------------------------------------

  /** The digits `from`..N that `is_valid` accepts at (`row`, `col`). */
  ghost function ValidDigits(b: Board, row: nat, col: nat, from: int): set<int>
    requires WellFormed(b) && row < |b| && col < |b|
  {
    set d | from <= d <= |b| && IsValid(b, row, col, d)
  }

  /** The number of digits `num`..N that `is_valid` accepts at (`row`, `col`). */
  function CountFrom(b: Board, row: nat, col: nat, num: int): (n: nat)
    requires WellFormed(b) && row < |b| && col < |b| && 1 <= num
    ensures n <= Candidates(|b|, num)
    decreases Candidates(|b|, num)
  {
    if num > |b| then 0
    else (if IsValid(b, row, col, num) then 1 else 0) + CountFrom(b, row, col, num + 1)
  }

  lemma {:induction false} CountFromMeans(b: Board, row: nat, col: nat, num: int)
    requires WellFormed(b) && row < |b| && col < |b| && 1 <= num
    ensures CountFrom(b, row, col, num) == |ValidDigits(b, row, col, num)|
    decreases Candidates(|b|, num)
  {
    if num > |b| {
      assert ValidDigits(b, row, col, num) == {};
    } else {
      CountFromMeans(b, row, col, num + 1);
      if IsValid(b, row, col, num) {
        assert ValidDigits(b, row, col, num) == ValidDigits(b, row, col, num + 1) + {num};
      } else {
        assert ValidDigits(b, row, col, num) == ValidDigits(b, row, col, num + 1);
      }
    }
  }

  /** `count_valid_options`: the digits 1..N tried at the cell. */
  function CountValidOptions(b: Board, row: nat, col: nat): (n: nat)
    requires WellFormed(b) && row < |b| && col < |b|
    ensures n <= |b|
  {
    CountFrom(b, row, col, 1)
  }

  /** `count_valid_options` counts the digits `is_valid` accepts at the cell, and
      so is 0 exactly when the cell has no valid digit. */
  lemma CountValidOptionsMeans(b: Board, row: nat, col: nat)
    requires WellFormed(b) && row < |b| && col < |b|
    ensures CountValidOptions(b, row, col) == |ValidDigits(b, row, col, 1)|
    ensures CountValidOptions(b, row, col) == 0 <==> forall d | 1 <= d <= |b| :: !IsValid(b, row, col, d)
  {
    CountFromMeans(b, row, col, 1);
    if CountValidOptions(b, row, col) == 0 {
      assert ValidDigits(b, row, col, 1) == {};
      forall d | 1 <= d <= |b|
        ensures !IsValid(b, row, col, d)
      {
        assert d !in ValidDigits(b, row, col, 1);
      }
    } else {
      var s := ValidDigits(b, row, col, 1);
      assert s != {};
      var d :| d in s;
      assert IsValid(b, row, col, d);
    }
  }

  // ---------------------------------------------------------------------------
  // `find_empty_cell_mrv`
  // ---------------------------------------------------------------------------

  /** The scan of `find_empty_cell_mrv` from cell (`row`, `col`) on, in row-major
      order, with the fewest options seen so far `least` and the cell that had
      them `best`. A strictly smaller count replaces the best cell, and a count
      of 1 ends the scan at once. */
  function MrvFrom(b: Board, row: nat, col: nat, least: int, best: Option<Cell>): (r: Option<Cell>)
    requires WellFormed(b) && row <= |b| && col <= |b|
    requires best.Some? ==> 0 <= best.value.0 < |b| && 0 <= best.value.1 < |b| && b[best.value.0][best.value.1] == 0
    ensures r.Some? ==> 0 <= r.value.0 < |b| && 0 <= r.value.1 < |b| && b[r.value.0][r.value.1] == 0
    decreases |b| - row, |b| - col
  {
    if row == |b| then best
    else if col == |b| then MrvFrom(b, row + 1, 0, least, best)
    else if b[row][col] == 0 && CountValidOptions(b, row, col) < least then
      if CountValidOptions(b, row, col) == 1 then Some((row, col))
      else MrvFrom(b, row, col + 1, CountValidOptions(b, row, col), Some((row, col)))
    else MrvFrom(b, row, col + 1, least, best)
  }

  /** `find_empty_cell_mrv` on a board, as a value. */
  function MrvCell(b: Board): (r: Option<Cell>)
    requires WellFormed(b)
    ensures r.Some? ==> 0 <= r.value.0 < |b| && 0 <= r.value.1 < |b| && b[r.value.0][r.value.1] == 0
  {
    MrvFrom(b, 0, 0, |b| + 1, None)
  }

  /** What `find_empty_cell_mrv` promises: `None` exactly on a full board, and
      otherwise an empty cell with `n` options such that every earlier empty cell
      has more than `n` and more than one option, and, unless `n` is 1 (the scan
      stops at the first cell with a single option), no empty cell has fewer. */
  ghost predicate MrvChoice(b: Board, r: Option<Cell>)
    requires WellFormed(b)
  {
    && (r.None? <==> Full(b))
    && (r.Some? ==>
         var p := r.value;
         && 0 <= p.0 < |b| && 0 <= p.1 < |b| && b[p.0][p.1] == 0
         && var n := CountValidOptions(b, p.0, p.1);
            && (forall i, j | 0 <= i < |b| && 0 <= j < |b| && b[i][j] == 0 && Before(i, j, p.0, p.1) ::
                  CountValidOptions(b, i, j) > n && CountValidOptions(b, i, j) > 1)
            && (n > 1 ==> forall i, j | 0 <= i < |b| && 0 <= j < |b| && b[i][j] == 0 ::
                  CountValidOptions(b, i, j) >= n))
  }

  /** What the scan knows when it reaches (`row`, `col`): what it has seen so far. */
  ghost predicate Scanned(b: Board, row: nat, col: nat, least: int, best: Option<Cell>)
    requires WellFormed(b)
  {
    && (best.None? ==>
         && least == |b| + 1
         && forall i, j | 0 <= i < |b| && 0 <= j < |b| && Before(i, j, row, col) :: b[i][j] != 0)
    && (best.Some? ==>
         var p := best.value;
         && 0 <= p.0 < |b| && 0 <= p.1 < |b| && b[p.0][p.1] == 0 && Before(p.0, p.1, row, col)
         && least == CountValidOptions(b, p.0, p.1) && least != 1
         && (forall i, j | 0 <= i < |b| && 0 <= j < |b| && b[i][j] == 0 && Before(i, j, p.0, p.1) ::
               CountValidOptions(b, i, j) > least && CountValidOptions(b, i, j) > 1)
         && (forall i, j | 0 <= i < |b| && 0 <= j < |b| && b[i][j] == 0 && Before(i, j, row, col) ::
               CountValidOptions(b, i, j) >= least))
  }

  /** The scan's last step: the cell at (`row`, `col`) has a single option and
      no earlier empty cell has one or none. */
  lemma MrvStopsAtOne(b: Board, row: nat, col: nat, least: int, best: Option<Cell>)
    requires WellFormed(b) && row < |b| && col < |b| && Scanned(b, row, col, least, best)
    requires b[row][col] == 0 && CountValidOptions(b, row, col) == 1 < least
    ensures MrvChoice(b, Some((row, col)))
  {
    forall i, j | 0 <= i < |b| && 0 <= j < |b| && b[i][j] == 0 && Before(i, j, row, col)
      ensures CountValidOptions(b, i, j) > 1
    {
      assert best.Some?;
    }
  }

  /** The scan's step at a cell that becomes the best one. */
  lemma MrvTakes(b: Board, row: nat, col: nat, least: int, best: Option<Cell>)
    requires WellFormed(b) && row < |b| && col < |b| && Scanned(b, row, col, least, best)
    requires b[row][col] == 0 && CountValidOptions(b, row, col) < least && CountValidOptions(b, row, col) != 1
    ensures Scanned(b, row, col + 1, CountValidOptions(b, row, col), Some((row, col)))
  {
    var n := CountValidOptions(b, row, col);
    forall i, j | 0 <= i < |b| && 0 <= j < |b| && b[i][j] == 0 && Before(i, j, row, col)
      ensures CountValidOptions(b, i, j) > n && CountValidOptions(b, i, j) > 1
    {
      assert best.Some?;
    }
  }

  /** The scan's step at a cell that does not change the best one. */
  lemma MrvSkips(b: Board, row: nat, col: nat, least: int, best: Option<Cell>)
    requires WellFormed(b) && row < |b| && col < |b| && Scanned(b, row, col, least, best)
    requires !(b[row][col] == 0 && CountValidOptions(b, row, col) < least)
    ensures Scanned(b, row, col + 1, least, best)
  {
  }

  /** Moving from the end of a row to the start of the next changes nothing. */
  lemma MrvNextRow(b: Board, row: nat, least: int, best: Option<Cell>)
    requires WellFormed(b) && row < |b| && Scanned(b, row, |b|, least, best)
    ensures Scanned(b, row + 1, 0, least, best)
  {
  }

  /** At the end of the board the best cell is the answer. */
  lemma MrvEnd(b: Board, col: nat, least: int, best: Option<Cell>)
    requires WellFormed(b) && Scanned(b, |b|, col, least, best)
    requires best.Some? ==> 0 <= best.value.0 < |b| && 0 <= best.value.1 < |b| && b[best.value.0][best.value.1] == 0
    ensures MrvChoice(b, best)
  {
  }

  lemma {:induction false} MrvFromMeans(b: Board, row: nat, col: nat, least: int, best: Option<Cell>)
    requires WellFormed(b) && row <= |b| && col <= |b|
    requires best.Some? ==> 0 <= best.value.0 < |b| && 0 <= best.value.1 < |b| && b[best.value.0][best.value.1] == 0
    requires Scanned(b, row, col, least, best)
    ensures MrvChoice(b, MrvFrom(b, row, col, least, best))
    decreases |b| - row, |b| - col, 1
  {
    if row == |b| {
      MrvEnd(b, col, least, best);
    } else if col == |b| {
      MrvNextRow(b, row, least, best);
      MrvFromMeans(b, row + 1, 0, least, best);
    } else {
      MrvCellStep(b, row, col, least, best);
    }
  }

  /** The scan at a cell inside the board. */
  lemma {:induction false} MrvCellStep(b: Board, row: nat, col: nat, least: int, best: Option<Cell>)
    requires WellFormed(b) && row < |b| && col < |b|
    requires best.Some? ==> 0 <= best.value.0 < |b| && 0 <= best.value.1 < |b| && b[best.value.0][best.value.1] == 0
    requires Scanned(b, row, col, least, best)
    ensures MrvChoice(b, MrvFrom(b, row, col, least, best))
    decreases |b| - row, |b| - col, 0
  {
    var n := CountValidOptions(b, row, col);
    if b[row][col] == 0 && n < least {
      if n == 1 {
        MrvStopsAtOne(b, row, col, least, best);
      } else {
        MrvTakes(b, row, col, least, best);
        MrvFromMeans(b, row, col + 1, n, Some((row, col)));
      }
    } else {
      MrvSkips(b, row, col, least, best);
      MrvFromMeans(b, row, col + 1, least, best);
    }
  }

  /** The scan keeps the promise of `find_empty_cell_mrv`. */
  lemma MrvCellMeans(b: Board)
    requires WellFormed(b)
    ensures MrvChoice(b, MrvCell(b))
  {
    MrvFromMeans(b, 0, 0, |b| + 1, None);
  }

  /** `find_empty_cell_mrv`: the nested loops of the source over the board array. */
  method FindEmptyCellMrv(board: array2<int>) returns (best: Option<Cell>)
    requires WellFormedArray(board)
    ensures best == MrvCell(Cells(board))
  {
    ghost var b := Cells(board);
    var size := board.Length0;
    var least := size + 1;
    best := None;
    for row := 0 to size
      invariant best.Some? ==> 0 <= best.value.0 < size && 0 <= best.value.1 < size && b[best.value.0][best.value.1] == 0
      invariant MrvFrom(b, row, 0, least, best) == MrvCell(b)
    {
      for col := 0 to size
        invariant best.Some? ==> 0 <= best.value.0 < size && 0 <= best.value.1 < size && b[best.value.0][best.value.1] == 0
        invariant MrvFrom(b, row, col, least, best) == MrvCell(b)
      {
        if board[row, col] == 0 {
          var options := CountValidOptions(Cells(board), row, col);
          if options < least {
            least := options;
            best := Some((row, col));
            if least == 1 {
              return best;
            }
          }
        }
      }
    }
  }

  // ---------------------------------------------------------------------------
  // Python values and their truth
  // ---------------------------------------------------------------------------

  /** The values the solvers return: `True`/`False`, integers, and pairs. */
  datatype PyValue = PyBool(b: bool) | PyInt(i: int) | PyPair(first: PyValue, second: PyValue)

  /** Python truthiness: a non-empty tuple is true whatever it holds. */
  predicate Truthy(v: PyValue) {
    match v
      case PyBool(x) => x
      case PyInt(i) => i != 0
      case PyPair(_, _) => true
  }

  // ---------------------------------------------------------------------------
  // `solve_dfs` and `solve_mrv`, as functions on values
  // ---------------------------------------------------------------------------

  /** How the next cell is chosen: `find_empty_cell` (`solve_dfs`) or
      `find_empty_cell_mrv` (`solve_mrv`). */
  datatype Pick = FirstEmpty | FewestOptions

  function NextCell(b: Board, pick: Pick): (r: Option<Cell>)
    requires WellFormed(b)
    ensures r.Some? ==> 0 <= r.value.0 < |b| && 0 <= r.value.1 < |b| && b[r.value.0][r.value.1] == 0
  {
    match pick
      case FirstEmpty => FindEmptyCell(b)
      case FewestOptions => MrvCell(b)
  }

  /** Either picker answers `None` exactly on a full board. */
  lemma NextCellNoneIffFull(b: Board, pick: Pick)
    requires WellFormed(b)
    ensures NextCell(b, pick).None? <==> Full(b)
  {
    match pick
      case FirstEmpty => FindEmptyCellMeans(b);
      case FewestOptions => MrvCellMeans(b);
  }

  /** The inner result of a call (what `[0]` of the timing pair selects) and the
      board it leaves. */
  datatype Fill = Fill(value: PyValue, board: Board)

  /** Taking back a digit written into an empty cell of `b`, after a call that
      left no more empty cells than it found, leaves no more empty cells than
      `b` has. */
  lemma UndoKeepsZeros(b: Board, row: nat, col: nat, num: int, after: Board)
    requires IsBoard(b) && row < |b| && col < |b| && b[row][col] == 0 && num != 0
    requires IsBoard(after) && |after| == |b|
    requires |ZeroCells(after)| <= |ZeroCells(Set(b, row, col, num))|
    ensures |ZeroCells(Set(after, row, col, 0))| <= |ZeroCells(b)|
  {
    var b1 := Set(b, row, col, num);
    assert ZeroCells(b1) == ZeroCells(b) - {(row, col)};
    var undone := Set(after, row, col, 0);
    assert ZeroCells(undone) <= ZeroCells(after) + {(row, col)};
    SubsetCard(ZeroCells(undone), ZeroCells(after) + {(row, col)});
  }

  /** `solve_dfs` / `solve_mrv`: choose a cell, try the digits 1..N in order, and
      recurse; the recursive result is read through its truthiness, and the
      undo step is kept though it cannot be reached. */
  function GreedySolve(b: Board, pick: Pick): (r: Fill)
    requires WellFormed(b)
    ensures IsBoard(r.board) && |r.board| == |b|
    ensures |ZeroCells(r.board)| <= |ZeroCells(b)|
    decreases |ZeroCells(b)|, 1, 0
  {
    match NextCell(b, pick)
      case None => Fill(PyBool(true), b)
      case Some(cell) => GreedyDigits(b, pick, cell.0, cell.1, 1)
  }

  function GreedyDigits(b: Board, pick: Pick, row: nat, col: nat, num: int): (r: Fill)
    requires WellFormed(b) && row < |b| && col < |b| && b[row][col] == 0 && 1 <= num
    ensures IsBoard(r.board) && |r.board| == |b|
    ensures |ZeroCells(r.board)| <= |ZeroCells(b)|
    decreases |ZeroCells(b)|, 0, Candidates(|b|, num)
  {
    if num > |b| then Fill(PyPair(PyBool(false), PyInt(0)), b)
    else if IsValid(b, row, col, num) then
      WriteShrinksZeros(b, row, col, num);
      var sub := GreedySolve(Set(b, row, col, num), pick);
      if Truthy(sub.value) then Fill(PyPair(PyBool(true), PyInt(0)), sub.board)
      else
        UndoKeepsZeros(b, row, col, num, sub.board);
        GreedyDigits(Set(sub.board, row, col, 0), pick, row, col, num + 1)
    else GreedyDigits(b, pick, row, col, num + 1)
  }

  // ---------------------------------------------------------------------------
  // What the greedy fill does
  // ---------------------------------------------------------------------------

  /** Every inner result is `True`, `(True, 0)` or `(False, 0)`: all truthy. */
  lemma {:induction false} GreedySolveTruthy(b: Board, pick: Pick)
    requires WellFormed(b)
    ensures var v := GreedySolve(b, pick).value;
      v == PyBool(true) || v == PyPair(PyBool(true), PyInt(0)) || v == PyPair(PyBool(false), PyInt(0))
    ensures Truthy(GreedySolve(b, pick).value)
    decreases |ZeroCells(b)|, 1, 0
  {
    match NextCell(b, pick)
      case None =>
      case Some(cell) => GreedyDigitsTruthy(b, pick, cell.0, cell.1, 1);
  }

  lemma {:induction false} GreedyDigitsTruthy(b: Board, pick: Pick, row: nat, col: nat, num: int)
    requires WellFormed(b) && row < |b| && col < |b| && b[row][col] == 0 && 1 <= num
    ensures var v := GreedyDigits(b, pick, row, col, num).value;
      v == PyPair(PyBool(true), PyInt(0)) || v == PyPair(PyBool(false), PyInt(0))
    decreases |ZeroCells(b)|, 0, Candidates(|b|, num)
  {
    if num <= |b| {
      if IsValid(b, row, col, num) {
        WriteShrinksZeros(b, row, col, num);
        GreedySolveTruthy(Set(b, row, col, num), pick);
      } else {
        GreedyDigitsTruthy(b, pick, row, col, num + 1);
      }
    }
  }

  /** So the first valid digit is never taken back: the call returns `(True, 0)`
      with whatever the recursive fill left. */
  lemma GreedyNeverUndoes(b: Board, pick: Pick, row: nat, col: nat, num: int)
    requires WellFormed(b) && row < |b| && col < |b| && b[row][col] == 0 && 1 <= num <= |b|
    requires IsValid(b, row, col, num)
    ensures WellFormed(Set(b, row, col, num))
    ensures GreedyDigits(b, pick, row, col, num)
         == Fill(PyPair(PyBool(true), PyInt(0)), GreedySolve(Set(b, row, col, num), pick).board)
  {
    WriteShrinksZeros(b, row, col, num);
    GreedySolveTruthy(Set(b, row, col, num), pick);
  }

  /** The chosen cell of `b` has no valid digit. */
  predicate Stuck(b: Board, pick: Pick)
    requires WellFormed(b)
  {
    match NextCell(b, pick)
      case None => false
      case Some(cell) => forall d | 1 <= d <= |b| :: !IsValid(b, cell.0, cell.1, d)
  }

  /** The fill writes digits that `is_valid` accepts into empty cells only: clues
      stay, digits stay in range, a consistent board stays consistent; and it
      ends only on a full board or on one whose chosen cell has no valid digit. */
  lemma {:induction false} GreedySolveFills(b: Board, pick: Pick)
    requires WellFormed(b)
    ensures var r := GreedySolve(b, pick).board;
      && KeepsClues(b, r)
      && (InRange(b) ==> InRange(r))
      && (Consistent(b) ==> WellFormed(r) && Consistent(r))
      && WellFormed(r) && (Full(r) || Stuck(r, pick))
    decreases |ZeroCells(b)|, 1, 0
  {
    NextCellNoneIffFull(b, pick);
    match NextCell(b, pick)
      case None =>
        assert KeepsClues(b, b);
      case Some(cell) =>
        GreedyDigitsFills(b, pick, cell.0, cell.1, 1);
  }

  lemma {:induction false} GreedyDigitsFills(b: Board, pick: Pick, row: nat, col: nat, num: int)
    requires WellFormed(b) && row < |b| && col < |b| && b[row][col] == 0 && 1 <= num
    requires NextCell(b, pick) == Some((row, col))
    requires forall d | 1 <= d < num && d <= |b| :: !IsValid(b, row, col, d)
    ensures var r := GreedyDigits(b, pick, row, col, num).board;
      && KeepsClues(b, r)
      && (InRange(b) ==> InRange(r))
      && (Consistent(b) ==> WellFormed(r) && Consistent(r))
      && WellFormed(r) && (Full(r) || Stuck(r, pick))
    decreases |ZeroCells(b)|, 0, Candidates(|b|, num)
  {
    if num > |b| {
      assert KeepsClues(b, b);
    } else if IsValid(b, row, col, num) {
      GreedyNeverUndoes(b, pick, row, col, num);
      var b1 := Set(b, row, col, num);
      WriteShrinksZeros(b, row, col, num);
      GreedySolveFills(b1, pick);
      var r := GreedySolve(b1, pick).board;
      KeepsCluesThroughWrite(b, row, col, num, r);
      if InRange(b) {
        InRangeAfterWrite(b, row, col, num);
      }
      if Consistent(b) {
        ValidWriteKeepsConsistent(b, row, col, num);
      }
    } else {
      GreedyDigitsFills(b, pick, row, col, num + 1);
    }
  }

  /** The inner result tells how the call began: `True` on a full board,
      `(False, 0)` when the chosen cell has no valid digit (and the board is
      left as it was), `(True, 0)` when a digit was written. */
  lemma GreedyValue(b: Board, pick: Pick)
    requires WellFormed(b)
    ensures var r := GreedySolve(b, pick);
      && (r.value == PyBool(true) <==> Full(b))
      && (r.value == PyPair(PyBool(false), PyInt(0)) <==> Stuck(b, pick))
      && (Stuck(b, pick) ==> r.board == b)
  {
    NextCellNoneIffFull(b, pick);
    match NextCell(b, pick)
      case None =>
      case Some(cell) =>
        GreedyDigitsValue(b, pick, cell.0, cell.1, 1);
  }

  lemma {:induction false} GreedyDigitsValue(b: Board, pick: Pick, row: nat, col: nat, num: int)
    requires WellFormed(b) && row < |b| && col < |b| && b[row][col] == 0 && 1 <= num
    ensures var r := GreedyDigits(b, pick, row, col, num);
      && (r.value == PyPair(PyBool(false), PyInt(0)) <==> forall d | num <= d <= |b| :: !IsValid(b, row, col, d))
      && ((forall d | num <= d <= |b| :: !IsValid(b, row, col, d)) ==> r.board == b)
      && r.value != PyBool(true)
    decreases |ZeroCells(b)|, 0, Candidates(|b|, num)
  {
    if num <= |b| {
      if IsValid(b, row, col, num) {
        GreedyNeverUndoes(b, pick, row, col, num);
      } else {
        GreedyDigitsValue(b, pick, row, col, num + 1);
      }
    }
  }

  /** When the greedy fill does fill a consistent board with digits in range, it
      has found a solution. */
  lemma GreedySound(b: Board, pick: Pick)
    requires WellFormed(b) && Consistent(b) && InRange(b)
    ensures var r := GreedySolve(b, pick).board;
      Full(r) ==> Solution(b, r)
  {
    GreedySolveFills(b, pick);
  }

  // ---------------------------------------------------------------------------
  // The greedy fill is not complete
  // ---------------------------------------------------------------------------

  /** A 4 x 4 puzzle with three empty cells. */
  function Trap(): (b: Board)
    ensures WellFormed(b)
  {
    assert Isqrt(4) == 2 by {
      assert IsqrtFrom(4, 2) == 2;
      assert IsqrtFrom(4, 1) == 2;
    }
    [[1, 2, 3, 4],
     [3, 4, 1, 2],
     [2, 0, 4, 0],
     [4, 0, 2, 3]]
  }

  /** Its solution. */
  function TrapSolution(): (e: Board)
    ensures |e| == 4 && IsBoard(e)
  {
    [[1, 2, 3, 4],
     [3, 4, 1, 2],
     [2, 3, 4, 1],
     [4, 1, 2, 3]]
  }

  /** The first-fit fill writes 1 into (2, 1), which `is_valid` accepts, and is
      then stuck at (2, 3); the backtracking search, which takes the 1 back,
      solves the puzzle. */
  lemma GreedyMissesSolution()
    ensures Solution(Trap(), TrapSolution())
    ensures Solve(Trap()).solved
    ensures !Full(GreedySolve(Trap(), FirstEmpty).board)
  {
    var b := Trap();
    TrapSolved();
    SolveComplete(b, TrapSolution());
    TrapFirstWrite();
    GreedyNeverUndoes(b, FirstEmpty, 2, 1, 1);
    var b1 := Set(b, 2, 1, 1);
    TrapStuck();
    GreedyDigitsValue(b1, FirstEmpty, 2, 3, 1);
    assert GreedySolve(b1, FirstEmpty).board == b1;
    assert b1[2][3] == 0;
  }

  /** The first empty cell of the puzzle is (2, 1), and 1 is valid there. */
  lemma TrapFirstWrite()
    ensures FindEmptyCell(Trap()) == Some((2, 1))
    ensures IsValid(Trap(), 2, 1, 1)
  {
    FindEmptyCellMeans(Trap());
    assert Isqrt(4) == 2 by {
      assert IsqrtFrom(4, 2) == 2;
      assert IsqrtFrom(4, 1) == 2;
    }
    IsValidMeans(Trap(), 2, 1, 1);
    assert BoxStart(2, 2) == 2 && BoxStart(2, 1) == 0;
  }

  /** After that write the first empty cell is (2, 3), and no digit is valid there. */
  lemma TrapStuck()
    ensures WellFormed(Set(Trap(), 2, 1, 1))
    ensures FindEmptyCell(Set(Trap(), 2, 1, 1)) == Some((2, 3))
    ensures forall d | 1 <= d <= 4 :: !IsValid(Set(Trap(), 2, 1, 1), 2, 3, d)
  {
    var b1 := Set(Trap(), 2, 1, 1);
    assert IsqrtFrom(4, 2) == 2;
    assert IsqrtFrom(4, 1) == 2;
    FindEmptyCellMeans(b1);
    forall d | 1 <= d <= 4
      ensures !IsValid(b1, 2, 3, d)
    {
      IsValidMeans(b1, 2, 3, d);
      if d == 1 {
        assert b1[2][1] == 1;
      } else if d == 2 {
        assert b1[2][0] == 2;
      } else if d == 3 {
        assert b1[3][3] == 3;
      } else {
        assert b1[2][2] == 4;
      }
    }
  }

  lemma TrapSolved()
    ensures Solution(Trap(), TrapSolution())
  {
    var e := TrapSolution();
    TrapBase();
    forall r, c | 0 <= r < 4 && 0 <= c < 4 && e[r][c] != 0
      ensures Unique(e, r, c)
    {
      TrapUnique(r, c);
    }
  }

  lemma TrapBase()
    ensures WellFormed(TrapSolution()) && Base(TrapSolution()) == 2
  {
    assert IsqrtFrom(4, 2) == 2;
    assert IsqrtFrom(4, 1) == 2;
  }

  lemma TrapUnique(r: nat, c: nat)
    requires r < 4 && c < 4 && WellFormed(TrapSolution()) && Base(TrapSolution()) == 2
    ensures Unique(TrapSolution(), r, c)
  {
    assert BoxStart(2, 0) == 0 && BoxStart(2, 1) == 0 && BoxStart(2, 2) == 2 && BoxStart(2, 3) == 2;
  }

  // ---------------------------------------------------------------------------
  // The solvers on the board array
  // ---------------------------------------------------------------------------

  /** One turn of the digit loop with a valid digit, on values: a truthy
      recursive result ends the call; otherwise the digit is cleared and the
      loop goes on from the board the recursive call left. */
  lemma GreedyTurn(b: Board, pick: Pick, row: nat, col: nat, num: int, sub: PyValue, after: Board)
    requires WellFormed(b) && row < |b| && col < |b| && b[row][col] == 0 && 1 <= num <= |b|
    requires IsValid(b, row, col, num)
    requires WellFormed(Set(b, row, col, num))
    requires Fill(sub, after) == GreedySolve(Set(b, row, col, num), pick)
    ensures Truthy(sub) ==> GreedyDigits(b, pick, row, col, num) == Fill(PyPair(PyBool(true), PyInt(0)), after)
    ensures |ZeroCells(Set(b, row, col, num))| < |ZeroCells(b)|
    ensures !Truthy(sub) ==>
      && WellFormed(Set(after, row, col, 0))
      && |ZeroCells(Set(after, row, col, 0))| <= |ZeroCells(b)|
      && GreedyDigits(b, pick, row, col, num) == GreedyDigits(Set(after, row, col, 0), pick, row, col, num + 1)
  {
    WriteShrinksZeros(b, row, col, num);
    UndoKeepsZeros(b, row, col, num, after);
  }

  /** A digit that `is_valid` rejects is skipped. */
  lemma GreedySkip(b: Board, pick: Pick, row: nat, col: nat, num: int)
    requires WellFormed(b) && row < |b| && col < |b| && b[row][col] == 0 && 1 <= num <= |b|
    requires !IsValid(b, row, col, num)
    ensures GreedyDigits(b, pick, row, col, num) == GreedyDigits(b, pick, row, col, num + 1)
  {
  }

  /** The body shared by `solve_dfs` and `solve_mrv`: choose the cell, then
      the digit loop of the source. */
  method GreedySearch(board: array2<int>, pick: Pick) returns (result: PyValue)
    requires WellFormedArray(board)
    modifies board
    ensures Fill(result, Cells(board)) == GreedySolve(old(Cells(board)), pick)
    decreases |ZeroCells(Cells(board))|, 1
  {
    ghost var b := Cells(board);
    var empty;
    match pick {
      case FirstEmpty => empty := FindEmptyCell(Cells(board));
      case FewestOptions => empty := FindEmptyCellMrv(board);
    }
    if empty.None? {
      return PyBool(true);
    }
    var row, col := empty.value.0, empty.value.1;
    var size := board.Length0;
    var num := 1;
    while num <= size
      invariant 1 <= num <= size + 1
      invariant WellFormedArray(board) && board[row, col] == 0
      invariant |ZeroCells(Cells(board))| <= |ZeroCells(b)|
      invariant GreedyDigits(Cells(board), pick, row, col, num) == GreedySolve(b, pick)
      decreases size + 1 - num
    {
      var done;
      done, result := GreedyTurnOnBoard(board, pick, row, col, num);
      if done {
        return result;
      }
      num := num + 1;
    }
    return PyPair(PyBool(false), PyInt(0));
  }

  /** One turn of the digit loop on the board array: write the digit if it is
      valid, recurse, and either return `(True, 0)` or clear the digit again. */
  method GreedyTurnOnBoard(board: array2<int>, pick: Pick, row: nat, col: nat, num: int)
    returns (done: bool, result: PyValue)
    requires WellFormedArray(board) && row < board.Length0 && col < board.Length0
    requires board[row, col] == 0 && 1 <= num <= board.Length0
    modifies board
    ensures done ==> Fill(result, Cells(board)) == GreedyDigits(old(Cells(board)), pick, row, col, num)
    ensures !done ==>
      && WellFormedArray(board) && board[row, col] == 0
      && |ZeroCells(Cells(board))| <= |ZeroCells(old(Cells(board)))|
      && GreedyDigits(Cells(board), pick, row, col, num + 1) == GreedyDigits(old(Cells(board)), pick, row, col, num)
    decreases |ZeroCells(Cells(board))|, 0
  {
    ghost var cur := Cells(board);
    if !IsValid(Cells(board), row, col, num) {
      GreedySkip(cur, pick, row, col, num);
      return false, PyBool(false);
    }
    Put(board, row, col, num);
    WriteShrinksZeros(cur, row, col, num);
    var sub := GreedySearch(board, pick);
    ghost var after := Cells(board);
    GreedyTurn(cur, pick, row, col, num, sub, after);
    if Truthy(sub) {
      return true, PyPair(PyBool(true), PyInt(0));
    }
    Put(board, row, col, 0);
    return false, PyBool(false);
  }

  /** `solve_dfs`, without its timing: the inner result and the board it leaves. */
  method SolveDfs(board: array2<int>) returns (result: PyValue)
    requires WellFormedArray(board)
    modifies board
    ensures Fill(result, Cells(board)) == GreedySolve(old(Cells(board)), FirstEmpty)
  {
    result := GreedySearch(board, FirstEmpty);
  }

  /** `solve_mrv`, without its timing. */
  method SolveMrv(board: array2<int>) returns (result: PyValue)
    requires WellFormedArray(board)
    modifies board
    ensures Fill(result, Cells(board)) == GreedySolve(old(Cells(board)), FewestOptions)
  {
    result := GreedySearch(board, FewestOptions);
  }

  /** The benchmarked `solve_backtracking`: it runs the backtracking fill and
      reports `True` whether or not the puzzle was solved. */
  method SolveBacktrackingReported(board: array2<int>) returns (result: PyValue)
    requires WellFormedArray(board)
    modifies board
    ensures result == PyBool(true)
    ensures Cells(board) == Solve(old(Cells(board))).board
  {
    var solved := SolveBacktracking(board);
    result := PyBool(true);
  }
}
