/** Sudoku on an N x N board whose side N is a perfect square: the row, column
    and box check, the row-major empty-cell search, and the backtracking fill
    together with its value-level specification `Solve`. The 9 x 9 solver is the
    instance N = 9 (box side 3). A cell holding 0 is empty. */
module Sudoku {
  import opened Common
  import opened Grids

  type Board = seq<seq<int>>

  /** A board cell as (row, column). */
  type Cell = (int, int)

  /** The board is N x N. */
  predicate IsBoard(b: Board) {
    forall i | 0 <= i < |b| :: |b[i]| == |b|
  }

  // ---------------------------------------------------------------------------
  // The box side: the integer square root of the board size
  // ---------------------------------------------------------------------------

  function IsqrtFrom(n: nat, r: nat): (s: nat)
    requires r * r <= n
    ensures s * s <= n < (s + 1) * (s + 1)
    decreases n - r * r
  {
    if (r + 1) * (r + 1) > n then r else IsqrtFrom(n, r + 1)
  }

  /** The integer square root of `n`: `int(n ** 0.5)` for the sizes a board has. */
  function Isqrt(n: nat): (s: nat)
    ensures s * s <= n < (s + 1) * (s + 1)
  {
    IsqrtFrom(n, 0)
  }

  predicate PerfectSquare(n: nat) {
    Isqrt(n) * Isqrt(n) == n
  }

  /** A board the solvers accept: square, with a perfect-square side. */
  predicate WellFormed(b: Board) {
    IsBoard(b) && PerfectSquare(|b|)
  }

  /** The box side of the board. */
  function Base(b: Board): (base: nat)
    requires WellFormed(b)
    ensures base * base == |b|
    ensures |b| > 0 ==> base > 0
  {
    Isqrt(|b|)
  }

  lemma NineHasBase3()
    ensures Isqrt(9) == 3
  {
    assert IsqrtFrom(9, 3) == 3;
    assert IsqrtFrom(9, 2) == 3;
    assert IsqrtFrom(9, 1) == 3;
  }

  /** The first row (or column) of the box holding row (or column) `x`, that is
      `base * (x / base)`, computed by repeated subtraction so that the box
      reasoning stays linear. */
  function BoxStart(base: nat, x: nat): (s: nat)
    requires base > 0
    ensures s <= x < s + base
    decreases x
  {
    if x < base then 0 else base + BoxStart(base, x - base)
  }

  /** For the 9 x 9 board the box start is `3 * (x / 3)`. */
  lemma {:induction false} BoxStart3(x: nat)
    ensures BoxStart(3, x) == 3 * (x / 3)
    decreases x
  {
    if x >= 3 {
      BoxStart3(x - 3);
    }
  }

  /** A box that starts inside a board whose side is a multiple `base * k` ends inside it. */
  lemma {:induction false} BoxInBounds(base: nat, k: nat, x: nat)
    requires base > 0 && x < base * k
    ensures BoxStart(base, x) + base <= base * k
    decreases x
  {
    assert k >= 1;
    if x >= base {
      assert base * k == base * (k - 1) + base;
      BoxInBounds(base, k - 1, x - base);
    }
  }

  /** `i` lies in the box that starts at `BoxStart(base, x)`, so both share it. */
  lemma {:induction false} SameBox(base: nat, x: nat, i: nat)
    requires base > 0 && BoxStart(base, x) <= i < BoxStart(base, x) + base
    ensures BoxStart(base, i) == BoxStart(base, x)
    decreases x
  {
    if x >= base {
      SameBox(base, x - base, i - base);
    }
  }

  // ---------------------------------------------------------------------------
  // `is_valid`
  // ---------------------------------------------------------------------------

  /** `num` is in neither row `row` nor column `col`. */
  predicate LinesFree(b: Board, row: nat, col: nat, num: int)
    requires IsBoard(b) && row < |b| && col < |b|
  {
    forall k | 0 <= k < |b| :: b[row][k] != num && b[k][col] != num
  }

  /** `num` is nowhere in the `base` x `base` box with corner (`r0`, `c0`). */
  predicate BoxFree(b: Board, r0: nat, c0: nat, base: nat, num: int)
    requires IsBoard(b)
  {
    forall k, l | r0 <= k < r0 + base && c0 <= l < c0 + base && k < |b| && l < |b| :: b[k][l] != num
  }

  /** `num` occurs neither in row `row`, nor in column `col`, nor in the box of
      (`row`, `col`); the cell itself is part of all three, so a filled cell
      rejects its own value. */
  predicate Free(b: Board, row: nat, col: nat, num: int)
    requires WellFormed(b) && row < |b| && col < |b|
  {
    var base := Base(b);
    LinesFree(b, row, col, num) && BoxFree(b, BoxStart(base, row), BoxStart(base, col), base, num)
  }

  /** The scan of row `row` and column `col` from index `i` on. */
  function ScanLines(b: Board, row: nat, col: nat, num: int, i: nat): bool
    requires IsBoard(b) && row < |b| && col < |b| && i <= |b|
    decreases |b| - i
  {
    if i == |b| then true
    else if b[row][i] == num || b[i][col] == num then false
    else ScanLines(b, row, col, num, i + 1)
  }

  lemma {:induction false} ScanLinesMeans(b: Board, row: nat, col: nat, num: int, i: nat)
    requires IsBoard(b) && row < |b| && col < |b| && i <= |b|
    ensures ScanLines(b, row, col, num, i) <==> forall k | i <= k < |b| :: b[row][k] != num && b[k][col] != num
    decreases |b| - i
  {
    if i < |b| {
      ScanLinesMeans(b, row, col, num, i + 1);
    }
  }

  /** The scan of row `i` of a box, columns `j` .. `c0 + base - 1`. */
  function ScanBoxRow(b: Board, i: nat, c0: nat, base: nat, num: int, j: nat): bool
    requires IsBoard(b) && i < |b| && c0 <= j <= c0 + base <= |b|
    decreases c0 + base - j
  {
    if j == c0 + base then true
    else if b[i][j] == num then false
    else ScanBoxRow(b, i, c0, base, num, j + 1)
  }

  lemma {:induction false} ScanBoxRowMeans(b: Board, i: nat, c0: nat, base: nat, num: int, j: nat)
    requires IsBoard(b) && i < |b| && c0 <= j <= c0 + base <= |b|
    ensures ScanBoxRow(b, i, c0, base, num, j) <==> forall l | j <= l < c0 + base :: b[i][l] != num
    decreases c0 + base - j
  {
    if j < c0 + base {
      ScanBoxRowMeans(b, i, c0, base, num, j + 1);
    }
  }

  /** The scan of the box rows `i` .. `r0 + base - 1`. */
  function ScanBox(b: Board, r0: nat, c0: nat, base: nat, num: int, i: nat): bool
    requires IsBoard(b) && r0 <= i <= r0 + base <= |b| && c0 + base <= |b|
    decreases r0 + base - i
  {
    if i == r0 + base then true
    else if !ScanBoxRow(b, i, c0, base, num, c0) then false
    else ScanBox(b, r0, c0, base, num, i + 1)
  }

  lemma {:induction false} ScanBoxMeans(b: Board, r0: nat, c0: nat, base: nat, num: int, i: nat)
    requires IsBoard(b) && r0 <= i <= r0 + base <= |b| && c0 + base <= |b|
    ensures ScanBox(b, r0, c0, base, num, i) <==>
      forall k, l | i <= k < r0 + base && c0 <= l < c0 + base :: b[k][l] != num
    decreases r0 + base - i
  {
    if i < r0 + base {
      ScanBoxRowMeans(b, i, c0, base, num, c0);
      ScanBoxMeans(b, r0, c0, base, num, i + 1);
    }
  }

  /** `is_valid`: the row and column scan, then the box scan. */
  function IsValid(b: Board, row: nat, col: nat, num: int): bool
    requires WellFormed(b) && row < |b| && col < |b|
  {
    var base := Base(b);
    BoxInBounds(base, base, row);
    BoxInBounds(base, base, col);
    ScanLines(b, row, col, num, 0)
      && ScanBox(b, BoxStart(base, row), BoxStart(base, col), base, num, BoxStart(base, row))
  }

  /** `is_valid` accepts `num` exactly when it is free in the row, the column and
      the box of the cell. */
  lemma IsValidMeans(b: Board, row: nat, col: nat, num: int)
    requires WellFormed(b) && row < |b| && col < |b|
    ensures IsValid(b, row, col, num) <==> Free(b, row, col, num)
  {
    var base := Base(b);
    BoxInBounds(base, base, row);
    BoxInBounds(base, base, col);
    ScanLinesMeans(b, row, col, num, 0);
    ScanBoxMeans(b, BoxStart(base, row), BoxStart(base, col), base, num, BoxStart(base, row));
  }

  /** The 9 x 9 check: `num` is not in the row, the column or the 3 x 3 block. */
  function IsValid9(b: Board, row: nat, col: nat, num: int): (ok: bool)
    requires IsBoard(b) && |b| == 9 && row < 9 && col < 9
    ensures ok <==>
      && (forall k | 0 <= k < 9 :: b[row][k] != num && b[k][col] != num)
      && (forall k, l | 3 * (row / 3) <= k < 3 * (row / 3) + 3 && 3 * (col / 3) <= l < 3 * (col / 3) + 3 :: b[k][l] != num)
  {
    NineHasBase3();
    BoxStart3(row);
    BoxStart3(col);
    IsValidMeans(b, row, col, num);
    IsValid(b, row, col, num)
  }

  // ---------------------------------------------------------------------------
  // `find_empty_cell`
  // ---------------------------------------------------------------------------

  /** Cell (i, j) comes before (r, c) in row-major order. */
  predicate Before(i: int, j: int, r: int, c: int) {
    i < r || (i == r && j < c)
  }

  /** Every cell is filled. */
  predicate Full(b: Board)
    requires IsBoard(b)
  {
    forall i, j | 0 <= i < |b| && 0 <= j < |b| :: b[i][j] != 0
  }

  /** The empty cells of the board. */
  function ZeroCells(b: Board): (z: set<Cell>)
    requires IsBoard(b)
    ensures forall i, j {:trigger (i, j) in z} | 0 <= i < |b| && 0 <= j < |b| :: (i, j) in z <==> b[i][j] == 0
    ensures forall p | p in z :: 0 <= p.0 < |b| && 0 <= p.1 < |b|
  {
    set i, j | 0 <= i < |b| && 0 <= j < |b| && b[i][j] == 0 :: (i, j)
  }

  lemma FullHasNoZeroCells(b: Board)
    requires IsBoard(b) && Full(b)
    ensures ZeroCells(b) == {}
  {
    assert forall p :: p !in ZeroCells(b);
  }

  function FindInRow(b: Board, row: nat, col: nat): (r: Option<Cell>)
    requires IsBoard(b) && row < |b| && col <= |b|
    ensures r.Some? ==> r.value.0 == row && col <= r.value.1 < |b| && b[row][r.value.1] == 0
    decreases |b| - col
  {
    if col == |b| then None
    else if b[row][col] == 0 then Some((row, col))
    else FindInRow(b, row, col + 1)
  }

  lemma {:induction false} FindInRowMeans(b: Board, row: nat, col: nat)
    requires IsBoard(b) && row < |b| && col <= |b|
    ensures var r := FindInRow(b, row, col);
      && (r.None? <==> forall j | col <= j < |b| :: b[row][j] != 0)
      && (r.Some? ==> forall j | col <= j < r.value.1 :: b[row][j] != 0)
    decreases |b| - col
  {
    if col < |b| && b[row][col] != 0 {
      FindInRowMeans(b, row, col + 1);
    }
  }

  function FindFromRow(b: Board, row: nat): (r: Option<Cell>)
    requires IsBoard(b) && row <= |b|
    ensures r.Some? ==> row <= r.value.0 < |b| && 0 <= r.value.1 < |b| && b[r.value.0][r.value.1] == 0
    decreases |b| - row
  {
    if row == |b| then None
    else match FindInRow(b, row, 0)
      case Some(cell) => Some(cell)
      case None => FindFromRow(b, row + 1)
  }

  lemma {:induction false} FindFromRowMeans(b: Board, row: nat)
    requires IsBoard(b) && row <= |b|
    ensures var r := FindFromRow(b, row);
      && (r.None? <==> forall i, j | row <= i < |b| && 0 <= j < |b| :: b[i][j] != 0)
      && (r.Some? ==> forall i, j | row <= i < |b| && 0 <= j < |b| && Before(i, j, r.value.0, r.value.1) :: b[i][j] != 0)
    decreases |b| - row
  {
    if row < |b| {
      FindInRowMeans(b, row, 0);
      if FindInRow(b, row, 0).None? {
        FindFromRowMeans(b, row + 1);
      }
    }
  }

  /** `find_empty_cell`: the first empty cell in row-major order, or `None` when
      the board is full. */
  function FindEmptyCell(b: Board): (r: Option<Cell>)
    requires IsBoard(b)
    ensures r.Some? ==> 0 <= r.value.0 < |b| && 0 <= r.value.1 < |b| && b[r.value.0][r.value.1] == 0
  {
    FindFromRow(b, 0)
  }

  /** `find_empty_cell` answers `None` exactly on a full board, and otherwise the
      first empty cell in row-major order. */
  lemma FindEmptyCellMeans(b: Board)
    requires IsBoard(b)
    ensures FindEmptyCell(b).None? <==> Full(b)
    ensures var r := FindEmptyCell(b);
      r.Some? ==> forall i, j | 0 <= i < |b| && 0 <= j < |b| && Before(i, j, r.value.0, r.value.1) :: b[i][j] != 0
  {
    FindFromRowMeans(b, 0);
  }

  // ---------------------------------------------------------------------------
  // Backtracking fill, as a function on values
  // ---------------------------------------------------------------------------

  /** One write `board[row][col] = value` made by the solver. */
  datatype Write = Write(row: int, col: int, value: int)

  /** Whether the fill succeeded, the board it leaves, and every write it made in
      order (a digit, or 0 when a digit is taken back). */
  datatype Outcome = Outcome(solved: bool, board: Board, writes: seq<Write>)

  function Candidates(size: int, num: int): nat {
    if num <= size then size + 1 - num else 0
  }

  /** What a call leaves behind: the result flag and the board. */
  function Result(o: Outcome): (bool, Board) {
    (o.solved, o.board)
  }

  lemma WriteShrinksZeros(b: Board, row: nat, col: nat, num: int)
    requires IsBoard(b) && row < |b| && col < |b| && b[row][col] == 0 && num != 0
    ensures IsBoard(Set(b, row, col, num))
    ensures |ZeroCells(Set(b, row, col, num))| < |ZeroCells(b)|
  {
    var b1 := Set(b, row, col, num);
    assert ZeroCells(b1) == ZeroCells(b) - {(row, col)};
    ProperSubsetCard(ZeroCells(b1), ZeroCells(b));
  }

  /** `solve_backtracking`: fill the first empty cell with the digits 1..N in
      ascending order, recurse, and take the digit back when the rest fails. A
      failed call leaves the board exactly as it found it. */
  function Solve(b: Board): (r: Outcome)
    requires WellFormed(b)
    ensures IsBoard(r.board) && |r.board| == |b|
    ensures !r.solved ==> r.board == b
    decreases |ZeroCells(b)|, 1, 0
  {
    match FindEmptyCell(b)
      case None => Outcome(true, b, [])
      case Some(cell) => TryDigits(b, cell.0, cell.1, 1)
  }

  /** The digit loop at the empty cell (`row`, `col`), from digit `num` on. */
  function TryDigits(b: Board, row: nat, col: nat, num: int): (r: Outcome)
    requires WellFormed(b) && row < |b| && col < |b| && b[row][col] == 0 && 1 <= num
    ensures IsBoard(r.board) && |r.board| == |b|
    ensures !r.solved ==> r.board == b
    decreases |ZeroCells(b)|, 0, Candidates(|b|, num)
  {
    if num > |b| then Outcome(false, b, [])
    else if IsValid(b, row, col, num) then
      WriteShrinksZeros(b, row, col, num);
      var sub := Solve(Set(b, row, col, num));
      if sub.solved then Outcome(true, sub.board, [Write(row, col, num)] + sub.writes)
      else
        SetSetBack(b, row, col, num);
        var rest := TryDigits(Set(sub.board, row, col, 0), row, col, num + 1);
        Outcome(rest.solved, rest.board, [Write(row, col, num)] + sub.writes + [Write(row, col, 0)] + rest.writes)
    else TryDigits(b, row, col, num + 1)
  }

  /** One turn of the digit loop: digit `num` is skipped, or written and kept, or
      written, taken back, and followed by the next digits. */
  lemma TryDigitsUnfold(b: Board, row: nat, col: nat, num: int)
    requires WellFormed(b) && row < |b| && col < |b| && b[row][col] == 0 && 1 <= num <= |b|
    ensures WellFormed(Set(b, row, col, num))
    ensures |ZeroCells(Set(b, row, col, num))| < |ZeroCells(b)|
    ensures var r := TryDigits(b, row, col, num);
      var rest := TryDigits(b, row, col, num + 1);
      if !IsValid(b, row, col, num) then r == rest
      else
        var sub := Solve(Set(b, row, col, num));
        if sub.solved then r == Outcome(true, sub.board, [Write(row, col, num)] + sub.writes)
        else r == Outcome(rest.solved, rest.board, [Write(row, col, num)] + sub.writes + [Write(row, col, 0)] + rest.writes)
  {
    WriteShrinksZeros(b, row, col, num);
    if IsValid(b, row, col, num) {
      SetSetBack(b, row, col, num);
    }
  }

  /** The same turn, seen only through the result flag and the board. */
  lemma TryDigitsStep(b: Board, row: nat, col: nat, num: int)
    requires WellFormed(b) && row < |b| && col < |b| && b[row][col] == 0 && 1 <= num <= |b|
    ensures WellFormed(Set(b, row, col, num))
    ensures |ZeroCells(Set(b, row, col, num))| < |ZeroCells(b)|
    ensures var r := TryDigits(b, row, col, num);
      if !IsValid(b, row, col, num) then Result(r) == Result(TryDigits(b, row, col, num + 1))
      else
        var sub := Solve(Set(b, row, col, num));
        if sub.solved then Result(r) == Result(sub)
        else Result(r) == Result(TryDigits(b, row, col, num + 1))
  {
    TryDigitsUnfold(b, row, col, num);
  }

  // ---------------------------------------------------------------------------
  // What the search guarantees
  // ---------------------------------------------------------------------------

  /** Filled cells keep their value. */
  ghost predicate KeepsClues(b: Board, after: Board)
    requires IsBoard(b) && IsBoard(after) && |after| == |b|
  {
    forall i, j | 0 <= i < |b| && 0 <= j < |b| && b[i][j] != 0 :: after[i][j] == b[i][j]
  }

  /** Every cell holds 0 or a digit 1..N. */
  predicate InRange(b: Board)
    requires IsBoard(b)
  {
    forall i, j | 0 <= i < |b| && 0 <= j < |b| :: 0 <= b[i][j] <= |b|
  }

  /** A board that keeps the clues of `b` with one empty cell written keeps the clues of `b`. */
  lemma KeepsCluesThroughWrite(b: Board, row: nat, col: nat, num: int, after: Board)
    requires IsBoard(b) && row < |b| && col < |b| && b[row][col] == 0
    requires IsBoard(after) && |after| == |b| && KeepsClues(Set(b, row, col, num), after)
    ensures KeepsClues(b, after)
  {
    var b1 := Set(b, row, col, num);
    forall i, j | 0 <= i < |b| && 0 <= j < |b| && b[i][j] != 0
      ensures after[i][j] == b[i][j]
    {
      assert b1[i][j] == b[i][j];
    }
  }

  /** Writing a digit 1..N keeps every cell in range. */
  lemma InRangeAfterWrite(b: Board, row: nat, col: nat, num: int)
    requires IsBoard(b) && row < |b| && col < |b| && 1 <= num <= |b| && InRange(b)
    ensures InRange(Set(b, row, col, num))
  {
  }

  /** The search writes only into empty cells and only digits 1..N, and on success
      leaves no empty cell. */
  lemma {:induction false} SolveFills(b: Board)
    requires WellFormed(b)
    ensures var r := Solve(b);
      && KeepsClues(b, r.board)
      && (InRange(b) ==> InRange(r.board))
      && (r.solved ==> Full(r.board))
    decreases |ZeroCells(b)|, 1, 0
  {
    FindEmptyCellMeans(b);
    match FindEmptyCell(b)
      case None =>
      case Some(cell) => TryDigitsFills(b, cell.0, cell.1, 1);
  }

  lemma {:induction false} TryDigitsFills(b: Board, row: nat, col: nat, num: int)
    requires WellFormed(b) && row < |b| && col < |b| && b[row][col] == 0 && 1 <= num
    ensures var r := TryDigits(b, row, col, num);
      && KeepsClues(b, r.board)
      && (InRange(b) ==> InRange(r.board))
      && (r.solved ==> Full(r.board))
    decreases |ZeroCells(b)|, 0, Candidates(|b|, num)
  {
    if num <= |b| {
      TryDigitsStep(b, row, col, num);
      var b1 := Set(b, row, col, num);
      if IsValid(b, row, col, num) {
        var sub := Solve(b1);
        if sub.solved {
          SolveFills(b1);
          KeepsCluesThroughWrite(b, row, col, num, sub.board);
          if InRange(b) {
            InRangeAfterWrite(b, row, col, num);
          }
        } else {
          TryDigitsFills(b, row, col, num + 1);
        }
      } else {
        TryDigitsFills(b, row, col, num + 1);
      }
    } else {
      assert KeepsClues(b, b);
    }
  }

  /** The value at filled cell (`r`, `c`) occurs nowhere else in its row, column or box. */
  ghost predicate Unique(b: Board, r: nat, c: nat)
    requires WellFormed(b) && r < |b| && c < |b|
  {
    var base := Base(b);
    && (forall k | 0 <= k < |b| && k != c :: b[r][k] != b[r][c])
    && (forall k | 0 <= k < |b| && k != r :: b[k][c] != b[r][c])
    && (forall k, l | BoxStart(base, r) <= k < BoxStart(base, r) + base
                   && BoxStart(base, c) <= l < BoxStart(base, c) + base
                   && k < |b| && l < |b| && (k != r || l != c) :: b[k][l] != b[r][c])
  }

  /** No filled cell clashes with another in its row, column or box. */
  ghost predicate Consistent(b: Board)
    requires WellFormed(b)
  {
    forall r, c {:trigger Unique(b, r, c)} | 0 <= r < |b| && 0 <= c < |b| && b[r][c] != 0 :: Unique(b, r, c)
  }

  /** `e` is a solved board that keeps every filled cell of `b`. */
  ghost predicate Solution(b: Board, e: Board)
    requires WellFormed(b)
  {
    && |e| == |b| && IsBoard(e)
    && (forall i, j | 0 <= i < |b| && 0 <= j < |b| :: 1 <= e[i][j] <= |b|)
    && KeepsClues(b, e)
    && Consistent(e)
  }

  /** A digit that `is_valid` accepts differs from every filled cell on the
      row, the column and the box of the cell it goes into. */
  lemma FreeDiffers(b: Board, row: nat, col: nat, num: int, r: nat, c: nat)
    requires WellFormed(b) && row < |b| && col < |b| && Free(b, row, col, num)
    requires r < |b| && c < |b| && (r != row || c != col)
    ensures var base := Base(b);
      (r == row || c == col
       || (BoxStart(base, r) <= row < BoxStart(base, r) + base && BoxStart(base, c) <= col < BoxStart(base, c) + base))
      ==> b[r][c] != num
  {
    var base := Base(b);
    if r == row {
      assert b[row][c] != num;
    } else if c == col {
      assert b[r][col] != num;
    } else if BoxStart(base, r) <= row < BoxStart(base, r) + base && BoxStart(base, c) <= col < BoxStart(base, c) + base {
      SameBox(base, r, row);
      SameBox(base, c, col);
      assert BoxFree(b, BoxStart(base, row), BoxStart(base, col), base, num);
    }
  }

  /** After a valid write, a filled cell other than the written one is still unique. */
  lemma ValidWriteKeepsUnique(b: Board, row: nat, col: nat, num: int, r: nat, c: nat)
    requires WellFormed(b) && row < |b| && col < |b| && b[row][col] == 0
    requires Free(b, row, col, num)
    requires r < |b| && c < |b| && (r != row || c != col) && b[r][c] != 0 && Unique(b, r, c)
    ensures Unique(Set(b, row, col, num), r, c)
  {
    var base := Base(b);
    var b1 := Set(b, row, col, num);
    var v := b[r][c];
    assert b1[r][c] == v;
    FreeDiffers(b, row, col, num, r, c);
    assert Base(b1) == base;
    forall k | 0 <= k < |b| && k != c
      ensures b1[r][k] != v
    {
      assert b[r][k] != v;
    }
    forall k | 0 <= k < |b| && k != r
      ensures b1[k][c] != v
    {
      assert b[k][c] != v;
    }
    forall k, l | BoxStart(base, r) <= k < BoxStart(base, r) + base
               && BoxStart(base, c) <= l < BoxStart(base, c) + base
               && k < |b| && l < |b| && (k != r || l != c)
      ensures b1[k][l] != v
    {
      assert b[k][l] != v;
    }
  }

  /** Writing a digit that `is_valid` accepts into an empty cell keeps the board
      consistent. */
  lemma ValidWriteKeepsConsistent(b: Board, row: nat, col: nat, num: int)
    requires WellFormed(b) && row < |b| && col < |b| && b[row][col] == 0 && num != 0
    requires Consistent(b) && IsValid(b, row, col, num)
    ensures Consistent(Set(b, row, col, num))
  {
    var b1 := Set(b, row, col, num);
    IsValidMeans(b, row, col, num);
    assert Base(b1) == Base(b);
    forall r, c | 0 <= r < |b| && 0 <= c < |b| && b1[r][c] != 0
      ensures Unique(b1, r, c)
    {
      if r != row || c != col {
        ValidWriteKeepsUnique(b, row, col, num, r, c);
      }
    }
  }

  /** Every board the search passes through, and so the board it returns, stays
      consistent. */
  lemma {:induction false} SolveKeepsConsistent(b: Board)
    requires WellFormed(b) && Consistent(b)
    ensures Consistent(Solve(b).board)
    decreases |ZeroCells(b)|, 1, 0
  {
    match FindEmptyCell(b)
      case None =>
      case Some(cell) => TryDigitsKeepsConsistent(b, cell.0, cell.1, 1);
  }

  lemma {:induction false} TryDigitsKeepsConsistent(b: Board, row: nat, col: nat, num: int)
    requires WellFormed(b) && row < |b| && col < |b| && b[row][col] == 0 && 1 <= num
    requires Consistent(b)
    ensures Consistent(TryDigits(b, row, col, num).board)
    decreases |ZeroCells(b)|, 0, Candidates(|b|, num)
  {
    if num <= |b| {
      TryDigitsStep(b, row, col, num);
      if IsValid(b, row, col, num) {
        if Solve(Set(b, row, col, num)).solved {
          ValidWriteKeepsConsistent(b, row, col, num);
          SolveKeepsConsistent(Set(b, row, col, num));
        } else {
          TryDigitsKeepsConsistent(b, row, col, num + 1);
        }
      } else {
        TryDigitsKeepsConsistent(b, row, col, num + 1);
      }
    }
  }

  /** A successful fill of a consistent board with digits in range solves it. */
  lemma SolveSound(b: Board)
    requires WellFormed(b) && Consistent(b) && InRange(b)
    ensures Solve(b).solved ==> Solution(b, Solve(b).board)
  {
    SolveFills(b);
    SolveKeepsConsistent(b);
  }

  /** A digit a solution puts into an empty cell passes `is_valid`. */
  lemma SolutionDigitIsValid(b: Board, e: Board, row: nat, col: nat)
    requires WellFormed(b) && Solution(b, e) && row < |b| && col < |b| && b[row][col] == 0
    ensures IsValid(b, row, col, e[row][col])
  {
    var base := Base(b);
    var num := e[row][col];
    IsValidMeans(b, row, col, num);
    assert Unique(e, row, col);
    assert LinesFree(b, row, col, num) by {
      forall k | 0 <= k < |b|
        ensures b[row][k] != num && b[k][col] != num
      {
        assert b[row][k] != 0 ==> b[row][k] == e[row][k];
        assert b[k][col] != 0 ==> b[k][col] == e[k][col];
      }
    }
    assert BoxFree(b, BoxStart(base, row), BoxStart(base, col), base, num) by {
      forall k, l | BoxStart(base, row) <= k < BoxStart(base, row) + base
                 && BoxStart(base, col) <= l < BoxStart(base, col) + base
                 && k < |b| && l < |b|
        ensures b[k][l] != num
      {
        assert b[k][l] != 0 ==> b[k][l] == e[k][l];
      }
    }
  }

  /** A solution of `b` is a solution of `b` with one empty cell filled as in the solution. */
  lemma SolutionThroughWrite(b: Board, e: Board, row: nat, col: nat)
    requires WellFormed(b) && Solution(b, e) && row < |b| && col < |b| && b[row][col] == 0
    requires WellFormed(Set(b, row, col, e[row][col]))
    ensures Solution(Set(b, row, col, e[row][col]), e)
  {
    var b1 := Set(b, row, col, e[row][col]);
    forall i, j | 0 <= i < |b| && 0 <= j < |b| && b1[i][j] != 0
      ensures e[i][j] == b1[i][j]
    {
      if i != row || j != col {
        assert b1[i][j] == b[i][j];
      }
    }
  }

  /** The search is exhaustive: if the board has a solution, the fill succeeds.
      A failed fill therefore proves that the puzzle has no solution. */
  lemma {:induction false} SolveComplete(b: Board, e: Board)
    requires WellFormed(b) && Solution(b, e)
    ensures Solve(b).solved
    decreases |ZeroCells(b)|, 1, 0
  {
    FindEmptyCellMeans(b);
    match FindEmptyCell(b)
      case None =>
      case Some(cell) => TryDigitsComplete(b, cell.0, cell.1, 1, e);
  }

  lemma {:induction false} TryDigitsComplete(b: Board, row: nat, col: nat, num: int, e: Board)
    requires WellFormed(b) && row < |b| && col < |b| && b[row][col] == 0
    requires Solution(b, e) && 1 <= num <= e[row][col]
    ensures TryDigits(b, row, col, num).solved
    decreases |ZeroCells(b)|, 0, Candidates(|b|, num)
  {
    TryDigitsStep(b, row, col, num);
    if num == e[row][col] {
      SolutionDigitIsValid(b, e, row, col);
      SolutionThroughWrite(b, e, row, col);
      SolveComplete(Set(b, row, col, num), e);
    } else if IsValid(b, row, col, num) {
      if !Solve(Set(b, row, col, num)).solved {
        TryDigitsComplete(b, row, col, num + 1, e);
      }
    } else {
      TryDigitsComplete(b, row, col, num + 1, e);
    }
  }

  /** On a consistent board with digits in range, the fill succeeds exactly when
      the puzzle has a solution, and then leaves one on the board. */
  lemma SolveDecides(b: Board)
    requires WellFormed(b) && Consistent(b) && InRange(b)
    ensures Solve(b).solved <==> exists e :: Solution(b, e)
    ensures Solve(b).solved ==> Solution(b, Solve(b).board)
  {
    SolveSound(b);
    if exists e :: Solution(b, e) {
      var e :| Solution(b, e);
      SolveComplete(b, e);
    }
  }

  /** Applying `writes` to `b` in order (a write outside the board is skipped). */
  function Replay(b: Board, writes: seq<Write>): (r: Board)
    requires IsBoard(b)
    ensures IsBoard(r) && |r| == |b|
    decreases |writes|
  {
    if writes == [] then b
    else
      var w := writes[0];
      var next := if 0 <= w.row < |b| && 0 <= w.col < |b| then Set(b, w.row, w.col, w.value) else b;
      Replay(next, writes[1..])
  }

  lemma {:induction false} ReplayAppend(b: Board, xs: seq<Write>, ys: seq<Write>)
    requires IsBoard(b)
    ensures Replay(b, xs + ys) == Replay(Replay(b, xs), ys)
    decreases |xs|
  {
    if xs == [] {
      assert xs + ys == ys;
    } else {
      var w := xs[0];
      var next := if 0 <= w.row < |b| && 0 <= w.col < |b| then Set(b, w.row, w.col, w.value) else b;
      assert (xs + ys)[0] == w;
      assert (xs + ys)[1..] == xs[1..] + ys;
      assert Replay(b, xs + ys) == Replay(next, xs[1..] + ys);
      assert Replay(b, xs) == Replay(next, xs[1..]);
      ReplayAppend(next, xs[1..], ys);
    }
  }

  /** Replaying one in-bounds write. */
  lemma ReplayOne(b: Board, w: Write, ys: seq<Write>)
    requires IsBoard(b) && 0 <= w.row < |b| && 0 <= w.col < |b|
    ensures Replay(b, [w] + ys) == Replay(Set(b, w.row, w.col, w.value), ys)
  {
    assert ([w] + ys)[0] == w;
    assert ([w] + ys)[1..] == ys;
  }

  /** The recorded writes, replayed on the input board, produce exactly the board
      the fill leaves behind. */
  lemma {:induction false} SolveReplays(b: Board)
    requires WellFormed(b)
    ensures Replay(b, Solve(b).writes) == Solve(b).board
    decreases |ZeroCells(b)|, 1, 0
  {
    match FindEmptyCell(b)
      case None =>
      case Some(cell) => TryDigitsReplays(b, cell.0, cell.1, 1);
  }

  lemma {:induction false} TryDigitsReplays(b: Board, row: nat, col: nat, num: int)
    requires WellFormed(b) && row < |b| && col < |b| && b[row][col] == 0 && 1 <= num
    ensures Replay(b, TryDigits(b, row, col, num).writes) == TryDigits(b, row, col, num).board
    decreases |ZeroCells(b)|, 0, Candidates(|b|, num)
  {
    if num <= |b| {
      if IsValid(b, row, col, num) {
        WriteShrinksZeros(b, row, col, num);
        var b1 := Set(b, row, col, num);
        SolveReplays(b1);
        var sub := Solve(b1);
        var w := Write(row, col, num);
        ReplayOne(b, w, sub.writes);
        if !sub.solved {
          SetSetBack(b, row, col, num);
          TryDigitsReplays(b, row, col, num + 1);
          var rest := TryDigits(b, row, col, num + 1);
          var z := Write(row, col, 0);
          ReplayAppend(b, [w] + sub.writes, [z] + rest.writes);
          assert ([w] + sub.writes) + ([z] + rest.writes) == [w] + sub.writes + [z] + rest.writes;
          ReplayOne(sub.board, z, rest.writes);
        }
      } else {
        TryDigitsReplays(b, row, col, num + 1);
      }
    }
  }

  // ---------------------------------------------------------------------------
  // The in-place solvers
  // ---------------------------------------------------------------------------

  /** The board array is N x N with N a perfect square. */
  predicate WellFormedArray(board: array2<int>)
    reads board
  {
    board.Length0 == board.Length1 && PerfectSquare(board.Length0)
  }

  /** `solve_backtracking`: fills `board` in place, leaving it unchanged on failure. */
  method SolveBacktracking(board: array2<int>) returns (solved: bool)
    requires WellFormedArray(board)
    modifies board
    ensures (solved, Cells(board)) == Result(Solve(old(Cells(board))))
    decreases |ZeroCells(Cells(board))|
  {
    ghost var b := Cells(board);
    var empty := FindEmptyCell(Cells(board));
    if empty.None? {
      return true;
    }
    var row, col := empty.value.0, empty.value.1;
    var size := board.Length0;
    var num := 1;
    while num <= size
      invariant 1 <= num <= size + 1
      invariant Cells(board) == b
      invariant Result(TryDigits(b, row, col, num)) == Result(Solve(b))
      decreases size + 1 - num
    {
      TryDigitsStep(b, row, col, num);
      if IsValid(Cells(board), row, col, num) {
        Put(board, row, col, num);
        solved := SolveBacktracking(board);
        if solved {
          return;
        }
        Put(board, row, col, 0);
        SetSetBack(b, row, col, num);
      }
      num := num + 1;
    }
    return false;
  }

  /** One turn of the digit loop of `VisualSolve`, on values: after the digit has
      been tried, either the search is over, or the loop goes on with the digit
      cleared and the turn's writes appended to the log. */
  lemma VisualTurn(b: Board, row: nat, col: nat, num: int, shown: seq<Write>,
                   solved: bool, after: Board, sub: seq<Write>)
    requires WellFormed(b) && row < |b| && col < |b| && b[row][col] == 0 && 1 <= num <= |b|
    requires IsValid(b, row, col, num)
    requires var rest := TryDigits(b, row, col, num);
      Solve(b) == Outcome(rest.solved, rest.board, shown + rest.writes)
    requires Outcome(solved, after, sub) == Solve(Set(b, row, col, num))
    ensures solved ==> Solve(b) == Outcome(true, after, shown + ([Write(row, col, num)] + sub))
    ensures !solved ==> after == Set(b, row, col, num)
    ensures !solved ==>
      var rest := TryDigits(b, row, col, num + 1);
      Solve(b) == Outcome(rest.solved, rest.board, (shown + ([Write(row, col, num)] + sub + [Write(row, col, 0)])) + rest.writes)
  {
    TryDigitsUnfold(b, row, col, num);
    if !solved {
      var rest := TryDigits(b, row, col, num + 1);
      var turn := [Write(row, col, num)] + sub + [Write(row, col, 0)];
      assert shown + (turn + rest.writes) == (shown + turn) + rest.writes;
    }
  }

  /** `visual_solve_console` and `visual_solve_pygame`: the same search, showing
      the board after every write; `shown` lists those writes in order. */
  method VisualSolve(board: array2<int>) returns (solved: bool, shown: seq<Write>)
    requires WellFormedArray(board)
    modifies board
    ensures Outcome(solved, Cells(board), shown) == Solve(old(Cells(board)))
    decreases |ZeroCells(Cells(board))|
  {
    ghost var b := Cells(board);
    shown := [];
    var empty := FindEmptyCell(Cells(board));
    if empty.None? {
      return true, [];
    }
    var row, col := empty.value.0, empty.value.1;
    var size := board.Length0;
    var num := 1;
    while num <= size
      invariant 1 <= num <= size + 1
      invariant Cells(board) == b
      invariant var rest := TryDigits(b, row, col, num);
        Solve(b) == Outcome(rest.solved, rest.board, shown + rest.writes)
      decreases size + 1 - num
    {
      if IsValid(Cells(board), row, col, num) {
        Put(board, row, col, num);
        WriteShrinksZeros(b, row, col, num);
        var sub;
        solved, sub := VisualSolve(board);
        ghost var after := Cells(board);
        VisualTurn(b, row, col, num, shown, solved, after, sub);
        if solved {
          shown := shown + ([Write(row, col, num)] + sub);
          return;
        }
        Put(board, row, col, 0);
        SetSetBack(b, row, col, num);
        shown := shown + ([Write(row, col, num)] + sub + [Write(row, col, 0)]);
      } else {
        TryDigitsUnfold(b, row, col, num);
      }
      num := num + 1;
    }
    return false, shown;
  }

  /** The solvers of the 9 x 9 game run the same search on a 9 x 9 board. */
  method SolveBacktracking9(board: array2<int>) returns (solved: bool)
    requires board.Length0 == 9 && board.Length1 == 9
    modifies board
    ensures (solved, Cells(board)) == Result(Solve(old(Cells(board))))
  {
    NineHasBase3();
    solved := SolveBacktracking(board);
  }
}
