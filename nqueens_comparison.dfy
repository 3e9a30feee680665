/** The solvers of the N-Queens comparison script. The backtracking solver
    works on an n-by-n 0/1 board and places queens column by column; the
    breadth-first solver keeps a FIFO queue of partial placements, one queen
    per row. Both are related to the one-queen-per-row enumeration
    `NQueens.Completions`. */
module NQueensComparison {
  import opened Common
  import opened Grids
  import opened NQueens

  /** The statistics dictionary both solvers return. */
  function Stats(t: Tally): (s: Statistics)
    ensures s.steps == t.steps && s.backtracks == t.backtracks && s.solutionsCount == |t.solutions|
  {
    Statistics(t.steps, t.backtracks, |t.solutions|)
  }

  // ---------------------------------------------------------------------------
  // `is_safe` on the 0/1 board
  // ---------------------------------------------------------------------------

  /** An n-by-n board. */
  predicate Square(g: seq<seq<int>>) {
    forall i | 0 <= i < |g| :: |g[i]| == |g|
  }

  /** The first loop of `is_safe`: no queen left of (`row`, `col`) on its row. */
  function RowClear(g: seq<seq<int>>, row: nat, col: nat, i: nat): bool
    requires Square(g) && row < |g| && col < |g| && i <= col
    decreases col - i
  {
    if i == col then true
    else if g[row][i] == 1 then false
    else RowClear(g, row, col, i + 1)
  }

  /** The second loop: the cells (`row`-t, `col`-t) from t on. */
  function UpLeftClear(g: seq<seq<int>>, row: nat, col: nat, t: nat): bool
    requires Square(g) && row < |g| && col < |g| && t <= col + 1
    decreases col + 1 - t
  {
    if t > row || t > col then true
    else if g[row - t][col - t] == 1 then false
    else UpLeftClear(g, row, col, t + 1)
  }

  /** The third loop: the cells (`row`+t, `col`-t) from t on. */
  function DownLeftClear(g: seq<seq<int>>, row: nat, col: nat, t: nat): bool
    requires Square(g) && row < |g| && col < |g| && t <= col + 1
    decreases col + 1 - t
  {
    if row + t >= |g| || t > col then true
    else if g[row + t][col - t] == 1 then false
    else DownLeftClear(g, row, col, t + 1)
  }

  /** `is_safe(board, row, col)`. */
  function IsSafeCell(g: seq<seq<int>>, row: nat, col: nat): bool
    requires Square(g) && row < |g| && col < |g|
  {
    RowClear(g, row, col, 0) && UpLeftClear(g, row, col, 0) && DownLeftClear(g, row, col, 0)
  }

  /** No queen stands left of (`row`, `col`) on its row, nor on either diagonal
      through it in the columns 0..`col`. */
  ghost predicate NoQueenLeft(g: seq<seq<int>>, row: int, col: int)
    requires Square(g)
  {
    forall i, j | 0 <= i < |g| && 0 <= j <= col && j < |g| && g[i][j] == 1 ::
      (i != row || j == col) && Abs(i - row) != col - j
  }

  lemma {:induction false} RowClearMeans(g: seq<seq<int>>, row: nat, col: nat, i: nat)
    requires Square(g) && row < |g| && col < |g| && i <= col
    ensures RowClear(g, row, col, i) <==> forall j | i <= j < col :: g[row][j] != 1
    decreases col - i
  {
    if i < col {
      RowClearMeans(g, row, col, i + 1);
    }
  }

  lemma {:induction false} UpLeftClearMeans(g: seq<seq<int>>, row: nat, col: nat, t: nat)
    requires Square(g) && row < |g| && col < |g| && t <= col + 1
    ensures UpLeftClear(g, row, col, t) <==>
      forall i, j | 0 <= i <= row && 0 <= j <= col - t && row - i == col - j :: g[i][j] != 1
    decreases col + 1 - t
  {
    if t <= row && t <= col {
      UpLeftClearMeans(g, row, col, t + 1);
    }
  }

  lemma {:induction false} DownLeftClearMeans(g: seq<seq<int>>, row: nat, col: nat, t: nat)
    requires Square(g) && row < |g| && col < |g| && t <= col + 1
    ensures DownLeftClear(g, row, col, t) <==>
      forall i, j | row <= i < |g| && 0 <= j <= col - t && i - row == col - j :: g[i][j] != 1
    decreases col + 1 - t
  {
    if row + t < |g| && t <= col {
      DownLeftClearMeans(g, row, col, t + 1);
    }
  }

  /** `is_safe` holds exactly when no queen attacks (`row`, `col`) from its left. */
  lemma IsSafeCellMeans(g: seq<seq<int>>, row: nat, col: nat)
    requires Square(g) && row < |g| && col < |g|
    ensures IsSafeCell(g, row, col) <==> NoQueenLeft(g, row, col)
  {
    RowClearMeans(g, row, col, 0);
    UpLeftClearMeans(g, row, col, 0);
    DownLeftClearMeans(g, row, col, 0);
  }

  // ---------------------------------------------------------------------------
  // `backtracking_solver` as a function on values
  // ---------------------------------------------------------------------------

  /** The columns from `col` on are empty. */
  predicate ZeroFrom(g: seq<seq<int>>, col: nat)
    requires Square(g)
  {
    forall i, j | 0 <= i < |g| && col <= j < |g| :: g[i][j] == 0
  }

  /** `all(board[row][c] == 0 for c in range(col))`. */
  predicate RowZeroBefore(g: seq<seq<int>>, row: nat, col: nat)
    requires Square(g) && row < |g| && col <= |g|
  {
    forall c | 0 <= c < col :: g[row][c] == 0
  }

  /** The column of the first queen on row `r`, searching from `j`. */
  function FirstQueen(r: seq<int>, j: nat): Option<nat>
    decreases |r| - j
  {
    if j >= |r| then None
    else if r[j] == 1 then Some(j)
    else FirstQueen(r, j + 1)
  }

  /** The solution read off a full board, rows `i` on: for each row with a
      queen, the column of its first queen. */
  function Readout(g: seq<seq<int>>, i: nat): seq<int>
    decreases |g| - i
  {
    if i >= |g| then []
    else
      (match FirstQueen(g[i], 0) case Some(j) => [j] case None => []) + Readout(g, i + 1)
  }

  /** `backtrack(col)`: on a full board record the solution and return;
      otherwise try the rows 0..n-1 of column `col`. */
  function Search(g: seq<seq<int>>, col: nat): Tally
    requires Square(g) && col <= |g| && ZeroFrom(g, col)
    decreases |g| - col, 2, 0
  {
    if col == |g| then Tally([Readout(g, 0)], 0, 0) else Rows(g, col, 0)
  }

  /** The attempts at the rows `row`..n-1 of column `col`. */
  function Rows(g: seq<seq<int>>, col: nat, row: nat): Tally
    requires Square(g) && col < |g| && row <= |g| && ZeroFrom(g, col)
    decreases |g| - col, 1, |g| - row
  {
    if row == |g| then Tally([], 0, 0) else Plus(Attempt(g, col, row), Rows(g, col, row + 1))
  }

  /** One attempt: a step; when the row is free and the cell safe, place a
      queen, search the next column, remove the queen and count a backtrack. */
  function Attempt(g: seq<seq<int>>, col: nat, row: nat): Tally
    requires Square(g) && col < |g| && row < |g| && ZeroFrom(g, col)
    decreases |g| - col, 0, 0
  {
    if RowZeroBefore(g, row, col) && IsSafeCell(g, row, col) then
      var sub := Search(Set(g, row, col, 1), col + 1);
      Tally(sub.solutions, 1 + sub.steps, 1 + sub.backtracks)
    else Tally([], 1, 0)
  }

  // ---------------------------------------------------------------------------
  // The board of a column-by-column placement
  // ---------------------------------------------------------------------------

  /** Queens at (`q[j]`, `j`) for each column `j` of `q`, zeros elsewhere. */
  function Encode(q: seq<int>, n: nat): (g: seq<seq<int>>)
    ensures |g| == n && Square(g)
  {
    seq(n, i => seq(n, j => if 0 <= j < |q| && q[j] == i then 1 else 0))
  }

  lemma EncodeZeroFrom(q: seq<int>, n: nat)
    requires |q| <= n
    ensures ZeroFrom(Encode(q, n), |q|)
  {
  }

  lemma EncodeNext(q: seq<int>, n: nat, row: nat)
    requires |q| < n && row < n
    ensures Set(Encode(q, n), row, |q|, 1) == Encode(q + [row], n)
  {
    Ext(Set(Encode(q, n), row, |q|, 1), Encode(q + [row], n));
  }

  /** On the board of a placement, the test of `backtracking_solver` is the
      one-queen-per-row test with rows and columns exchanged. */
  lemma EncodeSafe(q: seq<int>, n: nat, row: nat)
    requires |q| < n && row < n && Placement(q, n)
    ensures (RowZeroBefore(Encode(q, n), row, |q|) && IsSafeCell(Encode(q, n), row, |q|))
        == IsSafe(q, |q|, row)
  {
    var g := Encode(q, n);
    IsSafeCellMeans(g, row, |q|);
    IsSafeMeans(q, |q|, row);
    if IsSafe(q, |q|, row) {
      forall i, j | 0 <= i < n && 0 <= j <= |q| && g[i][j] == 1
        ensures (i != row || j == |q|) && Abs(i - row) != |q| - j
      {
        assert j < |q| && q[j] == i;
      }
      forall c | 0 <= c < |q|
        ensures g[row][c] == 0
      {
        assert q[c] != row;
      }
    }
    if NoQueenLeft(g, row, |q|) {
      forall j | 0 <= j < |q|
        ensures q[j] != row && Abs(q[j] - row) != Abs(j - |q|)
      {
        assert g[q[j]][j] == 1;
      }
    }
  }

  /** The first index of `v` in `q`, or |q| when it does not occur. */
  function IndexOf(q: seq<int>, v: int): (k: nat)
    ensures k <= |q|
  {
    if q == [] then 0 else if q[0] == v then 0 else 1 + IndexOf(q[1..], v)
  }

  lemma {:induction false} IndexOfMeans(q: seq<int>, v: int)
    ensures IndexOf(q, v) < |q| ==> q[IndexOf(q, v)] == v
    ensures forall k | 0 <= k < IndexOf(q, v) :: q[k] != v
    ensures IndexOf(q, v) == |q| <==> v !in q
  {
    if q != [] && q[0] != v {
      IndexOfMeans(q[1..], v);
      assert forall k | 1 <= k < |q| :: q[k] == q[1..][k - 1];
    }
  }

  /** The inverse permutation: row `i` of the result holds the column in which
      `q` places row `i`. */
  function Inverse(q: seq<int>): (p: seq<int>)
    ensures |p| == |q|
  {
    seq(|q|, i => IndexOf(q, i))
  }

  function MapInverse(s: seq<seq<int>>): (r: seq<seq<int>>)
    ensures |r| == |s| && forall k | 0 <= k < |s| :: r[k] == Inverse(s[k])
  {
    seq(|s|, k requires 0 <= k < |s| => Inverse(s[k]))
  }

  lemma MapInverseAppend(a: seq<seq<int>>, b: seq<seq<int>>)
    ensures MapInverse(a + b) == MapInverse(a) + MapInverse(b)
  {
  }

  /** Every value 0..n-1 occurs in a full placement of n queens. */
  lemma IndexOfFull(q: seq<int>, n: nat, v: int)
    requires |q| == n && Placement(q, n) && 0 <= v < n
    ensures IndexOf(q, v) < n && q[IndexOf(q, v)] == v
  {
    FullCovers(q, n, v);
    IndexOfMeans(q, v);
  }

  /** Reading a full board row by row yields the inverse of its placement. */
  lemma {:induction false} ReadoutInverse(q: seq<int>, n: nat, i: nat)
    requires |q| == n && Placement(q, n) && i <= n
    ensures Readout(Encode(q, n), i) == Inverse(q)[i..]
    decreases n - i
  {
    if i < n {
      ReadoutInverse(q, n, i + 1);
      IndexOfFull(q, n, i);
      FirstQueenOfRow(q, n, i, 0);
      assert Inverse(q)[i..] == [Inverse(q)[i]] + Inverse(q)[i + 1..];
    }
  }

  lemma {:induction false} FirstQueenOfRow(q: seq<int>, n: nat, i: nat, j: nat)
    requires |q| == n && i < n && IndexOf(q, i) < n && j <= IndexOf(q, i)
    ensures FirstQueen(Encode(q, n)[i], j) == Some(IndexOf(q, i))
    decreases n - j
  {
    IndexOfMeans(q, i);
    if j < IndexOf(q, i) {
      FirstQueenOfRow(q, n, i, j + 1);
    }
  }

  /** Row `i` of the inverse names a column where `q` places row `i`. */
  lemma InverseFull(q: seq<int>, n: nat)
    requires |q| == n && Placement(q, n)
    ensures forall i | 0 <= i < n :: 0 <= Inverse(q)[i] < n && q[Inverse(q)[i]] == i
  {
    forall i | 0 <= i < n
      ensures 0 <= Inverse(q)[i] < n && q[Inverse(q)[i]] == i
    {
      IndexOfFull(q, n, i);
    }
  }

  /** The first index of a value that occurs once is its index. */
  lemma IndexOfDistinct(q: seq<int>, j: nat)
    requires j < |q| && forall a, b | 0 <= a < b < |q| :: q[a] != q[b]
    ensures IndexOf(q, q[j]) == j
  {
    IndexOfMeans(q, q[j]);
    assert IndexOf(q, q[j]) < |q|;
    assert q[IndexOf(q, q[j])] == q[j];
  }

  /** The inverse of a full placement is a full placement, and inverting twice
      gives it back. */
  lemma InversePlacement(q: seq<int>, n: nat)
    requires |q| == n && Placement(q, n)
    ensures Placement(Inverse(q), n) && Inverse(Inverse(q)) == q
  {
    var p := Inverse(q);
    InverseFull(q, n);
    forall a, b | 0 <= a < b < n
      ensures p[a] != p[b] && Abs(p[a] - p[b]) != b - a
    {
      var ja, jb := p[a], p[b];
      assert q[ja] == a && q[jb] == b;
      if ja < jb {
        assert Abs(q[ja] - q[jb]) != jb - ja;
      } else if jb < ja {
        assert Abs(q[jb] - q[ja]) != ja - jb;
      }
    }
    forall j | 0 <= j < n
      ensures Inverse(p)[j] == q[j]
    {
      IndexOfDistinct(q, j);
      assert p[q[j]] == j;
      IndexOfDistinct(p, q[j]);
    }
  }

  /** From the board of placement `q`, `backtrack` records the inverse of every
      completion of `q`, takes back one queen per search-tree node below `q`,
      and makes n steps at every node that is not a full board. */
  lemma SearchCounts(q: seq<int>, n: nat)
    requires |q| <= n && Placement(q, n)
    ensures ZeroFrom(Encode(q, n), |q|)
    ensures var t := Search(Encode(q, n), |q|);
      && t.solutions == MapInverse(Completions(q, n))
      && t.backtracks == TreeSize(q, n) - 1
      && t.steps + n * |t.solutions| == n * TreeSize(q, n)
  {
    SearchSolutions(q, n);
    SearchSteps(q, n);
  }

  lemma {:induction false} SearchSolutions(q: seq<int>, n: nat)
    requires |q| <= n && Placement(q, n)
    ensures ZeroFrom(Encode(q, n), |q|)
    ensures var t := Search(Encode(q, n), |q|);
      t.solutions == MapInverse(Completions(q, n)) && t.backtracks == TreeSize(q, n) - 1
    decreases n - |q|, 2, 0
  {
    EncodeZeroFrom(q, n);
    if |q| == n {
      ReadoutInverse(q, n, 0);
    } else {
      RowsSolutions(q, n, 0);
    }
  }

  lemma {:induction false} RowsSolutions(q: seq<int>, n: nat, row: nat)
    requires |q| < n && row <= n && Placement(q, n)
    ensures ZeroFrom(Encode(q, n), |q|)
    ensures var t := Rows(Encode(q, n), |q|, row);
      t.solutions == MapInverse(CompletionsFrom(q, n, row)) && t.backtracks == SubtreeFrom(q, n, row)
    decreases n - |q|, 1, n - row
  {
    EncodeZeroFrom(q, n);
    if row < n {
      RowsSolutions(q, n, row + 1);
      AttemptSolutions(q, n, row);
      var here := if IsSafe(q, |q|, row) then Completions(q + [row], n) else [];
      MapInverseAppend(here, CompletionsFrom(q, n, row + 1));
    }
  }

  /** One attempt on the board of `q`: a safe row contributes the subtree of
      `q` extended by that row. */
  lemma {:induction false} AttemptSolutions(q: seq<int>, n: nat, row: nat)
    requires |q| < n && row < n && Placement(q, n)
    ensures ZeroFrom(Encode(q, n), |q|)
    ensures var a := Attempt(Encode(q, n), |q|, row);
      var safe := IsSafe(q, |q|, row);
      && a.solutions == (if safe then MapInverse(Completions(q + [row], n)) else [])
      && a.backtracks == (if safe then TreeSize(q + [row], n) else 0)
    decreases n - |q|, 0, 0
  {
    EncodeZeroFrom(q, n);
    EncodeSafe(q, n, row);
    if IsSafe(q, |q|, row) {
      SafeExtends(q, n, row);
      EncodeNext(q, n, row);
      SearchSolutions(q + [row], n);
    }
  }

  lemma {:induction false} SearchSteps(q: seq<int>, n: nat)
    requires |q| <= n && Placement(q, n)
    ensures ZeroFrom(Encode(q, n), |q|)
    ensures Search(Encode(q, n), |q|).steps + n * |Completions(q, n)| == n * TreeSize(q, n)
    decreases n - |q|, 2, 0
  {
    EncodeZeroFrom(q, n);
    if |q| < n {
      RowsSteps(q, n, 0);
      Distribute(n, 1, SubtreeFrom(q, n, 0));
    }
  }

  lemma {:induction false} RowsSteps(q: seq<int>, n: nat, row: nat)
    requires |q| < n && row <= n && Placement(q, n)
    ensures ZeroFrom(Encode(q, n), |q|)
    ensures Rows(Encode(q, n), |q|, row).steps + n * |CompletionsFrom(q, n, row)|
         == (n - row) + n * SubtreeFrom(q, n, row)
    decreases n - |q|, 1, n - row
  {
    EncodeZeroFrom(q, n);
    if row < n {
      RowsSteps(q, n, row + 1);
      AttemptSteps(q, n, row);
      var safe := IsSafe(q, |q|, row);
      StepsAddUp(n, row, Attempt(Encode(q, n), |q|, row).steps,
        if safe then |Completions(q + [row], n)| else 0, if safe then TreeSize(q + [row], n) else 0,
        Rows(Encode(q, n), |q|, row + 1).steps, |CompletionsFrom(q, n, row + 1)|, SubtreeFrom(q, n, row + 1));
    } else {
      Distribute(n, 0, 0);
    }
  }

  lemma {:induction false} AttemptSteps(q: seq<int>, n: nat, row: nat)
    requires |q| < n && row < n && Placement(q, n)
    ensures ZeroFrom(Encode(q, n), |q|)
    ensures var safe := IsSafe(q, |q|, row);
      Attempt(Encode(q, n), |q|, row).steps + (if safe then n * |Completions(q + [row], n)| else 0)
        == 1 + (if safe then n * TreeSize(q + [row], n) else 0)
    decreases n - |q|, 0, 0
  {
    EncodeZeroFrom(q, n);
    EncodeSafe(q, n, row);
    if IsSafe(q, |q|, row) {
      SafeExtends(q, n, row);
      EncodeNext(q, n, row);
      SearchSteps(q + [row], n);
    }
  }

  lemma StepsAddUp(n: nat, row: nat, steps: nat, sols: nat, t: nat, steps': nat, sols': nat, s: nat)
    requires row < n
    requires steps + n * sols == 1 + n * t
    requires steps' + n * sols' == (n - (row + 1)) + n * s
    ensures (steps + steps') + n * (sols + sols') == (n - row) + n * (t + s)
  {
    Distribute(n, t, s);
    Distribute(n, sols, sols');
  }

  /** Inverting every placement of n queens yields every placement of n
      queens, as the inverse of a placement is a placement. */
  lemma InverseAll(n: nat)
    ensures forall s :: s in MapInverse(Completions([], n)) <==> |s| == n && Placement(s, n)
  {
    AllSolutions(n);
    var c := Completions([], n);
    var r := MapInverse(c);
    forall s | s in r
      ensures |s| == n && Placement(s, n)
    {
      var k :| 0 <= k < |r| && r[k] == s;
      assert c[k] in c;
      InversePlacement(c[k], n);
    }
    forall s | |s| == n && Placement(s, n)
      ensures s in r
    {
      InversePlacement(s, n);
      var k :| 0 <= k < |c| && c[k] == Inverse(s);
      assert r[k] == s;
    }
  }

  /** `backtracking_solver(n)` returns the inverse of every placement of n
      queens, which are exactly the placements of n queens. */
  lemma BacktrackingSolutions(n: nat)
    ensures ZeroFrom(Encode([], n), 0)
    ensures Search(Encode([], n), 0).solutions == MapInverse(Completions([], n))
    ensures forall s :: s in Search(Encode([], n), 0).solutions <==> |s| == n && Placement(s, n)
  {
    SearchCounts([], n);
    InverseAll(n);
  }

  // ---------------------------------------------------------------------------
  // `backtracking_solver` on the board list
  // ---------------------------------------------------------------------------

  /** `backtracking_solver(n)` without its visualisation callback. */
  method BacktrackingSolver(n: nat) returns (solutions: seq<seq<int>>, stats: Statistics)
    ensures var t := Search(Encode([], n), 0);
      solutions == t.solutions && stats == Stats(t)
  {
    var board := new int[n, n]((_, _) => -1);
    for i := 0 to n
      invariant forall k, l | 0 <= k < i && 0 <= l < n :: board[k, l] == 0
    {
      for j := 0 to n
        invariant forall k, l | 0 <= k < n && 0 <= l < n && (k < i || (k == i && l < j)) :: board[k, l] == 0
      {
        board[i, j] := 0;
      }
    }
    Ext(Cells(board), Encode([], n));
    EncodeZeroFrom([], n);
    var t := BacktrackColumn(board, 0, Tally([], 0, 0));
    assert t == Search(Encode([], n), 0) by {
      assert t.solutions == [] + Search(Encode([], n), 0).solutions;
    }
    solutions := t.solutions;
    stats := Stats(t);
  }

  /** `backtrack(col)`, the counters and the solution list it updates passed
      in and out as `acc`. */
  method BacktrackColumn(board: array2<int>, col: nat, acc: Tally) returns (r: Tally)
    requires board.Length0 == board.Length1 && col <= board.Length0
    requires ZeroFrom(Cells(board), col)
    modifies board
    ensures Cells(board) == old(Cells(board))
    ensures r == Plus(acc, Search(Cells(board), col))
    decreases board.Length0 - col, 1
  {
    var n := board.Length0;
    ghost var g := Cells(board);
    if col == n {
      var solution := ReadSolution(board);
      r := Plus(acc, Tally([solution], 0, 0));
      return;
    }
    r := acc;
    for row := 0 to n
      invariant Cells(board) == g
      invariant Plus(r, Rows(g, col, row)) == Plus(acc, Rows(g, col, 0))
    {
      ghost var before := r;
      r := AttemptOn(board, col, row, r);
      PlusAssoc(before, Attempt(g, col, row), Rows(g, col, row + 1));
    }
    PlusNothing(r);
  }

  /** One turn of the loop over rows. */
  method AttemptOn(board: array2<int>, col: nat, row: nat, acc: Tally) returns (r: Tally)
    requires board.Length0 == board.Length1 && col < board.Length0 && row < board.Length0
    requires ZeroFrom(Cells(board), col)
    modifies board
    ensures Cells(board) == old(Cells(board))
    ensures r == Plus(acc, Attempt(Cells(board), col, row))
    decreases board.Length0 - col, 0
  {
    ghost var g := Cells(board);
    r := Tally(acc.solutions, acc.steps + 1, acc.backtracks);
    if RowZeroBefore(Cells(board), row, col) && IsSafeCell(Cells(board), row, col) {
      Put(board, row, col, 1);
      r := BacktrackColumn(board, col + 1, r);
      Put(board, row, col, 0);
      SetSetBack(g, row, col, 1);
      r := Tally(r.solutions, r.steps, r.backtracks + 1);
      ghost var sub := Search(Set(g, row, col, 1), col + 1);
      assert r.solutions == acc.solutions + sub.solutions;
    }
  }

  /** The readout loop of `backtrack` at a full board. */
  method ReadSolution(board: array2<int>) returns (solution: seq<int>)
    requires board.Length0 == board.Length1
    ensures solution == Readout(Cells(board), 0)
  {
    var n := board.Length0;
    ghost var g := Cells(board);
    solution := [];
    for i := 0 to n
      invariant solution + Readout(g, i) == Readout(g, 0)
    {
      ghost var before := solution;
      ghost var row := g[i];
      ghost var here := match FirstQueen(row, 0) case Some(j) => [j] case None => [];
      var j := 0;
      while j < n
        invariant j <= n && solution == before && FirstQueen(row, j) == FirstQueen(row, 0)
      {
        if board[i, j] == 1 {
          assert FirstQueen(row, j) == Some(j);
          solution := solution + [j];
          break;
        }
        var next := j + 1;
        assert FirstQueen(row, j) == FirstQueen(row, next);
        j := next;
      }
      assert solution == before + here;
      ghost var down := i + 1;
      assert Readout(g, i) == here + Readout(g, down);
      Regroup(before, here, Readout(g, down));
    }
  }

  // ---------------------------------------------------------------------------
  // `bfs_solver` as a function on the queue
  // ---------------------------------------------------------------------------

  /** A queue entry `(placement, row)`. */
  datatype Item = Item(placement: seq<int>, row: nat)

  /** The conflict scan `for r, c in enumerate(placement)` from `r` on: true
      at the first earlier queen on the column or a diagonal of (`row`, `col`). */
  function Clash(p: seq<int>, row: int, col: int, r: nat): bool
    requires r <= |p|
    decreases |p| - r
  {
    if r == |p| then false
    else if p[r] == col || r + p[r] == row + col || r - p[r] == row - col then true
    else Clash(p, row, col, r + 1)
  }

  /** What the loop over the columns `col`..n-1 enqueues, and how many
      columns it rejects. */
  datatype Expansion = Expansion(kids: seq<Item>, rejected: nat)

  function Expand(n: nat, p: seq<int>, row: nat, col: nat): Expansion
    requires col <= n
    decreases n - col
  {
    if col == n then Expansion([], 0)
    else
      var rest := Expand(n, p, row, col + 1);
      if Clash(p, row, col, 0) then Expansion(rest.kids, 1 + rest.rejected)
      else Expansion([Item(p + [col], row + 1)] + rest.kids, rest.rejected)
  }

  /** Every row of the queue is at most n. */
  predicate RowsAtMost(n: nat, q: seq<Item>) {
    forall k | 0 <= k < |q| :: q[k].row <= n
  }

  /** The size of a complete n-ary tree of depth n - `row`: a bound on the
      entries an entry of row `row` can still bring into the queue. */
  function Weight(n: nat, row: nat): (w: nat)
    ensures w >= 1
    decreases n - row
  {
    if row >= n then 1 else 1 + n * Weight(n, row + 1)
  }

  function QueueWeight(n: nat, q: seq<Item>): nat {
    if q == [] then 0 else Weight(n, q[0].row) + QueueWeight(n, q[1..])
  }

  lemma {:induction false} QueueWeightAppend(n: nat, a: seq<Item>, b: seq<Item>)
    ensures QueueWeight(n, a + b) == QueueWeight(n, a) + QueueWeight(n, b)
  {
    if a != [] {
      assert (a + b)[1..] == a[1..] + b;
      QueueWeightAppend(n, a[1..], b);
    } else {
      assert a + b == b;
    }
  }

  /** The entries enqueued for row `row` all have row `row` + 1, and they are
      at most one per column. */
  lemma {:induction false} ExpandShape(n: nat, p: seq<int>, row: nat, col: nat)
    requires col <= n
    ensures var e := Expand(n, p, row, col);
      && |e.kids| + e.rejected == n - col
      && (forall k | 0 <= k < |e.kids| :: e.kids[k].row == row + 1)
    decreases n - col
  {
    if col < n {
      ExpandShape(n, p, row, col + 1);
      var rest := Expand(n, p, row, col + 1).kids;
      assert forall k | 0 <= k < |rest| :: ([Item(p + [col], row + 1)] + rest)[k + 1] == rest[k];
    }
  }

  /** A queue whose entries all have row `r` weighs |q| times an entry. */
  lemma {:induction false} UniformWeight(n: nat, q: seq<Item>, r: nat)
    requires forall k | 0 <= k < |q| :: q[k].row == r
    ensures QueueWeight(n, q) == |q| * Weight(n, r)
  {
    if q != [] {
      assert forall k | 0 <= k < |q| - 1 :: q[1..][k] == q[k + 1];
      UniformWeight(n, q[1..], r);
      Distribute(Weight(n, r), 1, |q| - 1);
    }
  }

  lemma MulLe(a: nat, b: nat, w: nat)
    requires a <= b
    ensures a * w <= b * w
  {
  }

  /** Dequeuing an entry and enqueuing its children lowers the queue weight. */
  lemma BfsShrinks(n: nat, q: seq<Item>)
    requires q != [] && RowsAtMost(n, q) && q[0].row < n
    ensures var kids := Expand(n, q[0].placement, q[0].row, 0).kids;
      RowsAtMost(n, q[1..] + kids) && QueueWeight(n, q[1..] + kids) < QueueWeight(n, q)
  {
    var e := Expand(n, q[0].placement, q[0].row, 0);
    ExpandShape(n, q[0].placement, q[0].row, 0);
    UniformWeight(n, e.kids, q[0].row + 1);
    QueueWeightAppend(n, q[1..], e.kids);
    MulLe(|e.kids|, n, Weight(n, q[0].row + 1));
    assert forall k | 0 <= k < |q[1..] + e.kids| :: (q[1..] + e.kids)[k].row <= n by {
      forall k | 0 <= k < |q[1..] + e.kids|
        ensures (q[1..] + e.kids)[k].row <= n
      {
        if k >= |q[1..]| {
          assert (q[1..] + e.kids)[k] == e.kids[k - |q[1..]|];
        } else {
          assert (q[1..] + e.kids)[k] == q[k + 1];
        }
      }
    }
  }

  /** The rest of the `while not queue.empty()` loop from queue `q`: the
      solutions it appends and what it adds to `steps` and `backtracks`. */
  function Bfs(n: nat, q: seq<Item>): Tally
    requires RowsAtMost(n, q)
    decreases QueueWeight(n, q)
  {
    if q == [] then Tally([], 0, 0)
    else if q[0].row == n then Plus(Tally([q[0].placement], 1, 0), Bfs(n, q[1..]))
    else
      var e := Expand(n, q[0].placement, q[0].row, 0);
      BfsShrinks(n, q);
      Plus(Tally([], 1, e.rejected), Bfs(n, q[1..] + e.kids))
  }

  // ---------------------------------------------------------------------------
  // What the queue produces
  // ---------------------------------------------------------------------------

  /** The conflict test of `bfs_solver` is `_is_safe` negated. */
  lemma {:induction false} ClashMeans(p: seq<int>, row: int, col: int, r: nat)
    requires r <= |p|
    ensures Clash(p, row, col, r) <==>
      !(forall k | r <= k < |p| :: p[k] != col && Abs(p[k] - col) != Abs(k - row))
    decreases |p| - r
  {
    if r < |p| {
      ClashMeans(p, row, col, r + 1);
    }
  }

  lemma ClashIsUnsafe(p: seq<int>, col: int)
    ensures Clash(p, |p|, col, 0) == !IsSafe(p, |p|, col)
  {
    ClashMeans(p, |p|, col, 0);
    IsSafeMeans(p, |p|, col);
  }

  /** Every queue entry carries its row as the length of its placement. */
  predicate WellQueued(n: nat, q: seq<Item>) {
    forall k | 0 <= k < |q| :: q[k].row == |q[k].placement| <= n
  }

  /** The entries `bfs_solver` enqueues for a placement extend it by one queen. */
  lemma {:induction false} ExpandKids(n: nat, p: seq<int>, col: nat)
    requires |p| < n && col <= n
    ensures WellQueued(n, Expand(n, p, |p|, col).kids)
    decreases n - col
  {
    ExpandShape(n, p, |p|, col);
    if col < n {
      ExpandKids(n, p, col + 1);
      var rest := Expand(n, p, |p|, col + 1).kids;
      assert forall k | 0 <= k < |rest| :: ([Item(p + [col], |p| + 1)] + rest)[k + 1] == rest[k];
    }
  }

  /** Every entry of the queue holds a conflict-free placement. */
  predicate AllPlaced(n: nat, q: seq<Item>) {
    forall k | 0 <= k < |q| :: Placement(q[k].placement, n)
  }

  /** Every placement `bfs_solver` enqueues is free of conflicts. */
  lemma {:induction false} ExpandPlacements(n: nat, p: seq<int>, col: nat)
    requires |p| < n && col <= n && Placement(p, n)
    ensures AllPlaced(n, Expand(n, p, |p|, col).kids)
    decreases n - col
  {
    if col < n {
      ExpandPlacements(n, p, col + 1);
      var rest := Expand(n, p, |p|, col + 1).kids;
      if !Clash(p, |p|, col, 0) {
        ClashIsUnsafe(p, col);
        SafeExtends(p, n, col);
        PlacedCons(n, Item(p + [col], |p| + 1), rest);
      }
    }
  }

  lemma PlacedCons(n: nat, i: Item, q: seq<Item>)
    requires Placement(i.placement, n) && AllPlaced(n, q)
    ensures AllPlaced(n, [i] + q)
  {
    assert forall k | 0 <= k < |q| :: ([i] + q)[k + 1] == q[k];
  }

  /** The completions of the placements of a queue, entry after entry. */
  function Flat(n: nat, q: seq<Item>): seq<seq<int>>
    requires WellQueued(n, q)
  {
    if q == [] then [] else Completions(q[0].placement, n) + Flat(n, q[1..])
  }

  lemma {:induction false} FlatAppend(n: nat, a: seq<Item>, b: seq<Item>)
    requires WellQueued(n, a) && WellQueued(n, b)
    ensures WellQueued(n, a + b) && Flat(n, a + b) == Flat(n, a) + Flat(n, b)
  {
    WellQueuedAppend(n, a, b);
    if a != [] {
      assert (a + b)[0] == a[0];
      assert (a + b)[1..] == a[1..] + b;
      FlatAppend(n, a[1..], b);
    } else {
      assert a + b == b;
    }
  }

  lemma WellQueuedAppend(n: nat, a: seq<Item>, b: seq<Item>)
    requires WellQueued(n, a) && WellQueued(n, b)
    ensures WellQueued(n, a + b)
  {
    forall k | 0 <= k < |a + b|
      ensures (a + b)[k].row == |(a + b)[k].placement| <= n
    {
      if k < |a| {
        assert (a + b)[k] == a[k];
      } else {
        assert (a + b)[k] == b[k - |a|];
      }
    }
  }

  /** The children of a placement, flattened, are its completions. */
  lemma {:induction false} ExpandFlat(n: nat, p: seq<int>, col: nat)
    requires |p| < n && col <= n
    ensures WellQueued(n, Expand(n, p, |p|, col).kids)
    ensures Flat(n, Expand(n, p, |p|, col).kids) == CompletionsFrom(p, n, col)
    decreases n - col
  {
    ExpandKids(n, p, col);
    if col < n {
      ExpandFlat(n, p, col + 1);
      ClashIsUnsafe(p, col);
      var rest := Expand(n, p, |p|, col + 1).kids;
      if !Clash(p, |p|, col, 0) {
        assert ([Item(p + [col], |p| + 1)] + rest)[1..] == rest;
      }
    }
  }

  /** The children of the entries `a`, in queue order. */
  function Children(n: nat, a: seq<Item>): seq<Item>
    requires forall k | 0 <= k < |a| :: a[k].row < n && a[k].row == |a[k].placement|
  {
    if a == [] then [] else Expand(n, a[0].placement, a[0].row, 0).kids + Children(n, a[1..])
  }

  lemma {:induction false} ChildrenFlat(n: nat, a: seq<Item>)
    requires forall k | 0 <= k < |a| :: a[k].row < n && a[k].row == |a[k].placement|
    ensures WellQueued(n, a) && WellQueued(n, Children(n, a))
    ensures Flat(n, Children(n, a)) == Flat(n, a)
  {
    if a != [] {
      ChildrenFlat(n, a[1..]);
      var p := a[0].placement;
      ExpandFlat(n, p, 0);
      FlatAppend(n, Expand(n, p, |p|, 0).kids, Children(n, a[1..]));
    }
  }

  /** All the entries of `q` have row `k`. */
  predicate AtRow(q: seq<Item>, k: nat) {
    forall i | 0 <= i < |q| :: q[i].row == k && |q[i].placement| == k
  }

  function Placements(q: seq<Item>): seq<seq<int>> {
    if q == [] then [] else [q[0].placement] + Placements(q[1..])
  }

  lemma AtRowAppend(a: seq<Item>, b: seq<Item>, k: nat)
    requires AtRow(a, k) && AtRow(b, k)
    ensures AtRow(a + b, k)
  {
    assert forall i | 0 <= i < |a + b| :: (a + b)[i] == (if i < |a| then a[i] else b[i - |a|]);
  }

  /** Two consecutive levels, row `k` then row `k` + 1, form a queue. */
  lemma LevelsQueue(n: nat, a: seq<Item>, b: seq<Item>, k: nat)
    requires k <= n && AtRow(a, k) && AtRow(b, k + 1) && (k == n ==> b == [])
    ensures RowsAtMost(n, a + b)
    ensures k < n ==> WellQueued(n, b)
    ensures a == [] ==> a + b == b
    ensures a != [] ==> (a + b)[0] == a[0] && (a + b)[1..] == a[1..] + b
  {
    assert forall i | 0 <= i < |a + b| :: (a + b)[i] == (if i < |a| then a[i] else b[i - |a|]);
  }

  /** The children of an entry of row `k` all have row `k` + 1. */
  lemma KidsAtRow(n: nat, p: seq<int>, k: nat)
    requires |p| == k < n
    ensures AtRow(Expand(n, p, k, 0).kids, k + 1)
  {
    ExpandShape(n, p, k, 0);
    ExpandKids(n, p, 0);
  }

  /** Dequeuing an entry of row less than n puts its children at the back. */
  lemma BfsFront(n: nat, q: seq<Item>)
    requires q != [] && RowsAtMost(n, q) && q[0].row < n
    ensures RowsAtMost(n, q[1..] + Expand(n, q[0].placement, q[0].row, 0).kids)
    ensures Bfs(n, q).solutions == Bfs(n, q[1..] + Expand(n, q[0].placement, q[0].row, 0).kids).solutions
  {
    BfsShrinks(n, q);
    assert [] + Bfs(n, q[1..] + Expand(n, q[0].placement, q[0].row, 0).kids).solutions
        == Bfs(n, q[1..] + Expand(n, q[0].placement, q[0].row, 0).kids).solutions;
  }

  lemma {:induction false} FlatAtLeaves(n: nat, b: seq<Item>)
    requires AtRow(b, n)
    ensures WellQueued(n, b) && Flat(n, b) == Placements(b)
  {
    if b != [] {
      assert AtRow(b[1..], n) by {
        assert forall i | 0 <= i < |b| - 1 :: b[1..][i] == b[i + 1];
      }
      FlatAtLeaves(n, b[1..]);
    }
  }

  /** A queue of full boards yields its own placements. */
  lemma {:induction false} BfsLeaves(n: nat, a: seq<Item>)
    requires AtRow(a, n)
    ensures RowsAtMost(n, a) && Bfs(n, a).solutions == Placements(a)
  {
    if a != [] {
      assert AtRow(a[1..], n) by {
        assert forall i | 0 <= i < |a| - 1 :: a[1..][i] == a[i + 1];
      }
      BfsLeaves(n, a[1..]);
    }
  }

  /** The level structure of the FIFO queue: the entries of row `k` come
      first, then those of row `k` + 1. When `k` is n the queue yields its own
      placements; otherwise it yields the completions of the next level, which
      consists of the entries already of row `k` + 1 followed by the children
      of those of row `k`. */
  lemma {:induction false} BfsLevels(n: nat, a: seq<Item>, b: seq<Item>, k: nat)
    requires k <= n && AtRow(a, k) && AtRow(b, k + 1) && (k == n ==> b == [])
    ensures RowsAtMost(n, a + b)
    ensures k == n ==> Bfs(n, a + b).solutions == Placements(a)
    ensures k < n ==> WellQueued(n, b) && WellQueued(n, Children(n, a))
    ensures k < n ==> Bfs(n, a + b).solutions == Flat(n, b + Children(n, a))
    decreases n - k, |a|, 1
  {
    LevelsQueue(n, a, b, k);
    if k == n {
      assert a + b == a;
      BfsLeaves(n, a);
    } else if a == [] {
      BfsNextLevel(n, b, k);
      assert b + Children(n, a) == b;
    } else {
      BfsLevelStep(n, a, b, k);
    }
  }

  /** A queue of row `k` + 1 alone yields the completions of its entries. */
  lemma {:induction false} BfsNextLevel(n: nat, b: seq<Item>, k: nat)
    requires k < n && AtRow(b, k + 1)
    ensures RowsAtMost(n, b) && WellQueued(n, b)
    ensures Bfs(n, b).solutions == Flat(n, b)
    decreases n - k, 0, 0
  {
    LevelsQueue(n, b, [], k + 1);
    assert b + [] == b;
    if k + 1 < n {
      BfsLevels(n, b, [], k + 1);
      ChildrenFlat(n, b);
      assert [] + Children(n, b) == Children(n, b);
    } else {
      BfsLeaves(n, b);
      FlatAtLeaves(n, b);
    }
  }

  /** Dequeuing an entry of row `k` < n appends its children behind the entries
      of row `k` + 1. */
  lemma {:induction false} BfsLevelStep(n: nat, a: seq<Item>, b: seq<Item>, k: nat)
    requires k < n && a != [] && AtRow(a, k) && AtRow(b, k + 1)
    ensures RowsAtMost(n, a + b) && WellQueued(n, b) && WellQueued(n, Children(n, a))
    ensures Bfs(n, a + b).solutions == Flat(n, b + Children(n, a))
    decreases n - k, |a|, 0
  {
    LevelsQueue(n, a, b, k);
    var q := a + b;
    var kids := Expand(n, a[0].placement, k, 0).kids;
    assert AtRow(a[1..], k) by {
      assert forall i | 0 <= i < |a| - 1 :: a[1..][i] == a[i + 1];
    }
    KidsAtRow(n, a[0].placement, k);
    AtRowAppend(b, kids, k + 1);
    BfsFront(n, q);
    assert q[1..] + kids == a[1..] + (b + kids);
    BfsLevels(n, a[1..], b + kids, k);
    ChildrenFlat(n, a);
    assert (b + kids) + Children(n, a[1..]) == b + Children(n, a);
  }

  /** Starting from the queue `[([], 0)]`, `bfs_solver` yields the solutions
      of the one-queen-per-row search: every placement of n queens, each
      once, in lexicographic order. */
  lemma BfsSolutions(n: nat)
    ensures RowsAtMost(n, [Item([], 0)])
    ensures Bfs(n, [Item([], 0)]).solutions == Completions([], n)
  {
    var root := [Item([], 0)];
    assert root + [] == root;
    BfsLevels(n, root, [], 0);
    if n == 0 {
      assert Placements(root) == [[]];
    } else {
      assert Children(n, root) == Expand(n, [], 0, 0).kids + Children(n, []);
      assert [] + Children(n, root) == Expand(n, [], 0, 0).kids;
      ExpandFlat(n, [], 0);
    }
  }

  // ---------------------------------------------------------------------------
  // What the queue counts
  // ---------------------------------------------------------------------------

  /** The number of (node, column) pairs of the search tree below `p` where the
      column is unsafe. */
  function Rejections(p: seq<int>, n: nat): nat
    requires |p| <= n
    decreases n - |p|, 1, 0
  {
    if |p| == n then 0 else RejectionsFrom(p, n, 0)
  }

  function RejectionsFrom(p: seq<int>, n: nat, c: nat): nat
    requires |p| < n && c <= n
    decreases n - |p|, 0, n - c
  {
    if c == n then 0
    else (if IsSafe(p, |p|, c) then Rejections(p + [c], n) else 1) + RejectionsFrom(p, n, c + 1)
  }

  /** The nodes and rejections of the subtrees of a queue's entries. */
  function Census(n: nat, q: seq<Item>): (nat, nat)
    requires WellQueued(n, q)
  {
    if q == [] then (0, 0)
    else
      var rest := Census(n, q[1..]);
      (TreeSize(q[0].placement, n) + rest.0, Rejections(q[0].placement, n) + rest.1)
  }

  lemma {:induction false} CensusAppend(n: nat, a: seq<Item>, b: seq<Item>)
    requires WellQueued(n, a) && WellQueued(n, b)
    ensures WellQueued(n, a + b)
    ensures Census(n, a + b) == (Census(n, a).0 + Census(n, b).0, Census(n, a).1 + Census(n, b).1)
  {
    assert forall k | 0 <= k < |a + b| :: (a + b)[k] == (if k < |a| then a[k] else b[k - |a|]);
    if a != [] {
      assert (a + b)[1..] == a[1..] + b;
      CensusAppend(n, a[1..], b);
    } else {
      assert a + b == b;
    }
  }

  /** The children of a placement account for its subtree and its rejections. */
  lemma {:induction false} ExpandCensus(n: nat, p: seq<int>, col: nat)
    requires |p| < n && col <= n
    ensures WellQueued(n, Expand(n, p, |p|, col).kids)
    ensures Census(n, Expand(n, p, |p|, col).kids).0 == SubtreeFrom(p, n, col)
    ensures Census(n, Expand(n, p, |p|, col).kids).1 + Expand(n, p, |p|, col).rejected
         == RejectionsFrom(p, n, col)
    decreases n - col
  {
    ExpandKids(n, p, col);
    if col < n {
      ExpandCensus(n, p, col + 1);
      ClashIsUnsafe(p, col);
      var rest := Expand(n, p, |p|, col + 1).kids;
      if !Clash(p, |p|, col, 0) {
        assert ([Item(p + [col], |p| + 1)] + rest)[1..] == rest;
      }
    }
  }

  /** `steps` counts every dequeued state and `backtracks` every rejected
      column: over the rest of the loop, the nodes and rejections of the
      subtrees of the queued entries. */
  lemma {:induction false} BfsCounts(n: nat, q: seq<Item>)
    requires WellQueued(n, q)
    ensures RowsAtMost(n, q)
    ensures Bfs(n, q).steps == Census(n, q).0 && Bfs(n, q).backtracks == Census(n, q).1
    decreases QueueWeight(n, q)
  {
    if q != [] {
      var p := q[0].placement;
      assert WellQueued(n, q[1..]) by {
        assert forall k | 0 <= k < |q| - 1 :: q[1..][k] == q[k + 1];
      }
      if q[0].row < n {
        var e := Expand(n, p, q[0].row, 0);
        BfsShrinks(n, q);
        ExpandCensus(n, p, 0);
        CensusAppend(n, q[1..], e.kids);
        BfsCounts(n, q[1..] + e.kids);
      } else {
        BfsCounts(n, q[1..]);
      }
    }
  }

  /** From the queue `[([], 0)]`: one step per node of the search tree, and
      one backtrack per unsafe (node, column) pair. */
  lemma BfsTotals(n: nat)
    ensures RowsAtMost(n, [Item([], 0)])
    ensures Bfs(n, [Item([], 0)]).steps == TreeSize([], n)
    ensures Bfs(n, [Item([], 0)]).backtracks == Rejections([], n)
  {
    BfsCounts(n, [Item([], 0)]);
  }

  /** Every column tried at a node that is not a full board is either rejected
      or leads to a child node: rejections, nodes and n probes per solution
      add up to n probes per node, plus one for the root. */
  lemma {:induction false} ProbesAddUp(p: seq<int>, n: nat)
    requires |p| <= n
    ensures Rejections(p, n) + TreeSize(p, n) + n * |Completions(p, n)| == n * TreeSize(p, n) + 1
    decreases n - |p|, 1, 0
  {
    if |p| < n {
      ProbesAddUpFrom(p, n, 0);
      Distribute(n, 1, SubtreeFrom(p, n, 0));
    }
  }

  lemma {:induction false} ProbesAddUpFrom(p: seq<int>, n: nat, c: nat)
    requires |p| < n && c <= n
    ensures RejectionsFrom(p, n, c) + SubtreeFrom(p, n, c) + n * |CompletionsFrom(p, n, c)|
         == (n - c) + n * SubtreeFrom(p, n, c)
    decreases n - |p|, 0, n - c
  {
    if c < n {
      ProbesAddUpFrom(p, n, c + 1);
      if IsSafe(p, |p|, c) {
        var q := p + [c];
        ProbesAddUp(q, n);
        Distribute(n, TreeSize(q, n), SubtreeFrom(p, n, c + 1));
        Distribute(n, |Completions(q, n)|, |CompletionsFrom(p, n, c + 1)|);
      }
    }
  }

  /** The two exhaustive solvers agree on the set of solutions; the search
      tree they walk is the same, so the backtracking solver takes back one
      queen for every state the breadth-first solver dequeues but the first. */
  lemma SolversAgree(n: nat)
    ensures ZeroFrom(Encode([], n), 0) && RowsAtMost(n, [Item([], 0)])
    ensures forall s :: s in Search(Encode([], n), 0).solutions <==> s in Bfs(n, [Item([], 0)]).solutions
    ensures |Search(Encode([], n), 0).solutions| == |Bfs(n, [Item([], 0)]).solutions|
    ensures Search(Encode([], n), 0).backtracks + 1 == Bfs(n, [Item([], 0)]).steps
  {
    BacktrackingSolutions(n);
    SearchCounts([], n);
    BfsSolutions(n);
    BfsTotals(n);
    AllSolutions(n);
  }

  // ---------------------------------------------------------------------------
  // `bfs_solver` on the queue
  // ---------------------------------------------------------------------------

  /** `bfs_solver(n)` without its visualisation callback. */
  method BfsSolver(n: nat) returns (solutions: seq<seq<int>>, stats: Statistics)
    ensures RowsAtMost(n, [Item([], 0)])
    ensures var t := Bfs(n, [Item([], 0)]); solutions == t.solutions && stats == Stats(t)
  {
    var queue := [Item([], 0)];
    ghost var total := Bfs(n, queue);
    var t := Tally([], 0, 0);
    assert Plus(t, Bfs(n, queue)) == total by {
      assert [] + total.solutions == total.solutions;
    }
    while queue != []
      invariant RowsAtMost(n, queue)
      invariant Plus(t, Bfs(n, queue)) == total
      decreases QueueWeight(n, queue)
    {
      ghost var q := queue;
      ghost var before := t;
      var item := queue[0];
      queue := queue[1..];
      var placement, row := item.placement, item.row;
      t := Tally(t.solutions, t.steps + 1, t.backtracks);
      if row == n {
        t := Tally(t.solutions + [placement], t.steps, t.backtracks);
        PlusAssoc(before, Tally([placement], 1, 0), Bfs(n, queue));
        continue;
      }
      BfsShrinks(n, q);
      ghost var e := Expand(n, placement, row, 0);
      var rejected;
      queue, rejected := EnqueueChildren(n, placement, row, queue);
      t := Tally(t.solutions, t.steps, t.backtracks + rejected);
      PlusAssoc(before, Tally([], 1, e.rejected), Bfs(n, queue));
    }
    PlusNothing(t);
    solutions := t.solutions;
    stats := Stats(t);
  }

  /** The loop `for col in range(n)` of `bfs_solver`: enqueue every column
      without a conflict and count the others. */
  method EnqueueChildren(n: nat, placement: seq<int>, row: nat, queue: seq<Item>)
    returns (after: seq<Item>, rejected: nat)
    ensures after == queue + Expand(n, placement, row, 0).kids
    ensures rejected == Expand(n, placement, row, 0).rejected
  {
    ghost var e := Expand(n, placement, row, 0);
    after, rejected := queue, 0;
    var col := 0;
    while col < n
      invariant col <= n
      invariant after + Expand(n, placement, row, col).kids == queue + e.kids
      invariant rejected + Expand(n, placement, row, col).rejected == e.rejected
      decreases n - col
    {
      var valid := NoConflict(placement, row, col);
      if !valid {
        rejected := rejected + 1;
      } else {
        var newPlacement := placement + [col];
        assert [Item(newPlacement, row + 1)] + Expand(n, placement, row, col + 1).kids
            == Expand(n, placement, row, col).kids;
        after := after + [Item(newPlacement, row + 1)];
      }
      col := col + 1;
    }
    assert after + [] == after;
  }

  /** The conflict scan of `bfs_solver` for column `col`. */
  method NoConflict(placement: seq<int>, row: nat, col: nat) returns (valid: bool)
    ensures valid == !Clash(placement, row, col, 0)
  {
    valid := true;
    var r := 0;
    while r < |placement|
      invariant r <= |placement| && Clash(placement, row, col, 0) == Clash(placement, row, col, r)
    {
      var c := placement[r];
      if c == col || r + c == row + col || r - c == row - col {
        valid := false;
        break;
      }
      r := r + 1;
    }
  }
}
