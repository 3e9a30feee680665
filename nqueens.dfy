/** N-Queens with one queen per row: `board[i]` is the column of the queen in
    row `i`, or -1 while row `i` is empty. The solver enumerates every
    placement by backtracking, counting the column probes (`steps_count`) and
    the placements it takes back (`backtracks_count`). The reference
    enumeration `Completions` and the search-tree size `TreeSize` are shared
    with the solvers of the comparison script. */
module NQueens {
  import opened Common

  // ---------------------------------------------------------------------------
  // `_is_safe`
  // ---------------------------------------------------------------------------

  /** The scan of `_is_safe` over the rows `i`..`row`-1. */
  function SafeFrom(board: seq<int>, row: nat, col: int, i: nat): bool
    requires row <= |board| && i <= row
    decreases row - i
  {
    if i == row then true
    else if board[i] == col then false
    else if Abs(board[i] - col) == Abs(i - row) then false
    else SafeFrom(board, row, col, i + 1)
  }

  /** `_is_safe(board, row, col)`. */
  function IsSafe(board: seq<int>, row: nat, col: int): bool
    requires row <= |board|
  {
    SafeFrom(board, row, col, 0)
  }

  /** No queen of the rows above `row` shares the column or a diagonal with (`row`, `col`). */
  ghost predicate NoClash(board: seq<int>, row: nat, col: int)
    requires row <= |board|
  {
    forall i | 0 <= i < row :: board[i] != col && Abs(board[i] - col) != Abs(i - row)
  }

  lemma {:induction false} SafeFromMeans(board: seq<int>, row: nat, col: int, i: nat)
    requires row <= |board| && i <= row
    ensures SafeFrom(board, row, col, i) <==>
      forall k | i <= k < row :: board[k] != col && Abs(board[k] - col) != Abs(k - row)
    decreases row - i
  {
    if i < row {
      SafeFromMeans(board, row, col, i + 1);
    }
  }

  /** `_is_safe` holds exactly when no earlier queen attacks the square. */
  lemma IsSafeMeans(board: seq<int>, row: nat, col: int)
    requires row <= |board|
    ensures IsSafe(board, row, col) <==> NoClash(board, row, col)
  {
    SafeFromMeans(board, row, col, 0);
  }

  /** `_is_safe` reads only the rows above `row`. */
  lemma IsSafePrefix(board: seq<int>, row: nat, col: int)
    requires row <= |board|
    ensures IsSafe(board, row, col) == IsSafe(board[..row], row, col)
  {
    IsSafeMeans(board, row, col);
    IsSafeMeans(board[..row], row, col);
  }

  // ---------------------------------------------------------------------------
  // Placements and their enumeration in lexicographic order
  // ---------------------------------------------------------------------------

  /** `q` puts one queen in each of its rows, in the columns 0..n-1, no two on a
      column or a diagonal. */
  predicate Placement(q: seq<int>, n: int) {
    && (forall i | 0 <= i < |q| :: 0 <= q[i] < n)
    && (forall i, j | 0 <= i < j < |q| :: q[i] != q[j] && Abs(q[i] - q[j]) != j - i)
  }

  /** A safe column extends a placement to a placement, and only a safe one does. */
  lemma SafeExtends(p: seq<int>, n: int, c: int)
    requires Placement(p, n) && 0 <= c < n
    ensures IsSafe(p, |p|, c) <==> Placement(p + [c], n)
  {
    IsSafeMeans(p, |p|, c);
    if IsSafe(p, |p|, c) {
      NoClashExtends(p, n, c);
    }
    if Placement(p + [c], n) {
      ExtensionHasNoClash(p, n, c);
    }
  }

  lemma NoClashExtends(p: seq<int>, n: int, c: int)
    requires Placement(p, n) && 0 <= c < n && NoClash(p, |p|, c)
    ensures Placement(p + [c], n)
  {
    var q := p + [c];
    forall i, j | 0 <= i < j < |q|
      ensures q[i] != q[j] && Abs(q[i] - q[j]) != j - i
    {
      if j == |p| {
        assert q[i] == p[i] && q[j] == c;
      } else {
        assert q[i] == p[i] && q[j] == p[j];
      }
    }
  }

  lemma ExtensionHasNoClash(p: seq<int>, n: int, c: int)
    requires Placement(p + [c], n)
    ensures NoClash(p, |p|, c)
  {
    var q := p + [c];
    forall i | 0 <= i < |p|
      ensures p[i] != c && Abs(p[i] - c) != Abs(i - |p|)
    {
      assert q[i] == p[i] && q[|p|] == c;
    }
  }

  /** The placements of n queens that extend `p`, in lexicographic order: the
      order in which the backtracking search meets them. */
  function Completions(p: seq<int>, n: nat): seq<seq<int>>
    requires |p| <= n
    decreases n - |p|, 1, 0
  {
    if |p| == n then [p] else CompletionsFrom(p, n, 0)
  }

  /** The completions of `p` whose next queen stands in column `c` or later. */
  function CompletionsFrom(p: seq<int>, n: nat, c: nat): seq<seq<int>>
    requires |p| < n && c <= n
    decreases n - |p|, 0, n - c
  {
    if c == n then []
    else (if IsSafe(p, |p|, c) then Completions(p + [c], n) else []) + CompletionsFrom(p, n, c + 1)
  }

  /** The number of nodes of the search tree below `p`, `p` included: every
      safe partial placement that extends it. */
  function TreeSize(p: seq<int>, n: nat): nat
    requires |p| <= n
    decreases n - |p|, 1, 0
  {
    if |p| == n then 1 else 1 + SubtreeFrom(p, n, 0)
  }

  function SubtreeFrom(p: seq<int>, n: nat, c: nat): nat
    requires |p| < n && c <= n
    decreases n - |p|, 0, n - c
  {
    if c == n then 0
    else (if IsSafe(p, |p|, c) then TreeSize(p + [c], n) else 0) + SubtreeFrom(p, n, c + 1)
  }

  /** `a` comes before `b` in lexicographic order. */
  ghost predicate LexLess(a: seq<int>, b: seq<int>) {
    exists k | 0 <= k < |a| && k < |b| :: a[..k] == b[..k] && a[k] < b[k]
  }

  ghost predicate LexSorted(s: seq<seq<int>>) {
    forall i, j | 0 <= i < j < |s| :: LexLess(s[i], s[j])
  }

  /** Every completion has n rows and extends `p`. */
  lemma {:induction false} CompletionsShape(p: seq<int>, n: nat)
    requires |p| <= n
    ensures forall s | s in Completions(p, n) :: |s| == n && s[..|p|] == p
    decreases n - |p|, 1, 0
  {
    if |p| < n {
      CompletionsFromShape(p, n, 0);
    }
  }

  /** The completions from column `c` on put their next queen in column `c` or later. */
  lemma {:induction false} CompletionsFromShape(p: seq<int>, n: nat, c: nat)
    requires |p| < n && c <= n
    ensures forall s | s in CompletionsFrom(p, n, c) :: |s| == n && s[..|p|] == p && c <= s[|p|]
    decreases n - |p|, 0, n - c
  {
    if c < n {
      CompletionsFromShape(p, n, c + 1);
      if IsSafe(p, |p|, c) {
        CompletionsShape(p + [c], n);
        forall s | s in Completions(p + [c], n)
          ensures s[..|p|] == p && s[|p|] == c
        {
          assert s[..|p| + 1] == p + [c];
          assert s[..|p|] == s[..|p| + 1][..|p|];
        }
      }
    }
  }

  /** Every completion of a placement is a placement. */
  lemma {:induction false} CompletionsSound(p: seq<int>, n: nat)
    requires |p| <= n && Placement(p, n)
    ensures forall s | s in Completions(p, n) :: Placement(s, n)
    decreases n - |p|, 1, 0
  {
    if |p| < n {
      CompletionsFromSound(p, n, 0);
    }
  }

  lemma {:induction false} CompletionsFromSound(p: seq<int>, n: nat, c: nat)
    requires |p| < n && c <= n && Placement(p, n)
    ensures forall s | s in CompletionsFrom(p, n, c) :: Placement(s, n)
    decreases n - |p|, 0, n - c
  {
    if c < n {
      CompletionsFromSound(p, n, c + 1);
      if IsSafe(p, |p|, c) {
        SafeExtends(p, n, c);
        CompletionsSound(p + [c], n);
      }
    }
  }

  /** Every placement of n queens that extends `p` is a completion of `p`. */
  lemma {:induction false} CompletionsComplete(p: seq<int>, n: nat, s: seq<int>)
    requires |p| <= n && |s| == n && Placement(s, n) && s[..|p|] == p
    ensures s in Completions(p, n)
    decreases n - |p|, 1, 0
  {
    if |p| == n {
      assert s == s[..|p|];
    } else {
      CompletionsFromComplete(p, n, 0, s);
    }
  }

  lemma {:induction false} CompletionsFromComplete(p: seq<int>, n: nat, c: nat, s: seq<int>)
    requires |p| < n && c <= n && |s| == n && Placement(s, n) && s[..|p|] == p && c <= s[|p|]
    ensures s in CompletionsFrom(p, n, c)
    decreases n - |p|, 0, n - c
  {
    assert c < n;
    if s[|p|] == c {
      var q := p + [c];
      assert s[..|q|] == q;
      PrefixPlacement(s, n, |q|);
      PrefixPlacement(s, n, |p|);
      SafeExtends(p, n, c);
      CompletionsComplete(q, n, s);
    } else {
      CompletionsFromComplete(p, n, c + 1, s);
    }
  }

  lemma PrefixPlacement(s: seq<int>, n: int, k: nat)
    requires Placement(s, n) && k <= |s|
    ensures Placement(s[..k], n)
  {
  }

  lemma LexSortedAppend(a: seq<seq<int>>, b: seq<seq<int>>)
    requires LexSorted(a) && LexSorted(b)
    requires forall x, y | x in a && y in b :: LexLess(x, y)
    ensures LexSorted(a + b)
  {
    var s := a + b;
    forall i, j | 0 <= i < j < |s|
      ensures LexLess(s[i], s[j])
    {
      if j < |a| {
        assert s[i] == a[i] && s[j] == a[j];
      } else if i >= |a| {
        assert s[i] == b[i - |a|] && s[j] == b[j - |a|];
      } else {
        assert s[i] in a && s[j] in b;
      }
    }
  }

  /** The completions come out in strictly increasing lexicographic order. */
  lemma {:induction false} CompletionsSorted(p: seq<int>, n: nat)
    requires |p| <= n
    ensures LexSorted(Completions(p, n))
    decreases n - |p|, 1, 0
  {
    if |p| < n {
      CompletionsFromSorted(p, n, 0);
    }
  }

  lemma {:induction false} CompletionsFromSorted(p: seq<int>, n: nat, c: nat)
    requires |p| < n && c <= n
    ensures LexSorted(CompletionsFrom(p, n, c))
    decreases n - |p|, 0, n - c
  {
    if c < n {
      CompletionsFromSorted(p, n, c + 1);
      if IsSafe(p, |p|, c) {
        var q := p + [c];
        CompletionsSorted(q, n);
        CompletionsShape(q, n);
        CompletionsFromShape(p, n, c + 1);
        forall x, y | x in Completions(q, n) && y in CompletionsFrom(p, n, c + 1)
          ensures LexLess(x, y)
        {
          assert x[..|p|] == x[..|q|][..|p|];
          assert x[|p|] == q[|p|];
          assert x[..|p|] == y[..|p|] && x[|p|] < y[|p|];
        }
        LexSortedAppend(Completions(q, n), CompletionsFrom(p, n, c + 1));
      }
    }
  }

  /** The solutions of the empty board: exactly the placements of n queens, in
      strictly increasing lexicographic order. */
  lemma AllSolutions(n: nat)
    ensures forall s :: s in Completions([], n) <==> |s| == n && Placement(s, n)
    ensures LexSorted(Completions([], n))
  {
    CompletionsShape([], n);
    CompletionsSound([], n);
    CompletionsSorted([], n);
    forall s | |s| == n && Placement(s, n)
      ensures s in Completions([], n)
    {
      assert s[..0] == [];
      CompletionsComplete([], n, s);
    }
  }

  // ---------------------------------------------------------------------------
  // A full board has no free column
  // ---------------------------------------------------------------------------

  /** The columns 0..n-1. */
  function Columns(n: nat): (s: set<int>)
    ensures |s| == n
    ensures forall x :: x in s <==> 0 <= x < n
  {
    if n == 0 then {} else Columns(n - 1) + {n - 1}
  }

  lemma {:induction false} ColumnsUsedCard(q: seq<int>, k: nat)
    requires k <= |q| && forall i, j | 0 <= i < j < |q| :: q[i] != q[j]
    ensures |set i | 0 <= i < k :: q[i]| == k
  {
    if k > 0 {
      ColumnsUsedCard(q, k - 1);
      var before := set i | 0 <= i < k - 1 :: q[i];
      assert q[k - 1] !in before;
      assert (set i | 0 <= i < k :: q[i]) == before + {q[k - 1]};
    }
  }

  /** With a queen in every row of the board, every column is taken. */
  lemma FullCovers(q: seq<int>, n: nat, col: int)
    requires |q| == n && Placement(q, n) && 0 <= col < n
    ensures col in q
  {
    var used := set i | 0 <= i < n :: q[i];
    var all := Columns(n);
    ColumnsUsedCard(q, n);
    assert used <= all;
    if col !in used {
      assert used < all by {
        assert col in all;
      }
      ProperSubsetCard(used, all);
    }
  }

  /** So `_is_safe` rejects every column of the row past the end. */
  lemma LeafHasNoSafeColumn(q: seq<int>, n: nat, col: int)
    requires |q| == n && Placement(q, n) && 0 <= col < n
    ensures !IsSafe(q, n, col)
  {
    FullCovers(q, n, col);
    var i :| 0 <= i < n && q[i] == col;
    IsSafeMeans(q, n, col);
  }

  // ---------------------------------------------------------------------------
  // `_backtrack` as a function on values
  // ---------------------------------------------------------------------------

  /** What a call contributes: the solutions it appends, and the amounts it adds
      to `steps_count` and `backtracks_count`. */
  datatype Tally = Tally(solutions: seq<seq<int>>, steps: nat, backtracks: nat)

  /** The rows from `row` on are empty. */
  predicate BlankFrom(b: seq<int>, row: nat) {
    forall i | row <= i < |b| :: b[i] == -1
  }

  function Plus(a: Tally, b: Tally): Tally {
    Tally(a.solutions + b.solutions, a.steps + b.steps, a.backtracks + b.backtracks)
  }

  lemma PlusAssoc(a: Tally, b: Tally, c: Tally)
    ensures Plus(Plus(a, b), c) == Plus(a, Plus(b, c))
  {
    assert (a.solutions + b.solutions) + c.solutions == a.solutions + (b.solutions + c.solutions);
  }

  lemma PlusNothing(a: Tally)
    ensures Plus(a, Tally([], 0, 0)) == a
  {
    assert a.solutions + [] == a.solutions;
  }

  lemma EmptyPlus(a: Tally)
    ensures Plus(Tally([], 0, 0), a) == a
  {
    assert [] + a.solutions == a.solutions;
  }

  /** `_backtrack(board, row, n)`: record the board when every row is filled,
      then probe the columns 0..n-1 of row `row`. A full board falls through to
      the probes as in the source; there `_is_safe` rejects every column
      (`LeafHasNoSafeColumn`), which the test `row < n` stands for. */
  function Backtrack(b: seq<int>, row: nat, n: nat): Tally
    requires |b| == n && row <= n && BlankFrom(b, row)
    decreases n - row, 2, 0
  {
    Plus(Tally(if row == n then [b] else [], 0, 0), Probes(b, row, n, 0))
  }

  /** The probes of the columns `col`..n-1. */
  function Probes(b: seq<int>, row: nat, n: nat, col: nat): Tally
    requires |b| == n && row <= n && BlankFrom(b, row) && col <= n
    decreases n - row, 1, n - col
  {
    if col == n then Tally([], 0, 0) else Plus(Probe(b, row, n, col), Probes(b, row, n, col + 1))
  }

  /** The probe of column `col`: one step; a safe column is written, searched
      below, cleared again, and counted as a backtrack. */
  function Probe(b: seq<int>, row: nat, n: nat, col: nat): Tally
    requires |b| == n && row <= n && BlankFrom(b, row)
    decreases n - row, 0, 0
  {
    if row < n && IsSafe(b, row, col) then
      var sub := Backtrack(b[row := col], row + 1, n);
      Tally(sub.solutions, 1 + sub.steps, 1 + sub.backtracks)
    else Tally([], 1, 0)
  }

  /** Placement `p` on a board of n rows, the rows below it empty. */
  function Pad(p: seq<int>, n: nat): (b: seq<int>)
    requires |p| <= n
    ensures |b| == n && b[..|p|] == p && BlankFrom(b, |p|)
  {
    p + seq(n - |p|, _ => -1)
  }

  lemma PadNext(p: seq<int>, n: nat, c: int)
    requires |p| < n
    ensures Pad(p, n)[|p| := c] == Pad(p + [c], n)
  {
    var x := Pad(p, n)[|p| := c];
    var y := Pad(p + [c], n);
    assert forall i | 0 <= i < n :: x[i] == y[i];
  }

  /** The probes of a full board find nothing and cost one step per column. */
  lemma {:induction false} ProbesAtLeaf(b: seq<int>, n: nat, col: nat)
    requires |b| == n && col <= n
    ensures Probes(b, n, n, col) == Tally([], n - col, 0)
    decreases n - col
  {
    if col < n {
      ProbesAtLeaf(b, n, col + 1);
    }
  }

  /** From a placement `p`, the search appends exactly the completions of `p`,
      probes n columns at each of the `TreeSize(p, n)` nodes it visits, and
      takes back one placement for each node but the first. */
  lemma {:induction false} BacktrackCounts(p: seq<int>, n: nat)
    requires |p| <= n && Placement(p, n)
    ensures Backtrack(Pad(p, n), |p|, n)
         == Tally(Completions(p, n), n * TreeSize(p, n), TreeSize(p, n) - 1)
    decreases n - |p|, 1, 0
  {
    var b := Pad(p, n);
    if |p| == n {
      assert b == p;
      ProbesAtLeaf(p, n, 0);
      assert TreeSize(p, n) == 1 && Completions(p, n) == [p];
    } else {
      var s := SubtreeFrom(p, n, 0);
      ProbesCounts(p, n, 0);
      assert Probes(b, |p|, n, 0) == Tally(CompletionsFrom(p, n, 0), n + n * s, s);
      assert TreeSize(p, n) == 1 + s && Completions(p, n) == CompletionsFrom(p, n, 0);
      Distribute(n, 1, s);
      assert [] + CompletionsFrom(p, n, 0) == CompletionsFrom(p, n, 0);
    }
  }

  lemma {:induction false} ProbesCounts(p: seq<int>, n: nat, c: nat)
    requires |p| < n && c <= n && Placement(p, n)
    ensures Probes(Pad(p, n), |p|, n, c)
         == Tally(CompletionsFrom(p, n, c), (n - c) + n * SubtreeFrom(p, n, c), SubtreeFrom(p, n, c))
    decreases n - |p|, 0, n - c
  {
    if c < n {
      var b, q := Pad(p, n), p + [c];
      var next := c + 1;
      var s := SubtreeFrom(p, n, next);
      var rest := Probes(b, |p|, n, next);
      ProbesCounts(p, n, next);
      assert Probes(b, |p|, n, c) == Plus(Probe(b, |p|, n, c), rest);
      IsSafePrefix(b, |p|, c);
      if IsSafe(p, |p|, c) {
        SafeExtends(p, n, c);
        PadNext(p, n, c);
        BacktrackCounts(q, n);
        var t := TreeSize(q, n);
        assert Backtrack(b[|p| := c], |p| + 1, n) == Tally(Completions(q, n), n * t, t - 1);
        assert SubtreeFrom(p, n, c) == t + s;
        assert CompletionsFrom(p, n, c) == Completions(q, n) + CompletionsFrom(p, n, next);
        Distribute(n, t, s);
      } else {
        assert SubtreeFrom(p, n, c) == s;
        assert CompletionsFrom(p, n, c) == [] + CompletionsFrom(p, n, next);
      }
    }
  }

  lemma Distribute(n: int, t: int, s: int)
    ensures n * (t + s) == n * t + n * s
  {
  }

  /** `solve(n)` appends the solutions of the empty board: every placement of n
      queens in lexicographic order, with n probes per search-tree node. */
  lemma SolveCounts(n: nat)
    ensures Backtrack(seq(n, _ => -1), 0, n)
         == Tally(Completions([], n), n * TreeSize([], n), TreeSize([], n) - 1)
  {
    assert Pad([], n) == seq(n, _ => -1);
    BacktrackCounts([], n);
  }

  /** The completions of each first-row column for n = 4. */
  lemma FourQueensFrom0()
    ensures Completions([0], 4) == []
  {
    assert Completions([0, 2], 4) == [];
    assert Completions([0, 3, 1], 4) == [];
    assert [0, 3] + [1] == [0, 3, 1];
    assert Completions([0, 3], 4) == [];
    assert [0] + [2] == [0, 2];
    assert [0] + [3] == [0, 3];
  }

  lemma FourQueensFrom1()
    ensures Completions([1], 4) == [[1, 3, 0, 2]]
  {
    assert Completions([1, 3, 0, 2], 4) == [[1, 3, 0, 2]];
    assert [1, 3, 0] + [2] == [1, 3, 0, 2];
    assert Completions([1, 3, 0], 4) == [[1, 3, 0, 2]];
    assert [1, 3] + [0] == [1, 3, 0];
    assert Completions([1, 3], 4) == [[1, 3, 0, 2]];
    assert [1] + [3] == [1, 3];
  }

  lemma FourQueensFrom2()
    ensures Completions([2], 4) == [[2, 0, 3, 1]]
  {
    assert Completions([2, 0, 3, 1], 4) == [[2, 0, 3, 1]];
    assert [2, 0, 3] + [1] == [2, 0, 3, 1];
    assert Completions([2, 0, 3], 4) == [[2, 0, 3, 1]];
    assert [2, 0] + [3] == [2, 0, 3];
    assert Completions([2, 0], 4) == [[2, 0, 3, 1]];
    assert [2] + [0] == [2, 0];
  }

  lemma FourQueensFrom3()
    ensures Completions([3], 4) == []
  {
    assert Completions([3, 0, 2], 4) == [];
    assert [3, 0] + [2] == [3, 0, 2];
    assert Completions([3, 0], 4) == [];
    assert Completions([3, 1], 4) == [];
    assert [3] + [0] == [3, 0];
    assert [3] + [1] == [3, 1];
  }

  /** The two solutions of the 4-queens problem, one the mirror image of the other. */
  lemma FourQueens()
    ensures Completions([], 4) == [[1, 3, 0, 2], [2, 0, 3, 1]]
  {
    assert [] + [0] == [0] && [] + [1] == [1] && [] + [2] == [2] && [] + [3] == [3];
    FourQueensFrom0();
    FourQueensFrom1();
    FourQueensFrom2();
    FourQueensFrom3();
  }

  // ---------------------------------------------------------------------------
  // The solver object
  // ---------------------------------------------------------------------------

  /** `get_statistics()`. */
  datatype Statistics = Statistics(steps: nat, backtracks: nat, solutionsCount: nat)

  class NQueensSolver {
    var solutions: seq<seq<int>>
    var stepsCount: nat
    var backtracksCount: nat
    /** A copy of the board after its latest change; `None` before the first `solve`. */
    var currentState: Option<seq<int>>

    constructor ()
      ensures solutions == [] && stepsCount == 0 && backtracksCount == 0 && currentState == None
    {
      solutions := [];
      stepsCount := 0;
      backtracksCount := 0;
      currentState := None;
    }

    /** `solve(n)`: reset the results and counters, search from the empty
        board, and return the solutions. Nothing of an earlier call survives. */
    method Solve(n: nat) returns (r: seq<seq<int>>)
      modifies this
      ensures Counters() == Backtrack(seq(n, _ => -1), 0, n)
      ensures r == solutions
      ensures currentState == Some(seq(n, _ => -1))
    {
      solutions := [];
      stepsCount := 0;
      backtracksCount := 0;
      var board := new int[n](_ => -1);
      ghost var blank: seq<int> := seq(n, _ => -1);
      assert board[..] == blank;
      assert BlankFrom(blank, 0);
      currentState := Some(board[..]);
      BacktrackOn(board, 0, n);
      EmptyPlus(Backtrack(blank, 0, n));
      r := solutions;
    }

    /** `_backtrack(board, row, n)` on the board list: every placement is taken
        back, so the board is left as it was. */
    method BacktrackOn(board: array<int>, row: nat, n: nat)
      requires board.Length == n && row <= n && BlankFrom(board[..], row)
      modifies this, board
      ensures board[..] == old(board[..])
      ensures Counters() == Plus(old(Counters()), Backtrack(board[..], row, n))
      ensures currentState == old(currentState) || currentState == Some(board[..])
      decreases n - row, 1
    {
      ghost var b := board[..];
      ghost var start := Counters();
      if row == n {
        solutions := solutions + [board[..]];
      }
      ghost var leaf := Tally(if row == n then [b] else [], 0, 0);
      assert Counters() == Plus(start, leaf);
      PlusAssoc(start, leaf, Probes(b, row, n, 0));
      var col := 0;
      while col < n
        invariant col <= n && board[..] == b
        invariant Plus(Counters(), Probes(b, row, n, col)) == Plus(start, Backtrack(b, row, n))
        invariant currentState == old(currentState) || currentState == Some(b)
        decreases n - col
      {
        ghost var before := Counters();
        ProbeOn(board, row, n, col);
        PlusAssoc(before, Probe(b, row, n, col), Probes(b, row, n, col + 1));
        col := col + 1;
      }
      PlusNothing(Counters());
    }

    /** One turn of the loop of `_backtrack`: the probe of column `col`. */
    method ProbeOn(board: array<int>, row: nat, n: nat, col: nat)
      requires board.Length == n && row <= n && BlankFrom(board[..], row) && col < n
      modifies this, board
      ensures board[..] == old(board[..])
      ensures Counters() == Plus(old(Counters()), Probe(board[..], row, n, col))
      ensures currentState == old(currentState) || currentState == Some(board[..])
      decreases n - row, 0
    {
      ghost var b := board[..];
      stepsCount := stepsCount + 1;
      if row < n && IsSafe(board[..], row, col) {
        board[row] := col;
        assert board[..] == b[row := col];
        currentState := Some(board[..]);
        BacktrackOn(board, row + 1, n);
        board[row] := -1;
        assert board[..] == b;
        currentState := Some(board[..]);
        backtracksCount := backtracksCount + 1;
      }
    }

    /** The results so far, in the shape of a `Tally`. */
    function Counters(): Tally
      reads this
    {
      Tally(solutions, stepsCount, backtracksCount)
    }

    function GetStatistics(): (s: Statistics)
      reads this
      ensures s.solutionsCount == |solutions|
      ensures s.steps == stepsCount && s.backtracks == backtracksCount
    {
      Statistics(stepsCount, backtracksCount, |solutions|)
    }
  }
}
