/** The maze solvers of maze_comparison.py on a grid of characters ('#' wall,
    '-' open, 'A' start, 'B' goal): the recursive backtracking search with its
    shared `path` and `visited`, the explicit-stack depth-first search, the
    best-first search on the Manhattan heuristic, their helpers, and the
    copy-and-mark step of `print_path`. */
module MazeComparison {
  import opened Common
  import opened Grids

  type Cell = (int, int)

  /** `DIRECTIONS`: up, down, left, right. */
  const Dirs: seq<Cell> := [(-1, 0), (1, 0), (0, -1), (0, 1)]

  /** `len(grid[0])`; an empty grid has no cells, and `is_valid` never reads
      its first row then. */
  function Width(grid: seq<seq<char>>): nat {
    if |grid| == 0 then 0 else |grid[0]|
  }

  /** Every row as long as the first: the solvers index every row up to
      `len(grid[0])`. */
  predicate Rectangular(grid: seq<seq<char>>) {
    forall i | 0 <= i < |grid| :: |grid[i]| == Width(grid)
  }

  /** A cell inside the grid holding '-' or 'B'. */
  predicate Passable(grid: seq<seq<char>>, p: Cell)
    requires Rectangular(grid)
  {
    0 <= p.0 < |grid| && 0 <= p.1 < Width(grid) && (grid[p.0][p.1] == '-' || grid[p.0][p.1] == 'B')
  }

  /** `is_valid(grid, row, col, visited)`. */
  predicate IsValid(grid: seq<seq<char>>, row: int, col: int, visited: set<Cell>)
    requires Rectangular(grid)
  {
    Passable(grid, (row, col)) && (row, col) !in visited
  }

  /** The passable cells of the grid. */
  function Open(grid: seq<seq<char>>): (z: set<Cell>)
    requires Rectangular(grid)
    ensures forall p | p in z :: Passable(grid, p)
  {
    set i, j | 0 <= i < |grid| && 0 <= j < |grid[i]| && (grid[i][j] == '-' || grid[i][j] == 'B') :: (i, j)
  }

  /** `is_valid` accepts exactly the passable cells not yet visited. */
  lemma IsValidMeans(grid: seq<seq<char>>, row: int, col: int, visited: set<Cell>)
    requires Rectangular(grid)
    ensures IsValid(grid, row, col, visited) <==> (row, col) in Open(grid) - visited
  {
    if IsValid(grid, row, col, visited) {
      assert (row, col) in Open(grid);
    }
  }

  /** Entering a cell that `is_valid` accepts shrinks the set of passable
      cells still unvisited. */
  lemma VisitShrinks(grid: seq<seq<char>>, p: Cell, visited: set<Cell>)
    requires Rectangular(grid) && IsValid(grid, p.0, p.1, visited)
    ensures |Open(grid) - (visited + {p})| < |Open(grid) - visited|
  {
    IsValidMeans(grid, p.0, p.1, visited);
    ProperSubsetCard(Open(grid) - (visited + {p}), Open(grid) - visited);
  }

  // ---------------------------------------------------------------------------
  // `heuristic` and `find_point`
  // ---------------------------------------------------------------------------

  /** `heuristic(a, b)`: the Manhattan distance. */
  function Heuristic(a: Cell, b: Cell): (h: nat) {
    Abs(a.0 - b.0) + Abs(a.1 - b.1)
  }

  /** The distance is symmetric, zero exactly between equal cells, and obeys
      the triangle inequality. */
  lemma HeuristicMeans(a: Cell, b: Cell, c: Cell)
    ensures Heuristic(a, b) == Heuristic(b, a)
    ensures Heuristic(a, b) == 0 <==> a == b
    ensures Heuristic(a, c) <= Heuristic(a, b) + Heuristic(b, c)
  {
  }

  /** Neighbouring cells are one apart. */
  predicate Adjacent(a: Cell, b: Cell) {
    Heuristic(a, b) == 1
  }

  /** The cell `Dirs[k]` leads to from `p`. */
  function Step(p: Cell, k: int): Cell
    requires 0 <= k < 4
  {
    (p.0 + Dirs[k].0, p.1 + Dirs[k].1)
  }

  /** The cells `Dirs` leads to from `p` are exactly its neighbours. */
  lemma DirsAdjacent(p: Cell)
    ensures forall k | 0 <= k < 4 :: Adjacent(p, Step(p, k))
    ensures forall q :: Adjacent(p, q) <==> exists k | 0 <= k < 4 :: q == Step(p, k)
  {
    forall q | Adjacent(p, q)
      ensures exists k | 0 <= k < 4 :: q == Step(p, k)
    {
      if q.0 < p.0 {
        assert q == Step(p, 0);
      } else if q.0 > p.0 {
        assert q == Step(p, 1);
      } else if q.1 < p.1 {
        assert q == Step(p, 2);
      } else {
        assert q == Step(p, 3);
      }
    }
  }

  /** A walk through neighbouring cells whose cells strictly between its
      two ends are passable; its ends are unconstrained. */
  predicate Walk(grid: seq<seq<char>>, p: seq<Cell>)
    requires Rectangular(grid)
  {
    && |p| > 0
    && (forall i | 0 <= i < |p| - 1 :: Adjacent(p[i], p[i + 1]))
    && (forall i | 0 < i < |p| - 1 :: Passable(grid, p[i]))
  }

  /** Some walk leads from `start` to `end`. */
  ghost predicate Linked(grid: seq<seq<char>>, start: Cell, end: Cell)
    requires Rectangular(grid)
  {
    exists p :: Walk(grid, p) && p[0] == start && p[|p| - 1] == end
  }

  /** `end` can be entered from `start` through passable cells: some walk
      leads there, and `end` is passable unless it is `start`. */
  ghost predicate Reachable(grid: seq<seq<char>>, start: Cell, end: Cell)
    requires Rectangular(grid)
  {
    Linked(grid, start, end) && (start == end || Passable(grid, end))
  }

  /** Every passable neighbour of a cell in `from` lies in `within`. */
  predicate Closed(grid: seq<seq<char>>, from: set<Cell>, within: set<Cell>)
    requires Rectangular(grid)
  {
    forall v, k | v in from && 0 <= k < 4 :: Passable(grid, Step(v, k)) ==> Step(v, k) in within
  }

  /** `Closed`, and no cell in `from` is next to `end`. */
  predicate Sealed(grid: seq<seq<char>>, end: Cell, from: set<Cell>, within: set<Cell>)
    requires Rectangular(grid)
  {
    Closed(grid, from, within) && forall v, k | v in from && 0 <= k < 4 :: Step(v, k) != end
  }

  /** A walk that starts in a closed set stays in it up to its last passable
      cell. */
  lemma {:induction false} WalkWithin(grid: seq<seq<char>>, within: set<Cell>, p: seq<Cell>, n: nat)
    requires Rectangular(grid) && Walk(grid, p) && p[0] in within && Closed(grid, within, within)
    requires n < |p| && (n < |p| - 1 || Passable(grid, p[n]))
    ensures p[n] in within
  {
    if n > 0 {
      WalkWithin(grid, within, p, n - 1);
      DirsAdjacent(p[n - 1]);
      var k :| 0 <= k < 4 && p[n] == Step(p[n - 1], k);
      assert Passable(grid, Step(p[n - 1], k));
    }
  }

  /** A closed set holding `start` but not `end` leaves `end` unreachable. */
  lemma ClosedUnreachable(grid: seq<seq<char>>, start: Cell, end: Cell, within: set<Cell>)
    requires Rectangular(grid) && start in within && end !in within && Closed(grid, within, within)
    ensures !Reachable(grid, start, end)
  {
    forall p | Walk(grid, p) && p[0] == start && Passable(grid, p[|p| - 1])
      ensures p[|p| - 1] != end
    {
      WalkWithin(grid, within, p, |p| - 1);
    }
  }

  /** A sealed set holding `start` but not `end` leaves `end` unlinked. */
  lemma SealedUnlinked(grid: seq<seq<char>>, start: Cell, end: Cell, within: set<Cell>)
    requires Rectangular(grid) && start in within && end !in within && Sealed(grid, end, within, within)
    ensures !Linked(grid, start, end)
  {
    forall p | Walk(grid, p) && p[0] == start && |p| > 1
      ensures p[|p| - 1] != end
    {
      WalkWithin(grid, within, p, |p| - 2);
      DirsAdjacent(p[|p| - 2]);
      var k :| 0 <= k < 4 && p[|p| - 1] == Step(p[|p| - 2], k);
    }
  }

  /** Row-major order of cells. */
  predicate RowMajorBefore(a: Cell, b: Cell) {
    a.0 < b.0 || (a.0 == b.0 && a.1 < b.1)
  }

  /** `find_point(grid, symbol)` from the cell (`r`, `c`) on, row by row. */
  function FindFrom(grid: seq<seq<char>>, symbol: char, r: nat, c: nat): (o: Option<Cell>)
    requires Rectangular(grid) && r <= |grid| && c <= Width(grid)
    ensures o.Some? ==> 0 <= o.value.0 < |grid| && 0 <= o.value.1 < Width(grid)
    ensures o.Some? ==> grid[o.value.0][o.value.1] == symbol
    ensures o.Some? ==> !RowMajorBefore(o.value, (r, c))
    decreases |grid| - r, Width(grid) - c
  {
    if r == |grid| then None
    else if c == Width(grid) then FindFrom(grid, symbol, r + 1, 0)
    else if grid[r][c] == symbol then Some((r, c))
    else FindFrom(grid, symbol, r, c + 1)
  }

  /** Whether some cell from (`r`, `c`) on holds `symbol`. */
  ghost predicate HeldFrom(grid: seq<seq<char>>, symbol: char, r: nat, c: nat)
    requires Rectangular(grid)
  {
    exists i, j | 0 <= i < |grid| && 0 <= j < Width(grid) :: grid[i][j] == symbol && !RowMajorBefore((i, j), (r, c))
  }

  /** The scan finds nothing exactly when no remaining cell holds the symbol,
      and what it finds is the first such cell in row-major order. */
  lemma {:induction false} FindFromMeans(grid: seq<seq<char>>, symbol: char, r: nat, c: nat)
    requires Rectangular(grid) && r <= |grid| && c <= Width(grid)
    ensures FindFrom(grid, symbol, r, c).None? <==> !HeldFrom(grid, symbol, r, c)
    ensures FindFrom(grid, symbol, r, c).Some? ==>
      forall i, j | 0 <= i < |grid| && 0 <= j < Width(grid) && !RowMajorBefore((i, j), (r, c))
        && RowMajorBefore((i, j), FindFrom(grid, symbol, r, c).value) :: grid[i][j] != symbol
    decreases |grid| - r, Width(grid) - c
  {
    if r == |grid| {
    } else if c == Width(grid) {
      FindFromMeans(grid, symbol, r + 1, 0);
    } else if grid[r][c] == symbol {
      assert HeldFrom(grid, symbol, r, c) by {
        assert grid[r][c] == symbol && !RowMajorBefore((r, c), (r, c));
      }
    } else {
      FindFromMeans(grid, symbol, r, c + 1);
    }
  }

  /** `find_point(grid, symbol)`. */
  function FindPoint(grid: seq<seq<char>>, symbol: char): (o: Option<Cell>)
    requires Rectangular(grid)
    ensures o.Some? ==> 0 <= o.value.0 < |grid| && 0 <= o.value.1 < Width(grid) && grid[o.value.0][o.value.1] == symbol
  {
    FindFrom(grid, symbol, 0, 0)
  }

  /** `find_point` returns `None` exactly when no cell holds the symbol, and
      otherwise the first cell in row-major order that does. */
  lemma FindPointMeans(grid: seq<seq<char>>, symbol: char)
    requires Rectangular(grid)
    ensures FindPoint(grid, symbol).None? <==>
      forall i, j | 0 <= i < |grid| && 0 <= j < Width(grid) :: grid[i][j] != symbol
    ensures FindPoint(grid, symbol).Some? ==>
      forall i, j | 0 <= i < |grid| && 0 <= j < Width(grid) && RowMajorBefore((i, j), FindPoint(grid, symbol).value) ::
        grid[i][j] != symbol
  {
    FindFromMeans(grid, symbol, 0, 0);
  }

  // ---------------------------------------------------------------------------
  // `backtracking`
  // ---------------------------------------------------------------------------

  /** What a successful call `dfs(r, c)` appends to `path`, given the set
      `seen` visited at the call: a walk of neighbouring cells that ends at
      `end` and nowhere earlier; every cell before the end is `start` or a
      passable cell not in `seen`; and only `start` can occur twice. */
  predicate Trail(grid: seq<seq<char>>, start: Cell, end: Cell, seen: set<Cell>, p: seq<Cell>)
    requires Rectangular(grid)
  {
    && |p| > 0 && p[|p| - 1] == end
    && (forall i | 0 <= i < |p| - 1 :: Adjacent(p[i], p[i + 1]))
    && (forall i | 0 <= i < |p| - 1 :: p[i] != end && (p[i] == start || (p[i] !in seen && Passable(grid, p[i]))))
    && (forall i, j | 0 <= i < j < |p| && p[i] == p[j] :: p[i] == start)
  }

  /** A trail from a cell on is that cell in front of a trail from a
      neighbour that the cell's visit has made unavailable. */
  lemma TrailCons(grid: seq<seq<char>>, start: Cell, end: Cell, seen: set<Cell>, seen': set<Cell>, here: Cell, t: seq<Cell>)
    requires Rectangular(grid) && Trail(grid, start, end, seen', t)
    requires here != end && (here == start || (here !in seen && Passable(grid, here)))
    requires seen + {here} <= seen' && Adjacent(here, t[0])
    ensures Trail(grid, start, end, seen, [here] + t)
  {
    var p := [here] + t;
    assert forall i | 0 <= i < |t| :: p[i + 1] == t[i];
    forall i, j | 0 <= i < j < |p| && p[i] == p[j]
      ensures p[i] == start
    {
      if i == 0 {
        assert p[j] == t[j - 1];
      }
    }
  }

  /** A trail found from a neighbour, behind `path` and the cell `here`
      appended before it, is a trail from `here` behind `path`. */
  lemma TrailBehind(grid: seq<seq<char>>, start: Cell, end: Cell, seen: set<Cell>, seen': set<Cell>, here: Cell,
                    path: seq<Cell>, p: seq<Cell>)
    requires Rectangular(grid) && |p| > |path| + 1 && p[..|path| + 1] == path + [here]
    requires Trail(grid, start, end, seen', p[|path| + 1..])
    requires here != end && (here == start || (here !in seen && Passable(grid, here)))
    requires seen + {here} <= seen' && Adjacent(here, p[|path| + 1])
    ensures p[..|path|] == path && p[|path|] == here
    ensures Trail(grid, start, end, seen, p[|path|..])
  {
    assert p[|path|] == (path + [here])[|path|];
    assert p[..|path|] == (path + [here])[..|path|];
    TrailCons(grid, start, end, seen, seen', here, p[|path| + 1..]);
    assert p[|path|..] == [here] + p[|path| + 1..];
  }

  /** A trail from `start` gives a walk from `start`: from the last visit
      of `start` on, every cell before the end is passable. */
  lemma {:induction false} TrailLinksFrom(grid: seq<seq<char>>, start: Cell, end: Cell, seen: set<Cell>, p: seq<Cell>, i: nat)
    requires Rectangular(grid) && Trail(grid, start, end, seen, p) && i < |p| && p[i] == start
    ensures Linked(grid, start, end)
    decreases |p| - i
  {
    if exists m :: i < m < |p| && p[m] == start {
      var m :| i < m < |p| && p[m] == start;
      TrailLinksFrom(grid, start, end, seen, p, m);
    } else {
      var q := p[i..];
      assert forall n | 0 <= n < |q| :: q[n] == p[i + n];
      assert Walk(grid, q) && q[0] == start && q[|q| - 1] == end;
    }
  }

  lemma TrailLinks(grid: seq<seq<char>>, start: Cell, end: Cell, seen: set<Cell>, p: seq<Cell>)
    requires Rectangular(grid) && Trail(grid, start, end, seen, p) && p[0] == start
    ensures Linked(grid, start, end)
  {
    TrailLinksFrom(grid, start, end, seen, p, 0);
  }

  /** Two failed searches together: what each newly visited, the first
      within the second's visits. */
  lemma SealedJoin(grid: seq<seq<char>>, end: Cell, from: set<Cell>, within: set<Cell>, from': set<Cell>, within': set<Cell>)
    requires Rectangular(grid) && Sealed(grid, end, from, within) && Sealed(grid, end, from', within') && within <= within'
    ensures Sealed(grid, end, from + from', within')
  {
  }

  /** The cell a failed `dfs` explored, together with what its calls on the
      four neighbours visited. */
  lemma SealedCell(grid: seq<seq<char>>, end: Cell, visited: set<Cell>, here: Cell, visited': set<Cell>)
    requires Rectangular(grid) && Sealed(grid, end, visited' - visited - {here}, visited')
    requires forall k | 0 <= k < 4 :: Step(here, k) != end && (Passable(grid, Step(here, k)) ==> Step(here, k) in visited')
    ensures Sealed(grid, end, visited' - visited, visited')
  {
  }

  /** One more neighbour of `here` whose failed call has sealed it. */
  lemma NeighbourSealed(grid: seq<seq<char>>, end: Cell, here: Cell, k: nat, within: set<Cell>, within': set<Cell>)
    requires Rectangular(grid) && k < 4 && within <= within'
    requires forall j | 0 <= j < k :: Step(here, j) != end && (Passable(grid, Step(here, j)) ==> Step(here, j) in within)
    requires Step(here, k) != end && (Passable(grid, Step(here, k)) ==> Step(here, k) in within')
    ensures forall j | 0 <= j < k + 1 :: Step(here, j) != end && (Passable(grid, Step(here, j)) ==> Step(here, j) in within')
  {
  }

  /** The inner `dfs(r, c)` of `backtracking`, with its shared `path` and
      `visited` passed in and handed back: a success appends a trail from
      (`r`, `c`) to `end`; a failure leaves `path` as it was, because every
      append is matched by a pop, has visited (`r`, `c`) unless it was
      rejected, and has sealed every cell it visited: no neighbour of one
      is `end`, and every passable neighbour is visited. `visited` only
      grows, and never by `end`. */
  method Dfs(grid: seq<seq<char>>, start: Cell, end: Cell, r: int, c: int, path: seq<Cell>, visited: set<Cell>)
    returns (found: bool, path': seq<Cell>, visited': set<Cell>)
    requires Rectangular(grid)
    ensures visited <= visited' && (end in visited' ==> end in visited)
    ensures !found ==> path' == path && (r, c) != end && Sealed(grid, end, visited' - visited, visited')
    ensures !found && ((r, c) == start || Passable(grid, (r, c))) ==> (r, c) in visited'
    ensures found ==> |path'| > |path| && path'[..|path|] == path && path'[|path|] == (r, c)
    ensures found ==> Trail(grid, start, end, visited, path'[|path|..])
    decreases |Open(grid) - visited|, if (r, c) == start then 1 else 0, 1
  {
    if (r, c) == end {
      path' := path + [(r, c)];
      assert path'[|path|..] == [(r, c)];
      return true, path', visited;
    }
    if !((r, c) == start || IsValid(grid, r, c, visited)) {
      return false, path, visited;
    }
    found, path', visited' := Explore(grid, start, end, r, c, path, visited);
  }

  /** The rest of `dfs(r, c)` once (`r`, `c`) is accepted: mark and append it,
      try the four neighbours in order, and pop it when all of them fail. */
  method Explore(grid: seq<seq<char>>, start: Cell, end: Cell, r: int, c: int, path: seq<Cell>, visited: set<Cell>)
    returns (found: bool, path': seq<Cell>, visited': set<Cell>)
    requires Rectangular(grid) && (r, c) != end && ((r, c) == start || IsValid(grid, r, c, visited))
    ensures visited + {(r, c)} <= visited' && (end in visited' ==> end in visited)
    ensures !found ==> path' == path && Sealed(grid, end, visited' - visited, visited')
    ensures found ==> |path'| > |path| && path'[..|path|] == path && path'[|path|] == (r, c)
    ensures found ==> Trail(grid, start, end, visited, path'[|path|..])
    decreases |Open(grid) - visited|, if (r, c) == start then 1 else 0, 0
  {
    ghost var unseen := |Open(grid) - visited|;
    if (r, c) != start {
      VisitShrinks(grid, (r, c), visited);
    } else {
      SubsetCard(Open(grid) - (visited + {(r, c)}), Open(grid) - visited);
    }
    visited' := visited + {(r, c)};
    path' := path + [(r, c)];
    DirsAdjacent((r, c));
    var k := 0;
    while k < 4
      invariant k <= 4 && visited + {(r, c)} <= visited' && path' == path + [(r, c)]
      invariant end in visited' ==> end in visited
      invariant Sealed(grid, end, visited' - visited - {(r, c)}, visited')
      invariant forall j | 0 <= j < k :: Step((r, c), j) != end && (Passable(grid, Step((r, c), j)) ==> Step((r, c), j) in visited')
      decreases 4 - k
    {
      SubsetCard(Open(grid) - visited', Open(grid) - (visited + {(r, c)}));
      assert if (r, c) == start then |Open(grid) - visited'| <= unseen else |Open(grid) - visited'| < unseen;
      var next := Step((r, c), k);
      assert Adjacent((r, c), next) && next != (r, c);
      var child, p, v := Dfs(grid, start, end, next.0, next.1, path', visited');
      if child {
        TrailBehind(grid, start, end, visited, visited', (r, c), path, p);
        return true, p, v;
      }
      NeighbourSealed(grid, end, (r, c), k, visited', v);
      SealedJoin(grid, end, visited' - visited - {(r, c)}, visited', v - visited', v);
      assert (visited' - visited - {(r, c)}) + (v - visited') == v - visited - {(r, c)};
      visited' := v;
      k := k + 1;
    }
    SealedCell(grid, end, visited, (r, c), visited');
    path' := path'[..|path'| - 1];
    found := false;
  }

  /** `backtracking(grid, start, end)`: the path `dfs(*start)` leaves behind.
      It is empty exactly when no walk links `start` to `end`; `end` itself
      need not be passable, because `dfs` tests it before `is_valid`. */
  method Backtracking(grid: seq<seq<char>>, start: Cell, end: Cell) returns (path: seq<Cell>)
    requires Rectangular(grid)
    ensures path != [] ==> path[0] == start && Trail(grid, start, end, {}, path)
    ensures path == [] <==> !Linked(grid, start, end)
  {
    var found, visited;
    found, path, visited := Dfs(grid, start, end, start.0, start.1, [], {});
    assert path[0..] == path;
    if found {
      TrailLinks(grid, start, end, {}, path);
    } else {
      assert visited - {} == visited;
      SealedUnlinked(grid, start, end, visited);
    }
  }

  // ---------------------------------------------------------------------------
  // `dfs_stack` and `greedy`
  // ---------------------------------------------------------------------------

  /** A path from `start` through neighbouring cells, none repeated, all but
      the first passable. */
  predicate Route(grid: seq<seq<char>>, start: Cell, p: seq<Cell>)
    requires Rectangular(grid)
  {
    && |p| > 0 && p[0] == start
    && (forall i | 0 <= i < |p| - 1 :: Adjacent(p[i], p[i + 1]))
    && (forall i, j | 0 <= i < j < |p| :: p[i] != p[j])
    && (forall i | 0 < i < |p| :: Passable(grid, p[i]))
  }

  /** An entry `(cell, path)` of the stack or the heap: `path` is a route to
      `cell` whose earlier cells have all been expanded. */
  predicate Pending(grid: seq<seq<char>>, start: Cell, visited: set<Cell>, cell: Cell, path: seq<Cell>)
    requires Rectangular(grid)
  {
    Route(grid, start, path) && path[|path| - 1] == cell && forall m | 0 <= m < |path| - 1 :: path[m] in visited
  }

  /** Extending the route of an expanded cell by a neighbour that `is_valid`
      accepts gives a pending entry for the neighbour. */
  lemma PendingExtend(grid: seq<seq<char>>, start: Cell, visited: set<Cell>, cell: Cell, path: seq<Cell>, next: Cell)
    requires Rectangular(grid) && Pending(grid, start, visited, cell, path) && cell in visited
    requires Adjacent(cell, next) && IsValid(grid, next.0, next.1, visited)
    ensures Pending(grid, start, visited, next, path + [next])
  {
    var q := path + [next];
    assert forall m | 0 <= m < |path| :: q[m] == path[m] && q[m] in visited;
  }

  /** The entries still to expand are all pending and lie in `reach`. */
  predicate StackReady(grid: seq<seq<char>>, start: Cell, visited: set<Cell>, reach: set<Cell>, stack: seq<(Cell, seq<Cell>)>)
    requires Rectangular(grid)
  {
    forall k | 0 <= k < |stack| :: stack[k].0 in reach && Pending(grid, start, visited, stack[k].0, stack[k].1)
  }

  /** Popping the top entry leaves entries that are still ready. */
  lemma StackReadyPop(grid: seq<seq<char>>, start: Cell, visited: set<Cell>, reach: set<Cell>, stack: seq<(Cell, seq<Cell>)>)
    requires Rectangular(grid) && StackReady(grid, start, visited, reach, stack) && |stack| > 0
    ensures StackReady(grid, start, visited, reach, stack[..|stack| - 1])
    ensures stack[|stack| - 1].0 in reach && Pending(grid, start, visited, stack[|stack| - 1].0, stack[|stack| - 1].1)
  {
    assert forall m | 0 <= m < |stack| - 1 :: stack[..|stack| - 1][m] == stack[m];
  }

  lemma StackReadyGrows(grid: seq<seq<char>>, start: Cell, visited: set<Cell>, visited': set<Cell>, reach: set<Cell>,
                         stack: seq<(Cell, seq<Cell>)>)
    requires Rectangular(grid) && StackReady(grid, start, visited, reach, stack) && visited <= visited'
    ensures StackReady(grid, start, visited', reach, stack)
  {
  }

  /** The cells of the stack's entries. */
  function StackCells(stack: seq<(Cell, seq<Cell>)>): set<Cell> {
    set m | 0 <= m < |stack| :: stack[m].0
  }

  lemma StackCellsPop(stack: seq<(Cell, seq<Cell>)>)
    requires |stack| > 0
    ensures StackCells(stack) == StackCells(stack[..|stack| - 1]) + {stack[|stack| - 1].0}
  {
    var rest := stack[..|stack| - 1];
    assert forall m | 0 <= m < |rest| :: rest[m] == stack[m];
    forall x | x in StackCells(stack)
      ensures x in StackCells(rest) + {stack[|stack| - 1].0}
    {
      var m :| 0 <= m < |stack| && stack[m].0 == x;
      if m < |rest| {
        assert rest[m].0 == x;
      }
    }
  }

  lemma StackCellsPush(stack: seq<(Cell, seq<Cell>)>, e: (Cell, seq<Cell>))
    ensures StackCells(stack + [e]) == StackCells(stack) + {e.0}
  {
    StackCellsPop(stack + [e]);
    assert (stack + [e])[..|stack|] == stack;
  }

  /** Pushing a ready entry keeps the stack ready. */
  lemma StackPush(grid: seq<seq<char>>, start: Cell, visited: set<Cell>, reach: set<Cell>, stack: seq<(Cell, seq<Cell>)>,
                  e: (Cell, seq<Cell>))
    requires Rectangular(grid) && StackReady(grid, start, visited, reach, stack)
    requires e.0 in reach && Pending(grid, start, visited, e.0, e.1)
    ensures StackReady(grid, start, visited, reach, stack + [e])
    ensures StackCells(stack + [e]) == StackCells(stack) + {e.0}
  {
    StackCellsPush(stack, e);
    assert forall m | 0 <= m < |stack| :: (stack + [e])[m] == stack[m];
  }

  /** The search invariant of `dfs_stack` and `greedy` over the expanded
      cells and the cells still pending: `end` is not expanded, `start` is
      expanded or pending, and every passable neighbour of an expanded cell
      is expanded or pending. */
  predicate Frontier(grid: seq<seq<char>>, start: Cell, end: Cell, visited: set<Cell>, pending: set<Cell>)
    requires Rectangular(grid)
  {
    end !in visited && (start in visited || start in pending) && Closed(grid, visited, visited + pending)
  }

  /** Dropping an entry whose cell is already expanded keeps the invariant. */
  lemma FrontierSkip(grid: seq<seq<char>>, start: Cell, end: Cell, visited: set<Cell>, pending: set<Cell>, cell: Cell)
    requires Rectangular(grid) && Frontier(grid, start, end, visited, pending + {cell}) && cell in visited
    ensures Frontier(grid, start, end, visited, pending)
  {
    assert visited + (pending + {cell}) == visited + pending;
  }

  /** Expanding a cell other than `end`, once every neighbour `is_valid`
      accepts is pending, keeps the invariant. */
  lemma FrontierExpand(grid: seq<seq<char>>, start: Cell, end: Cell, visited: set<Cell>, pending: set<Cell>, cell: Cell,
                       pending': set<Cell>)
    requires Rectangular(grid) && Frontier(grid, start, end, visited, pending + {cell}) && cell != end && pending <= pending'
    requires forall k | 0 <= k < 4 && IsValid(grid, Step(cell, k).0, Step(cell, k).1, visited + {cell}) :: Step(cell, k) in pending'
    ensures Frontier(grid, start, end, visited + {cell}, pending')
  {
  }

  /** With nothing pending, `end` is unreachable. */
  lemma FrontierExhausted(grid: seq<seq<char>>, start: Cell, end: Cell, visited: set<Cell>)
    requires Rectangular(grid) && Frontier(grid, start, end, visited, {})
    ensures !Reachable(grid, start, end)
  {
    assert visited + {} == visited;
    ClosedUnreachable(grid, start, end, visited);
  }

  /** One more direction out of `cell` handled: its neighbour is pending if
      `is_valid` accepts it. */
  lemma NeighbourPending(grid: seq<seq<char>>, visited: set<Cell>, cell: Cell, k: nat, cells: set<Cell>, cells': set<Cell>)
    requires Rectangular(grid) && k < 4 && cells <= cells'
    requires forall j | 0 <= j < k && IsValid(grid, Step(cell, j).0, Step(cell, j).1, visited) :: Step(cell, j) in cells
    requires IsValid(grid, Step(cell, k).0, Step(cell, k).1, visited) ==> Step(cell, k) in cells'
    ensures forall j | 0 <= j < k + 1 && IsValid(grid, Step(cell, j).0, Step(cell, j).1, visited) :: Step(cell, j) in cells'
  {
  }

  /** What `dfs_stack` and `greedy` return: empty, or a route from `start`
      to `end`. */
  predicate Answer(grid: seq<seq<char>>, start: Cell, end: Cell, path: seq<Cell>)
    requires Rectangular(grid)
  {
    path == [] || (Route(grid, start, path) && path[|path| - 1] == end)
  }

  /** A route to `end` makes `end` reachable. */
  lemma RouteReaches(grid: seq<seq<char>>, start: Cell, end: Cell, path: seq<Cell>)
    requires Rectangular(grid) && Route(grid, start, path) && path[|path| - 1] == end
    ensures Reachable(grid, start, end)
  {
    assert Walk(grid, path);
  }

  /** `dfs_stack(grid, start, end)`: a route from `start` to `end`, empty
      exactly when `end` is not reachable. The loop keeps `end` unexpanded,
      `start` expanded or pending, and every passable neighbour of an
      expanded cell expanded or pending. */
  method DfsStack(grid: seq<seq<char>>, start: Cell, end: Cell) returns (path: seq<Cell>)
    requires Rectangular(grid)
    ensures Answer(grid, start, end, path)
    ensures path == [] <==> !Reachable(grid, start, end)
  {
    ghost var reach := Open(grid) + {start};
    var stack := [(start, [start])];
    var visited: set<Cell> := {};
    assert stack[0].0 == start;
    while stack != []
      invariant StackReady(grid, start, visited, reach, stack)
      invariant Frontier(grid, start, end, visited, StackCells(stack))
      decreases |reach - visited|, |stack|
    {
      var cell, p := stack[|stack| - 1].0, stack[|stack| - 1].1;
      StackCellsPop(stack);
      StackReadyPop(grid, start, visited, reach, stack);
      stack := stack[..|stack| - 1];
      if cell == end {
        RouteReaches(grid, start, end, p);
        return p;
      }
      if cell in visited {
        FrontierSkip(grid, start, end, visited, StackCells(stack), cell);
        continue;
      }
      ghost var before, pending := visited, StackCells(stack);
      ProperSubsetCard(reach - (visited + {cell}), reach - visited);
      visited := visited + {cell};
      StackReadyGrows(grid, start, before, visited, reach, stack);
      stack := PushNeighbours(grid, start, visited, reach, cell, p, stack);
      FrontierExpand(grid, start, end, before, pending, cell, StackCells(stack));
    }
    assert StackCells(stack) == {};
    FrontierExhausted(grid, start, end, visited);
    return [];
  }

  /** The loop `for dr, dc in DIRECTIONS` of `dfs_stack`: push every
      neighbour that `is_valid` accepts, with the path extended to it. */
  method PushNeighbours(grid: seq<seq<char>>, start: Cell, visited: set<Cell>, ghost reach: set<Cell>, cell: Cell, path: seq<Cell>,
                        stack: seq<(Cell, seq<Cell>)>) returns (stack': seq<(Cell, seq<Cell>)>)
    requires Rectangular(grid) && Open(grid) <= reach && cell in visited
    requires Pending(grid, start, visited, cell, path) && StackReady(grid, start, visited, reach, stack)
    ensures StackReady(grid, start, visited, reach, stack')
    ensures |stack| <= |stack'| <= |stack| + 4
    ensures stack'[..|stack|] == stack
    ensures forall k | |stack| <= k < |stack'| :: stack'[k].1 == path + [stack'[k].0] && IsValid(grid, stack'[k].0.0, stack'[k].0.1, visited)
    ensures StackCells(stack) <= StackCells(stack')
    ensures forall k | 0 <= k < 4 && IsValid(grid, Step(cell, k).0, Step(cell, k).1, visited) :: Step(cell, k) in StackCells(stack')
  {
    DirsAdjacent(cell);
    stack' := stack;
    var k := 0;
    while k < 4
      invariant k <= 4 && |stack| <= |stack'| <= |stack| + k && stack'[..|stack|] == stack
      invariant StackReady(grid, start, visited, reach, stack')
      invariant forall m | |stack| <= m < |stack'| :: stack'[m].1 == path + [stack'[m].0] && IsValid(grid, stack'[m].0.0, stack'[m].0.1, visited)
      invariant StackCells(stack) <= StackCells(stack')
      invariant forall j | 0 <= j < k && IsValid(grid, Step(cell, j).0, Step(cell, j).1, visited) :: Step(cell, j) in StackCells(stack')
      decreases 4 - k
    {
      var next := Step(cell, k);
      ghost var cells := StackCells(stack');
      if IsValid(grid, next.0, next.1, visited) {
        PendingExtend(grid, start, visited, cell, path, next);
        IsValidMeans(grid, next.0, next.1, visited);
        StackPush(grid, start, visited, reach, stack', (next, path + [next]));
        stack' := stack' + [(next, path + [next])];
      }
      NeighbourPending(grid, visited, cell, k, cells, StackCells(stack'));
      k := k + 1;
    }
  }

  /** A heap entry `(heuristic(cell, end), cell, path)`. */
  datatype Entry = Entry(priority: nat, cell: Cell, path: seq<Cell>)

  /** Python's `<` on cells, paths (lists of cells) and heap entries: tuples
      and lists compare element by element, a proper prefix first. */
  predicate CellBefore(a: Cell, b: Cell) {
    RowMajorBefore(a, b)
  }

  predicate PathBefore(p: seq<Cell>, q: seq<Cell>) {
    if p == [] then q != []
    else if q == [] then false
    else CellBefore(p[0], q[0]) || (p[0] == q[0] && PathBefore(p[1..], q[1..]))
  }

  predicate EntryBefore(a: Entry, b: Entry) {
    || a.priority < b.priority
    || (a.priority == b.priority && (CellBefore(a.cell, b.cell) || (a.cell == b.cell && PathBefore(a.path, b.path))))
  }

  lemma {:induction false} PathBeforeOrder(p: seq<Cell>, q: seq<Cell>, s: seq<Cell>)
    ensures !PathBefore(p, p)
    ensures PathBefore(p, q) && PathBefore(q, s) ==> PathBefore(p, s)
  {
    if p != [] {
      PathBeforeOrder(p[1..], p[1..], p[1..]);
      if q != [] && s != [] {
        PathBeforeOrder(p[1..], q[1..], s[1..]);
      }
    }
  }

  /** Entries are ordered strictly: no entry precedes itself, and the order
      is transitive. */
  lemma EntryBeforeOrder(a: Entry, b: Entry, c: Entry)
    ensures !EntryBefore(a, a)
    ensures EntryBefore(a, b) && EntryBefore(b, c) ==> EntryBefore(a, c)
  {
    PathBeforeOrder(a.path, b.path, c.path);
  }

  /** Python's order on paths is total. */
  lemma {:induction false} PathBeforeTotal(p: seq<Cell>, q: seq<Cell>)
    ensures p == q || PathBefore(p, q) || PathBefore(q, p)
  {
    if p != [] && q != [] && p[0] == q[0] {
      PathBeforeTotal(p[1..], q[1..]);
      assert p == [p[0]] + p[1..] && q == [q[0]] + q[1..];
    }
  }

  /** Python's order on heap entries is total: of two different entries, one
      comes first. */
  lemma EntryBeforeTotal(a: Entry, b: Entry)
    ensures a == b || EntryBefore(a, b) || EntryBefore(b, a)
  {
    PathBeforeTotal(a.path, b.path);
  }

  /** `heapq.heappop`: the position of the least entry. */
  function Least(heap: seq<Entry>): (i: nat)
    requires |heap| > 0
    ensures i < |heap| && forall j | 0 <= j < |heap| :: !EntryBefore(heap[j], heap[i])
  {
    if |heap| == 1 then
      EntryBeforeOrder(heap[0], heap[0], heap[0]);
      0
    else
      var k := Least(heap[..|heap| - 1]);
      var last := heap[|heap| - 1];
      if EntryBefore(last, heap[k]) then
        assert forall j | 0 <= j < |heap| - 1 :: heap[j] == heap[..|heap| - 1][j];
        forall j | 0 <= j < |heap|
          ensures !EntryBefore(heap[j], last)
        {
          EntryBeforeOrder(heap[j], last, heap[k]);
        }
        |heap| - 1
      else
        assert forall j | 0 <= j < |heap| - 1 :: heap[j] == heap[..|heap| - 1][j];
        k
  }

  /** The entry `Least` picks precedes every other entry of the heap. */
  lemma LeastIsLeast(heap: seq<Entry>)
    requires |heap| > 0
    ensures forall j | 0 <= j < |heap| :: heap[j] == heap[Least(heap)] || EntryBefore(heap[Least(heap)], heap[j])
  {
    forall j | 0 <= j < |heap|
      ensures heap[j] == heap[Least(heap)] || EntryBefore(heap[Least(heap)], heap[j])
    {
      EntryBeforeTotal(heap[j], heap[Least(heap)]);
    }
  }

  /** The entries of the heap are all pending, lie in `reach` and carry the
      heuristic of their cell. */
  predicate HeapReady(grid: seq<seq<char>>, start: Cell, end: Cell, visited: set<Cell>, reach: set<Cell>, heap: seq<Entry>)
    requires Rectangular(grid)
  {
    forall k | 0 <= k < |heap| ::
      && heap[k].cell in reach && heap[k].priority == Heuristic(heap[k].cell, end)
      && Pending(grid, start, visited, heap[k].cell, heap[k].path)
  }

  /** The cells of the heap's entries. */
  function HeapCells(heap: seq<Entry>): set<Cell> {
    set m | 0 <= m < |heap| :: heap[m].cell
  }

  /** Removing the entry at `i` removes its cell, and only that. */
  lemma HeapCellsRemove(heap: seq<Entry>, i: nat)
    requires i < |heap|
    ensures HeapCells(heap) == HeapCells(heap[..i] + heap[i + 1..]) + {heap[i].cell}
  {
    var h := heap[..i] + heap[i + 1..];
    assert forall k | 0 <= k < |h| :: h[k] == if k < i then heap[k] else heap[k + 1];
    forall x | x in HeapCells(heap)
      ensures x in HeapCells(h) + {heap[i].cell}
    {
      var m :| 0 <= m < |heap| && heap[m].cell == x;
      if m < i {
        assert h[m].cell == x;
      } else if m > i {
        assert h[m - 1].cell == x;
      }
    }
  }

  lemma HeapCellsPush(heap: seq<Entry>, e: Entry)
    ensures HeapCells(heap + [e]) == HeapCells(heap) + {e.cell}
  {
    HeapCellsRemove(heap + [e], |heap|);
    assert (heap + [e])[..|heap|] + (heap + [e])[|heap| + 1..] == heap;
  }

  /** `heappush` of a ready entry keeps the heap ready. */
  lemma HeapPush(grid: seq<seq<char>>, start: Cell, end: Cell, visited: set<Cell>, reach: set<Cell>, heap: seq<Entry>, e: Entry)
    requires Rectangular(grid) && HeapReady(grid, start, end, visited, reach, heap)
    requires e.cell in reach && e.priority == Heuristic(e.cell, end) && Pending(grid, start, visited, e.cell, e.path)
    ensures HeapReady(grid, start, end, visited, reach, heap + [e])
    ensures HeapCells(heap + [e]) == HeapCells(heap) + {e.cell}
  {
    HeapCellsPush(heap, e);
    assert forall m | 0 <= m < |heap| :: (heap + [e])[m] == heap[m];
  }

  /** `heappop` at position `i`: the rest of the heap stays ready, and so
      does the popped entry. */
  lemma HeapRemove(grid: seq<seq<char>>, start: Cell, end: Cell, visited: set<Cell>, reach: set<Cell>, heap: seq<Entry>, i: nat)
    requires Rectangular(grid) && i < |heap| && HeapReady(grid, start, end, visited, reach, heap)
    ensures HeapReady(grid, start, end, visited, reach, heap[..i] + heap[i + 1..])
    ensures heap[i].cell in reach && Pending(grid, start, visited, heap[i].cell, heap[i].path)
  {
    var h := heap[..i] + heap[i + 1..];
    assert forall k | 0 <= k < |h| :: h[k] == if k < i then heap[k] else heap[k + 1];
  }

  /** `greedy(grid, start, end)`: best-first search that always expands the
      least entry `(heuristic, cell, path)`. It returns a route from `start`
      to `end`, empty exactly when `end` is not reachable; the loop keeps the
      same invariant as `dfs_stack`'s, over the heap's cells. */
  method Greedy(grid: seq<seq<char>>, start: Cell, end: Cell) returns (path: seq<Cell>)
    requires Rectangular(grid)
    ensures Answer(grid, start, end, path)
    ensures path == [] <==> !Reachable(grid, start, end)
  {
    ghost var reach := Open(grid) + {start};
    var heap := [Entry(Heuristic(start, end), start, [start])];
    var visited: set<Cell> := {};
    assert heap[0].cell == start;
    while heap != []
      invariant HeapReady(grid, start, end, visited, reach, heap)
      invariant Frontier(grid, start, end, visited, HeapCells(heap))
      decreases |reach - visited|, |heap|
    {
      var i := Least(heap);
      var e := heap[i];
      HeapRemove(grid, start, end, visited, reach, heap, i);
      HeapCellsRemove(heap, i);
      heap := heap[..i] + heap[i + 1..];
      if e.cell == end {
        RouteReaches(grid, start, end, e.path);
        return e.path;
      }
      if e.cell in visited {
        FrontierSkip(grid, start, end, visited, HeapCells(heap), e.cell);
        continue;
      }
      ghost var before, pending := visited, HeapCells(heap);
      ProperSubsetCard(reach - (visited + {e.cell}), reach - visited);
      visited := visited + {e.cell};
      heap := PushEntries(grid, start, end, visited, reach, e.cell, e.path, heap);
      FrontierExpand(grid, start, end, before, pending, e.cell, HeapCells(heap));
    }
    assert HeapCells(heap) == {};
    FrontierExhausted(grid, start, end, visited);
    return [];
  }

  /** The loop `for dr, dc in DIRECTIONS` of `greedy`: push an entry for
      every neighbour that `is_valid` accepts. */
  method PushEntries(grid: seq<seq<char>>, start: Cell, end: Cell, visited: set<Cell>, ghost reach: set<Cell>, cell: Cell,
                     path: seq<Cell>, heap: seq<Entry>) returns (heap': seq<Entry>)
    requires Rectangular(grid) && Open(grid) <= reach && cell in visited && Pending(grid, start, visited - {cell}, cell, path)
    requires HeapReady(grid, start, end, visited - {cell}, reach, heap)
    ensures HeapReady(grid, start, end, visited, reach, heap')
    ensures |heap| <= |heap'| <= |heap| + 4 && heap'[..|heap|] == heap
    ensures forall k | |heap| <= k < |heap'| ::
      heap'[k].path == path + [heap'[k].cell] && IsValid(grid, heap'[k].cell.0, heap'[k].cell.1, visited)
    ensures HeapCells(heap) <= HeapCells(heap')
    ensures forall k | 0 <= k < 4 && IsValid(grid, Step(cell, k).0, Step(cell, k).1, visited) :: Step(cell, k) in HeapCells(heap')
  {
    DirsAdjacent(cell);
    assert forall k | 0 <= k < |heap| :: Pending(grid, start, visited, heap[k].cell, heap[k].path);
    heap' := heap;
    var k := 0;
    while k < 4
      invariant k <= 4 && |heap| <= |heap'| <= |heap| + k && heap'[..|heap|] == heap
      invariant HeapReady(grid, start, end, visited, reach, heap')
      invariant forall m | |heap| <= m < |heap'| ::
        heap'[m].path == path + [heap'[m].cell] && IsValid(grid, heap'[m].cell.0, heap'[m].cell.1, visited)
      invariant HeapCells(heap) <= HeapCells(heap')
      invariant forall j | 0 <= j < k && IsValid(grid, Step(cell, j).0, Step(cell, j).1, visited) :: Step(cell, j) in HeapCells(heap')
      decreases 4 - k
    {
      var next := Step(cell, k);
      ghost var cells := HeapCells(heap');
      if IsValid(grid, next.0, next.1, visited) {
        PendingExtend(grid, start, visited, cell, path, next);
        IsValidMeans(grid, next.0, next.1, visited);
        HeapPush(grid, start, end, visited, reach, heap', Entry(Heuristic(next, end), next, path + [next]));
        heap' := heap' + [Entry(Heuristic(next, end), next, path + [next])];
      }
      NeighbourPending(grid, visited, cell, k, cells, HeapCells(heap'));
      k := k + 1;
    }
  }

  // ---------------------------------------------------------------------------
  // `print_path`
  // ---------------------------------------------------------------------------

  /** The grid `print_path(grid, path)` prints: a copy of `grid` (the caller's
      grid is a value here and cannot change) in which every '-' cell on the
      path holds '*'. */
  method MarkPath(grid: seq<seq<char>>, path: seq<Cell>) returns (result: seq<seq<char>>)
    requires forall k | 0 <= k < |path| :: 0 <= path[k].0 < |grid| && 0 <= path[k].1 < |grid[path[k].0]|
    ensures |result| == |grid| && forall i | 0 <= i < |grid| :: |result[i]| == |grid[i]|
    ensures forall i, j | 0 <= i < |grid| && 0 <= j < |grid[i]| ::
      result[i][j] == if grid[i][j] == '-' && (i, j) in path then '*' else grid[i][j]
  {
    result := grid;
    var k := 0;
    while k < |path|
      invariant k <= |path| && |result| == |grid| && forall i | 0 <= i < |grid| :: |result[i]| == |grid[i]|
      invariant forall i, j | 0 <= i < |grid| && 0 <= j < |grid[i]| ::
        result[i][j] == if grid[i][j] == '-' && (i, j) in path[..k] then '*' else grid[i][j]
      decreases |path| - k
    {
      var r, c := path[k].0, path[k].1;
      if result[r][c] == '-' {
        result := Set(result, r, c, '*');
      }
      assert path[..k + 1] == path[..k] + [path[k]];
      k := k + 1;
    }
    assert path[..k] == path;
  }
}
