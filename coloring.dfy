/** Graph colouring over an adjacency matrix: the neighbour-conflict check, the
    backtracking m-colouring (with its value-level specification `Search`), the
    entry point that allocates the colour array, the depth-first first-fit
    colouring and the greedy smallest-free-colour colouring.

    Colour 0 means "not coloured yet"; the backtracking solvers use colours 1..m. */
module Coloring {
  import opened Common

  /** Row `u` of the matrix holds a 1 at every neighbour of vertex `u`. */
  type Matrix = seq<seq<int>>

  predicate Square(graph: Matrix) {
    forall u | 0 <= u < |graph| :: |graph[u]| == |graph|
  }

  predicate Symmetric(graph: Matrix)
    requires Square(graph)
  {
    forall u, v | 0 <= u < |graph| && 0 <= v < |graph| :: graph[u][v] == graph[v][u]
  }

  // ---------------------------------------------------------------------------
  // The neighbour-conflict check (`is_valid_coloring`, `possible_coloring`)
  // ---------------------------------------------------------------------------

  /** The scan of neighbours `v`, `v+1`, ... of `node`, stopping at the first one
      that already holds `color`. */
  function NoConflictFrom(node: nat, graph: Matrix, colors: seq<int>, color: int, v: nat): (ok: bool)
    requires Square(graph) && |colors| == |graph| && node < |graph| && v <= |graph|
    ensures ok <==> forall w | v <= w < |graph| :: graph[node][w] == 1 ==> colors[w] != color
    decreases |graph| - v
  {
    if v == |graph| then true
    else if graph[node][v] == 1 && colors[v] == color then false
    else NoConflictFrom(node, graph, colors, color, v + 1)
  }

  /** True iff no neighbour of `node` already has `color`. */
  function IsValidColoring(node: nat, graph: Matrix, colors: seq<int>, color: int): (ok: bool)
    requires Square(graph) && |colors| == |graph| && node < |graph|
    ensures ok <==> forall v | 0 <= v < |graph| :: graph[node][v] == 1 ==> colors[v] != color
  {
    NoConflictFrom(node, graph, colors, color, 0)
  }

  // ---------------------------------------------------------------------------
  // Backtracking m-colouring, as a function on values
  // ---------------------------------------------------------------------------

  /** The result of a backtracking call and the colour array it leaves behind. */
  datatype Outcome = Outcome(solved: bool, colors: seq<int>)

  /** How many colours of 1..m are still to be tried from `color` on. */
  function Candidates(m: int, color: int): nat {
    if color <= m then m + 1 - color else 0
  }

  /** The backtracking search from vertex `node` on: vertices are coloured in index
      order, colours 1..m tried in ascending order, a failed colour reset to 0. */
  function Search(graph: Matrix, m: int, colors: seq<int>, node: nat): (r: Outcome)
    requires Square(graph) && |colors| == |graph| && node <= |graph|
    ensures |r.colors| == |graph|
    ensures forall i | 0 <= i < node :: r.colors[i] == colors[i]
    decreases |graph| - node, Candidates(m, 1) + 1
  {
    if node == |graph| then Outcome(true, colors)
    else TryColors(graph, m, colors, node, 1)
  }

  /** The colour loop at vertex `node`, from colour `color` on. */
  function TryColors(graph: Matrix, m: int, colors: seq<int>, node: nat, color: int): (r: Outcome)
    requires Square(graph) && |colors| == |graph| && node < |graph| && 1 <= color
    ensures |r.colors| == |graph|
    ensures forall i | 0 <= i < node :: r.colors[i] == colors[i]
    decreases |graph| - node, Candidates(m, color)
  {
    if color > m then Outcome(false, colors)
    else if IsValidColoring(node, graph, colors, color) then
      var sub := Search(graph, m, colors[node := color], node + 1);
      if sub.solved then sub
      else TryColors(graph, m, sub.colors[node := 0], node, color + 1)
    else TryColors(graph, m, colors, node, color + 1)
  }

  /** Vertices `node` and later are still uncoloured. */
  predicate ZerosFrom(colors: seq<int>, node: nat) {
    forall i | node <= i < |colors| :: colors[i] == 0
  }

  /** Every vertex from `node` on has a colour in 1..m that differs from the
      colours of its earlier neighbours: what `IsValidColoring` checks at the
      moment each vertex is coloured, when later vertices are still 0. */
  ghost predicate ForwardProper(graph: Matrix, m: int, e: seq<int>, node: nat)
    requires Square(graph) && |e| == |graph|
  {
    && (forall u | node <= u < |e| :: 1 <= e[u] <= m)
    && (forall u, v | node <= u < |e| && 0 <= v < u :: graph[u][v] == 1 ==> e[u] != e[v])
  }

  /** `e` completes the colouring `colors`, whose vertices before `node` are fixed. */
  ghost predicate Extends(graph: Matrix, m: int, colors: seq<int>, node: nat, e: seq<int>)
    requires Square(graph) && |colors| == |graph|
  {
    && |e| == |graph| && node <= |graph|
    && (forall i | 0 <= i < node :: e[i] == colors[i])
    && ForwardProper(graph, m, e, node)
  }

  /** An m-colouring that the backtracking search accepts. */
  ghost predicate Coloring(graph: Matrix, m: int, e: seq<int>)
    requires Square(graph)
  {
    |e| == |graph| && ForwardProper(graph, m, e, 0)
  }

  /** No two adjacent distinct vertices share a colour. */
  ghost predicate Proper(graph: Matrix, e: seq<int>)
    requires Square(graph) && |e| == |graph|
  {
    forall u, v | 0 <= u < |e| && 0 <= v < |e| && u != v :: graph[u][v] == 1 ==> e[u] != e[v]
  }

  /** On a failed search every tried colour was reset, so with the vertices from
      `node` on uncoloured the colour array is exactly the input. */
  lemma {:induction false} SearchFailureRestores(graph: Matrix, m: int, colors: seq<int>, node: nat)
    requires Square(graph) && |colors| == |graph| && node <= |graph| && ZerosFrom(colors, node)
    ensures !Search(graph, m, colors, node).solved ==> Search(graph, m, colors, node).colors == colors
    decreases |graph| - node, Candidates(m, 1) + 1
  {
    if node < |graph| {
      TryFailureRestores(graph, m, colors, node, 1);
    }
  }

  lemma {:induction false} TryFailureRestores(graph: Matrix, m: int, colors: seq<int>, node: nat, color: int)
    requires Square(graph) && |colors| == |graph| && node < |graph| && 1 <= color
    requires ZerosFrom(colors, node)
    ensures !TryColors(graph, m, colors, node, color).solved ==> TryColors(graph, m, colors, node, color).colors == colors
    decreases |graph| - node, Candidates(m, color)
  {
    if color <= m {
      if IsValidColoring(node, graph, colors, color) {
        var c1 := colors[node := color];
        SearchFailureRestores(graph, m, c1, node + 1);
        var sub := Search(graph, m, c1, node + 1);
        if !sub.solved {
          assert sub.colors[node := 0] == colors;
        }
      }
      TryFailureRestores(graph, m, colors, node, color + 1);
    }
  }

  /** A successful search leaves a colouring that completes its input. */
  lemma {:induction false} SearchSuccess(graph: Matrix, m: int, colors: seq<int>, node: nat)
    requires Square(graph) && |colors| == |graph| && node <= |graph|
    ensures Search(graph, m, colors, node).solved ==> Extends(graph, m, colors, node, Search(graph, m, colors, node).colors)
    decreases |graph| - node, Candidates(m, 1) + 1
  {
    if node < |graph| {
      TrySuccess(graph, m, colors, node, 1);
    }
  }

  lemma {:induction false} TrySuccess(graph: Matrix, m: int, colors: seq<int>, node: nat, color: int)
    requires Square(graph) && |colors| == |graph| && node < |graph| && 1 <= color
    ensures var r := TryColors(graph, m, colors, node, color);
      r.solved ==> Extends(graph, m, colors, node, r.colors)
    decreases |graph| - node, Candidates(m, color)
  {
    if color <= m {
      if IsValidColoring(node, graph, colors, color) {
        var c1 := colors[node := color];
        SearchSuccess(graph, m, c1, node + 1);
        var sub := Search(graph, m, c1, node + 1);
        if !sub.solved {
          TrySuccess(graph, m, sub.colors[node := 0], node, color + 1);
        }
      } else {
        TrySuccess(graph, m, colors, node, color + 1);
      }
    }
  }

  /** The search is exhaustive: if the uncoloured vertices can be coloured at all,
      it succeeds; so a failure proves that no completion exists. */
  lemma {:induction false} SearchComplete(graph: Matrix, m: int, colors: seq<int>, node: nat, e: seq<int>)
    requires Square(graph) && |colors| == |graph| && node <= |graph| && ZerosFrom(colors, node)
    requires Extends(graph, m, colors, node, e)
    ensures Search(graph, m, colors, node).solved
    decreases |graph| - node, Candidates(m, 1) + 1
  {
    if node < |graph| {
      TryComplete(graph, m, colors, node, 1, e);
    }
  }

  lemma {:induction false} TryComplete(graph: Matrix, m: int, colors: seq<int>, node: nat, color: int, e: seq<int>)
    requires Square(graph) && |colors| == |graph| && node < |graph| && ZerosFrom(colors, node)
    requires Extends(graph, m, colors, node, e) && 1 <= color <= e[node]
    ensures TryColors(graph, m, colors, node, color).solved
    decreases |graph| - node, Candidates(m, color)
  {
    assert IsValidColoring(node, graph, colors, e[node]) by {
      forall v | 0 <= v < |graph| && graph[node][v] == 1
        ensures colors[v] != e[node]
      {
        if v < node {
          assert e[node] != e[v];
        }
      }
    }
    var c1 := colors[node := color];
    if IsValidColoring(node, graph, colors, color) {
      var sub := Search(graph, m, c1, node + 1);
      if color == e[node] {
        SearchComplete(graph, m, c1, node + 1, e);
      } else if !sub.solved {
        SearchFailureRestores(graph, m, c1, node + 1);
        assert sub.colors[node := 0] == colors;
        TryComplete(graph, m, colors, node, color + 1, e);
      }
    } else {
      TryComplete(graph, m, colors, node, color + 1, e);
    }
  }

  /** From all-uncoloured, the search succeeds exactly when an m-colouring exists,
      and what it returns is one. */
  lemma SearchDecides(graph: Matrix, m: int)
    requires Square(graph)
    ensures var r := Search(graph, m, seq(|graph|, _ => 0), 0);
      && (r.solved <==> exists e :: Coloring(graph, m, e))
      && (r.solved ==> Coloring(graph, m, r.colors))
      && (!r.solved ==> r.colors == seq(|graph|, _ => 0))
  {
    var zeros := seq(|graph|, _ => 0);
    SearchSuccess(graph, m, zeros, 0);
    SearchFailureRestores(graph, m, zeros, 0);
    var r := Search(graph, m, zeros, 0);
    if r.solved {
      assert Coloring(graph, m, r.colors);
    }
    if exists e :: Coloring(graph, m, e) {
      var e :| Coloring(graph, m, e);
      SearchComplete(graph, m, zeros, 0, e);
    }
  }

  /** On a symmetric matrix, a colouring the search accepts is proper, and every
      proper colouring with colours in 1..m is one the search accepts. */
  lemma ForwardProperIsProper(graph: Matrix, m: int, e: seq<int>)
    requires Square(graph) && Symmetric(graph) && |e| == |graph|
    requires forall u | 0 <= u < |e| :: 1 <= e[u] <= m
    ensures ForwardProper(graph, m, e, 0) <==> Proper(graph, e)
  {
    if ForwardProper(graph, m, e, 0) {
      forall u, v | 0 <= u < |e| && 0 <= v < |e| && u != v && graph[u][v] == 1
        ensures e[u] != e[v]
      {
        if v > u {
          assert graph[v][u] == 1;
        }
      }
    }
  }

  // ---------------------------------------------------------------------------
  // The in-place solvers
  // ---------------------------------------------------------------------------

  /** `solve_graph_coloring_backtracking`: colours `colors` in place from `node` on
      and reports whether a complete colouring was found. */
  method SolveGraphColoring(graph: Matrix, m: int, colors: array<int>, node: nat) returns (solved: bool)
    requires Square(graph) && colors.Length == |graph| && node <= |graph|
    modifies colors
    ensures Outcome(solved, colors[..]) == Search(graph, m, old(colors[..]), node)
    decreases |graph| - node
  {
    if node == |graph| {
      return true;
    }
    var color := 1;
    while color <= m
      invariant 1 <= color
      invariant TryColors(graph, m, colors[..], node, color) == Search(graph, m, old(colors[..]), node)
      decreases m + 1 - color
    {
      if IsValidColoring(node, graph, colors[..], color) {
        ghost var before := colors[..];
        colors[node] := color;
        assert colors[..] == before[node := color];
        solved := SolveGraphColoring(graph, m, colors, node + 1);
        if solved {
          return;
        }
        ghost var after := colors[..];
        colors[node] := 0;
        assert colors[..] == after[node := 0];
      }
      color := color + 1;
    }
    return false;
  }

  /** `graph_coloring`: allocates an all-uncoloured array and runs the search from
      vertex 0; `None` when no m-colouring exists. */
  method GraphColoring(graph: Matrix, m: int) returns (r: Option<seq<int>>)
    requires Square(graph)
    ensures r.Some? <==> exists e :: Coloring(graph, m, e)
    ensures r.Some? ==> Coloring(graph, m, r.value)
    ensures r.Some? ==> r.value == Search(graph, m, seq(|graph|, _ => 0), 0).colors
  {
    var colors := new int[|graph|](_ => 0);
    assert colors[..] == seq(|graph|, _ => 0);
    var solved := SolveGraphColoring(graph, m, colors, 0);
    SearchDecides(graph, m);
    if !solved {
      return None;
    }
    return Some(colors[..]);
  }

  // ---------------------------------------------------------------------------
  // Depth-first first-fit colouring (`dfs_coloring`)
  // ---------------------------------------------------------------------------

  /** The colours 1..m. */
  function Palette(m: int): (p: set<int>)
    ensures forall k :: k in p <==> 1 <= k <= m
    decreases m
  {
    if m < 1 then {} else Palette(m - 1) + {m}
  }

  /** The colours currently held by neighbours of `u`. */
  function NeighbourColors(graph: Matrix, colors: seq<int>, u: nat): set<int>
    requires Square(graph) && |colors| == |graph| && u < |graph|
  {
    set v | 0 <= v < |graph| && graph[u][v] == 1 :: colors[v]
  }

  /** The colours of 1..m that no neighbour of `u` holds. */
  function Free(graph: Matrix, m: int, colors: seq<int>, u: nat): set<int>
    requires Square(graph) && |colors| == |graph| && u < |graph|
  {
    Palette(m) - NeighbourColors(graph, colors, u)
  }

  /** `k` is what first fit gives `u`: the least free colour, or 0 when none is free. */
  ghost predicate FirstFit(graph: Matrix, m: int, colors: seq<int>, u: nat, k: int)
    requires Square(graph) && |colors| == |graph| && u < |graph|
  {
    var free := Free(graph, m, colors, u);
    if free == {} then k == 0 else k in free && forall j | j in free :: k <= j
  }

  /** Every entry is 0 (uncoloured) or a colour of 1..m. */
  predicate InPalette(colors: seq<int>, m: int) {
    forall i | 0 <= i < |colors| :: colors[i] == 0 || 1 <= colors[i] <= m
  }

  /** No two distinct adjacent coloured vertices share a colour. */
  ghost predicate PartialProper(graph: Matrix, colors: seq<int>)
    requires Square(graph) && |colors| == |graph|
  {
    forall u, v | 0 <= u < |graph| && 0 <= v < |graph| && u != v && graph[u][v] == 1 && colors[u] != 0 && colors[v] != 0 ::
      colors[u] != colors[v]
  }

  /** Colouring more vertices only shrinks the free colours of every vertex. */
  lemma FreeShrinks(graph: Matrix, m: int, before: seq<int>, after: seq<int>, u: nat)
    requires Square(graph) && |before| == |graph| && |after| == |graph| && u < |graph|
    requires forall i | 0 <= i < |graph| && before[i] != 0 :: after[i] == before[i]
    ensures Free(graph, m, after, u) <= Free(graph, m, before, u)
  {
    forall k | k in Free(graph, m, after, u)
      ensures k in Free(graph, m, before, u)
    {
      forall v | 0 <= v < |graph| && graph[u][v] == 1
        ensures before[v] != k
      {
        if before[v] != 0 {
          assert after[v] in NeighbourColors(graph, after, u);
        }
      }
    }
  }

  /** The nested `dfs(u)`: gives `u` its first-fit colour, then visits the
      uncoloured neighbours of `u` in index order. */
  method Dfs(graph: Matrix, m: int, colors: array<int>, u: nat)
    requires Square(graph) && colors.Length == |graph| && u < |graph| && colors[u] == 0
    modifies colors
    ensures FirstFit(graph, m, old(colors[..]), u, colors[u])
    ensures forall i | 0 <= i < colors.Length && old(colors[i]) != 0 :: colors[i] == old(colors[i])
    ensures InPalette(old(colors[..]), m) ==> InPalette(colors[..], m)
    ensures Symmetric(graph) && PartialProper(graph, old(colors[..])) ==> PartialProper(graph, colors[..])
    decreases |ZeroSet(colors[..])|
  {
    var available := Palette(m);
    var v := 0;
    while v < |graph|
      invariant 0 <= v <= |graph|
      invariant available == Palette(m) - (set w | 0 <= w < v && graph[u][w] == 1 :: colors[w])
    {
      if graph[u][v] == 1 && colors[v] in available {
        available := available - {colors[v]};
      }
      v := v + 1;
    }
    assert available == Free(graph, m, colors[..], u);
    if available == {} {
      return;
    }
    ghost var start := colors[..];
    var k := Min(available);
    colors[u] := k;
    assert colors[..] == start[u := k];
    assert PartialProper(graph, start) && Symmetric(graph) ==> PartialProper(graph, colors[..]) by {
      if PartialProper(graph, start) && Symmetric(graph) {
        forall a, b | 0 <= a < |graph| && 0 <= b < |graph| && a != b && graph[a][b] == 1 && colors[a] != 0 && colors[b] != 0
          ensures colors[a] != colors[b]
        {
          if a == u {
            assert colors[b] == start[b] && start[b] in NeighbourColors(graph, start, u);
          } else if b == u {
            assert graph[u][a] == 1;
            assert colors[a] == start[a] && start[a] in NeighbourColors(graph, start, u);
          }
        }
      }
    }
    v := 0;
    while v < |graph|
      invariant 0 <= v <= |graph|
      invariant colors[u] == k
      invariant forall i | 0 <= i < colors.Length && start[i] != 0 :: colors[i] == start[i]
      invariant InPalette(start, m) ==> InPalette(colors[..], m)
      invariant Symmetric(graph) && PartialProper(graph, start) ==> PartialProper(graph, colors[..])
      invariant ZeroSet(colors[..]) <= ZeroSet(start) - {u}
    {
      if graph[u][v] == 1 && colors[v] == 0 {
        ProperSubsetCard(ZeroSet(colors[..]), ZeroSet(start));
        ghost var mid := colors[..];
        Dfs(graph, m, colors, v);
        assert ZeroSet(colors[..]) <= ZeroSet(mid);
      }
      v := v + 1;
    }
  }

  /** `dfs_coloring`: starts a depth-first first-fit pass at every vertex that is
      still uncoloured, in index order. */
  method DfsColoring(graph: Matrix, m: int) returns (r: seq<int>)
    requires Square(graph)
    ensures |r| == |graph| && InPalette(r, m)
    ensures forall u | 0 <= u < |r| && r[u] == 0 :: Free(graph, m, r, u) == {}
    ensures Symmetric(graph) ==> PartialProper(graph, r)
  {
    var colors := new int[|graph|](_ => 0);
    var u := 0;
    while u < |graph|
      invariant 0 <= u <= |graph|
      invariant InPalette(colors[..], m)
      invariant PartialProper(graph, colors[..]) || !Symmetric(graph)
      invariant forall w | 0 <= w < u && colors[w] == 0 :: Free(graph, m, colors[..], w) == {}
    {
      if colors[u] == 0 {
        ghost var before := colors[..];
        Dfs(graph, m, colors, u);
        forall w | 0 <= w <= u && colors[w] == 0
          ensures Free(graph, m, colors[..], w) == {}
        {
          FreeShrinks(graph, m, before, colors[..], w);
        }
      }
      u := u + 1;
    }
    return colors[..];
  }

  // ---------------------------------------------------------------------------
  // Greedy smallest-free-colour colouring (`greedy_coloring`)
  // ---------------------------------------------------------------------------

  /** The colours of the neighbours of `u` that come before `u`. */
  function EarlierNeighbourColors(graph: Matrix, colors: seq<int>, u: nat): set<int>
    requires Square(graph) && |colors| == |graph| && u < |graph|
  {
    set v | 0 <= v < u && graph[u][v] == 1 :: colors[v]
  }

  /** `k` is the least non-negative integer outside `used`. */
  ghost predicate LeastMissing(k: int, used: set<int>) {
    k >= 0 && k !in used && forall j | 0 <= j < k :: j in used
  }

  /** `greedy_coloring`: vertex 0 gets 0, each later vertex the least colour not
      used by an already coloured neighbour. `None` stands for the IndexError the
      source raises on an empty graph. */
  method GreedyColoring(graph: Matrix) returns (r: Option<seq<int>>)
    requires Square(graph)
    ensures r.None? <==> |graph| == 0
    ensures r.Some? ==> |r.value| == |graph| && r.value[0] == 0
    ensures r.Some? ==> forall u | 0 < u < |graph| :: LeastMissing(r.value[u], EarlierNeighbourColors(graph, r.value, u))
    ensures r.Some? ==> forall u | 0 <= u < |graph| :: 0 <= r.value[u] <= u
    ensures r.Some? && Symmetric(graph) ==> Proper(graph, r.value)
  {
    var n := |graph|;
    if n == 0 {
      return None;
    }
    var result := seq(n, _ => -1);
    result := result[0 := 0];
    var u := 1;
    while u < n
      invariant 1 <= u <= n && |result| == n && result[0] == 0
      invariant forall w | 0 <= w < u :: 0 <= result[w] <= w
      invariant forall w | u <= w < n :: result[w] == -1
      invariant forall w | 0 < w < u :: LeastMissing(result[w], EarlierNeighbourColors(graph, result, w))
    {
      var used: set<int> := {};
      var v := 0;
      while v < n
        invariant 0 <= v <= n
        invariant used == set w | 0 <= w < v && w < u && graph[u][w] == 1 :: result[w]
      {
        if graph[u][v] == 1 && result[v] != -1 {
          used := used + {result[v]};
        }
        v := v + 1;
      }
      assert used == EarlierNeighbourColors(graph, result, u);
      assert forall x | x in used :: 0 <= x < u;
      var color := 0;
      while color in used
        invariant 0 <= color <= u
        invariant forall j | 0 <= j < color :: j in used
        decreases u - color
      {
        color := color + 1;
      }
      ghost var before := result;
      result := result[u := color];
      forall w | 0 < w <= u
        ensures LeastMissing(result[w], EarlierNeighbourColors(graph, result, w))
      {
        assert EarlierNeighbourColors(graph, result, w) == EarlierNeighbourColors(graph, before, w);
      }
      u := u + 1;
    }
    assert Symmetric(graph) ==> Proper(graph, result) by {
      if Symmetric(graph) {
        forall a, b | 0 <= a < n && 0 <= b < n && a != b && graph[a][b] == 1
          ensures result[a] != result[b]
        {
          if b < a {
            assert result[b] in EarlierNeighbourColors(graph, result, a);
          } else {
            assert graph[b][a] == 1;
            assert result[a] in EarlierNeighbourColors(graph, result, b);
          }
        }
      }
    }
    return Some(result);
  }
}
