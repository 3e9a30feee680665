/** Two-dimensional boards. The solvers mutate nested Python lists in place; the
    model keeps those as `array2`, and reasons about them through the value
    snapshot `Cells`, a sequence of rows. */
module Grids {

  /** The contents of `a`, row by row. */
  function Cells<T>(a: array2<T>): (g: seq<seq<T>>)
    reads a
    ensures |g| == a.Length0
    ensures forall i | 0 <= i < |g| :: |g[i]| == a.Length1
    ensures forall i, j | 0 <= i < a.Length0 && 0 <= j < a.Length1 :: g[i][j] == a[i, j]
  {
    seq(a.Length0, i requires 0 <= i < a.Length0 reads a =>
      seq(a.Length1, j requires 0 <= j < a.Length1 reads a => a[i, j]))
  }

  /** Every row of `g` has `cols` entries. */
  predicate Rect<T>(g: seq<seq<T>>, cols: int) {
    forall i | 0 <= i < |g| :: |g[i]| == cols
  }

  /** `g` with the cell at (`i`, `j`) replaced by `v`. */
  function Set<T>(g: seq<seq<T>>, i: int, j: int, v: T): (h: seq<seq<T>>)
    requires 0 <= i < |g| && 0 <= j < |g[i]|
    ensures |h| == |g| && forall k | 0 <= k < |g| :: |h[k]| == |g[k]|
    ensures h[i][j] == v
    ensures forall k, l | 0 <= k < |g| && 0 <= l < |g[k]| && (k != i || l != j) :: h[k][l] == g[k][l]
  {
    g[i := g[i][j := v]]
  }

  /** Two boards of the same shape with the same cells are equal. */
  lemma Ext<T>(g: seq<seq<T>>, h: seq<seq<T>>)
    requires |g| == |h| && forall i | 0 <= i < |g| :: |g[i]| == |h[i]|
    requires forall i, j | 0 <= i < |g| && 0 <= j < |g[i]| :: g[i][j] == h[i][j]
    ensures g == h
  {
    forall i | 0 <= i < |g|
      ensures g[i] == h[i]
    {
      assert forall j | 0 <= j < |g[i]| :: g[i][j] == h[i][j];
    }
  }

  /** Writing a cell of an array changes its snapshot exactly as `Set` does. */
  lemma CellsAfterWrite<T>(before: seq<seq<T>>, after: seq<seq<T>>, i: int, j: int, v: T)
    requires 0 <= i < |before| && 0 <= j < |before[i]|
    requires |after| == |before| && forall k | 0 <= k < |before| :: |after[k]| == |before[k]|
    requires after[i][j] == v
    requires forall k, l | 0 <= k < |before| && 0 <= l < |before[k]| && (k != i || l != j) :: after[k][l] == before[k][l]
    ensures after == Set(before, i, j, v)
  {
    Ext(after, Set(before, i, j, v));
  }

  /** The assignment `a[i][j] = v` on a board held in place. */
  method Put<T>(a: array2<T>, i: int, j: int, v: T)
    requires 0 <= i < a.Length0 && 0 <= j < a.Length1
    modifies a
    ensures Cells(a) == Set(old(Cells(a)), i, j, v)
  {
    ghost var before := Cells(a);
    a[i, j] := v;
    CellsAfterWrite(before, Cells(a), i, j, v);
  }

  /** Writing back the value a cell held undoes the write. */
  lemma SetSetBack<T>(g: seq<seq<T>>, i: int, j: int, v: T)
    requires 0 <= i < |g| && 0 <= j < |g[i]|
    ensures Set(Set(g, i, j, v), i, j, g[i][j]) == g
  {
    Ext(Set(Set(g, i, j, v), i, j, g[i][j]), g);
  }
}
