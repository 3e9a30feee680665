/** Crossword filling: the placement checks, the undo-list writes and the
    backtracking search of crossword.py, whose `CrosswordSolverBase` and
    `BacktrackingSolver` recur unchanged in crosswod_comparison.py (its
    `BruteForceSolver.solve` is the same code again). The grid is a
    rectangle of characters: '#' a block, '-' an empty cell, anything else
    a letter. The search is written once, over an extra acceptance test
    `Rule`, so that the dictionary-checking variant of games/crossword.py
    can share it. */
module Crossword {
  import opened Grids

  type Grid = seq<seq<char>>

  datatype Direction = H | V

  /** The `row`, `col` and `direction` arguments of the placement methods. */
  datatype Placement = Placement(row: nat, col: nat, dir: Direction)

  /** The `i`-th cell a word placed at `p` covers. */
  function Cover(p: Placement, i: nat): (nat, nat) {
    if p.dir == H then (p.row, p.col + i) else (p.row + i, p.col)
  }

  /** Whether (`r`, `c`) is among the first `n` cells covered from `p`. */
  predicate Covers(p: Placement, n: nat, r: int, c: int) {
    if p.dir == H then r == p.row && p.col <= c < p.col + n else c == p.col && p.row <= r < p.row + n
  }

  /** Which letter of the word lands on a covered cell. */
  function Offset(p: Placement, r: int, c: int): int {
    if p.dir == H then c - p.col else r - p.row
  }

  /** The start cell lies in the grid (the solvers only try such cells) and a
      word of length `n` does not run off its right or bottom edge. */
  predicate InBounds(rows: nat, cols: nat, n: nat, p: Placement) {
    p.row < rows && p.col < cols && if p.dir == H then p.col + n <= cols else p.row + n <= rows
  }

  /** The letter loop of `is_valid_placement` from the `i`-th letter on. */
  function LettersFit(g: Grid, cols: nat, word: string, p: Placement, i: nat): bool
    requires Rect(g, cols) && InBounds(|g|, cols, |word|, p)
    decreases |word| - i
  {
    if i >= |word| then true
    else
      var cell := g[Cover(p, i).0][Cover(p, i).1];
      (cell == '-' || cell == word[i]) && LettersFit(g, cols, word, p, i + 1)
  }

  /** `is_valid_placement(word, row, col, direction)`. */
  function IsValidPlacement(g: Grid, cols: nat, word: string, p: Placement): bool
    requires Rect(g, cols)
  {
    InBounds(|g|, cols, |word|, p) && LettersFit(g, cols, word, p, 0)
  }

  /** A placement fits: inside the grid, and every covered cell is empty or
      already holds the word's letter there. */
  ghost predicate Fits(g: Grid, cols: nat, word: string, p: Placement)
    requires Rect(g, cols)
  {
    InBounds(|g|, cols, |word|, p) &&
    forall i | 0 <= i < |word| :: g[Cover(p, i).0][Cover(p, i).1] == '-' || g[Cover(p, i).0][Cover(p, i).1] == word[i]
  }

  lemma {:induction false} LettersFitMeans(g: Grid, cols: nat, word: string, p: Placement, i: nat)
    requires Rect(g, cols) && InBounds(|g|, cols, |word|, p)
    ensures LettersFit(g, cols, word, p, i) <==>
      forall k | i <= k < |word| :: g[Cover(p, k).0][Cover(p, k).1] == '-' || g[Cover(p, k).0][Cover(p, k).1] == word[k]
    decreases |word| - i
  {
    if i < |word| {
      LettersFitMeans(g, cols, word, p, i + 1);
    }
  }

  /** `is_valid_placement` accepts exactly the placements that fit; in
      particular it never lets a letter overwrite a block or a different
      letter. */
  lemma IsValidPlacementMeans(g: Grid, cols: nat, word: string, p: Placement)
    requires Rect(g, cols)
    ensures IsValidPlacement(g, cols, word, p) <==> Fits(g, cols, word, p)
  {
    if InBounds(|g|, cols, |word|, p) {
      LettersFitMeans(g, cols, word, p, 0);
    }
  }

  // ---------------------------------------------------------------------------
  // `place_word` and `remove_word`
  // ---------------------------------------------------------------------------

  /** `g` after writing `letters[k]` into the `k`-th covered cell for each
      `k < n`, in that order. */
  function Write(g: Grid, cols: nat, p: Placement, letters: string, n: nat): (h: Grid)
    requires Rect(g, cols) && n <= |letters| && InBounds(|g|, cols, n, p)
    ensures |h| == |g| && Rect(h, cols)
    decreases n
  {
    if n == 0 then g
    else
      var h := Write(g, cols, p, letters, n - 1);
      Set(h, Cover(p, n - 1).0, Cover(p, n - 1).1, letters[n - 1])
  }

  /** The writes put `letters[k]` on the `k`-th covered cell and leave every
      other cell alone. */
  lemma {:induction false} WriteMeans(g: Grid, cols: nat, p: Placement, letters: string, n: nat, r: int, c: int)
    requires Rect(g, cols) && n <= |letters| && InBounds(|g|, cols, n, p) && 0 <= r < |g| && 0 <= c < cols
    ensures Write(g, cols, p, letters, n)[r][c] == if Covers(p, n, r, c) then letters[Offset(p, r, c)] else g[r][c]
    decreases n
  {
    if n > 0 {
      WriteMeans(g, cols, p, letters, n - 1, r, c);
    }
  }

  /** The prior contents of the first `n` covered cells, in order: the
      `previous_state` list that `place_word` builds. */
  function Read(g: Grid, cols: nat, p: Placement, n: nat): (s: string)
    requires Rect(g, cols) && InBounds(|g|, cols, n, p)
    ensures |s| == n && forall i | 0 <= i < n :: s[i] == g[Cover(p, i).0][Cover(p, i).1]
  {
    if n == 0 then [] else Read(g, cols, p, n - 1) + [g[Cover(p, n - 1).0][Cover(p, n - 1).1]]
  }

  /** The grid after `place_word(word, ...)`. */
  function Place(g: Grid, cols: nat, word: string, p: Placement): (h: Grid)
    requires Rect(g, cols) && InBounds(|g|, cols, |word|, p)
    ensures |h| == |g| && Rect(h, cols)
  {
    Write(g, cols, p, word, |word|)
  }

  lemma PlaceRemoveAt(g: Grid, cols: nat, word: string, p: Placement, r: int, c: int)
    requires Rect(g, cols) && InBounds(|g|, cols, |word|, p) && 0 <= r < |g| && 0 <= c < cols
    ensures Write(Place(g, cols, word, p), cols, p, Read(g, cols, p, |word|), |word|)[r][c] == g[r][c]
  {
    var placed := Place(g, cols, word, p);
    var prev := Read(g, cols, p, |word|);
    WriteMeans(g, cols, p, word, |word|, r, c);
    WriteMeans(placed, cols, p, prev, |word|, r, c);
    if Covers(p, |word|, r, c) {
      var i := Offset(p, r, c);
      assert 0 <= i < |word| && Cover(p, i).0 == r && Cover(p, i).1 == c;
      assert prev[i] == g[r][c];
    }
  }

  /** Writing the previous state back over a placed word restores the grid
      exactly. */
  lemma PlaceRemove(g: Grid, cols: nat, word: string, p: Placement)
    requires Rect(g, cols) && InBounds(|g|, cols, |word|, p)
    ensures Write(Place(g, cols, word, p), cols, p, Read(g, cols, p, |word|), |word|) == g
  {
    var back := Write(Place(g, cols, word, p), cols, p, Read(g, cols, p, |word|), |word|);
    forall r, c | 0 <= r < |g| && 0 <= c < |g[r]|
      ensures back[r][c] == g[r][c]
    {
      PlaceRemoveAt(g, cols, word, p, r, c);
    }
    Ext(back, g);
  }

  // ---------------------------------------------------------------------------
  // The backtracking search
  // ---------------------------------------------------------------------------

  /** An acceptance test applied after the bounds and letter checks; the
      solvers here apply none. */
  type Rule = (Grid, string, Placement) -> bool

  function NoCheck(): Rule {
    (g: Grid, w: string, p: Placement) => true
  }

  predicate Accepts(rule: Rule, g: Grid, cols: nat, word: string, p: Placement)
    requires Rect(g, cols)
  {
    IsValidPlacement(g, cols, word, p) && rule(g, word, p)
  }

  /** The result of a search: success, the grid it leaves, and the
      placements of the words it placed. */
  datatype Outcome = Outcome(found: bool, grid: Grid, placed: seq<Placement>)

  function Result(o: Outcome): (bool, Grid) {
    (o.found, o.grid)
  }

  /** `solve(index)`: place `words[index..]` in turn. */
  function SolveFrom(rule: Rule, g: Grid, cols: nat, words: seq<string>, index: nat): (o: Outcome)
    requires Rect(g, cols) && index <= |words|
    ensures |o.grid| == |g| && Rect(o.grid, cols)
    ensures !o.found ==> o.grid == g
    decreases |words| - index, 2, 0, 0, 0
  {
    if index == |words| then Outcome(true, g, [])
    else Attempt(rule, g, cols, words, index, 0, 0, H)
  }

  /** The two loops of `solve` from the start cell (`row`, `col`) and the
      direction `d` on: cells in row-major order, 'H' before 'V'. */
  function Attempt(rule: Rule, g: Grid, cols: nat, words: seq<string>, index: nat, row: nat, col: nat, d: Direction): (o: Outcome)
    requires Rect(g, cols) && index < |words| && row <= |g| && col <= cols
    ensures |o.grid| == |g| && Rect(o.grid, cols)
    ensures !o.found ==> o.grid == g
    decreases |words| - index, 1, |g| - row, cols - col, if d == H then 1 else 0
  {
    if row == |g| then Outcome(false, g, [])
    else if col == cols then Attempt(rule, g, cols, words, index, row + 1, 0, H)
    else
      var o := Try(rule, g, cols, words, index, Placement(row, col, d));
      if o.found then o
      else if d == H then Attempt(rule, o.grid, cols, words, index, row, col, V)
      else Attempt(rule, o.grid, cols, words, index, row, col + 1, H)
  }

  /** One placement of `words[index]`: if it is accepted, place the word,
      search on, and on failure write the previous state back. */
  function Try(rule: Rule, g: Grid, cols: nat, words: seq<string>, index: nat, p: Placement): (o: Outcome)
    requires Rect(g, cols) && index < |words|
    ensures |o.grid| == |g| && Rect(o.grid, cols)
    ensures !o.found ==> o.grid == g
    decreases |words| - index, 0, 0, 0, 0
  {
    var word := words[index];
    if Accepts(rule, g, cols, word, p) then
      var prev := Read(g, cols, p, |word|);
      var sub := SolveFrom(rule, Place(g, cols, word, p), cols, words, index + 1);
      if sub.found then Outcome(true, sub.grid, [p] + sub.placed)
      else
        PlaceRemove(g, cols, word, p);
        Outcome(false, Write(sub.grid, cols, p, prev, |word|), [])
    else Outcome(false, g, [])
  }

  /** The words `ws` placed one after the other at `ps`, each accepted on the
      grid the earlier ones left, turn `g` into `h`. */
  ghost predicate Chain(rule: Rule, g: Grid, cols: nat, ws: seq<string>, ps: seq<Placement>, h: Grid)
    requires Rect(g, cols)
    decreases |ws|
  {
    |ps| == |ws| &&
    if ws == [] then h == g
    else Accepts(rule, g, cols, ws[0], ps[0]) && Chain(rule, Place(g, cols, ws[0], ps[0]), cols, ws[1..], ps[1..], h)
  }

  lemma ChainCons(rule: Rule, g: Grid, cols: nat, w: string, p: Placement, ws: seq<string>, ps: seq<Placement>, h: Grid)
    requires Rect(g, cols) && Accepts(rule, g, cols, w, p) && Chain(rule, Place(g, cols, w, p), cols, ws, ps, h)
    ensures Chain(rule, g, cols, [w] + ws, [p] + ps, h)
  {
    assert ([w] + ws)[0] == w && ([w] + ws)[1..] == ws;
    assert ([p] + ps)[0] == p && ([p] + ps)[1..] == ps;
  }

  /** A success of `solve(index)` is a chain of accepted placements for
      `words[index..]` ending in the grid it leaves. */
  lemma {:induction false} SolveSound(rule: Rule, g: Grid, cols: nat, words: seq<string>, index: nat)
    requires Rect(g, cols) && index <= |words|
    ensures var o := SolveFrom(rule, g, cols, words, index);
      o.found ==> Chain(rule, g, cols, words[index..], o.placed, o.grid)
    decreases |words| - index, 2, 0, 0, 0
  {
    if index < |words| {
      AttemptSound(rule, g, cols, words, index, 0, 0, H);
    }
  }

  lemma {:induction false} AttemptSound(rule: Rule, g: Grid, cols: nat, words: seq<string>, index: nat, row: nat, col: nat, d: Direction)
    requires Rect(g, cols) && index < |words| && row <= |g| && col <= cols
    ensures var o := Attempt(rule, g, cols, words, index, row, col, d);
      o.found ==> Chain(rule, g, cols, words[index..], o.placed, o.grid)
    decreases |words| - index, 1, |g| - row, cols - col, if d == H then 1 else 0
  {
    if row == |g| {
    } else if col == cols {
      AttemptSound(rule, g, cols, words, index, row + 1, 0, H);
    } else {
      var o := Try(rule, g, cols, words, index, Placement(row, col, d));
      TrySound(rule, g, cols, words, index, Placement(row, col, d));
      if !o.found {
        if d == H {
          AttemptSound(rule, g, cols, words, index, row, col, V);
        } else {
          AttemptSound(rule, g, cols, words, index, row, col + 1, H);
        }
      }
    }
  }

  lemma {:induction false} TrySound(rule: Rule, g: Grid, cols: nat, words: seq<string>, index: nat, p: Placement)
    requires Rect(g, cols) && index < |words|
    ensures var o := Try(rule, g, cols, words, index, p);
      o.found ==> Chain(rule, g, cols, words[index..], o.placed, o.grid)
    decreases |words| - index, 0, 0, 0, 0
  {
    var word := words[index];
    if Accepts(rule, g, cols, word, p) {
      var placed := Place(g, cols, word, p);
      SolveSound(rule, placed, cols, words, index + 1);
      var sub := SolveFrom(rule, placed, cols, words, index + 1);
      if sub.found {
        ChainCons(rule, g, cols, word, p, words[index + 1..], sub.placed, sub.grid);
        assert [word] + words[index + 1..] == words[index..];
      }
    }
  }

  /** Cells in the order `solve` tries them: row-major, 'H' before 'V'. */
  predicate SlotBefore(a: Placement, b: Placement) {
    || a.row < b.row
    || (a.row == b.row && (a.col < b.col || (a.col == b.col && a.dir == H && b.dir == V)))
  }

  /** If some chain of accepted placements for `words[index..]` exists,
      `solve(index)` succeeds. */
  lemma {:induction false} SolveComplete(rule: Rule, g: Grid, cols: nat, words: seq<string>, index: nat, ps: seq<Placement>, h: Grid)
    requires Rect(g, cols) && index <= |words| && Chain(rule, g, cols, words[index..], ps, h)
    ensures SolveFrom(rule, g, cols, words, index).found
    decreases |words| - index, 2, 0, 0, 0
  {
    if index < |words| {
      AttemptComplete(rule, g, cols, words, index, 0, 0, H, ps, h);
    }
  }

  lemma {:induction false} AttemptComplete(rule: Rule, g: Grid, cols: nat, words: seq<string>, index: nat,
                                           row: nat, col: nat, d: Direction, ps: seq<Placement>, h: Grid)
    requires Rect(g, cols) && index < |words| && row <= |g| && col <= cols
    requires Chain(rule, g, cols, words[index..], ps, h)
    requires !SlotBefore(ps[0], Placement(row, col, d))
    ensures Attempt(rule, g, cols, words, index, row, col, d).found
    decreases |words| - index, 1, |g| - row, cols - col, if d == H then 1 else 0
  {
    assert words[index..][0] == words[index];
    var first := ps[0];
    assert Accepts(rule, g, cols, words[index], first);
    if col == cols {
      AttemptComplete(rule, g, cols, words, index, row + 1, 0, H, ps, h);
    } else {
      var p := Placement(row, col, d);
      var o := Try(rule, g, cols, words, index, p);
      if first == p {
        assert words[index..][1..] == words[index + 1..];
        SolveComplete(rule, Place(g, cols, words[index], p), cols, words, index + 1, ps[1..], h);
      } else if !o.found {
        if d == H {
          AttemptComplete(rule, g, cols, words, index, row, col, V, ps, h);
        } else {
          AttemptComplete(rule, g, cols, words, index, row, col + 1, H, ps, h);
        }
      }
    }
  }

  /** The words can be placed in list order, each accepted on the grid the
      earlier ones left. */
  ghost predicate Placeable(rule: Rule, g: Grid, cols: nat, words: seq<string>)
    requires Rect(g, cols)
  {
    exists ps, h :: Chain(rule, g, cols, words, ps, h)
  }

  /** `solve(0)` succeeds exactly when the words are placeable. */
  lemma SolveDecides(rule: Rule, g: Grid, cols: nat, words: seq<string>)
    requires Rect(g, cols)
    ensures SolveFrom(rule, g, cols, words, 0).found <==> Placeable(rule, g, cols, words)
  {
    assert words[0..] == words;
    var o := SolveFrom(rule, g, cols, words, 0);
    if o.found {
      SolveSound(rule, g, cols, words, 0);
      assert Chain(rule, g, cols, words, o.placed, o.grid);
    }
    if Placeable(rule, g, cols, words) {
      var ps, h :| Chain(rule, g, cols, words, ps, h);
      SolveComplete(rule, g, cols, words, 0, ps, h);
    }
  }

  /** One turn of the letter loop of `place_word`: the `i`-th covered cell
      takes `word[i]`, and the letter it held (still the one in `g`) is
      returned. */
  method WriteLetter(grid: array2<char>, ghost g: Grid, p: Placement, word: string, i: nat) returns (held: char)
    requires i < |word| && InBounds(grid.Length0, grid.Length1, |word|, p)
    requires |g| == grid.Length0 && Rect(g, grid.Length1) && Cells(grid) == Write(g, grid.Length1, p, word, i)
    modifies grid
    ensures Cells(grid) == Write(g, grid.Length1, p, word, i + 1)
    ensures Read(g, grid.Length1, p, i + 1) == Read(g, grid.Length1, p, i) + [held]
  {
    var r, c := Cover(p, i).0, Cover(p, i).1;
    WriteMeans(g, grid.Length1, p, word, i, r, c);
    held := grid[r, c];
    Put(grid, r, c, word[i]);
  }

  // ---------------------------------------------------------------------------
  // The solver object
  // ---------------------------------------------------------------------------

  /** `CrosswordSolverBase` with `BacktrackingSolver.solve`: the grid is held
      in place and changed by the placement methods. */
  class Solver {
    const words: seq<string>
    const grid: array2<char>

    /** The constructor copies the template, so the grid it works on is
        fresh and aliases nothing the caller holds. */
    constructor (template: Grid, words: seq<string>)
      requires |template| > 0 && Rect(template, |template[0]|)
      ensures this.words == words && fresh(grid) && Cells(grid) == template
    {
      this.words := words;
      var cols := |template[0]|;
      grid := new char[|template|, cols]((i, j) requires 0 <= i < |template| && 0 <= j < cols => template[i][j]);
      new;
      Ext(Cells(grid), template);
    }

    /** `place_word`: writes the word's letters over the covered cells and
        returns what they held. */
    method PlaceWord(word: string, p: Placement) returns (prev: string)
      requires InBounds(grid.Length0, grid.Length1, |word|, p)
      modifies grid
      ensures Cells(grid) == Place(old(Cells(grid)), grid.Length1, word, p)
      ensures prev == Read(old(Cells(grid)), grid.Length1, p, |word|)
    {
      ghost var g := Cells(grid);
      prev := [];
      var i := 0;
      while i < |word|
        invariant i <= |word| && Cells(grid) == Write(g, grid.Length1, p, word, i)
        invariant prev == Read(g, grid.Length1, p, i)
        decreases |word| - i
      {
        var held := WriteLetter(grid, g, p, word, i);
        prev := prev + [held];
        var next := i + 1;
        i := next;
      }
    }

    /** `remove_word`: writes `prev` back over the covered cells. */
    method RemoveWord(word: string, p: Placement, prev: string)
      requires InBounds(grid.Length0, grid.Length1, |word|, p) && |word| <= |prev|
      modifies grid
      ensures Cells(grid) == Write(old(Cells(grid)), grid.Length1, p, prev, |word|)
    {
      ghost var g := Cells(grid);
      var i := 0;
      while i < |word|
        invariant i <= |word| && Cells(grid) == Write(g, grid.Length1, p, prev, i)
        decreases |word| - i
      {
        Put(grid, Cover(p, i).0, Cover(p, i).1, prev[i]);
        i := i + 1;
      }
    }

    /** `solve(index)`: true when `words[index..]` could all be placed, with
        the grid holding them; false with the grid as it was. */
    method Solve(index: nat) returns (solved: bool)
      requires index <= |words|
      modifies grid
      ensures (solved, Cells(grid)) == Result(SolveFrom(NoCheck(), old(Cells(grid)), grid.Length1, words, index))
      decreases |words| - index, 1
    {
      if index == |words| {
        return true;
      }
      ghost var g := Cells(grid);
      ghost var goal := Result(SolveFrom(NoCheck(), g, grid.Length1, words, index));
      var row := 0;
      while row < grid.Length0
        invariant row <= grid.Length0 && Cells(grid) == g
        invariant Result(Attempt(NoCheck(), g, grid.Length1, words, index, row, 0, H)) == goal
        decreases grid.Length0 - row
      {
        var col := 0;
        while col < grid.Length1
          invariant col <= grid.Length1 && Cells(grid) == g
          invariant Result(Attempt(NoCheck(), g, grid.Length1, words, index, row, col, H)) == goal
          decreases grid.Length1 - col
        {
          solved := TryAt(index, Placement(row, col, H));
          if solved {
            return;
          }
          assert goal == Result(Attempt(NoCheck(), g, grid.Length1, words, index, row, col, V));
          solved := TryAt(index, Placement(row, col, V));
          if solved {
            return;
          }
          var next := col + 1;
          assert goal == Result(Attempt(NoCheck(), g, grid.Length1, words, index, row, next, H));
          col := next;
        }
        var down := row + 1;
        assert goal == Result(Attempt(NoCheck(), g, grid.Length1, words, index, down, 0, H));
        row := down;
      }
      return false;
    }

    /** The body of the loops of `solve` for one placement. */
    method TryAt(index: nat, p: Placement) returns (solved: bool)
      requires index < |words|
      modifies grid
      ensures (solved, Cells(grid)) == Result(Try(NoCheck(), old(Cells(grid)), grid.Length1, words, index, p))
      decreases |words| - index, 0
    {
      var word := words[index];
      if !IsValidPlacement(Cells(grid), grid.Length1, word, p) {
        return false;
      }
      var prev := PlaceWord(word, p);
      solved := Solve(index + 1);
      if solved {
        return;
      }
      RemoveWord(word, p, prev);
    }
  }
}
