/** The greedy crossword solver of crosswod_comparison.py: every word in list
    order goes to the first placement with the most letters already in
    place, and nothing is ever undone. Its `BacktrackingSolver` and
    `BruteForceSolver` are `Crossword.Solver.Solve`. */
module CrosswordComparison {
  import opened Common
  import opened Grids
  import opened Crossword

  /** How many of the first `n` covered cells already hold the word's letter
      there: the count `score_placement` keeps. */
  function Overlap(g: Grid, cols: nat, word: string, p: Placement, n: nat): (s: nat)
    requires Rect(g, cols) && n <= |word| && InBounds(|g|, cols, n, p)
    ensures s <= n
    ensures s == n <==> forall i | 0 <= i < n :: g[Cover(p, i).0][Cover(p, i).1] == word[i]
  {
    if n == 0 then 0
    else Overlap(g, cols, word, p, n - 1) + if g[Cover(p, n - 1).0][Cover(p, n - 1).1] == word[n - 1] then 1 else 0
  }

  /** `score_placement(word, row, col, direction)`. */
  method ScorePlacement(solver: Solver, word: string, p: Placement) returns (score: nat)
    requires InBounds(solver.grid.Length0, solver.grid.Length1, |word|, p)
    ensures score == Overlap(Cells(solver.grid), solver.grid.Length1, word, p, |word|)
  {
    score := 0;
    var i := 0;
    while i < |word|
      invariant i <= |word| && score == Overlap(Cells(solver.grid), solver.grid.Length1, word, p, i)
      decreases |word| - i
    {
      var r, c := Cover(p, i).0, Cover(p, i).1;
      if solver.grid[r, c] == word[i] {
        score := score + 1;
      }
      i := i + 1;
    }
  }

  /** What `find_best_placement` returns: the placement (`None` for the three
      `None`s) and its score, -1 when there is none. */
  type Best = (Option<Placement>, int)

  /** The step of `find_best_placement` at placement `p`: it replaces the
      best so far only when it is valid with a strictly higher score. */
  function Update(g: Grid, cols: nat, word: string, p: Placement, best: Best): Best
    requires Rect(g, cols)
  {
    if IsValidPlacement(g, cols, word, p) && Overlap(g, cols, word, p, |word|) > best.1
    then (Some(p), Overlap(g, cols, word, p, |word|) as int) else best
  }

  /** The loops of `find_best_placement` from the start cell (`row`, `col`)
      and the direction `d` on, with the best so far. */
  function BestFrom(g: Grid, cols: nat, word: string, row: nat, col: nat, d: Direction, best: Best): (b: Best)
    requires Rect(g, cols) && row <= |g| && col <= cols
    decreases |g| - row, cols - col, if d == H then 1 else 0
  {
    if row == |g| then best
    else if col == cols then BestFrom(g, cols, word, row + 1, 0, H, best)
    else
      var best' := Update(g, cols, word, Placement(row, col, d), best);
      if d == H then BestFrom(g, cols, word, row, col, V, best') else BestFrom(g, cols, word, row, col + 1, H, best')
  }

  /** `find_best_placement(word)`, on values. */
  function FindBest(g: Grid, cols: nat, word: string): Best
    requires Rect(g, cols)
  {
    BestFrom(g, cols, word, 0, 0, H, (None, -1))
  }

  /** The best so far, after every placement before `cursor`: none (score
      -1) exactly when no earlier placement is valid; otherwise a valid
      earlier placement with its score, at least the score of every valid
      earlier placement and more than that of every valid placement before
      it. */
  ghost predicate Leading(g: Grid, cols: nat, word: string, cursor: Placement, best: Best)
    requires Rect(g, cols)
  {
    && (best.0.None? <==> best.1 == -1)
    && (best.0.None? ==> forall q | SlotBefore(q, cursor) :: !IsValidPlacement(g, cols, word, q))
    && (best.0.Some? ==>
          && IsValidPlacement(g, cols, word, best.0.value) && SlotBefore(best.0.value, cursor)
          && best.1 == Overlap(g, cols, word, best.0.value, |word|)
          && (forall q | SlotBefore(q, cursor) && IsValidPlacement(g, cols, word, q) ::
                Overlap(g, cols, word, q, |word|) <= best.1)
          && (forall q | SlotBefore(q, best.0.value) && IsValidPlacement(g, cols, word, q) ::
                Overlap(g, cols, word, q, |word|) < best.1))
  }

  /** The slot right after `p` in the order of the loops. */
  lemma SlotStep(p: Placement, next: Placement, q: Placement)
    requires next == (if p.dir == H then Placement(p.row, p.col, V) else Placement(p.row, p.col + 1, H))
    ensures SlotBefore(q, next) <==> SlotBefore(q, p) || q == p
  {
  }

  lemma LeadingStep(g: Grid, cols: nat, word: string, p: Placement, best: Best)
    requires Rect(g, cols) && p.row < |g| && p.col < cols && Leading(g, cols, word, p, best)
    ensures Leading(g, cols, word, if p.dir == H then Placement(p.row, p.col, V) else Placement(p.row, p.col + 1, H),
                    Update(g, cols, word, p, best))
  {
    var next := if p.dir == H then Placement(p.row, p.col, V) else Placement(p.row, p.col + 1, H);
    forall q
      ensures SlotBefore(q, next) <==> SlotBefore(q, p) || q == p
    {
      SlotStep(p, next, q);
    }
  }

  /** No valid placement starts on a row past the grid or a column past its
      width. */
  lemma LeadingRow(g: Grid, cols: nat, word: string, row: nat, best: Best)
    requires Rect(g, cols) && row < |g| && Leading(g, cols, word, Placement(row, cols, H), best)
    ensures Leading(g, cols, word, Placement(row + 1, 0, H), best)
  {
    forall q | SlotBefore(q, Placement(row + 1, 0, H)) && IsValidPlacement(g, cols, word, q)
      ensures SlotBefore(q, Placement(row, cols, H))
    {
    }
  }

  lemma {:induction false} BestFromMeans(g: Grid, cols: nat, word: string, row: nat, col: nat, d: Direction, best: Best)
    requires Rect(g, cols) && row <= |g| && col <= cols && Leading(g, cols, word, Placement(row, col, d), best)
    requires col == cols ==> d == H
    ensures Leading(g, cols, word, Placement(|g|, 0, H), BestFrom(g, cols, word, row, col, d, best))
    decreases |g| - row, cols - col, if d == H then 1 else 0
  {
    if row == |g| {
      LeadingEnd(g, cols, word, col, d, best);
    } else if col == cols {
      LeadingRow(g, cols, word, row, best);
      BestFromMeans(g, cols, word, row + 1, 0, H, best);
    } else {
      var p := Placement(row, col, d);
      LeadingStep(g, cols, word, p, best);
      if d == H {
        BestFromMeans(g, cols, word, row, col, V, Update(g, cols, word, p, best));
      } else {
        BestFromMeans(g, cols, word, row, col + 1, H, Update(g, cols, word, p, best));
      }
    }
  }

  /** Every valid placement starts inside the grid. */
  lemma LeadingEnd(g: Grid, cols: nat, word: string, col: nat, d: Direction, best: Best)
    requires Rect(g, cols) && Leading(g, cols, word, Placement(|g|, col, d), best)
    ensures Leading(g, cols, word, Placement(|g|, 0, H), best)
  {
    forall q | SlotBefore(q, Placement(|g|, 0, H)) && IsValidPlacement(g, cols, word, q)
      ensures SlotBefore(q, Placement(|g|, col, d))
    {
    }
  }

  /** No placement of the word is valid. */
  ghost predicate NoRoom(g: Grid, cols: nat, word: string)
    requires Rect(g, cols)
  {
    forall q :: !IsValidPlacement(g, cols, word, q)
  }

  /** `find_best_placement` returns `(None, -1)` exactly when no placement is
      valid; otherwise a valid placement with the highest score, and among
      those the first in row-major, 'H'-before-'V' order. */
  lemma FindBestMeans(g: Grid, cols: nat, word: string)
    requires Rect(g, cols)
    ensures var b := FindBest(g, cols, word);
      && (b.0.None? <==> b.1 == -1)
      && (b.0.None? <==> NoRoom(g, cols, word))
      && (b.0.Some? ==>
            && IsValidPlacement(g, cols, word, b.0.value) && b.1 == Overlap(g, cols, word, b.0.value, |word|)
            && (forall q | IsValidPlacement(g, cols, word, q) :: Overlap(g, cols, word, q, |word|) <= b.1)
            && (forall q | IsValidPlacement(g, cols, word, q) && Overlap(g, cols, word, q, |word|) == b.1 ::
                  !SlotBefore(q, b.0.value)))
  {
    BestFromMeans(g, cols, word, 0, 0, H, (None, -1));
    assert forall q | IsValidPlacement(g, cols, word, q) :: SlotBefore(q, Placement(|g|, 0, H));
  }

  /** The part of `FindBestMeans` the greedy solver relies on. */
  lemma FindBestFound(g: Grid, cols: nat, word: string)
    requires Rect(g, cols)
    ensures var b := FindBest(g, cols, word);
      && (b.0.None? <==> b.1 == -1)
      && (b.0.None? <==> NoRoom(g, cols, word))
      && (b.0.Some? ==> IsValidPlacement(g, cols, word, b.0.value))
  {
    FindBestMeans(g, cols, word);
  }

  /** `find_best_placement(word)`. */
  method FindBestPlacement(solver: Solver, word: string) returns (best: Best)
    ensures best == FindBest(Cells(solver.grid), solver.grid.Length1, word)
  {
    ghost var g := Cells(solver.grid);
    var cols := solver.grid.Length1;
    best := (None, -1);
    var row := 0;
    while row < solver.grid.Length0
      invariant row <= solver.grid.Length0
      invariant BestFrom(g, cols, word, row, 0, H, best) == FindBest(g, cols, word)
      decreases solver.grid.Length0 - row
    {
      var col := 0;
      while col < cols
        invariant col <= cols
        invariant BestFrom(g, cols, word, row, col, H, best) == FindBest(g, cols, word)
        decreases cols - col
      {
        best := Consider(solver, word, Placement(row, col, H), best);
        best := Consider(solver, word, Placement(row, col, V), best);
        col := col + 1;
      }
      row := row + 1;
    }
  }

  /** One placement of the loops of `find_best_placement`. */
  method Consider(solver: Solver, word: string, p: Placement, best: Best) returns (best': Best)
    ensures best' == Update(Cells(solver.grid), solver.grid.Length1, word, p, best)
  {
    best' := best;
    if IsValidPlacement(Cells(solver.grid), solver.grid.Length1, word, p) {
      var score := ScorePlacement(solver, word, p);
      if score > best.1 {
        best' := (Some(p), score);
      }
    }
  }

  /** `GreedySolver.solve` from `words[k]` on, on values: the placements it
      makes, and whether every word found one. */
  function GreedyFrom(g: Grid, cols: nat, words: seq<string>, k: nat): (o: Outcome)
    requires Rect(g, cols) && k <= |words|
    ensures |o.grid| == |g| && Rect(o.grid, cols)
    decreases |words| - k
  {
    if k == |words| then Outcome(true, g, [])
    else
      var best := FindBest(g, cols, words[k]);
      if best.1 == -1 then Outcome(false, g, [])
      else
        FindBestFound(g, cols, words[k]);
        var sub := GreedyFrom(Place(g, cols, words[k], best.0.value), cols, words, k + 1);
        Outcome(sub.found, sub.grid, [best.0.value] + sub.placed)
  }

  /** The greedy solver places a prefix of the words in order, each valid on
      the grid the earlier ones left, and never takes one back; it fails
      exactly when it stops early, and then the next word has no valid
      placement on the grid the prefix left. */
  lemma {:induction false} GreedyMeans(g: Grid, cols: nat, words: seq<string>, k: nat)
    requires Rect(g, cols) && k <= |words|
    ensures GreedyInvariant(g, cols, words, k, GreedyFrom(g, cols, words, k))
    decreases |words| - k
  {
    if k < |words| {
      var best := FindBest(g, cols, words[k]);
      FindBestFound(g, cols, words[k]);
      if best.1 != -1 {
        var placed := Place(g, cols, words[k], best.0.value);
        GreedyMeans(placed, cols, words, k + 1);
        GreedyStep(g, cols, words, k, best.0.value, GreedyFrom(placed, cols, words, k + 1));
      }
    }
  }

  /** What `GreedyMeans` states of the outcome `o` of the greedy solver from
      `words[k]` on. */
  ghost predicate GreedyInvariant(g: Grid, cols: nat, words: seq<string>, k: nat, o: Outcome)
    requires Rect(g, cols) && k <= |words|
  {
    && k + |o.placed| <= |words|
    && (o.found <==> k + |o.placed| == |words|)
    && Chain(NoCheck(), g, cols, words[k..k + |o.placed|], o.placed, o.grid)
    && (!o.found ==> Rect(o.grid, cols) && NoRoom(o.grid, cols, words[k + |o.placed|]))
  }

  lemma GreedyStep(g: Grid, cols: nat, words: seq<string>, k: nat, p: Placement, sub: Outcome)
    requires Rect(g, cols) && k < |words| && IsValidPlacement(g, cols, words[k], p)
    requires GreedyInvariant(Place(g, cols, words[k], p), cols, words, k + 1, sub)
    ensures GreedyInvariant(g, cols, words, k, Outcome(sub.found, sub.grid, [p] + sub.placed))
  {
    var n := |sub.placed|;
    ChainCons(NoCheck(), g, cols, words[k], p, words[k + 1..k + 1 + n], sub.placed, sub.grid);
    assert [words[k]] + words[k + 1..k + 1 + n] == words[k..k + 1 + n];
  }

  /** A greedy success is also a solution the backtracking solver accepts,
      so greedy never succeeds where backtracking fails. */
  lemma GreedyImpliesPlaceable(g: Grid, cols: nat, words: seq<string>)
    requires Rect(g, cols)
    ensures GreedyFrom(g, cols, words, 0).found ==> SolveFrom(NoCheck(), g, cols, words, 0).found
  {
    var o := GreedyFrom(g, cols, words, 0);
    GreedyMeans(g, cols, words, 0);
    if o.found {
      assert words[0..0 + |o.placed|] == words;
      assert Chain(NoCheck(), g, cols, words, o.placed, o.grid);
      SolveDecides(NoCheck(), g, cols, words);
    }
  }

  /** `GreedySolver.solve()`. */
  method GreedySolve(solver: Solver) returns (ok: bool)
    modifies solver.grid
    ensures (ok, Cells(solver.grid)) == Result(GreedyFrom(old(Cells(solver.grid)), solver.grid.Length1, solver.words, 0))
  {
    ghost var goal := Result(GreedyFrom(Cells(solver.grid), solver.grid.Length1, solver.words, 0));
    var k := 0;
    while k < |solver.words|
      invariant k <= |solver.words|
      invariant Result(GreedyFrom(Cells(solver.grid), solver.grid.Length1, solver.words, k)) == goal
      decreases |solver.words| - k
    {
      var word := solver.words[k];
      var best := FindBestPlacement(solver, word);
      if best.1 == -1 {
        return false;
      }
      FindBestFound(Cells(solver.grid), solver.grid.Length1, word);
      var _ := solver.PlaceWord(word, best.0.value);
      k := k + 1;
    }
    return true;
  }
}
