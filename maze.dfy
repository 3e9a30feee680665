/** `solve_maze` of the pygame maze game (games/maze.py): a depth-first search
    that writes '*' into every '-' cell it enters, writes '.' into a cell
    whose branch failed (it does not restore the '-'), tries the four
    neighbours nearest-to-the-goal first, and keeps the length of the
    shortest path found so far in the global `best_path_length`. */
module Maze {
  import opened Common
  import opened Grids

  /** A step `(dr, dc)`. */
  type Dir = (int, int)

  /** `directions` before it is sorted: up, down, left, right. */
  const Directions: seq<Dir> := [(-1, 0), (1, 0), (0, -1), (0, 1)]

  /** A step to one of the four neighbours. */
  predicate Unit(d: Dir) {
    Abs(d.0) + Abs(d.1) == 1
  }

  // ---------------------------------------------------------------------------
  // `list.sort(key=...)`: a stable sort
  // ---------------------------------------------------------------------------

  /** `x` placed in front of the first entry whose key is not below its own. */
  function Insert<T>(x: T, s: seq<T>, key: T -> int): seq<T> {
    if s == [] then [x]
    else if key(x) <= key(s[0]) then [x] + s
    else [s[0]] + Insert(x, s[1..], key)
  }

  /** Insertion sort by `key`, taking the entries front to back. */
  function SortBy<T>(s: seq<T>, key: T -> int): seq<T> {
    if s == [] then [] else Insert(s[0], SortBy(s[1..], key), key)
  }

  predicate Ascending<T>(s: seq<T>, key: T -> int) {
    forall i, j | 0 <= i < j < |s| :: key(s[i]) <= key(s[j])
  }

  /** The entries of `s` whose key is `k`, in their order in `s`. */
  function WithKey<T>(s: seq<T>, key: T -> int, k: int): seq<T> {
    if s == [] then [] else (if key(s[0]) == k then [s[0]] else []) + WithKey(s[1..], key, k)
  }

  lemma {:induction false} InsertPermutes<T>(x: T, s: seq<T>, key: T -> int)
    ensures multiset(Insert(x, s, key)) == multiset{x} + multiset(s)
  {
    if s != [] && key(s[0]) < key(x) {
      InsertPermutes(x, s[1..], key);
      assert s == [s[0]] + s[1..];
    }
  }

  lemma {:induction false} InsertAscending<T>(x: T, s: seq<T>, key: T -> int)
    requires Ascending(s, key)
    ensures Ascending(Insert(x, s, key), key)
  {
    if s == [] {
    } else if key(x) <= key(s[0]) {
      var t := [x] + s;
      forall i, j | 0 <= i < j < |t|
        ensures key(t[i]) <= key(t[j])
      {
        assert t[j] == s[j - 1];
        if i == 0 {
          assert key(s[0]) <= key(s[j - 1]);
        } else {
          assert t[i] == s[i - 1];
        }
      }
    } else {
      var rest := Insert(x, s[1..], key);
      InsertAscending(x, s[1..], key);
      InsertMembers(x, s[1..], key);
      var t := [s[0]] + rest;
      forall i, j | 0 <= i < j < |t|
        ensures key(t[i]) <= key(t[j])
      {
        var y := rest[j - 1];
        assert t[j] == y && y in rest;
        if i == 0 {
          if y != x {
            var m :| 0 <= m < |s[1..]| && s[1..][m] == y;
            assert s[m + 1] == y;
          }
        } else {
          assert t[i] == rest[i - 1];
        }
      }
    }
  }

  /** `WithKey` of a sequence with a known first entry. */
  lemma WithKeyCons<T>(a: T, t: seq<T>, key: T -> int, k: int)
    ensures WithKey([a] + t, key, k) == (if key(a) == k then [a] else []) + WithKey(t, key, k)
  {
    assert ([a] + t)[0] == a && ([a] + t)[1..] == t;
  }

  /** Inserting `x` puts it after every entry of its key that was there before. */
  lemma {:induction false} InsertStable<T>(x: T, s: seq<T>, key: T -> int, k: int)
    ensures WithKey(Insert(x, s, key), key, k) == (if key(x) == k then [x] else []) + WithKey(s, key, k)
  {
    if s == [] {
      assert [x] == [x] + s;
      WithKeyCons(x, s, key, k);
    } else if key(x) <= key(s[0]) {
      WithKeyCons(x, s, key, k);
    } else {
      var fx := if key(x) == k then [x] else [];
      var f0 := if key(s[0]) == k then [s[0]] else [];
      var rest := Insert(x, s[1..], key);
      InsertStable(x, s[1..], key, k);
      WithKeyCons(s[0], rest, key, k);
      assert s == [s[0]] + s[1..];
      WithKeyCons(s[0], s[1..], key, k);
      Regroup(f0, fx, WithKey(s[1..], key, k));
      Regroup(fx, f0, WithKey(s[1..], key, k));
      assert f0 == [] || fx == [];
      Regroup(f0, [], []);
      Regroup(fx, [], []);
    }
  }

  /** The sort orders by key, keeps the entries, and keeps the order of the
      entries that share a key. */
  lemma {:induction false} SortByMeans<T>(s: seq<T>, key: T -> int)
    ensures Ascending(SortBy(s, key), key)
    ensures multiset(SortBy(s, key)) == multiset(s)
    ensures forall k :: WithKey(SortBy(s, key), key, k) == WithKey(s, key, k)
  {
    if s != [] {
      SortByMeans(s[1..], key);
      InsertAscending(s[0], SortBy(s[1..], key), key);
      InsertPermutes(s[0], SortBy(s[1..], key), key);
      assert s == [s[0]] + s[1..];
      forall k
        ensures WithKey(SortBy(s, key), key, k) == WithKey(s, key, k)
      {
        InsertStable(s[0], SortBy(s[1..], key), key, k);
      }
    }
  }

  /** The sort keeps the length and draws its entries from its input. */
  lemma {:induction false} SortByMembers<T>(s: seq<T>, key: T -> int)
    ensures |SortBy(s, key)| == |s|
    ensures forall y | y in SortBy(s, key) :: y in s
  {
    if s != [] {
      SortByMembers(s[1..], key);
      InsertMembers(s[0], SortBy(s[1..], key), key);
    }
  }

  lemma {:induction false} InsertMembers<T>(x: T, s: seq<T>, key: T -> int)
    ensures |Insert(x, s, key)| == |s| + 1
    ensures forall y | y in Insert(x, s, key) :: y == x || y in s
  {
    if s != [] && key(s[0]) < key(x) {
      InsertMembers(x, s[1..], key);
    }
  }

  /** The sort key: Manhattan distance from the neighbour to the goal. */
  function Key(r: int, c: int, er: int, ec: int): Dir -> int {
    (d: Dir) => Abs((r + d.0) - er) + Abs((c + d.1) - ec)
  }

  /** `directions` after `directions.sort(key=...)`: the steps that bring the
      search nearer the goal come first, and steps at the same distance keep
      the order up, down, left, right. `OrderSorts` shows that this is what
      the stable sort by `Key` produces. */
  function Order(r: int, c: int, er: int, ec: int): seq<Dir> {
    (if er < r then [(-1, 0)] else []) + (if er > r then [(1, 0)] else []) +
    (if ec < c then [(0, -1)] else []) + (if ec > c then [(0, 1)] else []) +
    ((if er >= r then [(-1, 0)] else []) + (if er <= r then [(1, 0)] else []) +
     (if ec >= c then [(0, -1)] else []) + (if ec <= c then [(0, 1)] else []))
  }

  /** An entry whose key is above that of every entry of `low` and not above
      the first key of `high` goes between the two. */
  lemma {:induction false} InsertBetween<T>(x: T, low: seq<T>, high: seq<T>, key: T -> int)
    requires forall i | 0 <= i < |low| :: key(low[i]) < key(x)
    requires high != [] ==> key(x) <= key(high[0])
    ensures Insert(x, low + high, key) == low + [x] + high
  {
    if low == [] {
      assert low + high == high;
    } else {
      assert (low + high)[0] == low[0];
      assert (low + high)[1..] == low[1..] + high;
      InsertBetween(x, low[1..], high, key);
      assert low == [low[0]] + low[1..];
    }
  }

  /** With only two keys, the stable sort puts the entries with the lower key,
      in their order, in front of those with the higher key, in theirs. */
  lemma {:induction false} SortByTwoKeys<T>(s: seq<T>, key: T -> int, lo: int, hi: int)
    requires lo < hi && forall i | 0 <= i < |s| :: key(s[i]) == lo || key(s[i]) == hi
    ensures SortBy(s, key) == WithKey(s, key, lo) + WithKey(s, key, hi)
  {
    if s != [] {
      SortByTwoKeys(s[1..], key, lo, hi);
      var low, high := WithKey(s[1..], key, lo), WithKey(s[1..], key, hi);
      WithKeyAll(s[1..], key, lo);
      WithKeyAll(s[1..], key, hi);
      assert key(s[0]) == lo || key(s[0]) == hi;
      InsertTwoKeys(s[0], low, high, key, lo, hi);
      if key(s[0]) == lo {
        assert WithKey(s, key, lo) == [s[0]] + low;
        assert WithKey(s, key, hi) == [] + high == high;
      } else {
        assert WithKey(s, key, lo) == [] + low == low;
        assert WithKey(s, key, hi) == [s[0]] + high;
      }
    }
  }

  /** One step of the above: the entry goes to the end of its own group. */
  lemma InsertTwoKeys<T>(x: T, low: seq<T>, high: seq<T>, key: T -> int, lo: int, hi: int)
    requires lo < hi && (key(x) == lo || key(x) == hi)
    requires forall i | 0 <= i < |low| :: key(low[i]) == lo
    requires forall i | 0 <= i < |high| :: key(high[i]) == hi
    ensures key(x) == lo ==> Insert(x, low + high, key) == [x] + low + high
    ensures key(x) == hi ==> Insert(x, low + high, key) == low + ([x] + high)
  {
    if key(x) == lo {
      if low != [] {
        assert (low + high)[0] == low[0];
      } else if high != [] {
        assert (low + high)[0] == high[0];
      }
      assert [x] + (low + high) == [x] + low + high;
    } else {
      InsertBetween(x, low, high, key);
      assert low + [x] + high == low + ([x] + high);
    }
  }

  /** Every entry that `WithKey` keeps has that key. */
  lemma {:induction false} WithKeyAll<T>(s: seq<T>, key: T -> int, k: int)
    ensures forall i | 0 <= i < |WithKey(s, key, k)| :: key(WithKey(s, key, k)[i]) == k
  {
    if s != [] {
      WithKeyAll(s[1..], key, k);
    }
  }

  /** The order above is what the stable sort by distance produces. */
  lemma OrderSorts(r: int, c: int, er: int, ec: int)
    ensures Order(r, c, er, ec) == SortBy(Directions, Key(r, c, er, ec))
  {
    var key := Key(r, c, er, ec);
    var D := Abs(r - er) + Abs(c - ec);
    KeyValues(r, c, er, ec);
    SortByTwoKeys(Directions, key, D - 1, D + 1);
    WithKeyFour((-1, 0), (1, 0), (0, -1), (0, 1), key, D - 1);
    WithKeyFour((-1, 0), (1, 0), (0, -1), (0, 1), key, D + 1);
  }

  /** A step to a neighbour brings the search one nearer the goal or takes
      it one further away. */
  lemma KeyValues(r: int, c: int, er: int, ec: int)
    ensures Key(r, c, er, ec)((-1, 0)) == Abs(r - er) + Abs(c - ec) + (if er < r then -1 else 1)
    ensures Key(r, c, er, ec)((1, 0)) == Abs(r - er) + Abs(c - ec) + (if er > r then -1 else 1)
    ensures Key(r, c, er, ec)((0, -1)) == Abs(r - er) + Abs(c - ec) + (if ec < c then -1 else 1)
    ensures Key(r, c, er, ec)((0, 1)) == Abs(r - er) + Abs(c - ec) + (if ec > c then -1 else 1)
  {
  }

  lemma WithKeyFour<T>(a: T, b: T, x: T, y: T, key: T -> int, k: int)
    ensures WithKey([a, b, x, y], key, k)
         == (if key(a) == k then [a] else []) + (if key(b) == k then [b] else []) +
            (if key(x) == k then [x] else []) + (if key(y) == k then [y] else [])
  {
    WithKeyCons(a, [b, x, y], key, k);
    WithKeyCons(b, [x, y], key, k);
    WithKeyCons(x, [y], key, k);
    WithKeyCons(y, [], key, k);
    assert [a, b, x, y] == [a] + [b, x, y] && [b, x, y] == [b] + [x, y] && [x, y] == [x] + [y] && [y] == [y] + [];
  }

  /** The neighbours are tried nearest first; those at the same distance keep
      the order up, down, left, right. */
  lemma OrderMeans(r: int, c: int, er: int, ec: int)
    ensures multiset(Order(r, c, er, ec)) == multiset(Directions)
    ensures Ascending(Order(r, c, er, ec), Key(r, c, er, ec))
    ensures forall k :: WithKey(Order(r, c, er, ec), Key(r, c, er, ec), k) == WithKey(Directions, Key(r, c, er, ec), k)
  {
    OrderSorts(r, c, er, ec);
    SortByMeans(Directions, Key(r, c, er, ec));
  }

  /** Every entry of the sorted list is a step to a neighbour. */
  lemma OrderUnits(r: int, c: int, er: int, ec: int)
    ensures |Order(r, c, er, ec)| == 4
    ensures forall i | 0 <= i < |Order(r, c, er, ec)| :: Unit(Order(r, c, er, ec)[i])
  {
    OrderSorts(r, c, er, ec);
    SortByMembers(Directions, Key(r, c, er, ec));
    assert forall d | d in Directions :: Unit(d);
  }

  /** Two steps from (1, 1) towards (1, 3): right is nearest, the three others
      tie and keep their order. */
  lemma OrderExample()
    ensures Order(1, 1, 1, 3) == [(0, 1), (-1, 0), (1, 0), (0, -1)]
  {
  }

  // ---------------------------------------------------------------------------
  // The state of the search
  // ---------------------------------------------------------------------------

  /** `best_path_length`: `float('inf')` until a path is found. */
  datatype Bound = Infinite | Finite(length: nat)

  /** `not (path_length >= best_path_length)`. */
  predicate Under(len: nat, b: Bound) {
    b.Infinite? || len < b.length
  }

  /** The cells that still hold '-'. */
  function Dashes(g: seq<seq<char>>): (z: set<Dir>)
    ensures forall i, j {:trigger (i, j) in z} | 0 <= i < |g| && 0 <= j < |g[i]| :: (i, j) in z <==> g[i][j] == '-'
    ensures forall p | p in z :: 0 <= p.0 < |g| && 0 <= p.1 < |g[p.0]|
  {
    set i, j | 0 <= i < |g| && 0 <= j < |g[i]| && g[i][j] == '-' :: (i, j)
  }

  /** `h` is `g` after the search has run: only '-' cells changed, and only to
      '*' or '.'. */
  predicate Evolves(g: seq<seq<char>>, h: seq<seq<char>>) {
    && |h| == |g| && (forall i {:trigger h[i]} | 0 <= i < |g| :: |h[i]| == |g[i]|)
    && forall i, j {:trigger h[i][j]} | 0 <= i < |g| && 0 <= j < |g[i]| ::
         h[i][j] == g[i][j] || (g[i][j] == '-' && (h[i][j] == '*' || h[i][j] == '.'))
  }

  /** `h` is `g` with some '-' cells turned into '.', and no other change. */
  predicate OnlyDots(g: seq<seq<char>>, h: seq<seq<char>>) {
    && |h| == |g| && (forall i {:trigger h[i]} | 0 <= i < |g| :: |h[i]| == |g[i]|)
    && forall i, j {:trigger h[i][j]} | 0 <= i < |g| && 0 <= j < |g[i]| :: h[i][j] == g[i][j] || (g[i][j] == '-' && h[i][j] == '.')
  }

  /** A 'B' cell that is not the goal. */
  predicate Stray(g: seq<seq<char>>, i: int, j: int, er: int, ec: int) {
    0 <= i < |g| && 0 <= j < |g[i]| && g[i][j] == 'B' && (i, j) != (er, ec)
  }

  /** No two neighbouring 'B' cells other than the goal: the search enters
      'B' cells without marking them, so two such neighbours would call each
      other without end. */
  ghost predicate NoStrayPair(g: seq<seq<char>>, er: int, ec: int) {
    forall i, j, k, l | Stray(g, i, j, er, ec) && Stray(g, k, l, er, ec) :: Abs(i - k) + Abs(j - l) != 1
  }

  /** The second component of the termination measure: 0 at the goal, 2 on a
      stray 'B' cell, 4 elsewhere. */
  function Rank(g: seq<seq<char>>, r: int, c: int, er: int, ec: int): nat {
    if (r, c) == (er, ec) then 0 else if Stray(g, r, c, er, ec) then 2 else 4
  }

  /** What the search leaves behind: its result, the maze, and the bound. */
  datatype Outcome = Outcome(found: bool, grid: seq<seq<char>>, best: Bound)

  lemma EvolvesRefl(g: seq<seq<char>>)
    ensures Evolves(g, g) && OnlyDots(g, g)
  {
  }

  lemma EvolvesTrans(g: seq<seq<char>>, h: seq<seq<char>>, k: seq<seq<char>>)
    requires Evolves(g, h) && Evolves(h, k)
    ensures Evolves(g, k)
    ensures OnlyDots(g, h) && OnlyDots(h, k) ==> OnlyDots(g, k)
  {
  }

  /** A search keeps the 'B' cells and never adds a '-' cell. */
  lemma EvolvesKeeps(g: seq<seq<char>>, h: seq<seq<char>>, er: int, ec: int)
    requires Evolves(g, h) && NoStrayPair(g, er, ec)
    ensures |Dashes(h)| <= |Dashes(g)|
    ensures NoStrayPair(h, er, ec)
    ensures forall r, c :: Rank(h, r, c, er, ec) == Rank(g, r, c, er, ec)
  {
    assert Dashes(h) <= Dashes(g);
    SubsetCard(Dashes(h), Dashes(g));
    assert forall i, j :: Stray(h, i, j, er, ec) == Stray(g, i, j, er, ec);
  }

  /** Writing '*' into a '-' cell removes one '-' cell. */
  lemma MarkShrinks(g: seq<seq<char>>, i: int, j: int, er: int, ec: int)
    requires 0 <= i < |g| && 0 <= j < |g[i]| && g[i][j] == '-' && NoStrayPair(g, er, ec)
    ensures |Dashes(Set(g, i, j, '*'))| < |Dashes(g)|
    ensures Evolves(g, Set(g, i, j, '*'))
    ensures NoStrayPair(Set(g, i, j, '*'), er, ec)
  {
    var h := Set(g, i, j, '*');
    assert Dashes(h) == Dashes(g) - {(i, j)};
    ProperSubsetCard(Dashes(h), Dashes(g));
    EvolvesKeeps(g, h, er, ec);
  }

  /** Writing '.' over the '*' of a failed branch. */
  lemma UnmarkEvolves(g: seq<seq<char>>, h: seq<seq<char>>, i: int, j: int)
    requires 0 <= i < |g| && 0 <= j < |g[i]| && g[i][j] == '-'
    requires Evolves(Set(g, i, j, '*'), h)
    ensures Evolves(g, Set(h, i, j, '.'))
    ensures OnlyDots(Set(g, i, j, '*'), h) ==> OnlyDots(g, Set(h, i, j, '.'))
  {
  }

  // ---------------------------------------------------------------------------
  // The search
  // ---------------------------------------------------------------------------

  /** A cell the search may enter: inside the maze and holding '-' or 'B'. */
  predicate Open(g: seq<seq<char>>, w: nat, q: Dir)
    requires Rect(g, w)
  {
    0 <= q.0 < |g| && 0 <= q.1 < w && (g[q.0][q.1] == '-' || g[q.0][q.1] == 'B')
  }


  /** `solve_maze(screen, maze, r, c, end_r, end_c, clock, path_length)` on the
      maze `g` of width `w`, with `best` the global bound on entry. A branch
      no shorter than the bound stops at once; the goal sets the bound to the
      current length. A success improves the bound to a length no shorter
      than the distance still to go; a failure leaves the bound and turns
      only '-' cells into '.'. */
  function Solve(g: seq<seq<char>>, w: nat, best: Bound, r: int, c: int, er: int, ec: int, len: nat): (o: Outcome)
    requires Rect(g, w) && NoStrayPair(g, er, ec)
    ensures Evolves(g, o.grid)
    ensures !o.found ==> o.best == best && OnlyDots(g, o.grid)
    ensures o.found ==> o.best.Finite? && Under(o.best.length, best)
    ensures o.found ==> len + Abs(r - er) + Abs(c - ec) <= o.best.length
    decreases |Dashes(g)|, Rank(g, r, c, er, ec), 0
  {
    if !Under(len, best) then Outcome(false, g, best)
    else if (r, c) == (er, ec) then Outcome(true, g, Finite(len))
    else
      OrderUnits(r, c, er, ec);
      Moves(g, w, best, r, c, er, ec, len, Order(r, c, er, ec), 0)
  }

  /** The loop `for dr, dc in directions` from entry `i` on. */
  function Moves(g: seq<seq<char>>, w: nat, best: Bound, r: int, c: int, er: int, ec: int, len: nat,
                 ds: seq<Dir>, i: nat): (o: Outcome)
    requires Rect(g, w) && NoStrayPair(g, er, ec) && (r, c) != (er, ec)
    requires i <= |ds| && forall k | 0 <= k < |ds| :: Unit(ds[k])
    ensures Evolves(g, o.grid)
    ensures !o.found ==> o.best == best && OnlyDots(g, o.grid)
    ensures o.found ==> o.best.Finite? && Under(o.best.length, best)
    ensures o.found ==> len + Abs(r - er) + Abs(c - ec) <= o.best.length
    decreases |Dashes(g)|, Rank(g, r, c, er, ec) - 1, |ds| - i + 2
  {
    if i == |ds| then
      EvolvesRefl(g);
      Outcome(false, g, best)
    else
      var s := Step(g, w, best, r, c, er, ec, len, ds[i]);
      if s.found then s
      else
        EvolvesKeeps(g, s.grid, er, ec);
        var o := Moves(s.grid, w, s.best, r, c, er, ec, len, ds, i + 1);
        EvolvesTrans(g, s.grid, o.grid);
        o
  }

  /** One turn of the loop: the neighbour one step `d` away is entered when it
      is inside the maze and holds '-' or 'B'; a '-' is marked '*' on the way
      in and '.' when its branch fails. */
  function Step(g: seq<seq<char>>, w: nat, best: Bound, r: int, c: int, er: int, ec: int, len: nat,
                d: Dir): (o: Outcome)
    requires Rect(g, w) && NoStrayPair(g, er, ec) && (r, c) != (er, ec) && Unit(d)
    ensures Evolves(g, o.grid)
    ensures !o.found ==> o.best == best && OnlyDots(g, o.grid)
    ensures o.found ==> o.best.Finite? && Under(o.best.length, best)
    ensures o.found ==> len + Abs(r - er) + Abs(c - ec) <= o.best.length
    decreases |Dashes(g)|, Rank(g, r, c, er, ec) - 1, 1
  {
    var nr, nc := r + d.0, c + d.1;
    StepDistance(r, c, er, ec, d);
    if !Open(g, w, (nr, nc)) then
      EvolvesRefl(g);
      Outcome(false, g, best)
    else if g[nr][nc] == 'B' then
      Solve(g, w, best, nr, nc, er, ec, len + 1)
    else
      Enter(g, w, best, nr, nc, er, ec, len)
  }

  /** Entering the '-' cell (`nr`, `nc`): mark it '*', search on from it, and
      mark it '.' if that search fails. */
  function Enter(g: seq<seq<char>>, w: nat, best: Bound, nr: int, nc: int, er: int, ec: int, len: nat): (o: Outcome)
    requires Rect(g, w) && NoStrayPair(g, er, ec)
    requires 0 <= nr < |g| && 0 <= nc < w && g[nr][nc] == '-'
    ensures Evolves(g, o.grid)
    ensures !o.found ==> o.best == best && OnlyDots(g, o.grid)
    ensures o.found ==> o.best.Finite? && Under(o.best.length, best)
    ensures o.found ==> len + 1 + Abs(nr - er) + Abs(nc - ec) <= o.best.length
    ensures o.grid[nr][nc] == if o.found then '*' else '.'
    decreases |Dashes(g)|, 0, 0
  {
    MarkShrinks(g, nr, nc, er, ec);
    var sub := Solve(Set(g, nr, nc, '*'), w, best, nr, nc, er, ec, len + 1);
    EvolvesTrans(g, Set(g, nr, nc, '*'), sub.grid);
    if sub.found then sub
    else
      UnmarkEvolves(g, sub.grid, nr, nc);
      Outcome(false, Set(sub.grid, nr, nc, '.'), sub.best)
  }

  /** A step brings the search at most one closer to the goal. */
  lemma StepDistance(r: int, c: int, er: int, ec: int, d: Dir)
    requires Unit(d)
    ensures Abs(r - er) + Abs(c - ec) <= 1 + Abs((r + d.0) - er) + Abs((c + d.1) - ec)
  {
  }

  /** A 'B' neighbour of a cell other than the goal ranks lower than the cell
      by more than one: two neighbouring stray 'B' cells are excluded. */
  lemma RankDrops(g: seq<seq<char>>, r: int, c: int, er: int, ec: int, d: Dir)
    requires NoStrayPair(g, er, ec) && (r, c) != (er, ec) && Unit(d)
    requires 0 <= r + d.0 < |g| && 0 <= c + d.1 < |g[r + d.0]| && g[r + d.0][c + d.1] == 'B'
    ensures Rank(g, r + d.0, c + d.1, er, ec) < Rank(g, r, c, er, ec) - 1
  {
    var nr, nc := r + d.0, c + d.1;
    assert Abs(r - nr) + Abs(c - nc) == 1;
    assert !(Stray(g, r, c, er, ec) && Stray(g, nr, nc, er, ec));
  }

  /** The turn that enters a 'B' neighbour: a plain descent, which the
      termination measure allows. */
  lemma StepIntoB(g: seq<seq<char>>, w: nat, best: Bound, r: int, c: int, er: int, ec: int, len: nat, d: Dir)
    requires Rect(g, w) && NoStrayPair(g, er, ec) && (r, c) != (er, ec) && Unit(d)
    requires 0 <= r + d.0 < |g| && 0 <= c + d.1 < w && g[r + d.0][c + d.1] == 'B'
    ensures Rank(g, r + d.0, c + d.1, er, ec) < Rank(g, r, c, er, ec) - 1
    ensures Step(g, w, best, r, c, er, ec, len, d) == Solve(g, w, best, r + d.0, c + d.1, er, ec, len + 1)
  {
    RankDrops(g, r, c, er, ec, d);
    var nr, nc := r + d.0, c + d.1;
    assert Open(g, w, (nr, nc)) && g[nr][nc] == 'B';
  }

  /** A turn towards a neighbour outside the maze or not holding '-' or 'B'
      changes nothing. */
  lemma StepSkips(g: seq<seq<char>>, w: nat, best: Bound, r: int, c: int, er: int, ec: int, len: nat, d: Dir)
    requires Rect(g, w) && NoStrayPair(g, er, ec) && (r, c) != (er, ec) && Unit(d) && !Open(g, w, (r + d.0, c + d.1))
    ensures Step(g, w, best, r, c, er, ec, len, d) == Outcome(false, g, best)
  {
  }

  /** A turn towards a '-' neighbour enters it. */
  lemma StepIntoDash(g: seq<seq<char>>, w: nat, best: Bound, r: int, c: int, er: int, ec: int, len: nat, d: Dir)
    requires Rect(g, w) && NoStrayPair(g, er, ec) && (r, c) != (er, ec) && Unit(d)
    requires 0 <= r + d.0 < |g| && 0 <= c + d.1 < w && g[r + d.0][c + d.1] == '-'
    ensures Step(g, w, best, r, c, er, ec, len, d) == Enter(g, w, best, r + d.0, c + d.1, er, ec, len)
  {
    var nr, nc := r + d.0, c + d.1;
    assert Open(g, w, (nr, nc)) && g[nr][nc] != 'B';
  }

  /** The three turns of the loop: a neighbour outside the maze or not
      holding '-' or 'B' is skipped, a 'B' neighbour is searched from, and a
      '-' neighbour is entered. */
  lemma StepCases(g: seq<seq<char>>, w: nat, best: Bound, r: int, c: int, er: int, ec: int, len: nat, d: Dir)
    requires Rect(g, w) && NoStrayPair(g, er, ec) && (r, c) != (er, ec) && Unit(d)
    ensures !Open(g, w, (r + d.0, c + d.1)) ==> Step(g, w, best, r, c, er, ec, len, d) == Outcome(false, g, best)
    ensures Open(g, w, (r + d.0, c + d.1)) && g[r + d.0][c + d.1] == 'B' ==>
      Rank(g, r + d.0, c + d.1, er, ec) < Rank(g, r, c, er, ec) - 1 &&
      Step(g, w, best, r, c, er, ec, len, d) == Solve(g, w, best, r + d.0, c + d.1, er, ec, len + 1)
    ensures Open(g, w, (r + d.0, c + d.1)) && g[r + d.0][c + d.1] == '-' ==>
      Step(g, w, best, r, c, er, ec, len, d) == Enter(g, w, best, r + d.0, c + d.1, er, ec, len)
  {
    if !Open(g, w, (r + d.0, c + d.1)) {
      StepSkips(g, w, best, r, c, er, ec, len, d);
    } else if g[r + d.0][c + d.1] == 'B' {
      StepIntoB(g, w, best, r, c, er, ec, len, d);
    } else {
      StepIntoDash(g, w, best, r, c, er, ec, len, d);
    }
  }

  /** A search that is neither cut off by the bound nor at the goal runs the
      loop over the sorted directions. */
  lemma SolveRunsMoves(g: seq<seq<char>>, w: nat, best: Bound, r: int, c: int, er: int, ec: int, len: nat)
    requires Rect(g, w) && NoStrayPair(g, er, ec) && Under(len, best) && (r, c) != (er, ec)
    ensures |Order(r, c, er, ec)| == 4 && forall i | 0 <= i < 4 :: Unit(Order(r, c, er, ec)[i])
    ensures Solve(g, w, best, r, c, er, ec, len) == Moves(g, w, best, r, c, er, ec, len, Order(r, c, er, ec), 0)
  {
    OrderUnits(r, c, er, ec);
  }

  /** One turn of the loop, taken on the maze `before` that earlier turns
      left behind, with `h` and `bestAfter` what the turn leaves: a success
      ends the loop with it, and a failure leaves the rest of the loop to run
      on `h` from the next direction. */
  lemma MovesTurn(g: seq<seq<char>>, before: seq<seq<char>>, h: seq<seq<char>>, w: nat, bestBefore: Bound, bestAfter: Bound,
                  found: bool, r: int, c: int, er: int, ec: int, len: nat, ds: seq<Dir>, k: nat)
    requires Rect(g, w) && NoStrayPair(g, er, ec) && (r, c) != (er, ec)
    requires k < |ds| && forall i | 0 <= i < |ds| :: Unit(ds[i])
    requires Rect(before, w) && Evolves(g, before) && NoStrayPair(before, er, ec)
    requires Outcome(found, h, bestAfter) == Step(before, w, bestBefore, r, c, er, ec, len, ds[k])
    ensures found ==> Moves(before, w, bestBefore, r, c, er, ec, len, ds, k) == Outcome(found, h, bestAfter)
    ensures !found ==> Rect(h, w) && Evolves(g, h) && NoStrayPair(h, er, ec) && |Dashes(h)| <= |Dashes(g)|
    ensures !found ==> Rank(h, r, c, er, ec) == Rank(g, r, c, er, ec)
    ensures !found ==> Moves(before, w, bestBefore, r, c, er, ec, len, ds, k) == Moves(h, w, bestAfter, r, c, er, ec, len, ds, k + 1)
  {
    if !found {
      EvolvesKeeps(before, h, er, ec);
      EvolvesTrans(g, before, h);
      EvolvesKeeps(g, h, er, ec);
    }
  }

  // ---------------------------------------------------------------------------
  // What a success means
  // ---------------------------------------------------------------------------

  /** A path of the maze `g` from `from` to `to`: a sequence of neighbouring
      cells, every one after the first open. */
  ghost predicate Path(g: seq<seq<char>>, w: nat, from: Dir, to: Dir, p: seq<Dir>)
    requires Rect(g, w)
  {
    && |p| > 0 && p[0] == from && p[|p| - 1] == to
    && (forall i | 0 <= i < |p| - 1 :: Abs(p[i].0 - p[i + 1].0) + Abs(p[i].1 - p[i + 1].1) == 1)
    && (forall i | 0 < i < |p| :: Open(g, w, p[i]))
  }

  /** A path of the maze after a search is a path of the maze before it: the
      search only writes over '-' cells. */
  lemma PathBefore(g: seq<seq<char>>, h: seq<seq<char>>, w: nat, from: Dir, to: Dir, p: seq<Dir>)
    requires Rect(g, w) && Evolves(g, h) && Path(h, w, from, to, p)
    ensures Rect(h, w) && Path(g, w, from, to, p)
  {
    assert forall i | 0 < i < |p| :: Open(h, w, p[i]) ==> Open(g, w, p[i]);
  }

  /** A step to an open neighbour in front of a path from that neighbour. */
  lemma PathCons(g: seq<seq<char>>, w: nat, from: Dir, next: Dir, to: Dir, p: seq<Dir>)
    requires Rect(g, w) && Abs(from.0 - next.0) + Abs(from.1 - next.1) == 1 && Open(g, w, next) && Path(g, w, next, to, p)
    ensures Path(g, w, from, to, [from] + p) && |[from] + p| == |p| + 1
  {
    var q := [from] + p;
    forall i | 0 <= i < |q| - 1
      ensures Abs(q[i].0 - q[i + 1].0) + Abs(q[i].1 - q[i + 1].1) == 1
    {
      assert q[i + 1] == p[i];
      if i > 0 {
        assert q[i] == p[i - 1];
      }
    }
    forall i | 0 < i < |q|
      ensures Open(g, w, q[i])
    {
      assert q[i] == p[i - 1];
    }
    assert q[|q| - 1] == p[|p| - 1];
  }

  /** A success with `len` steps behind it stands for a path of `g` from
      `from` to `to`, and the bound it sets is `len` plus that path's length. */
  ghost predicate FoundPath(g: seq<seq<char>>, w: nat, from: Dir, to: Dir, len: nat, o: Outcome)
    requires Rect(g, w)
  {
    o.found ==> o.best.Finite? && exists p :: Path(g, w, from, to, p) && len + |p| - 1 == o.best.length
  }

  /** A success from an open neighbour of `from`, one step further on, is a
      success from `from`. */
  lemma FoundPathCons(g: seq<seq<char>>, w: nat, from: Dir, next: Dir, to: Dir, len: nat, o: Outcome)
    requires Rect(g, w) && Abs(from.0 - next.0) + Abs(from.1 - next.1) == 1 && Open(g, w, next)
    requires FoundPath(g, w, next, to, len + 1, o)
    ensures FoundPath(g, w, from, to, len, o)
  {
    if o.found {
      var p :| Path(g, w, next, to, p) && len + 1 + |p| - 1 == o.best.length;
      PathCons(g, w, from, next, to, p);
    }
  }

  /** A success on the maze a search left behind is a success on the maze
      before that search. */
  lemma FoundPathBefore(g: seq<seq<char>>, h: seq<seq<char>>, w: nat, from: Dir, to: Dir, len: nat, o: Outcome)
    requires Rect(g, w) && Evolves(g, h) && FoundPath(h, w, from, to, len, o)
    ensures FoundPath(g, w, from, to, len, o)
  {
    if o.found {
      var p :| Path(h, w, from, to, p) && len + |p| - 1 == o.best.length;
      PathBefore(g, h, w, from, to, p);
    }
  }

  /** A success of the search from (`r`, `c`) with `len` steps behind it
      stands for a path of the maze it was given from (`r`, `c`) to the goal,
      and the new bound is `len` plus the length of that path. */
  lemma {:induction false} SolveFinds(g: seq<seq<char>>, w: nat, best: Bound, r: int, c: int, er: int, ec: int, len: nat)
    requires Rect(g, w) && NoStrayPair(g, er, ec)
    ensures FoundPath(g, w, (r, c), (er, ec), len, Solve(g, w, best, r, c, er, ec, len))
    decreases |Dashes(g)|, Rank(g, r, c, er, ec), 0
  {
    if !Under(len, best) {
    } else if (r, c) == (er, ec) {
      assert Path(g, w, (r, c), (er, ec), [(r, c)]);
    } else {
      SolveRunsMoves(g, w, best, r, c, er, ec, len);
      MovesFind(g, w, best, r, c, er, ec, len, Order(r, c, er, ec), 0);
    }
  }

  /** The same for the loop over the directions. */
  lemma {:induction false} MovesFind(g: seq<seq<char>>, w: nat, best: Bound, r: int, c: int, er: int, ec: int, len: nat,
                                     ds: seq<Dir>, i: nat)
    requires Rect(g, w) && NoStrayPair(g, er, ec) && (r, c) != (er, ec)
    requires i <= |ds| && forall k | 0 <= k < |ds| :: Unit(ds[k])
    ensures FoundPath(g, w, (r, c), (er, ec), len, Moves(g, w, best, r, c, er, ec, len, ds, i))
    decreases |Dashes(g)|, Rank(g, r, c, er, ec) - 1, |ds| - i + 2
  {
    if i < |ds| {
      var s := Step(g, w, best, r, c, er, ec, len, ds[i]);
      StepFinds(g, w, best, r, c, er, ec, len, ds[i]);
      if !s.found {
        EvolvesKeeps(g, s.grid, er, ec);
        var o := Moves(s.grid, w, s.best, r, c, er, ec, len, ds, i + 1);
        assert Moves(g, w, best, r, c, er, ec, len, ds, i) == o;
        MovesFind(s.grid, w, s.best, r, c, er, ec, len, ds, i + 1);
        FoundPathBefore(g, s.grid, w, (r, c), (er, ec), len, o);
      }
    }
  }

  /** The same for one turn of the loop. */
  lemma {:induction false} StepFinds(g: seq<seq<char>>, w: nat, best: Bound, r: int, c: int, er: int, ec: int, len: nat, d: Dir)
    requires Rect(g, w) && NoStrayPair(g, er, ec) && (r, c) != (er, ec) && Unit(d)
    ensures FoundPath(g, w, (r, c), (er, ec), len, Step(g, w, best, r, c, er, ec, len, d))
    decreases |Dashes(g)|, Rank(g, r, c, er, ec) - 1, 2
  {
    if !Open(g, w, (r + d.0, c + d.1)) {
      StepSkips(g, w, best, r, c, er, ec, len, d);
    } else if g[r + d.0][c + d.1] == 'B' {
      StepIntoBFinds(g, w, best, r, c, er, ec, len, d);
    } else {
      StepIntoDashFinds(g, w, best, r, c, er, ec, len, d);
    }
  }

  /** A turn that enters a 'B' neighbour. */
  lemma {:induction false} StepIntoBFinds(g: seq<seq<char>>, w: nat, best: Bound, r: int, c: int, er: int, ec: int, len: nat,
                                          d: Dir)
    requires Rect(g, w) && NoStrayPair(g, er, ec) && (r, c) != (er, ec) && Unit(d)
    requires 0 <= r + d.0 < |g| && 0 <= c + d.1 < w && g[r + d.0][c + d.1] == 'B'
    ensures FoundPath(g, w, (r, c), (er, ec), len, Step(g, w, best, r, c, er, ec, len, d))
    decreases |Dashes(g)|, Rank(g, r, c, er, ec) - 1, 1
  {
    var nr, nc := r + d.0, c + d.1;
    assert Open(g, w, (nr, nc)) && Abs(r - nr) + Abs(c - nc) == 1;
    StepIntoB(g, w, best, r, c, er, ec, len, d);
    SolveFinds(g, w, best, nr, nc, er, ec, len + 1);
    FoundPathCons(g, w, (r, c), (nr, nc), (er, ec), len, Solve(g, w, best, nr, nc, er, ec, len + 1));
  }

  /** A turn that enters a '-' neighbour. */
  lemma {:induction false} StepIntoDashFinds(g: seq<seq<char>>, w: nat, best: Bound, r: int, c: int, er: int, ec: int, len: nat,
                                             d: Dir)
    requires Rect(g, w) && NoStrayPair(g, er, ec) && (r, c) != (er, ec) && Unit(d)
    requires 0 <= r + d.0 < |g| && 0 <= c + d.1 < w && g[r + d.0][c + d.1] == '-'
    ensures FoundPath(g, w, (r, c), (er, ec), len, Step(g, w, best, r, c, er, ec, len, d))
    decreases |Dashes(g)|, Rank(g, r, c, er, ec) - 1, 1
  {
    var nr, nc := r + d.0, c + d.1;
    assert Open(g, w, (nr, nc)) && Abs(r - nr) + Abs(c - nc) == 1;
    StepIntoDash(g, w, best, r, c, er, ec, len, d);
    EnterFinds(g, w, best, nr, nc, er, ec, len);
    FoundPathCons(g, w, (r, c), (nr, nc), (er, ec), len, Enter(g, w, best, nr, nc, er, ec, len));
  }

  /** The same for entering a '-' cell, whose path starts at that cell. */
  lemma {:induction false} EnterFinds(g: seq<seq<char>>, w: nat, best: Bound, nr: int, nc: int, er: int, ec: int, len: nat)
    requires Rect(g, w) && NoStrayPair(g, er, ec)
    requires 0 <= nr < |g| && 0 <= nc < w && g[nr][nc] == '-'
    ensures FoundPath(g, w, (nr, nc), (er, ec), len + 1, Enter(g, w, best, nr, nc, er, ec, len))
    decreases |Dashes(g)|, 0, 0
  {
    MarkShrinks(g, nr, nc, er, ec);
    var h := Set(g, nr, nc, '*');
    var sub := Solve(h, w, best, nr, nc, er, ec, len + 1);
    SolveFinds(h, w, best, nr, nc, er, ec, len + 1);
    FoundPathBefore(g, h, w, (nr, nc), (er, ec), len + 1, sub);
    if sub.found {
      assert Enter(g, w, best, nr, nc, er, ec, len) == sub;
    }
  }

  // ---------------------------------------------------------------------------
  // The game object
  // ---------------------------------------------------------------------------

  /** The module state of games/maze.py: the global `best_path_length`. */
  class MazeGame {
    var bestPathLength: Bound

    /** `best_path_length = float('inf')`. */
    constructor ()
      ensures bestPathLength == Infinite
    {
      bestPathLength := Infinite;
    }

    /** `solve_maze` on the maze held in place. */
    method SolveMaze(maze: array2<char>, r: int, c: int, er: int, ec: int, pathLength: nat) returns (found: bool)
      requires NoStrayPair(Cells(maze), er, ec)
      modifies this, maze
      ensures Outcome(found, Cells(maze), bestPathLength)
           == Solve(old(Cells(maze)), maze.Length1, old(bestPathLength), r, c, er, ec, pathLength)
      decreases |Dashes(Cells(maze))|, Rank(Cells(maze), r, c, er, ec), 0
    {
      if !Under(pathLength, bestPathLength) {
        return false;
      }
      if (r, c) == (er, ec) {
        bestPathLength := Finite(pathLength);
        return true;
      }
      ghost var g, w := Cells(maze), maze.Length1;
      var directions := Order(r, c, er, ec);
      SolveRunsMoves(g, w, bestPathLength, r, c, er, ec, pathLength);
      found := TryDirections(maze, r, c, er, ec, pathLength, directions);
    }

    /** The loop `for dr, dc in directions` of `solve_maze`. */
    method TryDirections(maze: array2<char>, r: int, c: int, er: int, ec: int, pathLength: nat, directions: seq<Dir>)
      returns (found: bool)
      requires NoStrayPair(Cells(maze), er, ec) && (r, c) != (er, ec)
      requires forall i | 0 <= i < |directions| :: Unit(directions[i])
      modifies this, maze
      ensures Outcome(found, Cells(maze), bestPathLength)
           == Moves(old(Cells(maze)), maze.Length1, old(bestPathLength), r, c, er, ec, pathLength, directions, 0)
      decreases |Dashes(Cells(maze))|, Rank(Cells(maze), r, c, er, ec) - 1, 1
    {
      ghost var g, w := Cells(maze), maze.Length1;
      EvolvesRefl(g);
      var k := 0;
      while k < |directions|
        invariant k <= |directions| && Evolves(g, Cells(maze)) && NoStrayPair(Cells(maze), er, ec)
        invariant |Dashes(Cells(maze))| <= |Dashes(g)| && Rank(Cells(maze), r, c, er, ec) == Rank(g, r, c, er, ec)
        invariant Moves(Cells(maze), w, bestPathLength, r, c, er, ec, pathLength, directions, k)
               == Moves(g, w, old(bestPathLength), r, c, er, ec, pathLength, directions, 0)
        decreases |directions| - k
      {
        ghost var before, bestBefore := Cells(maze), bestPathLength;
        found := TryMove(maze, r, c, er, ec, pathLength, directions[k]);
        MovesTurn(g, before, Cells(maze), w, bestBefore, bestPathLength, found, r, c, er, ec, pathLength, directions, k);
        if found {
          return;
        }
        k := k + 1;
      }
      return false;
    }

    /** One turn of the loop of `solve_maze`. */
    method TryMove(maze: array2<char>, r: int, c: int, er: int, ec: int, pathLength: nat, d: Dir)
      returns (found: bool)
      requires NoStrayPair(Cells(maze), er, ec) && (r, c) != (er, ec) && Unit(d)
      modifies this, maze
      ensures Outcome(found, Cells(maze), bestPathLength)
           == Step(old(Cells(maze)), maze.Length1, old(bestPathLength), r, c, er, ec, pathLength, d)
      decreases |Dashes(Cells(maze))|, Rank(Cells(maze), r, c, er, ec) - 1, 0
    {
      ghost var g, w, best := Cells(maze), maze.Length1, bestPathLength;
      var nr, nc := r + d.0, c + d.1;
      if !(0 <= nr < maze.Length0 && 0 <= nc < maze.Length1 && (maze[nr, nc] == '-' || maze[nr, nc] == 'B')) {
        StepSkips(g, w, best, r, c, er, ec, pathLength, d);
        return false;
      }
      if maze[nr, nc] == 'B' {
        StepIntoB(g, w, best, r, c, er, ec, pathLength, d);
        found := SolveMaze(maze, nr, nc, er, ec, pathLength + 1);
      } else {
        StepIntoDash(g, w, best, r, c, er, ec, pathLength, d);
        found := EnterCell(maze, nr, nc, er, ec, pathLength);
      }
    }

    /** A turn into the '-' cell (`nr`, `nc`): mark it '*', search on from it,
        and mark it '.' when that search fails. */
    method EnterCell(maze: array2<char>, nr: int, nc: int, er: int, ec: int, pathLength: nat) returns (found: bool)
      requires NoStrayPair(Cells(maze), er, ec)
      requires 0 <= nr < maze.Length0 && 0 <= nc < maze.Length1 && maze[nr, nc] == '-'
      modifies this, maze
      ensures Outcome(found, Cells(maze), bestPathLength)
           == Enter(old(Cells(maze)), maze.Length1, old(bestPathLength), nr, nc, er, ec, pathLength)
      decreases |Dashes(Cells(maze))|, 0, 0
    {
      ghost var g, w, best := Cells(maze), maze.Length1, bestPathLength;
      MarkShrinks(g, nr, nc, er, ec);
      Put(maze, nr, nc, '*');
      found := SolveMaze(maze, nr, nc, er, ec, pathLength + 1);
      if found {
        return;
      }
      Put(maze, nr, nc, '.');
    }
  }
}
