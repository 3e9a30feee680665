/** The crossword solver of games/crossword.py: the placement check adds a
    dictionary test on the grid the placement would leave
    (`check_intersections`), the solver keeps a record of every placed word
    (`word_positions`), and `highlight_intersections` lists the cells two
    placed words share. The search is `Crossword.SolveFrom` under the rule
    `Dictionary`. */
module CrosswordGame {
  import opened Common
  import opened Grids
  import opened Crossword

  // ---------------------------------------------------------------------------
  // `check_intersections`
  // ---------------------------------------------------------------------------

  /** A cell that is neither a block nor empty. */
  predicate Letter(ch: char) {
    ch != '#' && ch != '-'
  }

  /** `str.lower()` on the letters A to Z. */
  function LowerChar(ch: char): char {
    if 'A' <= ch <= 'Z' then (ch as int + 32) as char else ch
  }

  function Lower(s: string): string {
    seq(|s|, i requires 0 <= i < |s| => LowerChar(s[i]))
  }

  /** The guard `not is_part_of_new_word or (direction == ... and ...)` in
      front of the dictionary lookup: `on_line` says whether the scanned
      line is the one the new word lies along. */
  function Checked(onLine: bool, start: int, len: int, wordStart: int, wordLen: int): (b: bool)
    ensures b
  {
    var isPart := onLine && start <= wordStart + wordLen - 1 && wordStart <= start + len - 1;
    !isPart || onLine
  }

  /** One line of the run scan from position `k` on, with the run `cur`
      started at `start` collected so far; position `|line|` is the sentinel
      that ends the last run. */
  function ScanLine(line: string, valid: set<string>, onLine: bool, wordStart: int, wordLen: int,
                    k: nat, cur: string, start: nat): bool
    requires k <= |line|
    decreases |line| - k
  {
    if k < |line| && Letter(line[k]) then
      ScanLine(line, valid, onLine, wordStart, wordLen, k + 1, cur + [line[k]], if cur == "" then k else start)
    else
      (|cur| <= 1 || !Checked(onLine, start, |cur|, wordStart, wordLen) || Lower(cur) in valid)
      && (k == |line| || ScanLine(line, valid, onLine, wordStart, wordLen, k + 1, "", start))
  }

  /** The column `c` of `t`, top to bottom. */
  function Column(t: Grid, cols: nat, c: nat): (line: string)
    requires Rect(t, cols) && c < cols
    ensures |line| == |t| && forall i | 0 <= i < |t| :: line[i] == t[i][c]
  {
    seq(|t|, i requires 0 <= i < |t| => t[i][c])
  }

  /** The row loop of `check_intersections` from row `r` on. */
  function RowsOk(t: Grid, cols: nat, valid: set<string>, word: string, p: Placement, r: nat): bool
    requires Rect(t, cols) && r <= |t|
    decreases |t| - r
  {
    r == |t| || (ScanLine(t[r], valid, p.dir == H && r == p.row, p.col, |word|, 0, "", 0)
                 && RowsOk(t, cols, valid, word, p, r + 1))
  }

  /** The column loop of `check_intersections` from column `c` on. */
  function ColsOk(t: Grid, cols: nat, valid: set<string>, word: string, p: Placement, c: nat): bool
    requires Rect(t, cols) && c <= cols
    decreases cols - c
  {
    c == cols || (ScanLine(Column(t, cols, c), valid, p.dir == V && c == p.col, p.row, |word|, 0, "", 0)
                  && ColsOk(t, cols, valid, word, p, c + 1))
  }

  /** `check_intersections(word, row, col, direction)`: scan the grid the
      placement would leave, a copy, row by row and then column by column. */
  function CheckIntersections(g: Grid, cols: nat, valid: set<string>, word: string, p: Placement): bool
    requires Rect(g, cols) && InBounds(|g|, cols, |word|, p)
  {
    var t := Place(g, cols, word, p);
    RowsOk(t, cols, valid, word, p, 0) && ColsOk(t, cols, valid, word, p, 0)
  }

  /** A maximal run of at least two letters in a line, from `a` to `b`. */
  ghost predicate Run(line: string, a: int, b: int) {
    && 0 <= a && a + 2 <= b <= |line|
    && (forall k | a <= k < b :: Letter(line[k]))
    && (a == 0 || !Letter(line[a - 1]))
    && (b == |line| || !Letter(line[b]))
  }

  /** Every maximal run of two or more letters in the line is, lowercased, a
      dictionary word. */
  ghost predicate LineOk(line: string, valid: set<string>) {
    forall a, b | Run(line, a, b) :: Lower(line[a..b]) in valid
  }

  /** The run ending at a non-letter or at the end of the line is the only
      run starting at `s`; every other run starting from `s` on starts
      after `k`. */
  lemma RunsAt(line: string, s: nat, k: nat, a: int, b: int)
    requires s <= k <= |line| && (k < |line| ==> !Letter(line[k]))
    requires forall j | s <= j < k :: Letter(line[j])
    requires s <= a && Run(line, a, b)
    ensures a == s ==> b == k
    ensures a != s ==> k < a
  {
    if a == s {
    } else {
      assert !Letter(line[a - 1]);
    }
  }

  /** The scan of a line from a state in which `cur` is the run of letters
      from `s` to `k` succeeds exactly when every maximal run from `s` on is
      in the dictionary: the guard never lets a run through unchecked. */
  lemma {:induction false} ScanLineMeans(line: string, valid: set<string>, onLine: bool, wordStart: int, wordLen: int,
                                         k: nat, cur: string, start: nat, s: nat)
    requires s <= k <= |line| && cur == line[s..k] && (cur != "" ==> start == s)
    requires (forall j | s <= j < k :: Letter(line[j])) && (s == 0 || !Letter(line[s - 1]))
    ensures ScanLine(line, valid, onLine, wordStart, wordLen, k, cur, start) <==>
      forall a, b | s <= a && Run(line, a, b) :: Lower(line[a..b]) in valid
    decreases |line| - k
  {
    var next := k + 1;
    if k < |line| && Letter(line[k]) {
      var ext, from := cur + [line[k]], if cur == "" then k else start;
      assert ScanLine(line, valid, onLine, wordStart, wordLen, k, cur, start)
          == ScanLine(line, valid, onLine, wordStart, wordLen, next, ext, from);
      assert ext == line[s..next];
      ScanLineMeans(line, valid, onLine, wordStart, wordLen, next, ext, from, s);
    } else {
      var ok := |cur| <= 1 || Lower(cur) in valid;
      var later := forall a, b | next <= a && Run(line, a, b) :: Lower(line[a..b]) in valid;
      assert Checked(onLine, start, |cur|, wordStart, wordLen);
      if k < |line| {
        assert ScanLine(line, valid, onLine, wordStart, wordLen, k, cur, start)
            == (ok && ScanLine(line, valid, onLine, wordStart, wordLen, next, "", start));
        assert "" == line[next..next];
        ScanLineMeans(line, valid, onLine, wordStart, wordLen, next, "", start, next);
      }
      if ok && (k == |line| || later) {
        forall a, b | s <= a && Run(line, a, b)
          ensures Lower(line[a..b]) in valid
        {
          RunsAt(line, s, k, a, b);
        }
      }
      if |cur| > 1 {
        assert Run(line, s, k);
      }
      if k < |line| && !later {
        var a, b :| next <= a && Run(line, a, b) && Lower(line[a..b]) !in valid;
        assert s <= a;
      }
    }
  }

  lemma LineScanMeans(line: string, valid: set<string>, onLine: bool, wordStart: int, wordLen: int)
    ensures ScanLine(line, valid, onLine, wordStart, wordLen, 0, "", 0) <==> LineOk(line, valid)
  {
    ScanLineMeans(line, valid, onLine, wordStart, wordLen, 0, "", 0, 0);
  }

  lemma {:induction false} RowsOkMeans(t: Grid, cols: nat, valid: set<string>, word: string, p: Placement, r: nat)
    requires Rect(t, cols) && r <= |t|
    ensures RowsOk(t, cols, valid, word, p, r) <==> forall i | r <= i < |t| :: LineOk(t[i], valid)
    decreases |t| - r
  {
    if r < |t| {
      LineScanMeans(t[r], valid, p.dir == H && r == p.row, p.col, |word|);
      RowsOkMeans(t, cols, valid, word, p, r + 1);
    }
  }

  lemma {:induction false} ColsOkMeans(t: Grid, cols: nat, valid: set<string>, word: string, p: Placement, c: nat)
    requires Rect(t, cols) && c <= cols
    ensures ColsOk(t, cols, valid, word, p, c) <==> forall j | c <= j < cols :: LineOk(Column(t, cols, j), valid)
    decreases cols - c
  {
    if c < cols {
      LineScanMeans(Column(t, cols, c), valid, p.dir == V && c == p.col, p.row, |word|);
      ColsOkMeans(t, cols, valid, word, p, c + 1);
    }
  }

  /** `check_intersections` holds exactly when every maximal horizontal and
      vertical run of two or more letters in the grid the placement would
      leave is, lowercased, in the dictionary. */
  lemma CheckIntersectionsMeans(g: Grid, cols: nat, valid: set<string>, word: string, p: Placement)
    requires Rect(g, cols) && InBounds(|g|, cols, |word|, p)
    ensures var t := Place(g, cols, word, p);
      CheckIntersections(g, cols, valid, word, p) <==>
        (forall i | 0 <= i < |t| :: LineOk(t[i], valid)) && (forall j | 0 <= j < cols :: LineOk(Column(t, cols, j), valid))
  {
    var t := Place(g, cols, word, p);
    RowsOkMeans(t, cols, valid, word, p, 0);
    ColsOkMeans(t, cols, valid, word, p, 0);
  }

  /** The extra test of this solver's `is_valid_placement`. */
  function Dictionary(cols: nat, valid: set<string>): Rule {
    (g: Grid, w: string, p: Placement) => Rect(g, cols) && InBounds(|g|, cols, |w|, p) && CheckIntersections(g, cols, valid, w, p)
  }

  // ---------------------------------------------------------------------------
  // `word_positions`
  // ---------------------------------------------------------------------------

  /** An entry of `word_positions`: the word, where it was placed, and the
      cells it covers. */
  datatype Record = Record(word: string, at: Placement, positions: seq<(int, int)>)

  /** The first `n` cells covered from `p`, in order. */
  function Positions(p: Placement, n: nat): seq<(int, int)> {
    if n == 0 then [] else Positions(p, n - 1) + [Cover(p, n - 1)]
  }

  /** A record lists the covered cells in order, one per letter. */
  lemma {:induction false} PositionsMeans(p: Placement, n: nat)
    ensures |Positions(p, n)| == n && forall i | 0 <= i < n :: Positions(p, n)[i] == Cover(p, i)
  {
    if n > 0 {
      PositionsMeans(p, n - 1);
    }
  }

  /** The record `place_word` appends. */
  function RecordOf(word: string, p: Placement): Record {
    Record(word, p, Positions(p, |word|))
  }

  /** Every record is the one `place_word` made for its word and placement. */
  ghost predicate WellRecorded(s: seq<Record>) {
    forall i | 0 <= i < |s| :: s[i] == RecordOf(s[i].word, s[i].at)
  }

  predicate Matches(rec: Record, word: string, p: Placement) {
    rec.word == word && rec.at == p
  }

  /** The list after `remove_word`'s loop: the first record matching the word
      and the placement is dropped. */
  function RemoveFirst(s: seq<Record>, word: string, p: Placement): seq<Record> {
    if s == [] then []
    else if Matches(s[0], word, p) then s[1..]
    else [s[0]] + RemoveFirst(s[1..], word, p)
  }

  /** Without a match the list is unchanged; otherwise exactly the first
      matching record is gone. */
  lemma {:induction false} RemoveFirstMeans(s: seq<Record>, word: string, p: Placement, i: nat)
    requires i <= |s| && forall j | 0 <= j < i :: !Matches(s[j], word, p)
    ensures i == |s| ==> RemoveFirst(s, word, p) == s
    ensures i < |s| && Matches(s[i], word, p) ==> RemoveFirst(s, word, p) == s[..i] + s[i + 1..]
    decreases i
  {
    if i > 0 {
      RemoveFirstMeans(s[1..], word, p, i - 1);
      assert [s[0]] + s[1..][..i - 1] == s[..i];
      if i < |s| {
        assert s[1..][i - 1 + 1..] == s[i + 1..];
      }
    } else if s != [] && !Matches(s[0], word, p) {
      assert i < |s|;
    }
  }

  /** Taking back a recorded placement removes one copy of its record and
      keeps every record well formed. */
  lemma RemoveRecorded(s: seq<Record>, word: string, p: Placement)
    requires WellRecorded(s) && RecordOf(word, p) in s
    ensures multiset(RemoveFirst(s, word, p)) == multiset(s) - multiset{RecordOf(word, p)}
    ensures WellRecorded(RemoveFirst(s, word, p))
  {
    var i := FirstMatch(s, word, p);
    RemoveFirstMeans(s, word, p, i);
    Without(s, i);
  }

  /** Some record matches, so there is a first one. */
  lemma FirstMatch(s: seq<Record>, word: string, p: Placement) returns (i: nat)
    requires RecordOf(word, p) in s
    ensures i < |s| && Matches(s[i], word, p) && forall j | 0 <= j < i :: !Matches(s[j], word, p)
  {
    i := 0;
    while !Matches(s[i], word, p)
      invariant i < |s| && forall j | 0 <= j < i :: !Matches(s[j], word, p)
      decreases |s| - i
    {
      i := i + 1;
    }
  }

  /** The records of words placed one after the other. */
  function Records(ws: seq<string>, ps: seq<Placement>): seq<Record>
    requires |ws| == |ps|
  {
    if ws == [] then [] else [RecordOf(ws[0], ps[0])] + Records(ws[1..], ps[1..])
  }

  lemma RecordsCons(words: seq<string>, index: nat, p: Placement, ps: seq<Placement>)
    requires index < |words| && |ps| == |words| - index - 1
    ensures Records(words[index..], [p] + ps) == [RecordOf(words[index], p)] + Records(words[index + 1..], ps)
  {
    assert words[index..][1..] == words[index + 1..];
    assert ([p] + ps)[1..] == ps;
  }

  // ---------------------------------------------------------------------------
  // `highlight_intersections`
  // ---------------------------------------------------------------------------

  /** The two inner loops for the cell lists `a` and `b`, from the cursor
      (`k`, `m`) on: a cell for each equal pair, in loop order. */
  function Inner(a: seq<(int, int)>, b: seq<(int, int)>, k: nat, m: nat): seq<(int, int)>
    requires k <= |a| && m <= |b|
    decreases |a| - k, |b| - m
  {
    if k == |a| then []
    else if m == |b| then Inner(a, b, k + 1, 0)
    else (if a[k] == b[m] then [a[k]] else []) + Inner(a, b, k, m + 1)
  }

  /** The two outer loops over the records from the cursor (`i`, `j`) on;
      the pairs with `i >= j` are skipped. */
  function Outer(wp: seq<Record>, i: nat, j: nat): seq<(int, int)>
    requires i <= |wp| && j <= |wp|
    decreases |wp| - i, |wp| - j
  {
    if i == |wp| then []
    else if j == |wp| then Outer(wp, i + 1, 0)
    else (if i < j then Inner(wp[i].positions, wp[j].positions, 0, 0) else []) + Outer(wp, i, j + 1)
  }

  /** The list `highlight_intersections` builds. */
  function Intersections(wp: seq<Record>): seq<(int, int)> {
    Outer(wp, 0, 0)
  }

  /** The inner loop for record cell `a[k]`, from `b[m]` on, lists `a[k]`
      once per later equal cell of `b`, and the rows after it follow. */
  lemma {:induction false} InnerRow(a: seq<(int, int)>, b: seq<(int, int)>, k: nat, m: nat, y: (int, int))
    requires k < |a| && m <= |b|
    ensures y in Inner(a, b, k, m) <==> (y == a[k] && y in b[m..]) || y in Inner(a, b, k + 1, 0)
    decreases |b| - m
  {
    if m == |b| {
      assert b[m..] == [];
    } else {
      var after := m + 1;
      var here, rest := (if a[k] == b[m] then [a[k]] else []), Inner(a, b, k, after);
      assert Inner(a, b, k, m) == here + rest;
      assert y in here + rest <==> y in here || y in rest;
      InnerRow(a, b, k, after, y);
      assert b[m..] == [b[m]] + b[after..];
      assert y in b[m..] <==> y == b[m] || y in b[after..];
    }
  }

  /** From record cell `a[k]` on, the inner loops list exactly the cells of
      `a[k..]` that `b` also holds. */
  lemma {:induction false} InnerFrom(a: seq<(int, int)>, b: seq<(int, int)>, k: nat, y: (int, int))
    requires k <= |a|
    ensures y in Inner(a, b, k, 0) <==> y in a[k..] && y in b
    decreases |a| - k
  {
    if k == |a| {
      assert a[k..] == [];
    } else {
      var down := k + 1;
      InnerRow(a, b, k, 0, y);
      InnerFrom(a, b, down, y);
      assert b[0..] == b;
      assert a[k..] == [a[k]] + a[down..];
      assert y in a[k..] <==> y == a[k] || y in a[down..];
    }
  }

  /** The inner loops for a pair of records list the cells the two share. */
  lemma InnerAll(a: seq<(int, int)>, b: seq<(int, int)>, y: (int, int))
    ensures y in Inner(a, b, 0, 0) <==> y in a && y in b
  {
    InnerFrom(a, b, 0, y);
    assert a[0..] == a;
  }

  /** Records `i` and `j` both cover `y`. */
  predicate Both(wp: seq<Record>, i: nat, j: nat, y: (int, int))
    requires i < |wp| && j < |wp|
  {
    y in wp[i].positions && y in wp[j].positions
  }

  /** Some pair of records `i2 < j2` at or after the cursor (`i`, `j`) both
      cover `y`. */
  ghost predicate SharedFrom(wp: seq<Record>, i: nat, j: nat, y: (int, int)) {
    exists i2: nat, j2: nat | i2 < j2 < |wp| && (i < i2 || (i == i2 && j <= j2)) :: Both(wp, i2, j2, y)
  }

  lemma SharedFromRow(wp: seq<Record>, i: nat, y: (int, int))
    ensures SharedFrom(wp, i, |wp|, y) <==> SharedFrom(wp, i + 1, 0, y)
  {
    if SharedFrom(wp, i, |wp|, y) {
      var i2: nat, j2: nat :| i2 < j2 < |wp| && (i < i2 || (i == i2 && |wp| <= j2)) && Both(wp, i2, j2, y);
      assert i + 1 < i2 || (i + 1 == i2 && 0 <= j2);
    }
    if SharedFrom(wp, i + 1, 0, y) {
      var i2: nat, j2: nat :| i2 < j2 < |wp| && (i + 1 < i2 || (i + 1 == i2 && 0 <= j2)) && Both(wp, i2, j2, y);
      assert i < i2;
    }
  }

  lemma SharedFromStep(wp: seq<Record>, i: nat, j: nat, y: (int, int))
    requires i < |wp| && j < |wp|
    ensures SharedFrom(wp, i, j, y) <==> (i < j && Both(wp, i, j, y)) || SharedFrom(wp, i, j + 1, y)
  {
    if SharedFrom(wp, i, j, y) {
      var i2: nat, j2: nat :| i2 < j2 < |wp| && (i < i2 || (i == i2 && j <= j2)) && Both(wp, i2, j2, y);
      if i2 != i || j2 != j {
        assert SharedFrom(wp, i, j + 1, y);
      }
    }
    if SharedFrom(wp, i, j + 1, y) {
      var i2: nat, j2: nat :| i2 < j2 < |wp| && (i < i2 || (i == i2 && j + 1 <= j2)) && Both(wp, i2, j2, y);
      assert i < i2 || (i == i2 && j <= j2);
    }
    if i < j && Both(wp, i, j, y) {
      assert i == i && j <= j;
    }
  }

  lemma {:induction false} OuterMeans(wp: seq<Record>, i: nat, j: nat, y: (int, int))
    requires i <= |wp| && j <= |wp|
    ensures y in Outer(wp, i, j) <==> SharedFrom(wp, i, j, y)
    decreases |wp| - i, |wp| - j
  {
    if i < |wp| {
      if j == |wp| {
        var down := i + 1;
        OuterMeans(wp, down, 0, y);
        SharedFromRow(wp, i, y);
        assert Outer(wp, i, j) == Outer(wp, down, 0);
      } else {
        var after := j + 1;
        var here := if i < j then Inner(wp[i].positions, wp[j].positions, 0, 0) else [];
        OuterMeans(wp, i, after, y);
        InnerAll(wp[i].positions, wp[j].positions, y);
        SharedFromStep(wp, i, j, y);
        assert Outer(wp, i, j) == here + Outer(wp, i, after);
      }
    }
  }

  /** `highlight_intersections` lists exactly the cells covered by two
      distinct placed words. */
  lemma IntersectionsMeans(wp: seq<Record>, y: (int, int))
    ensures y in Intersections(wp) <==> exists i: nat, j: nat | i < j < |wp| :: Both(wp, i, j, y)
  {
    OuterMeans(wp, 0, 0, y);
  }

  /** The two inner loops of `highlight_intersections` for one pair of
      records. */
  method SharedCells(a: seq<(int, int)>, b: seq<(int, int)>) returns (xs: seq<(int, int)>)
    ensures xs == Inner(a, b, 0, 0)
  {
    ghost var goal := Inner(a, b, 0, 0);
    xs := [];
    var k := 0;
    while k < |a|
      invariant k <= |a| && xs + Inner(a, b, k, 0) == goal
      decreases |a| - k
    {
      var m := 0;
      while m < |b|
        invariant m <= |b| && xs + Inner(a, b, k, m) == goal
        decreases |b| - m
      {
        var next := m + 1;
        ghost var here := if a[k] == b[m] then [a[k]] else [];
        Regroup(xs, here, Inner(a, b, k, next));
        if a[k] == b[m] {
          xs := xs + [a[k]];
        }
        m := next;
      }
      var down := k + 1;
      assert Inner(a, b, k, m) == Inner(a, b, down, 0);
      k := down;
    }
    Regroup(xs, [], []);
  }

  // ---------------------------------------------------------------------------
  // The solver object
  // ---------------------------------------------------------------------------

  /** `CrosswordSolverBase` of games/crossword.py with
      `BacktrackingSolver.solve`. */
  class GameSolver {
    const words: seq<string>
    const grid: array2<char>
    const validWords: set<string>
    var wordPositions: seq<Record>

    constructor (template: Grid, words: seq<string>, validWords: set<string>)
      requires |template| > 0 && Rect(template, |template[0]|)
      ensures this.words == words && this.validWords == validWords && fresh(grid) && Cells(grid) == template
      ensures wordPositions == []
    {
      this.words := words;
      this.validWords := validWords;
      var cols := |template[0]|;
      grid := new char[|template|, cols]((i, j) requires 0 <= i < |template| && 0 <= j < cols => template[i][j]);
      wordPositions := [];
      new;
      Ext(Cells(grid), template);
    }

    /** `is_valid_placement`: bounds, letters, then the dictionary scan. */
    method IsValidPlacement(word: string, p: Placement) returns (ok: bool)
      ensures ok == Accepts(Dictionary(grid.Length1, validWords), Cells(grid), grid.Length1, word, p)
    {
      var g := Cells(grid);
      ok := Crossword.IsValidPlacement(g, grid.Length1, word, p);
      if ok {
        ok := CheckIntersections(g, grid.Length1, validWords, word, p);
      }
    }

    /** `place_word`: writes the word, returns what the cells held, and
        records the placement. */
    method PlaceWord(word: string, p: Placement) returns (prev: string)
      requires InBounds(grid.Length0, grid.Length1, |word|, p)
      modifies this, grid
      ensures Cells(grid) == Place(old(Cells(grid)), grid.Length1, word, p)
      ensures prev == Read(old(Cells(grid)), grid.Length1, p, |word|)
      ensures wordPositions == old(wordPositions) + [RecordOf(word, p)]
    {
      ghost var g := Cells(grid);
      prev := [];
      var positions := [];
      var i := 0;
      while i < |word|
        invariant i <= |word| && Cells(grid) == Write(g, grid.Length1, p, word, i)
        invariant prev == Read(g, grid.Length1, p, i) && positions == Positions(p, i)
        modifies grid
        decreases |word| - i
      {
        var held := WriteLetter(grid, g, p, word, i);
        prev := prev + [held];
        var next := i + 1;
        assert Positions(p, next) == positions + [Cover(p, i)];
        positions := positions + [Cover(p, i)];
        i := next;
      }
      wordPositions := wordPositions + [Record(word, p, positions)];
    }

    /** `remove_word`: writes `prev` back and drops the first matching
        record. */
    method RemoveWord(word: string, p: Placement, prev: string)
      requires InBounds(grid.Length0, grid.Length1, |word|, p) && |word| <= |prev|
      modifies this, grid
      ensures Cells(grid) == Write(old(Cells(grid)), grid.Length1, p, prev, |word|)
      ensures wordPositions == RemoveFirst(old(wordPositions), word, p)
    {
      ghost var g := Cells(grid);
      var i := 0;
      while i < |word|
        invariant i <= |word| && Cells(grid) == Write(g, grid.Length1, p, prev, i)
        modifies grid
        decreases |word| - i
      {
        Put(grid, Cover(p, i).0, Cover(p, i).1, prev[i]);
        i := i + 1;
      }
      Forget(word, p);
    }

    /** The record loop of `remove_word`: `pop` the first record of the word
        at the placement, if there is one. */
    method Forget(word: string, p: Placement)
      modifies this
      ensures wordPositions == RemoveFirst(old(wordPositions), word, p)
    {
      var k := 0;
      while k < |wordPositions| && !Matches(wordPositions[k], word, p)
        invariant k <= |wordPositions| && forall j | 0 <= j < k :: !Matches(wordPositions[j], word, p)
        decreases |wordPositions| - k
      {
        k := k + 1;
      }
      RemoveFirstMeans(wordPositions, word, p, k);
      if k < |wordPositions| {
        wordPositions := wordPositions[..k] + wordPositions[k + 1..];
      }
    }

    /** `highlight_intersections`. */
    method HighlightIntersections() returns (xs: seq<(int, int)>)
      ensures xs == Intersections(wordPositions)
    {
      var wp := wordPositions;
      ghost var total := Outer(wp, 0, 0);
      xs := [];
      var i := 0;
      while i < |wp|
        invariant i <= |wp| && xs + Outer(wp, i, 0) == total
        decreases |wp| - i
      {
        var j := 0;
        while j < |wp|
          invariant j <= |wp| && xs + Outer(wp, i, j) == total
          decreases |wp| - j
        {
          var after := j + 1;
          ghost var rest := Outer(wp, i, after);
          ghost var here := if i < j then Inner(wp[i].positions, wp[j].positions, 0, 0) else [];
          assert Outer(wp, i, j) == here + rest;
          ghost var before := xs;
          Regroup(before, here, rest);
          if i < j {
            var shared := SharedCells(wp[i].positions, wp[j].positions);
            xs := xs + shared;
          }
          j := after;
        }
        var row := i + 1;
        assert Outer(wp, i, j) == Outer(wp, row, 0);
        i := row;
      }
      Regroup(xs, [], []);
    }

    /** `solve(index)`: the search of `Crossword.SolveFrom` under the
        dictionary rule; a failure also leaves the records as they were, up
        to order, and a success adds one record per placed word. */
    method Solve(index: nat) returns (solved: bool)
      requires index <= |words| && WellRecorded(wordPositions)
      modifies this, grid
      ensures var o := SolveFrom(Dictionary(grid.Length1, validWords), old(Cells(grid)), grid.Length1, words, index);
        && (solved, Cells(grid)) == Result(o)
        && (solved ==> |o.placed| == |words| - index)
        && (solved ==> multiset(wordPositions) == multiset(old(wordPositions)) + multiset(Records(words[index..], o.placed)))
      ensures !solved ==> multiset(wordPositions) == multiset(old(wordPositions))
      ensures WellRecorded(wordPositions)
      decreases |words| - index, 2
    {
      ghost var rule := Dictionary(grid.Length1, validWords);
      if index == |words| {
        assert words[index..] == [];
        return true;
      }
      SolveSound(rule, Cells(grid), grid.Length1, words, index);
      ghost var g := Cells(grid);
      ghost var goal := SolveFrom(rule, g, grid.Length1, words, index);
      var row := 0;
      while row < grid.Length0
        invariant row <= grid.Length0 && Cells(grid) == g
        invariant Attempt(rule, g, grid.Length1, words, index, row, 0, H) == goal
        invariant multiset(wordPositions) == multiset(old(wordPositions)) && WellRecorded(wordPositions)
        decreases grid.Length0 - row
      {
        var col := 0;
        while col < grid.Length1
          invariant col <= grid.Length1 && Cells(grid) == g
          invariant Attempt(rule, g, grid.Length1, words, index, row, col, H) == goal
          invariant multiset(wordPositions) == multiset(old(wordPositions)) && WellRecorded(wordPositions)
          decreases grid.Length1 - col
        {
          solved := TryAt(index, Placement(row, col, H));
          if solved {
            return;
          }
          assert goal == Attempt(rule, g, grid.Length1, words, index, row, col, V);
          solved := TryAt(index, Placement(row, col, V));
          if solved {
            return;
          }
          var next := col + 1;
          assert goal == Attempt(rule, g, grid.Length1, words, index, row, next, H);
          col := next;
        }
        var down := row + 1;
        assert goal == Attempt(rule, g, grid.Length1, words, index, down, 0, H);
        row := down;
      }
      return false;
    }

    /** The body of the loops of `solve` for one placement. */
    method TryAt(index: nat, p: Placement) returns (solved: bool)
      requires index < |words| && WellRecorded(wordPositions)
      modifies this, grid
      ensures var o := Try(Dictionary(grid.Length1, validWords), old(Cells(grid)), grid.Length1, words, index, p);
        && (solved, Cells(grid)) == Result(o)
        && (solved ==> |o.placed| == |words| - index)
        && (solved ==> multiset(wordPositions) == multiset(old(wordPositions)) + multiset(Records(words[index..], o.placed)))
      ensures !solved ==> multiset(wordPositions) == multiset(old(wordPositions))
      ensures WellRecorded(wordPositions)
      decreases |words| - index, 1
    {
      var word := words[index];
      var ok := IsValidPlacement(word, p);
      if !ok {
        return false;
      }
      solved := Extend(index, p);
      if solved {
        ghost var sub := SolveFrom(Dictionary(grid.Length1, validWords), Place(old(Cells(grid)), grid.Length1, word, p), grid.Length1, words, index + 1);
        RecordsCons(words, index, p, sub.placed);
      }
    }

    /** An accepted placement of `words[index]`: place it, search on, and on
        failure take it back. */
    method Extend(index: nat, p: Placement) returns (solved: bool)
      requires index < |words| && WellRecorded(wordPositions)
      requires InBounds(grid.Length0, grid.Length1, |words[index]|, p)
      modifies this, grid
      ensures var o := SolveFrom(Dictionary(grid.Length1, validWords), Place(old(Cells(grid)), grid.Length1, words[index], p), grid.Length1, words, index + 1);
        && solved == o.found
        && (solved ==> Cells(grid) == o.grid && |o.placed| == |words| - index - 1)
        && (solved ==> multiset(wordPositions) == multiset(old(wordPositions)) + multiset([RecordOf(words[index], p)] + Records(words[index + 1..], o.placed)))
      ensures !solved ==> Cells(grid) == old(Cells(grid)) && multiset(wordPositions) == multiset(old(wordPositions))
      ensures WellRecorded(wordPositions)
      decreases |words| - index, 0
    {
      var word := words[index];
      ghost var g := Cells(grid);
      ghost var before := wordPositions;
      ghost var record := RecordOf(word, p);
      var prev := PlaceWord(word, p);
      assert wordPositions == before + [record];
      assert multiset(wordPositions) == multiset(before) + multiset{record};
      solved := Solve(index + 1);
      if solved {
        ghost var o := SolveFrom(Dictionary(grid.Length1, validWords), Place(g, grid.Length1, word, p), grid.Length1, words, index + 1);
        assert multiset([record] + Records(words[index + 1..], o.placed))
            == multiset{record} + multiset(Records(words[index + 1..], o.placed));
        return;
      }
      assert record in multiset(wordPositions);
      Undo(word, p, prev);
      PlaceRemove(g, grid.Length1, word, p);
    }

    /** `remove_word` on a recorded placement: drops one copy of its record. */
    method Undo(word: string, p: Placement, prev: string)
      requires InBounds(grid.Length0, grid.Length1, |word|, p) && |word| <= |prev|
      requires WellRecorded(wordPositions) && RecordOf(word, p) in multiset(wordPositions)
      modifies this, grid
      ensures Cells(grid) == Write(old(Cells(grid)), grid.Length1, p, prev, |word|)
      ensures multiset(wordPositions) == multiset(old(wordPositions)) - multiset{RecordOf(word, p)}
      ensures WellRecorded(wordPositions)
    {
      RemoveRecorded(wordPositions, word, p);
      RemoveWord(word, p, prev);
    }
  }
}
