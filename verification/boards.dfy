/**
 The rectangular letter grid of board.py: bounds-checked 8-neighbourhoods and
 the naive per-word depth-first search that marks visited cells with '#' on a
 copy of the grid and undoes each mark on the way back.
 */
module Boards {

  type Grid = seq<seq<char>>

  /** A cell position: row index first, as in board.py's (i, j) tuples. */
  datatype Pos = Pos(row: int, col: int)

  /** The mark board.py puts on a cell of the current search path. */
  const Visited: char := '#'

  /** A board: the grid and the shape numpy reports for it. */
  datatype Board = Board(grid: Grid, rows: nat, cols: nat)

  /** `g` has `rows` rows of `cols` characters each. */
  predicate Shaped(g: Grid, rows: nat, cols: nat) {
    |g| == rows && forall r :: 0 <= r < |g| ==> |g[r]| == cols
  }

  predicate Valid(b: Board) {
    Shaped(b.grid, b.rows, b.cols)
  }

  /** No cell of `g` holds `c`. */
  predicate Clean(g: Grid, c: char) {
    forall r, k :: 0 <= r < |g| && 0 <= k < |g[r]| ==> g[r][k] != c
  }

  /** Board.__init__: rows and cols are the grid's shape; the rows must all have one length. */
  function FromRows(grid: Grid): (b: Board)
    requires |grid| > 0
    requires forall r :: 0 <= r < |grid| ==> |grid[r]| == |grid[0]|
    ensures Valid(b) && b.grid == grid
    ensures b.rows == |grid| && b.cols == |grid[0]|
  {
    Board(grid, |grid|, |grid[0]|)
  }

  predicate InBounds(b: Board, p: Pos) {
    0 <= p.row < b.rows && 0 <= p.col < b.cols
  }

  /** The character at `p`. */
  function At(g: Grid, p: Pos): char
    requires 0 <= p.row < |g| && 0 <= p.col < |g[p.row]|
  {
    g[p.row][p.col]
  }

  /** `g` with the cell at `p` overwritten by `c`. */
  function Put(g: Grid, p: Pos, c: char): (g': Grid)
    requires 0 <= p.row < |g| && 0 <= p.col < |g[p.row]|
    ensures |g'| == |g|
    ensures forall r :: 0 <= r < |g| ==> |g'[r]| == |g[r]|
    ensures forall r, k :: 0 <= r < |g| && 0 <= k < |g[r]| ==> g'[r][k] == if r == p.row && k == p.col then c else g[r][k]
  {
    g[p.row := g[p.row][p.col := c]]
  }

  /** Writing back the character a cell held restores the grid. */
  lemma PutBack(g: Grid, p: Pos, c: char)
    requires 0 <= p.row < |g| && 0 <= p.col < |g[p.row]|
    ensures Put(Put(g, p, c), p, At(g, p)) == g
  {
    var g' := Put(Put(g, p, c), p, At(g, p));
    assert forall r :: 0 <= r < |g| ==> g'[r] == g[r];
  }

  /** Distinct cells at Chebyshev distance one. */
  predicate Adjacent(p: Pos, q: Pos) {
    p != q && -1 <= p.row - q.row <= 1 && -1 <= p.col - q.col <= 1
  }

  /** board.py's offsets, in its order: W, SW, S, SE, E, NE, N, NW (rows grow downwards). */
  const Offsets: seq<Pos> := [Pos(0, -1), Pos(1, -1), Pos(1, 0), Pos(1, 1), Pos(0, 1), Pos(-1, 1), Pos(-1, 0), Pos(-1, -1)]

  function Shift(p: Pos, d: Pos): Pos {
    Pos(p.row + d.row, p.col + d.col)
  }

  /** The in-bounds cells among `p` shifted by each offset of `ds`, in the order of `ds`. */
  function KeepInBounds(b: Board, p: Pos, ds: seq<Pos>): seq<Pos>
  {
    if |ds| == 0 then []
    else (if InBounds(b, Shift(p, ds[0])) then [Shift(p, ds[0])] else []) + KeepInBounds(b, p, ds[1..])
  }

  lemma {:induction false} KeepInBoundsMembers(b: Board, p: Pos, ds: seq<Pos>)
    ensures forall q :: q in KeepInBounds(b, p, ds) <==> InBounds(b, q) && exists k :: 0 <= k < |ds| && q == Shift(p, ds[k])
    ensures forall k, l :: 0 <= k < l < |KeepInBounds(b, p, ds)| && (forall x, y :: 0 <= x < y < |ds| ==> ds[x] != ds[y]) ==> KeepInBounds(b, p, ds)[k] != KeepInBounds(b, p, ds)[l]
    ensures |KeepInBounds(b, p, ds)| <= |ds|
  {
    if |ds| > 0 {
      KeepInBoundsMembers(b, p, ds[1..]);
      var rest := KeepInBounds(b, p, ds[1..]);
      forall q
        ensures q in KeepInBounds(b, p, ds) <==> InBounds(b, q) && exists k :: 0 <= k < |ds| && q == Shift(p, ds[k])
      {
        if q in rest {
          var k :| 0 <= k < |ds[1..]| && q == Shift(p, ds[1..][k]);
          assert q == Shift(p, ds[k + 1]);
        }
        if InBounds(b, q) && exists k :: 0 <= k < |ds| && q == Shift(p, ds[k]) {
          var k :| 0 <= k < |ds| && q == Shift(p, ds[k]);
          if k > 0 {
            assert q == Shift(p, ds[1..][k - 1]);
          }
        }
      }
      if forall x, y :: 0 <= x < y < |ds| ==> ds[x] != ds[y] {
        assert forall x, y :: 0 <= x < y < |ds[1..]| ==> ds[1..][x] != ds[1..][y] by {
          forall x, y | 0 <= x < y < |ds[1..]|
            ensures ds[1..][x] != ds[1..][y]
          {
            assert ds[1..][x] == ds[x + 1] && ds[1..][y] == ds[y + 1];
          }
        }
        forall k | 0 <= k < |ds[1..]|
          ensures Shift(p, ds[0]) != Shift(p, ds[1..][k])
        {
          assert ds[1..][k] == ds[k + 1];
        }
      }
    }
  }

  /** Board.neighbors: the in-bounds cells around `p`, in board.py's offset order. */
  function Neighbors(b: Board, p: Pos): (ns: seq<Pos>)
    ensures forall q :: q in ns <==> InBounds(b, q) && Adjacent(p, q)
    ensures forall k, l :: 0 <= k < l < |ns| ==> ns[k] != ns[l]
    ensures |ns| <= 8
  {
    KeepInBoundsMembers(b, p, Offsets);
    forall q
      ensures Adjacent(p, q) <==> exists k :: 0 <= k < |Offsets| && q == Shift(p, Offsets[k])
    {
      if Adjacent(p, q) {
        var d := Pos(q.row - p.row, q.col - p.col);
        assert q == Shift(p, d);
        assert d in Offsets;
      }
    }
    KeepInBounds(b, p, Offsets)
  }

  /**
   `ns` picks cells out of `p` shifted by `ds`, keeping the order of `ds`: the
   m-th cell is `p` shifted by `ds[idx[m]]`, and the positions `idx` strictly
   increase.
   */
  ghost predicate Picks(ns: seq<Pos>, p: Pos, ds: seq<Pos>, idx: seq<int>) {
    |idx| == |ns| &&
    (forall m :: 0 <= m < |idx| ==> 0 <= idx[m] < |ds| && ns[m] == Shift(p, ds[idx[m]])) &&
    (forall m, n :: 0 <= m < n < |idx| ==> idx[m] < idx[n])
  }

  /** Filtering keeps the order of `ds`. */
  lemma {:induction false} KeepInBoundsOrder(b: Board, p: Pos, ds: seq<Pos>) returns (idx: seq<int>)
    ensures Picks(KeepInBounds(b, p, ds), p, ds, idx)
  {
    if |ds| == 0 {
      idx := [];
    } else {
      var tailIdx := KeepInBoundsOrder(b, p, ds[1..]);
      var rest := KeepInBounds(b, p, ds[1..]);
      PicksSkip(rest, p, ds, tailIdx);
      if InBounds(b, Shift(p, ds[0])) {
        PicksTake(rest, p, ds, Incr(tailIdx));
        idx := [0] + Incr(tailIdx);
      } else {
        idx := Incr(tailIdx);
      }
    }
  }

  /** Picks from the tail of `ds` are picks from `ds` with every position moved up by one. */
  lemma PicksSkip(ns: seq<Pos>, p: Pos, ds: seq<Pos>, idx: seq<int>)
    requires |ds| > 0 && Picks(ns, p, ds[1..], idx)
    ensures Picks(ns, p, ds, Incr(idx))
    ensures forall m :: 0 <= m < |idx| ==> Incr(idx)[m] > 0
  {
    var up := Incr(idx);
    forall m | 0 <= m < |up|
      ensures 0 < up[m] < |ds| && ns[m] == Shift(p, ds[up[m]])
    {
      assert ds[1..][idx[m]] == ds[up[m]];
    }
  }

  /** Putting the first offset's cell in front of picks that avoid position 0 keeps them picks. */
  lemma PicksTake(ns: seq<Pos>, p: Pos, ds: seq<Pos>, idx: seq<int>)
    requires |ds| > 0 && Picks(ns, p, ds, idx)
    requires forall m :: 0 <= m < |idx| ==> idx[m] > 0
    ensures Picks([Shift(p, ds[0])] + ns, p, ds, [0] + idx)
  {
    var ns', idx' := [Shift(p, ds[0])] + ns, [0] + idx;
    forall m | 1 <= m < |idx'|
      ensures idx'[m] == idx[m - 1] && ns'[m] == ns[m - 1]
    {
    }
  }

  /**
   At every cell, border or not, the neighbours come back in board.py's offset
   order with the off-board ones left out: the m-th neighbour is `p` shifted by
   `Offsets[idx[m]]`, and the positions `idx` strictly increase.
   */
  lemma NeighborOrder(b: Board, p: Pos) returns (idx: seq<int>)
    ensures |idx| == |Neighbors(b, p)|
    ensures forall m :: 0 <= m < |idx| ==> 0 <= idx[m] < |Offsets| && Neighbors(b, p)[m] == Shift(p, Offsets[idx[m]])
    ensures forall m, n :: 0 <= m < n < |idx| ==> idx[m] < idx[n]
  {
    idx := KeepInBoundsOrder(b, p, Offsets);
  }

  /** Every entry of `xs` plus one. */
  function Incr(xs: seq<int>): (ys: seq<int>)
    ensures |ys| == |xs| && forall m :: 0 <= m < |xs| ==> ys[m] == xs[m] + 1
  {
    if |xs| == 0 then [] else [xs[0] + 1] + Incr(xs[1..])
  }

  /** When every offset stays on the board, nothing is filtered out and the order is kept. */
  lemma {:induction false} KeepAllInBounds(b: Board, p: Pos, ds: seq<Pos>)
    requires forall k :: 0 <= k < |ds| ==> InBounds(b, Shift(p, ds[k]))
    ensures |KeepInBounds(b, p, ds)| == |ds|
    ensures forall k :: 0 <= k < |ds| ==> KeepInBounds(b, p, ds)[k] == Shift(p, ds[k])
  {
    if |ds| > 0 {
      assert InBounds(b, Shift(p, ds[0]));
      KeepAllInBounds(b, p, ds[1..]);
    }
  }

  /** Away from the border all eight neighbours come back, in board.py's fixed order. */
  lemma InteriorNeighborOrder(b: Board, p: Pos)
    requires 1 <= p.row < b.rows - 1 && 1 <= p.col < b.cols - 1
    ensures Neighbors(b, p) == [Pos(p.row, p.col - 1), Pos(p.row + 1, p.col - 1), Pos(p.row + 1, p.col),
                               Pos(p.row + 1, p.col + 1), Pos(p.row, p.col + 1), Pos(p.row - 1, p.col + 1),
                               Pos(p.row - 1, p.col), Pos(p.row - 1, p.col - 1)]
  {
    KeepAllInBounds(b, p, Offsets);
  }

  /** On a 1x1 board the only cell has no neighbours. */
  lemma SingleCellIsolated(b: Board, p: Pos)
    requires b.rows == 1 && b.cols == 1 && InBounds(b, p)
    ensures Neighbors(b, p) == []
  {
    KeepOutOfBounds(b, p, Offsets);
  }

  /** When no offset stays on the board, nothing is kept. */
  lemma {:induction false} KeepOutOfBounds(b: Board, p: Pos, ds: seq<Pos>)
    requires forall k :: 0 <= k < |ds| ==> !InBounds(b, Shift(p, ds[k]))
    ensures KeepInBounds(b, p, ds) == []
  {
    if |ds| > 0 {
      assert !InBounds(b, Shift(p, ds[0]));
      KeepOutOfBounds(b, p, ds[1..]);
    }
  }

  // ---------------------------------------------------------------------------
  // Paths

  /** In-bounds cells, each adjacent to the next, none repeated. */
  ghost predicate SimplePath(b: Board, path: seq<Pos>) {
    (forall k :: 0 <= k < |path| ==> InBounds(b, path[k])) &&
    (forall k :: 0 <= k < |path| - 1 ==> Adjacent(path[k], path[k + 1])) &&
    (forall k, l :: 0 <= k < l < |path| ==> path[k] != path[l])
  }

  /** `path` is a simple path whose first |w| cells spell `w` in `g`. */
  ghost predicate SpellsOn(b: Board, g: Grid, path: seq<Pos>, w: string) {
    SimplePath(b, path) && Shaped(g, b.rows, b.cols) && |w| <= |path| &&
    forall k :: 0 <= k < |w| ==> At(g, path[k]) == w[k]
  }

  /** No cell of `path` carries board.py's visited mark in `g`. */
  ghost predicate Unvisited(b: Board, g: Grid, path: seq<Pos>)
    requires SimplePath(b, path) && Shaped(g, b.rows, b.cols)
  {
    forall k :: 0 <= k < |path| ==> At(g, path[k]) != Visited
  }

  /** `w` is spelled on the board by a simple path of `n` cells (the first |w| cells spell it). */
  ghost predicate OnBoard(b: Board, w: string, n: nat) {
    exists path :: |path| == n && SpellsOn(b, b.grid, path, w)
  }

  /** `w` is spelled on the board by a simple path of exactly |w| adjacent cells. */
  ghost predicate Occurs(b: Board, w: string) {
    OnBoard(b, w, |w|)
  }

  // ---------------------------------------------------------------------------
  // The naive search

  /**
   Which search is meant: board.py's as written, or the corrected one that
   succeeds as soon as the last character matches.
   */
  datatype Variant = AsWritten | Corrected

  /** How many cells past the word a successful search needs. */
  function Spare(v: Variant): nat {
    if v == AsWritten then 1 else 0
  }

  /** A search's answer, with the scratch grid as the search left it. */
  datatype Search = Search(found: bool, grid: Grid)

  /**
   Board.backtrack: match `suffix` from `p` on the scratch grid `g`, marking the
   cell while its neighbours are tried.
   */
  function Backtrack(b: Board, v: Variant, p: Pos, suffix: string, g: Grid): (r: Search)
    requires Valid(b) && Shaped(g, b.rows, b.cols) && InBounds(b, p)
    ensures r.grid == g
    ensures |suffix| == 0 ==> r.found
    ensures |suffix| > 0 && At(g, p) != suffix[0] ==> !r.found
    decreases |suffix|, 1
  {
    if |suffix| == 0 then Search(true, g)
    else if At(g, p) != suffix[0] then Search(false, g)
    else if v == Corrected && |suffix| == 1 then Search(true, g)
    else
      var r := BacktrackNeighbors(b, v, Neighbors(b, p), 0, suffix[1..], Put(g, p, Visited));
      PutBack(g, p, Visited);
      Search(r.found, Put(r.grid, p, suffix[0]))
  }

  /** Board.backtrack's loop over the neighbours `ns[k..]`, skipping marked ones, stopping at the first success. */
  function BacktrackNeighbors(b: Board, v: Variant, ns: seq<Pos>, k: nat, rest: string, g: Grid): (r: Search)
    requires Valid(b) && Shaped(g, b.rows, b.cols) && k <= |ns|
    requires forall m :: 0 <= m < |ns| ==> InBounds(b, ns[m])
    ensures r.grid == g
    decreases |rest| + 1, 0, |ns| - k
  {
    if k == |ns| then Search(false, g)
    else
      assert InBounds(b, ns[k]);
      if At(g, ns[k]) == Visited then BacktrackNeighbors(b, v, ns, k + 1, rest, g)
      else
        var r := Backtrack(b, v, ns[k], rest, g);
        if r.found then r else BacktrackNeighbors(b, v, ns, k + 1, rest, r.grid)
  }

  /** Board.word_exist: try every cell holding the first letter, in row-major order, on a scratch copy. */
  function WordExist(b: Board, v: Variant, word: string): bool
    requires Valid(b) && |word| > 0
  {
    Scan(b, v, word, b.grid, 0, 0)
  }

  /** The row-major loop of Board.word_exist from cell (i, j) on. */
  function Scan(b: Board, v: Variant, word: string, g: Grid, i: nat, j: nat): bool
    requires Valid(b) && Shaped(g, b.rows, b.cols) && |word| > 0
    requires i <= b.rows && j <= b.cols
    decreases b.rows - i, b.cols - j
  {
    if i == b.rows then false
    else if j == b.cols then Scan(b, v, word, g, i + 1, 0)
    else if At(g, Pos(i, j)) == word[0] then
      var r := Backtrack(b, v, Pos(i, j), word, g);
      if r.found then true else Scan(b, v, word, r.grid, i, j + 1)
    else Scan(b, v, word, g, i, j + 1)
  }

  /** A search from `p` in `g` can succeed: a simple unmarked path from `p` spelling `suffix`, with the variant's spare cells. */
  ghost predicate Reach(b: Board, v: Variant, g: Grid, p: Pos, suffix: string) {
    |suffix| == 0 ||
    exists path :: |path| == |suffix| + Spare(v) && SpellsOn(b, g, path, suffix) && Unvisited(b, g, path) && path[0] == p
  }

  /** If the loop over `ns[k..]` succeeds, some unmarked neighbour's search succeeded. */
  lemma {:induction false} BacktrackNeighborsSound(b: Board, v: Variant, ns: seq<Pos>, k: nat, rest: string, g: Grid)
    returns (m: nat)
    requires Valid(b) && Shaped(g, b.rows, b.cols) && k <= |ns|
    requires forall m :: 0 <= m < |ns| ==> InBounds(b, ns[m])
    requires BacktrackNeighbors(b, v, ns, k, rest, g).found
    ensures k <= m < |ns| && InBounds(b, ns[m]) && At(g, ns[m]) != Visited && Backtrack(b, v, ns[m], rest, g).found
    decreases |ns| - k
  {
    assert InBounds(b, ns[k]);
    if At(g, ns[k]) == Visited || !Backtrack(b, v, ns[k], rest, g).found {
      m := BacktrackNeighborsSound(b, v, ns, k + 1, rest, g);
    } else {
      m := k;
    }
  }

  /** If some unmarked neighbour in `ns[k..]` can succeed, the loop succeeds. */
  lemma {:induction false} BacktrackNeighborsComplete(b: Board, v: Variant, ns: seq<Pos>, k: nat, m: nat, rest: string, g: Grid)
    requires Valid(b) && Shaped(g, b.rows, b.cols) && k <= m < |ns|
    requires forall m :: 0 <= m < |ns| ==> InBounds(b, ns[m])
    requires InBounds(b, ns[m]) && At(g, ns[m]) != Visited && Backtrack(b, v, ns[m], rest, g).found
    ensures BacktrackNeighbors(b, v, ns, k, rest, g).found
    decreases m - k
  {
    assert InBounds(b, ns[k]);
    if k < m && (At(g, ns[k]) == Visited || !Backtrack(b, v, ns[k], rest, g).found) {
      BacktrackNeighborsComplete(b, v, ns, k + 1, m, rest, g);
    }
  }

  /** A successful search from `p` has followed a simple unmarked path spelling the suffix. */
  lemma {:induction false} BacktrackSound(b: Board, v: Variant, p: Pos, suffix: string, g: Grid)
    returns (path: seq<Pos>)
    requires Valid(b) && Shaped(g, b.rows, b.cols) && InBounds(b, p)
    requires Visited !in suffix && |suffix| > 0
    requires Backtrack(b, v, p, suffix, g).found
    ensures |path| == |suffix| + Spare(v) && SpellsOn(b, g, path, suffix) && Unvisited(b, g, path) && path[0] == p
    decreases |suffix|
  {
    assert At(g, p) == suffix[0];
    if v == Corrected && |suffix| == 1 {
      path := [p];
    } else {
      var g' := Put(g, p, Visited);
      var ns := Neighbors(b, p);
      var m := BacktrackNeighborsSound(b, v, ns, 0, suffix[1..], g');
      var q := ns[m];
      assert q in ns;
      if |suffix| == 1 {
        path := [p, q];
        PairPath(b, p, q, suffix, g);
      } else {
        var tail := BacktrackSound(b, v, q, suffix[1..], g');
        path := [p] + tail;
        ConsPath(b, v, p, suffix, g, tail);
      }
    }
  }

  /** A matching cell and an unmarked neighbour form a path for a one-letter suffix with one spare cell. */
  lemma PairPath(b: Board, p: Pos, q: Pos, suffix: string, g: Grid)
    requires Valid(b) && Shaped(g, b.rows, b.cols) && InBounds(b, p)
    requires |suffix| == 1 && At(g, p) == suffix[0] && Visited !in suffix
    requires q in Neighbors(b, p) && At(Put(g, p, Visited), q) != Visited
    ensures SpellsOn(b, g, [p, q], suffix) && Unvisited(b, g, [p, q])
  {
    assert InBounds(b, q) && Adjacent(p, q);
  }

  /** A path found from a neighbour on the grid with `p` marked extends, by `p` in front, to a path from `p`. */
  lemma ConsPath(b: Board, v: Variant, p: Pos, suffix: string, g: Grid, tail: seq<Pos>)
    requires Valid(b) && Shaped(g, b.rows, b.cols) && InBounds(b, p)
    requires |suffix| > 1 && At(g, p) == suffix[0] && Visited !in suffix
    requires |tail| == |suffix| - 1 + Spare(v) && SpellsOn(b, Put(g, p, Visited), tail, suffix[1..])
    requires Unvisited(b, Put(g, p, Visited), tail) && Adjacent(p, tail[0])
    ensures |[p] + tail| == |suffix| + Spare(v) && SpellsOn(b, g, [p] + tail, suffix) && Unvisited(b, g, [p] + tail)
  {
    var g' := Put(g, p, Visited);
    var path := [p] + tail;
    forall k | 0 < k < |path|
      ensures path[k] != p && At(g, path[k]) == At(g', path[k])
    {
      assert path[k] == tail[k - 1];
    }
    assert forall k :: 0 < k < |suffix| ==> suffix[k] == suffix[1..][k - 1];
  }

  /** A search from `p` succeeds whenever a simple unmarked path from `p` spells the suffix, with the spare cells. */
  lemma {:induction false} BacktrackComplete(b: Board, v: Variant, p: Pos, suffix: string, g: Grid, path: seq<Pos>)
    requires Valid(b) && Shaped(g, b.rows, b.cols) && InBounds(b, p)
    requires |suffix| > 0
    requires |path| == |suffix| + Spare(v) && SpellsOn(b, g, path, suffix) && Unvisited(b, g, path) && path[0] == p
    ensures Backtrack(b, v, p, suffix, g).found
    decreases |suffix|
  {
    if !(v == Corrected && |suffix| == 1) {
      var q := path[1];
      var ns := Neighbors(b, p);
      assert Adjacent(path[0], path[1]);
      assert q in ns;
      var m :| 0 <= m < |ns| && ns[m] == q;
      var g' := Put(g, p, Visited);
      assert path[0] != path[1];
      if |suffix| > 1 {
        var tail := path[1..];
        forall k | 0 <= k < |tail|
          ensures tail[k] != p && At(g', tail[k]) == At(g, tail[k])
        {
          assert tail[k] == path[k + 1];
        }
        assert forall k :: 0 <= k < |suffix| - 1 ==> suffix[1..][k] == suffix[k + 1];
        assert SimplePath(b, tail) by {
          assert forall k :: 0 <= k < |tail| ==> tail[k] == path[k + 1];
        }
        BacktrackComplete(b, v, q, suffix[1..], g', tail);
      }
      BacktrackNeighborsComplete(b, v, ns, 0, m, suffix[1..], g');
    }
  }

  /** Board.backtrack succeeds exactly when the suffix can be traced from `p`, with the variant's spare cells. */
  lemma BacktrackExact(b: Board, v: Variant, p: Pos, suffix: string, g: Grid)
    requires Valid(b) && Shaped(g, b.rows, b.cols) && InBounds(b, p)
    requires Visited !in suffix
    ensures Backtrack(b, v, p, suffix, g).found <==> Reach(b, v, g, p, suffix)
  {
    if |suffix| > 0 {
      if Backtrack(b, v, p, suffix, g).found {
        var path := BacktrackSound(b, v, p, suffix, g);
      }
      if Reach(b, v, g, p, suffix) {
        var path :| |path| == |suffix| + Spare(v) && SpellsOn(b, g, path, suffix) && Unvisited(b, g, path) && path[0] == p;
        BacktrackComplete(b, v, p, suffix, g, path);
      }
    }
  }

  /**
   As written, a one-character suffix succeeds only if the matching cell also
   has a neighbour not marked '#': the empty-suffix success comes one call deeper.
   */
  lemma LastCharNeedsNeighbor(b: Board, p: Pos, suffix: string, g: Grid)
    requires Valid(b) && Shaped(g, b.rows, b.cols) && InBounds(b, p)
    requires |suffix| == 1
    ensures Backtrack(b, AsWritten, p, suffix, g).found <==>
              At(g, p) == suffix[0] && exists q :: q in Neighbors(b, p) && At(g, q) != Visited
  {
    var ns := Neighbors(b, p);
    if Backtrack(b, AsWritten, p, suffix, g).found {
      var m := BacktrackNeighborsSound(b, AsWritten, ns, 0, suffix[1..], Put(g, p, Visited));
      assert ns[m] in ns && At(g, ns[m]) != Visited;
    }
    if At(g, p) == suffix[0] && exists q :: q in ns && At(g, q) != Visited {
      var q :| q in ns && At(g, q) != Visited;
      LastCharFinds(b, p, suffix, g, q);
    }
  }

  lemma LastCharFinds(b: Board, p: Pos, suffix: string, g: Grid, q: Pos)
    requires Valid(b) && Shaped(g, b.rows, b.cols) && InBounds(b, p)
    requires |suffix| == 1 && At(g, p) == suffix[0]
    requires q in Neighbors(b, p) && At(g, q) != Visited
    ensures Backtrack(b, AsWritten, p, suffix, g).found
  {
    var ns := Neighbors(b, p);
    var m :| 0 <= m < |ns| && ns[m] == q;
    BacktrackNeighborsComplete(b, AsWritten, ns, 0, m, suffix[1..], Put(g, p, Visited));
  }

  /** A search may start at `p`: it holds the first letter and Board.backtrack succeeds there. */
  ghost predicate Starts(b: Board, v: Variant, word: string, g: Grid, p: Pos)
    requires Valid(b) && Shaped(g, b.rows, b.cols) && |word| > 0
  {
    InBounds(b, p) && At(g, p) == word[0] && Backtrack(b, v, p, word, g).found
  }

  /** (r, c) comes at or after (i, j) in row-major order. */
  predicate AtOrAfter(p: Pos, i: int, j: int) {
    p.row > i || (p.row == i && p.col >= j)
  }

  /** Some start at or after (i, j) in row-major order succeeds. */
  ghost predicate StartsFrom(b: Board, v: Variant, word: string, g: Grid, i: int, j: int)
    requires Valid(b) && Shaped(g, b.rows, b.cols) && |word| > 0
  {
    exists p :: Starts(b, v, word, g, p) && AtOrAfter(p, i, j)
  }

  lemma StartsFromRowEnd(b: Board, v: Variant, word: string, g: Grid, i: int)
    requires Valid(b) && Shaped(g, b.rows, b.cols) && |word| > 0
    ensures StartsFrom(b, v, word, g, i, b.cols) <==> StartsFrom(b, v, word, g, i + 1, 0)
  {
    if StartsFrom(b, v, word, g, i, b.cols) {
      var p :| Starts(b, v, word, g, p) && AtOrAfter(p, i, b.cols);
      assert AtOrAfter(p, i + 1, 0);
    }
    if StartsFrom(b, v, word, g, i + 1, 0) {
      var p :| Starts(b, v, word, g, p) && AtOrAfter(p, i + 1, 0);
      assert AtOrAfter(p, i, b.cols);
    }
  }

  lemma StartsFromCell(b: Board, v: Variant, word: string, g: Grid, i: int, j: int)
    requires Valid(b) && Shaped(g, b.rows, b.cols) && |word| > 0
    ensures StartsFrom(b, v, word, g, i, j) <==> Starts(b, v, word, g, Pos(i, j)) || StartsFrom(b, v, word, g, i, j + 1)
  {
    if StartsFrom(b, v, word, g, i, j) {
      var p :| Starts(b, v, word, g, p) && AtOrAfter(p, i, j);
      if p != Pos(i, j) {
        assert AtOrAfter(p, i, j + 1);
      }
    }
    if Starts(b, v, word, g, Pos(i, j)) {
      assert AtOrAfter(Pos(i, j), i, j);
    }
    if StartsFrom(b, v, word, g, i, j + 1) {
      var p :| Starts(b, v, word, g, p) && AtOrAfter(p, i, j + 1);
      assert AtOrAfter(p, i, j);
    }
  }

  /** The scan from (i, j) succeeds exactly when some start at or after (i, j) in row-major order succeeds. */
  lemma {:induction false} ScanExact(b: Board, v: Variant, word: string, g: Grid, i: nat, j: nat)
    requires Valid(b) && Shaped(g, b.rows, b.cols) && |word| > 0
    requires i <= b.rows && j <= b.cols
    ensures Scan(b, v, word, g, i, j) <==> StartsFrom(b, v, word, g, i, j)
    decreases b.rows - i, b.cols - j
  {
    if i == b.rows {
    } else if j == b.cols {
      ScanExact(b, v, word, g, i + 1, 0);
      StartsFromRowEnd(b, v, word, g, i);
    } else {
      ScanExact(b, v, word, g, i, j + 1);
      StartsFromCell(b, v, word, g, i, j);
    }
  }

  /**
   Board.word_exist succeeds exactly when the word is spelled by a simple path
   with the variant's spare cells: one more cell than the word as written.
   */
  lemma WordExistExact(b: Board, v: Variant, word: string)
    requires Valid(b) && Clean(b.grid, Visited)
    requires |word| > 0 && Visited !in word
    ensures WordExist(b, v, word) <==> OnBoard(b, word, |word| + Spare(v))
  {
    ScanExact(b, v, word, b.grid, 0, 0);
    if WordExist(b, v, word) {
      var p :| Starts(b, v, word, b.grid, p) && AtOrAfter(p, 0, 0);
      var path := BacktrackSound(b, v, p, word, b.grid);
    }
    if OnBoard(b, word, |word| + Spare(v)) {
      var path :| |path| == |word| + Spare(v) && SpellsOn(b, b.grid, path, word);
      var p := path[0];
      assert Unvisited(b, b.grid, path);
      BacktrackComplete(b, v, p, word, b.grid, path);
      assert Starts(b, v, word, b.grid, p) && AtOrAfter(p, 0, 0);
    }
  }

  /** Whatever Board.word_exist accepts is spelled on the board by a simple path, in either variant. */
  lemma WordExistSound(b: Board, v: Variant, word: string)
    requires Valid(b) && Clean(b.grid, Visited)
    requires |word| > 0 && Visited !in word
    requires WordExist(b, v, word)
    ensures Occurs(b, word)
  {
    WordExistExact(b, v, word);
    var path :| |path| == |word| + Spare(v) && SpellsOn(b, b.grid, path, word);
    var prefix := path[..|word|];
    assert SpellsOn(b, b.grid, prefix, word);
  }

  /** The corrected search accepts exactly the words spelled by a simple path. */
  lemma CorrectedExact(b: Board, word: string)
    requires Valid(b) && Clean(b.grid, Visited)
    requires |word| > 0 && Visited !in word
    ensures WordExist(b, Corrected, word) <==> Occurs(b, word)
  {
    WordExistExact(b, Corrected, word);
  }

  /** Board.word_exist fails when no cell holds the word's first letter. */
  lemma {:induction false} WordExistNeedsFirstLetter(b: Board, v: Variant, word: string)
    requires Valid(b) && |word| > 0
    requires forall r, c :: 0 <= r < b.rows && 0 <= c < b.cols ==> b.grid[r][c] != word[0]
    ensures !WordExist(b, v, word)
  {
    ScanExact(b, v, word, b.grid, 0, 0);
    forall p | InBounds(b, p)
      ensures !Starts(b, v, word, b.grid, p)
    {
      assert b.grid[p.row][p.col] != word[0];
    }
  }

  /** As written, the one-cell board "x" does not find the word "x", though one cell spells it. */
  lemma AsWrittenMissesSingleCell()
    ensures Occurs(FromRows(["x"]), "x")
    ensures !WordExist(FromRows(["x"]), AsWritten, "x")
  {
    var b := FromRows(["x"]);
    assert SpellsOn(b, b.grid, [Pos(0, 0)], "x");
    SingleCellNoSpareTrail(b);
    WordExistExact(b, AsWritten, "x");
  }

  /** No simple path on the one-cell board has two cells. */
  lemma SingleCellNoSpareTrail(b: Board)
    requires b == FromRows(["x"])
    ensures !OnBoard(b, "x", 2)
  {
    forall path: seq<Pos> | |path| == 2 && InBounds(b, path[0]) && InBounds(b, path[1])
      ensures path[0] == path[1]
    {
    }
  }

  /** On the row "cat", a cell adjacent to the 't' that follows an 'a' is that 'a' again. */
  lemma CatRowHasNoSpare(b: Board, p: seq<Pos>)
    requires b == FromRows(["cat"])
    requires |p| == 4 && InBounds(b, p[1]) && InBounds(b, p[2]) && InBounds(b, p[3])
    requires At(b.grid, p[1]) == 'a' && At(b.grid, p[2]) == 't' && Adjacent(p[1], p[2]) && Adjacent(p[2], p[3])
    ensures p[3] == p[1]
  {
    assert b.rows == 1 && b.cols == 3 && b.grid[0] == "cat";
    assert p[1] == Pos(0, 1);
    assert p[2] == Pos(0, 2);
  }

  /** No simple path of four cells on the row "cat" spells "cat" on its first three. */
  lemma CatRowNoSpareTrail(b: Board)
    requires b == FromRows(["cat"])
    ensures !OnBoard(b, "cat", 4)
  {
    forall p | |p| == 4 && InBounds(b, p[1]) && InBounds(b, p[2]) && InBounds(b, p[3]) &&
               At(b.grid, p[1]) == 'a' && At(b.grid, p[2]) == 't' && Adjacent(p[1], p[2]) && Adjacent(p[2], p[3])
      ensures p[3] == p[1]
    {
      CatRowHasNoSpare(b, p);
    }
  }

  /** As written, the row "cat" does not find "cat": the last letter has no unvisited neighbour. */
  lemma AsWrittenMissesRow()
    ensures Occurs(FromRows(["cat"]), "cat")
    ensures !WordExist(FromRows(["cat"]), AsWritten, "cat")
  {
    var b := FromRows(["cat"]);
    CatRowSpells(b);
    CatRowNoSpareTrail(b);
    assert Clean(b.grid, Visited) by {
      assert b.grid == ["cat"];
    }
    WordExistExact(b, AsWritten, "cat");
  }

  /** The row "cat" spells "cat" left to right. */
  lemma CatRowSpells(b: Board)
    requires b == FromRows(["cat"])
    ensures Occurs(b, "cat")
  {
    assert b.rows == 1 && b.cols == 3 && b.grid[0] == "cat";
    var path := [Pos(0, 0), Pos(0, 1), Pos(0, 2)];
    assert SimplePath(b, path);
    assert SpellsOn(b, b.grid, path, "cat");
    assert |path| == |"cat"|;
  }

  /** On the square "ca"/"ts", a fifth cell is one of the four that spell "cats". */
  lemma SquareHasNoSpare(b: Board, p: seq<Pos>)
    requires b == FromRows(["ca", "ts"])
    requires |p| == 5 && InBounds(b, p[0]) && InBounds(b, p[1]) && InBounds(b, p[2]) && InBounds(b, p[3]) && InBounds(b, p[4])
    requires At(b.grid, p[0]) == 'c' && At(b.grid, p[1]) == 'a' && At(b.grid, p[2]) == 't' && At(b.grid, p[3]) == 's'
    ensures p[4] in p[..4]
  {
    assert b.rows == 2 && b.cols == 2 && b.grid[0] == "ca" && b.grid[1] == "ts";
    assert p[0] == Pos(0, 0) && p[1] == Pos(0, 1) && p[2] == Pos(1, 0) && p[3] == Pos(1, 1);
    assert p[..4][0] == p[0] && p[..4][1] == p[1] && p[..4][2] == p[2] && p[..4][3] == p[3];
  }

  /** No simple path of five cells on the square "ca"/"ts" spells "cats" on its first four. */
  lemma SquareNoSpareTrail(b: Board)
    requires b == FromRows(["ca", "ts"])
    ensures !OnBoard(b, "cats", 5)
  {
    forall p: seq<Pos> | |p| == 5 && InBounds(b, p[0]) && InBounds(b, p[1]) && InBounds(b, p[2]) && InBounds(b, p[3]) && InBounds(b, p[4]) &&
               At(b.grid, p[0]) == 'c' && At(b.grid, p[1]) == 'a' && At(b.grid, p[2]) == 't' && At(b.grid, p[3]) == 's'
      ensures p[4] in p[..4]
    {
      SquareHasNoSpare(b, p);
    }
  }

  /** As written, the square "ca"/"ts" does not find "cats": every neighbour of the 's' is on the path. */
  lemma AsWrittenMissesSquare()
    ensures Occurs(FromRows(["ca", "ts"]), "cats")
    ensures !WordExist(FromRows(["ca", "ts"]), AsWritten, "cats")
  {
    var b := FromRows(["ca", "ts"]);
    SquareSpells(b);
    SquareNoSpareTrail(b);
    assert Clean(b.grid, Visited) by {
      assert b.grid == ["ca", "ts"];
    }
    WordExistExact(b, AsWritten, "cats");
  }

  /** The square "ca"/"ts" spells "cats" along its top row, then diagonally down, then along its bottom row. */
  lemma SquareSpells(b: Board)
    requires b == FromRows(["ca", "ts"])
    ensures Occurs(b, "cats")
  {
    assert b.rows == 2 && b.cols == 2 && b.grid[0] == "ca" && b.grid[1] == "ts";
    var path := [Pos(0, 0), Pos(0, 1), Pos(1, 0), Pos(1, 1)];
    assert forall k :: 0 <= k < 4 ==> InBounds(b, path[k]);
    assert Adjacent(path[0], path[1]) && Adjacent(path[1], path[2]) && Adjacent(path[2], path[3]);
    assert SimplePath(b, path);
    assert forall k :: 0 <= k < 4 ==> At(b.grid, path[k]) == "cats"[k];
    assert SpellsOn(b, b.grid, path, "cats");
    assert |path| == |"cats"|;
  }
}
