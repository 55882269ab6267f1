/**
 The two strategies of solver.py: the joint walk of grid and trie, which pops
 each word it reaches, marks the path with '$', restores every cell and may
 prune exhausted trie branches; and the naive filter of a word list through
 Board.word_exist.
 */
module Solver {
  import opened Optional
  import opened Tries
  import opened Boards

  /** The mark solver.py puts on a cell of the current path. */
  const OnPath: char := '$'

  /** Solver.__init__'s default minimum length of a reported word. */
  const DefaultMinLen: int := 3

  /** The state Solver.__init__ keeps: the board and the minimum length of a reported word. */
  datatype Config = Config(board: Board, minlen: int)

  /** Solver.__init__, with minlen defaulting to 3. */
  function NewSolver(board: Board, minlen: int := DefaultMinLen): (s: Config)
  {
    Config(board, minlen)
  }

  /** What the walk threads through its calls: the trie node it edits, the grid, and the words found so far. */
  datatype Walk = Walk(node: Node, grid: Grid, words: seq<string>)

  /** solver.py reports a popped word only when it is non-empty (truthy) and at least `minlen` long. */
  predicate Reportable(w: string, minlen: int) {
    |w| > 0 && |w| >= minlen
  }

  // ---------------------------------------------------------------------------
  // The termination measure: cells not marked '$'

  function CountFree(row: seq<char>): nat {
    if |row| == 0 then 0 else (if row[0] == OnPath then 0 else 1) + CountFree(row[1..])
  }

  /** How many cells of `g` are not on the current path. */
  function Unmarked(g: Grid): nat {
    if |g| == 0 then 0 else CountFree(g[0]) + Unmarked(g[1..])
  }

  lemma {:induction false} MarkRow(row: seq<char>, j: nat)
    requires j < |row| && row[j] != OnPath
    ensures CountFree(row[j := OnPath]) + 1 == CountFree(row)
  {
    if j > 0 {
      assert row[j := OnPath][1..] == row[1..][j - 1 := OnPath];
      MarkRow(row[1..], j - 1);
    } else {
      assert row[j := OnPath][1..] == row[1..];
    }
  }

  /** Marking an unmarked cell leaves one cell fewer unmarked. */
  lemma {:induction false} MarkCell(g: Grid, p: Pos)
    requires 0 <= p.row < |g| && 0 <= p.col < |g[p.row]|
    requires At(g, p) != OnPath
    ensures Unmarked(Put(g, p, OnPath)) + 1 == Unmarked(g)
    decreases |g|
  {
    var g' := Put(g, p, OnPath);
    if p.row == 0 {
      MarkRow(g[0], p.col);
      assert g'[1..] == g[1..];
    } else {
      var q := Pos(p.row - 1, p.col);
      MarkCell(g[1..], q);
      assert g'[1..] == Put(g[1..], q, OnPath);
    }
  }

  // ---------------------------------------------------------------------------
  // The joint walk

  /** The word list after popping `cur`'s word: appended when it is reportable. */
  function Report(cur: Node, minlen: int, words: seq<string>): (words': seq<string>)
    ensures |words| <= |words'| && words'[..|words|] == words
  {
    if cur.term.Some? && Reportable(cur.term.value, minlen) then words + [cur.term.value] else words
  }

  /** Where the walk put the child `ch` back: removed when pruning left it empty, else replaced by `node`. */
  function Reattach(prune: bool, parent: Node, ch: char, node: Node): (parent': Node)
  {
    if prune && node.children == map[] && node.term == None then parent.(children := parent.children - {ch})
    else parent.(children := parent.children[ch := node])
  }

  /**
   The inner dfs of Solver.trie_solve, entered at cell `p` whose character is a
   child of `parent`: pop the child's word (reporting it if long enough), mark
   the cell, walk the neighbours, restore the cell, and with `prune` drop the
   child once it has neither children nor word left.
   */
  function Dfs(s: Config, prune: bool, p: Pos, parent: Node, g: Grid, words: seq<string>): (r: Walk)
    requires Boards.Valid(s.board) && Shaped(g, s.board.rows, s.board.cols) && InBounds(s.board, p)
    requires At(g, p) != OnPath && At(g, p) in parent.children
    ensures r.grid == g
    ensures |words| <= |r.words| && r.words[..|words|] == words
    decreases Unmarked(g), 1
  {
    var ch := At(g, p);
    var cur := parent.children[ch];
    var words1 := Report(cur, s.minlen, words);
    var g1 := Put(g, p, OnPath);
    MarkCell(g, p);
    assert Shaped(g1, s.board.rows, s.board.cols);
    var ns := Neighbors(s.board, p);
    assert forall m :: 0 <= m < |ns| ==> ns[m] in ns;
    var r := DfsNeighbors(s, prune, ns, 0, cur.(term := None), g1, words1);
    PutBack(g, p, OnPath);
    assert r.words[..|words|] == r.words[..|words1|][..|words|];
    Walk(Reattach(prune, parent, ch, r.node), Put(r.grid, p, ch), r.words)
  }

  /** The neighbour loop of the inner dfs over `ns[k..]`: skip cells on the path and characters `cur` has no child for. */
  function DfsNeighbors(s: Config, prune: bool, ns: seq<Pos>, k: nat, cur: Node, g: Grid, words: seq<string>): (r: Walk)
    requires Boards.Valid(s.board) && Shaped(g, s.board.rows, s.board.cols) && k <= |ns|
    requires forall m :: 0 <= m < |ns| ==> InBounds(s.board, ns[m])
    ensures r.grid == g
    ensures |words| <= |r.words| && r.words[..|words|] == words
    decreases Unmarked(g) + 1, 0, |ns| - k
  {
    if k == |ns| then Walk(cur, g, words)
    else
      assert InBounds(s.board, ns[k]);
      if At(g, ns[k]) == OnPath || At(g, ns[k]) !in cur.children then DfsNeighbors(s, prune, ns, k + 1, cur, g, words)
      else
        var r := Dfs(s, prune, ns[k], cur, g, words);
        DfsNeighbors(s, prune, ns, k + 1, r.node, r.grid, r.words)
  }

  // ---------------------------------------------------------------------------
  // The search state the walk keeps

  /** `g` is the board's grid with exactly the cells of `path` marked '$'. */
  ghost predicate OnPathExactly(b: Board, g: Grid, path: seq<Pos>)
    requires Boards.Valid(b)
  {
    Shaped(g, b.rows, b.cols) &&
    forall q :: InBounds(b, q) ==> At(g, q) == if q in path then OnPath else At(b.grid, q)
  }

  /** The word the cells of `path` spell on the board. */
  ghost function Spell(b: Board, path: seq<Pos>): (w: string)
    requires Boards.Valid(b)
    requires forall k :: 0 <= k < |path| ==> InBounds(b, path[k])
    ensures |w| == |path|
    ensures forall k :: 0 <= k < |path| ==> InBounds(b, path[k]) && w[k] == At(b.grid, path[k])
    decreases |path|
  {
    if |path| == 0 then []
    else
      assert InBounds(b, path[0]);
      [At(b.grid, path[0])] + Spell(b, path[1..])
  }

  /**
   What a stretch of the walk did, from trie `t` and word list `words` to `t'`
   and `words'`: it only appended; each appended word is reportable, was stored
   in `t`, is stored no more in `t'`, and is spelled on the board by a simple
   path; no word was appended twice; every reportable word that left the
   trie was appended; and every word that left the trie, short or not, is
   spelled on the board, so neither popping nor pruning loses an unreached word.
   */
  ghost predicate Harvest(s: Config, t: Node, t': Node, words: seq<string>, words': seq<string>) {
    |words| <= |words'| && words'[..|words|] == words &&
    (forall k :: |words| <= k < |words'| ==>
       Reportable(words'[k], s.minlen) && words'[k] in Terms(t) && words'[k] !in Terms(t') && Occurs(s.board, words'[k])) &&
    (forall k, l :: |words| <= k < l < |words'| ==> words'[k] != words'[l]) &&
    (forall v :: v in Terms(t) && v !in Terms(t') && Reportable(v, s.minlen) ==> v in words'[|words|..]) &&
    (forall v :: v in Terms(t) && v !in Terms(t') ==> Occurs(s.board, v))
  }

  lemma HarvestRefl(s: Config, t: Node, words: seq<string>)
    ensures Harvest(s, t, t, words, words)
  {
  }

  /** Two stretches of the walk, one after the other, make one stretch. */
  lemma HarvestCompose(s: Config, t0: Node, t1: Node, t2: Node, w0: seq<string>, w1: seq<string>, w2: seq<string>)
    requires Harvest(s, t0, t1, w0, w1) && Harvest(s, t1, t2, w1, w2)
    requires Terms(t2) <= Terms(t1) <= Terms(t0)
    ensures Harvest(s, t0, t2, w0, w2)
  {
    assert w2[..|w0|] == w2[..|w1|][..|w0|];
    forall k | |w0| <= k < |w1|
      ensures w2[k] == w1[k]
    {
      assert w2[k] == w2[..|w1|][k];
    }
    forall v | v in Terms(t0) && v !in Terms(t2) && Reportable(v, s.minlen)
      ensures v in w2[|w0|..]
    {
      if v in Terms(t1) {
        var k :| 0 <= k < |w2[|w1|..]| && w2[|w1|..][k] == v;
        assert w2[|w0|..][k + |w1| - |w0|] == v;
      } else {
        var k :| 0 <= k < |w1[|w0|..]| && w1[|w0|..][k] == v;
        assert w2[|w0|..][k] == v;
      }
    }
  }

  /** A stretch inside the child `ch` of `parent` is a stretch of `parent` once the child is replaced or removed. */
  lemma HarvestLift(s: Config, parent: Node, ch: char, node: Node, parent': Node, words: seq<string>, words': seq<string>)
    requires ch in parent.children
    requires Harvest(s, parent.children[ch], node, words, words')
    requires forall v :: v in Terms(parent') <==> (v in Terms(parent) && v !in Terms(parent.children[ch])) || v in Terms(node)
    ensures Harvest(s, parent, parent', words, words')
  {
    forall v | v in Terms(parent.children[ch])
      ensures v in Terms(parent)
    {
    }
  }

  /** Popping the word of a node stores it no more, and keeps every other word of the subtree. */
  lemma PopTerm(cur: Node, pre: string, prune: bool)
    requires ValidFrom(cur, pre)
    ensures forall v :: v in Terms(cur) <==> cur.term == Some(v) || v in Terms(cur.(term := None))
    ensures cur.term.Some? ==> cur.term.value !in Terms(cur.(term := None))
    ensures ValidFrom(cur.(term := None), pre)
    ensures Shrunk(cur.(term := None), cur, prune)
  {
    var popped := cur.(term := None);
    forall c | c in cur.children
      ensures forall v :: v in Terms(cur.children[c]) ==> |pre| < |v|
      ensures Shrunk(cur.children[c], cur.children[c], prune)
    {
      ChildTermsExtend(cur, pre, c);
      ShrunkRefl(cur.children[c], prune);
    }
  }

  /** The stretch of the walk that pops the word of the node at `path`, reporting it when long enough. */
  lemma HarvestPop(s: Config, cur: Node, path: seq<Pos>, words: seq<string>, prune: bool)
    requires Boards.Valid(s.board) && SimplePath(s.board, path)
    requires ValidFrom(cur, Spell(s.board, path))
    ensures Harvest(s, cur, cur.(term := None),
                    words, Report(cur, s.minlen, words))
    ensures Terms(cur.(term := None)) <= Terms(cur)
    ensures ValidFrom(cur.(term := None), Spell(s.board, path))
    ensures Shrunk(cur.(term := None), cur, prune)
  {
    var w := Spell(s.board, path);
    PopTerm(cur, w, prune);
    if cur.term.Some? {
      assert cur.term.value == w;
      assert SpellsOn(s.board, s.board.grid, path, w);
      assert Occurs(s.board, w);
    }
  }

  /**
   Replacing the child `ch` of `parent` by its shrunk version `node`, or
   removing it when pruning left it with no word, shrinks `parent` and drops
   exactly the words the child lost.
   */
  lemma ReplaceChild(parent: Node, pre: string, ch: char, node: Node, prune: bool, parent': Node)
    requires ValidFrom(parent, pre) && ch in parent.children
    requires Shrunk(node, parent.children[ch], prune)
    requires parent' == parent.(children := parent.children[ch := node]) ||
             (prune && Terms(node) == {} && parent' == parent.(children := parent.children - {ch}))
    ensures Shrunk(parent', parent, prune)
    ensures forall v :: v in Terms(parent') <==> (v in Terms(parent) && v !in Terms(parent.children[ch])) || v in Terms(node)
  {
    forall c | c in parent'.children
      ensures Shrunk(parent'.children[c], parent.children[c], prune)
    {
      if c != ch {
        ShrunkRefl(parent.children[c], prune);
      }
    }
    forall c | c in parent.children
      ensures forall v :: v in Terms(parent.children[c]) ==> |pre| < |v| && v[|pre|] == c
    {
      ChildTermsExtend(parent, pre, c);
    }
    forall v
      ensures v in Terms(parent') <==> (v in Terms(parent) && v !in Terms(parent.children[ch])) || v in Terms(node)
    {
      if parent' == parent.(children := parent.children[ch := node]) {
        UpdateChildTerm(parent, |pre|, ch, node, v);
      } else {
        RemoveChildTerm(parent, |pre|, ch, v);
      }
    }
  }

  /** Below a node at depth `depth`, its own word has that length and a child's words continue with the child's character. */
  ghost predicate Layered(t: Node, depth: nat) {
    (t.term.Some? ==> |t.term.value| == depth) &&
    forall c :: c in t.children ==> Branch(Terms(t.children[c]), depth, c)
  }

  /** Every word of `ws` has the character `c` at index `depth`. */
  ghost predicate Branch(ws: set<string>, depth: nat, c: char) {
    forall v :: v in ws ==> depth < |v| && v[depth] == c
  }

  lemma UpdateChildTerm(parent: Node, depth: nat, ch: char, node: Node, v: string)
    requires Layered(parent, depth) && ch in parent.children
    ensures v in Terms(parent.(children := parent.children[ch := node])) <==>
            (v in Terms(parent) && v !in Terms(parent.children[ch])) || v in Terms(node)
  {
    var parent' := parent.(children := parent.children[ch := node]);
    TermsCases(parent, v);
    TermsCases(parent', v);
    assert ch in parent'.children && parent'.children[ch] == node;
    assert forall c :: c in parent.children && c != ch ==> c in parent'.children && parent'.children[c] == parent.children[c];
  }

  lemma RemoveChildTerm(parent: Node, depth: nat, ch: char, v: string)
    requires Layered(parent, depth) && ch in parent.children
    ensures v in Terms(parent.(children := parent.children - {ch})) <==> v in Terms(parent) && v !in Terms(parent.children[ch])
  {
    var parent' := parent.(children := parent.children - {ch});
    if v in Terms(parent') {
      RemovedChildKeeps(parent, depth, ch, v);
    }
    if v in Terms(parent) && v !in Terms(parent.children[ch]) {
      RemovedChildLoses(parent, ch, v);
    }
  }

  lemma RemovedChildKeeps(parent: Node, depth: nat, ch: char, v: string)
    requires Layered(parent, depth) && ch in parent.children
    requires v in Terms(parent.(children := parent.children - {ch}))
    ensures v in Terms(parent) && v !in Terms(parent.children[ch])
  {
    var parent' := parent.(children := parent.children - {ch});
    TermsCases(parent', v);
    TermsCases(parent, v);
    assert Branch(Terms(parent.children[ch]), depth, ch);
    if parent'.term == Some(v) {
      assert |v| == depth;
    } else {
      var c :| c in parent'.children && v in Terms(parent'.children[c]);
      assert c in parent.children && c != ch && parent.children[c] == parent'.children[c];
      assert Branch(Terms(parent.children[c]), depth, c);
    }
  }

  lemma RemovedChildLoses(parent: Node, ch: char, v: string)
    requires ch in parent.children
    requires v in Terms(parent) && v !in Terms(parent.children[ch])
    ensures v in Terms(parent.(children := parent.children - {ch}))
  {
    var parent' := parent.(children := parent.children - {ch});
    TermsCases(parent, v);
    TermsCases(parent', v);
    if parent.term != Some(v) {
      var c :| c in parent.children && v in Terms(parent.children[c]);
      assert c != ch;
      assert c in parent'.children && parent.children[c] == parent'.children[c];
    }
  }

  /** A simple path extended by an unvisited adjacent cell is still simple. */
  lemma PathExtend(b: Board, path: seq<Pos>, q: Pos)
    requires SimplePath(b, path) && |path| > 0
    requires InBounds(b, q) && Adjacent(path[|path| - 1], q) && q !in path
    ensures SimplePath(b, path + [q])
  {
    var path' := path + [q];
    assert forall k :: 0 <= k < |path| ==> path'[k] == path[k];
  }

  /** Marking the next cell extends the marked path by it. */
  lemma MarkOnPath(b: Board, g: Grid, path: seq<Pos>, p: Pos)
    requires Boards.Valid(b) && OnPathExactly(b, g, path) && InBounds(b, p)
    ensures OnPathExactly(b, Put(g, p, OnPath), path + [p])
  {
    var g' := Put(g, p, OnPath);
    forall q | InBounds(b, q)
      ensures At(g', q) == if q in path + [p] then OnPath else At(b.grid, q)
    {
      assert q in path + [p] <==> q in path || q == p;
    }
  }

  lemma SpellExtend(b: Board, path: seq<Pos>, p: Pos)
    requires Boards.Valid(b) && SimplePath(b, path + [p])
    ensures forall k :: 0 <= k < |path| ==> InBounds(b, path[k])
    ensures InBounds(b, p)
    ensures Spell(b, path + [p]) == Spell(b, path) + [At(b.grid, p)]
  {
    assert forall k :: 0 <= k < |path| ==> (path + [p])[k] == path[k];
    assert (path + [p])[|path|] == p;
  }

  /**
   The inner dfs from `p`, entered with the cells of `path` marked and a trie
   node reached by spelling them, is one stretch of the walk (see Harvest) and
   only shrinks the node it is given.
   */
  lemma {:induction false} DfsFacts(s: Config, prune: bool, p: Pos, parent: Node, g: Grid, words: seq<string>, path: seq<Pos>)
    requires Boards.Valid(s.board) && Clean(s.board.grid, OnPath)
    requires SimplePath(s.board, path + [p]) && InBounds(s.board, p)
    requires OnPathExactly(s.board, g, path)
    requires At(g, p) != OnPath && At(g, p) in parent.children
    requires forall k :: 0 <= k < |path| ==> InBounds(s.board, path[k])
    requires ValidFrom(parent, Spell(s.board, path))
    ensures Shrunk(Dfs(s, prune, p, parent, g, words).node, parent, prune)
    ensures Harvest(s, parent, Dfs(s, prune, p, parent, g, words).node, words, Dfs(s, prune, p, parent, g, words).words)
    decreases Unmarked(g), 1
  {
    var b := s.board;
    var ch := At(g, p);
    var cur := parent.children[ch];
    var pre := Spell(b, path);
    var path' := path + [p];
    SpellExtend(b, path, p);
    assert p !in path by {
      assert forall k :: 0 <= k < |path| ==> path'[k] == path[k];
      assert path'[|path|] == p;
    }
    assert ch == At(b.grid, p);
    assert ValidFrom(cur, pre + [ch]);
    HarvestPop(s, cur, path', words, prune);
    var popped := cur.(term := None);
    var words1 := Report(cur, s.minlen, words);
    MarkCell(g, p);
    var g1 := Put(g, p, OnPath);
    MarkOnPath(b, g, path, p);
    var ns := Neighbors(b, p);
    assert forall m :: 0 <= m < |ns| ==> ns[m] in ns;
    DfsNeighborsFacts(s, prune, ns, 0, popped, g1, words1, path');
    var r := DfsNeighbors(s, prune, ns, 0, popped, g1, words1);
    ShrunkTrans(r.node, popped, cur, prune);
    ShrunkTerms(r.node, popped, prune);
    HarvestCompose(s, cur, popped, r.node, words, words1, r.words);
    var parent' := Reattach(prune, parent, ch, r.node);
    ReplaceChild(parent, pre, ch, r.node, prune, parent');
    HarvestLift(s, parent, ch, r.node, parent', words, r.words);
    assert Dfs(s, prune, p, parent, g, words) == Walk(parent', Put(r.grid, p, ch), r.words);
  }

  /** The neighbour loop over `ns[k..]`, from the last cell of `path`, is one stretch of the walk and only shrinks `cur`. */
  lemma {:induction false} DfsNeighborsFacts(s: Config, prune: bool, ns: seq<Pos>, k: nat, cur: Node, g: Grid,
                                            words: seq<string>, path: seq<Pos>)
    requires Boards.Valid(s.board) && Clean(s.board.grid, OnPath)
    requires SimplePath(s.board, path) && |path| > 0
    requires OnPathExactly(s.board, g, path)
    requires k <= |ns|
    requires forall m :: 0 <= m < |ns| ==> InBounds(s.board, ns[m])
    requires forall q :: q in ns ==> Adjacent(path[|path| - 1], q)
    requires ValidFrom(cur, Spell(s.board, path))
    ensures Shrunk(DfsNeighbors(s, prune, ns, k, cur, g, words).node, cur, prune)
    ensures Harvest(s, cur, DfsNeighbors(s, prune, ns, k, cur, g, words).node, words, DfsNeighbors(s, prune, ns, k, cur, g, words).words)
    decreases Unmarked(g) + 1, 0, |ns| - k
  {
    if k == |ns| {
      ShrunkRefl(cur, prune);
      HarvestRefl(s, cur, words);
    } else {
      var q := ns[k];
      assert InBounds(s.board, q) && q in ns;
      if At(g, q) == OnPath || At(g, q) !in cur.children {
        DfsNeighborsFacts(s, prune, ns, k + 1, cur, g, words, path);
      } else {
        assert q !in path;
        PathExtend(s.board, path, q);
        DfsFacts(s, prune, q, cur, g, words, path);
        var r := Dfs(s, prune, q, cur, g, words);
        ShrunkValid(r.node, cur, prune, Spell(s.board, path));
        DfsNeighborsFacts(s, prune, ns, k + 1, r.node, r.grid, r.words, path);
        var r2 := DfsNeighbors(s, prune, ns, k + 1, r.node, r.grid, r.words);
        ShrunkTrans(r2.node, r.node, cur, prune);
        ShrunkTerms(r2.node, r.node, prune);
        ShrunkTerms(r.node, cur, prune);
        HarvestCompose(s, cur, r.node, r2.node, words, r.words, r2.words);
      }
    }
  }

  // ---------------------------------------------------------------------------
  // Completeness of the walk

  /** A word longer than the prefix spelled to node `t` is stored below the child for its next character. */
  lemma DescendTerm(t: Node, pre: string, v: string)
    requires ValidFrom(t, pre) && |pre| < |v| && v in Terms(t)
    ensures v[|pre|] in t.children && v in Terms(t.children[v[|pre|]])
  {
    TermsCases(t, v);
    var c :| c in t.children && v in Terms(t.children[c]);
    ChildTermsExtend(t, pre, c);
  }

  /** Once a node's word is popped, what it still stores is longer than the prefix spelled to it. */
  lemma PoppedTermsLonger(cur: Node, pre: string)
    requires ValidFrom(cur, pre)
    ensures forall w :: w in Terms(cur.(term := None)) ==> |pre| < |w|
  {
    forall w | w in Terms(cur.(term := None))
      ensures |pre| < |w|
    {
      TermsCases(cur.(term := None), w);
      var c :| c in cur.children && w in Terms(cur.children[c]);
      ChildTermsExtend(cur, pre, c);
    }
  }

  /**
   The next cell of a continuation `ext` of the marked path is unmarked, and a
   word spelled along the continuation that `cur` still stores sits below the
   child for that cell's character: the walk does not skip it.
   */
  lemma NextStep(b: Board, g: Grid, path: seq<Pos>, ext: seq<Pos>, cur: Node)
    requires Boards.Valid(b) && Clean(b.grid, OnPath) && OnPathExactly(b, g, path)
    requires SimplePath(b, path + ext) && |ext| > 0
    requires forall k :: 0 <= k < |path| ==> InBounds(b, path[k])
    requires ValidFrom(cur, Spell(b, path))
    ensures InBounds(b, ext[0]) && At(g, ext[0]) != OnPath && ext[0] !in path
    ensures Spell(b, path + ext) in Terms(cur) ==>
              At(g, ext[0]) in cur.children && Spell(b, path + ext) in Terms(cur.children[At(g, ext[0])])
  {
    var full := path + ext;
    NextCell(b, path, ext);
    var v := Spell(b, full);
    if v in Terms(cur) {
      DescendTerm(cur, Spell(b, path), v);
    }
  }

  /** Moving the first cell of a continuation onto the path leaves the whole path unchanged. */
  lemma ShiftPath(path: seq<Pos>, ext: seq<Pos>)
    requires |ext| > 0
    ensures path + ext == (path + [ext[0]]) + ext[1..]
  {
    assert ext == [ext[0]] + ext[1..];
  }

  /** The first cell of a continuation of a simple path is new, and its character follows the path's word. */
  lemma NextCell(b: Board, path: seq<Pos>, ext: seq<Pos>)
    requires Boards.Valid(b) && SimplePath(b, path + ext) && |ext| > 0
    ensures forall k :: 0 <= k < |path| ==> InBounds(b, path[k])
    ensures InBounds(b, ext[0]) && ext[0] !in path
    ensures |path| < |Spell(b, path + ext)| && Spell(b, path + ext)[|path|] == At(b.grid, ext[0])
  {
    var full := path + ext;
    assert full[|path|] == ext[0];
    assert forall k :: 0 <= k < |path| ==> full[k] == path[k];
  }

  /** A node stores no more words than before, so a cleared cell stays cleared. */
  ghost predicate Cleared(b: Board, t: Node, q: Pos)
    requires Boards.Valid(b)
  {
    forall ext :: SimplePath(b, ext) && |ext| > 0 && ext[0] == q ==> Spell(b, ext) !in Terms(t)
  }

  lemma ClearedShrinks(b: Board, t: Node, t': Node, q: Pos)
    requires Boards.Valid(b) && Cleared(b, t, q) && Terms(t') <= Terms(t)
    ensures Cleared(b, t', q)
  {
  }

  /**
   After the inner dfs at `p`, no word spelled along a simple continuation of
   the marked path through `p` is still stored: the walk reached it and popped it.
   */
  lemma {:induction false} DfsComplete(s: Config, prune: bool, p: Pos, parent: Node, g: Grid, words: seq<string>,
                                      path: seq<Pos>, ext: seq<Pos>)
    requires Boards.Valid(s.board) && Clean(s.board.grid, OnPath)
    requires SimplePath(s.board, path + [p]) && InBounds(s.board, p)
    requires OnPathExactly(s.board, g, path)
    requires At(g, p) != OnPath && At(g, p) in parent.children
    requires forall k :: 0 <= k < |path| ==> InBounds(s.board, path[k])
    requires ValidFrom(parent, Spell(s.board, path))
    requires |ext| > 0 && ext[0] == p && SimplePath(s.board, path + ext)
    ensures Spell(s.board, path + ext) !in Terms(Dfs(s, prune, p, parent, g, words).node)
    decreases Unmarked(g), 1
  {
    var b := s.board;
    var ch := At(g, p);
    var cur := parent.children[ch];
    var pre := Spell(b, path);
    var v := Spell(b, path + ext);
    SpellExtend(b, path, p);
    NextStep(b, g, path, ext, parent);
    assert ValidFrom(cur, pre + [ch]);
    var r := DfsNeighbors(s, prune, Neighbors(b, p), 0, cur.(term := None), Put(g, p, OnPath), Report(cur, s.minlen, words));
    DescendComplete(s, prune, p, cur, g, words, path, ext);
    LiftComplete(parent, pre, ch, r.node, prune, v);
    assert Dfs(s, prune, p, parent, g, words) == Walk(Reattach(prune, parent, ch, r.node), Put(r.grid, p, ch), r.words);
  }

  /** The part of DfsComplete below the child: after the pop, the mark and the neighbour loop, the word has left the child. */
  lemma {:induction false} DescendComplete(s: Config, prune: bool, p: Pos, cur: Node, g: Grid, words: seq<string>,
                                          path: seq<Pos>, ext: seq<Pos>)
    requires Boards.Valid(s.board) && Clean(s.board.grid, OnPath)
    requires SimplePath(s.board, path + [p]) && InBounds(s.board, p)
    requires OnPathExactly(s.board, g, path) && At(g, p) != OnPath
    requires forall k :: 0 <= k < |path| ==> InBounds(s.board, path[k])
    requires ValidFrom(cur, Spell(s.board, path) + [At(g, p)])
    requires |ext| > 0 && ext[0] == p && SimplePath(s.board, path + ext)
    ensures Shrunk(DfsNeighbors(s, prune, Neighbors(s.board, p), 0, cur.(term := None), Put(g, p, OnPath), Report(cur, s.minlen, words)).node,
                   cur, prune)
    ensures Spell(s.board, path + ext) !in
              Terms(DfsNeighbors(s, prune, Neighbors(s.board, p), 0, cur.(term := None), Put(g, p, OnPath), Report(cur, s.minlen, words)).node)
    decreases Unmarked(g), 0, 10
  {
    var b := s.board;
    var path' := path + [p];
    var popped := cur.(term := None);
    var words1 := Report(cur, s.minlen, words);
    var g1 := Put(g, p, OnPath);
    SpellExtend(b, path, p);
    assert p !in path by {
      assert forall k :: 0 <= k < |path| ==> path'[k] == path[k];
      assert path'[|path|] == p;
    }
    assert At(g, p) == At(b.grid, p);
    HarvestPop(s, cur, path', words, prune);
    MarkCell(g, p);
    MarkOnPath(b, g, path, p);
    var ns := Neighbors(b, p);
    assert forall m :: 0 <= m < |ns| ==> ns[m] in ns;
    DfsNeighborsFacts(s, prune, ns, 0, popped, g1, words1, path');
    var r := DfsNeighbors(s, prune, ns, 0, popped, g1, words1);
    ShiftPath(path, ext);
    PopComplete(s, prune, p, popped, g1, words1, path', ext[1..]);
    ShrunkTrans(r.node, popped, cur, prune);
  }

  /** A word the child `ch` no longer stores, and that only that child could store, has left the parent once the child is put back. */
  lemma LiftComplete(parent: Node, pre: string, ch: char, node: Node, prune: bool, v: string)
    requires ValidFrom(parent, pre) && ch in parent.children
    requires Shrunk(node, parent.children[ch], prune)
    requires v !in Terms(node)
    requires v in Terms(parent) ==> v in Terms(parent.children[ch])
    ensures v !in Terms(Reattach(prune, parent, ch, node))
  {
    var parent' := Reattach(prune, parent, ch, node);
    if prune && node.children == map[] && node.term == None {
      assert parent' == parent.(children := parent.children - {ch});
    } else {
      assert parent' == parent.(children := parent.children[ch := node]);
    }
    ReplaceChild(parent, pre, ch, node, prune, parent');
  }

  /**
   After popping at `p`, the last cell of the marked path, the neighbour loop
   leaves stored no word spelled along the path and a simple continuation of it.
   */
  lemma {:induction false} PopComplete(s: Config, prune: bool, p: Pos, popped: Node, g: Grid, words: seq<string>,
                                      path: seq<Pos>, ext: seq<Pos>)
    requires Boards.Valid(s.board) && Clean(s.board.grid, OnPath)
    requires SimplePath(s.board, path) && |path| > 0 && path[|path| - 1] == p
    requires OnPathExactly(s.board, g, path)
    requires ValidFrom(popped, Spell(s.board, path)) && popped.term == None
    requires SimplePath(s.board, path + ext)
    ensures Spell(s.board, path + ext) !in Terms(DfsNeighbors(s, prune, Neighbors(s.board, p), 0, popped, g, words).node)
    decreases Unmarked(g) + 1, 0, |Neighbors(s.board, p)| + 1
  {
    var b := s.board;
    var ns := Neighbors(b, p);
    assert forall m :: 0 <= m < |ns| ==> ns[m] in ns;
    DfsNeighborsFacts(s, prune, ns, 0, popped, g, words, path);
    var r := DfsNeighbors(s, prune, ns, 0, popped, g, words);
    ShrunkTerms(r.node, popped, prune);
    if |ext| == 0 {
      assert path + ext == path;
      assert popped == popped.(term := None);
      PoppedTermsLonger(popped, Spell(b, path));
    } else {
      var full := path + ext;
      assert full[|path| - 1] == p && full[|path|] == ext[0];
      assert ext[0] in ns[0..];
      DfsNeighborsComplete(s, prune, ns, 0, popped, g, words, path, ext);
    }
  }

  /**
   The neighbour loop over `ns[k..]` leaves stored no word spelled along a
   simple continuation of the marked path whose next cell is still ahead in `ns`.
   */
  lemma {:induction false} DfsNeighborsComplete(s: Config, prune: bool, ns: seq<Pos>, k: nat, cur: Node, g: Grid,
                                               words: seq<string>, path: seq<Pos>, ext: seq<Pos>)
    requires Boards.Valid(s.board) && Clean(s.board.grid, OnPath)
    requires SimplePath(s.board, path) && |path| > 0
    requires OnPathExactly(s.board, g, path)
    requires k <= |ns|
    requires forall m :: 0 <= m < |ns| ==> InBounds(s.board, ns[m])
    requires forall q :: q in ns ==> Adjacent(path[|path| - 1], q)
    requires ValidFrom(cur, Spell(s.board, path))
    requires |ext| > 0 && SimplePath(s.board, path + ext)
    requires ext[0] in ns[k..] || Spell(s.board, path + ext) !in Terms(cur)
    ensures Spell(s.board, path + ext) !in Terms(DfsNeighbors(s, prune, ns, k, cur, g, words).node)
    decreases Unmarked(g) + 1, 0, |ns| - k
  {
    var b := s.board;
    DfsNeighborsFacts(s, prune, ns, k, cur, g, words, path);
    ShrunkTerms(DfsNeighbors(s, prune, ns, k, cur, g, words).node, cur, prune);
    if k < |ns| {
      var q := ns[k];
      assert InBounds(b, q) && q in ns;
      assert ns[k..] == [q] + ns[k + 1..];
      NextStep(b, g, path, ext, cur);
      if At(g, q) == OnPath || At(g, q) !in cur.children {
        DfsNeighborsComplete(s, prune, ns, k + 1, cur, g, words, path, ext);
      } else {
        assert q !in path;
        PathExtend(b, path, q);
        DfsFacts(s, prune, q, cur, g, words, path);
        var r := Dfs(s, prune, q, cur, g, words);
        ShrunkValid(r.node, cur, prune, Spell(b, path));
        ShrunkTerms(r.node, cur, prune);
        if q == ext[0] {
          DfsComplete(s, prune, q, cur, g, words, path, ext);
        }
        DfsNeighborsComplete(s, prune, ns, k + 1, r.node, r.grid, r.words, path, ext);
      }
    }
  }

  // ---------------------------------------------------------------------------
  // The two strategies

  /** One step of trie_solve's outer loop: run the inner dfs from `p` when its character is a child of the root. */
  function StartAt(s: Config, prune: bool, p: Pos, root: Node, words: seq<string>): (r: Walk)
    requires Boards.Valid(s.board) && Clean(s.board.grid, OnPath) && InBounds(s.board, p)
    ensures r.grid == s.board.grid
    ensures |words| <= |r.words| && r.words[..|words|] == words
  {
    if At(s.board.grid, p) in root.children then Dfs(s, prune, p, root, s.board.grid, words)
    else Walk(root, s.board.grid, words)
  }

  /**
   A step of the outer loop is a stretch of the walk (see Harvest), keeps the
   trie invariant, and clears `p`: no word spelled along a simple path from `p`
   is stored any more.
   */
  lemma StartAtFacts(s: Config, prune: bool, p: Pos, trie: Node, root: Node, words: seq<string>)
    requires Boards.Valid(s.board) && Clean(s.board.grid, OnPath) && InBounds(s.board, p)
    requires Tries.Valid(root) && Shrunk(root, trie, prune) && Harvest(s, trie, root, [], words)
    requires Terms(root) <= Terms(trie)
    ensures Tries.Valid(StartAt(s, prune, p, root, words).node)
    ensures Shrunk(StartAt(s, prune, p, root, words).node, trie, prune)
    ensures Terms(StartAt(s, prune, p, root, words).node) <= Terms(root)
    ensures Harvest(s, trie, StartAt(s, prune, p, root, words).node, [], StartAt(s, prune, p, root, words).words)
    ensures Cleared(s.board, StartAt(s, prune, p, root, words).node, p)
  {
    var b := s.board;
    if At(b.grid, p) in root.children {
      StartAtDfs(s, prune, p, trie, root, words);
    } else {
      assert OnPathExactly(b, b.grid, []);
      forall ext | SimplePath(b, ext) && |ext| > 0 && ext[0] == p
        ensures Spell(b, ext) !in Terms(root)
      {
        assert [] + ext == ext;
        NextStep(b, b.grid, [], ext, root);
      }
    }
  }

  /** StartAtFacts when the cell's character is a child of the root, so the inner dfs runs. */
  lemma StartAtDfs(s: Config, prune: bool, p: Pos, trie: Node, root: Node, words: seq<string>)
    requires Boards.Valid(s.board) && Clean(s.board.grid, OnPath) && InBounds(s.board, p)
    requires Tries.Valid(root) && Shrunk(root, trie, prune) && Harvest(s, trie, root, [], words)
    requires Terms(root) <= Terms(trie)
    requires At(s.board.grid, p) in root.children
    ensures Tries.Valid(Dfs(s, prune, p, root, s.board.grid, words).node)
    ensures Shrunk(Dfs(s, prune, p, root, s.board.grid, words).node, trie, prune)
    ensures Terms(Dfs(s, prune, p, root, s.board.grid, words).node) <= Terms(root)
    ensures Harvest(s, trie, Dfs(s, prune, p, root, s.board.grid, words).node, [], Dfs(s, prune, p, root, s.board.grid, words).words)
    ensures Cleared(s.board, Dfs(s, prune, p, root, s.board.grid, words).node, p)
  {
    var b := s.board;
    var grid := b.grid;
    assert OnPathExactly(b, grid, []);
    assert SimplePath(b, [] + [p]);
    DfsFacts(s, prune, p, root, grid, words, []);
    var r := Dfs(s, prune, p, root, grid, words);
    ShrunkTerms(r.node, root, prune);
    HarvestCompose(s, trie, root, r.node, [], words, r.words);
    ShrunkTrans(r.node, root, trie, prune);
    ShrunkValid(r.node, root, prune, []);
    StartCleared(s, prune, p, root, words);
  }

  /** The inner dfs from a start cell clears it. */
  lemma StartCleared(s: Config, prune: bool, p: Pos, root: Node, words: seq<string>)
    requires Boards.Valid(s.board) && Clean(s.board.grid, OnPath) && InBounds(s.board, p)
    requires Tries.Valid(root) && At(s.board.grid, p) in root.children
    ensures Cleared(s.board, Dfs(s, prune, p, root, s.board.grid, words).node, p)
  {
    var b := s.board;
    assert OnPathExactly(b, b.grid, []);
    assert SimplePath(b, [] + [p]);
    forall ext | SimplePath(b, ext) && |ext| > 0 && ext[0] == p
      ensures Spell(b, ext) !in Terms(Dfs(s, prune, p, root, b.grid, words).node)
    {
      assert [] + ext == ext;
      DfsComplete(s, prune, p, root, b.grid, words, [], ext);
    }
  }

  /** Once every cell is cleared, no stored non-empty word spelled on the board is left. */
  lemma AllCleared(b: Board, t: Node)
    requires Boards.Valid(b)
    requires forall q :: InBounds(b, q) ==> Cleared(b, t, q)
    ensures forall v :: |v| > 0 && Occurs(b, v) ==> v !in Terms(t)
  {
    forall v | |v| > 0 && Occurs(b, v)
      ensures v !in Terms(t)
    {
      var path :| |path| == |v| && SpellsOn(b, b.grid, path, v);
      assert Spell(b, path) == v;
      assert Cleared(b, t, path[0]);
    }
  }

  /**
   The state of trie_solve's outer loop before cell (row, col): the walk so far
   is one stretch from the original trie, and every earlier cell, in row-major
   order, is cleared.
   */
  ghost predicate Sweep(s: Config, prune: bool, trie: Node, root: Node, words: seq<string>, row: int, col: int)
    requires Boards.Valid(s.board)
  {
    Shrunk(root, trie, prune) && Tries.Valid(root) && Terms(root) <= Terms(trie) &&
    Harvest(s, trie, root, [], words) &&
    forall q :: InBounds(s.board, q) && (q.row < row || (q.row == row && q.col < col)) ==> Cleared(s.board, root, q)
  }

  lemma SweepStart(s: Config, prune: bool, trie: Node)
    requires Boards.Valid(s.board) && Tries.Valid(trie)
    ensures Sweep(s, prune, trie, trie, [], 0, 0)
  {
    ShrunkRefl(trie, prune);
    HarvestRefl(s, trie, []);
  }

  lemma SweepStep(s: Config, prune: bool, trie: Node, root: Node, words: seq<string>, row: int, col: int)
    requires Boards.Valid(s.board) && Clean(s.board.grid, OnPath) && InBounds(s.board, Pos(row, col))
    requires Sweep(s, prune, trie, root, words, row, col)
    ensures Sweep(s, prune, trie, StartAt(s, prune, Pos(row, col), root, words).node,
                  StartAt(s, prune, Pos(row, col), root, words).words, row, col + 1)
  {
    var b := s.board;
    StartAtFacts(s, prune, Pos(row, col), trie, root, words);
    var r := StartAt(s, prune, Pos(row, col), root, words);
    forall q | InBounds(b, q) && (q.row < row || (q.row == row && q.col < col))
      ensures Cleared(b, r.node, q)
    {
      ClearedShrinks(b, root, r.node, q);
    }
  }

  lemma SweepRow(s: Config, prune: bool, trie: Node, root: Node, words: seq<string>, row: int)
    requires Boards.Valid(s.board) && Sweep(s, prune, trie, root, words, row, s.board.cols)
    ensures Sweep(s, prune, trie, root, words, row + 1, 0)
  {
  }

  /** What trie_solve's outer loop promises once every cell is swept. */
  lemma SweepDone(s: Config, prune: bool, trie: Node, root: Node, words: seq<string>)
    requires Boards.Valid(s.board) && Tries.Valid(trie)
    requires Sweep(s, prune, trie, root, words, s.board.rows, 0)
    ensures forall v :: v in words <==> WordExists(trie, v) && Reportable(v, s.minlen) && Occurs(s.board, v)
    ensures forall k, l :: 0 <= k < l < |words| ==> words[k] != words[l]
    ensures Shrunk(root, trie, prune)
    ensures forall v :: v in words <==> v in Terms(trie) && v !in Terms(root) && Reportable(v, s.minlen)
    ensures forall v :: v in Terms(trie) && |v| > 0 && Occurs(s.board, v) ==> v !in Terms(root)
    ensures forall v :: v in Terms(trie) && v !in Terms(root) ==> Occurs(s.board, v)
  {
    TermsAreWords(trie);
    AllCleared(s.board, root);
    assert words[0..] == words;
  }

  /**
   Solver.trie_solve: start the inner dfs at every cell, in row-major order,
   whose character is a child of the root, threading trie, grid and words.
   Returns the words found, the trie as the walk left it, and the grid.
   */
  method TrieSolve(s: Config, trie: Node, prune: bool := true) returns (words: seq<string>, root: Node, grid: Grid)
    requires Boards.Valid(s.board) && Clean(s.board.grid, OnPath)
    requires Tries.Valid(trie)
    ensures grid == s.board.grid
    ensures forall v :: v in words <==> WordExists(trie, v) && Reportable(v, s.minlen) && Occurs(s.board, v)
    ensures forall k, l :: 0 <= k < l < |words| ==> words[k] != words[l]
    ensures Shrunk(root, trie, prune)
    ensures forall v :: v in words <==> v in Terms(trie) && v !in Terms(root) && Reportable(v, s.minlen)
    ensures forall v :: v in Terms(trie) && |v| > 0 && Occurs(s.board, v) ==> v !in Terms(root)
    ensures forall v :: v in Terms(trie) && v !in Terms(root) ==> Occurs(s.board, v)
  {
    var b := s.board;
    words, root, grid := [], trie, b.grid;
    SweepStart(s, prune, trie);
    var row := 0;
    while row < b.rows
      invariant 0 <= row <= b.rows
      invariant grid == b.grid
      invariant Sweep(s, prune, trie, root, words, row, 0)
    {
      var col := 0;
      while col < b.cols
        invariant 0 <= col <= b.cols
        invariant grid == b.grid
        invariant Sweep(s, prune, trie, root, words, row, col)
      {
        SweepStep(s, prune, trie, root, words, row, col);
        var r := StartAt(s, prune, Pos(row, col), root, words);
        root, grid, words := r.node, r.grid, r.words;
        col := col + 1;
      }
      SweepRow(s, prune, trie, root, words, row);
      row := row + 1;
    }
    SweepDone(s, prune, trie, root, words);
  }

  /** The words of the list naive_solve keeps: long enough, and found by Board.word_exist. */
  predicate Accepts(s: Config, v: Variant, w: string)
    requires Boards.Valid(s.board)
  {
    |w| >= s.minlen && |w| > 0 && WordExist(s.board, v, w)
  }

  /**
   Solver.naive_solve: keep, in list order and with repetitions, the words of
   `wordlist` that are long enough and that Board.word_exist finds. A word that
   passes the length filter must be non-empty, since word_exist reads word[0].
   */
  function NaiveSolve(s: Config, v: Variant, wordlist: seq<string>): (found: seq<string>)
    requires Boards.Valid(s.board)
    requires forall w :: w in wordlist ==> |w| > 0 || |w| < s.minlen
    ensures |found| <= |wordlist|
  {
    if |wordlist| == 0 then []
    else
      assert wordlist == [wordlist[0]] + wordlist[1..];
      Keep(s, v, wordlist[0]) + NaiveSolve(s, v, wordlist[1..])
  }

  /** naive_solve reports exactly the list words that are long enough and that word_exist accepts. */
  lemma {:induction false} NaiveSolveMembers(s: Config, v: Variant, wordlist: seq<string>)
    requires Boards.Valid(s.board)
    requires forall w :: w in wordlist ==> |w| > 0 || |w| < s.minlen
    ensures forall w :: w in NaiveSolve(s, v, wordlist) <==> w in wordlist && Accepts(s, v, w)
  {
    if |wordlist| > 0 {
      var rest := wordlist[1..];
      assert wordlist == [wordlist[0]] + rest;
      NaiveSolveMembers(s, v, rest);
    }
  }

  /** naive_solve keeps each accepted word as often as the list holds it, and drops every other word. */
  lemma {:induction false} NaiveSolveCounts(s: Config, v: Variant, wordlist: seq<string>)
    requires Boards.Valid(s.board)
    requires forall w :: w in wordlist ==> |w| > 0 || |w| < s.minlen
    ensures forall w :: multiset(NaiveSolve(s, v, wordlist))[w] == if w in wordlist && Accepts(s, v, w) then multiset(wordlist)[w] else 0
  {
    if |wordlist| > 0 {
      NaiveSolveSplit(s, v, wordlist);
      NaiveSolveCounts(s, v, wordlist[1..]);
    }
  }

  /** The multisets of a non-empty list and of its naive_solve result, split at the first word. */
  lemma NaiveSolveSplit(s: Config, v: Variant, wordlist: seq<string>)
    requires Boards.Valid(s.board) && |wordlist| > 0
    requires forall w :: w in wordlist ==> |w| > 0 || |w| < s.minlen
    ensures forall w :: w in wordlist[1..] ==> |w| > 0 || |w| < s.minlen
    ensures multiset(NaiveSolve(s, v, wordlist)) == multiset(Keep(s, v, wordlist[0])) + multiset(NaiveSolve(s, v, wordlist[1..]))
    ensures multiset(wordlist) == multiset([wordlist[0]]) + multiset(wordlist[1..])
    ensures forall w :: w in wordlist <==> w == wordlist[0] || w in wordlist[1..]
  {
    assert wordlist == [wordlist[0]] + wordlist[1..];
  }

  /** One iteration of naive_solve's loop: the word, if it passes both tests, else nothing. */
  function Keep(s: Config, v: Variant, w: string): (kept: seq<string>)
    requires Boards.Valid(s.board) && (|w| > 0 || |w| < s.minlen)
  {
    if |w| >= s.minlen && WordExist(s.board, v, w) then [w] else []
  }

  /** naive_solve keeps list order: it maps a concatenation to the concatenation of the results. */
  lemma {:induction false} NaiveSolveAppend(s: Config, v: Variant, a: seq<string>, c: seq<string>)
    requires Boards.Valid(s.board)
    requires forall w :: w in a ==> |w| > 0 || |w| < s.minlen
    requires forall w :: w in c ==> |w| > 0 || |w| < s.minlen
    ensures NaiveSolve(s, v, a + c) == NaiveSolve(s, v, a) + NaiveSolve(s, v, c)
    decreases |a|
  {
    if |a| > 0 {
      NaiveSolveHead(s, v, a, c);
      NaiveSolveAppend(s, v, a[1..], c);
    } else {
      assert a + c == c;
    }
  }

  /** Unfolding naive_solve on a concatenation whose first part is non-empty. */
  lemma NaiveSolveHead(s: Config, v: Variant, a: seq<string>, c: seq<string>)
    requires Boards.Valid(s.board) && |a| > 0
    requires forall w :: w in a ==> |w| > 0 || |w| < s.minlen
    requires forall w :: w in c ==> |w| > 0 || |w| < s.minlen
    ensures forall w :: w in a[1..] ==> |w| > 0 || |w| < s.minlen
    ensures NaiveSolve(s, v, a + c) == Keep(s, v, a[0]) + NaiveSolve(s, v, a[1..] + c)
    ensures NaiveSolve(s, v, a) == Keep(s, v, a[0]) + NaiveSolve(s, v, a[1..])
  {
    assert a[0] in a;
    assert forall w :: w in a[1..] ==> w in a;
    assert (a + c)[0] == a[0] && (a + c)[1..] == a[1..] + c;
  }

  /** Every word naive_solve reports is long enough and spelled on the board by a simple path. */
  lemma NaiveSolveSound(s: Config, v: Variant, wordlist: seq<string>)
    requires Boards.Valid(s.board) && Clean(s.board.grid, Visited)
    requires forall w :: w in wordlist ==> (|w| > 0 || |w| < s.minlen) && Visited !in w
    ensures forall w :: w in NaiveSolve(s, v, wordlist) ==> |w| >= s.minlen && Occurs(s.board, w)
  {
    forall w | w in NaiveSolve(s, v, wordlist)
      ensures |w| >= s.minlen && Occurs(s.board, w)
    {
      NaiveSolveMembers(s, v, wordlist);
      WordExistSound(s.board, v, w);
    }
  }

  /** With the corrected search, naive_solve keeps exactly the long enough list words spelled on the board. */
  lemma NaiveSolveCorrectedExact(s: Config, wordlist: seq<string>)
    requires Boards.Valid(s.board) && Clean(s.board.grid, Visited)
    requires forall w :: w in wordlist ==> (|w| > 0 || |w| < s.minlen) && Visited !in w
    ensures forall w :: w in NaiveSolve(s, Corrected, wordlist) <==> w in wordlist && |w| >= s.minlen && |w| > 0 && Occurs(s.board, w)
  {
    NaiveSolveMembers(s, Corrected, wordlist);
    forall w | w in wordlist && |w| >= s.minlen && |w| > 0
      ensures WordExist(s.board, Corrected, w) <==> Occurs(s.board, w)
    {
      CorrectedExact(s.board, w);
    }
  }
}
