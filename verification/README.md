# Word grid solver, modelled in Dafny

This project models the core of a Boggle-style word search. A rectangular grid of
letters and a dictionary are given. The goal is to find every dictionary word that
can be traced through 8-adjacent cells, using each cell at most once per word.
The core has three parts, each in its own module:

- `Tries` (`tries.dfy`, from `trie.py`). The dictionary as a prefix tree. A node
  maps characters to child nodes. It optionally holds the complete word that ends
  at it, which the source keeps under the key `'$'`. Covered here: insertion, the
  exact-word lookup, the invariant that a node stores only the word spelling its
  path, and the "shrinking" relation that the solver's walk keeps.
- `Boards` (`boards.dfy`, from `board.py`). The grid, its bounds-checked
  8-neighbourhood in the source's fixed order, and the naive per-word search.
  That search is `backtrack` plus `word_exist`, which marks visited cells with
  `'#'` on a scratch copy.
- `Solver` (`solver.py`). The two strategies:
  - `trie_solve`: a joint depth-first walk of grid and trie. It pops each word
    it reaches, marks the current path with `'$'`, restores every cell, and with
    `prune` removes trie branches that have become empty.
  - `naive_solve`: filters a word list through `word_exist`.

`optional.dfy` holds the `Option` type the trie nodes use.

Mutation is modelled functionally. The grid is a `seq<seq<char>>` that each
search threads through and returns. The trie is an immutable `Node` that the
walk rebuilds. The inner `dfs` of `trie_solve` becomes `Solver.Dfs`, with its
neighbour loop as `Solver.DfsNeighbors`. The two are mutually recursive and
terminate because the number of cells not marked `'$'` shrinks on every
descent.

Where each source function is modelled:

- `trie.py`: `insert_word` is `Tries.Insert`, with its walk as `Tries.InsertAt`.
  `word_exists` is `Tries.WordExists`, with its walk as `Tries.Lookup`.
- `board.py`: `__init__` is `Boards.FromRows` and `neighbors` is `Boards.Neighbors`.
  `backtrack` is `Boards.Backtrack`, with its neighbour loop as
  `Boards.BacktrackNeighbors`. `word_exist` is `Boards.WordExist`, with its
  row-major loop as `Boards.Scan`.
- `solver.py`: `__init__` is `Solver.NewSolver` and `trie_solve` is
  `Solver.TrieSolve`; both keep the source's defaults, minlen 3 and prune on.
  `naive_solve` is `Solver.NaiveSolve`.

The naive search is modelled twice, selected by `Boards.Variant`:

- `AsWritten` is `board.py` exactly. Its success case for an empty suffix is
  reached one call past the last letter. So the last letter must have a
  neighbour not marked `'#'`, and some spelled words are missed (see Findings).
- `Corrected` also succeeds as soon as the last letter matches.

`Boards.WordExistExact` characterises both variants: `AsWritten` accepts exactly
the words spelled by a simple path with one spare unmarked cell after the last
letter. The model states no equivalence between the naive and the trie strategy,
because as written they differ.

`trie.py` has no prefix query; none is modelled.

## Model

| member | source | states |
|---|---|---|
| Tries.Empty | trie.py:17-19 | a fresh trie stores no word and answers false to every query |
| Tries.Insert | trie.py:21-31 | after inserting w, w exists; every other word's stored terminal, and so its answer, is unchanged |
| Tries.InsertAtTerms | trie.py:28-31 | walking the rest of w from a node and storing w there changes the terminal at the end of that walk and nothing else |
| Tries.InsertIdempotent | trie.py:28-31 | inserting a word twice gives the same trie as inserting it once |
| Tries.InsertAtIdempotent | trie.py:28-31 | storing a word twice along the same remaining walk is storing it once |
| Tries.BuildExact | trie.py:21-31 | after inserting a list of words, a word exists exactly when it is in the list, and its stored terminal is itself |
| Tries.MissingChildRejects | trie.py:40-44 | if some character of w has no child entry, the walk fails and w does not exist |
| Tries.NoTermRejects | trie.py:46-49 | a walk that ends at a node without a terminal (e.g. a prefix never inserted) answers false |
| Tries.LookupSplit | trie.py:40-44 | walking u then v is walking u and continuing from the node reached |
| Tries.ValidEmpty | trie.py:17-19 | the empty trie satisfies the invariant that a node stores only the word spelling its path |
| Tries.InsertValid | trie.py:28-31 | inserting a word keeps that invariant |
| Tries.BuildValid | trie.py:21-31 | a trie built from words keeps that invariant |
| Tries.TermsExtend | trie.py:28-31 | in a valid subtree below prefix pre, every stored word starts with pre |
| Tries.TermsFound | trie.py:33-49 | below prefix pre, a word is stored exactly when walking its remainder reaches a terminal equal to it |
| Tries.TermsAreWords | trie.py:33-49 | in a valid trie, the words stored anywhere are exactly the words word_exists accepts |
| Tries.ShrunkTerms | solver.py:38-60 | a trie shrunk by popping terminals and dropping empty children stores a subset of the words |
| Tries.ShrunkValid | solver.py:38-60 | shrinking keeps the trie invariant |
| Tries.ShrunkTrans | solver.py:38-60 | shrinking twice is shrinking |
| Boards.FromRows | board.py:14-16 | a rectangular non-empty grid gives a board whose rows and cols are its shape |
| Boards.PutBack | board.py:56-65 | writing back the character a marked cell held restores the grid exactly |
| Boards.Neighbors | board.py:24-36 | the neighbours of p are exactly the in-bounds cells at Chebyshev distance 1; never p, no duplicates, at most 8 |
| Boards.InteriorNeighborOrder | board.py:32-36 | away from the border all eight neighbours come back in the order W, SW, S, SE, E, NE, N, NW |
| Boards.NeighborOrder | board.py:24-36 | at every cell, border included, the neighbours come in the order of board.py's offset list, the off-board ones left out |
| Boards.SingleCellIsolated | board.py:35-36 | on a 1x1 board the cell has no neighbours |
| Boards.Backtrack | board.py:38-67 | returns the grid exactly as given; an empty suffix succeeds; a first-letter mismatch fails |
| Boards.BacktrackNeighbors | board.py:58-63 | the neighbour loop returns the grid exactly as given |
| Boards.BacktrackNeighborsSound | board.py:58-63 | when the neighbour loop succeeds, it names an unmarked neighbour at or after its position from which backtrack succeeds |
| Boards.BacktrackSound | board.py:38-67 | a successful backtrack has followed a simple unmarked path spelling the suffix, with the variant's spare cells |
| Boards.BacktrackComplete | board.py:38-67 | backtrack succeeds whenever such a path exists |
| Boards.BacktrackExact | board.py:38-67 | backtrack succeeds exactly when the suffix can be traced from the cell |
| Boards.LastCharNeedsNeighbor | board.py:49-63 | as written, a one-letter suffix succeeds exactly when it matches and some neighbour is not marked '#' |
| Boards.ScanExact | board.py:77-81 | the row-major scan succeeds exactly when some start cell at or after its position succeeds |
| Boards.WordExistExact | board.py:69-83 | word_exist accepts exactly the words spelled by a simple path with the variant's spare cells after the last letter |
| Boards.WordExistSound | board.py:69-83 | whatever word_exist accepts is spelled by |w| distinct, consecutively adjacent cells |
| Boards.CorrectedExact | board.py:49-67 | with the missing base case added, word_exist accepts exactly the words spelled by a simple path |
| Boards.WordExistNeedsFirstLetter | board.py:76-83 | word_exist fails when no cell holds the word's first letter |
| Boards.AsWrittenMissesSingleCell | board.py:49-63 | the board "x" spells "x", yet word_exist as written rejects it |
| Boards.AsWrittenMissesRow | board.py:49-63 | the row "cat" spells "cat", yet word_exist as written rejects it |
| Boards.AsWrittenMissesSquare | board.py:49-63 | the square "ca"/"ts" spells "cats", yet word_exist as written rejects it |
| Boards.SingleCellNoSpareTrail | board.py:49-63 | on the board "x" no simple path has a cell after the 'x', so the as-written success case is unreachable |
| Boards.CatRowSpells | board.py:24-36 | the cells of the row "cat", left to right, are adjacent and spell "cat" |
| Boards.SquareSpells | board.py:24-36 | on the square "ca"/"ts" the path c, a, t, s is simple and adjacent |
| Boards.SquareHasNoSpare | board.py:49-63 | on that square, any fifth cell after c, a, t, s repeats one of the four, so as written no spare cell exists |
| Solver.MarkCell | solver.py:44 | marking an unmarked cell leaves one cell fewer unmarked (the walk's termination measure) |
| Solver.Dfs | solver.py:32-60 | the inner dfs returns the grid exactly as given and only appends to the word list |
| Solver.DfsNeighbors | solver.py:46-52 | the neighbour loop returns the grid exactly as given and only appends to the word list |
| Solver.PopTerm | solver.py:38 | popping a node's word removes exactly that word from its subtree and keeps the invariant |
| Solver.HarvestPop | solver.py:38-41 | the pop reports the word only if it is non-empty and at least minlen long, and it is spelled on the board |
| Solver.ReplaceChild | solver.py:57-60 | putting the walked child back, or deleting it when pruning left it empty, shrinks the parent and drops exactly the child's lost words |
| Solver.MarkOnPath | solver.py:44 | after marking, exactly the cells of the current path carry '$' |
| Solver.DfsFacts | solver.py:32-60 | the inner dfs only shrinks the trie; every word it reports left the trie, is long enough and is spelled by a simple path; no word is reported twice; every long enough word that left is reported; every word that left, even a short one, is spelled by a simple path |
| Solver.DfsNeighborsFacts | solver.py:46-52 | the same for the neighbour loop |
| Solver.NextStep | solver.py:47-52 | the neighbour loop never skips the next cell of a simple continuation whose word the node still stores |
| Solver.DfsComplete | solver.py:32-60 | after the inner dfs at p, no word spelled along a simple continuation of the path through p is still stored |
| Solver.PopComplete | solver.py:38-52 | after the pop at p and the neighbour loop, no word spelled along the path and a simple continuation is still stored |
| Solver.DfsNeighborsComplete | solver.py:46-52 | the neighbour loop removes every such word whose next cell is still ahead in the list |
| Solver.StartAt | solver.py:73-75 | one step of the outer loop returns the grid unchanged and only appends words |
| Solver.StartAtFacts | solver.py:71-75 | one step of the outer loop is a sound stretch of the walk and leaves no word spelled from that cell stored |
| Solver.StartCleared | solver.py:73-75 | after dfs from a cell whose letter the trie holds, no word spelled by a simple path starting there is still stored |
| Solver.SweepDone | solver.py:71-77 | once every cell has been started from, the reported words are exactly the stored, long enough words spelled on the board, without duplicates |
| Solver.TrieSolve | solver.py:20-77 | returns a word exactly when the trie stores it, it is at least minlen long and non-empty, and a simple path spells it; no duplicates; grid restored; trie only shrunk, and with prune off no child removed; every stored non-empty word spelled on the board is consumed, even a short one, and every consumed word is spelled on the board, so pruning drops no unreached word |
| Solver.NaiveSolve | solver.py:79-94 | never reports more words than the list holds |
| Solver.NaiveSolveMembers | solver.py:89-94 | a word is reported exactly when the list holds it, it is at least minlen long and word_exist accepts it |
| Solver.NaiveSolveCounts | solver.py:89-94 | an accepted word is reported as often as the list repeats it, every other word never |
| Solver.NaiveSolveAppend | solver.py:89-94 | the result keeps list order: a concatenated list gives the concatenated results |
| Solver.NaiveSolveSound | solver.py:89-94 | every reported word is long enough and spelled by a simple path |
| Solver.NaiveSolveCorrectedExact | solver.py:89-94 | with the corrected search, exactly the long enough non-empty list words spelled on the board are reported |

## Left out

- main.py is not part of this model. It does file loading, argument parsing,
  random grid generation, timing and plotting.
- numpy's array construction is not modelled. That includes its failure on ragged
  rows, so `Boards.FromRows` requires a rectangular, non-empty grid.
- `__repr__` and `__str__` of the board are display helpers and are not modelled.
- Sentinel collisions are excluded by preconditions rather than modelled:
  - `Tries.Insert` requires a word free of `'$'`.
  - `Solver.TrieSolve` requires a grid with no `'$'` cell.
  - `Boards.WordExistExact` requires a grid with no `'#'` cell and a word free of `'#'`.
  - For a query containing `'$'` mid-word, `trie.py`'s `word_exists` would step
    into the stored string. The model treats `'$'` as an ordinary character and
    answers false.
- `Boards.WordExist` requires a non-empty word, since the source raises an error on
  `word[0]`. Likewise `Solver.NaiveSolve` requires every word that passes the length
  filter to be non-empty, which holds whenever minlen is at least 1.
- Side effects are returned instead:
  - `trie_solve` edits the caller's trie and the board's array in place. The
    model returns the edited trie and the grid, and proves the grid equal to the
    original.
  - `word_exist` searches a copy, which is immaterial for immutable values.
- Solver's copies of `rows` and `cols` are the board's and are not modelled
  separately. `Solver.NewSolver` takes the default minimum length 3, `Solver.DefaultMinLen`.
- The model states no equivalence between `naive_solve` and `trie_solve`,
  because as written they differ on the inputs under Findings.
- The result of `trie_solve` does not depend on `prune` (both settings
  report the same words by `Solver.TrieSolve`'s first postcondition), but the
  order of the reported words is not characterised beyond that.

## Findings

| source | as written | input that shows it | evidently intended | confidence | as-written member | corrected member |
|---|---|---|---|---|---|---|
| board.py:49-63 | `backtrack` succeeds only on reaching an empty suffix one call past the last letter, so the last letter needs a neighbour not marked '#' | board [["x"]] with word "x"; also [["c","a","t"]] with "cat" and [["c","a"],["t","s"]] with "cats" | `word_exist` accepts every word spelled by a simple path of adjacent cells | high; not executed | Boards.AsWrittenMissesSingleCell | Boards.CorrectedExact |
