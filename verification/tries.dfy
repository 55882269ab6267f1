/**
 The dictionary trie of trie.py: a prefix tree of nested maps in which a node
 keeps, beside its children, the complete word that ends at it (not a flag).
 */
module Tries {
  import opened Optional

  /** A node: one child per next character, and the word ending here, if any. */
  datatype Node = Node(children: map<char, Node>, term: Option<string>)

  /** The key under which trie.py stores a node's word, next to the child keys. */
  const Terminator: char := '$'

  /** A word that cannot collide with the terminator key. */
  predicate Storable(w: string) {
    Terminator !in w
  }

  /** The node reached by spelling `w` from `t`, or None when a character has no child. */
  function Lookup(t: Node, w: string): Option<Node>
    decreases |w|
  {
    if |w| == 0 then Some(t)
    else if w[0] in t.children then Lookup(t.children[w[0]], w[1..])
    else None
  }

  /** The word stored at the node reached by spelling `w`, if that node exists and holds one. */
  function TermAt(t: Node, w: string): Option<string> {
    match Lookup(t, w)
    case None => None
    case Some(n) => n.term
  }

  /** Trie.__init__: a root with no children and no word. */
  function Empty(): (t: Node)
    ensures forall w :: TermAt(t, w) == None
    ensures forall w :: !WordExists(t, w)
  {
    Node(map[], None)
  }

  /** Trie.word_exists: walk `w`; true only if the node reached stores `w` itself. */
  function WordExists(t: Node, w: string): bool {
    TermAt(t, w) == Some(w)
  }

  /** The walk of Trie.insert_word from `t` along `rest`, storing `w` at the end. */
  function InsertAt(t: Node, rest: string, w: string): Node
    decreases |rest|
  {
    if |rest| == 0 then t.(term := Some(w))
    else
      var child := if rest[0] in t.children then t.children[rest[0]] else Empty();
      t.(children := t.children[rest[0] := InsertAt(child, rest[1..], w)])
  }

  /** Trie.insert_word: create the missing nodes along `w` and store `w` at the last one. */
  function Insert(t: Node, w: string): (t': Node)
    requires Storable(w)
    ensures WordExists(t', w)
    ensures forall v :: v != w ==> TermAt(t', v) == TermAt(t, v)
    ensures forall v :: v != w ==> (WordExists(t', v) <==> WordExists(t, v))
  {
    InsertAtTerms(t, w, w);
    InsertAt(t, w, w)
  }

  /** Inserting `w` changes the stored word at `rest` only, and nowhere else. */
  lemma {:induction false} InsertAtTerms(t: Node, rest: string, w: string)
    ensures forall v :: TermAt(InsertAt(t, rest, w), v) == if v == rest then Some(w) else TermAt(t, v)
    decreases |rest|
  {
    var t' := InsertAt(t, rest, w);
    if |rest| > 0 {
      var c := rest[0];
      var child := if c in t.children then t.children[c] else Empty();
      InsertAtTerms(child, rest[1..], w);
      forall v
        ensures TermAt(t', v) == if v == rest then Some(w) else TermAt(t, v)
      {
        if |v| > 0 && v[0] == c {
          assert TermAt(t', v) == TermAt(InsertAt(child, rest[1..], w), v[1..]);
          assert v == rest <==> v[1..] == rest[1..] by {
            if v[1..] == rest[1..] {
              assert v == [c] + v[1..] && rest == [c] + rest[1..];
            }
          }
          if c !in t.children {
            assert TermAt(t, v) == None;
          }
        }
      }
    } else {
      forall v
        ensures TermAt(t', v) == if v == rest then Some(w) else TermAt(t, v)
      {
        if |v| > 0 {
          assert TermAt(t', v) == TermAt(t, v);
        }
      }
    }
  }

  /** Inserting a word a second time leaves the trie exactly as the first insertion left it. */
  lemma {:induction false} InsertIdempotent(t: Node, w: string)
    requires Storable(w)
    ensures Insert(Insert(t, w), w) == Insert(t, w)
  {
    InsertAtIdempotent(t, w, w);
  }

  lemma {:induction false} InsertAtIdempotent(t: Node, rest: string, w: string)
    ensures InsertAt(InsertAt(t, rest, w), rest, w) == InsertAt(t, rest, w)
    decreases |rest|
  {
    if |rest| > 0 {
      var c := rest[0];
      var child := if c in t.children then t.children[c] else Empty();
      var t1 := InsertAt(t, rest, w);
      InsertAtIdempotent(child, rest[1..], w);
      assert t1.children[c] == InsertAt(child, rest[1..], w);
      assert t1.children[c := InsertAt(t1.children[c], rest[1..], w)] == t1.children;
    }
  }

  /** The words of `ws` inserted in order by insert_word into an empty trie. */
  function Build(ws: seq<string>): Node
    requires forall w :: w in ws ==> Storable(w)
  {
    if |ws| == 0 then Empty() else Insert(Build(ws[..|ws| - 1]), ws[|ws| - 1])
  }

  /** A word is found in a built trie exactly when it was one of the inserted words. */
  lemma {:induction false} BuildExact(ws: seq<string>)
    requires forall w :: w in ws ==> Storable(w)
    ensures forall v :: TermAt(Build(ws), v) == if v in ws then Some(v) else None
    ensures forall v :: WordExists(Build(ws), v) <==> v in ws
  {
    if |ws| > 0 {
      var init := ws[..|ws| - 1];
      assert forall w :: w in init ==> w in ws;
      BuildExact(init);
      assert ws == init + [ws[|ws| - 1]];
    }
  }

  /** `word_exists` answers false once a character of the query has no child entry. */
  lemma {:induction false} MissingChildRejects(t: Node, w: string, i: nat, n: Node)
    requires i < |w|
    requires Lookup(t, w[..i]) == Some(n)
    requires w[i] !in n.children
    ensures !WordExists(t, w)
    ensures Lookup(t, w) == None
  {
    LookupSplit(t, w[..i], w[i..]);
    assert w[..i] + w[i..] == w;
  }

  /** `word_exists` answers false when the node reached holds no word, as for a prefix never inserted. */
  lemma NoTermRejects(t: Node, w: string, n: Node)
    requires Lookup(t, w) == Some(n)
    requires n.term == None
    ensures !WordExists(t, w)
  {
  }

  /** Walking `u + v` is walking `u` and then `v` from where `u` ended. */
  lemma {:induction false} LookupSplit(t: Node, u: string, v: string)
    ensures Lookup(t, u + v) == match Lookup(t, u) case None => None case Some(n) => Lookup(n, v)
    decreases |u|
  {
    if |u| > 0 {
      assert (u + v)[0] == u[0];
      assert (u + v)[1..] == u[1..] + v;
      if u[0] in t.children {
        LookupSplit(t.children[u[0]], u[1..], v);
      }
    } else {
      assert u + v == v;
    }
  }

  /** Every word stored in the subtree `t`. */
  ghost function Terms(t: Node): set<string>
    decreases t
  {
    (if t.term.Some? then {t.term.value} else {}) + (set c, v | c in t.children && v in Terms(t.children[c]) :: v)
  }

  /** A word is stored in a subtree when it is the node's own word or stored below one of its children. */
  lemma TermsCases(t: Node, v: string)
    ensures v in Terms(t) <==> t.term == Some(v) || exists c :: c in t.children && v in Terms(t.children[c])
  {
  }

  /** The trie invariant below a node reached by spelling `pre`: a node stores only the word spelling its path. */
  ghost predicate ValidFrom(t: Node, pre: string)
    decreases t
  {
    (t.term.Some? ==> t.term.value == pre) &&
    forall c :: c in t.children ==> ValidFrom(t.children[c], pre + [c])
  }

  /** The trie invariant at the root. */
  ghost predicate Valid(t: Node) {
    ValidFrom(t, [])
  }

  /** The empty trie satisfies the invariant, and every insertion keeps it. */
  lemma ValidEmpty()
    ensures Valid(Empty())
  {
  }

  lemma {:induction false} InsertValid(t: Node, w: string)
    requires Storable(w)
    requires Valid(t)
    ensures Valid(Insert(t, w))
  {
    InsertAtValid(t, [], w);
    assert [] + w == w;
  }

  lemma {:induction false} InsertAtValid(t: Node, pre: string, rest: string)
    requires ValidFrom(t, pre)
    ensures ValidFrom(InsertAt(t, rest, pre + rest), pre)
    decreases |rest|
  {
    if |rest| == 0 {
      assert pre + rest == pre;
    } else {
      var c := rest[0];
      var child := if c in t.children then t.children[c] else Empty();
      assert ValidFrom(child, pre + [c]);
      InsertAtValid(child, pre + [c], rest[1..]);
      assert (pre + [c]) + rest[1..] == pre + rest;
    }
  }

  /** A trie built from words satisfies the invariant. */
  lemma {:induction false} BuildValid(ws: seq<string>)
    requires forall w :: w in ws ==> Storable(w)
    ensures Valid(Build(ws))
  {
    if |ws| > 0 {
      var init := ws[..|ws| - 1];
      assert forall w :: w in init ==> w in ws;
      BuildValid(init);
      InsertValid(Build(init), ws[|ws| - 1]);
    }
  }

  lemma PrefixOfPrefix(v: string, pre: string, c: char)
    requires |pre| + 1 <= |v| && v[..|pre| + 1] == pre + [c]
    ensures |pre| <= |v| && v[..|pre|] == pre
  {
    assert v[..|pre|] == v[..|pre| + 1][..|pre|];
  }

  /** Below a node reached by `pre`, every stored word starts with `pre`. */
  lemma {:induction false} TermsExtend(t: Node, pre: string)
    requires ValidFrom(t, pre)
    ensures forall v :: v in Terms(t) ==> |pre| <= |v| && v[..|pre|] == pre
    decreases t
  {
    forall v | v in Terms(t)
      ensures |pre| <= |v| && v[..|pre|] == pre
    {
      TermsCases(t, v);
      if t.term != Some(v) {
        var c :| c in t.children && v in Terms(t.children[c]);
        TermsExtend(t.children[c], pre + [c]);
        PrefixOfPrefix(v, pre, c);
      }
    }
  }

  /** Below a node reached by `pre`, a child's words are longer than `pre` and continue with the child's key. */
  lemma ChildTermsExtend(t: Node, pre: string, c: char)
    requires ValidFrom(t, pre)
    requires c in t.children
    ensures forall v :: v in Terms(t.children[c]) ==> |pre| < |v| && v[..|pre|] == pre && v[|pre|] == c
  {
    TermsExtend(t.children[c], pre + [c]);
    forall v | v in Terms(t.children[c])
      ensures |pre| < |v| && v[..|pre|] == pre && v[|pre|] == c
    {
      assert v[..|pre| + 1] == pre + [c];
      assert v[..|pre|] == v[..|pre| + 1][..|pre|];
    }
  }

  /** Under the invariant, the stored words of a subtree are exactly the words found by walking their remainder. */
  lemma {:induction false} TermsFound(t: Node, pre: string)
    requires ValidFrom(t, pre)
    ensures forall v :: v in Terms(t) <==> |pre| <= |v| && v[..|pre|] == pre && TermAt(t, v[|pre|..]) == Some(v)
    decreases t
  {
    forall v
      ensures v in Terms(t) <==> |pre| <= |v| && v[..|pre|] == pre && TermAt(t, v[|pre|..]) == Some(v)
    {
      if v in Terms(t) {
        TermsExtend(t, pre);
        if t.term == Some(v) {
          assert v[|pre|..] == [];
        } else {
          var c :| c in t.children && v in Terms(t.children[c]);
          ChildTermsExtend(t, pre, c);
          TermsFound(t.children[c], pre + [c]);
          assert v[|pre|..][0] == c;
          assert v[|pre|..][1..] == v[|pre + [c]|..];
        }
      }
      if |pre| <= |v| && v[..|pre|] == pre && TermAt(t, v[|pre|..]) == Some(v) {
        var s := v[|pre|..];
        if |s| == 0 {
          assert t.term == Some(v);
        } else {
          var c := s[0];
          assert c in t.children;
          var child := t.children[c];
          assert TermAt(child, s[1..]) == Some(v);
          assert s[1..] == v[|pre + [c]|..];
          assert v[..|pre + [c]|] == pre + [c] by {
            assert v[..|pre| + 1] == v[..|pre|] + [v[|pre|]];
          }
          TermsFound(child, pre + [c]);
          assert v in Terms(child);
        }
      }
    }
  }

  /** In a valid trie, the stored words are exactly the words `word_exists` accepts. */
  lemma TermsAreWords(t: Node)
    requires Valid(t)
    ensures forall v :: v in Terms(t) <==> WordExists(t, v)
  {
    TermsFound(t, []);
    forall v: string
      ensures v[0..] == v
    {
    }
  }

  /**
   The trie `a` left by trie_solve's walk of `b`: words may have been popped, and
   child entries removed when `prune` is set, but nothing was added or moved.
   */
  ghost predicate Shrunk(a: Node, b: Node, prune: bool)
    decreases a
  {
    (a.term == None || a.term == b.term) &&
    a.children.Keys <= b.children.Keys &&
    (!prune ==> a.children.Keys == b.children.Keys) &&
    forall c :: c in a.children ==> Shrunk(a.children[c], b.children[c], prune)
  }

  lemma {:induction false} ShrunkRefl(t: Node, prune: bool)
    ensures Shrunk(t, t, prune)
    decreases t
  {
    forall c | c in t.children
      ensures Shrunk(t.children[c], t.children[c], prune)
    {
      ShrunkRefl(t.children[c], prune);
    }
  }

  lemma {:induction false} ShrunkTrans(a: Node, b: Node, c: Node, prune: bool)
    requires Shrunk(a, b, prune) && Shrunk(b, c, prune)
    ensures Shrunk(a, c, prune)
    decreases a
  {
    forall k | k in a.children
      ensures Shrunk(a.children[k], c.children[k], prune)
    {
      ShrunkTrans(a.children[k], b.children[k], c.children[k], prune);
    }
  }

  /** A shrunk trie stores no word the original did not. */
  lemma {:induction false} ShrunkTerms(a: Node, b: Node, prune: bool)
    requires Shrunk(a, b, prune)
    ensures Terms(a) <= Terms(b)
    decreases a
  {
    forall v | v in Terms(a)
      ensures v in Terms(b)
    {
      if a.term != Some(v) {
        var c :| c in a.children && v in Terms(a.children[c]);
        ShrunkTerms(a.children[c], b.children[c], prune);
      }
    }
  }

  /** Shrinking keeps the trie invariant. */
  lemma {:induction false} ShrunkValid(a: Node, b: Node, prune: bool, pre: string)
    requires Shrunk(a, b, prune)
    requires ValidFrom(b, pre)
    ensures ValidFrom(a, pre)
    decreases a
  {
    forall c | c in a.children
      ensures ValidFrom(a.children[c], pre + [c])
    {
      ShrunkValid(a.children[c], b.children[c], prune, pre + [c]);
    }
  }
}
