/**
 * An immutable copy of a subtree of `TrieNode`s, used by the merge of
 * src/trie/prefix_trie.py to read the source trie while the destination is changed.
 */
module Snapshots {
  import opened Wrappers
  import opened Shapes

  /** A vertex's terminal flag, frequency and children, frozen as a value. */
  datatype Tree = Tree(isEnd: bool, frequency: int, children: map<char, Tree>)

  /** The characters that extend path `p` to a vertex of `s`. */
  function Children(s: Shape, p: string): set<char>
  {
    set c | p + [c] in s
  }

  /**
   * `t` is the part of `s` at path `p`: the cell at `p` is `t`'s, the children of `p`
   * in `s` are exactly the children of `t`, and each child tree is the part at its path.
   */
  ghost predicate Holds(s: Shape, p: string, t: Tree)
    decreases t
  {
    && p in s && s[p] == Cell(t.isEnd, t.frequency)
    && Children(s, p) == t.children.Keys
    && (forall c {:trigger Holds(s, p + [c], t.children[c])} :: c in t.children ==> Holds(s, p + [c], t.children[c]))
  }

  /** In a prefix-closed shape, every path below `p` passes through a child of `t`. */
  lemma HoldsCover(s: Shape, p: string, t: Tree)
    requires Holds(s, p, t) && PrefixClosed(s)
    ensures forall k :: k in s && p < k ==> k[|p|] in t.children
  {
    forall k | k in s && p < k ensures k[|p|] in t.children {
      assert k[..|p| + 1] == p + [k[|p|]];
      AncestorPresent(s, p + [k[|p|]], k);
      assert k[|p|] in Children(s, p);
    }
  }

  /** The paths at and below `p` are `p` and those below the children of `t`. */
  lemma ViaCovers(s: Shape, p: string, t: Tree)
    requires PrefixClosed(s) && Holds(s, p, t)
    ensures {p} + Via(s.Keys, p, t.children.Keys) == Below(s.Keys, p)
  {
    HoldsCover(s, p, t);
    ViaAll(s.Keys, p, t.children.Keys);
  }

  /** The words counted so far at `p` grow by the words below the child `ch`. */
  lemma CountNext(ws: set<string>, p: string, done: set<char>, ch: char, count: nat, sub: nat)
    requires ch !in done
    requires count == |(if p in ws then {p} else {}) + Via(ws, p, done)|
    requires sub == |Below(ws, p + [ch])|
    ensures count + sub == |(if p in ws then {p} else {}) + Via(ws, p, done + {ch})|
  {
    CountStep(ws, p, done, ch);
  }

  /**
   * How far the loop of `_merge_nodes` at `p` has got after the source children `done`,
   * starting from the destination `d`: `c` is `d` merged with the source at `p` and below
   * those children, each source word there counts once as added or as updated, and the
   * stored words grew by the added ones.
   */
  ghost predicate MergedUpTo(d: Shape, s: Shape, p: string, done: set<char>, c: Shape, added: int, updated: int)
  {
    && c == MergeSome(d, s, {p} + Via(s.Keys, p, done))
    && Tally(d, s, p, done, added, updated)
  }

  /** The counts of the loop of `_merge_nodes` at `p` after the source children `done`. */
  ghost predicate Tally(d: Shape, s: Shape, p: string, done: set<char>, added: int, updated: int)
  {
    && added + updated == |(if p in Words(s) then {p} else {}) + Via(Words(s).Keys, p, done)|
    && |Words(MergeSome(d, s, {p} + Via(s.Keys, p, done)))| == |Words(d)| + added
  }

  /**
   * `c2` is `c` with the source subtree at `q` merged in; each source word below `q`
   * counts once as added or as updated, and the stored words grew by the added ones.
   */
  ghost predicate SubtreeMerged(c: Shape, s: Shape, q: string, c2: Shape, added: int, updated: int)
  {
    && c2 == MergeSome(c, s, Below(s.Keys, q))
    && added + updated == |Below(Words(s).Keys, q)|
    && |Words(c2)| == |Words(c)| + added
  }

  /** Merging the child `ch` (giving `c2` and its counts `a`, `u`) advances the loop by `ch`. */
  lemma MergedNext(d: Shape, s: Shape, p: string, done: set<char>, ch: char, c: Shape, added: int,
                   updated: int, c2: Shape, a: int, u: int)
    requires ch !in done && MergedUpTo(d, s, p, done, c, added, updated)
    requires SubtreeMerged(c, s, p + [ch], c2, a, u)
    ensures MergedUpTo(d, s, p, done + {ch}, c2, added + a, updated + u)
  {
    MergeStep(d, s, p, done, ch);
    CountNext(Words(s).Keys, p, done, ch, added + updated, a + u);
  }

  /** The vertex at `p` is one source word below itself exactly when it ends a word. */
  lemma CountOwn(s: Shape, p: string)
    requires p in s
    ensures |(if p in Words(s) then {p} else {}) + Via(Words(s).Keys, p, {})| == (if s[p].isEnd then 1 else 0)
  {
    assert Via(Words(s).Keys, p, {}) == {};
  }

  /** Once every child of `t` is counted, the count covers every word below `p`. */
  lemma CountAll(s: Shape, p: string, t: Tree, count: nat)
    requires PrefixClosed(s) && Holds(s, p, t)
    requires count == |(if p in Words(s) then {p} else {}) + Via(Words(s).Keys, p, t.children.Keys)|
    ensures count == |Below(Words(s).Keys, p)|
  {
    HoldsCover(s, p, t);
    ViaAll(Words(s).Keys, p, t.children.Keys);
  }

  /** `_count_words(node)`: the number of words stored in the source tree `node` at `p`. */
  method CountWords(node: Tree, ghost p: string, ghost s: Shape) returns (count: nat)
    requires PrefixClosed(s) && Holds(s, p, node)
    ensures count == |Below(Words(s).Keys, p)|
    decreases node
  {
    ghost var ws := Words(s).Keys;
    count := if node.isEnd then 1 else 0;
    var todo := node.children.Keys;
    ghost var done: set<char> := {};
    assert Via(ws, p, done) == {};
    while todo != {}
      invariant todo !! done && todo + done == node.children.Keys
      invariant count == |(if p in ws then {p} else {}) + Via(ws, p, done)|
      decreases todo
    {
      var ch :| ch in todo;
      MoveOne(node.children.Keys, done, todo, ch);
      var sub := CountWords(node.children[ch], p + [ch], s);
      CountNext(ws, p, done, ch, count, sub);
      count := count + sub;
      todo, done := todo - {ch}, done + {ch};
    }
    assert done == node.children.Keys;
    CountAll(s, p, node, count);
  }
}
