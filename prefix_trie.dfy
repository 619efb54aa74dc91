/**
 * `PrefixTrie` of src/trie/prefix_trie.py: a root `TrieNode` and the operations that walk
 * and update the tree of nodes in place. The ghost map `at` names every node by its path
 * from the root; each method is proved to change the abstract contents `cells` exactly
 * as the matching function of module Shapes says.
 */
module PrefixTries {
  import opened Wrappers
  import opened TrieNodes
  import opened Shapes
  import opened TriePaths
  import opened Snapshots

  class PrefixTrie {
    var root: TrieNode
    /** Every node of the trie, by its path from the root. */
    ghost var at: map<string, TrieNode>
    /** The abstract contents: terminal flag and frequency of every node, by path. */
    ghost var cells: Shape

    ghost predicate Valid()
      reads this, at.Values
    {
      SubTree(at, []) && at[[]] == root && Mirrors(at, cells) && OwnedBy(at, this)
    }

    constructor ()
      ensures Valid() && cells == Empty()
      ensures fresh(at.Values)
    {
      root := new TrieNode();
      at := map[[] := root];
      cells := Empty();
      new;
      root.owner := this;
    }

    /**
     * `insert(word, frequency)`: walk down `word`, creating each missing child, then mark
     * the last node terminal and add `frequency` to its counter.
     */
    method Insert(word: string, frequency: int)
      requires Valid()
      modifies this`at, this`cells, at.Values
      ensures Valid() && root == old(root)
      ensures cells == Shapes.Insert(old(cells), word, frequency)
    {
      var node := WalkCreating(word);
      MarkWord(node, word, frequency, old(cells));
    }

    /** The loop of `insert`: follow `word` from the root, creating each missing child. */
    method WalkCreating(word: string) returns (node: TrieNode)
      requires Valid()
      modifies this`at, this`cells, at.Values
      ensures Valid() && root == old(root)
      ensures word in at && at[word] == node
      ensures fresh(node) || node in old(at.Values)
      ensures cells == Extend(old(cells), word)
    {
      ExtendNothing(cells);
      node := root;
      var i := 0;
      while i < |word|
        invariant 0 <= i <= |word|
        invariant Valid() && root == old(root)
        invariant word[..i] in at && at[word[..i]] == node
        invariant forall k :: k in old(at) ==> k in at && at[k] == old(at)[k]
        invariant forall k :: k in at && k !in old(at) ==> fresh(at[k])
        invariant cells == Extend(old(cells), word[..i])
      {
        ghost var at0 := at;
        node := ChildFor(node, word, i, old(cells));
        forall k | k in at && k !in old(at) ensures fresh(at[k]) {
          if k in at0 { }
        }
        i := i + 1;
      }
      assert word[..i] == word;
      if word in old(at) {
        assert node == old(at)[word];
      }
    }

    /**
     * The last step of `insert`: mark the node of `word` terminal and add `frequency` to
     * its counter, which completes `Shapes.Insert(c0, word, frequency)`.
     */
    method MarkWord(node: TrieNode, ghost word: string, frequency: int, ghost c0: Shape)
      requires Valid() && word in at && at[word] == node && cells == Extend(c0, word)
      modifies this`cells, node
      ensures Valid() && at == old(at)
      ensures cells == Shapes.Insert(c0, word, frequency)
    {
      ExtendedEnd(c0, word, frequency);
      assert cells[word].freq == node.frequency;
      label BeforeMark:
      cells := cells[word := Cell(true, node.frequency + frequency)];
      node.isEnd := true;
      node.frequency := node.frequency + frequency;
      CellWritten@BeforeMark(word);
    }

    /**
     * One step of the insert walk: the child of the node at `word[..i]` for `word[i]`,
     * created when missing; the contents grow from `Extend(c0, word[..i])` to
     * `Extend(c0, word[..i + 1])`.
     */
    method ChildFor(node: TrieNode, word: string, i: nat, ghost c0: Shape) returns (child: TrieNode)
      requires Valid() && i < |word| && word[..i] in at && at[word[..i]] == node
      requires cells == Extend(c0, word[..i])
      modifies this`at, this`cells, node
      ensures Valid() && root == old(root)
      ensures word[..i + 1] in at && at[word[..i + 1]] == child
      ensures forall k :: k in old(at) ==> k in at && at[k] == old(at)[k]
      ensures forall k :: k in at && k !in old(at) ==> fresh(at[k])
      ensures cells == Extend(c0, word[..i + 1])
    {
      ghost var p := word[..i];
      var ch := word[i];
      assert word[..i + 1] == p + [ch];
      ExtendStep(c0, word, i);
      if ch !in node.children {
        LinkChild(node, p, ch);
      }
      child := node.children[ch];
    }

    /** Hang a fresh blank node under the node at `p` by the missing character `ch`. */
    method LinkChild(node: TrieNode, ghost p: string, ch: char)
      requires Valid() && p in at && at[p] == node && ch !in node.children
      modifies this`at, this`cells, node
      ensures Valid() && root == old(root) && p + [ch] !in old(at)
      ensures ch in node.children && fresh(node.children[ch])
      ensures at == old(at)[p + [ch] := node.children[ch]]
      ensures cells == old(cells)[p + [ch] := Cell(false, 0)]
    {
      assert p + [ch] !in at by {
        assert Parent(p + [ch]) == p;
      }
      label BeforeLink:
      var n := new TrieNode();
      n.path := p + [ch];
      n.owner := this;
      at, cells := at[p + [ch] := n], cells[p + [ch] := Cell(false, 0)];
      node.children := node.children[ch := n];
      LeafLinked@BeforeLink(p, ch, n);
    }

    /** `search(word)`: follow `word` from the root; found when the last node is terminal. */
    method Search(word: string) returns (found: bool)
      requires Valid()
      ensures found <==> word in Words(cells)
    {
      var node := root;
      var i := 0;
      while i < |word|
        invariant 0 <= i <= |word|
        invariant word[..i] in at && at[word[..i]] == node
      {
        var ch := word[i];
        if ch !in node.children {
          NextOnPath(at, [], word, i);
          return false;
        }
        node := node.children[ch];
        assert word[..i + 1] == word[..i] + [ch];
        i := i + 1;
      }
      assert word[..i] == word;
      found := node.isEnd;
    }

    /** `get_frequency(word)`: the stored frequency of `word`, 0 when it is not a word. */
    method GetFrequency(word: string) returns (f: int)
      requires Valid()
      ensures word in Words(cells) ==> f == Words(cells)[word]
      ensures word !in Words(cells) ==> f == 0
    {
      var node := root;
      var i := 0;
      while i < |word|
        invariant 0 <= i <= |word|
        invariant word[..i] in at && at[word[..i]] == node
      {
        var ch := word[i];
        if ch !in node.children {
          NextOnPath(at, [], word, i);
          return 0;
        }
        node := node.children[ch];
        assert word[..i + 1] == word[..i] + [ch];
        i := i + 1;
      }
      assert word[..i] == word;
      f := if node.isEnd then node.frequency else 0;
    }

    /** `list_words()`: every stored word exactly once. */
    method ListWords() returns (words: seq<string>)
      requires Valid()
      ensures Distinct(words) && Elems(words) == Words(cells).Keys
    {
      words := ListFrom(root, []);
      assert Below(Words(cells).Keys, []) == Words(cells).Keys by {
        forall k | k in Words(cells) ensures [] <= k {
        }
      }
    }

    /**
     * The nested `_dfs(node, prefix)` of `list_words`: the words of the subtree at
     * `prefix`, the node's own word first, then each child's words in turn.
     */
    method ListFrom(node: TrieNode, prefix: string) returns (found: seq<string>)
      requires Valid() && prefix in at && at[prefix] == node
      ensures Distinct(found) && Elems(found) == Below(Words(cells).Keys, prefix)
      decreases Below(at.Keys, prefix)
    {
      ghost var ws := Words(cells).Keys;
      found := if node.isEnd then [prefix] else [];
      var todo := node.children.Keys;
      while todo != {}
        invariant todo <= node.children.Keys
        invariant Distinct(found)
        invariant Elems(found) == (if prefix in ws then {prefix} else {}) + Via(ws, prefix, node.children.Keys - todo)
        decreases todo
      {
        var ch :| ch in todo;
        ViaStep(ws, prefix, node.children.Keys - todo, ch);
        BelowShrinks(at.Keys, prefix, ch);
        var sub := ListFrom(node.children[ch], prefix + [ch]);
        DistinctConcat(found, sub);
        found := found + sub;
        assert node.children.Keys - (todo - {ch}) == (node.children.Keys - todo) + {ch};
        todo := todo - {ch};
      }
      assert node.children.Keys - todo == node.children.Keys;
      ChildrenCover(at, [], prefix);
      ViaAll(ws, prefix, node.children.Keys);
    }

    /** `wildcard_match(pattern)`: the stored words that fit `pattern`, each once. */
    method WildcardMatch(pattern: string) returns (words: seq<string>)
      requires Valid()
      ensures Distinct(words) && Elems(words) == WildcardMatches(cells, pattern)
    {
      words := WildcardFrom(pattern, root, [], 0);
      assert Below(WildcardMatches(cells, pattern), []) == WildcardMatches(cells, pattern) by {
        forall k | k in WildcardMatches(cells, pattern) ensures [] <= k {
        }
      }
    }

    /**
     * The nested `_dfs(node, prefix, idx)` of `wildcard_match`: the fitting words of the
     * subtree at `prefix`, which fits the first `idx` pattern characters.
     */
    method WildcardFrom(pattern: string, node: TrieNode, prefix: string, idx: nat) returns (found: seq<string>)
      requires Valid() && prefix in at && at[prefix] == node
      requires idx == |prefix| <= |pattern| && FitsWildcard(prefix, pattern[..idx])
      ensures Distinct(found) && Elems(found) == Below(WildcardMatches(cells, pattern), prefix)
      decreases Below(at.Keys, prefix)
    {
      ghost var ws := WildcardMatches(cells, pattern);
      if idx == |pattern| {
        WildcardAtEnd(cells, pattern, prefix);
        found := if node.isEnd then [prefix] else [];
        return;
      }
      ChildrenCover(at, [], prefix);
      var ch := pattern[idx];
      if ch == '*' {
        found := [];
        var todo := node.children.Keys;
        while todo != {}
          invariant todo <= node.children.Keys
          invariant Distinct(found)
          invariant Elems(found) == Via(ws, prefix, node.children.Keys - todo)
          decreases todo
        {
          var childChar :| childChar in todo;
          ViaStep(ws, prefix, node.children.Keys - todo, childChar);
          BelowShrinks(at.Keys, prefix, childChar);
          FitsOneMore(pattern, prefix, childChar);
          var sub := WildcardFrom(pattern, node.children[childChar], prefix + [childChar], idx + 1);
          DistinctConcat(found, sub);
          found := found + sub;
          assert node.children.Keys - (todo - {childChar}) == (node.children.Keys - todo) + {childChar};
          todo := todo - {childChar};
        }
        assert node.children.Keys - todo == node.children.Keys;
        ViaAll(ws, prefix, node.children.Keys);
      } else {
        WildcardLiteral(cells, pattern, prefix);
        if ch !in node.children {
          forall k | k in Below(ws, prefix) ensures false {
          }
          return [];
        }
        BelowShrinks(at.Keys, prefix, ch);
        FitsOneMore(pattern, prefix, ch);
        found := WildcardFrom(pattern, node.children[ch], prefix + [ch], idx + 1);
      }
    }

    /**
     * `best_match(pattern)`: a fitting word of greatest frequency, found by scanning the
     * matches with a running best that starts at -1 and is replaced only by a strictly
     * greater frequency; absent when no match has a frequency of at least 0.
     */
    method BestMatch(pattern: string) returns (best: Option<string>)
      requires Valid()
      ensures best.None? <==> forall w :: w in WildcardMatches(cells, pattern) ==> Words(cells)[w] < 0
      ensures best.Some? ==> best.value in WildcardMatches(cells, pattern) && Words(cells)[best.value] >= 0
      ensures best.Some? ==>
                forall w :: w in WildcardMatches(cells, pattern) ==> Words(cells)[w] <= Words(cells)[best.value]
    {
      var matches := WildcardMatch(pattern);
      assert forall j :: 0 <= j < |matches| ==> matches[j] in Words(cells) by {
        forall j | 0 <= j < |matches| ensures matches[j] in Words(cells) {
          assert matches[j] in Elems(matches);
        }
      }
      best := None;
      var bestFreq := -1;
      var i := 0;
      while i < |matches|
        invariant 0 <= i <= |matches|
        invariant forall j :: 0 <= j < i ==> Words(cells)[matches[j]] <= bestFreq
        invariant best.None? ==> bestFreq == -1
        invariant best.Some? ==> best.value in Elems(matches) && Words(cells)[best.value] == bestFreq >= 0
      {
        var word := matches[i];
        assert word in Elems(matches);
        var node := Locate(word);
        if node.frequency > bestFreq {
          bestFreq := node.frequency;
          best := Some(word);
        }
        i := i + 1;
      }
      assert forall w :: w in Elems(matches) ==> exists j :: 0 <= j < |matches| && matches[j] == w;
    }

    /** The walk inside `best_match`: follow the path of a stored word to its node. */
    method Locate(word: string) returns (node: TrieNode)
      requires Valid() && word in at
      ensures node == at[word]
    {
      node := root;
      var i := 0;
      while i < |word|
        invariant 0 <= i <= |word|
        invariant word[..i] in at && at[word[..i]] == node
      {
        NextOnPath(at, [], word, i);
        node := node.children[word[i]];
        assert word[..i + 1] == word[..i] + [word[i]];
        i := i + 1;
      }
      assert word[..i] == word;
    }

    /**
     * `delete(word)`: unmark `word` and prune the nodes on its path that no longer lead
     * to any word. The result is the root's own prune flag, which is true only when the
     * trie held no word but `word` (see lemma Shapes.DeleteResult).
     */
    method Delete(word: string) returns (pruned: bool)
      requires Valid()
      modifies this`at, this`cells, at.Values
      ensures Valid() && root == old(root)
      ensures cells == Shapes.Delete(old(cells), word)
      ensures pruned == DeleteReports(old(cells), word)
    {
      assert word[..0] == [];
      pruned := DeleteFrom(root, word, 0);
    }

    /**
     * The nested `_delete(node, word, depth)`: returns whether the subtree at `node` has
     * become dead and must be unlinked by its parent.
     */
    method DeleteFrom(node: TrieNode, word: string, depth: nat) returns (prune: bool)
      requires Valid() && depth <= |word|
      requires word[..depth] in at && at[word[..depth]] == node
      modifies this`at, this`cells, at.Values
      ensures Valid() && root == old(root)
      ensures word[..depth] in at && at[word[..depth]] == node
      ensures forall k :: k in old(at) && |k| <= depth ==> k in at && at[k] == old(at)[k]
      ensures cells == DeleteBelow(old(cells), word, depth)
      ensures prune == (word in Words(old(cells)) && Dead(old(cells), word, word[..depth]))
      decreases |word| - depth
    {
      ghost var c := cells;
      if depth == |word| {
        assert word[..depth] == word;
        if !node.isEnd {
          return false;
        }
        DeleteBelowEnd(c, word);
        prune := Unmark(node, word);
        return;
      }
      var ch := word[depth];
      if ch !in node.children {
        NextOnPath(at, [], word, depth);
        return false;
      }
      assert word[..depth + 1] == word[..depth] + [ch];
      var shouldPrune := DeleteFrom(node.children[ch], word, depth + 1);
      DeleteBelowStep(c, word, depth);
      DeadOnPath(c, word, depth);
      if shouldPrune {
        PrunedChildIsLeaf(c, word, depth);
        DeadIffEmptied(c, word, depth);
        prune := Unlink(node, word, depth, ch);
        return;
      }
      return false;
    }

    /** The base case of `_delete`: clear the terminal flag; prune when no child is left. */
    method Unmark(node: TrieNode, ghost word: string) returns (prune: bool)
      requires Valid() && word in at && at[word] == node
      modifies this`cells, node
      ensures Valid() && at == old(at)
      ensures cells == old(cells)[word := Cell(false, old(cells)[word].freq)]
      ensures prune == !HasExtension(old(cells), word)
    {
      assert at.Keys == old(cells).Keys;
      label BeforeUnmark:
      cells := cells[word := Cell(false, node.frequency)];
      node.isEnd := false;
      CellWritten@BeforeUnmark(word);
      LeafIffNoExtension(at, old(cells), [], word);
      return |node.children| == 0;
    }

    /**
     * The pruning step of `_delete`: drop the dead leaf child `word[depth]` of the node at
     * `word[..depth]`; report whether that node is now an unmarked leaf itself.
     */
    method Unlink(node: TrieNode, ghost word: string, ghost depth: nat, ch: char) returns (prune: bool)
      requires Valid() && depth < |word| && ch == word[depth]
      requires word[..depth] in at && at[word[..depth]] == node && word[..depth + 1] in at
      requires !HasExtension(cells, word[..depth + 1])
      modifies node, this`at, this`cells
      ensures Valid() && root == old(root)
      ensures word[..depth] in at && at[word[..depth]] == node
      ensures at == old(at) - {word[..depth + 1]} && cells == old(cells) - {word[..depth + 1]}
      ensures prune == (!cells[word[..depth]].isEnd && !HasExtension(cells, word[..depth]))
    {
      ghost var p := word[..depth];
      assert word[..depth + 1] == p + [ch];
      label BeforeUnlink:
      at, cells := at - {p + [ch]}, cells - {p + [ch]};
      node.children := node.children - {ch};
      LeafUnlinked@BeforeUnlink(p, ch);
      LeafIffNoExtension(at, cells, [], p);
      return !node.isEnd && |node.children| == 0;
    }

    /**
     * `merge_trie(other)`: merge every word of `other` into this trie, adding frequencies
     * of words both hold, and return how many words were added and how many updated.
     * `other` is read once into an immutable Tree, so a trie may be merged into itself.
     */
    method MergeTrie(other: PrefixTrie) returns (added: nat, updated: nat)
      requires Valid() && other.Valid()
      modifies this`at, this`cells, at.Values
      ensures Valid()
      ensures cells == Merge(old(cells), old(other.cells))
      ensures added == |Added(old(cells), old(other.cells))|
      ensures updated == |Updated(old(cells), old(other.cells))|
      ensures other != this ==> other.Valid() && other.cells == old(other.cells)
    {
      if other != this {
        NoSharedNodes(other);
      }
      var src := other.Snapshot(other.root, []);
      RootedIsPrefixClosed(other.at, other.cells);
      added, updated := MergeTree(src, other.cells);
      if other != this {
        forall n | n in other.at.Values ensures unchanged(n) {
        }
        StillValid(other);
      }
    }

    /** Merge a whole source trie, given as the immutable tree `src` of the cells `s`. */
    method MergeTree(src: Tree, ghost s: Shape) returns (added: nat, updated: nat)
      requires Valid() && PrefixClosed(s) && Holds(s, [], src)
      modifies this`at, this`cells, at.Values
      ensures Valid() && forall k :: k in at && k !in old(at) ==> fresh(at[k])
      ensures cells == Merge(old(cells), s)
      ensures added == |Added(old(cells), s)| && updated == |Updated(old(cells), s)|
    {
      added, updated := MergeNodes(root, src, [], s);
      MergeSomeAll(old(cells), s);
      MergeWordCount(old(cells), s);
    }

    /** An immutable copy of the subtree at path `q`. */
    method Snapshot(node: TrieNode, ghost q: string) returns (t: Tree)
      requires Valid() && q in at && at[q] == node
      ensures Holds(cells, q, t)
      decreases Below(at.Keys, q)
    {
      var kids: map<char, Tree> := map[];
      var todo := node.children.Keys;
      while todo != {}
        invariant todo <= node.children.Keys && kids.Keys == node.children.Keys - todo
        invariant forall c :: c in kids ==> Holds(cells, q + [c], kids[c])
        decreases todo
      {
        var ch :| ch in todo;
        BelowShrinks(at.Keys, q, ch);
        var sub := Snapshot(node.children[ch], q + [ch]);
        kids := kids[ch := sub];
        todo := todo - {ch};
      }
      t := Tree(node.isEnd, node.frequency, kids);
      ChildrenCover(at, [], q);
      forall c | q + [c] in cells ensures c in kids {
        assert q < q + [c] && (q + [c])[|q|] == c;
      }
      assert Children(cells, q) == kids.Keys;
    }

    /**
     * `_merge_nodes(dst, src)`: merge the source subtree `src`, the part of `s` at path
     * `p`, into the subtree of this trie at the same path (node `dst`). Every source word
     * below `p` is counted once, as added or as updated, and the stored words grow by
     * exactly the added ones.
     */
    method MergeNodes(dst: TrieNode, src: Tree, ghost p: string, ghost s: Shape)
      returns (added: nat, updated: nat)
      requires Valid() && PrefixClosed(s) && Holds(s, p, src) && p in at && at[p] == dst
      modifies this`at, this`cells, at.Values
      decreases src, 1
      ensures Valid() && root == old(root)
      ensures forall k :: k in old(at) ==> k in at && at[k] == old(at)[k]
      ensures forall k :: k in at && k !in old(at) ==> fresh(at[k])
      ensures SubtreeMerged(old(cells), s, p, cells, added, updated)
    {
      ghost var d := cells;
      var a, u := MergeOwn(dst, src, p, s);
      MergeSomeOwn(d, s, p);
      OwnWords(d, s, p);
      CountOwn(s, p);
      added, updated := MergeChildren(dst, src, p, s, d, a, u);
      ViaCovers(s, p, src);
      CountAll(s, p, src, added + updated);
    }

    /**
     * The loop of `_merge_nodes` over the children of the source tree `src`; `d` is the
     * destination before the merge of `src` began, and the vertex at `p` is merged already,
     * with the counts `added0` and `updated0`.
     */
    method MergeChildren(dst: TrieNode, src: Tree, ghost p: string, ghost s: Shape, ghost d: Shape,
                         added0: nat, updated0: nat)
      returns (added: nat, updated: nat)
      requires Valid() && PrefixClosed(s) && Holds(s, p, src) && p in at && at[p] == dst
      requires MergedUpTo(d, s, p, {}, cells, added0, updated0)
      modifies this`at, this`cells, at.Values
      decreases src, 0
      ensures Valid() && root == old(root)
      ensures forall k :: k in old(at) ==> k in at && at[k] == old(at)[k]
      ensures forall k :: k in at && k !in old(at) ==> fresh(at[k])
      ensures MergedUpTo(d, s, p, src.children.Keys, cells, added, updated)
    {
      added, updated := added0, updated0;
      var todo := src.children.Keys;
      ghost var done: set<char> := {};
      while todo != {}
        invariant todo !! done && todo + done == src.children.Keys
        invariant Valid() && root == old(root) && p in at && at[p] == dst
        invariant forall k :: k in old(at) ==> k in at && at[k] == old(at)[k]
        invariant forall k :: k in at && k !in old(at) ==> fresh(at[k])
        invariant MergedUpTo(d, s, p, done, cells, added, updated)
        decreases |todo|
      {
        var ch :| ch in todo;
        MoveOne(src.children.Keys, done, todo, ch);
        ghost var at0 := at;
        added, updated := MergeNext(dst, src.children[ch], p, ch, s, d, done, added, updated);
        forall k | k in at && k !in old(at) ensures fresh(at[k]) {
          if k in at0 { }
        }
        todo, done := todo - {ch}, done + {ch};
      }
      assert done == src.children.Keys;
    }

    /**
     * One turn of the loop of `_merge_nodes`: merge the child `ch` of the source into
     * `dst` after the children `done`, and add its counts to `added0` and `updated0`.
     */
    method MergeNext(dst: TrieNode, srcChild: Tree, ghost p: string, ch: char, ghost s: Shape,
                     ghost d: Shape, ghost done: set<char>, added0: nat, updated0: nat)
      returns (added: nat, updated: nat)
      requires Valid() && PrefixClosed(s) && Holds(s, p + [ch], srcChild) && p in at && at[p] == dst
      requires ch !in done && MergedUpTo(d, s, p, done, cells, added0, updated0)
      modifies this`at, this`cells, at.Values
      decreases srcChild, 3
      ensures Valid() && root == old(root)
      ensures forall k :: k in old(at) ==> k in at && at[k] == old(at)[k]
      ensures forall k :: k in at && k !in old(at) ==> fresh(at[k])
      ensures MergedUpTo(d, s, p, done + {ch}, cells, added, updated)
    {
      var a, u := MergeChild(dst, srcChild, p, ch, s);
      MergedNext(d, s, p, done, ch, old(cells), added0, updated0, cells, a, u);
      added, updated := added0 + a, updated0 + u;
    }

    /**
     * The loop body of `_merge_nodes` for the child `ch` of the source (the tree `srcChild`):
     * clone its whole subtree when `dst` has no such child (every word in it is added), and
     * merge the two children recursively otherwise.
     */
    method MergeChild(dst: TrieNode, srcChild: Tree, ghost p: string, ch: char, ghost s: Shape)
      returns (added: nat, updated: nat)
      requires Valid() && PrefixClosed(s) && Holds(s, p + [ch], srcChild) && p in at && at[p] == dst
      modifies this`at, this`cells, at.Values
      decreases srcChild, 2
      ensures Valid() && root == old(root)
      ensures forall k :: k in old(at) ==> k in at && at[k] == old(at)[k]
      ensures forall k :: k in at && k !in old(at) ==> fresh(at[k])
      ensures SubtreeMerged(old(cells), s, p + [ch], cells, added, updated)
    {
      if ch !in dst.children {
        AttachClone(dst, p, ch, srcChild, s);
        MergeSomeFresh(old(cells), s, p + [ch]);
        FreshWords(old(cells), s, p + [ch]);
        added := CountWords(srcChild, p + [ch], s);
        updated := 0;
      } else {
        added, updated := MergeNodes(dst.children[ch], srcChild, p + [ch], s);
      }
    }

    /**
     * The first step of `_merge_nodes`: when the source node (whose cell in the source is
     * `s[p]`) ends a word, `dst` becomes terminal and its frequency grows by the source's;
     * the word counts as updated when `dst` was terminal already, as added otherwise.
     */
    method MergeOwn(dst: TrieNode, src: Tree, ghost p: string, ghost s: Shape)
      returns (added: nat, updated: nat)
      requires Valid() && p in at && at[p] == dst && p in s && s[p] == Cell(src.isEnd, src.frequency)
      modifies this`cells, dst
      ensures Valid() && at == old(at) && root == old(root)
      ensures cells == old(cells)[p := MergeCell(old(cells), s, p)]
      ensures added == (if s[p].isEnd && !old(cells)[p].isEnd then 1 else 0)
      ensures updated == (if s[p].isEnd && old(cells)[p].isEnd then 1 else 0)
    {
      added, updated := 0, 0;
      if src.isEnd {
        var f := src.frequency;
        label BeforeMerge:
        cells := cells[p := Cell(true, dst.frequency + f)];
        if dst.isEnd {
          dst.frequency := dst.frequency + f;
          updated := 1;
        } else {
          dst.isEnd := true;
          dst.frequency := dst.frequency + f;
          added := 1;
        }
        CellWritten@BeforeMerge(p);
      } else {
        assert cells == cells[p := cells[p]];
      }
    }

    /**
     * `dst.children[ch] = self._clone_subtree(src_child)`: hang a copy of the source tree
     * `src`, the part of `s` at `p + [ch]`, under `dst`, which has no child `ch`.
     */
    method AttachClone(dst: TrieNode, ghost p: string, ch: char, src: Tree, ghost s: Shape)
      requires Valid() && PrefixClosed(s) && Holds(s, p + [ch], src)
      requires p in at && at[p] == dst && ch !in dst.children
      modifies this`at, this`cells, dst
      ensures Valid() && root == old(root)
      ensures forall k :: k in old(at) ==> k in at && at[k] == old(at)[k]
      ensures forall k :: k in at && k !in old(at) ==> fresh(at[k])
      ensures Below(old(cells).Keys, p + [ch]) == {}
      ensures cells == old(cells) + SubShape(s, p + [ch])
    {
      var copy, mc := CloneSubtree(src, p + [ch], s);
      ghost var cc := SubShape(s, p + [ch]);
      NewBranch(at, p, ch, mc);
      label BeforeGraft:
      at, cells := at + mc, cells + cc;
      dst.children := dst.children[ch := copy];
      SubtreeGrafted@BeforeGraft(p, ch, mc, cc);
    }

    /**
     * `_clone_subtree(node)`: a deep copy, made of new nodes only, of the source tree
     * `node`, the part of `s` at path `q`: same shape, terminal flags and frequencies.
     */
    method CloneSubtree(node: Tree, ghost q: string, ghost s: Shape)
      returns (copy: TrieNode, ghost m: map<string, TrieNode>)
      requires PrefixClosed(s) && Holds(s, q, node)
      decreases node, 0
      ensures SubTree(m, q) && m[q] == copy && OwnedBy(m, this)
      ensures Mirrors(m, SubShape(s, q))
      ensures forall k :: k in m ==> fresh(m[k])
    {
      copy := new TrieNode();
      copy.isEnd := node.isEnd;
      copy.frequency := node.frequency;
      copy.path := q;
      copy.owner := this;
      m := map[q := copy];
      Single(copy, q, s[q], this);
      RestrictNone(s, q);
      var todo := node.children.Keys;
      ghost var done: set<char> := {};
      while todo != {}
        invariant todo !! done && todo + done == node.children.Keys
        invariant SubTree(m, q) && m[q] == copy && OwnedBy(m, this)
        invariant copy.children.Keys == done
        invariant Mirrors(m, Restrict(s, {q} + Via(s.Keys, q, done)))
        invariant forall k :: k in m ==> fresh(m[k])
        decreases todo
      {
        var ch :| ch in todo;
        MoveOne(node.children.Keys, done, todo, ch);
        ghost var m0 := m;
        m := CloneChild(copy, m, node.children[ch], q, ch, s, done);
        forall k | k in m ensures fresh(m[k]) {
          if k in m0 { }
        }
        todo, done := todo - {ch}, done + {ch};
      }
      assert done == node.children.Keys;
      ViaCovers(s, q, node);
    }

    /**
     * The loop body of `_clone_subtree` for the child `ch`: copy the source tree `child`,
     * the part of `s` at `q + [ch]`, and hang the copy under `copy`, the vertex at `q` of
     * the copy `m` made so far of the vertices at `q` and below the children in `done`.
     */
    method CloneChild(copy: TrieNode, ghost m: map<string, TrieNode>, child: Tree, ghost q: string,
                      ch: char, ghost s: Shape, ghost done: set<char>)
      returns (ghost m': map<string, TrieNode>)
      requires PrefixClosed(s) && Holds(s, q + [ch], child) && ch !in done
      requires SubTree(m, q) && m[q] == copy && OwnedBy(m, this) && copy.children.Keys == done
      requires Mirrors(m, Restrict(s, {q} + Via(s.Keys, q, done)))
      modifies copy
      decreases child, 1
      ensures SubTree(m', q) && m'[q] == copy && OwnedBy(m', this) && copy.children.Keys == done + {ch}
      ensures Mirrors(m', Restrict(s, {q} + Via(s.Keys, q, done + {ch})))
      ensures forall k :: k in m ==> k in m' && m'[k] == m[k]
      ensures forall k :: k in m' && k !in m ==> fresh(m'[k])
    {
      var node, mc := CloneSubtree(child, q + [ch], s);
      RestrictStep(s, q, done, ch);
      label BeforeGraft:
      copy.children := copy.children[ch := node];
      Graft@BeforeGraft(m, Restrict(s, {q} + Via(s.Keys, q, done)), q, q, ch, mc, SubShape(s, q + [ch]), this);
      m' := m + mc;
    }

    /** Two distinct tries never share a node: each node belongs to the trie it hangs in. */
    lemma NoSharedNodes(other: PrefixTrie)
      requires Valid() && other.Valid() && other != this
      ensures at.Values !! other.at.Values
    {
    }

    /** A trie none of whose objects changed is still valid and stores the same cells. */
    static twostate lemma StillValid(new t: PrefixTrie)
      requires old(allocated(t)) && old(t.Valid())
      requires unchanged(t) && forall n :: n in t.at.Values ==> unchanged(n)
      ensures t.Valid() && t.cells == old(t.cells)
    {
    }

    /** Writing the cell fields of the node at `word` keeps the trie valid. */
    twostate lemma CellWritten(word: string)
      requires old(Valid()) && word in old(at) && at == old(at) && root == old(root)
      requires cells == old(cells)[word := Cell(at[word].isEnd, at[word].frequency)]
      requires forall j :: j in at && at[j] != at[word] ==> unchanged(at[j])
      requires at[word].children == old(at[word].children) && at[word].path == old(at[word].path)
      requires at[word].owner == this
      ensures Valid()
    {
      SetCell(at, old(cells), [], word);
    }

    /** Hanging the fresh blank node `n` under the node at `p` by `ch` keeps the trie valid. */
    twostate lemma LeafLinked(new p: string, new ch: char, new n: TrieNode)
      requires old(Valid()) && p in old(at) && p + [ch] !in old(at) && root == old(root)
      requires at == old(at)[p + [ch] := n] && cells == old(cells)[p + [ch] := Cell(false, 0)]
      requires !old(allocated(n))
      requires n.children == map[] && !n.isEnd && n.frequency == 0 && n.path == p + [ch]
      requires n.owner == this && at[p].owner == this
      requires forall j :: j in old(at) && old(at)[j] != at[p] ==> unchanged(old(at)[j])
      requires at[p].children == old(at[p].children)[ch := n]
      requires at[p].path == old(at[p].path)
      requires at[p].isEnd == old(at[p].isEnd) && at[p].frequency == old(at[p].frequency)
      ensures Valid()
    {
      AddLeaf(old(at), old(cells), p, ch, n);
    }

    /** Hanging the new subtree `mc` under the node at `p` by `ch` keeps the trie valid. */
    twostate lemma SubtreeGrafted(new p: string, new ch: char, new mc: map<string, TrieNode>, new cc: Shape)
      requires old(allocated(mc)) && old(Valid()) && p in old(at) && root == old(root) && old(at).Keys !! mc.Keys
      requires old(SubTree(mc, p + [ch])) && old(Mirrors(mc, cc)) && old(OwnedBy(mc, this))
      requires forall j :: j in mc ==> unchanged(mc[j])
      requires at == old(at) + mc && cells == old(cells) + cc
      requires forall j :: j in old(at) && old(at)[j] != at[p] ==> unchanged(old(at)[j])
      requires at[p].children == old(at[p].children)[ch := mc[p + [ch]]]
      requires at[p].path == old(at[p].path) && at[p].owner == this
      requires at[p].isEnd == old(at[p].isEnd) && at[p].frequency == old(at[p].frequency)
      ensures Valid()
    {
      Graft(old(at), old(cells), [], p, ch, mc, cc, this);
    }

    /** Dropping the leaf at `p + [ch]` from its parent's children keeps the trie valid. */
    twostate lemma LeafUnlinked(new p: string, new ch: char)
      requires old(Valid()) && p in at && p + [ch] in old(at) && root == old(root)
      requires !HasExtension(old(cells), p + [ch])
      requires at == old(at) - {p + [ch]} && cells == old(cells) - {p + [ch]}
      requires at[p].owner == this
      requires forall j :: j in old(at) && old(at)[j] != at[p] ==> unchanged(old(at)[j])
      requires at[p].children == old(at[p].children) - {ch}
      requires at[p].path == old(at[p].path)
      requires at[p].isEnd == old(at[p].isEnd) && at[p].frequency == old(at[p].frequency)
      ensures Valid()
    {
      RemoveLeaf(old(at), old(cells), p, ch);
    }
  }
}
