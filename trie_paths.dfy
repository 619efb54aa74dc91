/**
 * How a tree of `TrieNode` objects on the heap is named by paths: a map from each
 * vertex's path (from the trie's root) to the vertex. The predicate `SubTree` says the
 * map describes exactly one tree of exclusively owned vertices, and `Mirrors` ties it to
 * the abstract contents that trie_shape.dfy reasons about.
 */
module TriePaths {
  import opened TrieNodes
  import opened Shapes

  /**
   * `m` names the vertices of the subtree rooted at path `q`: `q` is present, every path
   * extends `q`, every vertex but the subtree's root hangs under its parent by its last
   * character, each child edge leads to the vertex one character longer, and no vertex
   * has two paths (each records its own path in its ghost `path` field, so no vertex is
   * shared by two parents).
   */
  ghost predicate SubTree(m: map<string, TrieNode>, q: string)
    reads m.Values
  {
    && q in m
    && (forall k {:trigger Parent(k)} :: k in m && k != q ==>
          |k| > 0 && Parent(k) in m && k[|k| - 1] in m[Parent(k)].children)
    && (forall k, ch {:trigger ch in m[k].children} :: k in m && ch in m[k].children ==>
          k + [ch] in m && m[k + [ch]] == m[k].children[ch])
    && (forall k {:trigger m[k].path} :: k in m ==> m[k].path == k && q <= k)
  }

  /** `c` holds the terminal flag and frequency field of every vertex, by path. */
  ghost predicate Mirrors(m: map<string, TrieNode>, c: Shape)
    reads m.Values
  {
    && m.Keys == c.Keys
    && (forall k {:trigger c[k]} :: k in c ==> c[k] == Cell(m[k].isEnd, m[k].frequency))
  }

  /** Every vertex named by `m` belongs to `o`; so two owners never share a vertex. */
  ghost predicate OwnedBy(m: map<string, TrieNode>, o: object)
    reads m.Values
  {
    forall k :: k in m ==> m[k].owner == o
  }

  /**
   * Nothing of a rooted subtree lies at or below `p + [ch]` when the vertex at `p` has no
   * child `ch`, so a subtree rooted there shares no path with it.
   */
  lemma NewBranch(m: map<string, TrieNode>, p: string, ch: char, mc: map<string, TrieNode>)
    requires SubTree(m, []) && p in m && ch !in m[p].children && SubTree(mc, p + [ch])
    ensures Below(m.Keys, p + [ch]) == {} && m.Keys !! mc.Keys
  {
    assert Parent(p + [ch]) == p;
    forall k | k in m && p + [ch] <= k ensures false {
      AncestorInSubTree(m, [], p + [ch], k);
    }
    forall k | k in mc ensures k !in m {
      InSubTree(mc, p + [ch], k);
    }
  }

  /** A lone vertex recording path `q` is a subtree rooted at `q` holding one cell. */
  lemma Single(n: TrieNode, q: string, c: Cell, o: object)
    requires n.children == map[] && n.path == q && n.owner == o && c == Cell(n.isEnd, n.frequency)
    ensures SubTree(map[q := n], q) && Mirrors(map[q := n], map[q := c]) && OwnedBy(map[q := n], o)
  {
  }

  /** Every vertex of the subtree lies below its root and records its own path. */
  lemma InSubTree(m: map<string, TrieNode>, q: string, k: string)
    requires SubTree(m, q) && k in m
    ensures q <= k && m[k].path == k
  {
    assert m[k].path == k;
  }

  lemma {:induction false} SubTreeAncestors(m: map<string, TrieNode>, q: string, k: string, j: nat)
    requires SubTree(m, q) && k in m && |q| <= j <= |k|
    ensures k[..j] in m
    decreases |k| - j
  {
    if j < |k| {
      SubTreeAncestors(m, q, k, j + 1);
      assert k[..j + 1] != q;
      assert Parent(k[..j + 1]) == k[..j];
    } else {
      assert k[..j] == k;
    }
  }

  /** A vertex below `p` is reached through the child of `p` named by its next character. */
  lemma ChildOnPath(m: map<string, TrieNode>, q: string, p: string, k: string)
    requires SubTree(m, q) && p in m && k in m && p < k
    ensures k[..|p| + 1] in m && k[|p|] in m[p].children
    ensures m[p].children[k[|p|]] == m[k[..|p| + 1]]
  {
    InSubTree(m, q, p);
    SubTreeAncestors(m, q, k, |p| + 1);
    var c := k[..|p| + 1];
    var ch := k[|p|];
    assert c == p + [ch] by {
      assert k[..|p|] == p;
    }
    assert |c| > |q| && Parent(c) == p;
    assert ch in m[p].children;
  }

  /** A vertex on the path of `w` at depth `i` has the next character of `w` as a child. */
  lemma NextOnPath(m: map<string, TrieNode>, q: string, w: string, i: nat)
    requires SubTree(m, q) && i < |w| && q <= w[..i] && w[..i] in m
    ensures w in m ==> w[i] in m[w[..i]].children
  {
    if w in m {
      ChildOnPath(m, q, w[..i], w);
    }
  }

  /**
   * Linking a fresh leaf `n` under the vertex at `p` by `ch` (nothing else on the heap
   * changed) extends the path map by `p + [ch]` and the contents by one blank vertex.
   */
  twostate lemma AddLeaf(m: map<string, TrieNode>, new c: Shape, new p: string, new ch: char, new n: TrieNode)
    requires old(SubTree(m, [])) && old(Mirrors(m, c)) && p in m && p + [ch] !in m
    requires !old(allocated(n))
    requires m[p].children == old(m[p].children)[ch := n]
    requires forall j :: j in m && m[j] != m[p] ==> unchanged(m[j])
    requires m[p].path == old(m[p].path)
    requires m[p].isEnd == old(m[p].isEnd) && m[p].frequency == old(m[p].frequency)
    requires n.children == map[] && !n.isEnd && n.frequency == 0 && n.path == p + [ch]
    ensures SubTree(m[p + [ch] := n], [])
    ensures Mirrors(m[p + [ch] := n], c[p + [ch] := Cell(false, 0)])
  {
    AddLeafParents(m, p, ch, n);
    AddLeafEdges(m, p, ch, n);
    AddLeafPaths(m, p, ch, n);
    AddLeafCells(m, c, p, ch, n);
  }

  /** After linking, every vertex but the root still hangs under its parent. */
  twostate lemma AddLeafParents(m: map<string, TrieNode>, new p: string, new ch: char, new n: TrieNode)
    requires old(SubTree(m, [])) && p in m && p + [ch] !in m
    requires m[p].children == old(m[p].children)[ch := n]
    requires forall j :: j in m && m[j] != m[p] ==> unchanged(m[j])
    ensures forall k {:trigger Parent(k)} :: k in m[p + [ch] := n] && k != [] ==>
              |k| > 0 && Parent(k) in m[p + [ch] := n] && k[|k| - 1] in m[p + [ch] := n][Parent(k)].children
  {
    var m' := m[p + [ch] := n];
    forall k | k in m' && k != []
      ensures |k| > 0 && Parent(k) in m' && k[|k| - 1] in m'[Parent(k)].children
    {
      if k == p + [ch] {
        assert Parent(k) == p;
      }
    }
  }

  /** After linking, every child edge leads to the vertex one character longer. */
  twostate lemma AddLeafEdges(m: map<string, TrieNode>, new p: string, new ch: char, new n: TrieNode)
    requires old(SubTree(m, [])) && p in m && p + [ch] !in m
    requires !old(allocated(n))
    requires m[p].children == old(m[p].children)[ch := n]
    requires forall j :: j in m && m[j] != m[p] ==> unchanged(m[j])
    requires n.children == map[]
    ensures forall k, d {:trigger d in m[p + [ch] := n][k].children} ::
              k in m[p + [ch] := n] && d in m[p + [ch] := n][k].children ==>
              k + [d] in m[p + [ch] := n] && m[p + [ch] := n][k + [d]] == m[p + [ch] := n][k].children[d]
  {
    var m' := m[p + [ch] := n];
    forall k, d | k in m' && d in m'[k].children
      ensures k + [d] in m' && m'[k + [d]] == m'[k].children[d]
    {
      if k != p + [ch] && k != p {
        assert m[k] != m[p] by {
          assert old(m[k].path) == k && old(m[p].path) == p;
        }
        assert d in old(m[k].children);
      }
    }
  }

  /** After linking, every vertex still records its own path. */
  twostate lemma AddLeafPaths(m: map<string, TrieNode>, new p: string, new ch: char, new n: TrieNode)
    requires old(SubTree(m, [])) && p in m && p + [ch] !in m
    requires forall j :: j in m && m[j] != m[p] ==> unchanged(m[j])
    requires m[p].path == old(m[p].path)
    requires n.path == p + [ch]
    ensures forall k {:trigger m[p + [ch] := n][k].path} :: k in m[p + [ch] := n] ==>
              m[p + [ch] := n][k].path == k && [] <= k
  {
    var m' := m[p + [ch] := n];
    forall k | k in m' ensures m'[k].path == k && [] <= k {
      if k != p + [ch] {
        assert old(m[k].path) == k;
      }
    }
  }

  /** After linking, the contents gain the blank cell of the new leaf. */
  twostate lemma AddLeafCells(m: map<string, TrieNode>, new c: Shape, new p: string, new ch: char, new n: TrieNode)
    requires old(Mirrors(m, c)) && p in m && p + [ch] !in m
    requires forall j :: j in m && m[j] != m[p] ==> unchanged(m[j])
    requires m[p].isEnd == old(m[p].isEnd) && m[p].frequency == old(m[p].frequency)
    requires !n.isEnd && n.frequency == 0
    ensures Mirrors(m[p + [ch] := n], c[p + [ch] := Cell(false, 0)])
  {
  }

  /**
   * Hanging a whole subtree `mc`, rooted at `p + [ch]`, owned by `o` and sharing no path
   * with `m`, under the vertex at `p` (nothing else of `m` or `mc` changed on the heap)
   * joins the two path maps and their contents.
   */
  twostate lemma Graft(m: map<string, TrieNode>, new c: Shape, new q: string, new p: string, new ch: char,
                       new mc: map<string, TrieNode>, new cc: Shape, new o: object)
    requires old(allocated(mc)) && old(allocated(o))
    requires old(SubTree(m, q)) && old(Mirrors(m, c)) && old(OwnedBy(m, o)) && p in m && m.Keys !! mc.Keys
    requires old(SubTree(mc, p + [ch])) && old(Mirrors(mc, cc)) && old(OwnedBy(mc, o))
    requires forall j :: j in mc ==> unchanged(mc[j])
    requires m[p].children == old(m[p].children)[ch := mc[p + [ch]]]
    requires forall j :: j in m && m[j] != m[p] ==> unchanged(m[j])
    requires m[p].path == old(m[p].path) && m[p].owner == old(m[p].owner)
    requires m[p].isEnd == old(m[p].isEnd) && m[p].frequency == old(m[p].frequency)
    ensures SubTree(m + mc, q) && Mirrors(m + mc, c + cc) && OwnedBy(m + mc, o)
  {
    Untouched(mc, p + [ch], cc, o);
    GraftParents(m, q, p, ch, mc);
    GraftEdges(m, q, p, ch, mc);
    GraftPaths(m, q, p, ch, mc);
    GraftCells(m, c, p, mc, cc);
    GraftOwners(m, p, mc, o);
  }

  /** A subtree none of whose vertices changed on the heap keeps its shape, contents and owner. */
  twostate lemma Untouched(new mc: map<string, TrieNode>, new r: string, new cc: Shape, new o: object)
    requires old(allocated(mc)) && old(allocated(o))
    requires old(SubTree(mc, r)) && old(Mirrors(mc, cc)) && old(OwnedBy(mc, o))
    requires forall j :: j in mc ==> unchanged(mc[j])
    ensures SubTree(mc, r) && Mirrors(mc, cc) && OwnedBy(mc, o)
  {
  }

  /** After grafting, every vertex of both parts still belongs to `o`. */
  twostate lemma GraftOwners(m: map<string, TrieNode>, new p: string, new mc: map<string, TrieNode>, new o: object)
    requires old(allocated(o)) && old(OwnedBy(m, o)) && p in m && OwnedBy(mc, o)
    requires forall j :: j in m && m[j] != m[p] ==> unchanged(m[j])
    requires m[p].owner == old(m[p].owner)
    ensures OwnedBy(m + mc, o)
  {
  }

  /** After grafting, every vertex but the root hangs under its parent. */
  twostate lemma GraftParents(m: map<string, TrieNode>, new q: string, new p: string, new ch: char,
                              new mc: map<string, TrieNode>)
    requires old(SubTree(m, q)) && p in m && m.Keys !! mc.Keys
    requires SubTree(mc, p + [ch])
    requires m[p].children == old(m[p].children)[ch := mc[p + [ch]]]
    requires forall j :: j in m && m[j] != m[p] ==> unchanged(m[j])
    ensures forall k :: k in m + mc && k != q ==> |k| > 0
    ensures forall k {:trigger Parent(k)} :: k in m + mc && k != q ==>
              |k| > 0 && Parent(k) in m + mc && k[|k| - 1] in (m + mc)[Parent(k)].children
  {
    var m' := m + mc;
    forall k | k in m' && k != q
      ensures |k| > 0 && Parent(k) in m' && k[|k| - 1] in m'[Parent(k)].children
    {
      if k in mc {
        assert mc[k].path == k && p + [ch] <= k;
      } else {
        assert old(m[k].path) == k && q <= k;
      }
      if k == p + [ch] {
        assert Parent(k) == p && p !in mc;
      } else if k in mc {
        assert mc[k].path == k && p + [ch] <= k;
        assert Parent(k) in mc;
      } else {
        assert old(m[k].path) == k && q <= k;
        assert Parent(k) in m && k[|k| - 1] in old(m[Parent(k)].children);
        assert Parent(k) !in mc;
      }
    }
  }

  /** After grafting, every child edge leads to the vertex one character longer. */
  twostate lemma GraftEdges(m: map<string, TrieNode>, new q: string, new p: string, new ch: char,
                            new mc: map<string, TrieNode>)
    requires old(SubTree(m, q)) && p in m && m.Keys !! mc.Keys
    requires SubTree(mc, p + [ch])
    requires m[p].children == old(m[p].children)[ch := mc[p + [ch]]]
    requires forall j :: j in m && m[j] != m[p] ==> unchanged(m[j])
    ensures forall k, d {:trigger d in (m + mc)[k].children} ::
              k in m + mc && d in (m + mc)[k].children ==>
              k + [d] in m + mc && (m + mc)[k + [d]] == (m + mc)[k].children[d]
  {
    var m' := m + mc;
    forall k, d | k in m' && d in m'[k].children
      ensures k + [d] in m' && m'[k + [d]] == m'[k].children[d]
    {
      if k in mc {
        assert k + [d] in mc;
      } else if k == p {
        if d != ch {
          assert d in old(m[p].children);
          assert p + [d] !in mc;
        }
      } else {
        assert m[k] != m[p] by {
          assert old(m[k].path) == k && old(m[p].path) == p;
        }
        assert d in old(m[k].children);
        assert k + [d] !in mc;
      }
    }
  }

  /** After grafting, every vertex records its own path and lies below `q`. */
  twostate lemma GraftPaths(m: map<string, TrieNode>, new q: string, new p: string, new ch: char,
                            new mc: map<string, TrieNode>)
    requires old(SubTree(m, q)) && p in m && m.Keys !! mc.Keys
    requires SubTree(mc, p + [ch])
    requires forall j :: j in m && m[j] != m[p] ==> unchanged(m[j])
    requires m[p].path == old(m[p].path)
    ensures forall k {:trigger (m + mc)[k].path} :: k in m + mc ==> (m + mc)[k].path == k && q <= k
  {
    var m' := m + mc;
    assert old(m[p].path) == p && q <= p;
    forall k | k in m' ensures m'[k].path == k && q <= k {
      if k in mc {
        assert mc[k].path == k && p + [ch] <= k;
        assert k[..|q|] == q by {
          assert k[..|p|] == p;
        }
      } else {
        assert old(m[k].path) == k;
      }
    }
  }

  /** After grafting, the contents are those of both parts. */
  twostate lemma GraftCells(m: map<string, TrieNode>, new c: Shape, new p: string,
                            new mc: map<string, TrieNode>, new cc: Shape)
    requires old(Mirrors(m, c)) && p in m && m.Keys !! mc.Keys && Mirrors(mc, cc)
    requires forall j :: j in m && m[j] != m[p] ==> unchanged(m[j])
    requires m[p].isEnd == old(m[p].isEnd) && m[p].frequency == old(m[p].frequency)
    ensures Mirrors(m + mc, c + cc)
  {
  }

  /**
   * Writing the terminal flag or the frequency of the vertex at `k` (and nothing else)
   * keeps the tree and changes only that vertex's cell.
   */
  twostate lemma SetCell(m: map<string, TrieNode>, new c: Shape, new q: string, new k: string)
    requires old(SubTree(m, q)) && old(Mirrors(m, c)) && k in m
    requires forall j :: j in m && m[j] != m[k] ==> unchanged(m[j])
    requires m[k].children == old(m[k].children) && m[k].path == old(m[k].path)
    ensures SubTree(m, q)
    ensures Mirrors(m, c[k := Cell(m[k].isEnd, m[k].frequency)])
  {
    forall j | j in m ensures m[j].path == j && q <= j {
      assert old(m[j].path) == j;
    }
  }

  /**
   * Unlinking the leaf at `p + [ch]` from its parent (nothing else on the heap changed)
   * drops that one path and its cell.
   */
  twostate lemma RemoveLeaf(m: map<string, TrieNode>, new c: Shape, new p: string, new ch: char)
    requires old(SubTree(m, [])) && old(Mirrors(m, c)) && p in m && p + [ch] in m
    requires !HasExtension(c, p + [ch])
    requires m[p].children == old(m[p].children) - {ch}
    requires forall j :: j in m && m[j] != m[p] ==> unchanged(m[j])
    requires m[p].path == old(m[p].path)
    requires m[p].isEnd == old(m[p].isEnd) && m[p].frequency == old(m[p].frequency)
    ensures SubTree(m - {p + [ch]}, [])
    ensures Mirrors(m - {p + [ch]}, c - {p + [ch]})
  {
    RemoveLeafParents(m, c, p, ch);
    RemoveLeafEdges(m, c, p, ch);
    RemoveLeafPaths(m, c, p, ch);
  }

  /** After unlinking, every remaining vertex still hangs under its parent. */
  twostate lemma RemoveLeafParents(m: map<string, TrieNode>, new c: Shape, new p: string, new ch: char)
    requires old(SubTree(m, [])) && old(Mirrors(m, c)) && p in m && p + [ch] in m
    requires !HasExtension(c, p + [ch])
    requires m[p].children == old(m[p].children) - {ch}
    requires forall j :: j in m && m[j] != m[p] ==> unchanged(m[j])
    requires m[p].path == old(m[p].path)
    ensures forall k {:trigger Parent(k)} :: k in m - {p + [ch]} && k != [] ==>
              |k| > 0 && Parent(k) in m - {p + [ch]} && k[|k| - 1] in (m - {p + [ch]})[Parent(k)].children
  {
    var m' := m - {p + [ch]};
    forall k | k in m' && k != []
      ensures |k| > 0 && Parent(k) in m' && k[|k| - 1] in m'[Parent(k)].children
    {
      assert Parent(k) in m;
      assert Parent(k) != p + [ch] by {
        assert k in c && Parent(k) < k;
      }
      if Parent(k) == p {
        assert k == p + [k[|k| - 1]];
      }
    }
  }

  /** After unlinking, every remaining child edge leads to a remaining vertex. */
  twostate lemma RemoveLeafEdges(m: map<string, TrieNode>, new c: Shape, new p: string, new ch: char)
    requires old(SubTree(m, [])) && old(Mirrors(m, c)) && p in m && p + [ch] in m
    requires !HasExtension(c, p + [ch])
    requires m[p].children == old(m[p].children) - {ch}
    requires forall j :: j in m && m[j] != m[p] ==> unchanged(m[j])
    requires m[p].path == old(m[p].path)
    ensures forall k, d {:trigger d in (m - {p + [ch]})[k].children} ::
              k in m - {p + [ch]} && d in (m - {p + [ch]})[k].children ==>
              k + [d] in m - {p + [ch]} && (m - {p + [ch]})[k + [d]] == (m - {p + [ch]})[k].children[d]
  {
    var m' := m - {p + [ch]};
    forall k, d | k in m' && d in m'[k].children
      ensures k + [d] in m' && m'[k + [d]] == m'[k].children[d]
    {
      if k == p {
        assert d != ch && d in old(m[p].children);
        assert (k + [d])[|p|] == d;
      } else {
        assert m[k] != m[p] by {
          assert old(m[k].path) == k && old(m[p].path) == p;
        }
        assert d in old(m[k].children);
        assert Parent(k + [d]) == k && Parent(p + [ch]) == p;
      }
    }
  }

  /** After unlinking, every remaining vertex still records its own path. */
  twostate lemma RemoveLeafPaths(m: map<string, TrieNode>, new c: Shape, new p: string, new ch: char)
    requires old(SubTree(m, [])) && old(Mirrors(m, c)) && p in m && p + [ch] in m
    requires !HasExtension(c, p + [ch])
    requires m[p].children == old(m[p].children) - {ch}
    requires forall j :: j in m && m[j] != m[p] ==> unchanged(m[j])
    requires m[p].path == old(m[p].path)
    ensures forall k {:trigger (m - {p + [ch]})[k].path} :: k in m - {p + [ch]} ==>
              (m - {p + [ch]})[k].path == k && [] <= k
  {
    var m' := m - {p + [ch]};
    forall k | k in m' ensures m'[k].path == k && [] <= k {
      assert old(m[k].path) == k;
    }
  }

  /** A vertex is a leaf on the heap exactly when no path extends its own. */
  lemma LeafIffNoExtension(m: map<string, TrieNode>, c: Shape, q: string, p: string)
    requires SubTree(m, q) && m.Keys == c.Keys && p in m
    ensures |m[p].children| == 0 <==> !HasExtension(c, p)
  {
    if |m[p].children| != 0 {
      var ch :| ch in m[p].children;
      assert p < p + [ch] && p + [ch] in c;
    }
    if HasExtension(c, p) {
      var k :| k in c && p < k;
      ChildOnPath(m, q, p, k);
    }
  }

  /** Every vertex strictly below `p` is reached through one of the children of `p`. */
  lemma ChildrenCover(m: map<string, TrieNode>, q: string, p: string)
    requires SubTree(m, q) && p in m
    ensures forall k :: k in m && p < k ==> k[|p|] in m[p].children
  {
    forall k | k in m && p < k ensures k[|p|] in m[p].children {
      ChildOnPath(m, q, p, k);
    }
  }

  /** A path map rooted at the empty path describes a prefix-closed trie. */
  lemma RootedIsPrefixClosed(m: map<string, TrieNode>, c: Shape)
    requires SubTree(m, []) && Mirrors(m, c)
    ensures PrefixClosed(c)
  {
    forall k | k in c && k != [] ensures Parent(k) in c {
    }
  }

  /** Every vertex's ancestors inside the subtree are vertices too. */
  lemma AncestorInSubTree(m: map<string, TrieNode>, q: string, p: string, k: string)
    requires SubTree(m, q) && q <= p
    ensures k in m && p <= k ==> p in m
  {
    if k in m && p <= k {
      SubTreeAncestors(m, q, k, |p|);
      assert k[..|p|] == p;
    }
  }
}
