/**
 * The abstract contents of a trie: every vertex named by the path of characters that
 * leads to it from the root, with its raw terminal flag and raw frequency field.
 * The operations of src/trie/prefix_trie.py are specified here as functions on
 * these path maps; the heap implementation in prefix_trie.dfy is proved against them.
 */
module Shapes {
  import opened Wrappers

  /** The two data fields of one vertex. */
  datatype Cell = Cell(isEnd: bool, freq: int)

  type Shape = map<string, Cell>

  function Parent(k: string): string
    requires |k| > 0
  {
    k[..|k| - 1]
  }

  /** The root is present and the parent of every present vertex is present. */
  predicate PrefixClosed(c: Shape)
  {
    [] in c && forall k :: k in c && k != [] ==> Parent(k) in c
  }

  /** A trie with only its root, as `PrefixTrie()` creates it. */
  function Empty(): Shape
  {
    map[[] := Cell(false, 0)]
  }

  /** The stored words: the paths of terminal vertices, with their frequency. */
  function Words(c: Shape): map<string, int>
  {
    map k | k in c && c[k].isEnd :: c[k].freq
  }

  /** The frequency field at path `k`, or 0 where no vertex exists yet. */
  function RawFreq(c: Shape, k: string): int
  {
    if k in c then c[k].freq else 0
  }

  /** Some vertex lies strictly below `p`, i.e. the vertex at `p` is not a leaf. */
  predicate HasExtension(c: Shape, p: string)
  {
    exists k :: k in c && p < k
  }

  /** No vertex other than the root is a non-terminal leaf. */
  predicate NoDeadLeaves(c: Shape)
  {
    forall p :: p in c && p != [] ==> c[p].isEnd || HasExtension(c, p)
  }

  /** Every non-terminal vertex has frequency 0 (no count left behind by a delete). */
  predicate NoStale(c: Shape)
  {
    forall k :: k in c && !c[k].isEnd ==> c[k].freq == 0
  }

  lemma {:induction false} PrefixesPresent(c: Shape, k: string, j: nat)
    requires PrefixClosed(c) && k in c && j <= |k|
    ensures k[..j] in c
    decreases |k| - j
  {
    if j < |k| {
      PrefixesPresent(c, k, j + 1);
      assert Parent(k[..j + 1]) == k[..j];
    } else {
      assert k[..j] == k;
    }
  }

  // ---------------------------------------------------------------- insert

  function Prefixes(w: string): set<string>
  {
    set j | 0 <= j <= |w| :: w[..j]
  }

  lemma PrefixesAre(w: string, k: string)
    ensures k in Prefixes(w) <==> k <= w
  {
    if k <= w {
      assert k == w[..|k|];
    }
  }

  /** Every missing prefix of `w` (w included) gets a new vertex: not terminal, frequency 0. */
  function Extend(c: Shape, w: string): Shape
  {
    map k | k in c.Keys + Prefixes(w) :: if k in c then c[k] else Cell(false, 0)
  }

  /** `insert(w, f)`: create the missing path, mark the last vertex terminal and add `f`. */
  function Insert(c: Shape, w: string, f: int): Shape
  {
    Extend(c, w)[w := Cell(true, RawFreq(c, w) + f)]
  }

  /**
   * After `insert(w, f)` the word `w` is stored with its previous frequency field plus `f`
   * (so repeated inserts accumulate, and a fresh word gets exactly `f`); every other word
   * keeps its membership and frequency, and exactly the prefixes of `w` are added as paths.
   */
  lemma InsertSpec(c: Shape, w: string, f: int)
    ensures Words(Insert(c, w, f)) == Words(c)[w := RawFreq(c, w) + f]
    ensures w !in c ==> Words(Insert(c, w, f))[w] == f
    ensures w in Words(c) ==> Words(Insert(c, w, f))[w] == Words(c)[w] + f
    ensures forall k :: k in Insert(c, w, f) <==> k in c || k <= w
  {
    var r := Insert(c, w, f);
    forall k ensures k in r <==> k in c || k <= w {
      PrefixesAre(w, k);
    }
    assert Words(r).Keys == Words(c).Keys + {w};
  }

  /** A strict prefix of the inserted word is not made a word by the insert. */
  lemma InsertPrefixNotWord(c: Shape, w: string, f: int, p: string)
    requires p < w && p !in Words(c)
    ensures p !in Words(Insert(c, w, f))
  {
    InsertSpec(c, w, f);
  }

  lemma InsertKeepsInvariants(c: Shape, w: string, f: int)
    requires PrefixClosed(c)
    ensures PrefixClosed(Insert(c, w, f))
    ensures NoDeadLeaves(c) ==> NoDeadLeaves(Insert(c, w, f))
  {
    var r := Insert(c, w, f);
    InsertSpec(c, w, f);
    forall k | k in r && k != []
      ensures Parent(k) in r
    {
      if k !in c {
        assert Parent(k) <= w;
      }
    }
    if NoDeadLeaves(c) {
      forall p | p in r && p != []
        ensures r[p].isEnd || HasExtension(r, p)
      {
        if p in c && p != w {
          assert c[p].isEnd || HasExtension(c, p);
          if !c[p].isEnd {
            var k :| k in c && p < k;
            assert k in r;
          }
        } else if p != w {
          assert p < w && w in r;
        }
      }
    }
  }

  /** Walking the insert loop one more character adds at most the next prefix. */
  lemma ExtendStep(c: Shape, w: string, i: nat)
    requires i < |w|
    ensures w[..i + 1] in Extend(c, w[..i]) <==> w[..i + 1] in c
    ensures w[..i + 1] in c ==> Extend(c, w[..i + 1]) == Extend(c, w[..i])
    ensures w[..i + 1] !in c ==>
      Extend(c, w[..i + 1]) == Extend(c, w[..i])[w[..i + 1] := Cell(false, 0)]
  {
    forall k ensures k in Prefixes(w[..i + 1]) <==> k in Prefixes(w[..i]) || k == w[..i + 1] {
      PrefixesAre(w[..i + 1], k);
      PrefixesAre(w[..i], k);
      if k <= w[..i + 1] && k != w[..i + 1] {
        assert |k| <= i && k == w[..i][..|k|];
      }
    }
  }

  /** The vertex of `w` after the walk holds the frequency field `insert` adds to. */
  lemma ExtendedEnd(c: Shape, w: string, f: int)
    ensures w in Extend(c, w)
    ensures Insert(c, w, f) == Extend(c, w)[w := Cell(true, Extend(c, w)[w].freq + f)]
  {
    PrefixesAre(w, w);
  }

  /** Before the loop has read a character nothing is extended. */
  lemma ExtendNothing(c: Shape)
    requires [] in c
    ensures Extend(c, []) == c
  {
    forall k ensures k in Prefixes([]) <==> k == [] {
      PrefixesAre([], k);
    }
  }

  // ---------------------------------------------------------------- delete

  /**
   * The subtree at `p` would be entirely removed when `w` is deleted: every vertex in it
   * lies on the path of `w`, and none is terminal except the vertex of `w` itself.
   */
  predicate Dead(c: Shape, w: string, p: string)
  {
    forall k :: k in c && p <= k ==> k <= w && (c[k].isEnd ==> k == w)
  }

  /**
   * The state after the recursive delete has returned to depth `d`: `w` is no longer
   * terminal (its frequency field is left as it was) and every vertex on its path deeper
   * than `d` whose subtree has become dead is pruned. An absent `w` changes nothing.
   */
  function DeleteBelow(c: Shape, w: string, d: nat): Shape
  {
    if w in c && c[w].isEnd then
      map k | k in c && !(d < |k| && k <= w && Dead(c, w, k)) ::
        if k == w then Cell(false, c[w].freq) else c[k]
    else
      c
  }

  /** `delete(w)`: the whole recursion, pruning up to (not including) the root. */
  function Delete(c: Shape, w: string): Shape
  {
    DeleteBelow(c, w, 0)
  }

  /** The value `delete(w)` returns: the root's own "should prune" flag. */
  predicate DeleteReports(c: Shape, w: string)
  {
    w in Words(c) && Dead(c, w, [])
  }

  /** Deleting removes `w` from the words and leaves every other word and frequency intact. */
  lemma DeleteSpec(c: Shape, w: string)
    ensures Words(Delete(c, w)) == map k | k in Words(c) && k != w :: Words(c)[k]
    ensures w !in Delete(c, w) || !Delete(c, w)[w].isEnd
    ensures w !in Words(c) ==> Delete(c, w) == c
  {
    var r := Delete(c, w);
    if w in Words(c) {
      forall k | k in c && k != w && c[k].isEnd
        ensures k in r
      {
      }
    }
  }

  /**
   * What `delete` returns: true exactly when `w` was stored and the root is left with no
   * children and not terminal (the trie is empty afterwards).
   */
  lemma DeleteResult(c: Shape, w: string)
    requires [] in c
    ensures DeleteReports(c, w) <==>
              w in Words(c) && Delete(c, w).Keys == {[]} && !Delete(c, w)[[]].isEnd
  {
    var r := Delete(c, w);
    if DeleteReports(c, w) {
      forall k | k in c && k != []
        ensures k !in r
      {
        DeadBelow(c, w, [], k);
      }
    }
    if w in Words(c) && r.Keys == {[]} && !r[[]].isEnd {
      forall k | k in c
        ensures k <= w && (c[k].isEnd ==> k == w)
      {
        if k != [] {
          assert k !in r;
        }
      }
    }
  }

  /** Deleting one of several stored words reports false although the word is removed. */
  lemma DeleteOneOfSeveral(c: Shape, w: string, v: string)
    requires w in Words(c) && v in Words(c) && v != w
    ensures !DeleteReports(c, w)
    ensures w !in Words(Delete(c, w)) && v in Words(Delete(c, w))
  {
    DeleteSpec(c, w);
  }

  /** Dead subtrees nest: below a dead vertex on `w`'s path everything is dead too. */
  lemma DeadBelow(c: Shape, w: string, p: string, q: string)
    ensures p <= q && Dead(c, w, p) ==> Dead(c, w, q)
  {
  }

  /** A vertex of `w`'s path whose parent is pruned is pruned as well. */
  lemma PrunedParent(c: Shape, w: string, k: string)
    requires k in c && k != []
    ensures Parent(k) <= w && Dead(c, w, Parent(k)) ==> k <= w && Dead(c, w, k)
  {
    DeadBelow(c, w, Parent(k), k);
  }

  /** Present vertices have all their ancestors present. */
  lemma AncestorPresent(c: Shape, k: string, e: string)
    requires PrefixClosed(c)
    ensures e in c && k <= e ==> k in c
  {
    if e in c && k <= e {
      PrefixesPresent(c, e, |k|);
      assert e[..|k|] == k;
    }
  }

  /** Delete keeps the trie prefix-closed and, when it had none, free of dead leaves. */
  lemma DeleteKeepsInvariants(c: Shape, w: string)
    requires PrefixClosed(c)
    ensures PrefixClosed(Delete(c, w))
    ensures NoDeadLeaves(c) ==> NoDeadLeaves(Delete(c, w))
  {
    var r := Delete(c, w);
    if w in Words(c) {
      forall k | k in r && k != []
        ensures Parent(k) in r
      {
        PrunedParent(c, w, k);
      }
      if NoDeadLeaves(c) {
        forall p | p in r && p != []
          ensures r[p].isEnd || HasExtension(r, p)
        {
          DeleteKeepsPathAlive(c, w, p);
        }
      }
    }
  }

  /**
   * A surviving vertex that is not terminal after the delete still has a surviving vertex
   * below it, provided it had one before the delete or lies on the deleted word's path.
   */
  lemma DeleteKeepsPathAlive(c: Shape, w: string, p: string)
    requires PrefixClosed(c) && w in Words(c)
    requires p in Delete(c, w) && p != []
    requires p <= w || c[p].isEnd || HasExtension(c, p)
    ensures Delete(c, w)[p].isEnd || HasExtension(Delete(c, w), p)
  {
    var r := Delete(c, w);
    if !r[p].isEnd {
      var k: string;
      if p <= w {
        assert !Dead(c, w, p);
        k :| k in c && p <= k && !(k <= w && (c[k].isEnd ==> k == w));
        assert k != p;
      } else {
        k :| k in c && p < k;
      }
      // the child of p on the way to k is not pruned
      PrefixesPresent(c, k, |p| + 1);
      var child := k[..|p| + 1];
      assert p < child <= k;
      assert !(child <= w && Dead(c, w, child));
      assert child in r;
    }
  }

  /**
   * After a delete no vertex on `w`'s path other than the root is a non-terminal leaf.
   */
  lemma DeleteLeavesNoDeadLeafOnPath(c: Shape, w: string, p: string)
    requires PrefixClosed(c) && w in Words(c)
    requires p in Delete(c, w) && p != [] && p <= w
    ensures Delete(c, w)[p].isEnd || HasExtension(Delete(c, w), p)
  {
    DeleteKeepsPathAlive(c, w, p);
  }

  /**
   * One return of the recursive delete at depth `d` (below the end of `w`): the pruning
   * done at `d` is the pruning done at `d + 1` plus, when the child on `w`'s path reported
   * a dead subtree, that child.
   */
  lemma DeleteBelowStep(c: Shape, w: string, d: nat)
    requires d < |w|
    ensures w in Words(c) && Dead(c, w, w[..d + 1]) ==>
      DeleteBelow(c, w, d) == DeleteBelow(c, w, d + 1) - {w[..d + 1]}
    ensures !(w in Words(c) && Dead(c, w, w[..d + 1])) ==>
      DeleteBelow(c, w, d) == DeleteBelow(c, w, d + 1)
  {
    forall k | k in c && |k| == d + 1 && k <= w
      ensures k == w[..d + 1]
    {
    }
  }

  /** At the end of `w` nothing is pruned yet; only the terminal flag is cleared. */
  lemma DeleteBelowEnd(c: Shape, w: string)
    requires w in Words(c)
    ensures DeleteBelow(c, w, |w|) == c[w := Cell(false, c[w].freq)]
    ensures Dead(c, w, w) <==> !HasExtension(c, w)
  {
    var r := DeleteBelow(c, w, |w|);
    forall k ensures k in r <==> k in c {
    }
    if !HasExtension(c, w) {
      forall k | k in c && w <= k ensures k == w {
        assert !(w < k);
      }
    }
  }

  /** A child that reported a dead subtree has become a leaf once its recursion returned. */
  lemma PrunedChildIsLeaf(c: Shape, w: string, d: nat)
    requires d < |w| && w in Words(c) && Dead(c, w, w[..d + 1])
    ensures !HasExtension(DeleteBelow(c, w, d + 1), w[..d + 1])
  {
    var r := DeleteBelow(c, w, d + 1);
    forall k | k in r ensures !(w[..d + 1] < k) {
      DeadBelow(c, w, w[..d + 1], k);
    }
  }

  /**
   * After pruning the dead child at depth `d`, the vertex at `w[..d]` is still present and
   * reports its own subtree dead exactly when it is not terminal and has no child left.
   */
  lemma DeadIffEmptied(c: Shape, w: string, d: nat)
    requires d < |w| && w in Words(c) && w[..d] in c && Dead(c, w, w[..d + 1])
    ensures w[..d] in DeleteBelow(c, w, d)
    ensures Dead(c, w, w[..d]) <==>
      !DeleteBelow(c, w, d)[w[..d]].isEnd && !HasExtension(DeleteBelow(c, w, d), w[..d])
  {
    var r := DeleteBelow(c, w, d);
    var p := w[..d];
    assert p in r && r[p] == c[p];
    if Dead(c, w, p) {
      forall k | k in r ensures !(p < k) {
        DeadBelow(c, w, p, k);
      }
    }
    if !c[p].isEnd && !HasExtension(r, p) {
      forall k | k in c && p <= k ensures k <= w && (c[k].isEnd ==> k == w) {
        if k != p {
          assert k !in r;
        }
      }
    }
  }

  /** A dead vertex on the path of `w` has a dead child on that path. */
  lemma DeadOnPath(c: Shape, w: string, d: nat)
    requires d < |w|
    ensures Dead(c, w, w[..d]) ==> Dead(c, w, w[..d + 1])
  {
    assert w[..d] <= w[..d + 1];
    DeadBelow(c, w, w[..d], w[..d + 1]);
  }

  /**
   * Inserting a word whose path did not exist and deleting it again restores the trie
   * exactly, when the trie had no dead leaves to begin with.
   */
  lemma InsertThenDelete(c: Shape, w: string, f: int)
    requires PrefixClosed(c) && NoDeadLeaves(c) && w !in c
    ensures Delete(Insert(c, w, f), w) == c
  {
    var i := Insert(c, w, f);
    InsertSpec(c, w, f);
    var r := Delete(i, w);
    forall k | k in c
      ensures k in r && r[k] == c[k]
    {
      if k != [] && k <= w {
        InsertedPathStops(c, w, f, k);
      }
    }
    forall k | k in i && k !in c
      ensures k !in r
    {
      assert k <= w && k != [];
      forall e | e in i && k <= e
        ensures e <= w && (i[e].isEnd ==> e == w)
      {
        AncestorPresent(c, k, e);
      }
    }
  }

  /**
   * The delete of a freshly inserted word stops pruning at the first vertex that existed
   * before the insert: in a trie without dead leaves that vertex is terminal or branches.
   */
  lemma {:induction false} InsertedPathStops(c: Shape, w: string, f: int, k: string)
    requires PrefixClosed(c) && NoDeadLeaves(c) && w !in c
    requires k in c && k != [] && k <= w
    ensures !Dead(Insert(c, w, f), w, k)
    decreases |w| - |k|
  {
    var i := Insert(c, w, f);
    InsertSpec(c, w, f);
    assert k != w && i[k] == c[k];
    if !c[k].isEnd {
      var e :| e in c && k < e;
      if e <= w {
        InsertedPathStops(c, w, f, e);
      } else {
        assert e in i && k <= e;
      }
    }
  }

  // ---------------------------------------------------------------- enumeration

  /** The paths of `ws` in the subtree at `p` (`p` itself included). */
  function Below(ws: set<string>, p: string): set<string>
  {
    set k | k in ws && p <= k
  }

  /** Going one character deeper strictly shrinks the set of paths still below. */
  lemma BelowShrinks(ws: set<string>, p: string, ch: char)
    requires p in ws
    ensures Below(ws, p + [ch]) < Below(ws, p)
  {
    assert p in Below(ws, p) && p !in Below(ws, p + [ch]);
  }

  /** The paths of `ws` strictly below `p` whose next character is one of `chs`. */
  function Via(ws: set<string>, p: string, chs: set<char>): set<string>
  {
    set k | k in ws && p < k && k[|p|] in chs
  }

  /** Visiting one more child `ch` of `p` adds exactly the paths below `p + [ch]`. */
  lemma ViaStep(ws: set<string>, p: string, chs: set<char>, ch: char)
    requires ch !in chs
    ensures Via(ws, p, chs + {ch}) == Via(ws, p, chs) + Below(ws, p + [ch])
    ensures Via(ws, p, chs) !! Below(ws, p + [ch]) && p !in Below(ws, p + [ch])
  {
    forall k | k in Below(ws, p + [ch]) ensures p < k && k[|p|] == ch {
      assert k[..|p| + 1] == p + [ch];
    }
    forall k | k in Via(ws, p, chs + {ch}) && k[|p|] == ch ensures p + [ch] <= k {
      assert k[..|p|] == p;
    }
  }

  /**
   * When every path below `p` continues with a character of `chs`, the subtree at `p`
   * is `p` itself (if present) and the paths via `chs`.
   */
  lemma ViaAll(ws: set<string>, p: string, chs: set<char>)
    requires forall k :: k in ws && p < k ==> k[|p|] in chs
    ensures Below(ws, p) == (if p in ws then {p} else {}) + Via(ws, p, chs)
  {
    forall k | k in Below(ws, p) && k != p ensures k in Via(ws, p, chs) {
      assert p < k;
    }
  }

  /** The size of the subtree at `p` as counted so far grows by the size of each child's. */
  lemma CountStep(ws: set<string>, p: string, chs: set<char>, ch: char)
    requires ch !in chs
    ensures |(if p in ws then {p} else {}) + Via(ws, p, chs + {ch})|
         == |(if p in ws then {p} else {}) + Via(ws, p, chs)| + |Below(ws, p + [ch])|
  {
    var own := if p in ws then {p} else {};
    ViaStep(ws, p, chs, ch);
    assert own + Via(ws, p, chs + {ch}) == (own + Via(ws, p, chs)) + Below(ws, p + [ch]);
    CardDisjointUnion(own + Via(ws, p, chs), Below(ws, p + [ch]));
  }

  /** `w` fits the `wildcard_match` pattern: same length, equal wherever `pat` has no `*`. */
  predicate FitsWildcard(w: string, pat: string)
  {
    |w| == |pat| && forall i :: 0 <= i < |pat| && pat[i] != '*' ==> w[i] == pat[i]
  }

  /** The stored words that fit the wildcard pattern `pat`. */
  function WildcardMatches(c: Shape, pat: string): set<string>
  {
    set k | k in Words(c) && FitsWildcard(k, pat)
  }

  /** At the end of the pattern the only candidate below `p` is `p` itself. */
  lemma WildcardAtEnd(c: Shape, pat: string, p: string)
    requires |p| == |pat| && FitsWildcard(p, pat[..|p|])
    ensures Below(WildcardMatches(c, pat), p) == if p in Words(c) then {p} else {}
  {
    assert pat[..|p|] == pat;
    forall k | k in Below(WildcardMatches(c, pat), p) ensures k == p {
      assert |k| == |p| && k[..|p|] == p;
    }
  }

  /** A literal pattern character: every match below `p` continues with that character. */
  lemma WildcardLiteral(c: Shape, pat: string, p: string)
    requires |p| < |pat| && pat[|p|] != '*'
    ensures Below(WildcardMatches(c, pat), p) == Below(WildcardMatches(c, pat), p + [pat[|p|]])
  {
    var ws := WildcardMatches(c, pat);
    forall k | k in Below(ws, p) ensures p + [pat[|p|]] <= k {
      assert k[|p|] == pat[|p|] && k[..|p|] == p;
    }
  }

  /** A pattern prefix that fits, extended by a character allowed at the next position. */
  lemma FitsOneMore(pat: string, p: string, ch: char)
    requires |p| < |pat| && FitsWildcard(p, pat[..|p|]) && (pat[|p|] == '*' || pat[|p|] == ch)
    ensures FitsWildcard(p + [ch], pat[..|p| + 1])
  {
  }

  // ---------------------------------------------------------------- merge

  /**
   * The vertex at `k` after merging `s` into `d`: where both have it and `s` marks a word
   * there, the destination becomes terminal and its frequency field grows by the source's;
   * where only `s` has it, it is a copy of the source vertex.
   */
  function MergeCell(d: Shape, s: Shape, k: string): Cell
    requires k in d || k in s
  {
    if k in d && k in s then
      (if s[k].isEnd then Cell(true, d[k].freq + s[k].freq) else d[k])
    else if k in s then s[k]
    else d[k]
  }

  /** `merge_trie`: the destination after merging every vertex of `s` into `d`. */
  function Merge(d: Shape, s: Shape): Shape
  {
    map k | k in d.Keys + s.Keys :: MergeCell(d, s, k)
  }

  /** The source words that were not terminal in the destination (the `added` count). */
  function Added(d: Shape, s: Shape): set<string>
  {
    set k | k in s && s[k].isEnd && !(k in d && d[k].isEnd)
  }

  /** The source words that were already terminal in the destination (the `updated` count). */
  function Updated(d: Shape, s: Shape): set<string>
  {
    set k | k in s && s[k].isEnd && k in d && d[k].isEnd
  }

  /**
   * After the merge the destination stores the union of both vocabularies; each source
   * word's frequency field grows by the source frequency; destination-only words keep
   * theirs; a source vertex the destination lacked is copied unchanged.
   */
  lemma MergeSpec(d: Shape, s: Shape)
    ensures Words(Merge(d, s)).Keys == Words(d).Keys + Words(s).Keys
    ensures forall w :: w in Words(s) ==> Words(Merge(d, s))[w] == RawFreq(d, w) + Words(s)[w]
    ensures forall w :: w in Words(d) && w !in Words(s) ==> Words(Merge(d, s))[w] == Words(d)[w]
    ensures forall k :: k in s && k !in d ==> Merge(d, s)[k] == s[k]
  {
  }

  /** `added` and `updated` partition the source words by whether the destination had them. */
  lemma MergeCounts(d: Shape, s: Shape)
    ensures Added(d, s) == Words(s).Keys - Words(d).Keys
    ensures Updated(d, s) == Words(s).Keys * Words(d).Keys
    ensures |Added(d, s)| + |Updated(d, s)| == |Words(s)|
  {
    assert Added(d, s) !! Updated(d, s);
    assert Added(d, s) + Updated(d, s) == Words(s).Keys;
  }

  /** Merging a trie into an exact copy of itself doubles every word and updates them all. */
  lemma MergeIntoCopy(c: Shape)
    ensures Words(Merge(c, c)) == map w | w in Words(c) :: 2 * Words(c)[w]
    ensures Added(c, c) == {}
    ensures |Updated(c, c)| == |Words(c)|
  {
    MergeCounts(c, c);
  }

  /**
   * Merging disjoint vocabularies adds every source word and updates none; with no stale
   * counts in the destination, every word keeps its original frequency.
   */
  lemma MergeDisjoint(d: Shape, s: Shape)
    requires Words(d).Keys !! Words(s).Keys
    ensures |Added(d, s)| == |Words(s)| && Updated(d, s) == {}
    ensures NoStale(d) ==> Words(Merge(d, s)) == Words(d) + Words(s)
  {
    MergeCounts(d, s);
    assert Updated(d, s) == {};
    if NoStale(d) {
      MergeDisjointFreqs(d, s);
    }
  }

  lemma MergeDisjointFreqs(d: Shape, s: Shape)
    requires Words(d).Keys !! Words(s).Keys && NoStale(d)
    ensures Words(Merge(d, s)) == Words(d) + Words(s)
  {
    var m := Words(Merge(d, s));
    var u := Words(d) + Words(s);
    forall w | w in m
      ensures w in u && m[w] == u[w]
    {
      assert w in d || w in s;
    }
    forall w | w in u
      ensures w in m
    {
    }
    assert m.Keys == u.Keys;
  }

  lemma MergeKeepsInvariants(d: Shape, s: Shape)
    requires PrefixClosed(d) && PrefixClosed(s)
    ensures PrefixClosed(Merge(d, s))
    ensures NoDeadLeaves(d) && NoDeadLeaves(s) ==> NoDeadLeaves(Merge(d, s))
  {
    var r := Merge(d, s);
    if NoDeadLeaves(d) && NoDeadLeaves(s) {
      forall p | p in r && p != []
        ensures r[p].isEnd || HasExtension(r, p)
      {
        if p in d && !d[p].isEnd && !(p in s && s[p].isEnd) {
          var k :| k in d && p < k;
          assert k in r;
        } else if p in s && !s[p].isEnd && p !in d {
          var k :| k in s && p < k;
          assert k in r;
        }
      }
    }
  }

  /**
   * The recursive merge, part way: the destination `d` after merging just the source
   * vertices whose paths are in `ks`.
   */
  function MergeSome(d: Shape, s: Shape, ks: set<string>): Shape
  {
    map k | k in d.Keys + ks * s.Keys :: if k in ks && k in s then MergeCell(d, s, k) else d[k]
  }

  /** The vertices of `s` whose paths are in `ks`, with their cells. */
  function Restrict(s: Shape, ks: set<string>): Shape
  {
    map k | k in s && k in ks :: s[k]
  }

  /** The vertices of the subtree of `s` at `q`, with their cells. */
  function SubShape(s: Shape, q: string): Shape
  {
    Restrict(s, Below(s.Keys, q))
  }

  /** Before any child is copied, the copy holds just the vertex at `p`. */
  lemma RestrictNone(s: Shape, p: string)
    requires p in s
    ensures Restrict(s, {p} + Via(s.Keys, p, {})) == map[p := s[p]]
  {
    assert Via(s.Keys, p, {}) == {};
  }

  /**
   * The copy of the vertices at `p` and below the children in `done` is disjoint from the
   * subtree at the next child `ch`, and adding that subtree's copy covers `ch` too.
   */
  lemma RestrictStep(s: Shape, p: string, done: set<char>, ch: char)
    requires ch !in done
    ensures Restrict(s, {p} + Via(s.Keys, p, done)).Keys !! SubShape(s, p + [ch]).Keys
    ensures Restrict(s, {p} + Via(s.Keys, p, done)) + SubShape(s, p + [ch])
         == Restrict(s, {p} + Via(s.Keys, p, done + {ch}))
  {
    ViaStep(s.Keys, p, done, ch);
    var before := {p} + Via(s.Keys, p, done);
    assert {p} + Via(s.Keys, p, done + {ch}) == before + Below(s.Keys, p + [ch]);
    assert Restrict(s, before).Keys !! SubShape(s, p + [ch]).Keys by {
      forall k | k in SubShape(s, p + [ch]) ensures k !in before {
        assert k in Below(s.Keys, p + [ch]);
      }
    }
  }

  /** Merging every vertex below the root is the whole merge. */
  lemma MergeSomeAll(d: Shape, s: Shape)
    ensures MergeSome(d, s, Below(s.Keys, [])) == Merge(d, s)
  {
    assert Below(s.Keys, []) == s.Keys;
  }

  /**
   * The merge adds to the stored words exactly the source words the destination lacked,
   * and every source word is either added or updated.
   */
  lemma MergeWordCount(d: Shape, s: Shape)
    ensures |Below(Words(s).Keys, [])| == |Added(d, s)| + |Updated(d, s)|
    ensures |Words(Merge(d, s))| == |Words(d)| + |Added(d, s)|
  {
    assert Below(Words(s).Keys, []) == Words(s).Keys;
    MergeCounts(d, s);
    MergeWordKeys(d, s);
    WordsGrow(d, Merge(d, s), Added(d, s));
  }

  /** The words stored after the merge are the destination's and the added ones. */
  lemma MergeWordKeys(d: Shape, s: Shape)
    ensures Words(d).Keys !! Added(d, s)
    ensures Words(Merge(d, s)).Keys == Words(d).Keys + Added(d, s)
  {
    MergeSpec(d, s);
    MergeCounts(d, s);
  }

  /** Stored words that grow by a set of new words grow by its size. */
  lemma WordsGrow(a: Shape, b: Shape, extra: set<string>)
    requires Words(a).Keys !! extra && Words(b).Keys == Words(a).Keys + extra
    ensures |Words(b)| == |Words(a)| + |extra|
  {
    CardDisjointUnion(Words(a).Keys, extra);
  }

  /** Merging the vertex at `p` itself (the first step of `_merge_nodes`) merges its cell. */
  lemma MergeSomeOwn(d: Shape, s: Shape, p: string)
    requires p in d && p in s
    ensures MergeSome(d, s, {p} + Via(s.Keys, p, {})) == d[p := MergeCell(d, s, p)]
  {
    assert Via(s.Keys, p, {}) == {};
  }

  /**
   * Merging the cell at `p` adds a stored word exactly when `p` ends a source word but no
   * destination word.
   */
  lemma OwnWords(d: Shape, s: Shape, p: string)
    requires p in d && p in s
    ensures |Words(d[p := MergeCell(d, s, p)])| == |Words(d)| + (if s[p].isEnd && !d[p].isEnd then 1 else 0)
  {
    var e := d[p := MergeCell(d, s, p)];
    if s[p].isEnd && !d[p].isEnd {
      assert Words(e).Keys == Words(d).Keys + {p};
      WordsGrow(d, e, {p});
    } else {
      assert Words(e).Keys == Words(d).Keys;
      WordsGrow(d, e, {});
    }
  }

  /** Merging the paths `ks` and then the disjoint paths `ls` is merging `ks + ls`. */
  lemma MergeSomeThen(d: Shape, s: Shape, ks: set<string>, ls: set<string>)
    requires ks !! ls
    ensures MergeSome(MergeSome(d, s, ks), s, ls) == MergeSome(d, s, ks + ls)
  {
    var e := MergeSome(d, s, ks);
    forall k | k in ls && k in e ensures k in d && e[k] == d[k] {
    }
  }

  /**
   * One more child `ch` of the vertex at `p` merged into the destination after the
   * children `done`: the paths merged so far grow by the subtree at `p + [ch]`.
   */
  lemma MergeStep(d: Shape, s: Shape, p: string, done: set<char>, ch: char)
    requires ch !in done
    ensures MergeSome(MergeSome(d, s, {p} + Via(s.Keys, p, done)), s, Below(s.Keys, p + [ch]))
              == MergeSome(d, s, {p} + Via(s.Keys, p, done + {ch}))
  {
    var ks := {p} + Via(s.Keys, p, done);
    var ls := Below(s.Keys, p + [ch]);
    ViaStep(s.Keys, p, done, ch);
    assert ks + ls == {p} + Via(s.Keys, p, done + {ch});
    MergeSomeThen(d, s, ks, ls);
  }

  /**
   * A source subtree at `q` that the destination has no vertex of (`_clone_subtree`) is
   * copied as it is.
   */
  lemma MergeSomeFresh(d: Shape, s: Shape, q: string)
    requires Below(d.Keys, q) == {}
    ensures MergeSome(d, s, Below(s.Keys, q)) == d + SubShape(s, q)
  {
    forall k | k in s && q <= k ensures k !in d {
      assert k !in Below(d.Keys, q);
    }
  }

  /** Every word of a copied subtree (`_count_words`) becomes a new stored word. */
  lemma FreshWords(d: Shape, s: Shape, q: string)
    requires Below(d.Keys, q) == {}
    ensures |Words(d + SubShape(s, q))| == |Words(d)| + |Below(Words(s).Keys, q)|
  {
    FreshWordKeys(d, s, q);
    WordsGrow(d, d + SubShape(s, q), Below(Words(s).Keys, q));
  }

  /** The words stored after copying the subtree at `q` are the old ones and its own. */
  lemma FreshWordKeys(d: Shape, s: Shape, q: string)
    requires Below(d.Keys, q) == {}
    ensures Words(d).Keys !! Below(Words(s).Keys, q)
    ensures Words(d + SubShape(s, q)).Keys == Words(d).Keys + Below(Words(s).Keys, q)
  {
    var e := d + SubShape(s, q);
    forall k | k in Words(e) ensures k in Words(d).Keys + Below(Words(s).Keys, q) {
      if k !in d {
        assert k in Below(s.Keys, q);
      }
    }
    forall k | k in Below(Words(s).Keys, q) ensures k in Words(e) && k !in Words(d) {
      assert k in Below(s.Keys, q);
      assert k !in Below(d.Keys, q);
    }
  }

  // ---------------------------------------------------------------- save / load

  /** Inserting a list of (word, frequency) values one after another into the trie `c`. */
  function InsertAll(c: Shape, items: seq<(string, int)>): Shape
    decreases |items|
  {
    if items == [] then c else InsertAll(Insert(c, items[0].0, items[0].1), items[1..])
  }

  /** Each listed word paired with its stored frequency: the values a save writes, before any text encoding. */
  function Listing(c: Shape, ws: seq<string>): (items: seq<(string, int)>)
    requires forall i :: 0 <= i < |ws| ==> ws[i] in Words(c)
    ensures |items| == |ws|
    ensures forall i :: 0 <= i < |ws| ==> items[i] == (ws[i], Words(c)[ws[i]])
  {
    if ws == [] then [] else [(ws[0], Words(c)[ws[0]])] + Listing(c, ws[1..])
  }

  /**
   * Listing every word with its frequency and inserting those (word, frequency) values into
   * a new trie reproduces the same words and frequencies.
   */
  lemma SaveLoadRoundTrip(c: Shape, ws: seq<string>)
    requires Distinct(ws) && Elems(ws) == Words(c).Keys
    ensures Words(InsertAll(Empty(), Listing(c, ws))) == Words(c)
  {
    var e := Empty();
    assert Words(e) == map[] && NoStale(e) by {
      assert forall k :: k in e ==> k == [];
    }
    LoadInto(e, c, ws);
    SameMaps(Words(InsertAll(e, Listing(c, ws))), Words(c));
  }

  lemma SameMaps(a: map<string, int>, b: map<string, int>)
    requires forall k :: k in a <==> k in b
    requires forall k :: k in a ==> a[k] == b[k]
    ensures a == b
  {
  }

  lemma {:induction false} LoadInto(e: Shape, c: Shape, ws: seq<string>)
    requires Distinct(ws) && Elems(ws) <= Words(c).Keys
    requires NoStale(e) && Elems(ws) !! Words(e).Keys
    ensures forall k :: k in Words(InsertAll(e, Listing(c, ws))) <==> k in Words(e) || k in Elems(ws)
    ensures forall k :: k in Words(InsertAll(e, Listing(c, ws))) ==>
              Words(InsertAll(e, Listing(c, ws)))[k] == if k in Words(e) then Words(e)[k] else Words(c)[k]
    decreases |ws|
  {
    var items := Listing(c, ws);
    if ws != [] {
      var w, f := ws[0], Words(c)[ws[0]];
      var e' := Insert(e, w, f);
      var rest := ws[1..];
      assert InsertAll(e, items) == InsertAll(e', Listing(c, rest)) by {
        assert items[0] == (w, f);
        assert items[1..] == Listing(c, rest);
      }
      assert Words(e') == Words(e)[w := f] && NoStale(e') by {
        assert w !in Words(e);
        InsertWordFresh(e, w, f);
      }
      assert Elems(rest) == Elems(ws) - {w} && Distinct(rest) by {
        TailElems(ws);
      }
      LoadInto(e', c, rest);
    }
  }

  /** Inserting a word not yet stored into a trie without stale counts stores it with `f`. */
  lemma InsertWordFresh(e: Shape, w: string, f: int)
    requires NoStale(e) && w !in Words(e)
    ensures Words(Insert(e, w, f)) == Words(e)[w := f]
    ensures NoStale(Insert(e, w, f))
  {
    InsertSpec(e, w, f);
    InsertKeepsNoStale(e, w, f);
  }

  lemma InsertKeepsNoStale(c: Shape, w: string, f: int)
    requires NoStale(c)
    ensures NoStale(Insert(c, w, f))
  {
    var r := Insert(c, w, f);
    forall k | k in r && !r[k].isEnd
      ensures r[k].freq == 0
    {
      PrefixesAre(w, k);
    }
  }

  lemma TailElems<T>(s: seq<T>)
    requires Distinct(s) && s != []
    ensures Elems(s[1..]) == Elems(s) - {s[0]}
    ensures Distinct(s[1..])
  {
    forall x | x in Elems(s[1..])
      ensures x != s[0]
    {
      var j :| 1 <= j < |s| && s[j] == x;
    }
    assert Elems(s) == {s[0]} + Elems(s[1..]);
  }
}
