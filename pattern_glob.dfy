/**
 * `glob_match(trie, pattern, top_k)` of src/features/pattern.py: compile the pattern, collect
 * the matching stored words by a depth-first search of the trie, keep one entry per word,
 * rank by descending frequency then ascending word, and cut the list at `top_k`.
 */
module Globs {
  import opened Wrappers
  import opened TrieNodes
  import opened Shapes
  import opened TriePaths
  import opened PrefixTries
  import opened Patterns
  import opened Rankings

  /** A search result: a word and the frequency read from its vertex. */
  type Scored = (string, int)

  // ---------------------------------------------------------------- what the search finds

  /** The stored words matching `ts`: the whole meaning of a compiled pattern on a trie. */
  ghost function GlobMatches(c: Shape, ts: seq<Token>): set<string>
  {
    set k | k in Words(c) && Matches(k, ts)
  }

  /** The stored words at or below `p` whose part after `p` matches `ts`. */
  ghost function GlobBelow(c: Shape, ts: seq<Token>, p: string): set<string>
  {
    set k | k in Words(c) && p <= k && Matches(k[|p|..], ts)
  }

  /**
   * The stored words strictly below `p` whose next character is one of `chs` and whose
   * part after that character matches `ts`.
   */
  ghost function Through(c: Shape, ts: seq<Token>, p: string, chs: set<char>): set<string>
  {
    set k | k in Words(c) && p < k && k[|p|] in chs && Matches(k[|p| + 1..], ts)
  }

  /** Every vertex strictly below `p` continues with a character of `chs`. */
  ghost predicate Covers(c: Shape, p: string, chs: set<char>)
  {
    forall k :: k in c && p < k ==> k[|p|] in chs
  }

  /** The words of a list of results. */
  function Firsts(xs: seq<Scored>): set<string>
  {
    set x | x in xs :: x.0
  }

  /** Each result names a stored word together with that word's frequency. */
  ghost predicate Faithful(xs: seq<Scored>, c: Shape)
  {
    forall x :: x in xs ==> x.0 in Words(c) && Words(c)[x.0] == x.1
  }

  /** Searching from the root is matching whole words. */
  lemma GlobRoot(c: Shape, ts: seq<Token>)
    ensures GlobBelow(c, ts, []) == GlobMatches(c, ts)
  {
    forall k | k in Words(c) ensures [] <= k && k[0..] == k {
    }
  }

  /** With no tokens left, only the word at `p` itself can match. */
  lemma GlobEnd(c: Shape, p: string)
    ensures GlobBelow(c, [], p) == if p in Words(c) then {p} else {}
  {
    forall k | k in GlobBelow(c, [], p) ensures k == p {
      assert k[|p|..] == [] && k[..|p|] == p;
      assert k == k[..|p|] + k[|p|..];
    }
    if p in Words(c) {
      assert p[|p|..] == [];
    }
  }

  /** The words below `p` that go on with `ch` are the words at or below `p + [ch]`. */
  lemma ThroughStep(c: Shape, ts: seq<Token>, p: string, chs: set<char>, ch: char)
    requires ch !in chs
    ensures Through(c, ts, p, chs + {ch}) == Through(c, ts, p, chs) + GlobBelow(c, ts, p + [ch])
  {
    forall k | k in GlobBelow(c, ts, p + [ch]) ensures k in Through(c, ts, p, chs + {ch}) {
      assert k[..|p| + 1] == p + [ch];
    }
    forall k | k in Through(c, ts, p, chs + {ch}) && k[|p|] == ch ensures k in GlobBelow(c, ts, p + [ch]) {
      assert k[..|p| + 1] == k[..|p|] + [k[|p|]];
    }
  }

  /** One character of a word below `p`, seen from `p`. */
  lemma Behind(k: string, p: string)
    requires p < k
    ensures k[|p|..] != [] && k[|p|..][0] == k[|p|] && k[|p|..][1..] == k[|p| + 1..]
  {
  }

  /** A literal token: the matches below `p` are those below `p` and that character. */
  lemma GlobLit(c: Shape, ts: seq<Token>, p: string, ch: char)
    requires ts != [] && ts[0] == Lit(ch)
    ensures GlobBelow(c, ts, p) == GlobBelow(c, ts[1..], p + [ch])
  {
    forall k | k in GlobBelow(c, ts, p) ensures k in GlobBelow(c, ts[1..], p + [ch]) {
      assert k != p;
      Behind(k, p);
      assert k[..|p| + 1] == k[..|p|] + [k[|p|]];
    }
    forall k | k in GlobBelow(c, ts[1..], p + [ch]) ensures k in GlobBelow(c, ts, p) {
      assert k[..|p| + 1] == p + [ch];
      Behind(k, p);
    }
  }

  /** `?`: the matches below `p` go on with any child and match the rest after it. */
  lemma GlobAny(c: Shape, ts: seq<Token>, p: string, chs: set<char>)
    requires ts != [] && ts[0] == Any && Covers(c, p, chs)
    ensures GlobBelow(c, ts, p) == Through(c, ts[1..], p, chs)
  {
    forall k | k in GlobBelow(c, ts, p) ensures k in Through(c, ts[1..], p, chs) {
      assert k != p;
      Behind(k, p);
    }
    forall k | k in Through(c, ts[1..], p, chs) ensures k in GlobBelow(c, ts, p) {
      Behind(k, p);
    }
  }

  /** `[...]`: the matches below `p` go on with a member of the class. */
  lemma GlobSet(c: Shape, ts: seq<Token>, p: string, cs: set<char>)
    requires ts != [] && ts[0] == Set(cs)
    ensures GlobBelow(c, ts, p) == Through(c, ts[1..], p, cs)
  {
    forall k | k in GlobBelow(c, ts, p) ensures k in Through(c, ts[1..], p, cs) {
      assert k != p;
      Behind(k, p);
    }
    forall k | k in Through(c, ts[1..], p, cs) ensures k in GlobBelow(c, ts, p) {
      Behind(k, p);
    }
  }

  /**
   * `*`: a match below `p` either skips the star (matching the rest at `p`) or spends one
   * more character on it, going on with a child and the same tokens.
   */
  lemma GlobStar(c: Shape, ts: seq<Token>, p: string, chs: set<char>)
    requires ts != [] && ts[0] == Star && Covers(c, p, chs)
    ensures GlobBelow(c, ts, p) == GlobBelow(c, ts[1..], p) + Through(c, ts, p, chs)
  {
    forall k | k in GlobBelow(c, ts, p) && !Matches(k[|p|..], ts[1..]) ensures k in Through(c, ts, p, chs) {
      assert k != p;
      Behind(k, p);
    }
    forall k | k in Through(c, ts, p, chs) ensures k in GlobBelow(c, ts, p) {
      Behind(k, p);
    }
  }

  /** Nothing is stored at or below a child the vertex at `p` does not have. */
  lemma NoBranch(c: Shape, ts: seq<Token>, p: string, ch: char)
    requires PrefixClosed(c) && p + [ch] !in c
    ensures GlobBelow(c, ts, p + [ch]) == {}
  {
    forall k | k in GlobBelow(c, ts, p + [ch]) ensures false {
      AncestorPresent(c, p + [ch], k);
    }
  }

  /** Appending results adds their words and keeps every result faithful. */
  lemma Appended(xs: seq<Scored>, ys: seq<Scored>, c: Shape)
    ensures Firsts(xs + ys) == Firsts(xs) + Firsts(ys)
    ensures Faithful(xs, c) && Faithful(ys, c) ==> Faithful(xs + ys, c)
  {
    assert forall x :: x in xs + ys <==> x in xs || x in ys;
  }

  // ---------------------------------------------------------------- the search

  /**
   * The nested `dfs(node, ti, prefix)` of `glob_match`: it appends to `results` a pair for
   * every stored word at or below `prefix` whose rest matches the tokens from `ti` on, and
   * nothing else; a word reached along two ways through stars is appended twice.
   */
  method Search(trie: PrefixTrie, tokens: seq<Token>, node: TrieNode, ti: nat, prefix: string,
                results: seq<Scored>) returns (out: seq<Scored>)
    requires trie.Valid() && prefix in trie.at && trie.at[prefix] == node && ti <= |tokens|
    requires Faithful(results, trie.cells)
    ensures results <= out && Faithful(out, trie.cells)
    ensures Firsts(out[|results|..]) == GlobBelow(trie.cells, tokens[ti..], prefix)
    ensures Firsts(out) == Firsts(results) + GlobBelow(trie.cells, tokens[ti..], prefix)
    decreases Below(trie.at.Keys, prefix), |tokens| - ti, 2
  {
    ghost var c := trie.cells;
    if ti == |tokens| {
      GlobEnd(c, prefix);
      assert tokens[ti..] == [];
      if node.isEnd {
        out := results + [(prefix, node.frequency)];
        Appended(results, [(prefix, node.frequency)], c);
        assert out[|results|..] == [(prefix, node.frequency)];
      } else {
        out := results;
        assert out[|results|..] == [];
      }
      return;
    }
    ChildrenCover(trie.at, [], prefix);
    assert Covers(c, prefix, node.children.Keys);
    RootedIsPrefixClosed(trie.at, c);
    ghost var ts := tokens[ti..];
    assert ts[1..] == tokens[ti + 1..];
    match tokens[ti]
    case Lit(ch) =>
      GlobLit(c, ts, prefix, ch);
      if ch in node.children {
        BelowShrinks(trie.at.Keys, prefix, ch);
        out := Search(trie, tokens, node.children[ch], ti + 1, prefix + [ch], results);
      } else {
        NoBranch(c, ts[1..], prefix, ch);
        out := results;
        assert out[|results|..] == [];
      }
    case Any =>
      GlobAny(c, ts, prefix, node.children.Keys);
      out := SearchChildren(trie, tokens, node, ti + 1, prefix, node.children.Keys, results);
    case Set(allowed) =>
      GlobSet(c, ts, prefix, allowed);
      out := SearchChildren(trie, tokens, node, ti + 1, prefix, allowed, results);
    case Star =>
      GlobStar(c, ts, prefix, node.children.Keys);
      var skipped := Search(trie, tokens, node, ti + 1, prefix, results);
      out := SearchChildren(trie, tokens, node, ti, prefix, node.children.Keys, skipped);
      Split(results, skipped, out);
  }

  /**
   * The loops of `dfs` over characters: for each of `chs` that names a child of `node`,
   * search that child with the tokens from `ti` on. `?` and `*` pass the node's own
   * children, `[...]` the members of the class.
   */
  method SearchChildren(trie: PrefixTrie, tokens: seq<Token>, node: TrieNode, ti: nat, prefix: string,
                        chs: set<char>, results: seq<Scored>) returns (out: seq<Scored>)
    requires trie.Valid() && prefix in trie.at && trie.at[prefix] == node && ti <= |tokens|
    requires Faithful(results, trie.cells)
    ensures results <= out && Faithful(out, trie.cells)
    ensures Firsts(out[|results|..]) == Through(trie.cells, tokens[ti..], prefix, chs)
    ensures Firsts(out) == Firsts(results) + Through(trie.cells, tokens[ti..], prefix, chs)
    decreases Below(trie.at.Keys, prefix), |tokens| - ti, 1
  {
    ghost var c := trie.cells;
    out := results;
    assert out[|results|..] == [];
    var todo := chs;
    ghost var done: set<char> := {};
    while todo != {}
      invariant todo !! done && todo + done == chs
      invariant results <= out && Faithful(out, c)
      invariant Firsts(out[|results|..]) == Through(c, tokens[ti..], prefix, done)
      invariant Firsts(out) == Firsts(results) + Through(c, tokens[ti..], prefix, done)
      decreases |todo|
    {
      var ch :| ch in todo;
      MoveOne(chs, done, todo, ch);
      ThroughStep(c, tokens[ti..], prefix, done, ch);
      ghost var before := out;
      out := SearchChild(trie, tokens, node, ti, prefix, ch, out);
      Split(results, before, out);
      todo, done := todo - {ch}, done + {ch};
    }
  }

  /** One pass of those loops: `nxt = node.children.get(ch)` and, if there is one, `dfs(nxt, ...)`. */
  method SearchChild(trie: PrefixTrie, tokens: seq<Token>, node: TrieNode, ti: nat, prefix: string,
                     ch: char, results: seq<Scored>) returns (out: seq<Scored>)
    requires trie.Valid() && prefix in trie.at && trie.at[prefix] == node && ti <= |tokens|
    requires Faithful(results, trie.cells)
    ensures results <= out && Faithful(out, trie.cells)
    ensures Firsts(out[|results|..]) == GlobBelow(trie.cells, tokens[ti..], prefix + [ch])
    ensures Firsts(out) == Firsts(results) + GlobBelow(trie.cells, tokens[ti..], prefix + [ch])
    decreases Below(trie.at.Keys, prefix), |tokens| - ti, 0
  {
    if ch in node.children {
      BelowShrinks(trie.at.Keys, prefix, ch);
      out := Search(trie, tokens, node.children[ch], ti, prefix + [ch], results);
    } else {
      RootedIsPrefixClosed(trie.at, trie.cells);
      assert prefix + [ch] !in trie.cells by {
        assert Parent(prefix + [ch]) == prefix;
      }
      NoBranch(trie.cells, tokens[ti..], prefix, ch);
      out := results;
      assert out[|results|..] == [];
    }
  }

  /**
   * Extending `a` to `b` and then `b` to `c` extends `a` to `c`, and the words appended
   * after `a` are those appended up to `b` and those appended after it.
   */
  lemma Split(a: seq<Scored>, b: seq<Scored>, c: seq<Scored>)
    requires a <= b && b <= c
    ensures a <= c
    ensures Firsts(c[|a|..]) == Firsts(b[|a|..]) + Firsts(c[|b|..])
  {
    assert c[..|a|] == c[..|b|][..|a|];
    assert c[|a|..] == b[|a|..] + c[|b|..];
    assert forall x :: x in c[|a|..] <==> x in b[|a|..] || x in c[|b|..];
  }

  // ---------------------------------------------------------------- de-duplication and ranking

  /** The index of the first pair of `xs` for word `w`, or `|xs|` when there is none. */
  function FirstIndex(xs: seq<Scored>, w: string): (k: nat)
    ensures k <= |xs|
  {
    if xs == [] || xs[0].0 == w then 0 else 1 + FirstIndex(xs[1..], w)
  }

  /** `FirstIndex` is the index of a pair for `w` with none before it. */
  lemma {:induction false} FirstIndexSpec(xs: seq<Scored>, w: string)
    ensures FirstIndex(xs, w) < |xs| ==> xs[FirstIndex(xs, w)].0 == w
    ensures forall j :: 0 <= j < FirstIndex(xs, w) ==> xs[j].0 != w
  {
    if xs != [] && xs[0].0 != w {
      FirstIndexSpec(xs[1..], w);
      forall j | 0 <= j < FirstIndex(xs, w) ensures xs[j].0 != w {
        if j > 0 {
          assert xs[j] == xs[1..][j - 1];
        }
      }
    }
  }

  /**
   * The loop filling `best` in `glob_match`: one entry per word of `results`, holding the
   * greatest frequency listed for it. The dictionary is `best` together with `order`, its
   * keys in insertion order (the order of each word's first pair in `results`), which is
   * the order `best.items()` yields them in.
   */
  method KeepBest(results: seq<Scored>) returns (best: map<string, int>, order: seq<string>)
    ensures best.Keys == Firsts(results) && Elems(order) == best.Keys && Distinct(order)
    ensures forall a, b :: 0 <= a < b < |order| ==> FirstIndex(results, order[a]) < FirstIndex(results, order[b])
    ensures forall w :: w in best ==> (w, best[w]) in results
    ensures forall x :: x in results ==> x.0 in best && x.1 <= best[x.0]
  {
    best := map[];
    order := [];
    ghost var from: map<string, nat> := map[];
    var i := 0;
    while i < |results|
      invariant 0 <= i <= |results| && Deduped(results, i, best, order, from)
    {
      best, order, from := KeepOne(results, i, best, order, from);
      i := i + 1;
    }
    forall w | w in best ensures w in Firsts(results) && (w, best[w]) in results {
      assert results[from[w]] in results;
    }
    assert results[..|results|] == results;
    SeenOrder(results);
  }

  /**
   * What the loop of `KeepBest` keeps after reading the first `i` pairs; `from` names, for
   * every word, the pair its frequency in `best` was taken from.
   */
  ghost predicate Deduped(results: seq<Scored>, i: nat, best: map<string, int>, order: seq<string>,
                          from: map<string, nat>)
  {
    && i <= |results|
    && Elems(order) == best.Keys == from.Keys && Distinct(order)
    && (forall w :: w in from ==> from[w] < i && results[from[w]] == (w, best[w]))
    && (forall j :: 0 <= j < i ==> results[j].0 in best && results[j].1 <= best[results[j].0])
    && order == Seen(results[..i])
  }

  /** One pass of that loop: `if w not in best or f > best[w]: best[w] = f` for pair `i`. */
  method KeepOne(results: seq<Scored>, i: nat, best: map<string, int>, order: seq<string>,
                 ghost from: map<string, nat>)
    returns (best': map<string, int>, order': seq<string>, ghost from': map<string, nat>)
    requires i < |results| && Deduped(results, i, best, order, from)
    ensures Deduped(results, i + 1, best', order', from')
    ensures best'.Keys == best.Keys + {results[i].0} && order' == Seen(results[..i + 1])
    ensures results[i].1 <= best'[results[i].0]
    ensures forall v :: v in best ==> best[v] <= best'[v] && (v != results[i].0 ==> best'[v] == best[v])
  {
    var (w, f) := results[i];
    assert Seen(results[..i + 1]) == if w in best then order else order + [w] by {
      assert results[..i + 1][..i] == results[..i] && results[..i + 1][i] == (w, f);
      assert w in order <==> w in Elems(order);
    }
    best', order', from' := best, order, from;
    if w !in best || f > best[w] {
      if w !in best {
        DistinctConcat(order, [w]);
        order' := order + [w];
      }
      best' := best[w := f];
      from' := from[w := i];
    }
    forall j | 0 <= j < i + 1 ensures results[j].0 in best' && results[j].1 <= best'[results[j].0] {
      if j < i {
        assert results[j].0 in best && results[j].1 <= best[results[j].0];
      }
    }
  }

  /** The words of `xs` in the order of their first pair, each once. */
  function Seen(xs: seq<Scored>): seq<string>
    decreases |xs|
  {
    if xs == [] then []
    else
      var ys := Seen(xs[..|xs| - 1]);
      if xs[|xs| - 1].0 in ys then ys else ys + [xs[|xs| - 1].0]
  }

  /** Appending a pair moves no first index; a word met for the first time gets the new index. */
  lemma {:induction false} FirstIndexExtend(ys: seq<Scored>, x: Scored, w: string)
    ensures FirstIndex(ys + [x], w) ==
              if FirstIndex(ys, w) < |ys| then FirstIndex(ys, w) else if x.0 == w then |ys| else |ys| + 1
  {
    if ys != [] && ys[0].0 != w {
      assert (ys + [x])[1..] == ys[1..] + [x];
      FirstIndexExtend(ys[1..], x, w);
    }
  }

  /**
   * `Seen(xs)` lists exactly the words that occur in `xs`, in the order of their first
   * occurrence.
   */
  lemma {:induction false} SeenOrder(xs: seq<Scored>)
    ensures forall k :: 0 <= k < |Seen(xs)| ==> FirstIndex(xs, Seen(xs)[k]) < |xs|
    ensures forall v :: FirstIndex(xs, v) < |xs| ==> v in Seen(xs)
    ensures forall a, b :: 0 <= a < b < |Seen(xs)| ==> FirstIndex(xs, Seen(xs)[a]) < FirstIndex(xs, Seen(xs)[b])
    decreases |xs|
  {
    if xs != [] {
      var ys := xs[..|xs| - 1];
      var x := xs[|xs| - 1];
      assert xs == ys + [x];
      SeenOrder(ys);
      forall v ensures FirstIndex(xs, v) == if FirstIndex(ys, v) < |ys| then FirstIndex(ys, v) else if x.0 == v then |ys| else |ys| + 1 {
        FirstIndexExtend(ys, x, v);
      }
    }
  }

  /** The stored words of `ws`, each paired with its frequency. */
  ghost function Scores(c: Shape, ws: set<string>): set<Scored>
  {
    set w | w in ws && w in Words(c) :: (w, Words(c)[w])
  }

  /**
   * `glob_match(trie, pattern, top_k)`: a pattern the tokenizer rejects gives its error
   * before any search; otherwise the result is the ranking of the matching stored words
   * with their frequencies, cut at `top_k`.
   */
  method GlobMatch(trie: PrefixTrie, pattern: string, topK: Option<int>) returns (r: Result<seq<Scored>, PatternError>)
    requires trie.Valid()
    ensures Tokens(pattern).Err? ==> r == Err(Tokens(pattern).error)
    ensures Tokens(pattern).Ok? ==>
              r == Ok(Take(Ranking(Scores(trie.cells, GlobMatches(trie.cells, Tokens(pattern).value))), topK))
  {
    var parsed := ParsePattern(pattern);
    if parsed.Err? {
      return Err(parsed.error);
    }
    var tokens := parsed.value;
    ghost var c := trie.cells;
    var results := Search(trie, tokens, trie.root, 0, [], []);
    assert tokens[0..] == tokens;
    GlobRoot(c, tokens);
    var best, order := KeepBest(results);
    var items := seq(|order|, k requires 0 <= k < |order| => (order[k], best[order[k]]));
    assert Distinct(items);
    assert Elems(items) == Scores(c, GlobMatches(c, tokens)) by {
      forall w | w in best ensures w in Words(c) && best[w] == Words(c)[w] {
        assert (w, best[w]) in results;
      }
      forall x | x in Scores(c, GlobMatches(c, tokens)) ensures x in Elems(items) {
        var j :| 0 <= j < |order| && order[j] == x.0;
        assert items[j] == x;
      }
    }
    var ranked := SortByRank(items);
    SortIsRanking(items);
    r := Ok(Take(ranked, topK));
  }

  /**
   * What a successful `glob_match` returns: matching stored words with their frequencies,
   * each word once, ranked; as many as `top_k` allows; and whatever ranks before a returned
   * item is returned too. Without `top_k` every match is returned.
   */
  lemma GlobResult(c: Shape, ts: seq<Token>, topK: Option<int>, xs: seq<Scored>)
    requires xs == Take(Ranking(Scores(c, GlobMatches(c, ts))), topK)
    ensures Ranked(xs)
    ensures forall x :: x in xs ==> x.0 in Words(c) && Matches(x.0, ts) && x.1 == Words(c)[x.0]
    ensures |xs| == Kept(|GlobMatches(c, ts)|, topK)
    ensures forall w, x :: w in GlobMatches(c, ts) && (w, Words(c)[w]) !in xs && x in xs ==> Before(x, (w, Words(c)[w]))
    ensures topK.None? ==> Firsts(xs) == GlobMatches(c, ts)
  {
    var ms := GlobMatches(c, ts);
    var all := Ranking(Scores(c, ms));
    TakeRanked(all, topK);
    ScoresSize(c, ms);
    RankedCount(all);
    forall x | x in xs ensures x in Scores(c, ms) {
      assert x in Elems(all);
    }
    forall w, x | w in ms && (w, Words(c)[w]) !in xs && x in xs ensures Before(x, (w, Words(c)[w])) {
      var y := (w, Words(c)[w]);
      assert y in Elems(all);
      BeforeOrder(x, y, x);
    }
    if topK.None? {
      assert xs == all;
      forall w | w in ms ensures w in Firsts(xs) {
        assert (w, Words(c)[w]) in Elems(all);
      }
    }
  }

  /** A set of stored words has as many scored pairs as words. */
  lemma ScoresSize(c: Shape, ws: set<string>)
    requires forall w :: w in ws ==> w in Words(c)
    ensures |Scores(c, ws)| == |ws|
    decreases ws
  {
    if ws != {} {
      var w :| w in ws;
      ScoresSize(c, ws - {w});
      assert Scores(c, ws) == Scores(c, ws - {w}) + {(w, Words(c)[w])};
    }
  }

  /** A ranked list has no duplicates, so its length is the number of its elements. */
  lemma {:induction false} RankedCount(xs: seq<Scored>)
    requires Ranked(xs)
    ensures |Elems(xs)| == |xs|
    decreases |xs|
  {
    if xs != [] {
      RankedTail(xs);
      RankedCount(xs[1..]);
      assert xs[0] in Elems(xs);
    }
  }

  /** `*` matches every stored word. */
  lemma StarFindsAll(c: Shape)
    ensures Tokens("*") == Ok([Star])
    ensures GlobMatches(c, [Star]) == Words(c).Keys
  {
    assert TokensFrom("*", 1) == Ok([]);
    assert [Star] + [] == [Star];
    forall w | w in Words(c) ensures Matches(w, [Star]) {
      StarMatchesAll(w);
    }
  }

  /** A word without meta characters, used as a pattern, finds exactly itself if stored. */
  lemma PlainFindsItself(c: Shape, w: string)
    requires !IsGlobPattern(w)
    ensures Tokens(w).Ok? && GlobMatches(c, Tokens(w).value) == if w in Words(c) then {w} else {}
  {
    PlainTokens(w);
  }
}
