# Prefix trie and Glob+ matcher

A model in Dafny of the trie engine of the word-restoration tool: the mutable character trie
of `src/trie/prefix_trie.py` and `src/trie/trie_node.py`, and the Glob+ tokenizer and matcher
of `src/features/pattern.py`.

- `TrieNodes.TrieNode` is the mutable vertex: `children` (a map from character to vertex),
  `isEnd` and `frequency`.
- `PrefixTries.PrefixTrie` is the trie. Its methods change the vertices in place, as the Python
  methods do. A proof-only map `at` names every vertex by its path from the root. A proof-only
  map `cells` holds the terminal flag and the raw frequency of every vertex, by path.
- Each updating method is proved to change `cells` exactly as a function of module `Shapes` says
  (`Shapes.Insert`, `Shapes.Delete`, `Shapes.Merge`). The lemmas of `Shapes` then prove what those
  functions promise about the stored words `Words(c)`: the paths of terminal vertices, with their
  frequencies.
- The raw frequency is kept apart from the terminal flag. A deleted word therefore leaves its count
  behind, and a later insert or merge of that word adds onto it (`RawFreq`).
- `merge_trie` reads the source trie through `Snapshots.Tree`, an immutable copy taken before the
  destination changes. The destination is written in place, and new branches are fresh deep copies.
  Merging a trie into itself is covered, since the copy is taken first.
- `Patterns` is the tokenizer. The loops `ParseCharClass` and `ParsePattern` are proved equal to
  the recursive definitions `CharClass` and `Tokens`. `Matches` gives what a token list means as a
  set of words.
- `Globs` is `glob_match`:
  - `Search` is the backtracking DFS over the heap trie. It is proved sound and complete: the words
    it appends are exactly the stored words that match.
  - `KeepBest` is the de-duplicating dictionary loop.
  - `Rankings` models `sorted(..., key=(-frequency, word))` and the slice `[:top_k]`.

## Model

| member | source | states |
|---|---|---|
| TrieNodes.TrieNode.constructor | src/trie/trie_node.py:2-8 | a new vertex has no children, is not terminal and has frequency 0 |
| PrefixTries.PrefixTrie.constructor | src/trie/prefix_trie.py:3-4 | a new trie is valid and holds only a blank root, so it stores no word |
| PrefixTries.PrefixTrie.Insert | src/trie/prefix_trie.py:6-14 | the trie stays valid and its contents become `Shapes.Insert(old contents, word, frequency)` |
| PrefixTries.PrefixTrie.WalkCreating | src/trie/prefix_trie.py:8-12 | the loop leaves the node at `word`'s path, and has created exactly the missing prefixes of `word` as blank vertices |
| PrefixTries.PrefixTrie.ChildFor | src/trie/prefix_trie.py:10-12 | one pass of the loop: the child for the next character is returned, created blank when it was missing; all other vertices are kept |
| PrefixTries.PrefixTrie.LinkChild | src/trie/prefix_trie.py:11 | a fresh blank vertex hangs under the node by the missing character |
| PrefixTries.PrefixTrie.MarkWord | src/trie/prefix_trie.py:13-14 | the last vertex becomes terminal and its frequency grows by `frequency` |
| Shapes.InsertSpec | src/trie/prefix_trie.py:6-14 | after `insert(w, f)`, `w` is stored with its old raw count plus `f` (exactly `f` for a new path, the old frequency plus `f` for a stored word); every other word and frequency is unchanged; the vertices are the old ones plus the prefixes of `w` |
| Shapes.InsertPrefixNotWord | src/trie/prefix_trie.py:8-13 | a strict prefix of the inserted word that was not a word does not become one |
| Shapes.InsertKeepsInvariants | src/trie/prefix_trie.py:6-14 | insert keeps the trie prefix-closed, and free of non-terminal leaves if it was free of them |
| PrefixTries.PrefixTrie.Delete | src/trie/prefix_trie.py:16-33 | the trie stays valid; the contents become `Shapes.Delete(old contents, word)`; the result is the root's "should prune" flag `DeleteReports` |
| PrefixTries.PrefixTrie.DeleteFrom | src/trie/prefix_trie.py:18-32 | the recursion at `depth` prunes exactly the dead vertices deeper than `depth` on the path of a stored word; it returns whether the vertex at `depth` is dead |
| PrefixTries.PrefixTrie.Unmark | src/trie/prefix_trie.py:19-23 | the base case clears the terminal flag and keeps the frequency; it asks for pruning exactly when the vertex has no child |
| PrefixTries.PrefixTrie.Unlink | src/trie/prefix_trie.py:28-31 | the pruned child is dropped; the parent asks for pruning exactly when it is not terminal and has no child left |
| Shapes.DeleteSpec | src/trie/prefix_trie.py:16-33 | after delete, `w` is not a word and every other word keeps its frequency; deleting an absent word (missing path or non-terminal end) changes nothing |
| Shapes.DeleteResult | src/trie/prefix_trie.py:16-33 | delete returns true exactly when `w` was stored and afterwards the trie is a bare, non-terminal root |
| Shapes.DeleteOneOfSeveral | src/trie/prefix_trie.py:16-33 | deleting one of two or more stored words removes it but returns false |
| Shapes.DeleteKeepsInvariants | src/trie/prefix_trie.py:18-32 | delete keeps the trie prefix-closed, and free of non-terminal leaves if it was free of them |
| Shapes.DeleteLeavesNoDeadLeafOnPath | src/trie/prefix_trie.py:22-31 | after deleting a stored word, no non-root vertex left on its path is both non-terminal and childless |
| Shapes.DeleteKeepsPathAlive | src/trie/prefix_trie.py:22-31 | after deleting a stored word, a surviving vertex that was on its path, terminal or not a leaf is still terminal or not a leaf |
| Shapes.InsertThenDelete | src/trie/prefix_trie.py:6-33 | in a trie without dead leaves, inserting a word with a new path and deleting it again restores the trie exactly |
| PrefixTries.PrefixTrie.Search | src/trie/prefix_trie.py:35-42 | true exactly when `word` is a stored word, i.e. its whole path exists and ends at a terminal vertex |
| PrefixTries.PrefixTrie.GetFrequency | src/trie/prefix_trie.py:132-139 | the stored frequency of a stored word; 0 for a missing path or a non-terminal vertex |
| PrefixTries.PrefixTrie.ListWords | src/trie/prefix_trie.py:119-130 | every stored word exactly once and nothing else |
| PrefixTries.PrefixTrie.ListFrom | src/trie/prefix_trie.py:124-128 | the nested `_dfs` yields each stored word at or below `prefix` exactly once |
| PrefixTries.PrefixTrie.WildcardMatch | src/trie/prefix_trie.py:44-65 | the stored words of the pattern's length that equal it wherever it has no `*`, each once |
| PrefixTries.PrefixTrie.WildcardFrom | src/trie/prefix_trie.py:50-63 | the nested `_dfs` yields those wildcard matches below `prefix`, each once |
| PrefixTries.PrefixTrie.BestMatch | src/trie/prefix_trie.py:102-117 | `None` exactly when every wildcard match has a negative frequency (or there is none); otherwise a match with frequency at least 0 and at least every other match's |
| PrefixTries.PrefixTrie.Locate | src/trie/prefix_trie.py:111-113 | the walk inside `best_match` reaches the vertex of the stored word |
| PrefixTries.PrefixTrie.MergeTrie | src/trie/prefix_trie.py:178-180 | the contents become `Shapes.Merge(destination, source)`; `added` and `updated` are the sizes of `Added` and `Updated`; another trie given as the source is left valid and unchanged |
| PrefixTries.PrefixTrie.MergeTree | src/trie/prefix_trie.py:178-180 | merging from the root of the source: the same result and counts; every new vertex is fresh |
| PrefixTries.PrefixTrie.Snapshot | src/trie/prefix_trie.py:184-211 | the source subtree at `q` as `_merge_nodes` reads it (its `is_end`, `frequency` and `children`), taken as an immutable copy before the destination is written; no source line copies it (see Left out) |
| PrefixTries.PrefixTrie.MergeNodes | src/trie/prefix_trie.py:184-211 | the subtree of the source at `p` is merged into the destination's at `p`; the counts are its added and updated words |
| PrefixTries.PrefixTrie.MergeOwn | src/trie/prefix_trie.py:191-199 | a terminal source vertex adds its frequency to the destination's; counts 1 as added if the destination was not terminal, 1 as updated if it was |
| PrefixTries.PrefixTrie.MergeChildren | src/trie/prefix_trie.py:201-209 | the loop over the source children merges each child's subtree and sums their counts |
| PrefixTries.PrefixTrie.MergeNext | src/trie/prefix_trie.py:202-209 | one pass of that loop advances the merged part by one child |
| PrefixTries.PrefixTrie.MergeChild | src/trie/prefix_trie.py:202-209 | a child missing in the destination is cloned and its words counted as added; a present one is merged recursively |
| PrefixTries.PrefixTrie.AttachClone | src/trie/prefix_trie.py:203-205 | the missing branch is filled by a fresh copy of the source subtree, and the destination had nothing under it |
| PrefixTries.PrefixTrie.CloneSubtree | src/trie/prefix_trie.py:213-221 | the copy has the same shape, flags and frequencies as the source subtree, and all its vertices are fresh (shared with nothing) |
| PrefixTries.PrefixTrie.CloneChild | src/trie/prefix_trie.py:219-220 | one pass of the cloning loop hangs a fresh copy of one child under the copy |
| PrefixTries.PrefixTrie.NoSharedNodes | src/trie/prefix_trie.py:213-214 | two distinct tries never share a vertex |
| Snapshots.CountWords | src/trie/prefix_trie.py:223-228 | the number of terminal vertices in the subtree |
| Shapes.MergeSpec | src/trie/prefix_trie.py:184-211 | the words after the merge are the union of both tries' words; each source word's count grows by its source frequency (on top of any stale count); other destination words are unchanged; cloned vertices equal the source's |
| Shapes.MergeCounts | src/trie/prefix_trie.py:189-209 | `added` counts the source words not stored in the destination, `updated` those already stored; together they count every source word once |
| Shapes.MergeWordCount | src/trie/prefix_trie.py:189-209 | after the merge the number of stored words grows by exactly `added` |
| Shapes.FreshWords | src/trie/prefix_trie.py:203-205 | a cloned subtree adds exactly `_count_words` of it new stored words |
| Shapes.MergeIntoCopy | src/trie/prefix_trie.py:178-211 | merging a trie into an exact copy of itself doubles every frequency, adds nothing and updates every word |
| Shapes.MergeDisjoint | src/trie/prefix_trie.py:178-211 | with disjoint word sets everything is added and nothing updated; without stale counts the words are the union of both |
| Shapes.MergeDisjointFreqs | src/trie/prefix_trie.py:178-211 | with disjoint word sets and no stale counts, the merged words and frequencies are those of both tries |
| Shapes.MergeKeepsInvariants | src/trie/prefix_trie.py:184-221 | merge keeps the trie prefix-closed, and free of non-terminal leaves when both tries are |
| Shapes.SaveLoadRoundTrip | src/trie/prefix_trie.py:67-100 | inserting the (word, frequency) values of every stored word, one after another, into a new trie gives back the same words and frequencies; the text encoding of those values is not modelled (see Left out) |
| Patterns.IsGlobPattern | src/features/pattern.py:7-9 | true exactly when the string contains one of `?`, `*`, `[`, `\` |
| Patterns.ParseCharClass | src/features/pattern.py:11-55 | the class-parsing loop computes `CharClass`: the set and the index after the closing `]`, or the error |
| Patterns.NoCloseNoClass | src/features/pattern.py:18-55 | a class with no `]` after it is an error, including `[` at the end of the pattern |
| Patterns.LeadingBracket | src/features/pattern.py:23-27 | a `]` in first position of a class is a member, not the terminator |
| Patterns.RangeMembers | src/features/pattern.py:37-46 | a range `a-b` (not `x-]`) read at any position of a class, first or after other members, adds every character whose code lies between the two endpoints, in either order |
| Patterns.SpanMembers | src/features/pattern.py:41-44 | the range set holds exactly the characters between the endpoints, and is the same set whichever endpoint comes first |
| Patterns.SpanABC | src/features/pattern.py:41-44 | `c-a` and `a-c` both give `{a, b, c}` |
| Patterns.ParsePattern | src/features/pattern.py:57-91 | the tokenizing loop computes `Tokens(pat)`: the token list or the first error |
| Patterns.PlainTokens | src/features/pattern.py:57-91 | a pattern without meta characters gives one literal per character, and it matches only itself |
| Patterns.ParseRender | src/features/pattern.py:57-91 | every token list without an empty class has a pattern that tokenizes back to exactly that list |
| Patterns.EscapeExamples | src/features/pattern.py:70-77 | `\*a?` gives literal `*`, literal `a`, any; a trailing lone `\` gives literal `\` |
| Patterns.ClassErrorExamples | src/features/pattern.py:18-55 | `a[` fails as a class at the end, `[]` as unclosed, `[a\` as a dangling escape |
| Patterns.ClassExamples | src/features/pattern.py:23-52 | `[]]` is the set `{]}`, `[a-]` is `{a, -}`, `[c-a]` equals `[a-c]` |
| Patterns.LiteralMatches | src/features/pattern.py:111-114 | a list of literals matches exactly the word it spells |
| Patterns.StarMatchesAll | src/features/pattern.py:128-133 | a lone `*` matches every word, the empty one included |
| Globs.Search | src/features/pattern.py:103-133 | `dfs` only appends: the words of the pairs it appends are exactly the stored words at or below `prefix` whose rest matches the remaining tokens, each with its stored frequency |
| Globs.SearchChildren | src/features/pattern.py:116-133 | the loops over children add exactly the matches found through the given characters |
| Globs.SearchChild | src/features/pattern.py:123-126 | one pass adds exactly the matches below that child |
| Globs.KeepBest | src/features/pattern.py:137-141 | the dictionary holds each word of the results once, with the greatest frequency listed for it; its keys are listed once each, in the order in which each word first occurs in the results, which is the dictionary's insertion order |
| Globs.KeepOne | src/features/pattern.py:139-141 | one pass of the loop adds the pair's word to the keys if it is new, raises its entry to at least the pair's frequency and leaves every other entry alone; `order` stays the first-occurrence listing of the words read |
| Globs.GlobMatch | src/features/pattern.py:93-144 | a tokenizer error is returned before any search; otherwise the result is the ranking of the matching stored words with their frequencies, cut at `top_k` |
| Globs.GlobResult | src/features/pattern.py:137-144 | the result is ranked (descending frequency, then ascending word), duplicate-free, holds only stored matching words with their frequencies, has `min(top_k, n)` items, and keeps whatever ranks before a kept item; without `top_k` it holds every match |
| Globs.StarFindsAll | src/features/pattern.py:128-135 | the pattern `*` finds every stored word |
| Globs.PlainFindsItself | src/features/pattern.py:100-135 | a pattern without meta characters finds exactly itself when stored, otherwise nothing |
| Rankings.StrLessAsymmetric | src/features/pattern.py:143 | Python's string order never puts two strings each before the other |
| Rankings.StrLessTransitive | src/features/pattern.py:143 | Python's string order is transitive |
| Rankings.StrLessTotal | src/features/pattern.py:143 | of two different strings one comes first |
| Rankings.BeforeOrder | src/features/pattern.py:143 | the sort key `(-frequency, word)` is a strict total order on pairs |
| Rankings.SortByRankSpec | src/features/pattern.py:143 | sorting duplicate-free pairs gives a ranked list with the same elements and length |
| Rankings.RankedUnique | src/features/pattern.py:143 | two ranked lists with the same elements are equal, so the sorted output does not depend on the input order |
| Rankings.Ranking | src/features/pattern.py:143 | the reference ranking of a set, built least element first, is ranked and has exactly that set's elements |
| Rankings.SortIsRanking | src/features/pattern.py:143 | sorting any duplicate-free listing of a set gives that set's ranking |
| Rankings.Take | src/features/pattern.py:144 | `[:top_k]` is a prefix of the list of `Kept` length, with Python's meaning for a negative `top_k` |
| Rankings.TakeRanked | src/features/pattern.py:144 | a cut ranked list is ranked, and anything ranked before a kept item is kept |

## Left out

- File persistence (`save_to_file`, `load_from_file`, `load_from_word_freq_file`, `merge_from_word_freq_file`) is file I/O. Only the abstract save-then-load round trip is stated (`Shapes.SaveLoadRoundTrip`). The parsing of a record, including the default frequency 1 for a missing or unparsable field, is not modelled.
- `print_trie`, `as_ascii` and `save_display_to_file` are console and file output.
- Dictionary and set iteration order is not modelled. The loops over `children` and over a class's members visit the keys in an order the model leaves open. Results of `list_words`, `wildcard_match` and the DFS are specified as sets or duplicate-free sequences.
- PrefixTries.PrefixTrie.BestMatch: specified as "some maximal match". The rule that the first match found wins a tie follows the dictionary order, which is not modelled.
- Globs.Search: specified by the set of words it appends, each paired with its stored frequency. It does not say how many times a word reached along several star paths is appended, or in which order. The de-duplication makes both irrelevant to the result.
- Globs.Search: the Python `dfs` appends to a list captured from `glob_match`. The model passes that list in and returns it extended (`results <= out`).
- The exponential running time of `*` backtracking is a performance matter, not a correctness one.
- Python's recursion limit (about 1000 frames) is not modelled. The recursive helpers `_delete`, the `_dfs` of `wildcard_match` and `list_words`, `_merge_nodes`, `_clone_subtree`, `_count_words` and the `dfs` of `glob_match` raise `RecursionError` on words or patterns about 1000 characters long; the model lets them succeed at any depth.
- Patterns.RangeMembers: Dafny characters are Unicode scalar values. A range spanning the surrogate codes U+D800–U+DFFF therefore lacks those codes, which Python's `chr` would produce.
- Python's `getattr(node, "is_end", False)` and `getattr(node, "frequency", 0)` defaults are not modelled. Every vertex has both fields.
- `MergeTrie` reads the source through an immutable snapshot taken before the destination changes. The Python merge reads each source vertex just before writing the matching destination vertex. The results agree, also when a trie is merged into itself.
- The vertices carry two proof-only fields: `path` (the vertex's path) and `owner` (the trie it belongs to). They state that no vertex is shared. They have no counterpart in the source.
- Python integers are unbounded, as are Dafny's, so no wrap-around is modelled.
- PrefixTries.PrefixTrie.Insert: the default argument `frequency: int = 1` is not modelled; `Insert` always takes the frequency, and a call without one is `Insert(word, 1)`.
- Shapes.SaveLoadRoundTrip: the round trip is stated for (word, frequency) values only. The text format of `save_to_file` and `load_from_word_freq_file` does not round-trip every word. A word containing `,` is cut at the comma, and its frequency is read from the wrong field (or defaults to 1). A word containing a line break is split across two lines. Leading whitespace is stripped by `line.strip()`, so ` x` reloads as `x` and a word of spaces reloads as the empty word. Trailing whitespace sits before `,frequency` and survives.
