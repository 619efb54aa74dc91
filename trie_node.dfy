/** One vertex of the character trie (src/trie/trie_node.py). */
module TrieNodes {

  /**
   * A mutable trie vertex. `children` maps a character to the child reached by it,
   * so a vertex has at most one child per character; `isEnd` marks that a stored
   * word ends here; `frequency` is the count kept for that word.
   */
  class TrieNode {
    var children: map<char, TrieNode>
    var isEnd: bool
    var frequency: int
    /**
     * Proof-only: the path from the root of the trie that owns this vertex. Every vertex
     * records its one path, so no vertex can hang at two places of a trie.
     */
    ghost var path: string
    /** Proof-only: the trie this vertex belongs to (`null` until a trie adopts it). */
    ghost var owner: object?

    /** A new vertex is a leaf, is not terminal and has frequency 0. */
    constructor ()
      ensures children == map[]
      ensures !isEnd
      ensures frequency == 0
      ensures path == [] && owner == null
    {
      children := map[];
      isEnd := false;
      frequency := 0;
      path := [];
      owner := null;
    }
  }
}
