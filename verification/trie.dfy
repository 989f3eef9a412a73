// The character trie of Tree/PrefixTree.py.
//
// A node of the trie is reached from the root by exactly one path of
// characters, and no node is ever shared, so the model addresses each node
// by that path: `nodes` maps the path of every node to the node's own data.
// `cur.children[c]` of the node at path `p` is the node at `p + [c]`.

module TrieState {

  /** The data a `Node` keeps besides its children: `key`, the character
      on the edge into it (`'_'` at the root), and `hasValue`, whether an
      inserted word ends here. */
  datatype TrieNode = TrieNode(key: char, hasValue: bool)

  /** Each child is stored under its own character, and the root is
      `Node('_')`. */
  ghost predicate Keyed(nodes: map<string, TrieNode>)
  {
    [] in nodes && nodes[[]].key == '_' &&
    forall p :: p in nodes && p != [] ==> nodes[p].key == p[|p| - 1]
  }

  /** The nodes are the root and the prefixes of the inserted words. */
  ghost predicate Spans(nodes: map<string, TrieNode>, words: set<string>)
  {
    forall p {:trigger p in nodes} :: p in nodes <==> (p == [] || exists w {:trigger w in words} :: w in words && p <= w)
  }

  /** `hasValue` marks exactly the inserted words. */
  ghost predicate Marked(nodes: map<string, TrieNode>, words: set<string>)
  {
    forall p {:trigger nodes[p]} :: p in nodes ==> (nodes[p].hasValue <==> p in words)
  }

  ghost predicate TrieInv(nodes: map<string, TrieNode>, words: set<string>)
  {
    Keyed(nodes) && Spans(nodes, words) && Marked(nodes, words)
  }

  /** The nodes are closed under prefixes: every node on the way from the
      root to a node exists. */
  lemma PrefixClosed(nodes: map<string, TrieNode>, words: set<string>, p: string, q: string)
    requires Spans(nodes, words) && p in nodes && q <= p
    ensures q in nodes
  {
    if p != [] {
      var w :| w in words && p <= w;
      assert q == w[..|q|] by {
        assert q == p[..|q|] && p == w[..|p|];
      }
      assert q <= w;
    }
  }

  /** An inserted word has all its prefixes as nodes already, so
      inserting it again creates no node. */
  lemma ReinsertKeepsNodes(nodes: map<string, TrieNode>, words: set<string>, w: string)
    requires TrieInv(nodes, words) && w in words
    ensures forall p :: p <= w ==> p in nodes
  {
    assert w in nodes;
    forall p | p <= w
      ensures p in nodes
    {
      PrefixClosed(nodes, words, w, p);
    }
  }

  /** The state of `insert` after walking `i` characters of `word` from
      the nodes `nodes0`: the nodes gained are the prefixes of `word` of
      length up to `i`, each unmarked and under its own character. */
  ghost predicate Walked(nodes0: map<string, TrieNode>, nodes: map<string, TrieNode>, word: string, i: int)
  {
    0 <= i <= |word| && word[..i] in nodes && Keyed(nodes) &&
    (forall p :: p in nodes <==> p in nodes0 || (|p| <= i && p <= word)) &&
    (forall p :: p in nodes0 ==> p in nodes && nodes[p] == nodes0[p]) &&
    (forall p :: p in nodes && p !in nodes0 ==> !nodes[p].hasValue)
  }

  /** The step of `insert` to the child at path `next`: the child is kept
      when it exists, and otherwise created, unmarked, under the last
      character of `next` (Tree/PrefixTree.py:22-27). */
  function Child(nodes: map<string, TrieNode>, next: string): (r: map<string, TrieNode>)
    requires Keyed(nodes) && next != []
    ensures next in r && r[next].key == next[|next| - 1]
    ensures forall p :: p in nodes ==> p in r && r[p] == nodes[p]
    ensures forall p :: p in r && p !in nodes ==> p == next && !r[p].hasValue
  {
    if next in nodes then nodes else nodes[next := TrieNode(next[|next| - 1], false)]
  }

  /** One step of the walk of `insert`: go to the child under the next
      character, creating it when it is missing. */
  lemma WalkStep(nodes0: map<string, TrieNode>, nodes: map<string, TrieNode>, word: string, i: int)
    requires Walked(nodes0, nodes, word, i) && i < |word|
    ensures Walked(nodes0, Child(nodes, word[..i + 1]), word, i + 1)
  {
    var next := word[..i + 1];
    var nodes2 := Child(nodes, next);
    forall p
      ensures p in nodes2 <==> p in nodes0 || (|p| <= i + 1 && p <= word)
    {
      if |p| == i + 1 && p <= word {
        assert p == next;
      }
    }
  }

  /** Marking the end of the walk of `insert` spans the words with the
      new one. */
  lemma MarkingSpans(nodes0: map<string, TrieNode>, words0: set<string>, nodes: map<string, TrieNode>, word: string)
    requires TrieInv(nodes0, words0) && Walked(nodes0, nodes, word, |word|)
    ensures Spans(nodes[word := nodes[word].(hasValue := true)], words0 + {word})
  {
    assert word[..|word|] == word;
    var r := nodes[word := nodes[word].(hasValue := true)];
    assert r.Keys == nodes.Keys;
    InsertedSpans(nodes0, words0, r, word);
  }

  /** Marking the end of the walk of `insert` marks the words with the new
      one. */
  lemma MarkingMarks(nodes0: map<string, TrieNode>, words0: set<string>, nodes: map<string, TrieNode>, word: string)
    requires TrieInv(nodes0, words0) && Walked(nodes0, nodes, word, |word|)
    ensures Keyed(nodes[word := nodes[word].(hasValue := true)])
    ensures Marked(nodes[word := nodes[word].(hasValue := true)], words0 + {word})
  {
    assert word[..|word|] == word;
    var r := nodes[word := nodes[word].(hasValue := true)];
    assert r.Keys == nodes.Keys;
    forall p | p in r
      ensures r[p].hasValue <==> p in words0 + {word}
    {
    }
  }

  /** Before the walk of `insert` starts, only the root of the walk is
      known to exist. */
  lemma WalkStart(nodes: map<string, TrieNode>, words: set<string>, word: string)
    requires TrieInv(nodes, words)
    ensures Walked(nodes, nodes, word, 0)
  {
    forall p
      ensures p in nodes <==> p in nodes || (|p| <= 0 && p <= word)
    {
    }
  }

  /** After the walk of `insert` the nodes gained are the prefixes of the
      word, and marking the word's node restores the invariant for the
      words with the new one. */
  lemma Marking(nodes0: map<string, TrieNode>, words0: set<string>, nodes: map<string, TrieNode>, word: string)
    requires TrieInv(nodes0, words0) && Walked(nodes0, nodes, word, |word|)
    ensures word in nodes
    ensures var r := nodes[word := nodes[word].(hasValue := true)];
      TrieInv(r, words0 + {word}) && forall p :: p in r <==> p in nodes0 || p <= word
  {
    assert word[..|word|] == word;
    MarkingSpans(nodes0, words0, nodes, word);
    MarkingMarks(nodes0, words0, nodes, word);
  }

  /** The nodes after an insert span the words after it. */
  lemma InsertedSpans(nodes0: map<string, TrieNode>, words0: set<string>, nodes: map<string, TrieNode>, word: string)
    requires Spans(nodes0, words0)
    requires forall p :: p in nodes <==> p in nodes0 || p <= word
    ensures Spans(nodes, words0 + {word})
  {
    var words := words0 + {word};
    forall p
      ensures p in nodes <==> (p == [] || exists w :: w in words && p <= w)
    {
      if p in nodes && p != [] && p !in nodes0 {
        assert p <= word && word in words;
      }
      if p != [] && (exists w :: w in words && p <= w) {
        var w :| w in words && p <= w;
        if w != word {
          assert p in nodes0;
        }
      }
    }
  }
}

// The `Trie` class itself.
module PrefixTree {
  import opened Wrappers
  import opened TrieState

  /** `Trie` (Tree/PrefixTree.py:7-50). */
  class Trie {
    var nodes: map<string, TrieNode>
    /** The words inserted so far. */
    ghost var words: set<string>

    ghost predicate Valid()
      reads this
    {
      TrieInv(nodes, words)
    }

    /** `Trie()`: only the root, `Node('_')`, and no word. */
    constructor ()
      ensures Valid() && words == {} && nodes.Keys == {[]}
    {
      nodes := map[[] := TrieNode('_', false)];
      words := {};
    }

    /** `insert(word)`: walks down from the root, creating each missing
        child on the way, and marks the node it ends at. The trie gains the
        word, and as nodes exactly the prefixes of the word it lacked. */
    method Insert(word: string)
      requires Valid()
      modifies this
      ensures Valid() && words == old(words) + {word}
      ensures forall p :: p in nodes <==> p in old(nodes) || p <= word
    {
      WalkStart(nodes, words, word);
      var cur: string := [];
      for i := 0 to |word|
        invariant cur == word[..i] && words == old(words)
        invariant Walked(old(nodes), nodes, word, i)
      {
        var next := word[..i + 1];
        WalkStep(old(nodes), nodes, word, i);
        nodes := Child(nodes, next);
        cur := next;
      }
      assert cur == word;
      Marking(old(nodes), old(words), nodes, word);
      nodes := nodes[cur := nodes[cur].(hasValue := true)];
      words := words + {word};
    }

    /** `_searchPrefix(prefix)`: walks down from the root and stops with
        `None` at the first character without a child; otherwise it gives
        the node reached, which is the node of `prefix`. */
    method SearchPrefix(prefix: string) returns (r: Option<string>)
      requires Valid()
      ensures r.Some? <==> prefix in nodes
      ensures r.Some? ==> r.value == prefix
    {
      var cur: string := [];
      for i := 0 to |prefix|
        invariant cur == prefix[..i] && cur in nodes
      {
        var next := cur + [prefix[i]];
        assert next == prefix[..i + 1];
        if next in nodes {
          cur := next;
        } else {
          if prefix in nodes {
            PrefixClosed(nodes, words, prefix, next);
          }
          return None;
        }
      }
      assert prefix[..|prefix|] == prefix;
      return Some(cur);
    }

    /** `search(word)`: whether `word` was inserted. */
    method Search(word: string) returns (r: bool)
      requires Valid()
      ensures r <==> word in words
    {
      var node := SearchPrefix(word);
      if word in words {
        assert word <= word;
      }
      r := node.Some? && nodes[node.value].hasValue;
    }

    /** `startsWith(prefix)`: whether some inserted word starts with
        `prefix`; always so for the empty prefix, which reaches the root. */
    method StartsWith(prefix: string) returns (r: bool)
      requires Valid()
      ensures r <==> prefix == [] || exists w :: w in words && prefix <= w
    {
      var node := SearchPrefix(prefix);
      r := node.Some?;
    }
  }
}
