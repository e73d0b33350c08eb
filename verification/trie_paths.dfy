/**
 What a trie stores and the invariants that make it a compressed trie.

 A sibling chain `t` hangs below some path string `pre` (the labels from the
 root down to the chain's parent). `Paths(t)` is the set of strings spelled
 from the chain down to its leaves, relative to `pre`; the words stored in a
 whole trie are `Paths(root.firstChild)`.
 */
module TriePaths {
  import opened TrieNodes
  import opened CommonPrefix

  /** Every string of `S` with `x` put in front. */
  ghost function Prepend(x: string, S: set<string>): set<string>
  {
    set s | s in S :: x + s
  }

  lemma PrependMember(x: string, S: set<string>, y: string)
    ensures y in Prepend(x, S) <==> IsPrefix(x, y) && y[|x|..] in S
  {
    if IsPrefix(x, y) && y[|x|..] in S {
      assert y == x + y[|x|..];
    }
  }

  lemma PrependPrepend(x: string, y: string, S: set<string>)
    ensures Prepend(x, Prepend(y, S)) == Prepend(x + y, S)
  {
    forall s | s in S
      ensures x + (y + s) == (x + y) + s
    {
    }
  }

  /** The strings spelled from the nodes of chain `t` down to its leaves. */
  ghost function Paths(t: TrieNode, allWords: seq<string>): set<string>
    requires Labeled(t, allWords)
    decreases t
  {
    if t.Nil? then {}
    else Below(t, allWords) + Paths(t.sibling, allWords)
  }

  /** The strings spelled from node `n` itself down to the leaves beneath it. */
  ghost function Below(n: TrieNode, allWords: seq<string>): set<string>
    requires n.Node? && Labeled(n, allWords)
    decreases n, 0
  {
    if n.firstChild.Nil? then {NodeText(n, allWords)}
    else Prepend(NodeText(n, allWords), Paths(n.firstChild, allWords))
  }

  /** The first characters of the labels along the chain `t`. */
  ghost function Heads(t: TrieNode, allWords: seq<string>): set<char>
    requires Labeled(t, allWords)
    decreases t
  {
    if t.Nil? then {}
    else
      var s := NodeText(t, allWords);
      (if |s| > 0 then {s[0]} else {}) + Heads(t.sibling, allWords)
  }

  /**
   The representation invariant of a chain hanging below path `pre`:
   every label is non-empty, starts at offset `|pre|` of a word that begins
   with `pre` (so `startIndex` is the length of the path above the label),
   no two siblings start with the same character, and the same holds one
   level down below `pre` extended by the label.
   */
  ghost predicate WellFormed(t: TrieNode, pre: string, allWords: seq<string>)
  {
    Labeled(t, allWords) && Shaped(t, pre, allWords)
  }

  ghost predicate Shaped(t: TrieNode, pre: string, allWords: seq<string>)
    requires Labeled(t, allWords)
    decreases t
  {
    t.Nil? ||
    (var ix := t.substr.value;
     && ix.startIndex <= ix.endIndex
     && ix.startIndex == |pre|
     && allWords[ix.wordIndex][..ix.startIndex] == pre
     && NodeText(t, allWords)[0] !in Heads(t.sibling, allWords)
     && Shaped(t.firstChild, pre + NodeText(t, allWords), allWords)
     && Shaped(t.sibling, pre, allWords))
  }

  /** A stored string is never shorter than one character. */
  ghost predicate NonEmptyStrings(S: set<string>)
  {
    forall s :: s in S ==> |s| > 0
  }

  /** The first characters of a set of non-empty strings. */
  ghost function Initials(S: set<string>): set<char>
    requires NonEmptyStrings(S)
  {
    set s | s in S :: s[0]
  }

  /**
   Below a well-formed chain every stored string is non-empty, the chain is
   non-empty exactly when something is stored, and the first characters of
   the stored strings are exactly the first characters of the chain's labels.
   */
  lemma {:induction false} PathsShape(t: TrieNode, pre: string, allWords: seq<string>)
    requires WellFormed(t, pre, allWords)
    ensures NonEmptyStrings(Paths(t, allWords))
    ensures t.Node? <==> Paths(t, allWords) != {}
    ensures Initials(Paths(t, allWords)) == Heads(t, allWords)
    decreases t
  {
    if t.Node? {
      var s := NodeText(t, allWords);
      PathsShape(t.sibling, pre, allWords);
      PathsShape(t.firstChild, pre + s, allWords);
      var own := Below(t, allWords);
      if t.firstChild.Nil? {
        assert own == {s};
      } else {
        var w :| w in Paths(t.firstChild, allWords);
        assert s + w in own;
        forall v | v in own
          ensures |v| > 0 && v[0] == s[0]
        {
          PrependMember(s, Paths(t.firstChild, allWords), v);
        }
      }
      assert Initials(own) == {s[0]};
      assert Initials(Paths(t, allWords)) == Initials(own) + Initials(Paths(t.sibling, allWords));
    }
  }

  /** Every string stored below node `n` begins with `n`'s label. */
  lemma BelowStartsWithLabel(n: TrieNode, allWords: seq<string>, w: string)
    requires n.Node? && Labeled(n, allWords)
    requires w in Below(n, allWords)
    ensures IsPrefix(NodeText(n, allWords), w)
  {
    if n.firstChild.Node? {
      PrependMember(NodeText(n, allWords), Paths(n.firstChild, allWords), w);
    }
  }

  /** The word `word` and the strings of `S` are not prefixes of one another (no duplicate either). */
  ghost predicate PrefixFreeWith(word: string, S: set<string>)
  {
    forall s :: s in S ==> !IsPrefix(s, word) && !IsPrefix(word, s)
  }

  /** A whole trie: a label-less root without siblings over a well-formed chain at the empty path. */
  ghost predicate WellFormedTrie(root: TrieNode, allWords: seq<string>)
  {
    root.Node? && root.substr.None? && root.sibling.Nil? && WellFormed(root.firstChild, "", allWords)
  }

  /** The words a whole trie stores: its root-to-leaf strings. */
  ghost function StoredWords(root: TrieNode, allWords: seq<string>): set<string>
    requires WellFormedTrie(root, allWords)
  {
    Paths(root.firstChild, allWords)
  }
}
