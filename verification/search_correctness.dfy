/**
 What prefix completion promises on a well-formed trie: an empty prefix
 yields every stored word; every stored word that starts with the prefix is
 returned; when at least one stored word starts with the prefix, exactly
 those words are returned; a prefix whose first character starts no stored
 word yields absence. The walk as written can also return words that do not
 start with the prefix; the corrected walk returns exactly the matching words
 for every prefix.
 */
module SearchCorrectness {
  import opened TrieNodes
  import opened CommonPrefix
  import opened TriePaths
  import opened TrieSearch

  /** The strings of `S` that start with `prefix`. */
  ghost function Matching(prefix: string, S: set<string>): set<string>
  {
    set w | w in S && IsPrefix(prefix, w)
  }

  /** The strings of a union that start with `prefix` are those of either part. */
  lemma MatchingUnion(prefix: string, A: set<string>, B: set<string>)
    ensures Matching(prefix, A + B) == Matching(prefix, A) + Matching(prefix, B)
  {
  }

  /** The node itself, when it is a leaf: what a walk with a used-up prefix collects at it. */
  function OwnLeaf(n: TrieNode): seq<TrieNode>
    requires n.Node?
  {
    if n.firstChild.Nil? then [n] else []
  }

  lemma PrependUnion(x: string, A: set<string>, B: set<string>)
    ensures Prepend(x, A + B) == Prepend(x, A) + Prepend(x, B)
  {
  }

  /** A leaf of a chain hanging below `pre` resolves to `pre` followed by its label. */
  lemma ResolveLeaf(n: TrieNode, pre: string, allWords: seq<string>)
    requires n.Node? && n.firstChild.Nil? && WellFormed(n, pre, allWords)
    ensures IsLabeledLeaf(n, allWords)
    ensures Resolve(n, allWords) == pre + NodeText(n, allWords)
  {
    var ix := n.substr.value;
    var w := allWords[ix.wordIndex];
    assert w[..ix.endIndex + 1] == w[..ix.startIndex] + w[ix.startIndex..ix.endIndex + 1];
  }

  /** With an empty prefix the walk returns every string stored below the chain. */
  lemma {:induction false} SearchAllLeaves(t: TrieNode, pre: string, allWords: seq<string>)
    requires WellFormed(t, pre, allWords)
    ensures Resolved(SearchByPrefix("", t, allWords), allWords) == Prepend(pre, Paths(t, allWords))
    decreases t, 1
  {
    if t.Node? {
      var own := OwnLeaf(t) + SearchByPrefix("", t.firstChild, allWords);
      var rest := SearchByPrefix("", t.sibling, allWords);
      assert SearchByPrefix("", t, allWords) == own + rest;
      OwnSubtreeLeaves(t, pre, allWords);
      SearchAllLeaves(t.sibling, pre, allWords);
      ResolvedAppend(own, rest, allWords);
      PrependUnion(pre, Below(t, allWords), Paths(t.sibling, allWords));
    }
  }

  /** A node's own leaf (if any) and the leaves below it resolve to the strings spelled through it. */
  lemma {:induction false} OwnSubtreeLeaves(t: TrieNode, pre: string, allWords: seq<string>)
    requires t.Node? && WellFormed(t, pre, allWords)
    ensures forall i :: 0 <= i < |OwnLeaf(t)| ==> IsLabeledLeaf(OwnLeaf(t)[i], allWords)
    ensures Resolved(OwnLeaf(t) + SearchByPrefix("", t.firstChild, allWords), allWords)
         == Prepend(pre, Below(t, allWords))
    decreases t, 0
  {
    var s := NodeText(t, allWords);
    if t.firstChild.Nil? {
      ResolveLeaf(t, pre, allWords);
      assert OwnLeaf(t) + SearchByPrefix("", t.firstChild, allWords) == [t];
      assert [t][0] == t;
      assert Resolved([t], allWords) == {pre + s};
    } else {
      SearchAllLeaves(t.firstChild, pre + s, allWords);
      assert OwnLeaf(t) + SearchByPrefix("", t.firstChild, allWords) == SearchByPrefix("", t.firstChild, allWords);
      PrependPrepend(pre, s, Paths(t.firstChild, allWords));
    }
  }

  /** No string stored below the siblings of `t` starts with `t`'s first character. */
  lemma SiblingsDoNotMatch(t: TrieNode, pre: string, prefix: string, allWords: seq<string>)
    requires t.Node? && WellFormed(t, pre, allWords)
    requires |prefix| > 0 && prefix[0] == NodeText(t, allWords)[0]
    ensures Matching(prefix, Paths(t.sibling, allWords)) == {}
  {
    PathsShape(t.sibling, pre, allWords);
    forall w | w in Paths(t.sibling, allWords)
      ensures !IsPrefix(prefix, w)
    {
      assert w[0] in Initials(Paths(t.sibling, allWords));
    }
  }

  /** No string stored through node `t` starts with a prefix whose first character differs from its label's. */
  lemma NodeDoesNotMatch(t: TrieNode, pre: string, prefix: string, allWords: seq<string>)
    requires t.Node? && WellFormed(t, pre, allWords)
    requires |prefix| > 0 && prefix[0] != NodeText(t, allWords)[0]
    ensures Matching(prefix, Below(t, allWords)) == {}
  {
    forall w | w in Below(t, allWords)
      ensures !IsPrefix(prefix, w)
    {
      BelowStartsWithLabel(t, allWords, w);
    }
  }

  /** Strings through a node whose label is a prefix of `prefix` match as their continuations match the rest. */
  lemma MatchingBelow(t: TrieNode, prefix: string, allWords: seq<string>)
    requires t.Node? && t.firstChild.Node? && Labeled(t, allWords)
    requires IsPrefix(NodeText(t, allWords), prefix)
    ensures Matching(prefix, Below(t, allWords))
         == Prepend(NodeText(t, allWords), Matching(prefix[|NodeText(t, allWords)|..], Paths(t.firstChild, allWords)))
  {
    var s := NodeText(t, allWords);
    var S := Paths(t.firstChild, allWords);
    var rest := prefix[|s|..];
    assert prefix == s + rest;
    forall w | w in Matching(prefix, Below(t, allWords))
      ensures w in Prepend(s, Matching(rest, S))
    {
      PrependMember(s, S, w);
      var v := w[|s|..];
      assert w == s + v;
      assert v[..|rest|] == w[|s|..|prefix|];
      assert v in Matching(rest, S);
    }
    forall w | w in Prepend(s, Matching(rest, S))
      ensures w in Matching(prefix, Below(t, allWords))
    {
      var v :| v in Matching(rest, S) && w == s + v;
      assert w[..|prefix|] == s + v[..|rest|];
    }
  }

  /** When the prefix is used up inside a node's label, every string through the node matches. */
  lemma AllBelowMatch(t: TrieNode, prefix: string, allWords: seq<string>)
    requires t.Node? && Labeled(t, allWords)
    requires IsPrefix(prefix, NodeText(t, allWords))
    ensures Matching(prefix, Below(t, allWords)) == Below(t, allWords)
  {
    forall w | w in Below(t, allWords)
      ensures IsPrefix(prefix, w)
    {
      BelowStartsWithLabel(t, allWords, w);
    }
  }

  /**
   Conditional exactness of the walk as written: when some string stored
   below the chain starts with `prefix`, the walk returns exactly the
   stored strings that start with it.
   */
  lemma {:induction false} SearchExactWhenMatched(prefix: string, t: TrieNode, pre: string, allWords: seq<string>)
    requires WellFormed(t, pre, allWords)
    requires Matching(prefix, Paths(t, allWords)) != {}
    ensures Resolved(SearchByPrefix(prefix, t, allWords), allWords) == Prepend(pre, Matching(prefix, Paths(t, allWords)))
    decreases t
  {
    if |prefix| == 0 {
      SearchAllLeaves(t, pre, allWords);
      assert Matching(prefix, Paths(t, allWords)) == Paths(t, allWords);
    } else {
      var s := NodeText(t, allWords);
      var cp := CommonPrefixLength(prefix, s);
      var w0 :| w0 in Matching(prefix, Paths(t, allWords));
      PathsShape(t, pre, allWords);
      CommonPrefixPositiveIffSameHead(prefix, s);
      if w0 in Below(t, allWords) {
        BelowStartsWithLabel(t, allWords, w0);
        assert prefix[0] == w0[0] == s[0];
        SiblingsDoNotMatch(t, pre, prefix, allWords);
        SearchThroughNode(prefix, t, pre, allWords, w0);
      } else {
        PathsShape(t.sibling, pre, allWords);
        assert w0[0] in Initials(Paths(t.sibling, allWords));
        NodeDoesNotMatch(t, pre, prefix, allWords);
        SearchExactWhenMatched(prefix, t.sibling, pre, allWords);
        MatchingUnion(prefix, Below(t, allWords), Paths(t.sibling, allWords));
        assert Matching(prefix, Paths(t, allWords)) == Matching(prefix, Paths(t.sibling, allWords));
      }
    }
  }

  /** The case of `SearchExactWhenMatched` where the matching string runs through `t` itself. */
  lemma {:induction false} SearchThroughNode(prefix: string, t: TrieNode, pre: string, allWords: seq<string>, w0: string)
    requires t.Node? && WellFormed(t, pre, allWords)
    requires |prefix| > 0 && w0 in Below(t, allWords) && IsPrefix(prefix, w0)
    requires Matching(prefix, Paths(t.sibling, allWords)) == {}
    ensures Resolved(SearchByPrefix(prefix, t, allWords), allWords) == Prepend(pre, Matching(prefix, Paths(t, allWords)))
    decreases t, 0
  {
    var s := NodeText(t, allWords);
    BelowStartsWithLabel(t, allWords, w0);
    var cp := CommonPrefixLength(prefix, s);
    MatchingUnion(prefix, Below(t, allWords), Paths(t.sibling, allWords));
    assert Matching(prefix, Paths(t, allWords)) == Matching(prefix, Below(t, allWords));
    if |prefix| <= |s| {
      assert prefix == s[..|prefix|];
      PrefixIffFullCommonPrefix(prefix, s);
      assert SearchByPrefix(prefix, t, allWords) == OwnLeaf(t) + SearchByPrefix("", t.firstChild, allWords);
      OwnSubtreeLeaves(t, pre, allWords);
      AllBelowMatch(t, prefix, allWords);
    } else {
      assert s == prefix[..|s|];
      PrefixIffFullCommonPrefix(s, prefix);
      CommonPrefixLengthSymmetric(s, prefix);
      var rest := prefix[|s|..];
      var below := Below(t, allWords);
      assert t.firstChild.Nil? ==> below == {s};
      PrependMember(s, Paths(t.firstChild, allWords), w0);
      var v0 := w0[|s|..];
      assert v0[..|rest|] == w0[|s|..|prefix|];
      assert v0 in Matching(rest, Paths(t.firstChild, allWords));
      assert SearchByPrefix(prefix, t, allWords) == SearchByPrefix(rest, t.firstChild, allWords);
      SearchExactWhenMatched(rest, t.firstChild, pre + s, allWords);
      MatchingBelow(t, prefix, allWords);
      PrependPrepend(pre, s, Matching(rest, Paths(t.firstChild, allWords)));
    }
  }

  /**
   The walk for a whole stored string collects exactly one leaf: it follows
   the string's own path and stops at the leaf where the string ends.
   */
  lemma {:induction false} SearchStoredIsOneLeaf(w: string, t: TrieNode, pre: string, allWords: seq<string>)
    requires WellFormed(t, pre, allWords)
    requires w in Paths(t, allWords)
    ensures |SearchByPrefix(w, t, allWords)| == 1
    decreases t
  {
    PathsShape(t, pre, allWords);
    var s := NodeText(t, allWords);
    if w in Below(t, allWords) {
      BelowStartsWithLabel(t, allWords, w);
      PrefixIffFullCommonPrefix(s, w);
      CommonPrefixLengthSymmetric(s, w);
      if t.firstChild.Nil? {
        assert w == s;
        assert w[|s|..] == "";
      } else {
        PrependMember(s, Paths(t.firstChild, allWords), w);
        PathsShape(t.firstChild, pre + s, allWords);
        SearchStoredIsOneLeaf(w[|s|..], t.firstChild, pre + s, allWords);
      }
    } else {
      PathsShape(t.sibling, pre, allWords);
      assert w[0] in Initials(Paths(t.sibling, allWords));
      CommonPrefixPositiveIffSameHead(w, s);
      SearchStoredIsOneLeaf(w, t.sibling, pre, allWords);
    }
  }

  /**
   Completeness of the walk as written: every stored string that starts with
   `prefix` is returned.
   */
  lemma SearchComplete(prefix: string, t: TrieNode, pre: string, allWords: seq<string>)
    requires WellFormed(t, pre, allWords)
    ensures Prepend(pre, Matching(prefix, Paths(t, allWords))) <= Resolved(SearchByPrefix(prefix, t, allWords), allWords)
  {
    if Matching(prefix, Paths(t, allWords)) != {} {
      SearchExactWhenMatched(prefix, t, pre, allWords);
    }
  }

  /** A non-empty prefix whose first character begins no label of the chain collects nothing. */
  lemma {:induction false} SearchMissesUnknownHead(prefix: string, t: TrieNode, pre: string, allWords: seq<string>)
    requires WellFormed(t, pre, allWords)
    requires |prefix| > 0 && prefix[0] !in Heads(t, allWords)
    ensures SearchByPrefix(prefix, t, allWords) == []
    decreases t
  {
    if t.Node? {
      CommonPrefixPositiveIffSameHead(prefix, NodeText(t, allWords));
      SearchMissesUnknownHead(prefix, t.sibling, pre, allWords);
    }
  }

  /** A label the prefix parts ways with inside the label leads to no string that starts with the prefix. */
  lemma DivergingLabelDoesNotMatch(t: TrieNode, prefix: string, allWords: seq<string>)
    requires t.Node? && Labeled(t, allWords)
    requires CommonPrefixLength(prefix, NodeText(t, allWords)) < |prefix|
    requires CommonPrefixLength(prefix, NodeText(t, allWords)) < |NodeText(t, allWords)|
    ensures Matching(prefix, Below(t, allWords)) == {}
  {
    var s := NodeText(t, allWords);
    var cp := CommonPrefixLength(prefix, s);
    forall w | w in Below(t, allWords)
      ensures !IsPrefix(prefix, w)
    {
      BelowStartsWithLabel(t, allWords, w);
    }
  }

  /** The corrected walk returns exactly the stored strings that start with `prefix`, for every prefix. */
  lemma {:induction false} SearchCheckedExact(prefix: string, t: TrieNode, pre: string, allWords: seq<string>)
    requires WellFormed(t, pre, allWords)
    ensures Resolved(SearchByPrefixChecked(prefix, t, allWords), allWords)
         == Prepend(pre, Matching(prefix, Paths(t, allWords)))
    decreases t, 1
  {
    if t.Nil? {
    } else if |prefix| == 0 {
      SearchAllLeaves(t, pre, allWords);
      assert Matching(prefix, Paths(t, allWords)) == Paths(t, allWords);
    } else {
      var s := NodeText(t, allWords);
      var cp := CommonPrefixLength(prefix, s);
      PathsShape(t, pre, allWords);
      CommonPrefixPositiveIffSameHead(prefix, s);
      if cp == 0 {
        NodeDoesNotMatch(t, pre, prefix, allWords);
        SearchCheckedExact(prefix, t.sibling, pre, allWords);
        MatchingUnion(prefix, Below(t, allWords), Paths(t.sibling, allWords));
        assert Matching(prefix, Paths(t, allWords)) == Matching(prefix, Paths(t.sibling, allWords));
      } else {
        SiblingsDoNotMatch(t, pre, prefix, allWords);
        MatchingUnion(prefix, Below(t, allWords), Paths(t.sibling, allWords));
        assert Matching(prefix, Paths(t, allWords)) == Matching(prefix, Below(t, allWords));
        SearchCheckedThroughNode(prefix, t, pre, allWords);
      }
    }
  }

  /** The case of `SearchCheckedExact` where the prefix shares a first character with `t`'s label. */
  lemma {:induction false} SearchCheckedThroughNode(prefix: string, t: TrieNode, pre: string, allWords: seq<string>)
    requires t.Node? && WellFormed(t, pre, allWords)
    requires |prefix| > 0 && CommonPrefixLength(prefix, NodeText(t, allWords)) > 0
    ensures Resolved(SearchByPrefixChecked(prefix, t, allWords), allWords)
         == Prepend(pre, Matching(prefix, Below(t, allWords)))
    decreases t, 0
  {
    var s := NodeText(t, allWords);
    var cp := CommonPrefixLength(prefix, s);
    var rest := prefix[cp..];
    if |rest| == 0 {
      assert IsPrefix(prefix, s);
      assert SearchByPrefixChecked(rest, t.firstChild, allWords) == SearchByPrefix(rest, t.firstChild, allWords);
      assert SearchByPrefixChecked(prefix, t, allWords) == OwnLeaf(t) + SearchByPrefix("", t.firstChild, allWords);
      OwnSubtreeLeaves(t, pre, allWords);
      AllBelowMatch(t, prefix, allWords);
    } else if cp < |s| {
      DivergingLabelDoesNotMatch(t, prefix, allWords);
    } else {
      assert IsPrefix(s, prefix);
      assert SearchByPrefixChecked(prefix, t, allWords) == SearchByPrefixChecked(rest, t.firstChild, allWords);
      if t.firstChild.Nil? {
        assert Below(t, allWords) == {s};
      } else {
        SearchCheckedExact(rest, t.firstChild, pre + s, allWords);
        MatchingBelow(t, prefix, allWords);
        PrependPrepend(pre, s, Matching(rest, Paths(t.firstChild, allWords)));
      }
    }
  }

  lemma PrependEmpty(S: set<string>)
    ensures Prepend("", S) == S
  {
    forall w | w in S
      ensures w in Prepend("", S)
    {
      assert "" + w == w;
    }
    forall w | w in Prepend("", S)
      ensures w in S
    {
      PrependMember("", S, w);
      assert w[0..] == w;
    }
  }

  /**
   Conditional exactness of the completion list as written: when some
   stored word starts with `prefix`, the list is present and its leaves
   resolve to exactly the stored words that start with `prefix`.
   */
  lemma CompletionListExactWhenMatched(root: TrieNode, allWords: seq<string>, prefix: string)
    requires WellFormedTrie(root, allWords)
    requires Matching(prefix, StoredWords(root, allWords)) != {}
    ensures CompletionList(root, allWords, prefix).Some?
    ensures Resolved(CompletionList(root, allWords, prefix).value, allWords) == Matching(prefix, StoredWords(root, allWords))
  {
    SearchExactWhenMatched(prefix, root.firstChild, "", allWords);
    PrependEmpty(Matching(prefix, StoredWords(root, allWords)));
  }

  /** Completeness of the completion list as written: every stored word that starts with `prefix` is in it. */
  lemma CompletionListComplete(root: TrieNode, allWords: seq<string>, prefix: string, w: string)
    requires WellFormedTrie(root, allWords)
    requires w in StoredWords(root, allWords) && IsPrefix(prefix, w)
    ensures CompletionList(root, allWords, prefix).Some?
    ensures w in Resolved(CompletionList(root, allWords, prefix).value, allWords)
  {
    assert w in Matching(prefix, StoredWords(root, allWords));
    CompletionListExactWhenMatched(root, allWords, prefix);
  }

  /** A non-empty prefix whose first character starts no stored word has no completion list. */
  lemma CompletionListAbsentForUnknownHead(root: TrieNode, allWords: seq<string>, prefix: string)
    requires WellFormedTrie(root, allWords)
    requires |prefix| > 0 && forall w :: w in StoredWords(root, allWords) ==> |w| == 0 || w[0] != prefix[0]
    ensures CompletionList(root, allWords, prefix).None?
  {
    PathsShape(root.firstChild, "", allWords);
    assert prefix[0] !in Initials(StoredWords(root, allWords));
    SearchMissesUnknownHead(prefix, root.firstChild, "", allWords);
  }

  /** A completion list is empty exactly when it resolves to no word. */
  lemma EmptyIffNoneResolved(m: seq<TrieNode>, allWords: seq<string>)
    requires forall i :: 0 <= i < |m| ==> IsLabeledLeaf(m[i], allWords)
    ensures |m| == 0 <==> Resolved(m, allWords) == {}
  {
    if |m| > 0 {
      assert Resolve(m[0], allWords) in Resolved(m, allWords);
    }
  }

  /**
   The corrected completion list is absent exactly when no stored word starts
   with `prefix`, and otherwise resolves to exactly the words that do.
   */
  lemma CompletionListCheckedExact(root: TrieNode, allWords: seq<string>, prefix: string)
    requires WellFormedTrie(root, allWords)
    ensures CompletionListChecked(root, allWords, prefix).None? <==> Matching(prefix, StoredWords(root, allWords)) == {}
    ensures CompletionListChecked(root, allWords, prefix).Some? ==>
              Resolved(CompletionListChecked(root, allWords, prefix).value, allWords) == Matching(prefix, StoredWords(root, allWords))
  {
    var m := SearchByPrefixChecked(prefix, root.firstChild, allWords);
    var matched := Matching(prefix, StoredWords(root, allWords));
    SearchCheckedExact(prefix, root.firstChild, "", allWords);
    PrependEmpty(matched);
    assert Resolved(m, allWords) == matched;
    EmptyIffNoneResolved(m, allWords);
    assert CompletionListChecked(root, allWords, prefix) == if |m| == 0 then None else Some(m);
  }
}
