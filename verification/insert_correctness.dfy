/**
 What insertion promises: a split keeps what the node spells, insertion of a
 word that is neither a prefix nor an extension of a stored string keeps the
 trie well-formed and adds exactly that word, insertion of a word a stored
 string already covers changes nothing, and `BuildTrie` stores exactly the
 input words.
 */
module InsertCorrectness {
  import opened TrieNodes
  import opened CommonPrefix
  import opened TriePaths
  import opened TrieInsert

  /**
   Splitting a node of a well-formed chain keeps the chain well-formed and
   keeps the strings it spells: the shortened label followed by the split-off
   remainder spells the old label, and the old children hang below both.
   */
  lemma SplitPreservesTrie(cur: TrieNode, prefixLen: nat, pre: string, allWords: seq<string>)
    requires cur.Node? && WellFormed(cur, pre, allWords)
    requires 0 < prefixLen < Span(cur)
    ensures WellFormed(SplitNode(cur, prefixLen, allWords), pre, allWords)
    ensures Paths(SplitNode(cur, prefixLen, allWords), allWords) == Paths(cur, allWords)
  {
    var r := SplitNode(cur, prefixLen, allWords);
    var split := r.firstChild;
    var ix := cur.substr.value;
    var w := allWords[ix.wordIndex];
    var t := NodeText(cur, allWords);
    var s1 := NodeText(r, allWords);
    var s2 := NodeText(split, allWords);
    assert s1[0] == t[0];
    assert w[..ix.startIndex + prefixLen] == w[..ix.startIndex] + w[ix.startIndex..ix.startIndex + prefixLen];
    assert (pre + s1) + s2 == pre + t;
    assert Shaped(split, pre + s1, allWords);
    if cur.firstChild.Nil? {
      assert Below(split, allWords) == {s2};
      assert Paths(split, allWords) == {s2};
      assert Prepend(s1, {s2}) == {s1 + s2};
    } else {
      assert Paths(split, allWords) == Prepend(s2, Paths(cur.firstChild, allWords));
      PrependPrepend(s1, s2, Paths(cur.firstChild, allWords));
      assert s1 + s2 == t;
    }
  }

  /**
   A full match with a stored prefix-free word leaves a non-empty remainder
   that is prefix-free with the strings below the matched node.
   */
  lemma FullMatchDescends(cur: TrieNode, word: string, pre: string, allWords: seq<string>)
    requires cur.Node? && WellFormed(cur, pre, allWords)
    requires PrefixFreeWith(word, Paths(cur, allWords))
    requires IsPrefix(NodeText(cur, allWords), word)
    ensures cur.firstChild.Node? && WellFormed(cur.firstChild, pre + NodeText(cur, allWords), allWords)
    ensures |word| > |NodeText(cur, allWords)|
    ensures PrefixFreeWith(word[|NodeText(cur, allWords)|..], Paths(cur.firstChild, allWords))
  {
    var t := NodeText(cur, allWords);
    var stored := Paths(cur, allWords);
    var own := Below(cur, allWords);
    assert own <= stored;
    assert cur.firstChild.Nil? ==> t in own;
    PathsShape(cur.firstChild, pre + t, allWords);
    var v :| v in Paths(cur.firstChild, allWords);
    assert t + v in Below(cur, allWords);
    assert (t + v)[..|t|] == t;
    var rest := word[|t|..];
    assert word == t + rest;
    forall s | s in Paths(cur.firstChild, allWords)
      ensures !IsPrefix(s, rest) && !IsPrefix(rest, s)
    {
      assert t + s in Below(cur, allWords);
    }
  }

  /** The one-node chain labelled with the remaining slice stores just that slice. */
  lemma NewLeafStoresWord(word: string, wordStart: nat, wordEnd: int, wordIdx: nat, pre: string, allWords: seq<string>)
    requires WordSlice(word, wordStart, wordEnd, wordIdx, allWords)
    requires pre == allWords[wordIdx][..wordStart]
    requires |word| > 0
    ensures WellFormed(Node(Some(Indexes(wordIdx, wordStart, wordEnd)), Nil, Nil), pre, allWords)
    ensures Paths(Node(Some(Indexes(wordIdx, wordStart, wordEnd)), Nil, Nil), allWords) == {word}
  {
    var leaf := Node(Some(Indexes(wordIdx, wordStart, wordEnd)), Nil, Nil);
    assert Labeled(leaf, allWords);
    assert NodeText(leaf, allWords) == word;
    assert Heads(Nil, allWords) == {};
    assert Shaped(leaf, pre, allWords);
    assert Below(leaf, allWords) == {word};
    assert Paths(leaf, allWords) == {word} + Paths(Nil, allWords);
  }

  /**
   Replacing the siblings of a node by a chain that stores one more word,
   whose first character differs from the node's label, adds exactly that word.
   */
  lemma ReplaceSibling(cur: TrieNode, newSib: TrieNode, word: string, pre: string, allWords: seq<string>)
    requires cur.Node? && WellFormed(cur, pre, allWords)
    requires WellFormed(newSib, pre, allWords)
    requires |word| > 0 && NodeText(cur, allWords)[0] != word[0]
    requires Paths(newSib, allWords) == Paths(cur.sibling, allWords) + {word}
    ensures WellFormed(cur.(sibling := newSib), pre, allWords)
    ensures Paths(cur.(sibling := newSib), allWords) == Paths(cur, allWords) + {word}
  {
    var r := cur.(sibling := newSib);
    PathsShape(cur.sibling, pre, allWords);
    PathsShape(newSib, pre, allWords);
    assert Initials(Paths(newSib, allWords)) == Initials(Paths(cur.sibling, allWords)) + {word[0]};
    assert Below(r, allWords) == Below(cur, allWords);
  }

  /**
   Replacing the children of a node by a chain that stores one more string
   `rest` adds exactly the node's label followed by `rest`.
   */
  lemma ReplaceFirstChild(cur: TrieNode, newChild: TrieNode, rest: string, pre: string, allWords: seq<string>)
    requires cur.Node? && WellFormed(cur, pre, allWords) && cur.firstChild.Node?
    requires WellFormed(newChild, pre + NodeText(cur, allWords), allWords) && newChild.Node?
    requires Paths(newChild, allWords) == Paths(cur.firstChild, allWords) + {rest}
    ensures WellFormed(cur.(firstChild := newChild), pre, allWords)
    ensures Paths(cur.(firstChild := newChild), allWords) == Paths(cur, allWords) + {NodeText(cur, allWords) + rest}
  {
    var r := cur.(firstChild := newChild);
    var t := NodeText(cur, allWords);
    assert Below(r, allWords) == Prepend(t, Paths(cur.firstChild, allWords) + {rest});
    assert Prepend(t, Paths(cur.firstChild, allWords) + {rest}) == Below(cur, allWords) + {t + rest};
  }

  /** `after` is a well-formed chain below `pre` storing what `before` stores and `word`. */
  ghost predicate AddsWord(before: TrieNode, after: TrieNode, word: string, pre: string, allWords: seq<string>)
  {
    Labeled(before, allWords) && WellFormed(after, pre, allWords)
    && Paths(after, allWords) == Paths(before, allWords) + {word}
  }

  /**
   What an insertion step relies on: a non-empty chain that is well-formed
   below `pre`, a remaining word that is the slice of its source word after
   `pre`, and no stored string that is a prefix or an extension of the word.
   */
  ghost predicate CanAdd(cur: TrieNode, word: string, wordStart: nat, wordEnd: int, wordIdx: nat, pre: string, allWords: seq<string>)
  {
    && cur.Node? && WellFormed(cur, pre, allWords)
    && WordSlice(word, wordStart, wordEnd, wordIdx, allWords)
    && pre == allWords[wordIdx][..wordStart]
    && |word| > 0
    && PrefixFreeWith(word, Paths(cur, allWords))
  }

  /** Going on along the siblings keeps what an insertion step relies on. */
  lemma SiblingCanAdd(cur: TrieNode, word: string, wordStart: nat, wordEnd: int, wordIdx: nat, pre: string, allWords: seq<string>)
    requires CanAdd(cur, word, wordStart, wordEnd, wordIdx, pre, allWords) && cur.sibling.Node?
    ensures CanAdd(cur.sibling, word, wordStart, wordEnd, wordIdx, pre, allWords)
  {
    assert Paths(cur.sibling, allWords) <= Paths(cur, allWords);
  }

  /** Splitting the node keeps what an insertion step relies on. */
  lemma SplitCanAdd(cur: TrieNode, word: string, wordStart: nat, wordEnd: int, wordIdx: nat, pre: string, allWords: seq<string>)
    requires CanAdd(cur, word, wordStart, wordEnd, wordIdx, pre, allWords)
    requires 0 < CommonPrefixLength(word, NodeText(cur, allWords)) < Span(cur)
    ensures CanAdd(SplitNode(cur, CommonPrefixLength(word, NodeText(cur, allWords)), allWords),
                   word, wordStart, wordEnd, wordIdx, pre, allWords)
  {
    SplitPreservesTrie(cur, CommonPrefixLength(word, NodeText(cur, allWords)), pre, allWords);
  }

  /** After a full match, the rest of the word can be inserted below the node. */
  lemma DescendCanAdd(cur: TrieNode, word: string, wordStart: nat, wordEnd: int, wordIdx: nat, pre: string, allWords: seq<string>,
                      rest: string, restStart: nat)
    requires CanAdd(cur, word, wordStart, wordEnd, wordIdx, pre, allWords)
    requires word == NodeText(cur, allWords) + rest && restStart == wordStart + |NodeText(cur, allWords)|
    requires WordSlice(rest, restStart, wordEnd, wordIdx, allWords)
    ensures cur.firstChild.Node?
    ensures CanAdd(cur.firstChild, rest, restStart, wordEnd, wordIdx, pre + NodeText(cur, allWords), allWords)
  {
    var t := NodeText(cur, allWords);
    assert IsPrefix(t, word);
    assert word[|t|..] == rest;
    FullMatchDescends(cur, word, pre, allWords);
    AdvanceSlice(word, wordStart, wordEnd, wordIdx, pre, t, allWords);
  }

  /** The append case: no common prefix and no sibling, so the word becomes the new last sibling. */
  lemma AppendAddsWord(cur: TrieNode, word: string, wordStart: nat, wordEnd: int, wordIdx: nat, pre: string, allWords: seq<string>)
    requires cur.Node? && WellFormed(cur, pre, allWords) && cur.sibling.Nil?
    requires WordSlice(word, wordStart, wordEnd, wordIdx, allWords)
    requires pre == allWords[wordIdx][..wordStart] && |word| > 0
    requires CommonPrefixLength(word, NodeText(cur, allWords)) == 0
    ensures AddsWord(cur, AddWordToTrie(cur, word, wordStart, wordEnd, wordIdx, allWords), word, pre, allWords)
  {
    var leaf := Node(Some(Indexes(wordIdx, wordStart, wordEnd)), Nil, Nil);
    CommonPrefixPositiveIffSameHead(word, NodeText(cur, allWords));
    NewLeafStoresWord(word, wordStart, wordEnd, wordIdx, pre, allWords);
    assert Paths(cur.sibling, allWords) == {};
    AddWordAppend(cur, word, wordStart, wordEnd, wordIdx, allWords);
    ReplaceSibling(cur, leaf, word, pre, allWords);
  }

  /** The probing case: no common prefix, so the word goes on along the siblings. */
  lemma SiblingAddsWord(cur: TrieNode, word: string, wordStart: nat, wordEnd: int, wordIdx: nat, pre: string, allWords: seq<string>)
    requires cur.Node? && WellFormed(cur, pre, allWords) && cur.sibling.Node?
    requires WordSlice(word, wordStart, wordEnd, wordIdx, allWords) && |word| > 0
    requires CommonPrefixLength(word, NodeText(cur, allWords)) == 0
    requires AddsWord(cur.sibling, AddWordToTrie(cur.sibling, word, wordStart, wordEnd, wordIdx, allWords), word, pre, allWords)
    ensures AddsWord(cur, AddWordToTrie(cur, word, wordStart, wordEnd, wordIdx, allWords), word, pre, allWords)
  {
    CommonPrefixPositiveIffSameHead(word, NodeText(cur, allWords));
    AddWordAlongSiblings(cur, word, wordStart, wordEnd, wordIdx, allWords);
    ReplaceSibling(cur, AddWordToTrie(cur.sibling, word, wordStart, wordEnd, wordIdx, allWords), word, pre, allWords);
  }

  /** The split case: the word is inserted again at the split node, which stores the same strings. */
  lemma SplitAddsWord(cur: TrieNode, word: string, wordStart: nat, wordEnd: int, wordIdx: nat, pre: string, allWords: seq<string>)
    requires cur.Node? && WellFormed(cur, pre, allWords)
    requires WordSlice(word, wordStart, wordEnd, wordIdx, allWords)
    requires 0 < CommonPrefixLength(word, NodeText(cur, allWords)) < Span(cur)
    requires var split := SplitNode(cur, CommonPrefixLength(word, NodeText(cur, allWords)), allWords);
             AddsWord(split, AddWordToTrie(split, word, wordStart, wordEnd, wordIdx, allWords), word, pre, allWords)
    ensures AddsWord(cur, AddWordToTrie(cur, word, wordStart, wordEnd, wordIdx, allWords), word, pre, allWords)
  {
    SplitPreservesTrie(cur, CommonPrefixLength(word, NodeText(cur, allWords)), pre, allWords);
    AddWordSplit(cur, word, wordStart, wordEnd, wordIdx, allWords);
  }

  /** A node whose children gain `rest` gains its label followed by `rest`. */
  lemma ChildAddsWord(cur: TrieNode, newChild: TrieNode, rest: string, word: string, pre: string, allWords: seq<string>)
    requires cur.Node? && WellFormed(cur, pre, allWords) && cur.firstChild.Node?
    requires AddsWord(cur.firstChild, newChild, rest, pre + NodeText(cur, allWords), allWords)
    requires word == NodeText(cur, allWords) + rest
    ensures AddsWord(cur, cur.(firstChild := newChild), word, pre, allWords)
  {
    ReplaceFirstChild(cur, newChild, rest, pre, allWords);
  }

  /**
   Inserting a non-empty word that is neither a prefix nor an extension of
   (nor equal to) a string stored below a well-formed chain keeps the chain
   well-formed and adds exactly that word to what it stores. The remaining
   word must be the slice of its source word that follows the path `pre`.
   */
  lemma {:induction false} AddWordPreservesTrie(cur: TrieNode, word: string, wordStart: nat, wordEnd: int,
                                               wordIdx: nat, pre: string, allWords: seq<string>)
    requires CanAdd(cur, word, wordStart, wordEnd, wordIdx, pre, allWords)
    ensures AddsWord(cur, AddWordToTrie(cur, word, wordStart, wordEnd, wordIdx, allWords), word, pre, allWords)
    decreases |word|, ChainLength(cur), Span(cur), 1
  {
    var t := NodeText(cur, allWords);
    var prefixLen := CommonPrefixLength(word, t);
    if prefixLen == 0 {
      if cur.sibling.Nil? {
        AppendAddsWord(cur, word, wordStart, wordEnd, wordIdx, pre, allWords);
      } else {
        SiblingCanAdd(cur, word, wordStart, wordEnd, wordIdx, pre, allWords);
        AddWordPreservesTrie(cur.sibling, word, wordStart, wordEnd, wordIdx, pre, allWords);
        SiblingAddsWord(cur, word, wordStart, wordEnd, wordIdx, pre, allWords);
      }
    } else if prefixLen < Span(cur) {
      SplitCanAdd(cur, word, wordStart, wordEnd, wordIdx, pre, allWords);
      var split := SplitNode(cur, prefixLen, allWords);
      assert ChainLength(split) == ChainLength(cur);
      assert Span(split) == prefixLen < Span(cur);
      AddWordPreservesTrie(split, word, wordStart, wordEnd, wordIdx, pre, allWords);
      SplitAddsWord(cur, word, wordStart, wordEnd, wordIdx, pre, allWords);
    } else {
      AddBelowPreservesTrie(cur, word, wordStart, wordEnd, wordIdx, pre, allWords);
    }
  }

  /** The full-match step of `AddWordPreservesTrie`: the rest of the word goes in below the node. */
  lemma {:induction false} AddBelowPreservesTrie(cur: TrieNode, word: string, wordStart: nat, wordEnd: int,
                                                wordIdx: nat, pre: string, allWords: seq<string>)
    requires CanAdd(cur, word, wordStart, wordEnd, wordIdx, pre, allWords)
    requires CommonPrefixLength(word, NodeText(cur, allWords)) >= Span(cur)
    ensures AddsWord(cur, AddWordToTrie(cur, word, wordStart, wordEnd, wordIdx, allWords), word, pre, allWords)
    decreases |word|, ChainLength(cur), Span(cur), 0
  {
    var t := NodeText(cur, allWords);
    assert CommonPrefixLength(word, t) == |t| > 0;
    var rest, restStart := AddWordDescends(cur, word, wordStart, wordEnd, wordIdx, allWords);
    var restPre := pre + t;
    DescendCanAdd(cur, word, wordStart, wordEnd, wordIdx, pre, allWords, rest, restStart);
    AddWordPreservesTrie(cur.firstChild, rest, restStart, wordEnd, wordIdx, restPre, allWords);
    var newChild := AddWordToTrie(cur.firstChild, rest, restStart, wordEnd, wordIdx, allWords);
    ChildAddsWord(cur, newChild, rest, word, pre, allWords);
  }

  /** Trimming a matched label off the remaining word advances `wordStart` by the label's length. */
  lemma AdvanceSlice(word: string, wordStart: nat, wordEnd: int, wordIdx: nat, pre: string, t: string, allWords: seq<string>)
    requires WordSlice(word, wordStart, wordEnd, wordIdx, allWords)
    requires pre == allWords[wordIdx][..wordStart]
    requires IsPrefix(t, word)
    ensures WordSlice(word[|t|..], wordStart + |t|, wordEnd, wordIdx, allWords)
    ensures pre + t == allWords[wordIdx][..wordStart + |t|]
  {
    var w := allWords[wordIdx];
    assert w[wordStart + |t|..wordEnd + 1] == word[|t|..];
    assert w[..wordStart + |t|] == w[..wordStart] + w[wordStart..wordStart + |t|];
    assert w[wordStart..wordStart + |t|] == word[..|t|];
  }

  /** The append step of the insertion: no common prefix and no sibling. */
  lemma AddWordAppend(cur: TrieNode, word: string, wordStart: nat, wordEnd: int, wordIdx: nat, allWords: seq<string>)
    requires cur.Node? && Labeled(cur, allWords) && cur.sibling.Nil?
    requires WordSlice(word, wordStart, wordEnd, wordIdx, allWords)
    requires CommonPrefixLength(word, NodeText(cur, allWords)) == 0
    ensures AddWordToTrie(cur, word, wordStart, wordEnd, wordIdx, allWords)
         == cur.(sibling := Node(Some(Indexes(wordIdx, wordStart, wordEnd)), Nil, Nil))
  {
  }

  /** The sibling-probing step of the insertion: no common prefix, so the word moves on along the chain. */
  lemma AddWordAlongSiblings(cur: TrieNode, word: string, wordStart: nat, wordEnd: int, wordIdx: nat, allWords: seq<string>)
    requires cur.Node? && Labeled(cur, allWords) && cur.sibling.Node?
    requires WordSlice(word, wordStart, wordEnd, wordIdx, allWords)
    requires CommonPrefixLength(word, NodeText(cur, allWords)) == 0
    ensures AddWordToTrie(cur, word, wordStart, wordEnd, wordIdx, allWords)
         == cur.(sibling := AddWordToTrie(cur.sibling, word, wordStart, wordEnd, wordIdx, allWords))
  {
  }

  /** The splitting step of the insertion: the word is inserted again at the split node. */
  lemma AddWordSplit(cur: TrieNode, word: string, wordStart: nat, wordEnd: int, wordIdx: nat, allWords: seq<string>)
    requires cur.Node? && Labeled(cur, allWords)
    requires WordSlice(word, wordStart, wordEnd, wordIdx, allWords)
    requires 0 < CommonPrefixLength(word, NodeText(cur, allWords)) < Span(cur)
    ensures AddWordToTrie(cur, word, wordStart, wordEnd, wordIdx, allWords)
         == AddWordToTrie(SplitNode(cur, CommonPrefixLength(word, NodeText(cur, allWords)), allWords),
                          word, wordStart, wordEnd, wordIdx, allWords)
  {
  }

  /** The full-match step of the insertion: the node keeps its label and the word goes on into its children. */
  lemma AddWordFullMatch(cur: TrieNode, word: string, wordStart: nat, wordEnd: int, wordIdx: nat, allWords: seq<string>)
    requires cur.Node? && Labeled(cur, allWords)
    requires WordSlice(word, wordStart, wordEnd, wordIdx, allWords)
    requires CommonPrefixLength(word, NodeText(cur, allWords)) == |NodeText(cur, allWords)| > 0
    ensures WordSlice(word[|NodeText(cur, allWords)|..], wordStart + |NodeText(cur, allWords)|, wordEnd, wordIdx, allWords)
    ensures AddWordToTrie(cur, word, wordStart, wordEnd, wordIdx, allWords)
         == cur.(firstChild := AddWordToTrie(cur.firstChild, word[|NodeText(cur, allWords)|..],
                                             wordStart + |NodeText(cur, allWords)|, wordEnd, wordIdx, allWords))
  {
    var ix := cur.substr.value;
    var t := NodeText(cur, allWords);
    assert |t| == ix.endIndex + 1 - ix.startIndex;
    assert !(ix.startIndex + |t| - 1 < ix.endIndex);
    assert allWords[wordIdx][wordStart + |t|..wordEnd + 1] == word[|t|..];
  }

  /** `AddWordFullMatch`, handing back the trimmed word and its new start. */
  lemma AddWordDescends(cur: TrieNode, word: string, wordStart: nat, wordEnd: int, wordIdx: nat, allWords: seq<string>)
    returns (rest: string, restStart: nat)
    requires cur.Node? && Labeled(cur, allWords)
    requires WordSlice(word, wordStart, wordEnd, wordIdx, allWords)
    requires CommonPrefixLength(word, NodeText(cur, allWords)) == |NodeText(cur, allWords)| > 0
    ensures word == NodeText(cur, allWords) + rest && restStart == wordStart + |NodeText(cur, allWords)|
    ensures WordSlice(rest, restStart, wordEnd, wordIdx, allWords)
    ensures AddWordToTrie(cur, word, wordStart, wordEnd, wordIdx, allWords)
         == cur.(firstChild := AddWordToTrie(cur.firstChild, rest, restStart, wordEnd, wordIdx, allWords))
  {
    var t := NodeText(cur, allWords);
    FullCommonPrefixSplits(word, t);
    AddWordFullMatch(cur, word, wordStart, wordEnd, wordIdx, allWords);
    rest, restStart := word[|t|..], wordStart + |t|;
  }

  /**
   Inserting a word that a stored string is a prefix of (in particular a
   duplicate, or an extension of a stored word) leaves the chain unchanged:
   the descent reaches a missing first child and returns.
   */
  lemma {:induction false} AddWordCoveredIsNoOp(cur: TrieNode, word: string, wordStart: nat, wordEnd: int,
                                               wordIdx: nat, pre: string, allWords: seq<string>, stored: string)
    requires WellFormed(cur, pre, allWords)
    requires WordSlice(word, wordStart, wordEnd, wordIdx, allWords)
    requires stored in Paths(cur, allWords) && IsPrefix(stored, word)
    ensures AddWordToTrie(cur, word, wordStart, wordEnd, wordIdx, allWords) == cur
    decreases |word|, ChainLength(cur), 1
  {
    PathsShape(cur, pre, allWords);
    if stored in Below(cur, allWords) {
      CoveredBelowIsNoOp(cur, word, wordStart, wordEnd, wordIdx, pre, allWords, stored);
    } else {
      var t := NodeText(cur, allWords);
      PathsShape(cur.sibling, pre, allWords);
      assert stored[0] in Heads(cur.sibling, allWords);
      assert stored[0] == word[0];
      CommonPrefixPositiveIffSameHead(word, t);
      AddWordCoveredIsNoOp(cur.sibling, word, wordStart, wordEnd, wordIdx, pre, allWords, stored);
    }
  }

  /** The case of `AddWordCoveredIsNoOp` where the covering string lies below `cur` itself. */
  lemma {:induction false} CoveredBelowIsNoOp(cur: TrieNode, word: string, wordStart: nat, wordEnd: int,
                                             wordIdx: nat, pre: string, allWords: seq<string>, stored: string)
    requires cur.Node? && WellFormed(cur, pre, allWords)
    requires WordSlice(word, wordStart, wordEnd, wordIdx, allWords)
    requires stored in Below(cur, allWords) && IsPrefix(stored, word)
    ensures AddWordToTrie(cur, word, wordStart, wordEnd, wordIdx, allWords) == cur
    decreases |word|, ChainLength(cur), 0
  {
    var t := NodeText(cur, allWords);
    BelowStartsWithLabel(cur, allWords, stored);
    assert IsPrefix(t, word);
    PrefixIffFullCommonPrefix(t, word);
    CommonPrefixLengthSymmetric(t, word);
    if cur.firstChild.Node? {
      PrependMember(t, Paths(cur.firstChild, allWords), stored);
      var rest, restStart := AddWordDescends(cur, word, wordStart, wordEnd, wordIdx, allWords);
      var restPre, restStored := pre + t, stored[|t|..];
      assert rest[..|restStored|] == restStored;
      AddWordCoveredIsNoOp(cur.firstChild, rest, restStart, wordEnd, wordIdx, restPre, allWords, restStored);
    }
  }

  /** The input `BuildTrie` is meant for: non-empty words, none a prefix of (or equal to) another. */
  ghost predicate PrefixFreeWords(allWords: seq<string>)
  {
    && (forall i :: 0 <= i < |allWords| ==> |allWords[i]| > 0)
    && (forall i, j :: 0 <= i < |allWords| && 0 <= j < |allWords| && i != j ==> !IsPrefix(allWords[i], allWords[j]))
  }

  /** The first `n` words of the input. */
  ghost function WordsUpTo(allWords: seq<string>, n: nat): set<string>
    requires n <= |allWords|
  {
    set i | 0 <= i < n :: allWords[i]
  }

  lemma WordsUpToStep(allWords: seq<string>, n: nat)
    requires 0 < n <= |allWords|
    ensures WordsUpTo(allWords, n) == WordsUpTo(allWords, n - 1) + {allWords[n - 1]}
  {
    assert allWords[n - 1] in WordsUpTo(allWords, n);
  }

  /** The root's first child, before any other word is inserted, stores just the first word. */
  lemma FirstChildStoresFirstWord(allWords: seq<string>)
    requires |allWords| > 0 && |allWords[0]| > 0
    ensures WellFormed(Node(Some(FirstLabel(allWords)), Nil, Nil), "", allWords)
    ensures Paths(Node(Some(FirstLabel(allWords)), Nil, Nil), allWords) == {allWords[0]}
  {
    var w := allWords[0];
    assert w[0..|w|] == w;
    assert w[..0] == "";
    NewLeafStoresWord(w, 0, |w| - 1, 0, "", allWords);
  }

  /** The chain below the root is well-formed and stores exactly the first `n` words. */
  ghost predicate HoldsFirstWords(t: TrieNode, allWords: seq<string>, n: nat)
    requires n <= |allWords|
  {
    t.Node? && WellFormed(t, "", allWords) && Paths(t, allWords) == WordsUpTo(allWords, n)
  }

  /** Inserting word `k` into a chain holding the first `k` words makes it hold the first `k + 1`. */
  lemma InsertNextWord(prev: TrieNode, allWords: seq<string>, k: nat)
    requires 0 < k < |allWords| && PrefixFreeWords(allWords)
    requires HoldsFirstWords(prev, allWords, k)
    ensures HoldsFirstWords(AddWordToTrie(prev, allWords[k], 0, |allWords[k]| - 1, k, allWords), allWords, k + 1)
  {
    var word := allWords[k];
    assert word[0..|word|] == word;
    forall s | s in Paths(prev, allWords)
      ensures !IsPrefix(s, word) && !IsPrefix(word, s)
    {
      var i :| 0 <= i < k && allWords[i] == s;
    }
    AddWordPreservesTrie(prev, word, 0, |word| - 1, k, "", allWords);
    WordsUpToStep(allWords, k + 1);
  }

  /**
   Running the insertion loop from word `i` on a chain that stores exactly
   the first `i` words leaves a well-formed chain storing all the words.
   */
  lemma {:induction false} InsertWordsStoresAll(cur: TrieNode, allWords: seq<string>, i: nat)
    requires 1 <= i <= |allWords| && PrefixFreeWords(allWords)
    requires HoldsFirstWords(cur, allWords, i)
    ensures HoldsFirstWords(InsertWords(cur, allWords, i), allWords, |allWords|)
    decreases |allWords| - i
  {
    if i == |allWords| {
      assert InsertWords(cur, allWords, i) == cur;
    } else {
      var next := AddWordToTrie(cur, allWords[i], 0, |allWords[i]| - 1, i, allWords);
      assert InsertWords(cur, allWords, i) == InsertWords(next, allWords, i + 1);
      InsertNextWord(cur, allWords, i);
      InsertWordsStoresAll(next, allWords, i + 1);
    }
  }

  /**
   Building from a non-empty list of prefix-free words yields a well-formed
   trie whose root-to-leaf strings are exactly the input words.
   */
  lemma BuildTrieStoresWords(allWords: seq<string>)
    requires |allWords| > 0 && PrefixFreeWords(allWords)
    ensures WellFormedTrie(BuildTrie(allWords), allWords)
    ensures forall w :: w in StoredWords(BuildTrie(allWords), allWords) <==> w in allWords
  {
    FirstChildStoresFirstWord(allWords);
    WordsUpToStep(allWords, 1);
    assert WordsUpTo(allWords, 0) == {};
    InsertWordsStoresAll(Node(Some(FirstLabel(allWords)), Nil, Nil), allWords, 1);
    forall w | w in allWords
      ensures w in WordsUpTo(allWords, |allWords|)
    {
      var i :| 0 <= i < |allWords| && allWords[i] == w;
    }
  }
}
