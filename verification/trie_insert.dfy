/**
 Building the trie: insertion of one word (`AddWordToTrie`) by appending a
 sibling, splitting a node in place, or descending into the first child, and
 `BuildTrie`, which inserts the words of `allWords` in array order.

 Java mutates `curNode` in place; here every operation returns the node that
 occupies `curNode`'s position afterwards.
 */
module TrieInsert {
  import opened TrieNodes
  import opened CommonPrefix
  import opened TriePaths

  /** The number of nodes on the sibling chain starting at `t`. */
  function ChainLength(t: TrieNode): nat
    decreases t
  {
    if t.Nil? then 0 else 1 + ChainLength(t.sibling)
  }

  /** The length of a node's own label (zero when there is none). */
  function Span(t: TrieNode): nat
  {
    if t.Node? && t.substr.Some? && t.substr.value.startIndex <= t.substr.value.endIndex + 1
    then t.substr.value.endIndex + 1 - t.substr.value.startIndex
    else 0
  }

  /**
   The invariant of every call of the insertion: the remaining word is the
   slice `allWords[wordIdx][wordStart..wordEnd]`.
   */
  predicate WordSlice(word: string, wordStart: nat, wordEnd: int, wordIdx: nat, allWords: seq<string>)
  {
    && wordIdx < |allWords|
    && wordStart <= wordEnd + 1 <= |allWords[wordIdx]|
    && word == allWords[wordIdx][wordStart..wordEnd + 1]
  }

  /**
   Splits `cur` after its first `prefixLen` label characters: `cur` keeps the
   shortened label and gets a single new child that holds the rest of the
   label and takes over `cur`'s children.
   */
  function SplitNode(cur: TrieNode, prefixLen: nat, allWords: seq<string>): (r: TrieNode)
    requires cur.Node? && Labeled(cur, allWords)
    requires 0 < prefixLen < Span(cur)
    ensures Labeled(r, allWords) && r.Node? && r.firstChild.Node? && Labeled(r.firstChild, allWords)
    ensures NodeText(r, allWords) + NodeText(r.firstChild, allWords) == NodeText(cur, allWords)
    ensures |NodeText(r, allWords)| == prefixLen
    ensures r.substr.value.wordIndex == r.firstChild.substr.value.wordIndex == cur.substr.value.wordIndex
    ensures r.substr.value.startIndex == cur.substr.value.startIndex
    ensures r.firstChild.substr.value.endIndex == cur.substr.value.endIndex
    ensures r.firstChild.firstChild == cur.firstChild && r.firstChild.sibling.Nil?
    ensures r.sibling == cur.sibling
  {
    var ix := cur.substr.value;
    var prefixEndPos := ix.startIndex + prefixLen - 1;
    var split := Node(Some(Indexes(ix.wordIndex, prefixEndPos + 1, ix.endIndex)), cur.firstChild, Nil);
    var r := Node(Some(Indexes(ix.wordIndex, ix.startIndex, prefixEndPos)), split, cur.sibling);
    assert Labeled(split, allWords);
    assert allWords[ix.wordIndex][ix.startIndex..ix.endIndex + 1]
        == allWords[ix.wordIndex][ix.startIndex..prefixEndPos + 1] + allWords[ix.wordIndex][prefixEndPos + 1..ix.endIndex + 1];
    r
  }

  /**
   Inserts the remaining `word` (the slice `wordStart..wordEnd` of word
   `wordIdx`) into the chain starting at `cur`:
   - no common prefix with `cur`'s label: go on along the siblings, or append
     a new last sibling labelled with the whole remaining slice;
   - the word diverges inside the label: split `cur` and insert again at the
     (now shortened) `cur`;
   - the whole label matches: drop it from the word and insert into the
     first child; a missing first child makes the call a silent no-op.
   */
  function AddWordToTrie(cur: TrieNode, word: string, wordStart: nat, wordEnd: int, wordIdx: nat, allWords: seq<string>): (r: TrieNode)
    requires Labeled(cur, allWords)
    requires WordSlice(word, wordStart, wordEnd, wordIdx, allWords)
    ensures Labeled(r, allWords)
    ensures r.Nil? <==> cur.Nil?
    ensures r.Node? ==> r.substr.value.wordIndex == cur.substr.value.wordIndex
    ensures r.Node? ==> r.substr.value.startIndex == cur.substr.value.startIndex
    ensures r.Node? ==> r.substr.value.endIndex <= cur.substr.value.endIndex
    decreases |word|, ChainLength(cur), Span(cur)
  {
    if cur.Nil? then Nil
    else
      var curNodeSubstr := cur.substr.value;
      var curNodeStr := Text(curNodeSubstr, allWords);
      var prefixLen := CommonPrefixLength(word, curNodeStr);
      if prefixLen == 0 then
        if cur.sibling.Nil? then
          cur.(sibling := Node(Some(Indexes(wordIdx, wordStart, wordEnd)), Nil, Nil))
        else
          cur.(sibling := AddWordToTrie(cur.sibling, word, wordStart, wordEnd, wordIdx, allWords))
      else
        var prefixEndPos := curNodeSubstr.startIndex + prefixLen - 1;
        if prefixEndPos < curNodeSubstr.endIndex then
          AddWordToTrie(SplitNode(cur, prefixLen, allWords), word, wordStart, wordEnd, wordIdx, allWords)
        else
          assert allWords[wordIdx][wordStart + prefixLen..wordEnd + 1] == word[prefixLen..];
          cur.(firstChild := AddWordToTrie(cur.firstChild, word[prefixLen..], wordStart + prefixLen, wordEnd, wordIdx, allWords))
  }

  /** The label of the root's first child before any further word is inserted. */
  function FirstLabel(allWords: seq<string>): Indexes
    requires |allWords| > 0
  {
    Indexes(0, 0, |allWords[0]| - 1)
  }

  /**
   The insertion loop from word `i` on: inserts `allWords[i]`, then
   `allWords[i + 1]`, and so on to the last word, into the chain `cur`.
   */
  function InsertWords(cur: TrieNode, allWords: seq<string>, i: nat): (r: TrieNode)
    requires Labeled(cur, allWords)
    requires i <= |allWords|
    ensures Labeled(r, allWords)
    ensures r.Nil? <==> cur.Nil?
    ensures r.Node? ==> r.substr.value.wordIndex == cur.substr.value.wordIndex
    ensures r.Node? ==> r.substr.value.startIndex == cur.substr.value.startIndex
    ensures r.Node? ==> r.substr.value.endIndex <= cur.substr.value.endIndex
    decreases |allWords| - i
  {
    if i == |allWords| then cur
    else InsertWords(AddWordToTrie(cur, allWords[i], 0, |allWords[i]| - 1, i, allWords), allWords, i + 1)
  }

  /**
   Builds the trie of `allWords`: nothing for an empty array; otherwise a
   label-less root whose first child is labelled with the whole first word,
   followed by the insertion of the remaining words in order.
   */
  function BuildTrie(allWords: seq<string>): (root: TrieNode)
    ensures |allWords| == 0 <==> root.Nil?
    ensures root.Node? ==> root.substr.None? && root.sibling.Nil? && Labeled(root.firstChild, allWords)
    ensures root.Node? ==> root.firstChild.Node? && root.firstChild.substr.value.wordIndex == 0
    ensures root.Node? ==> root.firstChild.substr.value.startIndex == 0
    ensures root.Node? ==> root.firstChild.substr.value.endIndex < |allWords[0]|
  {
    if |allWords| == 0 then Nil
    else
      var firstChild := Node(Some(FirstLabel(allWords)), Nil, Nil);
      Node(None, InsertWords(firstChild, allWords, 1), Nil)
  }
}
