/**
 Building and searching together: for a prefix-free array of words, the
 completion lists of the built trie are stated in terms of the array alone.
 */
module BuildAndSearch {
  import opened TrieNodes
  import opened CommonPrefix
  import opened TriePaths
  import opened TrieInsert
  import opened TrieSearch
  import opened InsertCorrectness
  import opened SearchCorrectness

  /** The words of the array that start with `prefix`. */
  ghost function WordsWithPrefix(prefix: string, allWords: seq<string>): set<string>
  {
    set w | w in allWords && IsPrefix(prefix, w)
  }

  lemma MatchingStored(allWords: seq<string>, prefix: string)
    requires |allWords| > 0 && PrefixFreeWords(allWords)
    ensures WellFormedTrie(BuildTrie(allWords), allWords)
    ensures Matching(prefix, StoredWords(BuildTrie(allWords), allWords)) == WordsWithPrefix(prefix, allWords)
  {
    BuildTrieStoresWords(allWords);
  }

  /**
   When some word of the array starts with `prefix`, the completion list of
   the built trie resolves to exactly those words.
   */
  lemma BuiltCompletionExactWhenMatched(allWords: seq<string>, prefix: string)
    requires |allWords| > 0 && PrefixFreeWords(allWords)
    requires WordsWithPrefix(prefix, allWords) != {}
    ensures CompletionList(BuildTrie(allWords), allWords, prefix).Some?
    ensures Resolved(CompletionList(BuildTrie(allWords), allWords, prefix).value, allWords) == WordsWithPrefix(prefix, allWords)
  {
    MatchingStored(allWords, prefix);
    CompletionListExactWhenMatched(BuildTrie(allWords), allWords, prefix);
  }

  /** Round trip: the completion list of an inserted word is one leaf, which resolves to that word. */
  lemma CompletionRoundTrip(allWords: seq<string>, i: nat)
    requires |allWords| > 0 && PrefixFreeWords(allWords)
    requires i < |allWords|
    ensures CompletionList(BuildTrie(allWords), allWords, allWords[i]).Some?
    ensures |CompletionList(BuildTrie(allWords), allWords, allWords[i]).value| == 1
    ensures Resolved(CompletionList(BuildTrie(allWords), allWords, allWords[i]).value, allWords) == {allWords[i]}
  {
    var w := allWords[i];
    forall v | v in WordsWithPrefix(w, allWords)
      ensures v == w
    {
      var j :| 0 <= j < |allWords| && allWords[j] == v;
      if j != i {
        assert !IsPrefix(allWords[i], allWords[j]);
      }
    }
    assert w[..|w|] == w;
    assert w in WordsWithPrefix(w, allWords);
    BuiltCompletionExactWhenMatched(allWords, w);
    MatchingStored(allWords, w);
    SearchStoredIsOneLeaf(w, BuildTrie(allWords).firstChild, "", allWords);
  }

  /**
   The corrected completion list of the built trie is absent exactly when no
   word of the array starts with `prefix`, and otherwise resolves to exactly
   the words that do.
   */
  lemma BuiltCompletionCheckedExact(allWords: seq<string>, prefix: string)
    requires |allWords| > 0 && PrefixFreeWords(allWords)
    ensures CompletionListChecked(BuildTrie(allWords), allWords, prefix).None? <==> WordsWithPrefix(prefix, allWords) == {}
    ensures CompletionListChecked(BuildTrie(allWords), allWords, prefix).Some? ==>
              Resolved(CompletionListChecked(BuildTrie(allWords), allWords, prefix).value, allWords) == WordsWithPrefix(prefix, allWords)
  {
    MatchingStored(allWords, prefix);
    CompletionListCheckedExact(BuildTrie(allWords), allWords, prefix);
  }
}
