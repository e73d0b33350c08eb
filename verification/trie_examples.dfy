/**
 The worked examples of the completion-list documentation (the words
 "bear", "bull", "stock", "bell"), and two two-word tries on which the walk as
 written returns a word that does not start with the prefix: one of plain
 letters, and one whose words hold characters outside the Basic Multilingual
 Plane.
 */
module TrieExamples {
  import opened TrieNodes
  import opened CommonPrefix
  import opened TriePaths
  import opened TrieInsert
  import opened TrieSearch
  import opened InsertCorrectness
  import opened SearchCorrectness
  import opened BuildAndSearch

  /** A leaf labelled `allWords[w][s..e]`. */
  function Leaf(w: nat, s: nat, e: int, sibling: TrieNode): TrieNode
  {
    Node(Some(Indexes(w, s, e)), Nil, sibling)
  }

  const AbWords: seq<string> := ["abcd", "abce"]

  /** The trie of "abcd" then "abce": one node "abc" over the leaves "d" and "e". */
  const AbTrie: TrieNode :=
    Node(None, Node(Some(Indexes(0, 0, 2)), Leaf(0, 3, 3, Leaf(1, 3, 3, Nil)), Nil), Nil)

  /** Below the split "abc", "e" has nothing in common with "d" and is appended after it. */
  lemma InsertAbceBelowAbc()
    ensures AddWordToTrie(Leaf(0, 3, 3, Nil), "e", 3, 3, 1, AbWords) == AbTrie.firstChild.firstChild
  {
    assert NodeText(Leaf(0, 3, 3, Nil), AbWords) == "d";
    CommonPrefixLengthUnique("e", "d", 0);
    AddWordAppend(Leaf(0, 3, 3, Nil), "e", 3, 3, 1, AbWords);
  }

  /** "abce" parts ways with "abcd" after "abc": the label is split there. */
  lemma SplitForAbce()
    ensures AddWordToTrie(Leaf(0, 0, 3, Nil), "abce", 0, 3, 1, AbWords)
         == AddWordToTrie(Node(Some(Indexes(0, 0, 2)), Leaf(0, 3, 3, Nil), Nil), "abce", 0, 3, 1, AbWords)
  {
    var first := Leaf(0, 0, 3, Nil);
    assert NodeText(first, AbWords) == "abcd";
    CommonPrefixLengthUnique("abce", "abcd", 3);
    AddWordSplit(first, "abce", 0, 3, 1, AbWords);
  }

  /** After the split, "abce" matches all of "abc" and goes on below it. */
  lemma InsertAbceAfterSplit()
    ensures AddWordToTrie(Node(Some(Indexes(0, 0, 2)), Leaf(0, 3, 3, Nil), Nil), "abce", 0, 3, 1, AbWords)
         == AbTrie.firstChild
  {
    var split := Node(Some(Indexes(0, 0, 2)), Leaf(0, 3, 3, Nil), Nil);
    assert NodeText(split, AbWords) == "abc";
    CommonPrefixLengthUnique("abce", "abc", 3);
    AddWordFullMatch(split, "abce", 0, 3, 1, AbWords);
    assert "abce"[3..] == "e";
    InsertAbceBelowAbc();
  }

  /** "abce" splits the label "abcd" after "abc" and then goes on below it. */
  lemma InsertAbce()
    ensures AddWordToTrie(Leaf(0, 0, 3, Nil), "abce", 0, 3, 1, AbWords) == AbTrie.firstChild
  {
    SplitForAbce();
    InsertAbceAfterSplit();
  }

  lemma BuildAbTrie()
    ensures BuildTrie(AbWords) == AbTrie
  {
    var W := AbWords;
    assert Node(Some(FirstLabel(W)), Nil, Nil) == Leaf(0, 0, 3, Nil);
    InsertAbce();
    assert InsertWords(AbTrie.firstChild, W, 2) == AbTrie.firstChild;
    assert InsertWords(Leaf(0, 0, 3, Nil), W, 1) == AbTrie.firstChild;
  }

  /** Below "abc", the leftover "d" of the prefix "ad" fully matches the leaf "d". */
  lemma SearchDBelowAbc()
    ensures SearchByPrefix("d", AbTrie.firstChild.firstChild, AbWords) == [AbTrie.firstChild.firstChild]
  {
    var d := AbTrie.firstChild.firstChild;
    assert NodeText(d, AbWords) == "d";
    CommonPrefixLengthUnique("d", "d", 1);
    assert "d"[1..] == "";
  }

  /** "ad" shares one character with "abc"; the walk goes on below it with "d". */
  lemma SearchAdInAbTrie()
    ensures SearchByPrefix("ad", AbTrie.firstChild, AbWords) == [AbTrie.firstChild.firstChild]
    ensures SearchByPrefixChecked("ad", AbTrie.firstChild, AbWords) == []
  {
    var abc := AbTrie.firstChild;
    assert NodeText(abc, AbWords) == "abc";
    CommonPrefixLengthUnique("ad", "abc", 1);
    assert "ad"[1..] == "d";
    SearchDBelowAbc();
  }

  /**
   The walk as written overmatches: in the trie of "abcd" and "abce" the
   prefix "ad" parts ways with the label "abc" after one character, the walk
   goes on with "d" below it and returns the leaf of "abcd", a word that does
   not start with "ad". The corrected walk returns nothing.
   */
  lemma SearchByPrefixOvermatches()
    ensures CompletionList(BuildTrie(AbWords), AbWords, "ad").Some?
    ensures Resolved(CompletionList(BuildTrie(AbWords), AbWords, "ad").value, AbWords) == {"abcd"}
    ensures !IsPrefix("ad", "abcd")
    ensures CompletionListChecked(BuildTrie(AbWords), AbWords, "ad").None?
  {
    var d := AbTrie.firstChild.firstChild;
    BuildAbTrie();
    SearchAdInAbTrie();
    assert [d][0] == d;
    assert Resolve(d, AbWords) == "abcd";
    assert "abcd"[1] != "ad"[1];
  }

  const BearWords: seq<string> := ["bear", "bull", "stock", "bell"]

  /** The trie of the documentation's example: "b" over "e" (over "ar", "ll") and "ull", next to "stock". */
  const BearTrie: TrieNode :=
    Node(None,
         Node(Some(Indexes(0, 0, 0)),
              Node(Some(Indexes(0, 1, 1)), Leaf(0, 2, 3, Leaf(3, 2, 3, Nil)), Leaf(1, 1, 3, Nil)),
              Leaf(2, 0, 4, Nil)),
         Nil)

  /** The first child before "bull" is inserted: the whole word "bear". */
  const BearFirst: TrieNode := Leaf(0, 0, 3, Nil)

  /** After "bull": "b" over "ear" and "ull". */
  const BearAfterBull: TrieNode := Node(Some(Indexes(0, 0, 0)), Leaf(0, 1, 3, Leaf(1, 1, 3, Nil)), Nil)

  /** After "stock": the same, with "stock" next to "b". */
  const BearAfterStock: TrieNode := BearAfterBull.(sibling := Leaf(2, 0, 4, Nil))

  /** "bull" parts ways with "bear" after "b": the label is split there. */
  lemma SplitForBull()
    ensures AddWordToTrie(BearFirst, "bull", 0, 3, 1, BearWords)
         == AddWordToTrie(Node(Some(Indexes(0, 0, 0)), Leaf(0, 1, 3, Nil), Nil), "bull", 0, 3, 1, BearWords)
  {
    assert NodeText(BearFirst, BearWords) == "bear";
    CommonPrefixLengthUnique("bull", "bear", 1);
    AddWordSplit(BearFirst, "bull", 0, 3, 1, BearWords);
  }

  /** Below "b", "ull" has nothing in common with "ear" and is appended after it. */
  lemma InsertBullBelowB()
    ensures AddWordToTrie(Leaf(0, 1, 3, Nil), "ull", 1, 3, 1, BearWords) == BearAfterBull.firstChild
  {
    assert NodeText(Leaf(0, 1, 3, Nil), BearWords) == "ear";
    CommonPrefixLengthUnique("ull", "ear", 0);
    AddWordAppend(Leaf(0, 1, 3, Nil), "ull", 1, 3, 1, BearWords);
  }

  /** After the split, "bull" matches all of "b" and goes on below it. */
  lemma InsertBullAfterSplit()
    ensures AddWordToTrie(Node(Some(Indexes(0, 0, 0)), Leaf(0, 1, 3, Nil), Nil), "bull", 0, 3, 1, BearWords)
         == BearAfterBull
  {
    var b := Node(Some(Indexes(0, 0, 0)), Leaf(0, 1, 3, Nil), Nil);
    assert NodeText(b, BearWords) == "b";
    CommonPrefixLengthUnique("bull", "b", 1);
    AddWordFullMatch(b, "bull", 0, 3, 1, BearWords);
    assert "bull"[1..] == "ull";
    InsertBullBelowB();
  }

  lemma InsertBull()
    ensures AddWordToTrie(BearFirst, "bull", 0, 3, 1, BearWords) == BearAfterBull
  {
    SplitForBull();
    InsertBullAfterSplit();
  }

  lemma InsertStock()
    ensures AddWordToTrie(BearAfterBull, "stock", 0, 4, 2, BearWords) == BearAfterStock
  {
    var W := BearWords;
    assert NodeText(BearAfterBull, W) == "b";
    CommonPrefixLengthUnique("stock", "b", 0);
    AddWordAppend(BearAfterBull, "stock", 0, 4, 2, W);
  }

  /** "ell" parts ways with "ear" after "e": the label is split there. */
  lemma SplitForBell()
    ensures AddWordToTrie(Leaf(0, 1, 3, Leaf(1, 1, 3, Nil)), "ell", 1, 3, 3, BearWords)
         == AddWordToTrie(Node(Some(Indexes(0, 1, 1)), Leaf(0, 2, 3, Nil), Leaf(1, 1, 3, Nil)), "ell", 1, 3, 3, BearWords)
  {
    var ear := Leaf(0, 1, 3, Leaf(1, 1, 3, Nil));
    assert NodeText(ear, BearWords) == "ear";
    CommonPrefixLengthUnique("ell", "ear", 1);
    AddWordSplit(ear, "ell", 1, 3, 3, BearWords);
  }

  /** Below "e", "ll" has nothing in common with "ar" and is appended after it. */
  lemma InsertBellBelowE()
    ensures AddWordToTrie(Leaf(0, 2, 3, Nil), "ll", 2, 3, 3, BearWords) == Leaf(0, 2, 3, Leaf(3, 2, 3, Nil))
  {
    assert NodeText(Leaf(0, 2, 3, Nil), BearWords) == "ar";
    CommonPrefixLengthUnique("ll", "ar", 0);
    AddWordAppend(Leaf(0, 2, 3, Nil), "ll", 2, 3, 3, BearWords);
  }

  /** After the split, "ell" matches all of "e" and goes on below it. */
  lemma InsertBellAfterSplit()
    ensures AddWordToTrie(Node(Some(Indexes(0, 1, 1)), Leaf(0, 2, 3, Nil), Leaf(1, 1, 3, Nil)), "ell", 1, 3, 3, BearWords)
         == BearTrie.firstChild.firstChild
  {
    var e := Node(Some(Indexes(0, 1, 1)), Leaf(0, 2, 3, Nil), Leaf(1, 1, 3, Nil));
    assert NodeText(e, BearWords) == "e";
    CommonPrefixLengthUnique("ell", "e", 1);
    AddWordFullMatch(e, "ell", 1, 3, 3, BearWords);
    assert "ell"[1..] == "ll";
    InsertBellBelowE();
  }

  lemma InsertBellBelowB()
    ensures AddWordToTrie(Leaf(0, 1, 3, Leaf(1, 1, 3, Nil)), "ell", 1, 3, 3, BearWords)
         == BearTrie.firstChild.firstChild
  {
    SplitForBell();
    InsertBellAfterSplit();
  }

  lemma InsertBell()
    ensures AddWordToTrie(BearAfterStock, "bell", 0, 3, 3, BearWords) == BearTrie.firstChild
  {
    var W := BearWords;
    assert NodeText(BearAfterStock, W) == "b";
    CommonPrefixLengthUnique("bell", "b", 1);
    AddWordFullMatch(BearAfterStock, "bell", 0, 3, 3, W);
    assert "bell"[1..] == "ell";
    InsertBellBelowB();
  }

  lemma BuildBearTrie()
    ensures BuildTrie(BearWords) == BearTrie
  {
    var W := BearWords;
    assert Node(Some(FirstLabel(W)), Nil, Nil) == BearFirst;
    InsertBell();
    assert InsertWords(BearAfterStock, W, 3) == BearTrie.firstChild;
    InsertStock();
    assert InsertWords(BearAfterBull, W, 2) == BearTrie.firstChild;
    InsertBull();
    assert InsertWords(BearFirst, W, 1) == BearTrie.firstChild;
  }

  const BearsWords: seq<string> := ["bear", "bears"]

  /**
   "bears" matches the whole label "bear", whose leaf has no child, so the
   insertion returns at once: the trie stores "bear" alone.
   */
  lemma BuildDropsExtension()
    ensures BuildTrie(BearsWords) == Node(None, BearFirst, Nil)
  {
    var W := BearsWords;
    assert Node(Some(FirstLabel(W)), Nil, Nil) == BearFirst;
    assert NodeText(BearFirst, W) == "bear";
    CommonPrefixLengthUnique("bears", "bear", 4);
    AddWordFullMatch(BearFirst, "bears", 0, 4, 1, W);
    assert InsertWords(BearFirst, W, 1) == InsertWords(BearFirst, W, 2);
  }

  lemma BearWordsPrefixFree()
    ensures PrefixFreeWords(BearWords)
  {
    var W := BearWords;
    forall i, j | 0 <= i < |W| && 0 <= j < |W| && i != j
      ensures !IsPrefix(W[i], W[j])
    {
      assert W[i][0] != W[j][0] || W[i][1] != W[j][1] || W[i][2] != W[j][2];
    }
  }

  /** A completion of the example whose matching words are known. */
  lemma BearCompletion(prefix: string, expected: set<string>)
    requires WordsWithPrefix(prefix, BearWords) == expected != {}
    ensures var r := CompletionList(BuildTrie(BearWords), BearWords, prefix);
            r.Some? && Resolved(r.value, BearWords) == expected
  {
    BearWordsPrefixFree();
    BuiltCompletionExactWhenMatched(BearWords, prefix);
  }

  /** "b" completes to bear, bull and bell. */
  lemma CompletionsOfB()
    ensures var r := CompletionList(BuildTrie(BearWords), BearWords, "b");
            r.Some? && Resolved(r.value, BearWords) == {"bear", "bull", "bell"}
  {
    var W := BearWords;
    assert IsPrefix("b", W[0]) && IsPrefix("b", W[1]) && IsPrefix("b", W[3]);
    forall w | w in WordsWithPrefix("b", W)
      ensures w in {"bear", "bull", "bell"}
    {
      var i :| 0 <= i < 4 && W[i] == w;
      assert i != 2 by { assert W[2][0] != 'b'; }
    }
    BearCompletion("b", {"bear", "bull", "bell"});
  }

  /** "be" completes to bear and bell. */
  lemma CompletionsOfBe()
    ensures var r := CompletionList(BuildTrie(BearWords), BearWords, "be");
            r.Some? && Resolved(r.value, BearWords) == {"bear", "bell"}
  {
    var W := BearWords;
    assert IsPrefix("be", W[0]) && IsPrefix("be", W[3]);
    forall w | w in WordsWithPrefix("be", W)
      ensures w in {"bear", "bell"}
    {
      var i :| 0 <= i < 4 && W[i] == w;
      assert i != 1 by { assert W[1][1] != 'e'; }
      assert i != 2 by { assert W[2][0] != 'b'; }
    }
    BearCompletion("be", {"bear", "bell"});
  }

  /** Below "e", "ll" has nothing in common with "ar" and fully matches the leaf "ll" beside it. */
  lemma SearchLlBelowE()
    ensures SearchByPrefix("ll", BearTrie.firstChild.firstChild.firstChild, BearWords) == [Leaf(3, 2, 3, Nil)]
  {
    var W := BearWords;
    var ar := BearTrie.firstChild.firstChild.firstChild;
    assert NodeText(ar, W) == "ar";
    CommonPrefixLengthUnique("ll", "ar", 0);
    assert NodeText(ar.sibling, W) == "ll";
    CommonPrefixLengthUnique("ll", "ll", 2);
    assert "ll"[2..] == "";
  }

  /** Below "b", "ell" shares "e" with the label "e"; the walk goes on below it with "ll". */
  lemma SearchEllBelowB()
    ensures SearchByPrefix("ell", BearTrie.firstChild.firstChild, BearWords) == [Leaf(3, 2, 3, Nil)]
  {
    var W := BearWords;
    var e := BearTrie.firstChild.firstChild;
    assert NodeText(e, W) == "e";
    CommonPrefixLengthUnique("ell", "e", 1);
    assert "ell"[1..] == "ll";
    SearchLlBelowE();
  }

  /** "bell" shares "b" with the first label; the walk collects the one leaf "ll" of "bell". */
  lemma SearchBellInBearTrie()
    ensures SearchByPrefix("bell", BearTrie.firstChild, BearWords) == [Leaf(3, 2, 3, Nil)]
  {
    var W := BearWords;
    var b := BearTrie.firstChild;
    assert NodeText(b, W) == "b";
    CommonPrefixLengthUnique("bell", "b", 1);
    assert "bell"[1..] == "ell";
    SearchEllBelowB();
  }

  /** The completion list of "bell" is the one leaf "ll" below "e". */
  lemma BellListIsOneLeaf()
    ensures CompletionList(BuildTrie(BearWords), BearWords, "bell") == Some([Leaf(3, 2, 3, Nil)])
  {
    BuildBearTrie();
    SearchBellInBearTrie();
  }

  /** A whole stored word completes to itself alone, through exactly one leaf. */
  lemma CompletionsOfBell()
    ensures var r := CompletionList(BuildTrie(BearWords), BearWords, "bell");
            r.Some? && |r.value| == 1 && Resolved(r.value, BearWords) == {"bell"}
  {
    var W := BearWords;
    assert IsPrefix("bell", W[3]);
    forall w | w in WordsWithPrefix("bell", W)
      ensures w == "bell"
    {
      var i :| 0 <= i < 4 && W[i] == w;
      assert i != 0 by { assert W[0][2] != 'l'; }
      assert i != 1 by { assert W[1][1] != 'e'; }
      assert i != 2 by { assert W[2][0] != 'b'; }
    }
    BearCompletion("bell", {"bell"});
    BellListIsOneLeaf();
  }

  /** The empty prefix completes to every stored word. */
  lemma CompletionsOfEmpty()
    ensures var r := CompletionList(BuildTrie(BearWords), BearWords, "");
            r.Some? && Resolved(r.value, BearWords) == {"bear", "bull", "stock", "bell"}
  {
    var W := BearWords;
    assert IsPrefix("", W[0]) && IsPrefix("", W[1]) && IsPrefix("", W[2]) && IsPrefix("", W[3]);
    forall w | w in WordsWithPrefix("", W)
      ensures w in {"bear", "bull", "stock", "bell"}
    {
      var i :| 0 <= i < 4 && W[i] == w;
    }
    BearCompletion("", {"bear", "bull", "stock", "bell"});
  }

  /** Below "b", no label starts with "z". */
  lemma NoChildStartsWithZ()
    ensures SearchByPrefix("z", BearTrie.firstChild.firstChild, BearWords) == []
  {
    var W := BearWords;
    var e := BearTrie.firstChild.firstChild;
    assert NodeText(e.sibling, W) == "ull";
    CommonPrefixLengthUnique("z", "ull", 0);
    assert SearchByPrefix("z", e.sibling, W) == [];
    assert NodeText(e, W) == "e";
    CommonPrefixLengthUnique("z", "e", 0);
  }

  /** "bz" has no completion: after "b" no child label starts with "z". */
  lemma BearNoCompletion()
    ensures CompletionList(BuildTrie(BearWords), BearWords, "bz").None?
  {
    var W := BearWords;
    BuildBearTrie();
    var b := BearTrie.firstChild;
    assert NodeText(b, W) == "b";
    CommonPrefixLengthUnique("bz", "b", 1);
    assert "bz"[1..] == "z";
    NoChildStartsWithZ();
    assert SearchByPrefix("bz", b, W) == [] + [];
  }

  /**
   Two words whose third characters lie outside the Basic Multilingual Plane.
   As characters they share only "ab"; as UTF-16 code units they would also
   share the first half of the surrogate pair.
   */
  const WideWords: seq<string> := ["ab\U{10428}c", "ab\U{10429}d"]

  /** The trie of `WideWords`: "ab" over the leaves "\U{10428}c" and "\U{10429}d". */
  const WideTrie: TrieNode :=
    Node(None, Node(Some(Indexes(0, 0, 1)), Leaf(0, 2, 3, Leaf(1, 2, 3, Nil)), Nil), Nil)

  /** The second wide word parts ways with the first after "ab": the label is split there. */
  lemma SplitForWide()
    ensures AddWordToTrie(Leaf(0, 0, 3, Nil), "ab\U{10429}d", 0, 3, 1, WideWords)
         == AddWordToTrie(Node(Some(Indexes(0, 0, 1)), Leaf(0, 2, 3, Nil), Nil), "ab\U{10429}d", 0, 3, 1, WideWords)
  {
    var first := Leaf(0, 0, 3, Nil);
    assert NodeText(first, WideWords) == "ab\U{10428}c";
    CommonPrefixLengthUnique("ab\U{10429}d", "ab\U{10428}c", 2);
    AddWordSplit(first, "ab\U{10429}d", 0, 3, 1, WideWords);
  }

  /** Below "ab", "\U{10429}d" shares nothing with "\U{10428}c" and is appended after it. */
  lemma InsertWideBelowAb()
    ensures AddWordToTrie(Leaf(0, 2, 3, Nil), "\U{10429}d", 2, 3, 1, WideWords) == WideTrie.firstChild.firstChild
  {
    assert NodeText(Leaf(0, 2, 3, Nil), WideWords) == "\U{10428}c";
    CommonPrefixLengthUnique("\U{10429}d", "\U{10428}c", 0);
    AddWordAppend(Leaf(0, 2, 3, Nil), "\U{10429}d", 2, 3, 1, WideWords);
  }

  /** After the split, the second wide word matches all of "ab" and goes on below it. */
  lemma InsertWideAfterSplit()
    ensures AddWordToTrie(Node(Some(Indexes(0, 0, 1)), Leaf(0, 2, 3, Nil), Nil), "ab\U{10429}d", 0, 3, 1, WideWords)
         == WideTrie.firstChild
  {
    var split := Node(Some(Indexes(0, 0, 1)), Leaf(0, 2, 3, Nil), Nil);
    assert NodeText(split, WideWords) == "ab";
    CommonPrefixLengthUnique("ab\U{10429}d", "ab", 2);
    AddWordFullMatch(split, "ab\U{10429}d", 0, 3, 1, WideWords);
    assert "ab\U{10429}d"[2..] == "\U{10429}d";
    InsertWideBelowAb();
  }

  lemma BuildWideTrie()
    ensures BuildTrie(WideWords) == WideTrie
  {
    var W := WideWords;
    assert Node(Some(FirstLabel(W)), Nil, Nil) == Leaf(0, 0, 3, Nil);
    SplitForWide();
    InsertWideAfterSplit();
    assert InsertWords(WideTrie.firstChild, W, 2) == WideTrie.firstChild;
    assert InsertWords(Leaf(0, 0, 3, Nil), W, 1) == WideTrie.firstChild;
  }

  /**
   The prefix "a\U{10428}c" shares one character with "ab"; the walk goes on
   below it with "\U{10428}c", which fully matches the first leaf.
   */
  lemma SearchWideOvermatch()
    ensures SearchByPrefix("a\U{10428}c", WideTrie.firstChild, WideWords) == [WideTrie.firstChild.firstChild]
  {
    var W := WideWords;
    var ab := WideTrie.firstChild;
    assert NodeText(ab, W) == "ab";
    CommonPrefixLengthUnique("a\U{10428}c", "ab", 1);
    assert "a\U{10428}c"[1..] == "\U{10428}c";
    var leaf := ab.firstChild;
    assert NodeText(leaf, W) == "\U{10428}c";
    CommonPrefixLengthUnique("\U{10428}c", "\U{10428}c", 2);
    assert "\U{10428}c"[2..] == "";
  }

  /**
   On `WideWords` the walk as written, counting characters, returns the first
   word for the prefix "a\U{10428}c", which it does not start with.
   */
  lemma WideCompletionOvermatches()
    ensures CompletionList(BuildTrie(WideWords), WideWords, "a\U{10428}c") == Some([WideTrie.firstChild.firstChild])
    ensures Resolve(WideTrie.firstChild.firstChild, WideWords) == "ab\U{10428}c"
    ensures !IsPrefix("a\U{10428}c", "ab\U{10428}c")
  {
    BuildWideTrie();
    SearchWideOvermatch();
    assert "ab\U{10428}c"[1] != "a\U{10428}c"[1];
  }
}
