/**
 Worked examples of arrays that are not prefix-free. A word that is a proper
 prefix of a stored word leaves behind a leaf with an empty label; after
 that, a later duplicate or extension is no longer dropped.
 */
module PrefixExamples {
  import opened TrieNodes
  import opened CommonPrefix
  import opened TrieInsert
  import opened InsertCorrectness
  import opened TrieExamples

  /** "be" over the leaf "ar": the label "bear" split after "be". */
  const BeOverAr: TrieNode := Node(Some(Indexes(0, 0, 1)), Leaf(0, 2, 3, Nil), Nil)

  /** `BeOverAr` with the empty leaf of word 1 appended beside "ar". */
  const BeOverArEmpty: TrieNode := Node(Some(Indexes(0, 0, 1)), Leaf(0, 2, 3, Leaf(1, 2, 1, Nil)), Nil)

  /** "be" parts ways with "bear" inside the label, after "be": the label is split there. */
  lemma SplitForBe(W: seq<string>)
    requires |W| >= 2 && W[0] == "bear" && W[1] == "be"
    ensures AddWordToTrie(BearFirst, "be", 0, 1, 1, W) == AddWordToTrie(BeOverAr, "be", 0, 1, 1, W)
  {
    assert NodeText(BearFirst, W) == "bear";
    CommonPrefixLengthUnique("be", "bear", 2);
    AddWordSplit(BearFirst, "be", 0, 1, 1, W);
  }

  /**
   After the split, "be" matches all of "be" and the empty rest is appended
   below it as the label (1, 2, 1).
   */
  lemma InsertBeAfterSplit(W: seq<string>)
    requires |W| >= 2 && W[0] == "bear" && W[1] == "be"
    ensures AddWordToTrie(BeOverAr, "be", 0, 1, 1, W) == BeOverArEmpty
  {
    assert NodeText(BeOverAr, W) == "be";
    CommonPrefixLengthUnique("be", "be", 2);
    AddWordFullMatch(BeOverAr, "be", 0, 1, 1, W);
    assert "be"[2..] == "";
    assert NodeText(Leaf(0, 2, 3, Nil), W) == "ar";
    CommonPrefixLengthUnique("", "ar", 0);
    AddWordAppend(Leaf(0, 2, 3, Nil), "", 2, 1, 1, W);
  }

  /** The first two words "bear" and "be" give "be" over "ar" and an empty leaf. */
  lemma InsertBe(W: seq<string>)
    requires |W| >= 2 && W[0] == "bear" && W[1] == "be"
    ensures AddWordToTrie(BearFirst, "be", 0, 1, 1, W) == BeOverArEmpty
  {
    SplitForBe(W);
    InsertBeAfterSplit(W);
  }

  const ExtensionWords: seq<string> := ["bear", "be", "bell"]

  /**
   "bell" matches all of "be"; its rest "ll" shares nothing with "ar" nor with
   the empty label, and is appended after both.
   */
  lemma InsertBellBesideEmpty()
    ensures AddWordToTrie(BeOverArEmpty, "bell", 0, 3, 2, ExtensionWords)
         == Node(Some(Indexes(0, 0, 1)), Leaf(0, 2, 3, Leaf(1, 2, 1, Leaf(2, 2, 3, Nil))), Nil)
  {
    var W := ExtensionWords;
    assert NodeText(BeOverArEmpty, W) == "be";
    CommonPrefixLengthUnique("bell", "be", 2);
    AddWordFullMatch(BeOverArEmpty, "bell", 0, 3, 2, W);
    assert "bell"[2..] == "ll";
    var ar := Leaf(0, 2, 3, Leaf(1, 2, 1, Nil));
    assert NodeText(ar, W) == "ar";
    CommonPrefixLengthUnique("ll", "ar", 0);
    AddWordAlongSiblings(ar, "ll", 2, 3, 2, W);
    assert NodeText(Leaf(1, 2, 1, Nil), W) == "";
    CommonPrefixLengthUnique("ll", "", 0);
    AddWordAppend(Leaf(1, 2, 1, Nil), "ll", 2, 3, 2, W);
  }

  /**
   Building from "bear", "be", "bell" keeps all three words, although "bell"
   extends the earlier "be": the leaf (2, 2, 3) stands for "bell".
   */
  lemma BuildKeepsExtensionOfPrefix()
    ensures BuildTrie(ExtensionWords)
         == Node(None, Node(Some(Indexes(0, 0, 1)), Leaf(0, 2, 3, Leaf(1, 2, 1, Leaf(2, 2, 3, Nil))), Nil), Nil)
  {
    var W := ExtensionWords;
    assert Node(Some(FirstLabel(W)), Nil, Nil) == BearFirst;
    InsertBe(W);
    InsertBellBesideEmpty();
    assert InsertWords(BeOverArEmpty, W, 2) == InsertWords(BearFirst, W, 1);
  }

  const DuplicateWords: seq<string> := ["bear", "be", "be"]

  /**
   The second "be" matches all of "be"; its empty rest shares nothing with "ar"
   nor with the empty label, and is appended after both.
   */
  lemma InsertBeAgain()
    ensures AddWordToTrie(BeOverArEmpty, "be", 0, 1, 2, DuplicateWords)
         == Node(Some(Indexes(0, 0, 1)), Leaf(0, 2, 3, Leaf(1, 2, 1, Leaf(2, 2, 1, Nil))), Nil)
  {
    var W := DuplicateWords;
    assert NodeText(BeOverArEmpty, W) == "be";
    CommonPrefixLengthUnique("be", "be", 2);
    AddWordFullMatch(BeOverArEmpty, "be", 0, 1, 2, W);
    assert "be"[2..] == "";
    var ar := Leaf(0, 2, 3, Leaf(1, 2, 1, Nil));
    assert NodeText(ar, W) == "ar";
    CommonPrefixLengthUnique("", "ar", 0);
    AddWordAlongSiblings(ar, "", 2, 1, 2, W);
    assert NodeText(Leaf(1, 2, 1, Nil), W) == "";
    CommonPrefixLengthUnique("", "", 0);
    AddWordAppend(Leaf(1, 2, 1, Nil), "", 2, 1, 2, W);
  }

  /** Building from "bear", "be", "be" inserts the duplicate "be" a second time. */
  lemma BuildKeepsDuplicateOfPrefix()
    ensures BuildTrie(DuplicateWords)
         == Node(None, Node(Some(Indexes(0, 0, 1)), Leaf(0, 2, 3, Leaf(1, 2, 1, Leaf(2, 2, 1, Nil))), Nil), Nil)
  {
    var W := DuplicateWords;
    assert Node(Some(FirstLabel(W)), Nil, Nil) == BearFirst;
    InsertBe(W);
    InsertBeAgain();
    assert InsertWords(BeOverArEmpty, W, 2) == InsertWords(BearFirst, W, 1);
  }

  const LatePrefixWords: seq<string> := ["bear", "bell", "be"]

  /** "be" over the leaves "ar" and "ll": the trie of "bear" and "bell". */
  const BeOverArLl: TrieNode := Node(Some(Indexes(0, 0, 1)), Leaf(0, 2, 3, Leaf(1, 2, 3, Nil)), Nil)

  /** "bell" parts ways with "bear" after "be", and "ll" is appended beside "ar". */
  lemma InsertBellIntoBear()
    ensures AddWordToTrie(BearFirst, "bell", 0, 3, 1, LatePrefixWords) == BeOverArLl
  {
    var W := LatePrefixWords;
    assert NodeText(BearFirst, W) == "bear";
    CommonPrefixLengthUnique("bell", "bear", 2);
    AddWordSplit(BearFirst, "bell", 0, 3, 1, W);
    assert NodeText(BeOverAr, W) == "be";
    CommonPrefixLengthUnique("bell", "be", 2);
    AddWordFullMatch(BeOverAr, "bell", 0, 3, 1, W);
    assert "bell"[2..] == "ll";
    assert NodeText(Leaf(0, 2, 3, Nil), W) == "ar";
    CommonPrefixLengthUnique("ll", "ar", 0);
    AddWordAppend(Leaf(0, 2, 3, Nil), "ll", 2, 3, 1, W);
  }

  /**
   "be" ends exactly at the node "be": nothing is split, and the empty rest is
   appended after "ar" and "ll" as the label (2, 2, 1).
   */
  lemma InsertBeAtNode()
    ensures AddWordToTrie(BeOverArLl, "be", 0, 1, 2, LatePrefixWords)
         == Node(Some(Indexes(0, 0, 1)), Leaf(0, 2, 3, Leaf(1, 2, 3, Leaf(2, 2, 1, Nil))), Nil)
  {
    var W := LatePrefixWords;
    assert NodeText(BeOverArLl, W) == "be";
    CommonPrefixLengthUnique("be", "be", 2);
    AddWordFullMatch(BeOverArLl, "be", 0, 1, 2, W);
    assert "be"[2..] == "";
    var ar := Leaf(0, 2, 3, Leaf(1, 2, 3, Nil));
    assert NodeText(ar, W) == "ar";
    CommonPrefixLengthUnique("", "ar", 0);
    AddWordAlongSiblings(ar, "", 2, 1, 2, W);
    assert NodeText(Leaf(1, 2, 3, Nil), W) == "ll";
    CommonPrefixLengthUnique("", "ll", 0);
    AddWordAppend(Leaf(1, 2, 3, Nil), "", 2, 1, 2, W);
  }

  /** Building from "bear", "bell", "be" appends the empty label (2, 2, 1) without a split. */
  lemma BuildAppendsPrefixAtNode()
    ensures BuildTrie(LatePrefixWords)
         == Node(None, Node(Some(Indexes(0, 0, 1)), Leaf(0, 2, 3, Leaf(1, 2, 3, Leaf(2, 2, 1, Nil))), Nil), Nil)
  {
    var W := LatePrefixWords;
    assert Node(Some(FirstLabel(W)), Nil, Nil) == BearFirst;
    InsertBellIntoBear();
    InsertBeAtNode();
    assert InsertWords(BeOverArLl, W, 2) == InsertWords(BearFirst, W, 1);
  }
}
