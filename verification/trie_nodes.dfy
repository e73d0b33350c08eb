/**
 The data of the trie: substring references into the caller's word array
 (`Indexes`) and left-child/right-sibling nodes (`TrieNode`). A label never
 copies text; it is re-sliced from `allWords` whenever it is read.
 */
module TrieNodes {

  /** Absence of a value; stands for a Java `null` result or field. */
  datatype Option<+T> = None | Some(value: T)

  /** The label `allWords[wordIndex][startIndex..endIndex]`, end inclusive. */
  datatype Indexes = Indexes(wordIndex: nat, startIndex: nat, endIndex: int)

  /** `Nil` is the null reference. The root is the only node whose `substr` is `None`. */
  datatype TrieNode = Nil | Node(substr: Option<Indexes>, firstChild: TrieNode, sibling: TrieNode)

  /** The slice a label names exists: what `String.substring(startIndex, endIndex + 1)` demands. */
  predicate InRange(ix: Indexes, allWords: seq<string>)
  {
    ix.wordIndex < |allWords| && ix.startIndex <= ix.endIndex + 1 <= |allWords[ix.wordIndex]|
  }

  /** The text a label stands for. */
  function Text(ix: Indexes, allWords: seq<string>): string
    requires InRange(ix, allWords)
  {
    allWords[ix.wordIndex][ix.startIndex..ix.endIndex + 1]
  }

  /** Every node reachable through `firstChild` and `sibling` carries an in-range label. */
  predicate Labeled(t: TrieNode, allWords: seq<string>)
    decreases t
  {
    t.Nil? ||
    (&& t.substr.Some?
     && InRange(t.substr.value, allWords)
     && Labeled(t.firstChild, allWords)
     && Labeled(t.sibling, allWords))
  }

  /** The text of a (non-root) node's own label. */
  function NodeText(n: TrieNode, allWords: seq<string>): string
    requires n.Node? && n.substr.Some? && InRange(n.substr.value, allWords)
  {
    Text(n.substr.value, allWords)
  }

  /** A node that can be handed back as a completion: a labelled leaf. */
  predicate IsLabeledLeaf(n: TrieNode, allWords: seq<string>)
  {
    n.Node? && n.firstChild.Nil? && n.substr.Some? && InRange(n.substr.value, allWords)
  }

  /**
   The whole word a leaf stands for, read back from the word its label points
   into: `allWords[wordIndex][0..endIndex]`, the same reconstruction the
   trie printer uses.
   */
  function Resolve(leaf: TrieNode, allWords: seq<string>): string
    requires IsLabeledLeaf(leaf, allWords)
  {
    var ix := leaf.substr.value;
    allWords[ix.wordIndex][..ix.endIndex + 1]
  }

  /**
   The words the leaves of a completion list stand for. The two ensures only
   spell out membership in both directions, for use in proofs.
   */
  function Resolved(leaves: seq<TrieNode>, allWords: seq<string>): (ws: set<string>)
    requires forall i :: 0 <= i < |leaves| ==> IsLabeledLeaf(leaves[i], allWords)
    ensures forall i :: 0 <= i < |leaves| ==> Resolve(leaves[i], allWords) in ws
    ensures forall w :: w in ws ==> exists i :: 0 <= i < |leaves| && Resolve(leaves[i], allWords) == w
  {
    set i | 0 <= i < |leaves| :: Resolve(leaves[i], allWords)
  }

  /** Resolving a concatenation of completion lists unites their words. */
  lemma ResolvedAppend(a: seq<TrieNode>, b: seq<TrieNode>, allWords: seq<string>)
    requires forall i :: 0 <= i < |a| ==> IsLabeledLeaf(a[i], allWords)
    requires forall i :: 0 <= i < |b| ==> IsLabeledLeaf(b[i], allWords)
    ensures forall i :: 0 <= i < |a + b| ==> IsLabeledLeaf((a + b)[i], allWords)
    ensures Resolved(a + b, allWords) == Resolved(a, allWords) + Resolved(b, allWords)
  {
    var ab := a + b;
    assert forall i :: 0 <= i < |a| ==> ab[i] == a[i];
    assert forall i :: 0 <= i < |b| ==> ab[|a| + i] == b[i];
    forall w | w in Resolved(ab, allWords)
      ensures w in Resolved(a, allWords) + Resolved(b, allWords)
    {
      var i :| 0 <= i < |ab| && Resolve(ab[i], allWords) == w;
      if i >= |a| {
        assert ab[i] == b[i - |a|];
      }
    }
  }
}
