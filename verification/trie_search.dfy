/**
 Prefix completion: `SearchByPrefix` collects leaves along the path the
 prefix selects, and `CompletionList` turns an empty collection into
 absence. `SearchByPrefixChecked` is the same walk with a mid-label mismatch
 treated as "no completion".
 */
module TrieSearch {
  import opened TrieNodes
  import opened CommonPrefix

  /**
   The leaves below the chain `root` that the walk for `prefix` collects:
   with an empty prefix every leaf of the chain and of the subtrees below
   it; otherwise, at the first node whose label shares a prefix with
   `prefix`, the node itself when the prefix is used up there and it is a
   leaf, followed by the walk into its children with what is left of the
   prefix (never its later siblings).
   */
  function SearchByPrefix(prefix: string, root: TrieNode, allWords: seq<string>): (matches: seq<TrieNode>)
    requires Labeled(root, allWords)
    ensures forall i :: 0 <= i < |matches| ==> IsLabeledLeaf(matches[i], allWords)
    ensures root.Nil? ==> matches == []
    decreases root
  {
    if root.Nil? then []
    else if |prefix| == 0 then
      (if root.firstChild.Nil? then [root] else [])
      + SearchByPrefix(prefix, root.firstChild, allWords)
      + SearchByPrefix(prefix, root.sibling, allWords)
    else
      var nodePrefix := NodeText(root, allWords);
      var cpLen := CommonPrefixLength(prefix, nodePrefix);
      if cpLen == 0 then
        SearchByPrefix(prefix, root.sibling, allWords)
      else
        var newPrefix := prefix[cpLen..];
        (if |newPrefix| == 0 && root.firstChild.Nil? then [root] else [])
        + SearchByPrefix(newPrefix, root.firstChild, allWords)
  }

  /**
   The completion list of `prefix` in the trie below `root`: absent for a
   missing trie, and absent rather than empty when nothing was collected.
   */
  function CompletionList(root: TrieNode, allWords: seq<string>, prefix: string): (r: Option<seq<TrieNode>>)
    requires root.Node? ==> Labeled(root.firstChild, allWords)
    ensures root.Nil? ==> r.None?
    ensures r.Some? ==> |r.value| > 0
    ensures r.Some? ==> forall i :: 0 <= i < |r.value| ==> IsLabeledLeaf(r.value[i], allWords)
  {
    if root.Nil? then None
    else
      var matches := SearchByPrefix(prefix, root.firstChild, allWords);
      if |matches| == 0 then None else Some(matches)
  }

  /**
   The walk of `SearchByPrefix` with the evidently intended stop: when the
   prefix and a label part ways inside the label, no word below can start
   with the prefix, so nothing is collected there.
   */
  function SearchByPrefixChecked(prefix: string, root: TrieNode, allWords: seq<string>): (matches: seq<TrieNode>)
    requires Labeled(root, allWords)
    ensures forall i :: 0 <= i < |matches| ==> IsLabeledLeaf(matches[i], allWords)
    ensures root.Nil? ==> matches == []
    decreases root
  {
    if root.Nil? then []
    else if |prefix| == 0 then SearchByPrefix(prefix, root, allWords)
    else
      var nodePrefix := NodeText(root, allWords);
      var cpLen := CommonPrefixLength(prefix, nodePrefix);
      if cpLen == 0 then
        SearchByPrefixChecked(prefix, root.sibling, allWords)
      else
        var newPrefix := prefix[cpLen..];
        if |newPrefix| > 0 && cpLen < |nodePrefix| then []
        else
          (if |newPrefix| == 0 && root.firstChild.Nil? then [root] else [])
          + SearchByPrefixChecked(newPrefix, root.firstChild, allWords)
  }

  /** `CompletionList` over the corrected walk. */
  function CompletionListChecked(root: TrieNode, allWords: seq<string>, prefix: string): (r: Option<seq<TrieNode>>)
    requires root.Node? ==> Labeled(root.firstChild, allWords)
    ensures root.Nil? ==> r.None?
    ensures r.Some? ==> |r.value| > 0
    ensures r.Some? ==> forall i :: 0 <= i < |r.value| ==> IsLabeledLeaf(r.value[i], allWords)
  {
    if root.Nil? then None
    else
      var matches := SearchByPrefixChecked(prefix, root.firstChild, allWords);
      if |matches| == 0 then None else Some(matches)
  }
}
