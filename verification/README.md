# Compressed trie of word completions

A Dafny model of `Trie` from the LikaiLee/Trie repository: a compressed
(PATRICIA-style) trie over an array of lower-case words, kept as a
left-child/right-sibling tree. No label is ever copied: every node's label is an
index triple `(wordIndex, startIndex, endIndex)` into the caller's `allWords`
array (end inclusive). The model covers the three parts of the class:

- the longest-common-prefix primitive `getCommonPrefixLength`;
- insertion, `buildTrie` and `addWordToTrie`. A word is appended as a new last
  sibling, or it splits a node in place, or it descends into the first child;
- prefix completion, `completionList` and `searchByPrefix`.

Java mutates nodes in place. Here `TrieNode` is an immutable datatype with
`Nil` for `null`, and each mutating call returns the node that sits in the
mutated node's place afterwards. The files:

- `trie_nodes.dfy` (`TrieNodes`): the `Indexes` and `TrieNode` datatypes. It
  also defines label text, leaves, and how a leaf resolves to its word.
- `common_prefix.dfy` (`CommonPrefix`): the common-prefix length, as a
  function and as the Java loop.
- `trie_paths.dfy` (`TriePaths`): the strings a chain stores (`Paths`) and the
  well-formedness invariant. Labels are non-empty. Sibling labels start with
  distinct characters. Each label's `startIndex` is the length of the path
  above it, and its word begins with that path.
- `trie_insert.dfy` (`TrieInsert`): `SplitNode`, `AddWordToTrie`, `BuildTrie`.
- `insert_correctness.dfy` (`InsertCorrectness`): what insertion and building
  preserve and store.
- `trie_search.dfy` (`TrieSearch`): the search as written, plus a corrected
  variant (see Findings).
- `search_correctness.dfy` (`SearchCorrectness`): completeness and exactness of
  the search.
- `build_search.dfy` (`BuildAndSearch`): the same results stated for a trie
  built from a word array.
- `trie_examples.dfy` (`TrieExamples`): the documented bear/bull/stock/bell
  example and two counterexamples for the search, one with characters outside
  the Basic Multilingual Plane.
- `prefix_examples.dfy` (`PrefixExamples`): arrays in which a word is a proper
  prefix of another, which leave a leaf with an empty label.

The insertion results assume a prefix-free array: every word is non-empty, and
no word is a prefix of, or equal to, another. This is the model's own
assumption. The Javadoc of `buildTrie` (src/Trie.java:19-25) asks only for
lower-case words and promises a trie with all words inserted. For other input
the code does not always keep every word. Inserted into a well-formed trie,
whose labels are all non-empty, a duplicate or an extension of a stored word
is dropped (`AddWordCoveredIsNoOp`): building from "bear" then "bears" stores
"bear" alone (`BuildDropsExtension`). A word that is a proper prefix of
a stored word is kept, as a leaf with an empty label. After that, a later
duplicate or extension can be kept as well: building from "bear", "be",
"bell" keeps all three words (`BuildKeepsExtensionOfPrefix`), and building
from "bear", "be", "be" inserts "be" twice (`BuildKeepsDuplicateOfPrefix`).

Two behaviours of the code matter for reading the results. The model follows
the code in both:

- In a trie whose labels are all non-empty, a duplicate word, or an extension
  of a stored word, is not inserted. When a word matches a whole label,
  insertion recurses into the node's first child (src/Trie.java:101). If that
  child is null, the recursive call returns at once (src/Trie.java:60-62), so
  the word is dropped (`AddWordCoveredIsNoOp`).
- The Javadoc of `completionList` (src/Trie.java:143-145) promises only leaves
  whose words start with the prefix. The walk can also return leaves whose
  words do not (see Findings).

## Model

| member | source | states |
|---|---|---|
| CommonPrefix.CommonPrefixLength | src/Trie.java:112-127 | the result k is at most the length of either string; the first k characters agree; when both strings go on past k, their k-th characters differ |
| CommonPrefix.GetCommonPrefixLength | src/Trie.java:112-127 | the comparison loop returns that same length, with the same three properties |
| CommonPrefix.CommonPrefixLengthUnique | src/Trie.java:112-127 | the three properties determine the length: any k that has them is the result |
| CommonPrefix.CommonPrefixLengthSymmetric | src/Trie.java:112-127 | the result does not depend on the order of the two strings |
| CommonPrefix.PrefixIffFullCommonPrefix | src/Trie.java:112-127 | p is a prefix of s exactly when the common prefix length of p and s is the length of p |
| CommonPrefix.CommonPrefixPositiveIffSameHead | src/Trie.java:67-70 | the length is positive exactly when both strings are non-empty and start with the same character, so a zero result means no shared first character |
| TrieInsert.SplitNode | src/Trie.java:85-93 | the shortened label is the first prefixLen characters; it followed by the new child's label spells the old label; both keep the old wordIndex; the new child ends where the old label ended, takes over the old children and has no sibling; the sibling of the split node is untouched |
| TrieInsert.AddWordToTrie | src/Trie.java:59-103 | insertion into a missing chain yields a missing chain and into a present one a present one; all labels stay within their words; the node in the current position keeps its wordIndex and startIndex and its label never grows |
| TrieInsert.InsertWords | src/Trie.java:40-45 | inserting words i to n-1 in order keeps every label within its word, keeps a present chain present, and keeps the first node's wordIndex and startIndex |
| TrieInsert.BuildTrie | src/Trie.java:27-46 | an empty array gives no trie; otherwise a label-less root with no sibling whose first child's label starts at offset 0 of word 0 |
| InsertCorrectness.SplitPreservesTrie | src/Trie.java:85-93 | splitting a node of a well-formed chain keeps it well-formed and keeps the set of strings it stores |
| InsertCorrectness.NewLeafStoresWord | src/Trie.java:73-75 | a new sibling labelled (wordIdx, wordStart, wordEnd) is a well-formed leaf that spells exactly the unmatched rest of the word |
| InsertCorrectness.AdvanceSlice | src/Trie.java:98-101 | trimming a matched label of length p off the word and advancing wordStart by p keeps the word equal to its slice of allWords[wordIdx], and extends the path by the label |
| InsertCorrectness.AddWordPreservesTrie | src/Trie.java:59-103 | inserting a non-empty word that is not a prefix of, an extension of or a duplicate of any stored string keeps the chain well-formed, and the stored strings become the old ones plus exactly that word |
| InsertCorrectness.FullMatchDescends | src/Trie.java:96-101 | when a label is a prefix of a word that is prefix-free with the stored strings, the node has children, the word is longer than the label, and what is left of the word is prefix-free with the strings below the node |
| InsertCorrectness.AddBelowPreservesTrie | src/Trie.java:96-101 | after a full label match, inserting the rest of the word into the children keeps the chain well-formed and adds exactly the whole word to what it stores |
| InsertCorrectness.AddWordCoveredIsNoOp | src/Trie.java:96-101 | inserting a word that a stored string is a prefix of (a duplicate, or an extension of a stored word) leaves the chain exactly as it was |
| InsertCorrectness.InsertNextWord | src/Trie.java:40-45 | inserting word k into a chain that stores words 0 to k-1 makes it store words 0 to k, still well-formed |
| InsertCorrectness.InsertWordsStoresAll | src/Trie.java:40-45 | a well-formed chain that stores exactly words 0 to i-1 of a prefix-free array stores exactly all the words once the loop has inserted words i to n-1, and stays well-formed |
| InsertCorrectness.BuildTrieStoresWords | src/Trie.java:27-46 | for a non-empty prefix-free array, the built trie is well-formed and its root-to-leaf strings are exactly the words of the array |
| SearchCorrectness.ResolveLeaf | src/Trie.java:205-207 | a leaf of a well-formed chain resolves (word up to its endIndex) to the path above it followed by its label |
| TrieSearch.SearchByPrefix | src/Trie.java:158-190 | every node collected is a leaf with an in-range label, and nothing is collected from a missing chain |
| TrieSearch.CompletionList | src/Trie.java:147-156 | a missing root gives no list; a list that is present is non-empty and holds only leaves |
| SearchCorrectness.SearchAllLeaves | src/Trie.java:162-171 | with an empty prefix the walk resolves to every string stored below the chain, with the path in front |
| SearchCorrectness.SearchMissesUnknownHead | src/Trie.java:174-178 | a non-empty prefix whose first character starts no sibling label collects nothing |
| SearchCorrectness.DivergingLabelDoesNotMatch | src/Trie.java:182-188 | when the prefix and a label part ways inside the label, no string below that node starts with the prefix |
| SearchCorrectness.SearchExactWhenMatched | src/Trie.java:158-190 | when some stored string starts with the prefix, the walk resolves to exactly the stored strings that do |
| SearchCorrectness.SearchComplete | src/Trie.java:158-190 | every stored string that starts with the prefix is among the resolved results, for every prefix |
| SearchCorrectness.SearchStoredIsOneLeaf | src/Trie.java:158-190 | the walk for a whole stored string collects exactly one leaf |
| SearchCorrectness.CompletionListExactWhenMatched | src/Trie.java:129-156 | in a well-formed trie where some stored word starts with the prefix, the completion list is present and resolves to exactly those words |
| SearchCorrectness.CompletionListComplete | src/Trie.java:143-156 | a stored word that starts with the prefix makes the list present and is among its resolved words |
| SearchCorrectness.CompletionListAbsentForUnknownHead | src/Trie.java:145-155 | a non-empty prefix whose first character starts no stored word gives no list, not an empty one |
| TrieSearch.SearchByPrefixChecked | src/Trie.java:158-190 | the corrected walk: every node it collects is a leaf with an in-range label, and nothing is collected from a missing chain |
| TrieSearch.CompletionListChecked | src/Trie.java:147-156 | the completion list over the corrected walk: a missing root gives no list; a present list is never empty and holds only labelled leaves with in-range labels |
| SearchCorrectness.SearchCheckedExact | src/Trie.java:158-190 | the corrected walk resolves to exactly the stored strings that start with the prefix, for every prefix |
| SearchCorrectness.CompletionListCheckedExact | src/Trie.java:143-156 | the corrected list is absent exactly when no stored word starts with the prefix, and otherwise resolves to exactly those words |
| BuildAndSearch.BuiltCompletionExactWhenMatched | src/Trie.java:129-156 | for a trie built from a prefix-free array, when some array word starts with the prefix, the list resolves to exactly the array words that do |
| BuildAndSearch.CompletionRoundTrip | src/Trie.java:129-156 | in a trie built from a prefix-free array, the completion list of an inserted word is exactly one leaf, and it resolves to that word |
| BuildAndSearch.BuiltCompletionCheckedExact | src/Trie.java:143-156 | for a built trie, the corrected list is absent exactly when no array word starts with the prefix, and otherwise resolves to exactly those words |
| TrieExamples.BuildBearTrie | src/Trie.java:27-46 | building from bear, bull, stock, bell gives "b" over "e" (over "ar" and "ll") and "ull", with "stock" beside "b" |
| PrefixExamples.BuildKeepsExtensionOfPrefix | src/Trie.java:67-101 | building from bear, be, bell splits "bear" after "be", appends the empty label of "be" beside "ar", and then appends "ll" beside both, so the extension "bell" of "be" is kept |
| PrefixExamples.BuildKeepsDuplicateOfPrefix | src/Trie.java:67-101 | building from bear, be, be appends a second empty leaf for the duplicate "be" |
| PrefixExamples.BuildAppendsPrefixAtNode | src/Trie.java:67-101 | building from bear, bell, be appends the empty label of "be" after "ar" and "ll" without splitting any label |
| TrieExamples.BuildDropsExtension | src/Trie.java:60-62 | building from bear then bears gives the one leaf "bear": the extension is dropped |
| TrieExamples.BellListIsOneLeaf | src/Trie.java:135-136 | the completion list of "bell" in the bear trie is the single leaf "ll" below "e" |
| TrieExamples.CompletionsOfB | src/Trie.java:132-133 | the prefix "b" completes to bear, bull and bell |
| TrieExamples.CompletionsOfBe | src/Trie.java:134 | the prefix "be" completes to bear and bell |
| TrieExamples.CompletionsOfBell | src/Trie.java:135-136 | the prefix "bell", a whole word, completes to bell alone, through exactly one leaf |
| TrieExamples.CompletionsOfEmpty | src/Trie.java:162-170 | the empty prefix completes to all four words |
| TrieExamples.BearNoCompletion | src/Trie.java:145 | the prefix "bz" has no completion list |
| TrieExamples.BuildAbTrie | src/Trie.java:85-95 | building from abcd and abce splits "abcd" into "abc" over "d", then appends "e" beside "d" |
| TrieExamples.SearchByPrefixOvermatches | src/Trie.java:182-188 | in the trie of abcd and abce, the list for "ad" is present and resolves to abcd, which does not start with "ad"; the corrected list is absent |
| TrieExamples.WideCompletionOvermatches | src/Trie.java:173-188 | for the words ab U+10428 c and ab U+10429 d, counting characters, the trie is "ab" over the two rests and the list for "a" U+10428 "c" is present and holds the leaf of the first word, which does not start with that prefix |

## Left out

- `print` (src/Trie.java:192-228) is left out. It only writes to the console.
- The `short` casts on offsets and lengths (src/Trie.java:36, 42, 85, 100, 116) are left out. Offsets are unbounded `nat`/`int`, so words longer than 32767 characters, where the casts would wrap, are not modelled.
- Java object identity, aliasing and in-place mutation are left out. Insertion is a pure function that returns the node occupying the mutated position. The loop in `buildTrie` always passes the same first-child object; this is modelled by threading the returned first child (`InsertWords`).
- The order of the collected `ArrayList` is not stated, because the order is documented as irrelevant (src/Trie.java:137-138). Results are compared as sets of resolved words (`Resolved`), which drops multiplicity. The number of leaves is stated only for a whole stored string (`SearchStoredIsOneLeaf`, `CompletionRoundTrip`) and for the "bell" example, not for other prefixes.
- Insertion of a word that is a proper prefix of a stored word has no general contract. The code appends the empty range `(wordIdx, k, k-1)` as a leaf. When the word ends inside a label, the label is split first (`BuildKeepsExtensionOfPrefix`); when it ends exactly at a node, nothing is split (`BuildAppendsPrefixAtNode`). The resulting trie has an empty label, so it is not well-formed in the model's sense, and the insertion and search theorems do not cover it. `AddWordPreservesTrie` excludes such a word by its prefix-freeness precondition. `AddWordToTrie` itself accepts it and keeps its labels in range.
- Java strings are sequences of UTF-16 code units, and `length()`, `substring` and `toCharArray` (src/Trie.java:36, 65, 98, 113-114, 173, 182) count code units. The model's strings are sequences of Unicode scalar values. For words with characters outside the Basic Multilingual Plane, the offsets in `Indexes` and the places where labels are split differ from Java's. For example, the one-character words U+10428 and U+10429 share the first half of their surrogate pairs: Java splits the first label between the two halves, at `(0, 0, 0)`, while the model shares no prefix and appends the second word as the sibling `(1, 0, 0)`. For a prefix-free array the sets of completed words agree for the corrected walk (`CompletionListChecked`), and for the walk as written whenever some stored word starts with the prefix. Where the walk as written overmatches, they can differ. Take the words "ab" U+10428 "c" and "ab" U+10429 "d" and the prefix "a" U+10428 "c". Java splits the first label after the first half of the surrogate pair, descends with the prefix's surrogate pair, finds no child that starts with its first half and returns no list. The model splits after "ab", fully matches the leaf U+10428 "c" and returns the first word (`WideCompletionOvermatches`).
- InsertCorrectness.AddWordPreservesTrie: requires the new word to be prefix-free with the stored strings. A duplicate or an extension of a stored word is covered separately, as a no-op, by `AddWordCoveredIsNoOp`.
- TrieSearch.SearchByPrefix: requires every label of the searched tree to be in range, not only the labels the walk visits. Java fails only when it reaches a bad label.
- SearchCorrectness.SearchExactWhenMatched: exactness of the search as written is proved only when some stored string matches the prefix. It is false in general (see Findings). Completeness (`SearchComplete`) holds for every prefix.

## Findings

| source | as written | input that shows it | evidently intended | confidence | as-written member | corrected member |
|---|---|---|---|---|---|---|
| src/Trie.java:180-188 | when the prefix and a node's label share 0 < cp characters but part ways inside the label, the walk still trims cp characters and goes on below the node | words ["abcd", "abce"], prefix "ad": the walk trims "a", matches "d" against the child "d" and returns the leaf of "abcd" | the completion list holds only leaves whose words start with the prefix, so here there is no list | high; not executed | TrieExamples.SearchByPrefixOvermatches | SearchCorrectness.SearchCheckedExact |
