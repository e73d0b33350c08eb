/**
 The longest-common-prefix primitive used by both insertion and search.
 */
module CommonPrefix {

  /** `p` is a prefix of `s` (equality included). */
  predicate IsPrefix(p: string, s: string)
  {
    |p| <= |s| && s[..|p|] == p
  }

  /**
   The length of the longest common prefix of `a` and `b`: the first `k`
   characters agree, and either one string is exhausted or the next ones differ.
   */
  function CommonPrefixLength(a: string, b: string): (k: nat)
    ensures k <= |a| && k <= |b|
    ensures a[..k] == b[..k]
    ensures k < |a| && k < |b| ==> a[k] != b[k]
    decreases |a|
  {
    if |a| == 0 || |b| == 0 || a[0] != b[0] then 0
    else
      var k := 1 + CommonPrefixLength(a[1..], b[1..]);
      assert a[..k] == [a[0]] + a[1..][..k - 1];
      assert b[..k] == [b[0]] + b[1..][..k - 1];
      k
  }

  /**
   The character-by-character loop of the source: it stops at the first
   mismatch or at the end of the shorter string, and returns what
   `CommonPrefixLength` characterises.
   */
  method GetCommonPrefixLength(str1: string, str2: string) returns (len: nat)
    ensures len <= |str1| && len <= |str2|
    ensures str1[..len] == str2[..len]
    ensures len < |str1| && len < |str2| ==> str1[len] != str2[len]
    ensures len == CommonPrefixLength(str1, str2)
  {
    var i := 0;
    len := 0;
    while i < |str1| && i < |str2|
      invariant len == i <= |str1| && i <= |str2|
      invariant str1[..i] == str2[..i]
    {
      if str1[i] != str2[i] {
        CommonPrefixLengthUnique(str1, str2, len);
        return;
      }
      assert str1[..i + 1] == str1[..i] + [str1[i]];
      assert str2[..i + 1] == str2[..i] + [str2[i]];
      len := len + 1;
      i := i + 1;
    }
    CommonPrefixLengthUnique(str1, str2, len);
  }

  /** The three characterising properties pin the common prefix length down. */
  lemma CommonPrefixLengthUnique(a: string, b: string, k: nat)
    requires k <= |a| && k <= |b|
    requires a[..k] == b[..k]
    requires k < |a| && k < |b| ==> a[k] != b[k]
    ensures CommonPrefixLength(a, b) == k
  {
  }

  /** The common prefix length does not depend on the order of its arguments. */
  lemma CommonPrefixLengthSymmetric(a: string, b: string)
    ensures CommonPrefixLength(a, b) == CommonPrefixLength(b, a)
  {
    CommonPrefixLengthUnique(b, a, CommonPrefixLength(a, b));
  }

  /** `p` is a prefix of `s` exactly when their common prefix is all of `p`. */
  lemma PrefixIffFullCommonPrefix(p: string, s: string)
    ensures IsPrefix(p, s) <==> CommonPrefixLength(p, s) == |p|
  {
    if IsPrefix(p, s) {
      CommonPrefixLengthUnique(p, s, |p|);
    }
  }

  /** Two non-empty strings share a common prefix exactly when their first characters agree. */
  lemma CommonPrefixPositiveIffSameHead(a: string, b: string)
    requires |a| > 0 && |b| > 0
    ensures CommonPrefixLength(a, b) > 0 <==> a[0] == b[0]
  {
  }

  /** A word that shares all of `t` starts with `t`, followed by the rest. */
  lemma FullCommonPrefixSplits(word: string, t: string)
    requires CommonPrefixLength(word, t) == |t|
    ensures word == t + word[|t|..]
  {
    assert word[..|t|] == t;
  }
}
