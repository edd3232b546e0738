/** Order-preserving selection: `t` is obtained from `s` by deleting
    elements. Stated from the back, the way the solver builds schedules. */
module Subsequences {

  predicate IsSubsequence<T(==)>(t: seq<T>, s: seq<T>)
    decreases |s|
  {
    t == [] ||
    (s != [] &&
     ((t[|t| - 1] == s[|s| - 1] && IsSubsequence(t[..|t| - 1], s[..|s| - 1])) ||
      IsSubsequence(t, s[..|s| - 1])))
  }

  /** Every element of a subsequence is an element of the sequence. */
  lemma {:induction false} SubsequenceMembers<T>(t: seq<T>, s: seq<T>)
    requires IsSubsequence(t, s)
    ensures multiset(t) <= multiset(s)
    decreases |s|
  {
    if t == [] {
    } else if t[|t| - 1] == s[|s| - 1] && IsSubsequence(t[..|t| - 1], s[..|s| - 1]) {
      SubsequenceMembers(t[..|t| - 1], s[..|s| - 1]);
      assert t == t[..|t| - 1] + [t[|t| - 1]];
      assert s == s[..|s| - 1] + [s[|s| - 1]];
    } else {
      SubsequenceMembers(t, s[..|s| - 1]);
      assert s == s[..|s| - 1] + [s[|s| - 1]];
    }
  }

  lemma SubsequenceElement<T>(t: seq<T>, s: seq<T>, i: int)
    requires IsSubsequence(t, s) && 0 <= i < |t|
    ensures t[i] in s
  {
    SubsequenceMembers(t, s);
    assert t[i] in multiset(t);
  }

  lemma {:induction false} SubsequenceReflexive<T>(s: seq<T>)
    ensures IsSubsequence(s, s)
    decreases |s|
  {
    if s != [] {
      SubsequenceReflexive(s[..|s| - 1]);
    }
  }

  /** A subsequence of a prefix is a subsequence of the whole. */
  lemma {:induction false} SubsequenceOfPrefix<T>(t: seq<T>, s: seq<T>, k: nat)
    requires k <= |s| && IsSubsequence(t, s[..k])
    ensures IsSubsequence(t, s)
    decreases |s| - k
  {
    if k < |s| {
      assert s[..k + 1][..k] == s[..k];
      assert IsSubsequence(t, s[..k + 1]);
      SubsequenceOfPrefix(t, s, k + 1);
    } else {
      assert s[..k] == s;
    }
  }

  /** A subsequence that avoids the tail `s[k..]` lies inside `s[..k]`. */
  lemma {:induction false} SubsequenceAvoidingTail<T>(t: seq<T>, s: seq<T>, k: nat)
    requires k <= |s| && IsSubsequence(t, s)
    requires forall i, j :: 0 <= i < |t| && k <= j < |s| ==> t[i] != s[j]
    ensures IsSubsequence(t, s[..k])
    decreases |s|
  {
    if k == |s| {
      assert s[..k] == s;
    } else if t == [] {
    } else {
      var s' := s[..|s| - 1];
      assert t[|t| - 1] != s[|s| - 1];
      assert forall j :: k <= j < |s'| ==> s'[j] == s[j];
      SubsequenceAvoidingTail(t, s', k);
      assert s'[..k] == s[..k];
    }
  }
}
