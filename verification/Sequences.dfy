/** Sequences in which every element comes once. */
module Sequences {
  ghost predicate Fresh<T>(x: T, s: seq<T>) {
    x !in s
  }

  /** Each element comes once. */
  ghost predicate NoDup<T>(s: seq<T>) {
    s == [] || (Fresh(s[|s| - 1], s[..|s| - 1]) && NoDup(s[..|s| - 1]))
  }

  lemma {:induction false} NotBefore<T>(s: seq<T>, i: nat, j: nat)
    requires NoDup(s) && i < j < |s|
    ensures s[i] != s[j]
    decreases |s|
  {
    if j == |s| - 1 {
      assert s[..j][i] == s[i];
      assert Fresh(s[j], s[..j]);
    } else {
      NotBefore(s[..|s| - 1], i, j);
    }
  }

  /** A permutation has the same length and the same elements. */
  lemma SameMembers<T>(s: seq<T>, t: seq<T>)
    requires multiset(s) == multiset(t)
    ensures |s| == |t| && forall x :: x in s <==> x in t
  {
    assert |multiset(s)| == |s| && |multiset(t)| == |t|;
    assert forall x :: x in s <==> x in multiset(s);
    assert forall x :: x in t <==> x in multiset(t);
  }

  lemma NextPrefix<T>(s: seq<T>, n: nat)
    requires n < |s|
    ensures s[..n + 1] == s[..n] + [s[n]] && s[..n + 1][..n] == s[..n]
  {
  }
}
