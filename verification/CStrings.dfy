/** C strings: byte sequences without the terminating zero, compared as strncmp does. */
module CStrings {
  newtype Byte = x: int | 1 <= x < 256 witness 1

  type Str = seq<Byte>

  function Min(a: nat, b: nat): nat { if a < b then a else b }

  /** strncmp over the first `n` bytes, `n` not beyond either end. */
  function StrNCmp(a: Str, b: Str, n: nat): int
    requires n <= |a| && n <= |b|
  {
    if n == 0 then 0
    else if a[0] != b[0] then a[0] as int - b[0] as int
    else StrNCmp(a[1..], b[1..], n - 1)
  }

  /** The comparison that the merge makes in ascending order: `a` is after `b` when its
      common prefix is greater, or equal and `b` is the shorter string. */
  predicate After(a: Str, b: Str) {
    var res := StrNCmp(a, b, Min(|a|, |b|));
    res > 0 || (res == 0 && |b| < |a|)
  }

  /** Lexicographic byte order, a prefix before its extensions. */
  predicate LexLeq(a: Str, b: Str) {
    a == [] || (b != [] && (a[0] < b[0] || (a[0] == b[0] && LexLeq(a[1..], b[1..]))))
  }

  /** The same order without recursion: a prefix, or a smaller byte at the first difference. */
  ghost predicate LexBefore(a: Str, b: Str) {
    a <= b || exists k :: 0 <= k < |a| && k < |b| && a[..k] == b[..k] && a[k] < b[k]
  }

  lemma BeforeOfTails(a: Str, b: Str)
    requires a != [] && b != [] && a[0] == b[0] && LexBefore(a[1..], b[1..])
    ensures LexBefore(a, b)
  {
    var s, t := a[1..], b[1..];
    assert a == [a[0]] + s && b == [b[0]] + t;
    if !(s <= t) {
      var k :| 0 <= k < |s| && k < |t| && s[..k] == t[..k] && s[k] < t[k];
      assert a[..k + 1] == [a[0]] + s[..k] && b[..k + 1] == [b[0]] + t[..k];
      assert a[k + 1] < b[k + 1];
    }
  }

  lemma TailsBefore(a: Str, b: Str)
    requires a != [] && b != [] && LexBefore(a, b)
    ensures a[0] < b[0] || (a[0] == b[0] && LexBefore(a[1..], b[1..]))
  {
    if !(a <= b) {
      var k :| 0 <= k < |a| && k < |b| && a[..k] == b[..k] && a[k] < b[k];
      if k > 0 {
        assert a[0] == a[..k][0] == b[..k][0] == b[0];
        assert a[1..][..k - 1] == a[..k][1..] && b[1..][..k - 1] == b[..k][1..];
        assert a[1..][k - 1] < b[1..][k - 1];
      }
    }
  }

  lemma {:induction false} LexLeqIsBefore(a: Str, b: Str)
    ensures LexLeq(a, b) <==> LexBefore(a, b)
    decreases |a|
  {
    if a != [] && b != [] {
      LexLeqIsBefore(a[1..], b[1..]);
      if a[0] < b[0] {
        assert a[..0] == b[..0];
      } else if a[0] == b[0] && LexBefore(a[1..], b[1..]) {
        BeforeOfTails(a, b);
      }
      if LexBefore(a, b) { TailsBefore(a, b); }
    }
  }

  /** The comparison made by the code decides the lexicographic order. */
  lemma {:induction false} AfterIsNotLexLeq(a: Str, b: Str)
    ensures After(a, b) <==> !LexLeq(a, b)
    decreases |a|
  {
    if a != [] && b != [] && a[0] == b[0] {
      AfterIsNotLexLeq(a[1..], b[1..]);
      assert Min(|a|, |b|) == Min(|a[1..]|, |b[1..]|) + 1;
    }
  }

  lemma {:induction false} LexTotal(a: Str, b: Str)
    ensures LexLeq(a, b) || LexLeq(b, a)
    ensures LexLeq(a, b) && LexLeq(b, a) ==> a == b
    decreases |a|
  {
    if a != [] && b != [] && a[0] == b[0] {
      LexTotal(a[1..], b[1..]);
      assert a == [a[0]] + a[1..] && b == [b[0]] + b[1..];
    }
  }

  lemma {:induction false} LexTransitive(a: Str, b: Str, c: Str)
    requires LexLeq(a, b) && LexLeq(b, c)
    ensures LexLeq(a, c)
    decreases |a|
  {
    if a != [] && a[0] == b[0] && b[0] == c[0] {
      LexTransitive(a[1..], b[1..], c[1..]);
    }
  }
}
