/** merge_sort_list_str: a merge sort whose merge step reverses the right half and then
    takes from both ends of one window. */
module MergeSort {
  import opened Sequences
  import opened CStrings

  /** `x` may stand before `y` in the requested direction. */
  predicate Ordered(ascending: bool, x: Str, y: Str) {
    if ascending then LexLeq(x, y) else LexLeq(y, x)
  }

  ghost predicate Sorted(ascending: bool, s: seq<Str>) {
    forall i, j | 0 <= i < j < |s| :: Ordered(ascending, s[i], s[j])
  }

  lemma OrderedTotal(ascending: bool, x: Str, y: Str)
    ensures Ordered(ascending, x, y) || Ordered(ascending, y, x)
  {
    LexTotal(x, y);
  }

  lemma OrderedTransitive(ascending: bool, x: Str, y: Str, z: Str)
    requires Ordered(ascending, x, y) && Ordered(ascending, y, z)
    ensures Ordered(ascending, x, z)
  {
    if ascending { LexTransitive(x, y, z); } else { LexTransitive(z, y, x); }
  }

  /** The test of the merge loop: take from the back of the window rather than the front. */
  predicate TakeBack(ascending: bool, front: Str, back: Str) {
    if ascending then After(front, back) else After(back, front)
  }

  lemma TakeBackOrder(ascending: bool, front: Str, back: Str)
    ensures TakeBack(ascending, front, back) <==> !Ordered(ascending, front, back)
    ensures TakeBack(ascending, front, back) ==> Ordered(ascending, back, front)
  {
    AfterIsNotLexLeq(front, back);
    AfterIsNotLexLeq(back, front);
    LexTotal(front, back);
  }

  /** The window rises up to position `m` and falls from there on; either part may be empty. */
  ghost predicate Bitonic(ascending: bool, w: seq<Str>, m: nat) {
    m <= |w| && Sorted(ascending, w[..m]) && Sorted(!ascending, w[m..])
  }

  /** Both ends of a bitonic window bound everything in it from below. */
  lemma BitonicEnds(ascending: bool, w: seq<Str>, m: nat, k: nat)
    requires Bitonic(ascending, w, m) && k < |w|
    ensures Ordered(ascending, w[0], w[k]) || Ordered(ascending, w[|w| - 1], w[k])
  {
    OrderedTotal(ascending, w[k], w[k]);
    if k < m {
      assert w[..m][0] == w[0] && w[..m][k] == w[k];
    } else {
      assert w[m..][k - m] == w[k] && w[m..][|w| - 1 - m] == w[|w| - 1];
    }
  }

  /** The smaller end is a least element of the window. */
  lemma SmallerEnd(ascending: bool, w: seq<Str>, m: nat)
    requires Bitonic(ascending, w, m) && w != []
    ensures var back := TakeBack(ascending, w[0], w[|w| - 1]);
            forall k | 0 <= k < |w| :: Ordered(ascending, if back then w[|w| - 1] else w[0], w[k])
  {
    TakeBackOrder(ascending, w[0], w[|w| - 1]);
    var back := TakeBack(ascending, w[0], w[|w| - 1]);
    forall k | 0 <= k < |w| ensures Ordered(ascending, if back then w[|w| - 1] else w[0], w[k]) {
      BitonicEnds(ascending, w, m, k);
      if Ordered(ascending, w[0], w[k]) && back {
        OrderedTransitive(ascending, w[|w| - 1], w[0], w[k]);
      } else if Ordered(ascending, w[|w| - 1], w[k]) && !back {
        OrderedTransitive(ascending, w[0], w[|w| - 1], w[k]);
      }
    }
  }

  /** A window stays bitonic when it loses an end. */
  lemma BitonicShrinks(ascending: bool, w: seq<Str>, m: nat)
    requires Bitonic(ascending, w, m) && w != []
    ensures Bitonic(ascending, w[1..], if m == 0 then 0 else m - 1)
    ensures Bitonic(ascending, w[..|w| - 1], if m == |w| then m - 1 else m)
  {
    if m == 0 { assert w[1..][0..] == w[0..][1..]; } else {
      assert w[1..][..m - 1] == w[..m][1..];
      assert w[1..][m - 1..] == w[m..];
    }
    var v := w[..|w| - 1];
    if m == |w| { assert v[..m - 1] == w[..m][..m - 1]; } else {
      assert v[..m] == w[..m];
      assert v[m..] == w[m..][..|w| - 1 - m];
    }
  }

  function Reversed(s: seq<Str>): (r: seq<Str>)
    ensures |r| == |s| && forall i | 0 <= i < |s| :: r[i] == s[|s| - 1 - i]
    ensures multiset(r) == multiset(s)
  {
    if s == [] then [] else
      assert s == [s[0]] + s[1..];
      Reversed(s[1..]) + [s[0]]
  }

  /** The merge: the smaller end of the window goes out until nothing is left. */
  ghost function Merge(ascending: bool, w: seq<Str>): (out: seq<Str>)
    ensures |out| == |w|
  {
    if w == [] then []
    else if TakeBack(ascending, w[0], w[|w| - 1]) then [w[|w| - 1]] + Merge(ascending, w[..|w| - 1])
    else [w[0]] + Merge(ascending, w[1..])
  }

  lemma MergeBack(ascending: bool, done: seq<Str>, w: seq<Str>)
    requires w != [] && TakeBack(ascending, w[0], w[|w| - 1])
    ensures done + Merge(ascending, w) == done + [w[|w| - 1]] + Merge(ascending, w[..|w| - 1])
  {
  }

  lemma SliceShrinks(s: seq<Str>, i: nat, j: nat)
    requires i < j <= |s|
    ensures s[i..j][0] == s[i] && s[i..j][|s[i..j]| - 1] == s[j - 1]
    ensures s[i..j][..|s[i..j]| - 1] == s[i..j - 1] && s[i..j][1..] == s[i + 1..j]
  {
  }

  lemma BackTaken(ascending: bool, aux: seq<Str>, i: nat, j: nat, done: seq<Str>)
    requires i <= j < |aux| && TakeBack(ascending, aux[i], aux[j])
    ensures done + Merge(ascending, aux[i..j + 1]) == done + [aux[j]] + Merge(ascending, aux[i..j])
  {
    SliceShrinks(aux, i, j + 1);
    MergeBack(ascending, done, aux[i..j + 1]);
  }

  lemma FrontTaken(ascending: bool, aux: seq<Str>, i: nat, j: nat, done: seq<Str>)
    requires i <= j < |aux| && !TakeBack(ascending, aux[i], aux[j])
    ensures done + Merge(ascending, aux[i..j + 1]) == done + [aux[i]] + Merge(ascending, aux[i + 1..j + 1])
  {
  }

  lemma Cons(x: Str, s: seq<Str>)
    ensures multiset([x] + s) == multiset{x} + multiset(s)
    ensures multiset(s + [x]) == multiset{x} + multiset(s)
  {
  }

  lemma {:induction false} MergePermutes(ascending: bool, w: seq<Str>)
    ensures multiset(Merge(ascending, w)) == multiset(w)
    decreases |w|
  {
    if w == [] {
    } else if TakeBack(ascending, w[0], w[|w| - 1]) {
      var x, v := w[|w| - 1], w[..|w| - 1];
      MergePermutes(ascending, v);
      assert w == v + [x];
      Cons(x, v);
      Cons(x, Merge(ascending, v));
    } else {
      var x, v := w[0], w[1..];
      MergePermutes(ascending, v);
      assert w == [x] + v;
      Cons(x, v);
      Cons(x, Merge(ascending, v));
    }
  }

  lemma SortedCons(ascending: bool, x: Str, s: seq<Str>)
    requires Sorted(ascending, s) && forall y | y in multiset(s) :: Ordered(ascending, x, y)
    ensures Sorted(ascending, [x] + s)
  {
  }

  /** Merging a bitonic window sorts it, also once one of the halves is used up. */
  lemma {:induction false} MergeSorts(ascending: bool, w: seq<Str>, m: nat)
    requires Bitonic(ascending, w, m)
    ensures Sorted(ascending, Merge(ascending, w))
    decreases |w|
  {
    if w != [] {
      SmallerEnd(ascending, w, m);
      BitonicShrinks(ascending, w, m);
      var back := TakeBack(ascending, w[0], w[|w| - 1]);
      var v := if back then w[..|w| - 1] else w[1..];
      var x := if back then w[|w| - 1] else w[0];
      MergeSorts(ascending, v, if back then (if m == |w| then m - 1 else m) else if m == 0 then 0 else m - 1);
      MergePermutes(ascending, v);
      forall y | y in multiset(Merge(ascending, v)) ensures Ordered(ascending, x, y) {
        assert y in v && y in w;
      }
      SortedCons(ascending, x, Merge(ascending, v));
    }
  }

  /** The window at the start: a rising half and a reversed, so falling, half. */
  lemma WindowBitonic(ascending: bool, left: seq<Str>, right: seq<Str>)
    requires Sorted(ascending, left) && Sorted(ascending, right)
    ensures Bitonic(ascending, left + Reversed(right), |left|)
  {
  }

  /** How many of `n` strings go to the left half. */
  function LeftHalf(n: nat): (m: nat)
    requires n > 0
    ensures 0 < m <= n && (n > 1 ==> m < n)
  {
    (n - 1) / 2 + 1
  }

  /** The stretch of the array that begins at `at` holds `s`. */
  ghost predicate Holds(list: array<Str>, at: nat, s: seq<Str>)
    reads list
  {
    at + |s| <= list.Length && forall x | at <= x < at + |s| :: list[x] == s[x - at]
  }

  /** The left half. */
  method CopyLeft(list: array<Str>, lower: nat, middle: int, ghost l: seq<Str>) returns (aux: seq<Str>)
    requires Holds(list, lower, l) && middle == lower + |l| - 1
    ensures aux == l
  {
    aux := [];
    var i := lower;
    while i <= middle
      invariant lower <= i <= middle + 1 && aux == l[..i - lower]
    {
      aux := aux + [list[i]];
      i := i + 1;
    }
  }

  /** After `left` the right half, from its end. */
  method CopyRight(list: array<Str>, middle: int, upper: nat, left: seq<Str>, ghost r: seq<Str>) returns (aux: seq<Str>)
    requires middle >= -1 && Holds(list, middle + 1, r) && upper == middle + |r|
    ensures aux == left + Reversed(r)
  {
    aux := left;
    var j := middle + 1;
    while j <= upper
      invariant middle + 1 <= j <= upper + 1 && aux == left + Reversed(r)[..j - middle - 1]
    {
      NextPrefix(Reversed(r), j - middle - 1);
      aux := aux + [list[upper - j + middle + 1]];
      j := j + 1;
    }
  }

  /** The first half of private_fusion: the left half and the reversed right half side by side. */
  method Window(list: array<Str>, lower: nat, upper: nat, ghost l: seq<Str>, ghost r: seq<Str>) returns (aux: seq<Str>)
    requires lower <= upper < list.Length && |l| + |r| == upper + 1 - lower && |l| == LeftHalf(upper + 1 - lower)
    requires Holds(list, lower, l) && Holds(list, lower + |l|, r)
    ensures aux == l + Reversed(r)
  {
    var middle := lower + (upper - lower) / 2;
    assert middle == lower + |l| - 1;
    aux := CopyLeft(list, lower, middle, l);
    aux := CopyRight(list, middle, upper, aux, r);
  }

  /** One comparison of private_fusion: takes a string from one end of the window `aux[i..j + 1]`. */
  method TakeOne(ascending: bool, aux: seq<Str>, i: nat, j: int, ghost done: seq<Str>)
    returns (str: Str, i': nat, j': int)
    requires i <= j < |aux|
    requires Merge(ascending, aux) == done + Merge(ascending, aux[i..j + 1])
    ensures i <= i' <= j' + 1 <= |aux| && j' - i' == j - i - 1
    ensures Merge(ascending, aux) == done + [str] + Merge(ascending, aux[i'..j' + 1])
  {
    if TakeBack(ascending, aux[i], aux[j]) {
      BackTaken(ascending, aux, i, j, done);
      str, i', j' := aux[j], i, j - 1;
    } else {
      FrontTaken(ascending, aux, i, j, done);
      str, i', j' := aux[i], i + 1, j;
    }
  }

  /** The second half of private_fusion. */
  method MergeInto(list: array<Str>, lower: nat, upper: nat, ascending: bool, aux: seq<Str>)
    requires lower <= upper < list.Length && |aux| == upper + 1 - lower
    modifies list
    ensures Holds(list, lower, Merge(ascending, aux))
    ensures forall x | 0 <= x < list.Length && !(lower <= x <= upper) :: list[x] == old(list[x])
  {
    ghost var done: seq<Str> := [];
    var i, j := 0, upper - lower;
    var k := lower;
    assert aux[0..|aux|] == aux;
    while k <= upper
      invariant lower <= k <= upper + 1 && 0 <= i <= j + 1 <= |aux| && j + 1 - i == upper + 1 - k && |done| == k - lower
      invariant Merge(ascending, aux) == done + Merge(ascending, aux[i..j + 1])
      invariant forall x | lower <= x < k :: list[x] == done[x - lower]
      invariant forall x | 0 <= x < list.Length && !(lower <= x < k) :: list[x] == old(list[x])
    {
      var str;
      str, i, j := TakeOne(ascending, aux, i, j, done);
      done := done + [str];
      list[k] := str;
      k := k + 1;
    }
  }

  /** What private_fusion makes of two halves. */
  ghost function Fused(ascending: bool, l: seq<Str>, r: seq<Str>): (out: seq<Str>)
    ensures |out| == |l| + |r|
  {
    Merge(ascending, l + Reversed(r))
  }

  lemma FusedSorts(ascending: bool, l: seq<Str>, r: seq<Str>)
    requires Sorted(ascending, l) && Sorted(ascending, r)
    ensures Sorted(ascending, Fused(ascending, l, r))
  {
    WindowBitonic(ascending, l, r);
    MergeSorts(ascending, l + Reversed(r), |l|);
  }

  /** private_fusion of the halves `l` and `r`. */
  method Fusion(list: array<Str>, lower: nat, upper: nat, ascending: bool, ghost l: seq<Str>, ghost r: seq<Str>)
    requires lower <= upper < list.Length && |l| + |r| == upper + 1 - lower && |l| == LeftHalf(upper + 1 - lower)
    requires Holds(list, lower, l) && Holds(list, lower + |l|, r)
    modifies list
    ensures Holds(list, lower, Fused(ascending, l, r))
    ensures forall x | 0 <= x < list.Length && !(lower <= x <= upper) :: list[x] == old(list[x])
  {
    var aux := Window(list, lower, upper, l, r);
    MergeInto(list, lower, upper, ascending, aux);
  }

  /** The list that private_merge_sort_str makes of a stretch. */
  ghost function MergeSorted(ascending: bool, s: seq<Str>): (out: seq<Str>)
    ensures |out| == |s|
    decreases |s|
  {
    if |s| <= 1 then s
    else
      var m := LeftHalf(|s|);
      Fused(ascending, MergeSorted(ascending, s[..m]), MergeSorted(ascending, s[m..]))
  }

  lemma FusedPermutes(ascending: bool, l: seq<Str>, r: seq<Str>)
    ensures multiset(Fused(ascending, l, r)) == multiset(l) + multiset(r)
  {
    MergePermutes(ascending, l + Reversed(r));
  }

  lemma SplitMultiset(s: seq<Str>, m: nat)
    requires m <= |s|
    ensures multiset(s) == multiset(s[..m]) + multiset(s[m..])
  {
    assert s == s[..m] + s[m..];
  }

  lemma {:induction false} MergeSortedPermutes(ascending: bool, s: seq<Str>)
    ensures multiset(MergeSorted(ascending, s)) == multiset(s)
    decreases |s|
  {
    if |s| > 1 {
      var l, r := s[..LeftHalf(|s|)], s[LeftHalf(|s|)..];
      SplitMultiset(s, LeftHalf(|s|));
      MergeSortedPermutes(ascending, l);
      MergeSortedPermutes(ascending, r);
      FusedPermutes(ascending, MergeSorted(ascending, l), MergeSorted(ascending, r));
    }
  }

  /** The sort puts the strings in the requested order. */
  lemma {:induction false} MergeSortedSorts(ascending: bool, s: seq<Str>)
    ensures Sorted(ascending, MergeSorted(ascending, s))
    decreases |s|
  {
    if |s| > 1 {
      var m := LeftHalf(|s|);
      MergeSortedSorts(ascending, s[..m]);
      MergeSortedSorts(ascending, s[m..]);
      FusedSorts(ascending, MergeSorted(ascending, s[..m]), MergeSorted(ascending, s[m..]));
    }
  }

  lemma HoldsHalves(list: array<Str>, at: nat, s: seq<Str>, m: nat)
    requires Holds(list, at, s) && m <= |s|
    ensures Holds(list, at, s[..m]) && Holds(list, at + m, s[m..])
  {
  }

  /** private_merge_sort_str; an empty stretch has upper = lower - 1. */
  method PrivateMergeSort(list: array<Str>, lower: nat, upper: int, ascending: bool, ghost s: seq<Str>)
    requires lower <= upper + 1 <= list.Length && |s| == upper + 1 - lower && Holds(list, lower, s)
    modifies list
    ensures Holds(list, lower, MergeSorted(ascending, s))
    ensures forall x | 0 <= x < list.Length && !(lower <= x <= upper) :: list[x] == old(list[x])
    decreases upper - lower
  {
    if upper - lower > 0 {
      ghost var m := LeftHalf(|s|);
      assert m == (upper - lower) / 2 + 1;
      HoldsHalves(list, lower, s, m);
      ghost var l, r := s[..m], s[m..];
      PrivateMergeSort(list, lower, lower + (upper - lower) / 2, ascending, l);
      PrivateMergeSort(list, (lower + (upper - lower) / 2) + 1, upper, ascending, r);
      Fusion(list, lower, upper, ascending, MergeSorted(ascending, l), MergeSorted(ascending, r));
    }
  }

  lemma SortedPermutation(ascending: bool, s: seq<Str>, out: seq<Str>)
    requires out == MergeSorted(ascending, s)
    ensures Sorted(ascending, out) && multiset(out) == multiset(s)
  {
    MergeSortedSorts(ascending, s);
    MergeSortedPermutes(ascending, s);
  }

  /** Ascending or descending by the bytes of the texts. */
  ghost predicate InTextOrder(ascending: bool, s: seq<Str>) {
    forall i, j | 0 <= i < j < |s| :: if ascending then LexBefore(s[i], s[j]) else LexBefore(s[j], s[i])
  }

  lemma SortedIsBefore(ascending: bool, s: seq<Str>)
    requires Sorted(ascending, s)
    ensures InTextOrder(ascending, s)
  {
    forall i, j | 0 <= i < j < |s| ensures if ascending then LexBefore(s[i], s[j]) else LexBefore(s[j], s[i]) {
      assert Ordered(ascending, s[i], s[j]);
      LexLeqIsBefore(s[i], s[j]);
      LexLeqIsBefore(s[j], s[i]);
    }
  }

  /** merge_sort_list_str. */
  method MergeSortList(list: array<Str>, size: nat, ascending: bool)
    requires size <= list.Length
    modifies list
    ensures Sorted(ascending, list[..size]) && multiset(list[..size]) == multiset(old(list[..size]))
    ensures InTextOrder(ascending, list[..size])
    ensures forall x | size <= x < list.Length :: list[x] == old(list[x])
  {
    ghost var s := list[..size];
    PrivateMergeSort(list, 0, size - 1, ascending, s);
    SortedPermutation(ascending, s, list[..size]);
    SortedIsBefore(ascending, list[..size]);
  }
}
