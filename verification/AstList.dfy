/** Lists in the tree: a list node has the node before it as its child 0, so that the first
    element is the deepest one, and iteration climbs the parent links. */
module AstList {
  import opened AstNode

  /** Node `k` of a list whose nodes are `ns`, the one of the first element first. */
  ghost predicate ListAt(ns: seq<Ast>, k: nat)
    requires k < |ns|
    reads ns[k]
  {
    && ns[k].Packed() && ns[k].nodeType == AST_NODE_LIST
    && ns[k].sons[0] == (if k == 0 then null else ns[k - 1])
    && (k + 1 < |ns| ==> ns[k].parent == ns[k + 1])
  }

  ghost predicate IsList(list: Ast, ns: seq<Ast>)
    reads ns
  {
    && ns != [] && list == ns[|ns| - 1]
    && forall k {:trigger ListAt(ns, k)} | 0 <= k < |ns| :: ListAt(ns, k)
  }

  lemma {:induction false} NodesDiffer(list: Ast, ns: seq<Ast>, i: nat, j: nat)
    requires IsList(list, ns) && i < j < |ns|
    ensures ns[i] != ns[j]
  {
    assert ListAt(ns, i) && ListAt(ns, j);
    if i > 0 && ns[i] == ns[j] {
      NodesDiffer(list, ns, i - 1, j - 1);
    }
  }

  /** The first loop of for_each_element. */
  method FirstNode(list: Ast, ghost ns: seq<Ast>) returns (iter: Ast)
    requires IsList(list, ns)
    ensures iter == ns[0] && IsList(list, ns)
  {
    iter := list;
    ghost var k := |ns| - 1;
    assert ListAt(ns, k);
    var son0 := iter.GetChild(0);
    while son0 != null
      invariant 0 <= k < |ns| && iter == ns[k]
      invariant iter.Packed() && son0 == iter.sons[0]
      invariant ListAt(ns, k) && (son0 == null <==> k == 0)
      decreases k
    {
      iter, k := son0, k - 1;
      assert ListAt(ns, k);
      son0 := iter.GetChild(0);
    }
  }

  /** for_each_element visits the nodes of the list in order, each once. */
  method ForEachElement(list: Ast, ghost ns: seq<Ast>) returns (visited: seq<Ast>)
    requires IsList(list, ns)
    ensures visited == ns && IsList(list, ns)
  {
    visited := [];
    var iter: Ast? := FirstNode(list, ns);
    while iter != null
      invariant |visited| <= |ns| && visited == ns[..|visited|]
      invariant iter == if |visited| < |ns| then ns[|visited|] else null
      decreases |ns| - |visited|
    {
      ghost var k := |visited|;
      assert ListAt(ns, k);
      if k < |ns| - 1 { NodesDiffer(list, ns, k, |ns| - 1); }
      visited := visited + [iter];
      iter := if iter != list then iter.parent else null;
    }
  }

  /** Null, or the root of a list whose nodes are `ns`, or a node of another kind. */
  ghost predicate MaybeList(a: Ast?, ns: seq<Ast>)
    reads a, ns
  {
    a != null && a.nodeType == AST_NODE_LIST ==> IsList(a, ns)
  }

  /** ast_list_head: null for null and for nodes of another kind. */
  method ListHead(list: Ast?, ghost ns: seq<Ast>) returns (head: Ast?)
    requires MaybeList(list, ns)
    ensures head == if list != null && list.nodeType == AST_NODE_LIST then ns[0] else null
    ensures MaybeList(list, ns)
  {
    if list == null { return null; }
    if list.nodeType != AST_NODE_LIST { return null; }
    head := FirstNode(list, ns);
  }

  lemma AllDiffer(list: Ast, ns: seq<Ast>)
    requires IsList(list, ns)
    ensures forall k | 0 < k < |ns| :: ns[k] != ns[0]
    ensures forall k | 0 <= k < |ns| - 1 :: ns[k] != list
  {
    forall k | 0 < k < |ns| ensures ns[k] != ns[0] { NodesDiffer(list, ns, 0, k); }
    forall k | 0 <= k < |ns| - 1 ensures ns[k] != list { NodesDiffer(list, ns, k, |ns| - 1); }
  }

  /** The links at the seam make one list of two. */
  lemma Seam(before: Ast, after: Ast, bs: seq<Ast>, cs: seq<Ast>)
    requires IsList(before, bs) && cs != [] && after == cs[|cs| - 1] && before.parent == cs[0]
    requires cs[0].Packed() && cs[0].nodeType == AST_NODE_LIST && cs[0].sons[0] == before
    requires |cs| > 1 ==> cs[0].parent == cs[1]
    requires forall k {:trigger ListAt(cs, k)} | 0 < k < |cs| :: ListAt(cs, k)
    ensures IsList(after, bs + cs)
  {
    var ns := bs + cs;
    forall k | 0 <= k < |ns| ensures ListAt(ns, k) {
      if k < |bs| { assert ListAt(bs, k); } else if k > |bs| { assert ListAt(cs, k - |bs|); }
    }
  }

  /** ast_list_concat of two lists: the nodes of `before`, then those of `after`. */
  method ConcatLists(before: Ast, after: Ast, ghost bs: seq<Ast>, ghost cs: seq<Ast>, ghost first: Ast)
    requires IsList(before, bs) && IsList(after, cs) && (forall n | n in bs :: n !in cs) && first == cs[0]
    modifies first`bitmapSons, first`children, first`sons, before`parent
    ensures IsList(after, bs + cs) && before.parent == first && first.sons == old(first.sons)[0 := before]
  {
    assert before in bs && first in cs;
    AllDiffer(before, bs);
    AllDiffer(after, cs);
    assert allocated(bs) && allocated(cs);
    assert ListAt(cs, |cs| - 1);
    var headAfter := ListHead(after, cs);
    assert ListAt(cs, 0);
    label Found:
    headAfter.SetChild(0, before);
    forall k | 0 <= k < |bs| ensures ListAt(bs, k) {
      assert old@Found(ListAt(bs, k)) && bs[k] in bs;
    }
    forall k | 0 < k < |cs| ensures ListAt(cs, k) {
      assert old@Found(ListAt(cs, k)) && cs[k] in cs;
    }
    Seam(before, after, bs, cs);
  }

  /** ast_list_concat. */
  method ListConcat(before: Ast?, after: Ast?, ghost bs: seq<Ast>, ghost cs: seq<Ast>) returns (r: Ast?)
    requires MaybeList(before, bs) && MaybeList(after, cs) && forall n | n in bs :: n !in cs
    modifies cs`bitmapSons, cs`children, cs`sons, (if before == null then {} else {before})`parent
    ensures before == null ==> r == after && forall n | n in cs :: unchanged(n)
    ensures before != null && after == null ==> r == before && unchanged(before) && forall n | n in cs :: unchanged(n)
    ensures (before != null && after != null
             && old(before.nodeType == AST_NODE_LIST && after.nodeType == AST_NODE_LIST)) ==>
              r == after && IsList(after, bs + cs) && before.parent == cs[0]
              && cs[0].sons == old(cs[0].sons)[0 := before]
              && (forall n | n in bs + cs && n != cs[0] :: n.sons == old(n.sons))
              && (forall n | n in bs + cs && n != before :: n.parent == old(n.parent))
    ensures (before != null && after != null
             && old(before.nodeType != AST_NODE_LIST || after.nodeType != AST_NODE_LIST)) ==>
              r == null && unchanged(before) && forall n | n in cs :: unchanged(n)
  {
    if before == null { return after; }
    if after == null { return before; }
    if before.nodeType != AST_NODE_LIST || after.nodeType != AST_NODE_LIST { return null; }
    assert cs[0] in cs;
    ConcatLists(before, after, bs, cs, cs[0]);
    return after;
  }

  /** The links of a list of two or more without its first node. */
  lemma Tail(list: Ast, ns: seq<Ast>)
    requires |ns| > 1 && list == ns[|ns| - 1]
    requires ns[1].Packed() && ns[1].nodeType == AST_NODE_LIST && ns[1].sons[0] == null
    requires |ns| > 2 ==> ns[1].parent == ns[2]
    requires forall k {:trigger ListAt(ns, k)} | 1 < k < |ns| :: ListAt(ns, k)
    ensures IsList(list, ns[1..])
  {
    forall k | 0 <= k < |ns| - 1 ensures ListAt(ns[1..], k) {
      if k > 0 { assert ListAt(ns, k + 1); }
    }
  }

  /** ast_list_split_head_tail: the first node by itself, and the rest, or null. */
  method SplitHeadTail(list: Ast?, ghost ns: seq<Ast>) returns (head: Ast?, tail: Ast?)
    requires list != null ==> IsList(list, ns)
    modifies (if list == null then [] else ns)`bitmapSons, (if list == null then [] else ns)`children
    modifies (if list == null then [] else ns)`sons, (if list == null then [] else ns)`parent
    ensures list == null ==> head == null && tail == null
    ensures list != null ==> head == ns[0] && IsList(head, [head]) && tail == (if |ns| == 1 then null else list)
    ensures list != null && |ns| == 1 ==> unchanged(list)
    ensures list != null && |ns| > 1 ==>
              IsList(list, ns[1..]) && head.parent == null && ns[1].sons == old(ns[1].sons)[0 := null]
    ensures list != null ==> forall k | 0 <= k < |ns| && k != 1 :: ns[k].sons == old(ns[k].sons)
    ensures list != null ==> forall k | 0 < k < |ns| :: ns[k].parent == old(ns[k].parent)
  {
    if list == null { return null, null; }
    assert allocated(ns);
    assert ListAt(ns, |ns| - 1);
    var first := ListHead(list, ns);
    assert ListAt(ns, 0);
    if first == list {
      tail := null;
    } else {
      AllDiffer(list, ns);
      forall k | 1 < k < |ns| ensures ns[k] != ns[1] { NodesDiffer(list, ns, 1, k); }
      Unlink(first, list, ns);
      tail := list;
    }
    head := first;
    assert ListAt([head], 0);
  }

  method Unlink(first: Ast, list: Ast, ghost ns: seq<Ast>)
    requires IsList(list, ns) && |ns| > 1 && first == ns[0]
    requires forall k | 0 < k < |ns| :: ns[k] != ns[0]
    requires forall k | 1 < k < |ns| :: ns[k] != ns[1]
    modifies ns`bitmapSons, ns`children, ns`sons, ns`parent
    ensures IsList(list, ns[1..]) && ns[1].sons == old(ns[1].sons)[0 := null] && first.parent == null
    ensures forall k | 0 <= k < |ns| && k != 1 :: ns[k].sons == old(ns[k].sons)
    ensures forall k | 0 < k < |ns| :: ns[k].parent == old(ns[k].parent)
    ensures first.Packed() && first.nodeType == AST_NODE_LIST
  {
    assert ListAt(ns, 0) && ListAt(ns, 1);
    var p := first.parent;
    assert p in ns && first in ns && p == ns[1];
    p.SetChild(0, null);
    first.parent := null;
    forall k | 1 < k < |ns| ensures ListAt(ns, k) {
      assert old(ListAt(ns, k));
    }
    Tail(list, ns);
  }

  /** Splitting a list and concatenating the parts gives the same list: the same nodes in the same
      order, with the same links. */
  method SplitThenConcat(list: Ast, ghost ns: seq<Ast>) returns (r: Ast?)
    requires IsList(list, ns)
    modifies ns`bitmapSons, ns`children, ns`sons, ns`parent
    ensures r == list && IsList(list, ns)
    ensures forall k | 0 <= k < |ns| :: ns[k].sons == old(ns[k].sons) && ns[k].parent == old(ns[k].parent)
  {
    assert ListAt(ns, 0);
    AllDiffer(list, ns);
    assert allocated(ns);
    ghost var bs, cs := [ns[0]], ns[1..];
    if |ns| > 1 { assert ListAt(ns, 1); }
    var head, tail := SplitHeadTail(list, ns);
    label Split:
    assert ListAt(bs, 0);
    if tail != null {
      assert ListAt(cs, |cs| - 1) && bs + cs == ns && cs[0] == ns[1] && list == cs[|cs| - 1];
      forall k | 0 <= k < |ns| && k != 1 ensures ns[k] != ns[1] {
        assert k > 1 ==> ListAt(cs, k - 1);
        if k > 1 { NodesDiffer(list, cs, 0, k - 1); }
      }
      r := ListConcat(head, tail, bs, cs);
      forall k | 0 <= k < |ns| ensures ns[k].sons == old(ns[k].sons) && ns[k].parent == old(ns[k].parent) {
        assert ns[k] in bs + cs;
      }
    } else {
      r := ListConcat(head, tail, bs, cs);
      assert ns == bs && ListAt(ns, 0);
    }
  }

  /** The null locus: that of a list is computed from its elements. */
  const NO_LOCUS := 0

  /** ast_list: one more element at the end, in a node with two children. */
  method AppendToList(list: Ast?, lastElem: Ast, ghost ns: seq<Ast>) returns (a: Ast)
    requires list != null ==> IsList(list, ns)
    requires list == null ==> ns == []
    modifies (set c: Ast | c in [list, lastElem])`parent
    requires lastElem !in ns
    ensures fresh(a) && IsList(a, ns + [a]) && lastElem.parent == a && a.parent == null && a.ambig == []
    ensures a.sons == [list, lastElem, null, null] && a.text == lastElem.text && a.locus == NO_LOCUS
    ensures forall k | 0 <= k < |ns| :: ns[k].sons == old(ns[k].sons)
  {
    assert allocated(ns);
    if list != null { AllDiffer(list, ns); }
    a := new Ast(AST_NODE_LIST, list, lastElem, null, null, NO_LOCUS, lastElem.text);
    forall k | 0 <= k < |ns| ensures ListAt(ns + [a], k) {
      assert old(ListAt(ns, k));
    }
    assert ListAt(ns + [a], |ns|);
  }
}
