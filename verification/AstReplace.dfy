/** Replacing an ambiguity by one of its interpretations. */
module AstReplace {
  import opened AstBitmap
  import opened AstNode
  import opened AstTree

  /** The nodes of a tree down to its ambiguities, which are not entered: their interpretations
      may share nodes. */
  ghost function Reached(t: Tree): (r: set<Ast>)
    reads Nodes(t)`nodeType
    ensures r <= Nodes(t)
    decreases t, 1
  {
    if t.Nil? then {} else {t.ast} + ReachedBelow(t)
  }

  ghost function ReachedBelow(t: Tree): (r: set<Ast>)
    reads Nodes(t)`nodeType
    ensures r <= Below(t) <= Nodes(t)
    decreases t, 0
  {
    if t.Nil? || t.ast.nodeType == AST_AMBIGUITY then {}
    else set k, n | 0 <= k < |t.kids| && n in Reached(t.kids[k]) :: n
  }

  lemma KidReached(t: Tree, k: nat)
    requires t.Node? && t.ast.nodeType != AST_AMBIGUITY && k < |t.kids|
    ensures Nodes(t.kids[k]) <= Nodes(t) && Reached(t.kids[k]) <= ReachedBelow(t)
    ensures ReachedBelow(t.kids[k]) <= Reached(t.kids[k])
    ensures t.kids[k].Node? ==> t.kids[k].ast in Reached(t.kids[k])
  {
  }

  /** No node is met twice above the ambiguities. */
  ghost predicate Unshared(t: Tree)
    reads Nodes(t)`nodeType
    decreases t
  {
    t.Node? && t.ast.nodeType != AST_AMBIGUITY ==>
      && t.ast !in ReachedBelow(t)
      && (forall i, j | 0 <= i < j < |t.kids| :: Reached(t.kids[i]) !! Reached(t.kids[j]))
      && forall k {:trigger t.kids[k]} | 0 <= k < |t.kids| :: Unshared(t.kids[k])
  }

  /** Every node below the root points to its parent, except inside ambiguities. */
  ghost predicate Fixed(t: Tree)
    reads Nodes(t)`nodeType, ReachedBelow(t)`parent
    decreases t
  {
    t.Node? && t.ast.nodeType != AST_AMBIGUITY ==>
      forall k {:trigger t.kids[k]} | 0 <= k < |t.kids| ::
        KidReached(t, k);
        Fixed(t.kids[k]) && (t.kids[k].Node? ==> t.kids[k].ast.parent == t.ast)
  }

  ghost predicate KidFixed(t: Tree, k: nat)
    requires t.Node? && t.ast.nodeType != AST_AMBIGUITY && k < |t.kids|
    reads {t.ast}`nodeType, Nodes(t.kids[k])`nodeType, Reached(t.kids[k])`parent
  {
    Fixed(t.kids[k]) && (t.kids[k].Node? ==> t.kids[k].ast.parent == t.ast)
  }

  /** The first `n` kids are fixed. */
  ghost predicate FixedKids(t: Tree, n: nat)
    requires t.Node? && t.ast.nodeType != AST_AMBIGUITY
    reads {t.ast}`nodeType, Nodes(t)`nodeType, ReachedBelow(t)`parent
  {
    forall k {:trigger KidFixed(t, k)} | 0 <= k < n && k < |t.kids| :: KidReached(t, k); KidFixed(t, k)
  }

  lemma AllFixed(t: Tree)
    requires t.Node? && t.ast.nodeType != AST_AMBIGUITY && FixedKids(t, |t.kids|)
    ensures Fixed(t)
  {
    forall k | 0 <= k < |t.kids| ensures Fixed(t.kids[k]) && (t.kids[k].Node? ==> t.kids[k].ast.parent == t.ast) {
      assert KidFixed(t, k);
    }
  }

  lemma KidsApart(t: Tree, i: nat)
    requires t.Node? && t.ast.nodeType != AST_AMBIGUITY && Unshared(t) && i < |t.kids|
    ensures Unshared(t.kids[i]) && Reached(t.kids[i]) <= ReachedBelow(t)
    ensures forall k | 0 <= k < |t.kids| && k != i :: Reached(t.kids[k]) !! Reached(t.kids[i])
  {
  }

  /** A child gets its parent, and is fixed inside. */
  method FixKid(node: Ast, c: Ast, ghost kid: Tree)
    requires IsTree(c, kid) && Unshared(kid)
    modifies Reached(kid)`parent
    ensures Fixed(kid) && c.parent == node
    decreases kid, 2
  {
    assert allocated(Nodes(kid));
    c.parent := node;
    FixParents(c, kid);
  }

  /** One turn of the loop: child number `i` is fixed, and the ones before stay. */
  method FixSlot(node: Ast, i: Slot, ghost t: Tree)
    requires IsTree(node, t) && Unshared(t) && node.nodeType != AST_AMBIGUITY
    requires i < |t.kids| && FixedKids(t, i)
    modifies Reached(t.kids[i])`parent
    ensures IsTree(node, t) && Unshared(t) && FixedKids(t, i + 1)
    decreases t, 0
  {
    assert allocated(Nodes(t));
    SonInside(t, i);
    KidsApart(t, i);
    var c := node.GetChild(i);
    if c != null {
      FixKid(node, c, t.kids[i]);
    }
    assert KidFixed(t, i);
    forall k | 0 <= k < i ensures KidFixed(t, k) {
      assert old(allocated(Nodes(t.kids[k])) && allocated(Reached(t.kids[k])) && KidFixed(t, k));
      assert old(Reached(t.kids[k]) !! Reached(t.kids[i]));
    }
  }

  /** ast_fix_parents_inside_intepretation: it does not enter ambiguities. */
  method FixParents(node: Ast?, ghost t: Tree)
    requires IsTree(node, t) && Unshared(t)
    modifies ReachedBelow(t)`parent
    ensures IsTree(node, t) && Unshared(t) && Fixed(t)
    decreases t, 1
  {
    if node == null { return; }
    if node.nodeType == AST_AMBIGUITY { return; }
    assert allocated(Nodes(t));
    var i := 0;
    while i < MCXX_MAX_AST_CHILDREN
      invariant i <= MCXX_MAX_AST_CHILDREN && IsTree(node, t) && Unshared(t)
      invariant FixedKids(t, i)
    {
      KidReached(t, i);
      FixSlot(node, i, t);
      i := i + 1;
    }
    AllFixed(t);
  }

  /** ast_replace_with_ambiguity: the node keeps its identity and its parent, and gets the contents
      of interpretation `n`, whose tree is `t`; the links inside are right again. */
  method ReplaceWithAmbiguity(a: Ast, n: nat, ghost t: Tree)
    requires a.nodeType == AST_AMBIGUITY && n < |a.ambig|
    requires IsTree(a.ambig[n], t) && Unshared(t) && t.Node? && a !in Nodes(t)
    modifies a, ReachedBelow(t)`parent
    ensures a.parent == old(a.parent)
    ensures old(a.ambig[n]).nodeType == a.nodeType && old(a.ambig[n]).text == a.text && old(a.ambig[n]).locus == a.locus
    ensures IsTree(a, Node(a, t.kids)) && Fixed(Node(a, t.kids))
  {
    ghost var u := Node(a, t.kids);
    assert allocated(Nodes(t)) && t.ast in Nodes(t);
    ghost var below := ReachedBelow(t);
    TakeContents(a, n, t);
    SameKids(t, u);
    assert ReachedBelow(u) == below;
    FixParents(a, u);
  }

  /** ast_replace and the outer parent. */
  method TakeContents(a: Ast, n: nat, ghost t: Tree)
    requires a.nodeType == AST_AMBIGUITY && n < |a.ambig| && IsTree(a.ambig[n], t) && t.Node? && a !in Nodes(t)
    modifies a
    ensures a.parent == old(a.parent)
    ensures old(a.ambig[n]).nodeType == a.nodeType && old(a.ambig[n]).text == a.text && old(a.ambig[n]).locus == a.locus
    ensures IsTree(a, Node(a, t.kids))
  {
    assert allocated(Nodes(t)) && t.ast in Nodes(t);
    var parent, chosen := a.parent, a.ambig[n];
    a.Become(chosen);
    a.parent := parent;
    assert IsTree(t.ast, t);
    BecomesTree(a, t);
  }

  lemma SameKids(t: Tree, u: Tree)
    requires t.Node? && u.Node? && u.kids == t.kids && u.ast.nodeType == t.ast.nodeType
    requires Unshared(t) && u.ast !in Nodes(t)
    ensures Unshared(u) && ReachedBelow(u) == ReachedBelow(t)
  {
    forall k | 0 <= k < |t.kids| && t.ast.nodeType != AST_AMBIGUITY
      ensures Unshared(t.kids[k]) && u.kids[k] == t.kids[k] {
    }
  }

  /** A node with the contents of the root of a tree has the same trees below it. */
  lemma BecomesTree(a: Ast, t: Tree)
    requires t.Node? && IsTree(t.ast, t)
    requires a.nodeType == t.ast.nodeType && a.sons == t.ast.sons && a.ambig == t.ast.ambig
    requires a.bitmapSons == t.ast.bitmapSons && a.children == t.ast.children
    ensures IsTree(a, Node(a, t.kids))
  {
    assert forall j: Slot :: t.ast.SlotOk(j) ==> a.SlotOk(j);
    forall k | 0 <= k < |t.kids|
      ensures a.nodeType == AST_AMBIGUITY ==> t.kids[k].Node? && IsTree(a.ambig[k], t.kids[k])
      ensures a.nodeType != AST_AMBIGUITY && k < MCXX_MAX_AST_CHILDREN ==> IsTree(a.sons[k], t.kids[k]) {
      assert t.kids[k] == t.kids[k];
    }
  }
}
