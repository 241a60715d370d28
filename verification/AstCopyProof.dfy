/** What a copy is worth: it compares equal to its source, and it passes ast_check exactly when the
    lists of the source are well built. */
module AstCopyProof {
  import opened AstBitmap
  import opened AstNode
  import opened AstTree
  import opened AstCopy

  /** ast_num_children. */
  function NumChildren(n: Ast): nat
    reads n`bitmapSons
  {
    Count(Bits(n.bitmapSons), MCXX_MAX_AST_CHILDREN)
  }

  /** ast_equal_node; texts are compared by their characters. */
  predicate EqualNode(a: Ast?, b: Ast?)
    reads a, b
  {
    a == b ||
    (a != null && b != null && a.nodeType == b.nodeType && NumChildren(a) == NumChildren(b) && a.text == b.text)
  }

  /** The tree of child `k`; an ambiguity has no children. */
  ghost function SonTree(t: Tree, k: Slot): Tree
    reads if t.Node? then {t.ast} else {}
  {
    if t.Nil? || t.ast.nodeType == AST_AMBIGUITY || |t.kids| != MCXX_MAX_AST_CHILDREN then Nil else t.kids[k]
  }

  lemma SonIsTree(a: Ast, t: Tree, k: Slot)
    requires IsTree(a, t)
    ensures IsTree(a.sons[k], SonTree(t, k)) && Nodes(SonTree(t, k)) <= Nodes(t)
  {
  }

  /** ast_equal. */
  ghost predicate AstEqual(a: Ast?, b: Ast?, t: Tree, u: Tree)
    requires IsTree(a, t) && IsTree(b, u)
    reads Nodes(t), Nodes(u)
    decreases t.Node?, t
  {
    EqualNode(a, b) &&
    (a != null ==>
       forall k: Slot ::
         SonIsTree(a, t, k);
         SonIsTree(b, u, k);
         AstEqual(a.sons[k], b.sons[k], SonTree(t, k), SonTree(u, k)))
  }

  lemma SameBits(a: Ast, b: Ast)
    requires a.Packed() && b.Packed() && forall k: Slot :: a.sons[k] == null <==> b.sons[k] == null
    ensures NumChildren(a) == NumChildren(b)
  {
    a.BitsSayWhich();
    b.BitsSayWhich();
    assert Bits(a.bitmapSons) == Bits(b.bitmapSons);
  }

  /** The node at the end of a path of child numbers, or null. */
  ghost function NodeAt(t: Tree, p: seq<Slot>): Ast?
    reads Nodes(t)`nodeType
    decreases |p|
  {
    if t.Nil? then null
    else if p == [] then t.ast
    else if t.ast.nodeType == AST_AMBIGUITY || |t.kids| != MCXX_MAX_AST_CHILDREN then null
    else NodeAt(t.kids[p[0]], p[1..])
  }

  /** At the end of the path there is a node in both trees, of one kind and with one text, or in none. */
  ghost predicate SameAt(t: Tree, u: Tree, p: seq<Slot>)
    reads Nodes(t), Nodes(u)
  {
    var n, m := NodeAt(t, p), NodeAt(u, p);
    NodeAtInside(t, p);
    NodeAtInside(u, p);
    if n == null || m == null then n == m else n.nodeType == m.nodeType && n.text == m.text
  }

  lemma {:induction false} NodeAtInside(t: Tree, p: seq<Slot>)
    ensures NodeAt(t, p) != null ==> NodeAt(t, p) in Nodes(t)
    decreases |p|
  {
    if t.Node? && p != [] && t.ast.nodeType != AST_AMBIGUITY && |t.kids| == MCXX_MAX_AST_CHILDREN {
      NodeAtInside(t.kids[p[0]], p[1..]);
    }
  }

  lemma SameBelow(a: Ast, b: Ast, t: Tree, u: Tree, k: Slot, p: seq<Slot>)
    requires IsTree(a, t) && IsTree(b, u)
    ensures SameAt(SonTree(t, k), SonTree(u, k), p) <==> SameAt(t, u, [k] + p)
  {
    assert ([k] + p)[1..] == p;
  }

  /** ast_equal says that the trees agree at every path; a node has no children where it is an ambiguity. */
  lemma {:induction false} EqualIsEverywhere(a: Ast?, b: Ast?, t: Tree, u: Tree)
    requires IsTree(a, t) && IsTree(b, u)
    ensures AstEqual(a, b, t, u) <==> forall p :: SameAt(t, u, p)
    decreases t.Node?, t
  {
    if a == null || b == null {
      assert SameAt(t, u, []) <==> a == b;
    } else {
      forall k: Slot
        ensures IsTree(a.sons[k], SonTree(t, k)) && IsTree(b.sons[k], SonTree(u, k))
        ensures AstEqual(a.sons[k], b.sons[k], SonTree(t, k), SonTree(u, k))
           <==> forall p :: SameAt(SonTree(t, k), SonTree(u, k), p) {
        SonIsTree(a, t, k);
        SonIsTree(b, u, k);
        EqualIsEverywhere(a.sons[k], b.sons[k], SonTree(t, k), SonTree(u, k));
      }
      if AstEqual(a, b, t, u) {
        forall p ensures SameAt(t, u, p) {
          if p != [] { SameBelow(a, b, t, u, p[0], p[1..]); assert p == [p[0]] + p[1..]; }
        }
      }
      if forall p :: SameAt(t, u, p) {
        assert SameAt(t, u, []);
        forall k: Slot, p ensures SameAt(SonTree(t, k), SonTree(u, k), p) { SameBelow(a, b, t, u, k, p); }
        forall k: Slot ensures a.sons[k] == null <==> b.sons[k] == null {
          assert SameAt(SonTree(t, k), SonTree(u, k), []);
        }
        SameBits(a, b);
      }
    }
  }

  /** A copy is ast_equal to its source. */
  lemma {:induction false} CopyIsEqual(a: Ast?, t: Tree, r: Ast?, u: Tree)
    requires IsTree(a, t) && IsTree(r, u) && SameTree(t, u)
    ensures AstEqual(a, r, t, u)
    decreases t.Node?, t
  {
    if a != null {
      forall k: Slot
        ensures IsTree(a.sons[k], SonTree(t, k)) && IsTree(r.sons[k], SonTree(u, k))
        ensures SameTree(SonTree(t, k), SonTree(u, k))
        ensures AstEqual(a.sons[k], r.sons[k], SonTree(t, k), SonTree(u, k)) {
        SonIsTree(a, t, k);
        SonIsTree(r, u, k);
        if a.nodeType != AST_AMBIGUITY { assert t.kids[k] == t.kids[k]; }
        CopyIsEqual(a.sons[k], SonTree(t, k), r.sons[k], SonTree(u, k));
      }
      SameBits(a, r);
    }
  }


  /** Where the parents are right, the list check depends on kinds and children only. */
  lemma {:induction false} ListTreeIsShape(a: Ast, t: Tree)
    requires IsTree(a, t) && Linked(t)
    ensures ListTree(a, t) <==> ListShape(t)
    decreases t
  {
    if a.nodeType == AST_NODE_LIST {
      SonInside(t, 0);
      SonInside(t, 1);
      if a.sons[0] != null { ListTreeIsShape(a.sons[0], t.kids[0]); }
    }
  }

  /** Where the parents are right, ast_check accepts exactly the trees with well built lists. */
  lemma {:induction false} ConsistentIffLists(t: Tree, inList: bool)
    requires t.Node? ==> IsTree(t.ast, t) && Linked(t)
    requires t.Node? ==> (inList <==> t.ast.parent != null && t.ast.parent.nodeType == AST_NODE_LIST)
    ensures Consistent(t) <==> ListsOk(t, inList)
    decreases t
  {
    if t.Node? {
      forall k | 0 <= k < |t.kids|
        ensures Consistent(t.kids[k]) <==> ListsOk(t.kids[k], t.ast.nodeType == AST_NODE_LIST) {
        KidInside(t, k);
        ConsistentIffLists(t.kids[k], t.ast.nodeType == AST_NODE_LIST);
      }
      ListTreeIsShape(t.ast, t);
      if t.ast.nodeType != AST_AMBIGUITY {
        forall k: Slot ensures t.ast.sons[k] != null ==> t.ast.sons[k].parent == t.ast { SonInside(t, k); }
      }
    }
  }

  lemma {:induction false} SameListShape(t: Tree, u: Tree)
    requires SameTree(t, u)
    ensures ListShape(t) <==> ListShape(u)
    decreases t
  {
    if t.Node? && |t.kids| == MCXX_MAX_AST_CHILDREN {
      assert SameTree(t.kids[0], u.kids[0]) && SameTree(t.kids[1], u.kids[1]);
      SameListShape(t.kids[0], u.kids[0]);
    }
  }

  lemma {:induction false} SameLists(t: Tree, u: Tree, inList: bool)
    requires SameTree(t, u)
    ensures ListsOk(t, inList) <==> ListsOk(u, inList)
    decreases t
  {
    if t.Node? {
      SameListShape(t, u);
      forall k | 0 <= k < |t.kids|
        ensures ListsOk(t.kids[k], t.ast.nodeType == AST_NODE_LIST)
           <==> ListsOk(u.kids[k], t.ast.nodeType == AST_NODE_LIST) {
        SameLists(t.kids[k], u.kids[k], t.ast.nodeType == AST_NODE_LIST);
      }
    }
  }

  /** A copy passes ast_check if and only if the lists of its source are well built, whatever the
      parent links of the source. */
  lemma CopyPassesCheck(t: Tree, r: Ast, u: Tree)
    requires CopyOf(t, r, u) && r.parent == null
    ensures Consistent(u) <==> ListsOk(t, false)
  {
    ConsistentIffLists(u, false);
    SameLists(t, u, false);
  }
}
