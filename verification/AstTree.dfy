/** The tree that hangs from a node, and the checks of its links. */
module AstTree {
  import opened AstBitmap
  import opened AstNode

  /** The nodes below a node: its four children, or the interpretations of an ambiguity. */
  datatype Tree = Nil | Node(ast: Ast, kids: seq<Tree>)

  ghost function Nodes(t: Tree): set<Ast> {
    if t.Nil? then {} else {t.ast} + set k, n | 0 <= k < |t.kids| && n in Nodes(t.kids[k]) :: n
  }

  ghost function AllNodes(ts: seq<Tree>): set<Ast> {
    set k, n | 0 <= k < |ts| && n in Nodes(ts[k]) :: n
  }

  /** The tree of `a` is `t`: finite, but it may share nodes, and says nothing about parents. */
  ghost predicate IsTree(a: Ast?, t: Tree)
    reads Nodes(t)`nodeType, Nodes(t)`bitmapSons, Nodes(t)`children, Nodes(t)`sons, Nodes(t)`ambig
  {
    match t
    case Nil => a == null
    case Node(n, kids) =>
      && a == n
      && n.Packed()
      && if n.nodeType == AST_AMBIGUITY then
           && n.sons == [null, null, null, null]
           && |kids| == |n.ambig| && kids != []
           && forall k {:trigger kids[k]} | 0 <= k < |kids| :: kids[k].Node? && IsTree(n.ambig[k], kids[k])
         else
           && |kids| == MCXX_MAX_AST_CHILDREN
           && forall k {:trigger kids[k]} | 0 <= k < |kids| :: IsTree(n.sons[k], kids[k])
  }

  lemma SonInside(t: Tree, k: Slot)
    requires t.Node? && IsTree(t.ast, t) && t.ast.nodeType != AST_AMBIGUITY
    ensures k < |t.kids| && IsTree(t.ast.sons[k], t.kids[k]) && Nodes(t.kids[k]) <= Nodes(t)
    ensures t.ast.sons[k] != null ==> t.kids[k].Node? && t.kids[k].ast == t.ast.sons[k] && t.ast.sons[k] in Nodes(t)
  {
  }

  /** The nodes below the root of a tree. */
  ghost function Below(t: Tree): set<Ast> {
    if t.Nil? then {} else set k, n | 0 <= k < |t.kids| && n in Nodes(t.kids[k]) :: n
  }

  lemma BelowInside(t: Tree, k: nat)
    requires t.Node? && k < |t.kids|
    ensures Below(t.kids[k]) <= Nodes(t.kids[k]) <= Below(t) <= Nodes(t)
    ensures t.kids[k].Node? ==> t.kids[k].ast in Nodes(t.kids[k])
  {
  }

  ghost predicate Apart(ts: seq<Tree>) {
    forall i, j | 0 <= i < j < |ts| :: Nodes(ts[i]) !! Nodes(ts[j])
  }

  /** No node is shared. */
  ghost predicate TreeShaped(t: Tree) {
    t.Node? ==>
      && t.ast !in Below(t)
      && Apart(t.kids)
      && forall k {:trigger t.kids[k]} | 0 <= k < |t.kids| :: TreeShaped(t.kids[k])
  }

  /** A list that is not inside another one. */
  predicate TopLevelList(n: Ast)
    reads n, n.parent
  {
    n.nodeType == AST_NODE_LIST && (n.parent == null || n.parent.nodeType != AST_NODE_LIST)
  }

  /** The recursive form of ast_check_list_tree. */
  ghost predicate ListTree(a: Ast?, t: Tree)
    reads Nodes(t)
    decreases t
  {
    if !IsTree(a, t) || a == null then false
    else if a.nodeType != AST_NODE_LIST then false
    else
      SonInside(t, 0);
      SonInside(t, 1);
      if a.sons[1] == null then false
      else if a.sons[1].nodeType == AST_NODE_LIST then false
      else if a.sons[0] == null then true
      else if a.sons[0].nodeType != AST_NODE_LIST then false
      else if a.sons[0].parent != a then false
      else if a.sons[1].parent != a then false
      else ListTree(a.sons[0], t.kids[0])
  }

  ghost function Around(t: Tree): set<Ast?>
    reads Nodes(t)
  {
    set n | n in Nodes(t) :: n.parent
  }

  /** What ast_check verifies at one node. */
  ghost predicate NodeOk(t: Tree)
    reads Nodes(t), Around(t)
  {
    t.Node? && IsTree(t.ast, t) &&
    (t.ast.nodeType != AST_AMBIGUITY ==>
      && (forall k: Slot | t.ast.sons[k] != null :: SonInside(t, k); t.ast.sons[k].parent == t.ast)
      && (TopLevelList(t.ast) ==> ListTree(t.ast, t)))
  }

  lemma KidInside(t: Tree, k: nat)
    requires t.Node? && IsTree(t.ast, t) && k < |t.kids|
    ensures t.kids[k].Node? ==> IsTree(t.kids[k].ast, t.kids[k])
    ensures Nodes(t.kids[k]) <= Nodes(t)
  {
  }

  /** Every node of the tree passes. */
  ghost predicate Consistent(t: Tree)
    reads Nodes(t), Around(t)
  {
    t.Node? ==>
      NodeOk(t)
      && forall k {:trigger t.kids[k]} | 0 <= k < |t.kids| :: KidInside(t, k); Consistent(t.kids[k])
  }

  /** All the trees below a tree, itself included. */
  ghost function Subtrees(t: Tree): set<Tree> {
    if t.Nil? then {} else {t} + set k, s | 0 <= k < |t.kids| && s in Subtrees(t.kids[k]) :: s
  }

  /** Every child of the node points back to it. */
  ghost predicate ChildrenPointBack(n: Ast)
    reads n, n.sons
  {
    forall c: Ast | c in n.sons :: c.parent == n
  }

  /** What passing means at one node. */
  lemma NodeOkMeans(t: Tree)
    requires t.Node? && IsTree(t.ast, t)
    ensures NodeOk(t) <==>
              t.ast.nodeType == AST_AMBIGUITY
              || (ChildrenPointBack(t.ast)
                  && (t.ast.nodeType == AST_NODE_LIST ==>
                        (t.ast.parent != null && t.ast.parent.nodeType == AST_NODE_LIST) || ListTree(t.ast, t)))
  {
    if t.ast.nodeType != AST_AMBIGUITY {
      forall k: Slot ensures t.ast.sons[k] != null ==> t.ast.sons[k] in t.ast.sons { }
      if NodeOk(t) {
        forall c: Ast | c in t.ast.sons ensures c.parent == t.ast {
          var k :| 0 <= k < |t.ast.sons| && t.ast.sons[k] == c;
          var j: Slot := k;
        }
      }
    }
  }

  /** Consistent, said without recursion: every node of the tree passes. */
  lemma {:induction false} ConsistentIsEverywhere(t: Tree)
    ensures Consistent(t) <==> forall s | s in Subtrees(t) :: NodeOk(s)
  {
    if t.Node? {
      assert t in Subtrees(t);
      forall k | 0 <= k < |t.kids| ensures Consistent(t.kids[k]) <==> forall s | s in Subtrees(t.kids[k]) :: NodeOk(s) {
        ConsistentIsEverywhere(t.kids[k]);
      }
    }
  }

  /** A well built list, parents apart: what ast_check_list_tree asks of kinds and children. */
  ghost predicate ListShape(t: Tree)
    reads Nodes(t)`nodeType
  {
    && t.Node? && t.ast.nodeType == AST_NODE_LIST
    && |t.kids| == MCXX_MAX_AST_CHILDREN
    && (assert Nodes(t.kids[0]) <= Nodes(t) && Nodes(t.kids[1]) <= Nodes(t);
        assert t.kids[1].Node? ==> t.kids[1].ast in Nodes(t.kids[1]);
        assert t.kids[0].Node? ==> t.kids[0].ast in Nodes(t.kids[0]);
        && t.kids[1].Node? && t.kids[1].ast.nodeType != AST_NODE_LIST
        && (t.kids[0].Node? ==> t.kids[0].ast.nodeType == AST_NODE_LIST && ListShape(t.kids[0])))
  }

  /** Every list that is not inside another one is well built; `inList` says that the root is. */
  ghost predicate ListsOk(t: Tree, inList: bool)
    reads Nodes(t)`nodeType
    decreases t
  {
    t.Node? ==>
      && (t.ast.nodeType == AST_NODE_LIST && !inList ==> ListShape(t))
      && forall k {:trigger t.kids[k]} | 0 <= k < |t.kids| :: ListsOk(t.kids[k], t.ast.nodeType == AST_NODE_LIST)
  }
}
