/** What solving one ambiguity does to the tree around it: since the node keeps its identity and its
    parent, the tree stays a tree with right links. */
module AstGraft {
  import opened AstBitmap
  import opened AstNode
  import opened AstTree
  import opened AstReplace
  import opened AstFind
  import opened AstSolve
  import opened Diagnostics
  import opened Ambiguity

  /** `t` with other kids below the node `a`, wherever it is. */
  ghost function Grafted(t: Tree, a: Ast, kids: seq<Tree>): (r: Tree)
    ensures (r.Node? <==> t.Node?) && (t.Node? ==> r.ast == t.ast)
  {
    if t.Nil? then Nil
    else if t.ast == a then Node(a, kids)
    else Node(t.ast, seq(|t.kids|, k requires 0 <= k < |t.kids| => Grafted(t.kids[k], a, kids)))
  }

  /** The nodes of `t` above and beside `a`. */
  ghost function Outside(t: Tree, a: Ast): (r: set<Ast>)
    ensures r <= Nodes(t) && a !in r
  {
    if t.Nil? || t.ast == a then {}
    else {t.ast} + set k, n | 0 <= k < |t.kids| && n in Outside(t.kids[k], a) :: n
  }

  /** The nodes down to `a` and to the ambiguities. */
  ghost function ReachedTo(t: Tree, a: Ast): set<Ast>
    reads Outside(t, a)`nodeType
    decreases t
  {
    if t.Nil? then {}
    else if t.ast == a || t.ast.nodeType == AST_AMBIGUITY then {t.ast}
    else {t.ast} + set k, n | 0 <= k < |t.kids| && n in ReachedTo(t.kids[k], a) :: n
  }

  /** IsTree, as far as `a`. */
  ghost predicate IsTreeTo(r: Ast?, t: Tree, a: Ast)
    reads Outside(t, a)`nodeType, Outside(t, a)`bitmapSons, Outside(t, a)`children, Outside(t, a)`sons
    reads Outside(t, a)`ambig
    decreases t
  {
    match t
    case Nil => r == null
    case Node(n, kids) =>
      && r == n
      && (n != a ==>
            && n.Packed()
            && if n.nodeType == AST_AMBIGUITY then
                 && n.sons == [null, null, null, null]
                 && |kids| == |n.ambig| && kids != []
                 && forall k {:trigger kids[k]} | 0 <= k < |kids| :: kids[k].Node? && IsTreeTo(n.ambig[k], kids[k], a)
               else
                 && |kids| == MCXX_MAX_AST_CHILDREN
                 && forall k {:trigger kids[k]} | 0 <= k < |kids| :: IsTreeTo(n.sons[k], kids[k], a))
  }

  /** Fixed, as far as `a`. */
  ghost predicate FixedTo(t: Tree, a: Ast)
    reads Outside(t, a)`nodeType, ReachedTo(t, a)`parent
    decreases t
  {
    t.Node? && t.ast != a && t.ast.nodeType != AST_AMBIGUITY ==>
      forall k {:trigger t.kids[k]} | 0 <= k < |t.kids| ::
        KidReachedTo(t, k, a);
        FixedTo(t.kids[k], a) && (t.kids[k].Node? ==> t.kids[k].ast.parent == t.ast)
  }

  lemma KidReachedTo(t: Tree, k: nat, a: Ast)
    requires t.Node? && t.ast != a && t.ast.nodeType != AST_AMBIGUITY && k < |t.kids|
    ensures Outside(t.kids[k], a) <= Outside(t, a) && ReachedTo(t.kids[k], a) <= ReachedTo(t, a)
    ensures t.kids[k].Node? ==> t.kids[k].ast in ReachedTo(t.kids[k], a)
  {
  }

  /** A tree is one as far as `a`. */
  lemma {:induction false} TreeTo(r: Ast?, t: Tree, a: Ast)
    requires IsTree(r, t)
    ensures IsTreeTo(r, t, a)
    decreases t
  {
    if t.Node? && t.ast != a {
      forall k | 0 <= k < |t.kids|
        ensures t.ast.nodeType == AST_AMBIGUITY ==> t.kids[k].Node? && IsTreeTo(t.ast.ambig[k], t.kids[k], a)
        ensures t.ast.nodeType != AST_AMBIGUITY ==> IsTreeTo(t.ast.sons[k], t.kids[k], a) {
        assert t.kids[k] == t.kids[k];
        TreeTo(if t.ast.nodeType == AST_AMBIGUITY then t.ast.ambig[k] else t.ast.sons[k], t.kids[k], a);
      }
    }
  }

  lemma {:induction false} FixedAsFar(t: Tree, a: Ast)
    requires Fixed(t)
    ensures FixedTo(t, a) && ReachedTo(t, a) <= Reached(t)
    decreases t
  {
    if t.Node? && t.ast != a && t.ast.nodeType != AST_AMBIGUITY {
      forall k | 0 <= k < |t.kids| ensures FixedTo(t.kids[k], a) && ReachedTo(t.kids[k], a) <= ReachedBelow(t) {
        KidReached(t, k);
        FixedAsFar(t.kids[k], a);
      }
    }
  }

  /** The parts make a tree again. */
  lemma {:induction false} GraftIsTree(r: Ast?, t: Tree, a: Ast, kids: seq<Tree>)
    requires IsTreeTo(r, t, a) && IsTree(a, Node(a, kids))
    ensures IsTree(r, Grafted(t, a, kids))
    decreases t
  {
    if t.Node? && t.ast != a {
      var u := Grafted(t, a, kids);
      forall k | 0 <= k < |t.kids|
        ensures u.kids[k].Node? == t.kids[k].Node?
        ensures t.ast.nodeType == AST_AMBIGUITY ==> IsTree(t.ast.ambig[k], u.kids[k])
        ensures t.ast.nodeType != AST_AMBIGUITY ==> IsTree(t.ast.sons[k], u.kids[k]) {
        assert t.kids[k] == t.kids[k];
        GraftIsTree(if t.ast.nodeType == AST_AMBIGUITY then t.ast.ambig[k] else t.ast.sons[k], t.kids[k], a, kids);
      }
    }
  }

  lemma {:induction false} GraftIsFixed(t: Tree, a: Ast, kids: seq<Tree>)
    requires FixedTo(t, a) && Fixed(Node(a, kids))
    ensures Fixed(Grafted(t, a, kids))
    decreases t
  {
    if t.Node? && t.ast != a && t.ast.nodeType != AST_AMBIGUITY {
      var u := Grafted(t, a, kids);
      forall k | 0 <= k < |u.kids| ensures Fixed(u.kids[k]) && (u.kids[k].Node? ==> u.kids[k].ast.parent == u.ast) {
        assert t.kids[k] == t.kids[k];
        GraftIsFixed(t.kids[k], a, kids);
      }
    }
  }

  /** The nodes outside stay, and those of the interpretation come in. */
  lemma {:induction false} GraftedNodes(t: Tree, a: Ast, kids: seq<Tree>)
    ensures Nodes(Grafted(t, a, kids)) == Outside(t, a) + if a in Nodes(t) then Nodes(Node(a, kids)) else {}
    decreases t
  {
    if t.Node? && t.ast != a {
      var u := Grafted(t, a, kids);
      forall k | 0 <= k < |t.kids|
        ensures Nodes(u.kids[k]) == Outside(t.kids[k], a) + if a in Nodes(t.kids[k]) then Nodes(Node(a, kids)) else {} {
        GraftedNodes(t.kids[k], a, kids);
      }
    }
  }

  /** The tree around `a` with the interpretation of tree `s` in the place of `a`: it is the tree of
      `root`, its links are right, and its ambiguities are those outside `a` and those of `s`. */
  ghost predicate Replaced(root: Ast, t: Tree, a: Ast, s: Tree)
    requires s.Node?
    reads Nodes(Grafted(t, a, s.kids)), Outside(t, a), Nodes(Node(a, s.kids))
  {
    var u := Grafted(t, a, s.kids);
    && IsTree(root, u) && Fixed(u)
    && (NoAmbiguity(u) <==>
        NoAmbiguity(Node(a, s.kids)) && forall n | n in Outside(t, a) :: n.nodeType != AST_AMBIGUITY)
  }

  lemma Regrown(root: Ast, t: Tree, a: Ast, s: Tree)
    requires s.Node? && a in Nodes(t)
    requires IsTreeTo(root, t, a) && FixedTo(t, a) && Became(a, s)
    ensures Replaced(root, t, a, s)
  {
    GraftIsTree(root, t, a, s.kids);
    GraftIsFixed(t, a, s.kids);
    GraftedNodes(t, a, s.kids);
  }

  /** The nodes of `t` above its ambiguities are apart from the nodes that get new parents. */
  ghost predicate Around(root: Ast, t: Tree, a: Ast, ts: seq<Tree>)
    reads Nodes(t), {a}`nodeType, {a}`ambig
    reads AllNodes(ts)`nodeType, AllNodes(ts)`bitmapSons, AllNodes(ts)`children, AllNodes(ts)`sons, AllNodes(ts)`ambig
  {
    && IsTree(root, t) && Fixed(t) && a in Nodes(t)
    && Interpretations(a, ts) && Reached(t) !! AllReached(ts)
  }

  /** The tree part of the solvers changes nothing that the tree says as far as `a`. */
  method RepairTo(root: Ast, a: Ast, n: nat, solved: bool, index: nat, ghost t: Tree, ghost ts: seq<Tree>)
    requires IsTreeTo(root, t, a) && FixedTo(t, a) && ReachedTo(t, a) !! AllReached(ts)
    requires Interpretations(a, ts) && n <= |ts| && (solved ==> index < |ts|)
    modifies a, AllReached(ts)`parent
    ensures a.parent == old(a.parent)
    ensures solved ==> ts[index].Node? && Became(a, ts[index])
    ensures !solved ==> Interpretations(a, ts) && unchanged(a)
    ensures IsTreeTo(root, t, a) && FixedTo(t, a)
  {
    assert allocated(Outside(t, a)) && allocated(ReachedTo(t, a)) && allocated(AllNodes(ts));
    Repair(a, n, solved, index, ts);
  }

  /** The tree part of the solvers, inside the tree of `root`. */
  method RepairInTree(root: Ast, a: Ast, n: nat, solved: bool, index: nat, ghost t: Tree, ghost ts: seq<Tree>)
    requires Around(root, t, a, ts) && n <= |ts| && (solved ==> index < |ts|)
    modifies a, AllReached(ts)`parent
    ensures a.parent == old(a.parent)
    ensures solved ==> ts[index].Node? && Became(a, ts[index]) && Replaced(root, t, a, ts[index])
    ensures !solved ==> Around(root, t, a, ts)
  {
    TreeTo(root, t, a);
    FixedAsFar(t, a);
    assert allocated(Nodes(t)) && allocated(AllNodes(ts));
    RepairTo(root, a, n, solved, index, t, ts);
    if solved {
      Regrown(root, t, a, ts[index]);
    }
  }

  /** solve_ambiguity_generic of a node inside the tree of `root`. */
  method SolveInTree(root: Ast, a: Ast, ds: Stack, ghost dest: Context, cb: Callbacks<nat>,
                     ghost t: Tree, ghost ts: seq<Tree>)
    returns (r: Outcome, ghost buffers: seq<Context>)
    requires Around(root, t, a, ts)
    requires ds.Valid() && ds.Current() == dest && dest.Valid() && dest.live
    modifies ds, dest, a, AllReached(ts)`parent
    ensures r == MoreThanOneValid <==> Select(cb, Numbers(|ts|), |ts|) == Clash
    ensures r.Solved? ==> r.index < |ts| && ts[r.index].Node?
    ensures r.Solved? ==> Became(a, ts[r.index]) && Replaced(root, t, a, ts[r.index])
    ensures a.parent == old(a.parent)
    ensures ds.Valid() && ds.Contexts() == old(ds.Contexts()) && ds.Current() == dest
    ensures r.Solved? ==> Told(cb, |ts|, r.index, dest, old(dest.Log()), buffers) && forall b | b in buffers :: fresh(b)
  {
    assert allocated(Nodes(t)) && allocated(AllNodes(ts));
    r, buffers := Choose(a, ds, dest, cb, ts);
    RepairInTree(root, a, |a.ambig|, r.Solved?, if r.Solved? then r.index else 0, t, ts);
  }

  /** try_to_solve_ambiguity_generic of a node inside the tree of `root`. */
  method TryToSolveInTree(root: Ast, a: Ast, ds: Stack, ghost dest: Context, cb: Callbacks<nat>,
                          ghost t: Tree, ghost ts: seq<Tree>)
    returns (solved: bool, ghost option: nat)
    requires Around(root, t, a, ts)
    requires ds.Valid() && ds.Current() == dest && dest.Valid() && dest.live
    modifies dest, a, AllReached(ts)`parent
    ensures solved <==> Select(cb, Numbers(|ts|), |ts|).Chosen?
    ensures solved ==> Select(cb, Numbers(|ts|), |ts|) == Chosen(option) && option < |ts| && ts[option].Node?
    ensures solved ==> Became(a, ts[option]) && Replaced(root, t, a, ts[option])
    ensures !solved ==> Around(root, t, a, ts)
    ensures a.parent == old(a.parent) && ds.Valid() && dest.Valid() && dest.live
  {
    assert allocated(Nodes(t)) && allocated(AllNodes(ts));
    var index, checked;
    solved, index, checked := TryToChoose(a, ds, dest, cb, ts);
    option := index;
    RepairInTree(root, a, checked, solved, index, t, ts);
  }
}
