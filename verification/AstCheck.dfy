/** The checks of a tree that use a stack of their own instead of recursion. */
module AstCheck {
  import opened AstBitmap
  import opened AstNode
  import opened AstTree

  ghost function Size(t: Tree): nat {
    if t.Nil? then 0 else 1 + SizeAll(t.kids)
  }

  ghost function SizeAll(ts: seq<Tree>): nat {
    if ts == [] then 0 else SizeAll(ts[..|ts| - 1]) + Size(ts[|ts| - 1])
  }

  lemma {:induction false} SizeAllAppend(ts: seq<Tree>, us: seq<Tree>)
    ensures SizeAll(ts + us) == SizeAll(ts) + SizeAll(us)
  {
    if us == [] {
      assert ts + us == ts;
    } else {
      assert (ts + us)[..|ts + us| - 1] == ts + us[..|us| - 1];
      SizeAllAppend(ts, us[..|us| - 1]);
    }
  }

  /** The trees that are there. */
  ghost function Present(ts: seq<Tree>): seq<Tree> {
    if ts == [] then []
    else Present(ts[..|ts| - 1]) + if ts[|ts| - 1].Nil? then [] else [ts[|ts| - 1]]
  }

  lemma {:induction false} PresentSame(ts: seq<Tree>)
    ensures SizeAll(Present(ts)) == SizeAll(ts)
    ensures forall t :: t in Present(ts) <==> t in ts && t.Node?
  {
    if ts != [] {
      var init := ts[..|ts| - 1];
      PresentSame(init);
      assert ts == init + [ts[|ts| - 1]];
      SizeAllAppend(Present(init), if ts[|ts| - 1].Nil? then [] else [ts[|ts| - 1]]);
      assert SizeAll([ts[|ts| - 1]][..0]) == 0;
    }
  }

  /** The stack holds the roots of the trees `ts`. */
  ghost predicate Holds(stack: seq<Ast>, ts: seq<Tree>)
    reads AllNodes(ts)
  {
    && |stack| == |ts|
    && forall k {:trigger ts[k]} | 0 <= k < |ts| :: ts[k].Node? && stack[k] == ts[k].ast && IsTree(stack[k], ts[k])
  }

  /** ast_check_list_tree, which equals its recursive form. */
  method AstCheckListTree(root: Ast?, ghost t: Tree) returns (ok: bool)
    requires IsTree(root, t)
    ensures ok <==> ListTree(root, t)
  {
    var stack: seq<Ast?> := [root];
    ghost var rest := t;
    ok := true;
    while |stack| > 0
      invariant |stack| <= 1 && (stack != [] ==> IsTree(stack[0], rest))
      invariant stack != [] ==> ok && (ListTree(root, t) <==> ListTree(stack[0], rest))
      invariant stack == [] ==> (ok <==> ListTree(root, t))
      decreases |stack|, rest
    {
      var a := stack[|stack| - 1];
      stack := stack[..|stack| - 1];
      if a == null || a.nodeType != AST_NODE_LIST {
        ok := false;
        break;
      }
      SonInside(rest, 0);
      SonInside(rest, 1);
      var son0, son1 := a.GetChild(0), a.GetChild(1);
      if son1 == null || son1.nodeType == AST_NODE_LIST {
        ok := false;
        break;
      }
      if son0 == null { break; }
      if son0.nodeType != AST_NODE_LIST || son0.parent != a || son1.parent != a {
        ok := false;
        break;
      }
      stack := stack + [son0];
      rest := rest.kids[0];
    }
  }

  /** All the trees still to visit pass. */
  ghost predicate AllConsistent(ts: seq<Tree>)
    reads AllNodes(ts), set n | n in AllNodes(ts) :: n.parent
  {
    forall k {:trigger ts[k]} | 0 <= k < |ts| :: Consistent(ts[k])
  }

  lemma ConsistentAppend(ts: seq<Tree>, us: seq<Tree>)
    ensures AllConsistent(ts + us) <==> AllConsistent(ts) && AllConsistent(us)
  {
    forall k | 0 <= k < |us| && AllConsistent(ts + us) ensures Consistent(us[k]) {
      assert (ts + us)[|ts| + k] == us[k];
    }
    forall k | 0 <= k < |ts| && AllConsistent(ts + us) ensures Consistent(ts[k]) {
      assert (ts + us)[k] == ts[k];
    }
  }

  lemma {:induction false} ConsistentPresent(ts: seq<Tree>)
    ensures AllConsistent(Present(ts)) <==> AllConsistent(ts)
  {
    if ts != [] {
      var init, last := ts[..|ts| - 1], ts[|ts| - 1];
      ConsistentPresent(init);
      ConsistentAppend(Present(init), if last.Nil? then [] else [last]);
      ConsistentAppend(init, [last]);
      assert ts == init + [last];
      assert AllConsistent([last]) <==> Consistent([last][0]);
    }
  }

  ghost predicate ParentsBelow(n: Ast, i: nat)
    reads n, n.sons
  {
    forall k: Slot | k < i :: n.sons[k] != null ==> n.sons[k].parent == n
  }

  lemma AllSons(node: Ast, t: Tree)
    requires IsTree(node, t) && node.nodeType != AST_AMBIGUITY
    ensures |t.kids| == MCXX_MAX_AST_CHILDREN && node.Packed()
    ensures forall k: Slot {:trigger t.kids[k]} :: IsTree(node.sons[k], t.kids[k])
    ensures forall k: Slot {:trigger t.kids[k]} :: t.kids[k].Nil? <==> node.sons[k] == null
    ensures forall k: Slot {:trigger t.kids[k]} :: t.kids[k].Node? ==> t.kids[k].ast == node.sons[k]
  {
  }

  /** The children of one node: pushes those that point back to it, until one does not. */
  method PushChildren(node: Ast, stack: seq<Ast>, ghost t: Tree)
    returns (ok: bool, stack': seq<Ast>, ghost pushed: seq<Ast>)
    requires IsTree(node, t) && node.nodeType != AST_AMBIGUITY
    ensures ok <==> ParentsBelow(node, MCXX_MAX_AST_CHILDREN)
    ensures ok ==> stack' == stack + pushed && Holds(pushed, Present(t.kids))
  {
    ok, stack', pushed := true, stack, [];
    AllSons(node, t);
    var i := 0;
    while i < MCXX_MAX_AST_CHILDREN && ok
      invariant i <= MCXX_MAX_AST_CHILDREN
      invariant ok ==> ParentsBelow(node, i) && stack' == stack + pushed && Holds(pushed, Present(t.kids[..i]))
      invariant !ok ==> !ParentsBelow(node, MCXX_MAX_AST_CHILDREN)
    {
      var c := node.GetChild(i);
      assert t.kids[..i + 1][..i] == t.kids[..i];
      assert t.kids[i] == t.kids[..i + 1][i];
      if c != null {
        if c.parent != node {
          ok := false;
        } else {
          stack' := stack' + [c];
          pushed := pushed + [c];
        }
      }
      i := i + 1;
    }
    assert t.kids[..|t.kids|] == t.kids;
  }

  /** The check of the node on top of the stack: `ok` is false exactly when it fails; else its
      children, or the interpretations of an ambiguity, are pushed. */
  method CheckNode(node: Ast, stack: seq<Ast>, ghost t: Tree)
    returns (ok: bool, stack': seq<Ast>, ghost pushed: seq<Ast>)
    requires IsTree(node, t)
    ensures ok <==> NodeOk(t)
    ensures ok ==> stack' == stack + pushed && Holds(pushed, Present(t.kids))
  {
    assert allocated(Nodes(t));
    if node.nodeType != AST_AMBIGUITY {
      ok, stack', pushed := PushChildren(node, stack, t);
      assert allocated(AllNodes(Present(t.kids)));
      if node.nodeType == AST_NODE_LIST && (node.parent == null || node.parent.nodeType != AST_NODE_LIST) {
        var isList := AstCheckListTree(node, t);
        if !isList { ok := false; }
      }
    } else {
      ok, pushed := true, node.ambig;
      stack' := PushInterpretations(node.ambig, stack);
      InterpretationsHold(node, t);
    }
  }

  lemma InterpretationsHold(node: Ast, t: Tree)
    requires IsTree(node, t) && node.nodeType == AST_AMBIGUITY
    ensures Holds(node.ambig, Present(t.kids))
  {
    forall s | s in t.kids ensures s.Node? {
      var k :| 0 <= k < |t.kids| && t.kids[k] == s;
    }
    AllPresent(t.kids);
  }

  method PushInterpretations(ambig: seq<Ast>, stack: seq<Ast>) returns (stack': seq<Ast>)
    ensures stack' == stack + ambig
  {
    stack' := stack;
    var i := 0;
    while i < |ambig|
      invariant i <= |ambig| && stack' == stack + ambig[..i]
    {
      stack' := stack' + [ambig[i]];
      i := i + 1;
    }
  }

  lemma {:induction false} AllPresent(ts: seq<Tree>)
    requires forall t | t in ts :: t.Node?
    ensures Present(ts) == ts
  {
    if ts != [] {
      var init, last := ts[..|ts| - 1], ts[|ts| - 1];
      AllPresent(init);
      assert ts == init + [last] && last.Node?;
    }
  }

  lemma HoldsAppend(stack: seq<Ast>, ts: seq<Tree>, pushed: seq<Ast>, us: seq<Tree>)
    requires Holds(stack, ts) && Holds(pushed, us)
    ensures Holds(stack + pushed, ts + us)
  {
  }

  /** Replacing a node that passes by what hangs from it. */
  lemma Turn(init: seq<Tree>, top: Tree)
    requires top.Node? && NodeOk(top)
    ensures AllConsistent(init + Present(top.kids)) <==> AllConsistent(init + [top])
  {
    ConsistentPresent(top.kids);
    ConsistentAppend(init, Present(top.kids));
    ConsistentAppend(init, [top]);
    assert AllConsistent([top]) <==> Consistent([top][0]);
  }

  lemma Smaller(init: seq<Tree>, top: Tree)
    requires top.Node?
    ensures SizeAll(init + Present(top.kids)) < SizeAll(init + [top])
  {
    PresentSame(top.kids);
    SizeAllAppend(init, Present(top.kids));
    SizeAllAppend(init, [top]);
    assert SizeAll([top]) == SizeAll([top][..0]) + Size(top);
  }

  lemma Failed(init: seq<Tree>, top: Tree)
    requires top.Node? && !NodeOk(top)
    ensures !AllConsistent(init + [top])
  {
    ConsistentAppend(init, [top]);
    assert AllConsistent([top]) <==> Consistent([top][0]);
  }

  /** The body of the loop of ast_check. */
  method PopNode(stack: seq<Ast>, ghost init: seq<Tree>, ghost top: Tree)
    returns (ok: bool, stack': seq<Ast>, ghost ts: seq<Tree>)
    requires stack != [] && top.Node? && IsTree(stack[|stack| - 1], top) && Holds(stack[..|stack| - 1], init)
    ensures !ok ==> !old(AllConsistent(init + [top]))
    ensures ok ==> Holds(stack', ts) && (AllConsistent(ts) <==> old(AllConsistent(init + [top])))
    ensures ok ==> SizeAll(ts) < SizeAll(init + [top])
  {
    assert allocated(AllNodes(init + [top])) && allocated(AllNodes(init)) && allocated(Nodes(top));
    ghost var was := AllConsistent(init + [top]);
    var node := stack[|stack| - 1];
    ghost var pushed;
    ok, stack', pushed := CheckNode(node, stack[..|stack| - 1], top);
    assert AllConsistent(init + [top]) == was;
    ts := init + Present(top.kids);
    if ok {
      assert Holds(stack[..|stack| - 1], init);
      HoldsAppend(stack[..|stack| - 1], init, pushed, Present(top.kids));
      Turn(init, top);
      Smaller(init, top);
    } else {
      Failed(init, top);
    }
  }

  /** ast_check: it ends on every finite tree, and accepts exactly the consistent ones. */
  method AstCheckTree(root: Ast, ghost t: Tree) returns (ok: bool)
    requires IsTree(root, t)
    ensures (ok <==> Consistent(t)) && IsTree(root, t)
  {
    assert allocated(Nodes(t)) && allocated(Around(t));
    ghost var good := Consistent(t);
    var stack: seq<Ast> := [root];
    ghost var ts := [t];
    ok := true;
    assert AllConsistent(ts) <==> Consistent(ts[0]);
    while |stack| > 0 && ok
      invariant ok ==> Holds(stack, ts) && (AllConsistent(ts) <==> good)
      invariant !ok ==> !good
      decreases ok, SizeAll(ts)
    {
      ghost var init, top := ts[..|ts| - 1], ts[|ts| - 1];
      assert ts == init + [top];
      HoldsLast(stack, ts);
      ok, stack, ts := PopNode(stack, init, top);
    }
    assert Consistent(t) == good;
  }

  lemma HoldsLast(stack: seq<Ast>, ts: seq<Tree>)
    requires Holds(stack, ts) && ts != []
    ensures Holds(stack[..|stack| - 1], ts[..|ts| - 1])
    ensures ts[|ts| - 1].Node? && IsTree(stack[|stack| - 1], ts[|ts| - 1])
  {
  }
}
