/** Searching a tree for an ambiguity, and why none is left after a replacement. */
module AstFind {
  import opened AstBitmap
  import opened AstNode
  import opened AstTree
  import opened AstList
  import opened AstReplace
  import opened AstCopy
  import opened AstCopyProof

  ghost predicate NoAmbiguity(t: Tree)
    reads Nodes(t)`nodeType
  {
    forall n | n in Nodes(t) :: n.nodeType != AST_AMBIGUITY
  }

  /** The first ambiguity, in the order of the text: lists from the head, other nodes by children. */
  ghost function FirstAmbiguity(t: Tree): Ast?
    reads Nodes(t)`nodeType
    decreases t
  {
    if t.Nil? then null
    else if t.ast.nodeType == AST_AMBIGUITY then t.ast
    else if t.ast.nodeType == AST_NODE_LIST && |t.kids| == MCXX_MAX_AST_CHILDREN then
      var before := FirstAmbiguity(t.kids[0]);
      if before != null then before else FirstAmbiguity(t.kids[1])
    else FirstIn(t.kids)
  }

  ghost function FirstIn(ts: seq<Tree>): Ast?
    reads AllNodes(ts)`nodeType
    decreases ts
  {
    if ts == [] then null
    else
      var before := FirstIn(ts[..|ts| - 1]);
      if before != null then before else FirstAmbiguity(ts[|ts| - 1])
  }

  lemma {:induction false} FirstIsAmbiguity(t: Tree)
    ensures FirstAmbiguity(t) != null ==> FirstAmbiguity(t) in Nodes(t) && FirstAmbiguity(t).nodeType == AST_AMBIGUITY
    decreases t
  {
    if t.Node? && t.ast.nodeType != AST_AMBIGUITY {
      if t.ast.nodeType == AST_NODE_LIST && |t.kids| == MCXX_MAX_AST_CHILDREN {
        FirstIsAmbiguity(t.kids[0]);
        FirstIsAmbiguity(t.kids[1]);
      } else {
        FirstInIsAmbiguity(t.kids);
      }
    }
  }

  /** The ambiguity to which the path of child numbers `p` leads from the root, through no other ambiguity, and
      at a list node to the nodes before it (child 0) or to its element (child 1); else null. */
  ghost function AtPath(t: Tree, p: seq<nat>): Ast?
    reads Nodes(t)`nodeType
    decreases t
  {
    if t.Nil? then null
    else if t.ast.nodeType == AST_AMBIGUITY then if p == [] then t.ast else null
    else if p == [] || p[0] >= Width(t) then null
    else AtPath(t.kids[p[0]], p[1..])
  }

  /** How many children count: of a list node the first two. */
  ghost function Width(t: Tree): (w: nat)
    requires t.Node?
    reads {t.ast}`nodeType
    ensures w <= |t.kids|
  {
    if t.ast.nodeType == AST_NODE_LIST && |t.kids| == MCXX_MAX_AST_CHILDREN then 2 else |t.kids|
  }

  /** The texts below two paths: where the paths part, `p` takes the earlier child. */
  ghost predicate Earlier(p: seq<nat>, q: seq<nat>) {
    exists k :: 0 <= k < |p| && k < |q| && p[..k] == q[..k] && p[k] < q[k]
  }

  /** `r` is the ambiguity that comes first in the text, or null if no path leads to one. */
  ghost predicate FirstInText(t: Tree, r: Ast?)
    reads Nodes(t)`nodeType
  {
    if r == null then forall q :: AtPath(t, q) == null
    else exists p :: AtPath(t, p) == r && forall q | AtPath(t, q) != null :: q == p || Earlier(p, q)
  }

  lemma EarlierBelow(k: nat, p: seq<nat>, q: seq<nat>)
    requires Earlier(p, q)
    ensures Earlier([k] + p, [k] + q)
  {
    var i :| 0 <= i < |p| && i < |q| && p[..i] == q[..i] && p[i] < q[i];
    assert ([k] + p)[..i + 1] == [k] + p[..i] && ([k] + q)[..i + 1] == [k] + q[..i];
    assert ([k] + p)[i + 1] == p[i] && ([k] + q)[i + 1] == q[i];
  }

  /** The first child with an ambiguity decides. */
  lemma FirstChildDecides(t: Tree, k: nat, r: Ast)
    requires t.Node? && t.ast.nodeType != AST_AMBIGUITY && k < Width(t)
    requires FirstInText(t.kids[k], r) && forall j | 0 <= j < k :: FirstInText(t.kids[j], null)
    ensures FirstInText(t, r)
  {
    var p :| AtPath(t.kids[k], p) == r && forall q | AtPath(t.kids[k], q) != null :: q == p || Earlier(p, q);
    var path := [k] + p;
    assert path[1..] == p && AtPath(t, path) == r;
    forall q | AtPath(t, q) != null ensures q == path || Earlier(path, q) {
      assert AtPath(t.kids[q[0]], q[1..]) != null && q == [q[0]] + q[1..];
      if q[0] == k {
        if q[1..] != p { EarlierBelow(k, p, q[1..]); }
      } else {
        assert q[0] > k;
        assert path[..0] == q[..0] && path[0] < q[0];
      }
    }
  }

  lemma NoChildHasOne(t: Tree)
    requires t.Node? && t.ast.nodeType != AST_AMBIGUITY && forall j | 0 <= j < Width(t) :: FirstInText(t.kids[j], null)
    ensures FirstInText(t, null)
  {
    forall q ensures AtPath(t, q) == null {
    }
  }

  /** What the search gives is the first one in the text. */
  lemma {:induction false} FirstIsFirstInText(t: Tree)
    ensures FirstInText(t, FirstAmbiguity(t))
    decreases t, 1
  {
    if t.Node? && t.ast.nodeType == AST_AMBIGUITY {
      assert AtPath(t, []) == t.ast;
    } else if t.Node? {
      forall k | 0 <= k < |t.kids| ensures FirstInText(t.kids[k], FirstAmbiguity(t.kids[k])) {
        FirstIsFirstInText(t.kids[k]);
      }
      var r := FirstAmbiguity(t);
      if k: nat :| k < Width(t) && FirstAmbiguity(t.kids[k]) != null
                   && forall j | 0 <= j < k :: FirstAmbiguity(t.kids[j]) == null {
        if Width(t) == |t.kids| && !(t.ast.nodeType == AST_NODE_LIST && |t.kids| == MCXX_MAX_AST_CHILDREN) {
          FirstInAt(t.kids, k);
        }
        FirstChildDecides(t, k, r);
      } else {
        NoneBefore(t.kids, Width(t));
        if !(t.ast.nodeType == AST_NODE_LIST && |t.kids| == MCXX_MAX_AST_CHILDREN) { NothingIn(t.kids); }
        NoChildHasOne(t);
      }
    }
  }

  lemma {:induction false} FirstInAt(ts: seq<Tree>, k: nat)
    requires k < |ts| && FirstAmbiguity(ts[k]) != null && forall j | 0 <= j < k :: FirstAmbiguity(ts[j]) == null
    ensures FirstIn(ts) == FirstAmbiguity(ts[k])
  {
    if k == |ts| - 1 {
      NothingIn(ts[..k]);
    } else {
      FirstInAt(ts[..|ts| - 1], k);
    }
  }

  /** Without a first one there is none. */
  lemma {:induction false} NoneBefore(ts: seq<Tree>, n: nat)
    requires n <= |ts|
    requires !exists k :: 0 <= k < n && FirstAmbiguity(ts[k]) != null
                          && forall j | 0 <= j < k :: FirstAmbiguity(ts[j]) == null
    ensures forall k | 0 <= k < n :: FirstAmbiguity(ts[k]) == null
  {
    if n > 0 { NoneBefore(ts, n - 1); }
  }

  /** The list nodes use their first two children only, as the functions that build lists leave them. */
  ghost predicate PlainLists(t: Tree)
    reads Nodes(t)`nodeType
    decreases t
  {
    t.Node? ==>
      && (t.ast.nodeType == AST_NODE_LIST ==> forall k | 2 <= k < |t.kids| :: t.kids[k].Nil?)
      && forall k {:trigger t.kids[k]} | 0 <= k < |t.kids| :: PlainLists(t.kids[k])
  }

  /** A list that ast_list makes longer stays plain. */
  method AppendPlain(list: Ast?, lastElem: Ast, ghost ns: seq<Ast>, ghost t: Tree, ghost u: Tree)
    returns (a: Ast, ghost v: Tree)
    requires if list == null then ns == [] else IsList(list, ns)
    requires lastElem !in ns && IsTree(list, t) && IsTree(lastElem, u) && PlainLists(t) && PlainLists(u)
    modifies (set c: Ast | c in [list, lastElem])`parent
    ensures fresh(a) && IsList(a, ns + [a]) && v == Node(a, [t, u, Nil, Nil])
    ensures IsTree(a, v) && PlainLists(v)
  {
    assert allocated(Nodes(t)) && allocated(Nodes(u));
    a := AppendToList(list, lastElem, ns);
    v := Node(a, [t, u, Nil, Nil]);
    assert ListAt(ns + [a], |ns|);
    assert IsTree(list, t) && IsTree(lastElem, u) && PlainLists(t) && PlainLists(u);
    forall k | 0 <= k < |v.kids| ensures IsTree(a.sons[k], v.kids[k]) && PlainLists(v.kids[k]) {
    }
  }

  /** The search finds an ambiguity exactly if there is one. */
  lemma {:induction false} FoundIffThere(t: Tree)
    requires PlainLists(t)
    ensures FirstAmbiguity(t) == null <==> NoAmbiguity(t)
    decreases t
  {
    if t.Node? && t.ast.nodeType != AST_AMBIGUITY {
      forall k | 0 <= k < |t.kids| ensures FirstAmbiguity(t.kids[k]) == null <==> NoAmbiguity(t.kids[k]) {
        FoundIffThere(t.kids[k]);
      }
      if t.ast.nodeType == AST_NODE_LIST && |t.kids| == MCXX_MAX_AST_CHILDREN {
        assert t.kids[2].Nil? && t.kids[3].Nil?;
      } else {
        NothingIn(t.kids);
      }
    }
  }

  lemma {:induction false} NothingIn(ts: seq<Tree>)
    ensures FirstIn(ts) == null <==> forall k | 0 <= k < |ts| :: FirstAmbiguity(ts[k]) == null
  {
    if ts != [] { NothingIn(ts[..|ts| - 1]); }
  }

  lemma {:induction false} FirstInIsAmbiguity(ts: seq<Tree>)
    ensures var f := FirstIn(ts);
            f != null ==> f.nodeType == AST_AMBIGUITY && exists k :: 0 <= k < |ts| && f in Nodes(ts[k])
    decreases ts
  {
    if ts != [] {
      var init := ts[..|ts| - 1];
      FirstInIsAmbiguity(init);
      FirstIsAmbiguity(ts[|ts| - 1]);
      assert forall k | 0 <= k < |init| :: init[k] == ts[k];
    }
  }

  /** Where for_each_element can walk: below a list node, along the first children, there are list
      nodes only, and each points back to the next one. Everything else may have any links. */
  ghost predicate Searchable(t: Tree)
    reads Nodes(t)`nodeType, Nodes(t)`parent
    decreases t
  {
    t.Node? && t.ast.nodeType != AST_AMBIGUITY ==>
      if t.ast.nodeType == AST_NODE_LIST then
        && |t.kids| == MCXX_MAX_AST_CHILDREN
        && Searchable(t.kids[1])
        && (t.kids[0].Node? ==> (assert t.kids[0].ast in Nodes(t.kids[0]);
                                 && t.kids[0].ast.nodeType == AST_NODE_LIST && t.kids[0].ast.parent == t.ast
                                 && Searchable(t.kids[0])))
      else
        forall k {:trigger t.kids[k]} | 0 <= k < |t.kids| :: Searchable(t.kids[k])
  }

  ghost predicate IsListTree(t: Tree)
    reads Nodes(t)`nodeType, Nodes(t)`parent
  {
    t.Node? && t.ast.nodeType == AST_NODE_LIST && Searchable(t)
  }

  /** With fixed parents and well built lists the search can go everywhere. */
  lemma {:induction false} FixedIsSearchable(t: Tree)
    requires Fixed(t) && ListsOk(t, true)
    requires t.Node? && t.ast.nodeType == AST_NODE_LIST ==> ListShape(t)
    ensures Searchable(t)
    decreases t
  {
    if t.Node? && t.ast.nodeType != AST_AMBIGUITY {
      forall k | 0 <= k < |t.kids| && (t.ast.nodeType == AST_NODE_LIST ==> k < 2) ensures Searchable(t.kids[k]) {
        KidReached(t, k);
        FixedIsSearchable(t.kids[k]);
      }
    }
  }

  /** The list nodes of a list, the head first, and the trees of its elements. */
  ghost function Spine(t: Tree): seq<Ast>
    requires IsListTree(t)
    reads Nodes(t)`nodeType, Nodes(t)`parent
  {
    (if t.kids[0].Nil? then [] else Spine(t.kids[0])) + [t.ast]
  }

  ghost function ElementTrees(t: Tree): seq<Tree>
    requires IsListTree(t)
    reads Nodes(t)`nodeType, Nodes(t)`parent
  {
    (if t.kids[0].Nil? then [] else ElementTrees(t.kids[0])) + [t.kids[1]]
  }

  lemma {:induction false} FirstInList(t: Tree)
    requires IsListTree(t)
    ensures FirstAmbiguity(t) == FirstIn(ElementTrees(t))
    decreases t
  {
    var es := ElementTrees(t);
    assert es[..|es| - 1] == if t.kids[0].Nil? then [] else ElementTrees(t.kids[0]);
    if t.kids[0].Node? { FirstInList(t.kids[0]); }
  }

  /** The spine is a list that for_each_element can walk. */
  lemma {:induction false} SpineIsList(t: Tree)
    requires IsListTree(t) && IsTree(t.ast, t)
    ensures IsList(t.ast, Spine(t)) && |ElementTrees(t)| == |Spine(t)|
    ensures forall k {:trigger ElementTrees(t)[k]} | 0 <= k < |Spine(t)| ::
              CanSearch(Spine(t)[k].sons[1], ElementTrees(t)[k]) && ElementTrees(t)[k] < t
    decreases t
  {
    SonInside(t, 0);
    SonInside(t, 1);
    var ns := Spine(t);
    if t.kids[0].Node? {
      SpineIsList(t.kids[0]);
      var ms := Spine(t.kids[0]);
      forall k | 0 <= k < |ns| ensures ListAt(ns, k) {
        if k < |ms| { assert ListAt(ms, k); }
      }
    } else {
      assert ListAt(ns, 0);
    }
  }

  ghost predicate CanSearch(a: Ast?, t: Tree)
    reads Nodes(t)
  {
    IsTree(a, t) && Searchable(t)
  }

  ghost predicate CanSearchAll(t: Tree, kids: seq<Ast?>, ts: seq<Tree>)
    reads AllNodes(ts)
  {
    && |kids| == |ts|
    && (forall k {:trigger ts[k]} | 0 <= k < |ts| :: ts[k] < t)
    && forall k {:trigger CanSearch(kids[k], ts[k])} | 0 <= k < |ts| :: CanSearch(kids[k], ts[k])
  }

  /** The loops of find_ambiguity. */
  method FindInKids(kids: seq<Ast?>, ghost ts: seq<Tree>, ghost t: Tree) returns (r: Ast?)
    requires CanSearchAll(t, kids, ts)
    ensures r == FirstIn(ts)
    decreases t, 1
  {
    r := null;
    var i := 0;
    while i < |kids|
      invariant i <= |kids| && CanSearchAll(t, kids, ts)
      invariant r == null && FirstIn(ts[..i]) == null
    {
      r := FindInKid(kids, ts, t, i);
      assert ts[..i + 1][..i] == ts[..i];
      if r != null {
        FirstInPrefix(ts, i + 1);
        return;
      }
      i := i + 1;
    }
    assert ts[..|ts|] == ts;
  }

  method FindInKid(kids: seq<Ast?>, ghost ts: seq<Tree>, ghost t: Tree, i: nat) returns (r: Ast?)
    requires CanSearchAll(t, kids, ts) && i < |kids|
    ensures CanSearchAll(t, kids, ts) && r == FirstAmbiguity(ts[i]) && FirstIn(ts[..i]) == old(FirstIn(ts[..i]))
    decreases t, 0
  {
    assert CanSearch(kids[i], ts[i]) && ts[i] < t;
    assert forall k | 0 <= k < |ts| :: allocated(Nodes(ts[k]));
    assert allocated(AllNodes(ts[..i]));
    r := FindAmbiguity(kids[i], ts[i]);
    forall k | 0 <= k < |ts| ensures CanSearch(kids[k], ts[k]) {
      assert old(allocated(Nodes(ts[k])) && CanSearch(kids[k], ts[k]));
    }
  }

  lemma {:induction false} FirstInPrefix(ts: seq<Tree>, n: nat)
    requires n <= |ts| && FirstIn(ts[..n]) != null
    ensures FirstIn(ts) == FirstIn(ts[..n])
    decreases |ts|
  {
    if n < |ts| {
      assert ts[..|ts| - 1][..n] == ts[..n];
      FirstInPrefix(ts[..|ts| - 1], n);
    } else {
      assert ts[..n] == ts;
    }
  }

  /** find_ambiguity: the ambiguity that comes first in the text, or null if there is none. */
  method FindAmbiguity(a: Ast?, ghost t: Tree) returns (r: Ast?)
    requires CanSearch(a, t)
    ensures r == FirstAmbiguity(t) && FirstInText(t, r) && CanSearch(a, t)
    decreases t, 3
  {
    if a == null {
      r := null;
    } else if a.nodeType == AST_AMBIGUITY {
      r := a;
    } else if a.nodeType == AST_NODE_LIST {
      r := FindInList(a, t);
    } else {
      r := FindInChildren(a, t);
    }
    FirstIsFirstInText(t);
  }

  method FindInList(a: Ast, ghost t: Tree) returns (r: Ast?)
    requires CanSearch(a, t) && a.nodeType == AST_NODE_LIST
    ensures r == FirstAmbiguity(t) && CanSearch(a, t)
    decreases t, 2
  {
    assert allocated(Nodes(t));
    var elements := ListElements(a, t);
    CanSearchElements(a, t, elements);
    FirstInList(t);
    ghost var es := ElementTrees(t);
    assert allocated(AllNodes(es));
    r := FindInKids(elements, es, t);
  }

  method FindInChildren(a: Ast, ghost t: Tree) returns (r: Ast?)
    requires CanSearch(a, t) && a.nodeType != AST_NODE_LIST && a.nodeType != AST_AMBIGUITY
    ensures r == FirstAmbiguity(t) && CanSearch(a, t)
    decreases t, 2
  {
    assert allocated(Nodes(t));
    var children := [a.GetChild(0), a.GetChild(1), a.GetChild(2), a.GetChild(3)];
    CanSearchChildren(a, t);
    r := FindInKids(children, t.kids, t);
  }

  /** The elements that for_each_element visits. */
  method ListElements(a: Ast, ghost t: Tree) returns (elements: seq<Ast?>)
    requires CanSearch(a, t) && a.nodeType == AST_NODE_LIST
    ensures CanSearch(a, t) && |elements| == |Spine(t)|
    ensures forall k | 0 <= k < |elements| :: elements[k] == Spine(t)[k].sons[1]
  {
    SpineIsList(t);
    assert allocated(Nodes(t)) && allocated(ReachedBelow(t)) && allocated(Spine(t));
    var visited := ForEachElement(a, Spine(t));
    SpineIsList(t);
    elements := [];
    var i := 0;
    while i < |visited|
      invariant i == |elements| <= |visited|
      invariant forall k | 0 <= k < i :: elements[k] == visited[k].sons[1]
    {
      assert ListAt(Spine(t), i);
      elements := elements + [visited[i].GetChild(1)];
      i := i + 1;
    }
  }

  lemma CanSearchElements(a: Ast, t: Tree, elements: seq<Ast?>)
    requires CanSearch(a, t) && a.nodeType == AST_NODE_LIST
    requires |elements| == |Spine(t)| && forall k | 0 <= k < |elements| :: elements[k] == Spine(t)[k].sons[1]
    ensures CanSearchAll(t, elements, ElementTrees(t))
  {
    SpineIsList(t);
    var es := ElementTrees(t);
    forall k | 0 <= k < |es| ensures es[k] < t && CanSearch(elements[k], es[k]) {
      assert es[k] == ElementTrees(t)[k];
    }
  }

  lemma CanSearchChildren(a: Ast, t: Tree)
    requires CanSearch(a, t) && a.nodeType != AST_AMBIGUITY && a.nodeType != AST_NODE_LIST
    ensures CanSearchAll(t, [a.sons[0], a.sons[1], a.sons[2], a.sons[3]], t.kids)
  {
  }

  /** The replacement of an ambiguity by an interpretation without any: nothing is left to find. */
  lemma NothingToFind(t: Tree)
    requires NoAmbiguity(t)
    ensures FirstAmbiguity(t) == null
  {
    FirstIsAmbiguity(t);
  }

  /** Without ambiguities, fixed parents are all that a copy promises about links. */
  lemma {:induction false} FixedIsLinked(t: Tree)
    requires NoAmbiguity(t)
    ensures Fixed(t) <==> Linked(t)
    decreases t
  {
    if t.Node? {
      forall k | 0 <= k < |t.kids| ensures Fixed(t.kids[k]) <==> Linked(t.kids[k]) {
        BelowInside(t, k);
        FixedIsLinked(t.kids[k]);
      }
    }
  }

  /** After a replacement by an interpretation without ambiguities whose lists are well built,
      the node passes ast_check, unless its outer parent says that it is a list inside a list. */
  lemma ReplacedIsConsistent(u: Tree)
    requires u.Node? && IsTree(u.ast, u) && Fixed(u) && NoAmbiguity(u)
    ensures Consistent(u) <==> ListsOk(u, u.ast.parent != null && u.ast.parent.nodeType == AST_NODE_LIST)
  {
    FixedIsLinked(u);
    ConsistentIffLists(u, u.ast.parent != null && u.ast.parent.nodeType == AST_NODE_LIST);
  }

  /** What ast_check_list_tree demands of node `k` of a list, besides its place: an element that is no list, and
      that points back, except at the first node, whose element may have any parent. */
  ghost predicate ElementOk(ns: seq<Ast>, k: nat)
    requires k < |ns|
    reads ns[k], ns[k].sons
  {
    var e := ns[k].sons[1];
    e != null && e.nodeType != AST_NODE_LIST && (k > 0 ==> e.parent == ns[k])
  }

  /** ast_check_list_tree accepts exactly the lists that can be iterated over and whose elements are in order. */
  lemma {:induction false} AcceptedIsList(a: Ast, t: Tree) returns (ns: seq<Ast>)
    requires IsTree(a, t) && ListTree(a, t)
    ensures IsList(a, ns) && forall k | 0 <= k < |ns| :: ElementOk(ns, k)
    decreases t
  {
    SonInside(t, 0);
    if a.sons[0] == null {
      ns := [a];
      assert ListAt(ns, 0) && ElementOk(ns, 0);
    } else {
      var ms := AcceptedIsList(a.sons[0], t.kids[0]);
      ns := ms + [a];
      forall k | 0 <= k < |ns| ensures ListAt(ns, k) && ElementOk(ns, k) {
        if k < |ms| { assert ListAt(ms, k) && ElementOk(ms, k); }
      }
    }
  }

  lemma {:induction false} ListIsAccepted(a: Ast, t: Tree, ns: seq<Ast>)
    requires IsTree(a, t) && IsList(a, ns) && forall k | 0 <= k < |ns| :: ElementOk(ns, k)
    ensures ListTree(a, t)
    decreases t
  {
    var n := |ns| - 1;
    assert ListAt(ns, n) && ElementOk(ns, n);
    SonInside(t, 0);
    SonInside(t, 1);
    if n > 0 {
      var ms := ns[..n];
      assert ListAt(ns, n - 1);
      forall k | 0 <= k < |ms| ensures ListAt(ms, k) && ElementOk(ms, k) {
        assert ListAt(ns, k) && ElementOk(ns, k);
      }
      ListIsAccepted(a.sons[0], t.kids[0], ms);
    }
  }
}
