/** Deep copy and comparison of trees. */
module AstCopy {
  import opened AstBitmap
  import opened AstNode
  import opened AstTree

  /** The parent that a kid of `n` must have: none for an interpretation. */
  ghost function ParentFor(n: Ast): Ast?
    reads n`nodeType
  {
    if n.nodeType == AST_AMBIGUITY then null else n
  }

  /** Every node below the root points to its parent. */
  ghost predicate Linked(t: Tree)
    reads Nodes(t)`nodeType, Below(t)`parent
    decreases t
  {
    t.Node? ==>
      forall k {:trigger t.kids[k]} | 0 <= k < |t.kids| ::
        BelowInside(t, k);
        Linked(t.kids[k]) && (t.kids[k].Node? ==> t.kids[k].ast.parent == ParentFor(t.ast))
  }

  /** Equal kinds, texts and loci, all over. */
  ghost predicate SameTree(t: Tree, u: Tree)
    reads Nodes(t)`nodeType, Nodes(t)`text, Nodes(t)`locus, Nodes(u)`nodeType, Nodes(u)`text, Nodes(u)`locus
    decreases t
  {
    if t.Nil? || u.Nil? then t == u
    else
      && t.ast.nodeType == u.ast.nodeType && t.ast.text == u.ast.text && t.ast.locus == u.ast.locus
      && |t.kids| == |u.kids|
      && forall k {:trigger t.kids[k]} {:trigger u.kids[k]} | 0 <= k < |t.kids| :: SameTree(t.kids[k], u.kids[k])
  }

  /** `u` is a copy of `t` with root `r`. */
  ghost predicate CopyOf(t: Tree, r: Ast?, u: Tree)
    reads Nodes(t)`nodeType, Nodes(t)`text, Nodes(t)`locus
    reads Nodes(u)`nodeType, Nodes(u)`text, Nodes(u)`locus
    reads Nodes(u)`bitmapSons, Nodes(u)`children, Nodes(u)`sons, Nodes(u)`ambig, Below(u)`parent
  {
    IsTree(r, u) && SameTree(t, u) && TreeShaped(u) && Linked(u)
  }

  /** The trees `us` with roots `rs` are copies of the first trees of `ts`, with no node in common. */
  ghost predicate Copies(ts: seq<Tree>, rs: seq<Ast?>, us: seq<Tree>, parent: Ast?)
    reads AllNodes(ts)
    reads AllNodes(us)
  {
    && |us| == |rs| <= |ts|
    && Apart(us)
    && forall k {:trigger CopyAt(ts, rs, us, parent, k)} | 0 <= k < |us| :: CopyAt(ts, rs, us, parent, k)
  }

  ghost predicate CopyAt(ts: seq<Tree>, rs: seq<Ast?>, us: seq<Tree>, parent: Ast?, k: nat)
    requires k < |us| == |rs| <= |ts|
    reads Nodes(ts[k]), Nodes(us[k])
  {
    && CopyOf(ts[k], rs[k], us[k])
    && (us[k].Node? ==> (assert us[k].ast in Nodes(us[k]); us[k].ast.parent == parent))
  }

  /** A kid is copied, and gets its parent. */
  method CopyKid(a: Ast?, parent: Ast?, ghost t: Tree) returns (c: Ast?, ghost u: Tree)
    requires IsTree(a, t)
    ensures CopyOf(t, c, u) && (c != null ==> c.parent == parent)
    ensures forall n | n in Nodes(u) :: fresh(n)
    decreases t, 4
  {
    assert allocated(Nodes(t));
    c, u := AstCopy(a, t);
    assert c != null ==> c in Nodes(u);
    if c != null && parent != null {
      c.parent := parent;
    }
  }

  lemma OneMoreCopy(ts: seq<Tree>, rs: seq<Ast?>, us: seq<Tree>, parent: Ast?, r: Ast?, u: Tree)
    requires Copies(ts, rs, us, parent) && |us| < |ts|
    requires CopyOf(ts[|us|], r, u) && (r != null ==> r.parent == parent)
    requires forall k | 0 <= k < |us| :: Nodes(us[k]) !! Nodes(u)
    ensures Copies(ts, rs + [r], us + [u], parent)
  {
    forall k | 0 <= k < |us| + 1 ensures CopyAt(ts, rs + [r], us + [u], parent, k) {
      if k < |us| { assert CopyAt(ts, rs, us, parent, k); }
    }
  }

  ghost predicate AreTrees(kids: seq<Ast?>, ts: seq<Tree>)
    reads AllNodes(ts)`nodeType, AllNodes(ts)`bitmapSons, AllNodes(ts)`children, AllNodes(ts)`sons, AllNodes(ts)`ambig
  {
    && |kids| == |ts|
    && forall k {:trigger IsTree(kids[k], ts[k])} | 0 <= k < |kids| :: IsTree(kids[k], ts[k])
  }

  /** The loops of ast_copy: all the kids of `a`, in order. */
  method CopyKids(kids: seq<Ast?>, parent: Ast?, ghost ts: seq<Tree>) returns (rs: seq<Ast?>, ghost us: seq<Tree>)
    requires AreTrees(kids, ts)
    ensures |rs| == |kids| && Copies(ts, rs, us, parent) && AreTrees(kids, ts)
    ensures forall k, n | 0 <= k < |us| && n in Nodes(us[k]) :: fresh(n)
    decreases ts
  {
    rs, us := [], [];
    var i := 0;
    while i < |kids|
      invariant i == |rs| == |us| <= |kids| && Copies(ts, rs, us, parent) && AreTrees(kids, ts)
      invariant forall k, n | 0 <= k < |us| && n in Nodes(us[k]) :: fresh(n)
    {
      assert IsTree(kids[i], ts[i]);
      label Before:
      var c;
      ghost var u;
      c, u := CopyKid(kids[i], parent, ts[i]);
      forall k | 0 <= k < i ensures CopyAt(ts, rs, us, parent, k) && Nodes(us[k]) !! Nodes(u) {
        assert old@Before(allocated(Nodes(ts[k])) && allocated(Nodes(us[k])));
        assert old@Before(CopyAt(ts, rs, us, parent, k));
      }
      forall k | 0 <= k < |kids| ensures IsTree(kids[k], ts[k]) {
        assert old@Before(allocated(Nodes(ts[k])));
        assert old@Before(IsTree(kids[k], ts[k]));
      }
      OneMoreCopy(ts, rs, us, parent, c, u);
      rs, us := rs + [c], us + [u];
      i := i + 1;
    }
  }

  lemma WholeCopy(t: Tree, r: Ast, rs: seq<Ast?>, us: seq<Tree>)
    requires t.Node? && IsTree(t.ast, t) && |us| == |t.kids| && Copies(t.kids, rs, us, ParentFor(r))
    requires r.nodeType == t.ast.nodeType && r.text == t.ast.text && r.locus == t.ast.locus && r.Packed()
    requires r.nodeType == AST_AMBIGUITY ==> r.sons == [null, null, null, null] && |r.ambig| == |rs|
                                             && forall k | 0 <= k < |rs| :: r.ambig[k] == rs[k]
    requires r.nodeType != AST_AMBIGUITY ==> r.sons == rs
    requires forall k | 0 <= k < |us| :: r !in Nodes(us[k])
    ensures CopyOf(t, r, Node(r, us))
  {
    var u := Node(r, us);
    forall k | 0 <= k < |us|
      ensures IsTree(rs[k], us[k]) && SameTree(t.kids[k], us[k]) && TreeShaped(us[k]) && Linked(us[k])
      ensures us[k].Node? ==> us[k].ast.parent == ParentFor(r)
      ensures r.nodeType == AST_AMBIGUITY ==> us[k].Node? {
      assert CopyAt(t.kids, rs, us, ParentFor(r), k);
      assert t.kids[k] == t.kids[k];
    }
  }

  lemma KidsAreTrees(a: Ast, t: Tree)
    requires IsTree(a, t)
    ensures a.nodeType == AST_AMBIGUITY ==> AreTrees(a.ambig, t.kids)
    ensures a.nodeType != AST_AMBIGUITY ==> AreTrees(a.sons, t.kids)
  {
  }

  /** Copies have a root where the originals have one. */
  lemma SamePattern(ts: seq<Tree>, kids: seq<Ast?>, rs: seq<Ast?>, us: seq<Tree>, parent: Ast?)
    requires AreTrees(kids, ts) && Copies(ts, rs, us, parent) && |us| == |ts|
    ensures forall k | 0 <= k < |ts| :: rs[k] != null <==> kids[k] != null
  {
    forall k | 0 <= k < |ts| ensures rs[k] != null <==> kids[k] != null {
      assert IsTree(kids[k], ts[k]) && CopyAt(ts, rs, us, parent, k);
    }
  }

  /** ast_copy of an ambiguity: all its interpretations. */
  method CopyAmbiguity(a: Ast, result: Ast, ghost t: Tree) returns (ghost u: Tree)
    requires IsTree(a, t) && a.nodeType == AST_AMBIGUITY && result !in Nodes(t)
    requires result.nodeType == a.nodeType && result.text == a.text && result.locus == a.locus
    requires result.Packed() && result.sons == [null, null, null, null]
    modifies result`ambig
    ensures CopyOf(t, result, u)
    ensures forall n | n in Nodes(u) :: n == result || fresh(n)
    decreases t, 2
  {
    assert allocated(Nodes(t));
    KidsAreTrees(a, t);
    var rs;
    ghost var us;
    rs, us := CopyKids(a.ambig, null, t.kids);
    SamePattern(t.kids, a.ambig, rs, us, null);
    forall k | 0 <= k < |us| ensures result !in Nodes(us[k]) && result !in Nodes(t.kids[k]) {
      assert t.kids[k] == t.kids[k];
    }
    label Copied:
    result.ambig := rs;
    forall k | 0 <= k < |us| ensures CopyAt(t.kids, rs, us, null, k) {
      assert old@Copied(CopyAt(t.kids, rs, us, null, k));
    }
    u := Node(result, us);
    WholeCopy(t, result, rs, us);
  }

  /** The new node takes the copies as its children. */
  method SetCopies(result: Ast, bitmap: bv4, rs: seq<Ast?>, ghost ts: seq<Tree>, ghost us: seq<Tree>)
    requires |rs| == |us| == |ts| == MCXX_MAX_AST_CHILDREN && Copies(ts, rs, us, result)
    requires forall k: Slot :: rs[k] != null <==> Bits(bitmap)[k]
    requires forall k | 0 <= k < |us| :: result !in Nodes(us[k]) && result !in Nodes(ts[k])
    modifies result`bitmapSons, result`children, result`sons
    ensures Copies(ts, rs, us, result) && result.Packed() && result.sons == rs
  {
    assert forall k | 0 <= k < |us| :: allocated(Nodes(us[k])) && allocated(Nodes(ts[k]));
    var cs := PackSlots(bitmap, rs);
    result.SetSons(bitmap, cs, rs);
    forall k | 0 <= k < |us| ensures CopyAt(ts, rs, us, result, k) {
      assert old(CopyAt(ts, rs, us, result, k));
    }
  }

  /** ast_copy of an ordinary node: its children, under the same bitmap. */
  method CopyOrdinary(a: Ast, result: Ast, ghost t: Tree) returns (ghost u: Tree)
    requires IsTree(a, t) && a.nodeType != AST_AMBIGUITY && result !in Nodes(t)
    requires result.nodeType == a.nodeType && result.text == a.text && result.locus == a.locus
    modifies result`bitmapSons, result`children, result`sons
    ensures CopyOf(t, result, u)
    ensures forall n | n in Nodes(u) :: n == result || fresh(n)
    decreases t, 2
  {
    assert allocated(Nodes(t));
    KidsAreTrees(a, t);
    a.BitsSayWhich();
    var kids := [a.GetChild(0), a.GetChild(1), a.GetChild(2), a.GetChild(3)];
    assert kids == a.sons;
    var rs;
    ghost var us;
    rs, us := CopyKids(kids, result, t.kids);
    SamePattern(t.kids, kids, rs, us, result);
    forall k | 0 <= k < |us| ensures result !in Nodes(us[k]) && result !in Nodes(t.kids[k]) {
      assert t.kids[k] == t.kids[k];
    }
    SetCopies(result, a.bitmapSons, rs, t.kids, us);
    u := Node(result, us);
    WholeCopy(t, result, rs, us);
  }

  /** ast_copy: new nodes, with every link right even where the links of the source are wrong. */
  method AstCopy(a: Ast?, ghost t: Tree) returns (r: Ast?, ghost u: Tree)
    requires IsTree(a, t)
    ensures CopyOf(t, r, u) && (r != null ==> r.parent == null)
    ensures forall n | n in Nodes(u) :: fresh(n)
    decreases t, 3
  {
    if a == null { return null, Nil; }
    assert allocated(Nodes(t));
    var result := new Ast.Duplicate(a);
    if a.nodeType == AST_AMBIGUITY {
      u := CopyAmbiguity(a, result, t);
    } else {
      u := CopyOrdinary(a, result, t);
    }
    assert u.ast == result && result !in Below(u);
    result.parent := null;
    r := result;
  }
}
