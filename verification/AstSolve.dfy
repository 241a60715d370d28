/** Solving an ambiguity of the tree: from the interpretations to the repaired node. */
module AstSolve {
  import opened AstNode
  import opened AstTree
  import opened AstReplace
  import opened AstFind
  import opened Diagnostics
  import opened Ambiguity

  /** The interpretations by their numbers, as the callbacks get them. */
  function Numbers(n: nat): (xs: seq<nat>)
    ensures |xs| == n && forall i | 0 <= i < n :: xs[i] == i
  {
    seq(n, i => i)
  }

  /** The interpretations of `a` are trees down to their own ambiguities, but may share nodes with
      each other. */
  ghost predicate Interpretations(a: Ast, ts: seq<Tree>)
    reads {a}`nodeType, {a}`ambig
    reads AllNodes(ts)`nodeType, AllNodes(ts)`bitmapSons, AllNodes(ts)`children, AllNodes(ts)`sons, AllNodes(ts)`ambig
  {
    && a.nodeType == AST_AMBIGUITY && |ts| == |a.ambig| && ts != []
    && forall k {:trigger InterpretationAt(a, ts, k)} | 0 <= k < |ts| :: InterpretationAt(a, ts, k)
  }

  ghost predicate InterpretationAt(a: Ast, ts: seq<Tree>, k: nat)
    requires k < |ts| == |a.ambig|
    reads {a}`ambig
    reads Nodes(ts[k])`nodeType, Nodes(ts[k])`bitmapSons, Nodes(ts[k])`children, Nodes(ts[k])`sons, Nodes(ts[k])`ambig
  {
    IsTree(a.ambig[k], ts[k]) && ts[k].Node? && Unshared(ts[k]) && a !in Nodes(ts[k])
  }

  /** The nodes whose parent links can change. */
  ghost function AllReached(ts: seq<Tree>): set<Ast>
    reads AllNodes(ts)`nodeType
  {
    set k, n | 0 <= k < |ts| && n in ReachedBelow(ts[k]) :: n
  }

  lemma NotBelow(a: Ast, ts: seq<Tree>)
    requires Interpretations(a, ts)
    ensures a !in AllNodes(ts)
  {
    forall k | 0 <= k < |ts| ensures a !in Nodes(ts[k]) {
      assert InterpretationAt(a, ts, k);
    }
  }

  /** Fixing the parents inside one interpretation leaves all of them what they are. */
  method FixOne(a: Ast, i: nat, ghost n: nat, ghost ts: seq<Tree>)
    requires Interpretations(a, ts) && i < |ts| && n <= |ts|
    modifies ReachedBelow(ts[i])`parent
    ensures Interpretations(a, ts) && unchanged(a) && AllReached(ts[..n]) == old(AllReached(ts[..n]))
  {
    assert InterpretationAt(a, ts, i);
    assert forall k | 0 <= k < |ts| :: allocated(Nodes(ts[k]));
    assert allocated(AllNodes(ts[..n]));
    FixParents(a.ambig[i], ts[i]);
    forall k | 0 <= k < |ts| ensures InterpretationAt(a, ts, k) {
      assert old(InterpretationAt(a, ts, k));
    }
  }

  /** Fixing the parents inside the first `n` interpretations, one after the other: where they share
      nodes, the last one wins. */
  method FixFirst(a: Ast, n: nat, ghost ts: seq<Tree>)
    requires Interpretations(a, ts) && n <= |ts|
    modifies AllReached(ts[..n])`parent
    ensures Interpretations(a, ts) && unchanged(a)
  {
    NotBelow(a, ts);
    ghost var reached := AllReached(ts[..n]);
    var i := 0;
    while i < n
      invariant i <= n && Interpretations(a, ts) && unchanged(a)
      invariant AllReached(ts[..n]) == reached
    {
      assert ts[..n][i] == ts[i] && ReachedBelow(ts[i]) <= AllReached(ts[..n]);
      FixOne(a, i, n, ts);
      i := i + 1;
    }
  }

  /** The node `a` has become the interpretation with tree `t`: the same kind, text and locus, the
      same trees below, right links inside, and no ambiguity that was not in the interpretation. */
  ghost predicate Became(a: Ast, t: Tree)
    requires t.Node?
    reads {a} + Nodes(t)
  {
    var u := Node(a, t.kids);
    && a.nodeType == t.ast.nodeType && a.text == t.ast.text && a.locus == t.ast.locus
    && IsTree(a, u) && Fixed(u)
    && (NoAmbiguity(t) ==> NoAmbiguity(u) && FirstAmbiguity(u) == null)
  }

  /** The replacement, for the chosen interpretation. */
  method Finish(a: Ast, index: nat, ghost ts: seq<Tree>)
    requires Interpretations(a, ts) && index < |ts|
    modifies a, AllReached(ts)`parent
    ensures ts[index].Node? && Became(a, ts[index]) && a.parent == old(a.parent)
  {
    assert InterpretationAt(a, ts, index);
    ghost var t := ts[index];
    assert t.ast in Nodes(t) && Below(t) <= Nodes(t) <= AllNodes(ts);
    assert allocated(Nodes(t));
    ReplaceWithAmbiguity(a, index, t);
    if NoAmbiguity(t) {
      assert NoAmbiguity(Node(a, t.kids));
      NothingToFind(Node(a, t.kids));
    }
  }

  /** The tree part of both solvers: the parents inside the first `n` interpretations are fixed, and
      the node is replaced if one of them is the solution. */
  method Repair(a: Ast, n: nat, solved: bool, index: nat, ghost ts: seq<Tree>)
    requires Interpretations(a, ts) && n <= |ts| && (solved ==> index < |ts|)
    modifies a, AllReached(ts)`parent
    ensures a.parent == old(a.parent)
    ensures solved ==> ts[index].Node? && Became(a, ts[index])
    ensures !solved ==> Interpretations(a, ts) && unchanged(a)
  {
    assert forall k | 0 <= k < |ts| :: allocated(Nodes(ts[k]));
    assert AllReached(ts[..n]) <= AllReached(ts) by {
      assert forall k | 0 <= k < n :: ts[..n][k] == ts[k];
    }
    FixFirst(a, n, ts);
    if solved {
      Finish(a, index, ts);
    }
  }

  /** The diagnostics part of solve_ambiguity_generic leaves the interpretations as they are. */
  method Choose(a: Ast, ds: Stack, ghost dest: Context, cb: Callbacks<nat>, ghost ts: seq<Tree>)
    returns (r: Outcome, ghost buffers: seq<Context>)
    requires Interpretations(a, ts)
    requires ds.Valid() && ds.Current() == dest && dest.Valid() && dest.live
    modifies ds, dest
    ensures Interpretations(a, ts)
    ensures r == MoreThanOneValid <==> Select(cb, Numbers(|ts|), |ts|) == Clash
    ensures ds.Valid() && ds.Contexts() == old(ds.Contexts()) && ds.Current() == dest
    ensures r.Solved? ==> r.index < |ts|
    ensures r.Solved? ==> Told(cb, |ts|, r.index, dest, old(dest.Log()), buffers) && forall b | b in buffers :: fresh(b)
  {
    assert forall k | 0 <= k < |ts| :: allocated(Nodes(ts[k]));
    r, buffers := SolveAmbiguityGeneric(ds, dest, cb, Numbers(|a.ambig|));
    forall k | 0 <= k < |ts| ensures InterpretationAt(a, ts, k) {
      assert old(InterpretationAt(a, ts, k));
    }
  }

  /** Interpretation `index` is the solution, the current context is alive and has received its messages,
      and the contexts of the checks were all consumed. */
  ghost predicate Told(cb: Callbacks<nat>, n: nat, index: nat, dest: Context, log: seq<Diagnostic>,
                       buffers: seq<Context>)
    reads dest, buffers
  {
    && dest.Valid() && dest.live
    && SolutionIs(cb, Numbers(n), index, dest.kind, log, dest.Log())
    && AllConsumed(cb, Numbers(n), buffers)
  }

  /** solve_ambiguity_generic with its replacement of the node. Since the callbacks are pure, the
      parents inside the interpretations can be fixed after the checks. */
  method SolveAmbiguity(a: Ast, ds: Stack, ghost dest: Context, cb: Callbacks<nat>, ghost ts: seq<Tree>)
    returns (r: Outcome, ghost buffers: seq<Context>)
    requires Interpretations(a, ts)
    requires ds.Valid() && ds.Current() == dest && dest.Valid() && dest.live
    modifies ds, dest, a, AllReached(ts)`parent
    ensures r == MoreThanOneValid <==> Select(cb, Numbers(|ts|), |ts|) == Clash
    ensures r.Solved? ==> r.index < |ts|
    ensures r.Solved? ==> ts[r.index].Node? && Became(a, ts[r.index])
    ensures a.parent == old(a.parent)
    ensures ds.Valid() && ds.Contexts() == old(ds.Contexts()) && ds.Current() == dest
    ensures r.Solved? ==> Told(cb, |ts|, r.index, dest, old(dest.Log()), buffers) && forall b | b in buffers :: fresh(b)
  {
    assert forall k | 0 <= k < |ts| :: allocated(Nodes(ts[k]));
    r, buffers := Choose(a, ds, dest, cb, ts);
    Repair(a, |a.ambig|, r.Solved?, if r.Solved? then r.index else 0, ts);
  }

  /** The diagnostics part of try_to_solve_ambiguity_generic. */
  method TryToChoose(a: Ast, ds: Stack, ghost dest: Context, cb: Callbacks<nat>, ghost ts: seq<Tree>)
    returns (solved: bool, option: nat, checked: nat)
    requires Interpretations(a, ts)
    requires ds.Valid() && ds.Current() == dest && dest.Valid() && dest.live
    modifies dest
    ensures Interpretations(a, ts) && checked == Checked(cb, Numbers(|ts|), |ts|)
    ensures solved <==> Select(cb, Numbers(|ts|), |ts|).Chosen?
    ensures solved ==> Select(cb, Numbers(|ts|), |ts|) == Chosen(option)
    ensures ds.Valid() && dest.Valid() && dest.live
    ensures dest.Log() == ReceivedAll(dest.kind, old(dest.Log()), AllSay(cb, Numbers(|ts|)[..checked]))
  {
    assert forall k | 0 <= k < |ts| :: allocated(Nodes(ts[k]));
    solved, option, checked := TryToSolveAmbiguityGeneric(ds, dest, cb, Numbers(|a.ambig|));
    forall k | 0 <= k < |ts| ensures InterpretationAt(a, ts, k) {
      assert old(InterpretationAt(a, ts, k));
    }
  }

  /** try_to_solve_ambiguity_generic with its replacement of the node: unless one interpretation is
      chosen the node stays an ambiguity, but the messages of the checks are received. */
  method TryToSolveAmbiguity(a: Ast, ds: Stack, ghost dest: Context, cb: Callbacks<nat>, ghost ts: seq<Tree>)
    returns (solved: bool, ghost option: nat)
    requires Interpretations(a, ts)
    requires ds.Valid() && ds.Current() == dest && dest.Valid() && dest.live
    modifies dest, a, AllReached(ts)`parent
    ensures solved <==> Select(cb, Numbers(|ts|), |ts|).Chosen?
    ensures solved ==> Select(cb, Numbers(|ts|), |ts|) == Chosen(option) && option < |ts|
    ensures solved ==> ts[option].Node? && Became(a, ts[option])
    ensures !solved ==> Interpretations(a, ts) && unchanged(a)
    ensures a.parent == old(a.parent) && ds.Valid() && dest.Valid() && dest.live
    ensures var xs := Numbers(|ts|);
            dest.Log() == ReceivedAll(dest.kind, old(dest.Log()), AllSay(cb, xs[..Checked(cb, xs, |xs|)]))
  {
    assert forall k | 0 <= k < |ts| :: allocated(Nodes(ts[k]));
    var index, checked;
    solved, index, checked := TryToChoose(a, ds, dest, cb, ts);
    option := index;
    Repair(a, checked, solved, index, ts);
  }
}
