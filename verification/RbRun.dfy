/** Runs of the red-black tree as its callers use it: insertions, deletions by key, and queries. */
module RbRun {
  import opened Wrappers
  import opened RbShape
  import opened RbLinks
  import opened RbMap
  import opened RbTree

  /** The nodes of the tree, its root sentinel included. */
  ghost function CellsOf(t: Tree): set<RbNode>
    reads t
  {
    Cells(Top, t.shape, t.S())
  }

  /** A deletion by key: rb_tree_query, and rb_tree_delete of the node that it finds. */
  method DeleteKey(t: Tree, key: Address)
    requires t.Valid()
    modifies t`shape, CellsOf(t)`red, CellsOf(t)`left, CellsOf(t)`right, CellsOf(t)`parent, t.nil`red, t.nil`parent
    ensures t.Valid() && t.Contents() == Remove(t.comp, old(t.Contents()), key)
    ensures CellsOf(t) <= old(CellsOf(t))
  {
    ghost var es := t.Contents();
    var node, calls := t.Query(key);
    if node == null {
      Absent(t, key);
    } else {
      RemoveSameClass(t.comp, es, node.key, key);
      t.Delete(node);
    }
  }

  lemma Absent(t: Tree, key: Address)
    requires forall n | n in InOrder(t.shape) :: t.comp(n.key, key) != 0
    ensures Remove(t.comp, t.Contents(), key) == t.Contents()
  {
    var order, es := InOrder(t.shape), t.Contents();
    forall e | e in es ensures t.comp(e.key, key) != 0 {
      var i :| 0 <= i < |es| && es[i] == e;
      assert order[i] in order;
    }
    RemoveAbsent(t.comp, es, key);
  }

  /** What a query gives its caller. */
  method Lookup(t: Tree, key: Address) returns (answer: Option<Address>)
    requires t.Valid()
    ensures t.Valid() && t.Contents() == old(t.Contents())
    ensures answer == Get(t.comp, t.Contents(), key)
  {
    var node, calls := t.Query(key);
    t.QueryIsGet(key, node);
    answer := if node == null then None else Some(node.info);
  }

  /** One operation on the tree. */
  method Do(t: Tree, op: Op) returns (answer: Option<Address>)
    requires t.Valid()
    modifies t`shape, CellsOf(t), t.nil`red, t.nil`parent
    ensures t.Valid() && fresh(CellsOf(t) - old(CellsOf(t)))
    ensures t.Contents() == Apply(t.comp, old(t.Contents()), op)
    ensures op.Query? ==> answer == Get(t.comp, t.Contents(), op.key)
  {
    answer := None;
    match op
    case Insert(k, v) => var node := t.Insert(k, v);
    case Delete(k) => DeleteKey(t, k);
    case Query(k) => answer := Lookup(t, k);
  }

  /** Operation number `n` of a run. */
  method Step(t: Tree, ops: seq<Op>, n: nat) returns (answer: Option<Address>)
    requires t.Valid() && n < |ops| && t.Contents() == Run(t.comp, ops[..n])
    modifies t`shape, CellsOf(t), t.nil`red, t.nil`parent
    ensures t.Valid() && fresh(CellsOf(t) - old(CellsOf(t)))
    ensures t.Contents() == Run(t.comp, ops[..n + 1])
    ensures ops[n].Query? ==> answer == LastWrite(t.comp, ops[..n], ops[n].key)
  {
    assert ops[..n + 1][..n] == ops[..n];
    RunIsMap(t.comp, ops[..n], ops[n].key);
    answer := Do(t, ops[n]);
  }

  /** Every query so far was answered with the last write to its class before it. */
  ghost predicate Answered(comp: Comparator, ops: seq<Op>, answers: seq<Option<Address>>) {
    && |answers| <= |ops|
    && forall i {:trigger answers[i]} | 0 <= i < |answers| && ops[i].Query? ::
         answers[i] == LastWrite(comp, ops[..i], ops[i].key)
  }

  lemma RunIsMapAll(comp: Comparator, ops: seq<Op>)
    requires TotalPreorder(comp)
    ensures Increasing(comp, Run(comp, ops))
    ensures forall q :: Get(comp, Run(comp, ops), q) == LastWrite(comp, ops, q)
  {
    RunIsMap(comp, ops, 0);
    forall q ensures Get(comp, Run(comp, ops), q) == LastWrite(comp, ops, q) {
      RunIsMap(comp, ops, q);
    }
  }

  /** The operations one after the other, on a tree without bindings. */
  method DoAll(t: Tree, ops: seq<Op>) returns (answers: seq<Option<Address>>)
    requires t.Valid() && t.Contents() == []
    modifies t`shape, CellsOf(t), t.nil`red, t.nil`parent
    ensures t.Valid() && t.Contents() == Run(t.comp, ops)
    ensures |answers| == |ops| && Answered(t.comp, ops, answers)
  {
    answers := [];
    ghost var cells := CellsOf(t);
    var n := 0;
    while n < |ops|
      invariant n == |answers| <= |ops| && Answered(t.comp, ops, answers)
      invariant t.Valid() && t.Contents() == Run(t.comp, ops[..n])
      invariant fresh(CellsOf(t) - cells)
    {
      var answer := Step(t, ops, n);
      AnsweredMore(t.comp, ops, answers, answer);
      answers := answers + [answer];
      n := n + 1;
    }
    assert ops[..|ops|] == ops;
  }

  lemma AnsweredMore(comp: Comparator, ops: seq<Op>, answers: seq<Option<Address>>, answer: Option<Address>)
    requires Answered(comp, ops, answers) && |answers| < |ops|
    requires var op := ops[|answers|]; op.Query? ==> answer == LastWrite(comp, ops[..|answers|], op.key)
    ensures Answered(comp, ops, answers + [answer])
  {
  }

  /** Any run on a new tree: it stays a red-black tree with the bindings of the run, every query
      is answered with the last write to its class, and a final walk meets the bindings in order. */
  method RunOps(comp: Comparator, ops: seq<Op>)
    returns (t: Tree, answers: seq<Option<Address>>, walked: seq<Entry>)
    requires TotalPreorder(comp)
    ensures t.Valid() && t.comp == comp && t.Contents() == walked == Run(comp, ops)
    ensures |answers| == |ops| && Answered(comp, ops, answers)
    ensures Increasing(comp, walked) && forall q :: Get(comp, walked, q) == LastWrite(comp, ops, q)
  {
    t := new Tree(comp);
    answers := DoAll(t, ops);
    walked := t.Walk();
    RunIsMapAll(comp, ops);
  }
}
