/** Runs of the pointer hash table as its callers use it. */
module DhashRun {
  import opened Dhash

  datatype Op = Insert(key: Pointer, info: Pointer) | Remove(key: Pointer) | Query(key: Pointer)

  ghost function Apply(m: map<Pointer, Pointer>, op: Op): map<Pointer, Pointer> {
    match op
    case Insert(k, v) => m[k := v]
    case Remove(k) => m - {k}
    case Query(_) => m
  }

  /** The contents after a run, oldest operation first, on an empty table. */
  ghost function Run(ops: seq<Op>): map<Pointer, Pointer> {
    if ops == [] then map[] else Apply(Run(ops[..|ops| - 1]), ops[|ops| - 1])
  }

  /** The info that the last insertion of `k` gave it, or null if it was removed since, or never there. */
  ghost function LastWrite(ops: seq<Op>, k: Pointer): Address {
    if ops == [] then NULL
    else if !ops[|ops| - 1].Query? && ops[|ops| - 1].key == k then
      if ops[|ops| - 1].Insert? then ops[|ops| - 1].info else NULL
    else LastWrite(ops[..|ops| - 1], k)
  }

  lemma {:induction false} RunIsLastWrite(ops: seq<Op>, k: Pointer)
    ensures k in Run(ops) <==> LastWrite(ops, k) != NULL
    ensures k in Run(ops) ==> Run(ops)[k] == LastWrite(ops, k)
  {
    if ops != [] { RunIsLastWrite(ops[..|ops| - 1], k); }
  }

  /** The objects of a table. */
  ghost function Footprint(t: Table): set<object>
    reads t
  {
    {t, t.buckets} + t.view.cells
  }

  /** One operation on the table. */
  method Do(t: Table, op: Op) returns (answer: Address)
    requires t.Valid()
    modifies Footprint(t)
    ensures t.Valid() && fresh(Footprint(t) - old(Footprint(t)))
    ensures t.view.contents == Apply(old(t.view.contents), op)
    ensures op.Query? ==> answer == if op.key in t.view.contents then t.view.contents[op.key] else NULL
  {
    answer := NULL;
    match op
    case Insert(k, v) => t.Insert(k, v);
    case Remove(k) => t.Remove(k);
    case Query(k) => answer := t.Query(k);
  }

  /** Every query so far was answered with the last write to its key before it. */
  ghost predicate Answered(ops: seq<Op>, answers: seq<Address>) {
    && |answers| <= |ops|
    && forall i {:trigger answers[i]} | 0 <= i < |answers| && ops[i].Query? ::
         answers[i] == LastWrite(ops[..i], ops[i].key)
  }

  /** Operation number `n` of a run. */
  method Step(t: Table, ops: seq<Op>, n: nat) returns (answer: Address)
    requires t.Valid() && n < |ops| && t.view.contents == Run(ops[..n])
    modifies Footprint(t)
    ensures t.Valid() && fresh(Footprint(t) - old(Footprint(t)))
    ensures t.view.contents == Run(ops[..n + 1])
    ensures ops[n].Query? ==> answer == LastWrite(ops[..n], ops[n].key)
  {
    assert ops[..n + 1][..n] == ops[..n];
    RunIsLastWrite(ops[..n], ops[n].key);
    answer := Do(t, ops[n]);
  }

  lemma AnsweredMore(ops: seq<Op>, answers: seq<Address>, answer: Address)
    requires Answered(ops, answers) && |answers| < |ops|
    requires var op := ops[|answers|]; op.Query? ==> answer == LastWrite(ops[..|answers|], op.key)
    ensures Answered(ops, answers + [answer])
  {
  }

  /** The operations one after the other, on a table without bindings. */
  method DoAll(t: Table, ops: seq<Op>) returns (answers: seq<Address>)
    requires t.Valid() && t.view.contents == map[]
    modifies Footprint(t)
    ensures t.Valid() && t.view.contents == Run(ops)
    ensures |answers| == |ops| && Answered(ops, answers)
  {
    answers := [];
    ghost var footprint := Footprint(t);
    var n := 0;
    while n < |ops|
      invariant n == |answers| <= |ops| && Answered(ops, answers)
      invariant t.Valid() && t.view.contents == Run(ops[..n])
      invariant forall o | o in Footprint(t) :: o in footprint || fresh(o)
    {
      var answer := Step(t, ops, n);
      AnsweredMore(ops, answers, answer);
      answers := answers + [answer];
      n := n + 1;
    }
    assert ops[..|ops|] == ops;
  }

  /** Any run on a new table of any size, with any hash: through all the growths the table holds the
      bindings of the run, every query is answered with the last write to its key, and a final walk
      meets every binding once. */
  method RunOps(hash: Pointer -> nat, initialSize: nat, ops: seq<Op>)
    returns (t: Table, answers: seq<Address>, walked: seq<(Pointer, Pointer)>)
    ensures t.Valid() && t.view.contents == Run(ops) && Enumerates(walked, Run(ops))
    ensures |answers| == |ops| && Answered(ops, answers)
    ensures forall k: Pointer, v: Pointer :: (k, v) in walked <==> LastWrite(ops, k) == v
  {
    t := new Table(hash, initialSize);
    answers := DoAll(t, ops);
    walked := t.Walk();
    WalkedIsLastWrite(ops, walked);
  }

  lemma WalkedIsLastWrite(ops: seq<Op>, walked: seq<(Pointer, Pointer)>)
    requires Enumerates(walked, Run(ops))
    ensures forall k: Pointer, v: Pointer :: (k, v) in walked <==> LastWrite(ops, k) == v
  {
    EnumeratesAll(walked, Run(ops));
    forall k: Pointer, v: Pointer ensures (k, v) in walked <==> LastWrite(ops, k) == v {
      RunIsLastWrite(ops, k);
    }
  }
}
