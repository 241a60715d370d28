/** What a red-black tree is for: a finite map on the comparator's equivalence classes.
    The bindings are a list of entries in strictly increasing key order. */
module RbMap {
  import opened Wrappers
  import opened RbShape

  datatype Entry = Entry(key: Address, info: Address)

  ghost predicate Increasing(comp: Comparator, es: seq<Entry>) {
    forall i, j {:trigger Less(comp, es[i].key, es[j].key)} | 0 <= i < j < |es| :: Less(comp, es[i].key, es[j].key)
  }

  /** The info bound to the class of `q`. */
  ghost function Get(comp: Comparator, es: seq<Entry>, q: Address): Option<Address> {
    if es == [] then None
    else if comp(es[0].key, q) == 0 then Some(es[0].info)
    else Get(comp, es[1..], q)
  }

  /** rb_tree_insert: a present key keeps its key and gets the new info, an absent key
      gets a new entry at its ordered place. */
  ghost function Put(comp: Comparator, es: seq<Entry>, key: Address, info: Address): seq<Entry> {
    if es == [] then [Entry(key, info)]
    else if comp(es[0].key, key) < 0 then [es[0]] + Put(comp, es[1..], key, info)
    else if comp(es[0].key, key) == 0 then [Entry(es[0].key, info)] + es[1..]
    else [Entry(key, info)] + es
  }

  /** rb_tree_delete of the entry found by a query, if there is one. */
  ghost function Remove(comp: Comparator, es: seq<Entry>, key: Address): seq<Entry> {
    if es == [] then []
    else if comp(es[0].key, key) == 0 then es[1..]
    else [es[0]] + Remove(comp, es[1..], key)
  }

  lemma ConsIncreasing(comp: Comparator, x: Entry, es: seq<Entry>)
    requires Increasing(comp, es) && forall e | e in es :: comp(x.key, e.key) < 0
    ensures Increasing(comp, [x] + es)
  {
  }

  lemma HeadIncreasing(comp: Comparator, es: seq<Entry>)
    requires Increasing(comp, es) && es != []
    ensures Increasing(comp, es[1..])
    ensures forall e | e in es[1..] :: e in es && comp(es[0].key, e.key) < 0
  {
    var s := es[1..];
    forall i, j | 0 <= i < j < |s| ensures Less(comp, s[i].key, s[j].key) {
      assert Less(comp, es[i + 1].key, es[j + 1].key);
    }
    forall e | e in s ensures e in es && comp(es[0].key, e.key) < 0 {
      var i :| 0 <= i < |s| && s[i] == e;
      assert es[i + 1] == e && Less(comp, es[0].key, es[i + 1].key);
    }
  }

  lemma {:induction false} GetAbove(comp: Comparator, es: seq<Entry>, q: Address)
    requires TotalPreorder(comp) && Increasing(comp, es)
    requires es != [] ==> comp(es[0].key, q) > 0
    ensures Get(comp, es, q) == None
  {
    if es != [] {
      HeadIncreasing(comp, es);
      if |es| > 1 { assert es[1..][0] in es[1..]; }
      GetAbove(comp, es[1..], q);
    }
  }

  lemma {:induction false} GetPut(comp: Comparator, es: seq<Entry>, k: Address, v: Address, q: Address)
    requires TotalPreorder(comp) && Increasing(comp, es)
    ensures Get(comp, Put(comp, es, k, v), q) == if comp(k, q) == 0 then Some(v) else Get(comp, es, q)
  {
    if es != [] {
      if comp(es[0].key, k) < 0 {
        GetPut(comp, es[1..], k, v, q);
        assert Put(comp, es, k, v)[1..] == Put(comp, es[1..], k, v);
      } else if comp(es[0].key, k) == 0 {
        assert Put(comp, es, k, v)[1..] == es[1..];
      } else {
        assert Put(comp, es, k, v)[1..] == es;
        if comp(k, q) == 0 { GetAbove(comp, es, q); }
      }
    }
  }

  lemma {:induction false} PutIncreasing(comp: Comparator, es: seq<Entry>, k: Address, v: Address)
    requires TotalPreorder(comp) && Increasing(comp, es)
    ensures Increasing(comp, Put(comp, es, k, v))
    ensures forall e | e in Put(comp, es, k, v) :: comp(e.key, k) == 0 || e in es
  {
    if es == [] {
    } else if comp(es[0].key, k) < 0 {
      HeadIncreasing(comp, es);
      PutIncreasing(comp, es[1..], k, v);
      ConsIncreasing(comp, es[0], Put(comp, es[1..], k, v));
    } else {
      HeadIncreasing(comp, es);
      if comp(es[0].key, k) == 0 {
        ConsIncreasing(comp, Entry(es[0].key, v), es[1..]);
      } else {
        forall e | e in es ensures comp(k, e.key) < 0 {
          assert e == es[0] || e in es[1..];
        }
        ConsIncreasing(comp, Entry(k, v), es);
      }
    }
  }

  lemma {:induction false} GetRemove(comp: Comparator, es: seq<Entry>, k: Address, q: Address)
    requires TotalPreorder(comp) && Increasing(comp, es)
    ensures Get(comp, Remove(comp, es, k), q) == if comp(k, q) == 0 then None else Get(comp, es, q)
  {
    if es != [] {
      if comp(es[0].key, k) == 0 {
        HeadIncreasing(comp, es);
        if |es| > 1 { assert es[1..][0] in es[1..]; }
        if comp(k, q) == 0 { GetAbove(comp, es[1..], q); }
      } else {
        GetRemove(comp, es[1..], k, q);
        assert Remove(comp, es, k)[1..] == Remove(comp, es[1..], k);
      }
    }
  }

  lemma {:induction false} RemoveIncreasing(comp: Comparator, es: seq<Entry>, k: Address)
    requires TotalPreorder(comp) && Increasing(comp, es)
    ensures Increasing(comp, Remove(comp, es, k))
    ensures forall e | e in Remove(comp, es, k) :: e in es
  {
    if es != [] {
      HeadIncreasing(comp, es);
      if comp(es[0].key, k) != 0 {
        RemoveIncreasing(comp, es[1..], k);
        ConsIncreasing(comp, es[0], Remove(comp, es[1..], k));
      }
    }
  }

  /** A removal looks at the class of the key only. */
  lemma {:induction false} RemoveSameClass(comp: Comparator, es: seq<Entry>, k: Address, k': Address)
    requires TotalPreorder(comp) && comp(k, k') == 0
    ensures Remove(comp, es, k) == Remove(comp, es, k')
  {
    if es != [] { RemoveSameClass(comp, es[1..], k, k'); }
  }

  lemma {:induction false} RemoveAbsent(comp: Comparator, es: seq<Entry>, k: Address)
    requires forall e | e in es :: comp(e.key, k) != 0
    ensures Remove(comp, es, k) == es
  {
    if es != [] { RemoveAbsent(comp, es[1..], k); }
  }

  // ----- the same operations by position

  lemma {:induction false} PutBetween(comp: Comparator, a: seq<Entry>, b: seq<Entry>, k: Address, v: Address)
    requires TotalPreorder(comp)
    requires (forall e | e in a :: comp(e.key, k) < 0) && (forall e | e in b :: comp(e.key, k) > 0)
    ensures Put(comp, a + b, k, v) == a + [Entry(k, v)] + b
  {
    if a == [] {
      assert a + b == b;
    } else {
      PutBetween(comp, a[1..], b, k, v);
      assert (a + b)[1..] == a[1..] + b;
      assert a + [Entry(k, v)] + b == [a[0]] + (a[1..] + [Entry(k, v)] + b);
    }
  }

  lemma {:induction false} PutOver(comp: Comparator, a: seq<Entry>, e: Entry, b: seq<Entry>, v: Address, k: Address)
    requires comp(e.key, k) == 0 && forall x | x in a :: comp(x.key, k) < 0
    ensures Put(comp, a + [e] + b, k, v) == a + [Entry(e.key, v)] + b
  {
    var es := a + [e] + b;
    if a == [] {
      assert es[1..] == b;
    } else {
      PutOver(comp, a[1..], e, b, v, k);
      assert es[1..] == a[1..] + [e] + b;
      assert a + [Entry(e.key, v)] + b == [a[0]] + (a[1..] + [Entry(e.key, v)] + b);
    }
  }

  lemma {:induction false} RemoveFrom(comp: Comparator, a: seq<Entry>, e: Entry, b: seq<Entry>, k: Address)
    requires comp(e.key, k) == 0 && forall x | x in a :: comp(x.key, k) < 0
    ensures Remove(comp, a + [e] + b, k) == a + b
  {
    var es := a + [e] + b;
    if a == [] {
      assert es[1..] == b && a + b == b;
    } else {
      RemoveFrom(comp, a[1..], e, b, k);
      assert es[1..] == a[1..] + [e] + b;
      assert a + b == [a[0]] + (a[1..] + b);
    }
  }

  lemma {:induction false} GetAt(comp: Comparator, es: seq<Entry>, i: nat, q: Address)
    requires TotalPreorder(comp) && Increasing(comp, es)
    requires i < |es| && comp(es[i].key, q) == 0
    ensures Get(comp, es, q) == Some(es[i].info)
  {
    if i > 0 {
      HeadIncreasing(comp, es);
      assert es[1..][i - 1] in es[1..];
      GetAt(comp, es[1..], i - 1, q);
    }
  }

  lemma {:induction false} GetNowhere(comp: Comparator, es: seq<Entry>, q: Address)
    requires forall e | e in es :: comp(e.key, q) != 0
    ensures Get(comp, es, q) == None
  {
    if es != [] { GetNowhere(comp, es[1..], q); }
  }

  // ----- the entries that a list of nodes holds

  ghost function Entries(s: seq<RbNode>): (es: seq<Entry>)
    reads (set n | n in s)`info
    ensures |es| == |s| && forall i | 0 <= i < |s| :: es[i] == Entry(s[i].key, s[i].info)
  {
    if s == [] then [] else [Entry(s[0].key, s[0].info)] + Entries(s[1..])
  }

  /** Put and remove look at the class of the key only, when the class is present. */
  lemma {:induction false} PutSameClass(comp: Comparator, es: seq<Entry>, k: Address, k': Address, v: Address)
    requires TotalPreorder(comp) && comp(k, k') == 0 && exists e | e in es :: comp(e.key, k) == 0
    requires Increasing(comp, es)
    ensures Put(comp, es, k, v) == Put(comp, es, k', v)
  {
    var e :| e in es && comp(e.key, k) == 0;
    if e != es[0] {
      HeadIncreasing(comp, es);
      assert e in es[1..];
      PutSameClass(comp, es[1..], k, k', v);
    }
  }

  /** The entry of node number `i` is overwritten. */
  lemma PutThere(comp: Comparator, s: seq<RbNode>, es: seq<Entry>, i: nat, k: Address, v: Address)
    requires TotalPreorder(comp) && Sorted(comp, s) && |es| == |s|
    requires forall j | 0 <= j < |s| :: es[j].key == s[j].key
    requires i < |s| && comp(s[i].key, k) == 0
    ensures Put(comp, es, k, v) == es[i := Entry(s[i].key, v)]
    ensures forall j | 0 <= j < |s| && j != i :: s[j] != s[i]
  {
    SortedDistinct(comp, s);
    var a, b := es[..i], es[i + 1..];
    assert es == a + [es[i]] + b;
    assert es[i := Entry(s[i].key, v)] == a + [Entry(s[i].key, v)] + b;
    forall e | e in a ensures comp(e.key, k) < 0 {
      var j :| 0 <= j < |a| && a[j] == e;
      assert Less(comp, s[j].key, s[i].key);
    }
    PutOver(comp, a, es[i], b, v, k);
  }

  /** A new node enters between the nodes `a` and the nodes `b`. */
  lemma PutNew(comp: Comparator, a: seq<RbNode>, b: seq<RbNode>, es: seq<Entry>, k: Address, v: Address)
    requires TotalPreorder(comp)
    requires (forall n | n in a :: comp(n.key, k) < 0) && (forall n | n in b :: comp(n.key, k) > 0)
    requires |es| == |a + b| && forall j | 0 <= j < |es| :: es[j].key == (a + b)[j].key
    ensures Put(comp, es, k, v) == es[..|a|] + [Entry(k, v)] + es[|a|..]
  {
    var ea, eb := es[..|a|], es[|a|..];
    assert es == ea + eb;
    assert forall j | 0 <= j < |ea| :: ea[j].key == a[j].key;
    assert forall j | 0 <= j < |eb| :: eb[j].key == b[j].key;
    PutBetween(comp, ea, eb, k, v);
  }

  lemma EntriesInsert(a: seq<RbNode>, z: RbNode, b: seq<RbNode>)
    ensures Entries(a + [z] + b) == Entries(a + b)[..|a|] + [Entry(z.key, z.info)] + Entries(a + b)[|a|..]
  {
  }

  /** The entry of a node that leaves the order is removed. */
  lemma RemoveThere(comp: Comparator, t: seq<RbNode>, z: RbNode, s: seq<RbNode>)
    requires TotalPreorder(comp) && Sorted(comp, s) && OneMore(t, z, s)
    ensures Entries(t) == Remove(comp, Entries(s), z.key)
  {
    var i :| 0 <= i < |s| && s[i] == z && t == s[..i] + s[i + 1..];
    RemoveAt(comp, s, i);
  }

  lemma RemoveAt(comp: Comparator, s: seq<RbNode>, i: nat)
    requires TotalPreorder(comp) && Sorted(comp, s) && i < |s|
    ensures Entries(s[..i] + s[i + 1..]) == Remove(comp, Entries(s), s[i].key)
  {
    SplitEntries(s, i);
    LessBefore(comp, s, i);
    RemoveFrom(comp, Entries(s[..i]), Entry(s[i].key, s[i].info), Entries(s[i + 1..]), s[i].key);
    EntriesConcat(s[..i], s[i + 1..]);
  }

  lemma LessBefore(comp: Comparator, s: seq<RbNode>, i: nat)
    requires Sorted(comp, s) && i < |s|
    ensures forall e | e in Entries(s[..i]) :: comp(e.key, s[i].key) < 0
  {
    var a := Entries(s[..i]);
    forall e | e in a ensures comp(e.key, s[i].key) < 0 {
      var j :| 0 <= j < |a| && a[j] == e;
      assert s[..i][j] == s[j] && Less(comp, s[j].key, s[i].key);
    }
  }

  lemma EntriesConcat(a: seq<RbNode>, b: seq<RbNode>)
    ensures Entries(a + b) == Entries(a) + Entries(b)
  {
  }

  lemma EntriesAround(a: seq<RbNode>, z: RbNode, b: seq<RbNode>)
    ensures Entries(a + [z] + b) == Entries(a) + [Entry(z.key, z.info)] + Entries(b)
  {
  }

  lemma SplitEntries(s: seq<RbNode>, i: nat)
    requires i < |s|
    ensures Entries(s) == Entries(s[..i]) + [Entry(s[i].key, s[i].info)] + Entries(s[i + 1..])
  {
    EntriesConcat(s[..i], s[i..]);
    assert s[..i] + s[i..] == s && s[i..][1..] == s[i + 1..];
    assert Entries(s[i..]) == [Entry(s[i].key, s[i].info)] + Entries(s[i + 1..]);
  }

  // ----- runs

  datatype Op = Insert(key: Address, info: Address) | Delete(key: Address) | Query(key: Address)

  ghost function Apply(comp: Comparator, es: seq<Entry>, op: Op): seq<Entry> {
    match op
    case Insert(k, v) => Put(comp, es, k, v)
    case Delete(k) => Remove(comp, es, k)
    case Query(_) => es
  }

  /** The bindings after a run, oldest operation first, from an empty tree. */
  ghost function Run(comp: Comparator, ops: seq<Op>): seq<Entry> {
    if ops == [] then [] else Apply(comp, Run(comp, ops[..|ops| - 1]), ops[|ops| - 1])
  }

  /** The map that a run defines: the last insertion or deletion on the class of `q` decides. */
  ghost function LastWrite(comp: Comparator, ops: seq<Op>, q: Address): Option<Address> {
    if ops == [] then None
    else if !ops[|ops| - 1].Query? && comp(ops[|ops| - 1].key, q) == 0 then
      if ops[|ops| - 1].Insert? then Some(ops[|ops| - 1].info) else None
    else LastWrite(comp, ops[..|ops| - 1], q)
  }

  /** Over every run the entries stay strictly ordered and agree with the map. */
  lemma {:induction false} RunIsMap(comp: Comparator, ops: seq<Op>, q: Address)
    requires TotalPreorder(comp)
    ensures Increasing(comp, Run(comp, ops))
    ensures Get(comp, Run(comp, ops), q) == LastWrite(comp, ops, q)
  {
    if ops != [] {
      var es, op := Run(comp, ops[..|ops| - 1]), ops[|ops| - 1];
      RunIsMap(comp, ops[..|ops| - 1], q);
      match op
      case Insert(k, v) => PutIncreasing(comp, es, k, v); GetPut(comp, es, k, v, q);
      case Delete(k) => RemoveIncreasing(comp, es, k); GetRemove(comp, es, k, q);
      case Query(_) =>
    }
  }
}
