/** Chained buckets: the heap part of the two hash tables. */
module Chains {

  class Cell<K, V> {
    const key: K
    var value: V
    var next: Cell?<K, V>

    constructor (key: K, value: V)
      ensures this.key == key && this.value == value
    {
      this.key, this.value, this.next := key, value, null;
    }
  }

  ghost function At<K, V>(cs: seq<Cell<K, V>>, i: nat): Cell?<K, V> {
    if i < |cs| then cs[i] else null
  }

  /** The cells reached from `head` are `cs`, in this order. */
  ghost predicate IsChain<K, V>(head: Cell?<K, V>, cs: seq<Cell<K, V>>)
    reads (set c | c in cs)`next
  {
    && head == At(cs, 0)
    && forall i {:trigger cs[i].next} | 0 <= i < |cs| :: cs[i].next == At(cs, i + 1)
  }

  /** A chain that ends never comes twice to the same cell. */
  lemma {:induction false} ChainNoDup<K, V>(head: Cell?<K, V>, cs: seq<Cell<K, V>>, i: nat, j: nat)
    requires IsChain(head, cs) && i < j < |cs|
    ensures cs[i] != cs[j]
    decreases |cs| - j
  {
    if cs[i] == cs[j] {
      assert cs[i].next == cs[i + 1] && cs[j].next == At(cs, j + 1);
      ChainNoDup(head, cs, i + 1, j + 1);
    }
  }

  ghost function Without<T>(s: seq<T>, i: nat): seq<T>
    requires i < |s|
  {
    s[..i] + s[i + 1..]
  }

  lemma NotWithout<K, V>(head: Cell?<K, V>, cs: seq<Cell<K, V>>, i: nat)
    requires IsChain(head, cs) && i < |cs|
    ensures cs[i] !in Without(cs, i)
  {
    var ds := Without(cs, i);
    forall k | 0 <= k < |ds| ensures ds[k] != cs[i] {
      if k < i { ChainNoDup(head, cs, k, i); } else { ChainNoDup(head, cs, i, k + 1); }
    }
  }

  /** Unlinks cell `i`, whose predecessor is `prev`. */
  method Unlink<K, V>(prev: Cell<K, V>, p: Cell<K, V>, ghost head: Cell?<K, V>, ghost cs: seq<Cell<K, V>>, ghost i: nat)
    requires IsChain(head, cs) && 0 < i < |cs| && p == cs[i] && prev == cs[i - 1]
    modifies prev`next
    ensures IsChain(head, Without(cs, i)) && p.next == old(p.next) && p !in Without(cs, i)
  {
    forall j, k | 0 <= j < k < |cs| ensures cs[j] != cs[k] { ChainNoDup(head, cs, j, k); }
    prev.next := p.next;
    ghost var ds := Without(cs, i);
    forall k | 0 <= k < |ds| ensures ds[k].next == At(ds, k + 1) {
      assert ds[k] == cs[if k < i then k else k + 1];
    }
  }

  /** A cell that is not in the chain becomes its first cell. */
  method PushFront<K, V>(p: Cell<K, V>, head: Cell?<K, V>, ghost cs: seq<Cell<K, V>>)
    requires IsChain(head, cs) && p !in cs
    modifies p`next
    ensures IsChain(p, [p] + cs)
  {
    p.next := head;
    ghost var ds := [p] + cs;
    forall k | 0 <= k < |ds| ensures ds[k].next == At(ds, k + 1) {
      if k > 0 { assert ds[k] == cs[k - 1]; }
    }
  }

  /** Moves cell `i`, not the first one, to the front: the chain is only permuted. */
  method MoveToFront<K, V>(prev: Cell<K, V>, p: Cell<K, V>, head: Cell?<K, V>, ghost cs: seq<Cell<K, V>>, ghost i: nat)
    requires IsChain(head, cs) && 0 < i < |cs| && p == cs[i] && prev == cs[i - 1]
    modifies prev`next, p`next
    ensures IsChain(p, [p] + Without(cs, i))
  {
    Unlink(prev, p, head, cs, i);
    PushFront(p, head, Without(cs, i));
  }

  lemma FrontPermutes<T>(s: seq<T>, i: nat)
    requires i < |s|
    ensures multiset([s[i]] + Without(s, i)) == multiset(s)
  {
    assert s == s[..i] + [s[i]] + s[i + 1..];
  }

  lemma FrontMembers<T>(s: seq<T>, i: nat)
    requires i < |s|
    ensures forall c :: c in [s[i]] + Without(s, i) <==> c in s
  {
  }

  /** `cells` are the cells of the chains, each in the one that its key selects. */
  ghost predicate Placed<K, V>(home: K -> nat, chains: seq<seq<Cell<K, V>>>, cells: set<Cell<K, V>>) {
    && (forall b, c {:trigger c in chains[b]} | 0 <= b < |chains| && c in chains[b] :: c in cells && home(c.key) == b)
    && (forall c {:trigger c in cells} | c in cells :: home(c.key) < |chains| && c in chains[home(c.key)])
  }

  /** `buckets` holds the heads of the chains `chains`, made of `cells`. */
  ghost predicate IsTable<K, V>(home: K -> nat, buckets: array<Cell?<K, V>>, chains: seq<seq<Cell<K, V>>>,
                                cells: set<Cell<K, V>>)
    reads buckets, cells`next
  {
    && |chains| == buckets.Length
    && Placed(home, chains, cells)
    && forall b {:trigger chains[b]} | 0 <= b < |chains| :: IsChain(buckets[b], chains[b])
  }

  /** Moves cell `i` of chain `b` to the front of its chain. */
  method Promote<K, V>(ghost home: K -> nat, buckets: array<Cell?<K, V>>, b: nat, prev: Cell<K, V>, p: Cell<K, V>,
                       ghost chains: seq<seq<Cell<K, V>>>, ghost cells: set<Cell<K, V>>, ghost i: nat)
    requires IsTable(home, buckets, chains, cells) && b < |chains|
    requires 0 < i < |chains[b]| && p == chains[b][i] && prev == chains[b][i - 1]
    modifies buckets, prev`next, p`next
    ensures IsTable(home, buckets, chains[b := [p] + Without(chains[b], i)], cells)
  {
    ghost var cs := [p] + Without(chains[b], i);
    assert forall c :: c in cs <==> c in chains[b] by { FrontMembers(chains[b], i); }
    assert prev in chains[b] && p in chains[b];
    MoveToFront(prev, p, buckets[b], chains[b], i);
    buckets[b] := p;
    forall b' {:trigger chains[b']} | 0 <= b' < |chains| && b' != b ensures IsChain(buckets[b'], chains[b']) {
      assert old(IsChain(buckets[b'], chains[b']));
      assert forall c | c in chains[b'] :: home(c.key) == b';
    }
  }

  /** A new cell becomes the first one of its chain. */
  method Push<K, V>(ghost home: K -> nat, buckets: array<Cell?<K, V>>, b: nat, p: Cell<K, V>,
                    ghost chains: seq<seq<Cell<K, V>>>, ghost cells: set<Cell<K, V>>)
    requires IsTable(home, buckets, chains, cells) && b < |chains| && home(p.key) == b && p !in cells
    modifies buckets, p`next
    ensures IsTable(home, buckets, chains[b := [p] + chains[b]], cells + {p})
  {
    PushFront(p, buckets[b], chains[b]);
    buckets[b] := p;
  }

  /** Unlinks cell `i` of chain `b`, through its predecessor or the bucket itself. */
  method RemoveAt<K, V>(ghost home: K -> nat, buckets: array<Cell?<K, V>>, b: nat, prev: Cell?<K, V>, p: Cell<K, V>,
                        ghost chains: seq<seq<Cell<K, V>>>, ghost cells: set<Cell<K, V>>, ghost i: nat)
    requires IsTable(home, buckets, chains, cells) && b < |chains|
    requires i < |chains[b]| && p == chains[b][i] && prev == (if i == 0 then null else chains[b][i - 1])
    modifies buckets, cells`next
    ensures IsTable(home, buckets, chains[b := Without(chains[b], i)], cells - {p})
  {
    ghost var cs := Without(chains[b], i);
    assert forall c :: c in chains[b] <==> c == p || c in cs by { FrontMembers(chains[b], i); }
    assert p !in cs by { NotWithout(buckets[b], chains[b], i); }
    assert p in chains[b];
    if prev == null {
      buckets[b] := p.next;
      assert forall k | 0 <= k < |cs| :: cs[k] == chains[b][k + 1];
    } else {
      assert prev in chains[b];
      Unlink(prev, p, buckets[b], chains[b], i);
    }
    forall b' {:trigger chains[b']} | 0 <= b' < |chains| && b' != b ensures IsChain(buckets[b'], chains[b']) {
      assert old(IsChain(buckets[b'], chains[b']));
      assert forall c | c in chains[b'] :: home(c.key) == b';
    }
  }
}
