/** The growing hash table on pointers. */
module Dhash {
  import opened Chains

  type Address = nat
  const NULL: Address := 0

  /** A pointer that is not null. */
  type Pointer = a: Address | a != NULL witness 1

  const PRIME_SET: seq<nat> := [5, 11, 23, 53, 131, 317, 787, 1951, 4877, 12163, 30403, 76003]
  const MAX_BUCKET_SIZE := 76003
  const LAST_PRIME := 11

  type Bucket = Cell<Pointer, Pointer>
  type MaybeBucket = Cell?<Pointer, Pointer>

  /** `home` gives the bucket of a key among `n`. */
  ghost predicate HomeOf(home: Pointer -> nat, hash: Pointer -> nat, n: nat, k: Pointer)
    requires n > 0
  {
    home(k) == hash(k) % n
  }

  ghost predicate IsHome(home: Pointer -> nat, hash: Pointer -> nat, n: nat)
    requires n > 0
  {
    forall k {:trigger HomeOf(home, hash, n, k)} :: HomeOf(home, hash, n, k)
  }

  predicate SameKey(c: Bucket, d: Bucket) {
    c.key == d.key
  }

  ghost predicate HasKey(cells: set<Bucket>, k: Pointer) {
    exists c :: c in cells && c.key == k
  }

  /** Each of `keys` has one cell. */
  ghost predicate OnePerKey(cells: set<Bucket>, keys: set<Pointer>) {
    && (forall c, d {:trigger SameKey(c, d)} | c in cells && d in cells :: SameKey(c, d) ==> c == d)
    && (forall k {:trigger HasKey(cells, k)} | k in keys :: HasKey(cells, k))
  }

  /** The cells hold the bindings of the map `m`. */
  ghost predicate Holds(cells: set<Bucket>, m: map<Pointer, Pointer>)
    reads cells`value
  {
    forall c {:trigger c in cells} | c in cells :: c.key in m && m[c.key] == c.value
  }

  /** The search loop of every operation, in one chain. */
  method Find(head: MaybeBucket, ghost cs: seq<Bucket>, key: Pointer)
    returns (prev: MaybeBucket, b: MaybeBucket, ghost i: nat)
    requires IsChain(head, cs)
    ensures b == At(cs, i) && i <= |cs| && prev == (if i == 0 then null else cs[i - 1])
    ensures b != null ==> i < |cs| && b.key == key
    ensures b == null ==> forall c | c in cs :: c.key != key
  {
    b, prev, i := head, null, 0;
    while b != null && b.key != key
      invariant i <= |cs| && b == At(cs, i)
      invariant prev == (if i == 0 then null else cs[i - 1])
      invariant forall k | 0 <= k < i :: cs[k].key != key
      decreases |cs| - i
    {
      prev, b := b, b.next;
      i := i + 1;
    }
  }

  /** What a table stands for. */
  datatype View = View(home: Pointer -> nat, chains: seq<seq<Bucket>>, cells: set<Bucket>,
                       contents: map<Pointer, Pointer>)

  /** The links of a table of `n` buckets. */
  ghost predicate Linked(hash: Pointer -> nat, buckets: array<MaybeBucket>, view: View)
    reads buckets, view.cells
  {
    && buckets.Length > 0
    && Holds(view.cells, view.contents)
    && IsHome(view.home, hash, buckets.Length)
    && IsTable(view.home, buckets, view.chains, view.cells)
    && OnePerKey(view.cells, view.contents.Keys)
  }

  /** The search of a table: the first cell with the key, which is its only cell. */
  method Search(hash: Pointer -> nat, buckets: array<MaybeBucket>, key: Pointer, ghost view: View)
    returns (h: nat, prev: MaybeBucket, b: MaybeBucket, ghost i: nat)
    requires Linked(hash, buckets, view)
    ensures h < buckets.Length && h == view.home(key)
    ensures key in view.contents <==> b != null
    ensures b != null ==> i < |view.chains[h]| && b == view.chains[h][i] && b in view.cells && b.key == key
    ensures b != null ==> prev == (if i == 0 then null else view.chains[h][i - 1])
  {
    h := hash(key) % buckets.Length;
    assert HomeOf(view.home, hash, buckets.Length, key);
    prev, b, i := Find(buckets[h], view.chains[h], key);
    if b != null { assert b in view.chains[h]; }
    if key in view.contents { assert HasKey(view.cells, key); }
  }

  /** Links a cell for an absent key. */
  method LinkCell(hash: Pointer -> nat, buckets: array<MaybeBucket>, h: nat, b: Bucket, ghost view: View)
    returns (ghost view': View)
    requires Linked(hash, buckets, view) && b.key !in view.contents
    requires h < buckets.Length && h == view.home(b.key)
    modifies buckets, b`next
    ensures Linked(hash, buckets, view')
    ensures view'.cells == view.cells + {b} && view'.contents == view.contents[b.key := b.value]
  {
    assert forall k | k in view.contents :: HasKey(view.cells, k);
    Push(view.home, buckets, h, b, view.chains, view.cells);
    view' := View(view.home, view.chains[h := [b] + view.chains[h]], view.cells + {b},
                  view.contents[b.key := b.value]);
  }

  /** Makes a cell for an absent key, at the front of its bucket. */
  method NewCell(hash: Pointer -> nat, buckets: array<MaybeBucket>, h: nat, key: Pointer, info: Pointer,
                 ghost view: View)
    returns (ghost view': View)
    requires Linked(hash, buckets, view) && key !in view.contents
    requires h < buckets.Length && h == view.home(key)
    modifies buckets
    ensures Linked(hash, buckets, view') && fresh(view'.cells - view.cells)
    ensures view'.contents == view.contents[key := info]
  {
    assert allocated(view.cells);
    var b := new Cell(key, info);
    view' := LinkCell(hash, buckets, h, b, view);
  }

  /** Unlinks the cell of a key. */
  method UnlinkCell(hash: Pointer -> nat, buckets: array<MaybeBucket>, h: nat, prev: MaybeBucket, b: Bucket,
                    ghost view: View, ghost i: nat) returns (ghost view': View)
    requires Linked(hash, buckets, view) && h < buckets.Length
    requires i < |view.chains[h]| && b == view.chains[h][i] && prev == (if i == 0 then null else view.chains[h][i - 1])
    modifies buckets, view.cells`next
    ensures Linked(hash, buckets, view')
    ensures view'.cells == view.cells - {b} && view'.contents == view.contents - {b.key} && b.key in view.contents
  {
    assert b in view.chains[h];
    assert forall c | c in view.cells && c.key == b.key :: SameKey(c, b);
    RemoveAt(view.home, buckets, h, prev, b, view.chains, view.cells, i);
    view' := View(view.home, view.chains[h := Without(view.chains[h], i)], view.cells - {b}, view.contents - {b.key});
    forall k | k in view'.contents ensures HasKey(view'.cells, k) {
      assert HasKey(view.cells, k);
    }
  }

  /** Traversals: bucket `i` is visited up to its cell `j`. */
  ghost predicate Visited(view: View, i: nat, j: nat, k: Pointer)
    requires i <= |view.chains| && (i < |view.chains| ==> j <= |view.chains[i]|)
  {
    view.home(k) < i || (i < |view.chains| && exists c :: c in view.chains[i][..j] && c.key == k)
  }

  /** `seen` holds the bindings of the keys visited so far. */
  ghost predicate Seen(view: View, i: nat, j: nat, seen: map<Pointer, Pointer>) {
    && i <= |view.chains| && (i < |view.chains| ==> j <= |view.chains[i]|)
    && (forall k {:trigger k in seen} | k in seen :: k in view.contents && view.contents[k] == seen[k])
    && (forall k {:trigger Visited(view, i, j, k)} | k in view.contents :: Visited(view, i, j, k) <==> k in seen)
  }

  /** One more cell: its key was not seen before. */
  lemma SeenCell(hash: Pointer -> nat, buckets: array<MaybeBucket>, view: View, i: nat, j: nat,
                 seen: map<Pointer, Pointer>)
    requires Linked(hash, buckets, view) && Seen(view, i, j, seen) && i < |view.chains| && j < |view.chains[i]|
    ensures view.chains[i][j].key !in seen
    ensures Seen(view, i, j + 1, seen[view.chains[i][j].key := view.chains[i][j].value])
  {
    var cs := view.chains[i];
    var c := cs[j];
    assert c in cs;
    assert c in view.cells && view.home(c.key) == i;
    if Visited(view, i, j, c.key) {
      var d :| d in cs[..j] && d.key == c.key;
      var m :| 0 <= m < j && cs[m] == d;
      ChainNoDup(buckets[i], cs, m, j);
      assert d in cs && SameKey(c, d);
      assert false;
    }
    assert cs[..j + 1] == cs[..j] + [c];
    forall k | k in view.contents ensures Visited(view, i, j + 1, k) <==> Visited(view, i, j, k) || k == c.key {
    }
  }

  /** At the end of a chain every key of its bucket was seen. */
  lemma SeenChain(hash: Pointer -> nat, buckets: array<MaybeBucket>, view: View, i: nat, seen: map<Pointer, Pointer>)
    requires Linked(hash, buckets, view) && i < |view.chains| && Seen(view, i, |view.chains[i]|, seen)
    ensures Seen(view, i + 1, 0, seen)
  {
    var cs := view.chains[i];
    assert cs[..|cs|] == cs;
    forall k | k in view.contents ensures Visited(view, i + 1, 0, k) <==> Visited(view, i, |cs|, k) {
      assert HasKey(view.cells, k);
      if Visited(view, i, |cs|, k) && view.home(k) >= i {
        var c :| c in cs && c.key == k;
      }
    }
  }

  lemma SeenAll(hash: Pointer -> nat, buckets: array<MaybeBucket>, view: View, seen: map<Pointer, Pointer>)
    requires Linked(hash, buckets, view) && Seen(view, |view.chains|, 0, seen)
    ensures seen == view.contents
  {
    forall k | k in view.contents ensures k in seen {
      assert HasKey(view.cells, k) && Visited(view, |view.chains|, 0, k);
    }
  }

  /** `visited` lists each binding of `m` exactly once. */
  ghost predicate Enumerates(visited: seq<(Pointer, Pointer)>, m: map<Pointer, Pointer>) {
    if visited == [] then m == map[]
    else
      var (k, v) := visited[|visited| - 1];
      k in m && m[k] == v && Enumerates(visited[..|visited| - 1], m - {k})
  }

  lemma EnumeratesMore(visited: seq<(Pointer, Pointer)>, m: map<Pointer, Pointer>, k: Pointer, v: Pointer)
    requires Enumerates(visited, m) && k !in m
    ensures Enumerates(visited + [(k, v)], m[k := v])
  {
    assert (visited + [(k, v)])[..|visited|] == visited && m[k := v] - {k} == m;
  }

  lemma {:induction false} EnumeratesAll(visited: seq<(Pointer, Pointer)>, m: map<Pointer, Pointer>)
    requires Enumerates(visited, m)
    ensures |visited| == |m|
    ensures forall k, v :: (k, v) in visited <==> k in m && m[k] == v
  {
    if visited != [] {
      var (k, v) := visited[|visited| - 1];
      EnumeratesAll(visited[..|visited| - 1], m - {k});
      assert visited == visited[..|visited| - 1] + [(k, v)];
      assert m == (m - {k})[k := v];
    }
  }

  /** The loops of dhash_ptr_increase_rehash: a new table with the same bindings. */
  method Rehash(hash: Pointer -> nat, oldBuckets: array<MaybeBucket>, n: nat, ghost view: View)
    returns (buckets: array<MaybeBucket>, ghost view': View)
    requires Linked(hash, oldBuckets, view) && n > 0
    ensures fresh(buckets) && fresh(view'.cells) && buckets.Length == n
    ensures Linked(hash, buckets, view') && view'.contents == view.contents
  {
    buckets := new MaybeBucket[n](_ => null);
    view' := View(k => hash(k) % n, seq(n, _ => []), {}, map[]);
    var i := 0;
    while i < oldBuckets.Length
      invariant i <= oldBuckets.Length && fresh(view'.cells)
      invariant Linked(hash, oldBuckets, view) && Linked(hash, buckets, view')
      invariant Seen(view, i, 0, view'.contents)
    {
      view' := RehashChain(hash, oldBuckets, i, buckets, view, view');
      i := i + 1;
    }
    SeenAll(hash, oldBuckets, view, view'.contents);
  }

  /** Copies the cells of chain `i` into the new table. */
  method RehashChain(hash: Pointer -> nat, oldBuckets: array<MaybeBucket>, i: nat, buckets: array<MaybeBucket>,
                     ghost view: View, ghost into: View)
    returns (ghost view': View)
    requires Linked(hash, oldBuckets, view) && Linked(hash, buckets, into)
    requires buckets != oldBuckets && into.cells !! view.cells
    requires i < oldBuckets.Length && Seen(view, i, 0, into.contents)
    modifies buckets
    ensures Linked(hash, oldBuckets, view) && Linked(hash, buckets, view')
    ensures fresh(view'.cells - into.cells) && Seen(view, i + 1, 0, view'.contents)
  {
    view' := into;
    var b := oldBuckets[i];
    ghost var j := 0;
    while b != null
      invariant j <= |view.chains[i]| && b == At(view.chains[i], j)
      invariant Linked(hash, oldBuckets, view) && Linked(hash, buckets, view')
      invariant fresh(view'.cells - into.cells) && Seen(view, i, j, view'.contents)
      decreases |view.chains[i]| - j
    {
      SeenCell(hash, oldBuckets, view, i, j, view'.contents);
      assert allocated(view.cells);
      view' := CopyCell(hash, buckets, b.key, b.value, view');
      b := b.next;
      j := j + 1;
    }
    SeenChain(hash, oldBuckets, view, i, view'.contents);
  }

  method CopyCell(hash: Pointer -> nat, buckets: array<MaybeBucket>, key: Pointer, info: Pointer, ghost view: View)
    returns (ghost view': View)
    requires Linked(hash, buckets, view) && key !in view.contents
    modifies buckets
    ensures Linked(hash, buckets, view') && fresh(view'.cells - view.cells)
    ensures view'.contents == view.contents[key := info]
  {
    var newHash := hash(key) % buckets.Length;
    assert HomeOf(view.home, hash, buckets.Length, key);
    view' := NewCell(hash, buckets, newHash, key, info, view);
  }

  /** As many cells as bindings. */
  lemma {:induction false} OneCellPerBinding(cells: set<Bucket>, m: map<Pointer, Pointer>)
    requires Holds(cells, m) && OnePerKey(cells, m.Keys)
    ensures |cells| == |m|
    decreases cells
  {
    if cells == {} {
      assert forall k | k in m :: HasKey(cells, k);
    } else {
      var c :| c in cells;
      var rest, less := cells - {c}, m - {c.key};
      forall d | d in rest ensures d.key in less { assert !SameKey(d, c); }
      forall k | k in less ensures HasKey(rest, k) {
        assert HasKey(cells, k);
        var d :| d in cells && d.key == k;
        assert d in rest;
      }
      OneCellPerBinding(rest, less);
      assert m.Keys == less.Keys + {c.key};
    }
  }

  class Table {
    const hash: Pointer -> nat
    var buckets: array<MaybeBucket>
    var numBucketsIdx: nat
    var numItems: nat
    ghost var view: View

    ghost predicate Valid()
      reads this, buckets, view.cells
    {
      && numBucketsIdx <= LAST_PRIME && buckets.Length == PRIME_SET[numBucketsIdx]
      && Linked(hash, buckets, view)
      && numItems == |view.contents|
      && (numBucketsIdx == LAST_PRIME || numItems <= 3 * buckets.Length / 4 + 1)
    }

    /** dhash_ptr_new: the least prime of the set that is not below the initial size, or the last one. */
    constructor (hash: Pointer -> nat, initialSize: nat)
      ensures Valid() && view.contents == map[] && fresh(buckets) && this.hash == hash
      ensures initialSize < MAX_BUCKET_SIZE ==> initialSize <= PRIME_SET[numBucketsIdx]
      ensures forall i | 0 <= i < numBucketsIdx :: PRIME_SET[i] < initialSize
    {
      this.hash, numItems := hash, 0;
      var idx := 0;
      if initialSize >= MAX_BUCKET_SIZE {
        idx := LAST_PRIME;
      } else {
        while PRIME_SET[idx] < initialSize
          invariant idx <= LAST_PRIME && forall i | 0 <= i < idx :: PRIME_SET[i] < initialSize
          decreases LAST_PRIME - idx
        {
          idx := idx + 1;
        }
      }
      var n := PRIME_SET[idx];
      numBucketsIdx := idx;
      buckets := new MaybeBucket[n](_ => null);
      view := View(k => hash(k) % n, seq(n, _ => []), {}, map[]);
    }

    /** dhash_ptr_query. */
    method Query(key: Pointer) returns (info: Address)
      requires Valid()
      ensures info == if key in view.contents then view.contents[key] else NULL
      ensures info != NULL <==> key in view.contents
      ensures Valid()
    {
      var h, prev, b, i := Search(hash, buckets, key, view);
      info := if b != null then b.value else NULL;
    }

    /** A key that is present only gets a new info. */
    method Update(key: Pointer, b: Bucket, info: Pointer)
      requires Valid() && key in view.contents && b in view.cells && b.key == key
      modifies this`view, b`value
      ensures view.cells == old(view.cells) && Valid() && view.contents == old(view.contents)[key := info]
    {
      b.value := info;
      assert forall c {:trigger c in view.cells} | c in view.cells && c.key == key :: SameKey(c, b);
      view := view.(contents := view.contents[key := info]);
    }

    /** An absent key gets a cell. */
    method Add(h: nat, key: Pointer, info: Pointer)
      requires Valid() && key !in view.contents
      requires h < buckets.Length && h == view.home(key)
      requires numBucketsIdx != LAST_PRIME ==> numItems <= 3 * buckets.Length / 4
      modifies this`numItems, this`view, buckets
      ensures Valid() && view.contents == old(view.contents)[key := info]
      ensures fresh(view.cells - old(view.cells))
    {
      ghost var view' := NewCell(hash, buckets, h, key, info, view);
      view := view';
      numItems := numItems + 1;
    }

    /** dhash_ptr_do_insert. */
    method DoInsert(key: Pointer, info: Pointer)
      requires Valid()
      requires numBucketsIdx != LAST_PRIME ==> numItems <= 3 * buckets.Length / 4
      modifies this`numItems, this`view, buckets, view.cells`value
      ensures Valid() && view.contents == old(view.contents)[key := info]
      ensures fresh(view.cells - old(view.cells))
    {
      var h, prev, b, i := Search(hash, buckets, key, view);
      if b != null {
        Update(key, b, info);
      } else {
        Add(h, key, info);
      }
    }

    /** dhash_ptr_remove. */
    method Remove(key: Pointer)
      requires Valid()
      modifies this`numItems, this`view, buckets, view.cells`next
      ensures Valid() && view.contents == old(view.contents) - {key} && view.cells <= old(view.cells)
    {
      var h, prev, b, i := Search(hash, buckets, key, view);
      if b != null { Drop(h, prev, b, i); }
    }

    method Drop(h: nat, prev: MaybeBucket, b: Bucket, ghost i: nat)
      requires Valid() && h < buckets.Length
      requires i < |view.chains[h]| && b == view.chains[h][i]
      requires prev == (if i == 0 then null else view.chains[h][i - 1])
      modifies this`numItems, this`view, buckets, view.cells`next
      ensures Valid() && view.contents == old(view.contents) - {b.key} && view.cells <= old(view.cells)
    {
      ghost var view' := UnlinkCell(hash, buckets, h, prev, b, view, i);
      view := view';
      numItems := numItems - 1;
    }

    /** dhash_ptr_walk, with the calls of the walk function in order. */
    method Walk() returns (visited: seq<(Pointer, Pointer)>)
      requires Valid()
      ensures Enumerates(visited, view.contents) && Valid()
    {
      visited := [];
      ghost var seen: map<Pointer, Pointer> := map[];
      var i := 0;
      while i < buckets.Length
        invariant i <= buckets.Length && Seen(view, i, 0, seen) && Enumerates(visited, seen)
      {
        var b := buckets[i];
        ghost var j := 0;
        while b != null
          invariant j <= |view.chains[i]| && b == At(view.chains[i], j)
          invariant Seen(view, i, j, seen) && Enumerates(visited, seen)
          decreases |view.chains[i]| - j
        {
          SeenCell(hash, buckets, view, i, j, seen);
          EnumeratesMore(visited, seen, b.key, b.value);
          visited := visited + [(b.key, b.value)];
          seen := seen[b.key := b.value];
          b := b.next;
          j := j + 1;
        }
        SeenChain(hash, buckets, view, i, seen);
        i := i + 1;
      }
      SeenAll(hash, buckets, view, seen);
    }

    /** dhash_ptr_increase_rehash. */
    method IncreaseRehash()
      requires Valid()
      modifies this`buckets, this`numBucketsIdx, this`view
      ensures Valid() && view.contents == old(view.contents)
      ensures fresh({buckets} + view.cells) || (buckets == old(buckets) && view == old(view))
      ensures numBucketsIdx != LAST_PRIME ==> numItems <= 3 * buckets.Length / 4
    {
      if numBucketsIdx == LAST_PRIME { return; }
      numBucketsIdx := numBucketsIdx + 1;
      var newBuckets;
      ghost var view';
      newBuckets, view' := Rehash(hash, buckets, PRIME_SET[numBucketsIdx], view);
      buckets, view := newBuckets, view';
    }

    /** dhash_ptr_insert. */
    method Insert(key: Pointer, info: Pointer)
      requires Valid()
      modifies this`buckets, this`numBucketsIdx, this`numItems, this`view, buckets, view.cells`value
      ensures Valid() && view.contents == old(view.contents)[key := info]
      ensures fresh({buckets} + view.cells - {old(buckets)} - old(view.cells))
    {
      var numBuckets := PRIME_SET[numBucketsIdx];
      if numBuckets * 3 / 4 < numItems {
        IncreaseRehash();
      }
      DoInsert(key, info);
    }
  }
}
