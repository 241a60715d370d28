/** The unrolled list of scope entries: nodes with four slots each. */
module EntryList {
  import opened Sequences

  /** The address of a scope entry, or null. */
  type Entry = nat
  const NULL: Entry := 0
  type Symbol = e: Entry | e != NULL witness 1

  const NUM_IMMEDIATE := 4
  type Slots = s: seq<Entry> | |s| == 4 witness [NULL, NULL, NULL, NULL]

  class Node {
    var list: Slots
    var next: Node?

    constructor ()
      ensures list == [NULL, NULL, NULL, NULL] && next == null
    {
      list, next := [NULL, NULL, NULL, NULL], null;
    }
  }

  /** The nodes of a list with their slots. */
  datatype Chain = End | Link(node: Node, slots: Slots, rest: Chain)

  ghost function Nodes(c: Chain): set<Node> {
    match c
    case End => {}
    case Link(n, _, rest) => {n} + Nodes(rest)
  }

  ghost predicate IsList(head: Node?, c: Chain)
    reads Nodes(c)
  {
    match c
    case End => head == null
    case Link(n, slots, rest) => head == n && n.list == slots && n !in Nodes(rest) && IsList(n.next, rest)
  }

  /** All the slots, in order. */
  ghost function Flat(c: Chain): seq<Entry> {
    match c
    case End => []
    case Link(_, slots, rest) => slots + Flat(rest)
  }

  /** The first slots hold the items, which are not null, and all later slots are null. */
  ghost predicate Packed(f: seq<Entry>, items: seq<Entry>) {
    && |items| <= |f|
    && (forall i | 0 <= i < |items| :: f[i] == items[i] && items[i] != NULL)
    && (forall i | |items| <= i < |f| :: f[i] == NULL)
  }

  /** The slots after storing `e` at `pos`, at most one past the end. */
  ghost function Put(f: seq<Entry>, pos: nat, e: Entry): seq<Entry>
    requires pos <= |f|
  {
    if pos < |f| then f[pos := e] else f + [e, NULL, NULL, NULL]
  }

  /** entry_list_add_to_pos_rec. */
  method AddToPosRec(list: Node, e: Entry, numPos: nat, ghost c: Chain) returns (ghost c': Chain)
    requires IsList(list, c) && numPos <= |Flat(c)|
    modifies Nodes(c)
    ensures IsList(list, c') && Nodes(c) <= Nodes(c') && forall n | n in Nodes(c') :: n in Nodes(c) || fresh(n)
    ensures Flat(c') == Put(Flat(c), numPos, e)
    decreases numPos
  {
    if numPos < NUM_IMMEDIATE {
      list.list := list.list[numPos := e];
      c' := Link(list, list.list, c.rest);
    } else {
      ghost var rest := c.rest;
      if list.next == null {
        assert allocated(Nodes(c));
        list.next := new Node();
        rest := Link(list.next, list.next.list, End);
      }
      assert list !in Nodes(rest);
      ghost var rest' := AddToPosRec(list.next, e, numPos - NUM_IMMEDIATE, rest);
      c' := Link(list, c.slots, rest');
    }
  }

  /** The slots of one node after inserting at `pos`, without the last one. */
  ghost predicate Inserted(s: seq<Entry>, pos: nat, e: Entry, s': seq<Entry>)
    requires |s| == |s'| == NUM_IMMEDIATE && pos < NUM_IMMEDIATE
  {
    && s'[pos] == e
    && (forall k | 0 <= k < pos :: s'[k] == s[k])
    && (forall k | pos < k < NUM_IMMEDIATE :: s'[k] == s[k - 1])
  }

  /** Moves the slots from `pos` one to the right within a node, and stores `e`. */
  method InsertInNode(list: Node, pos: nat, e: Entry)
    requires pos < NUM_IMMEDIATE
    modifies list`list
    ensures Inserted(old(list.list), pos, e, list.list)
  {
    var i := NUM_IMMEDIATE - 2;
    while i >= pos
      invariant pos - 1 <= i <= NUM_IMMEDIATE - 2
      invariant forall k | 0 <= k <= i + 1 && k < NUM_IMMEDIATE :: list.list[k] == old(list.list)[k]
      invariant forall k | i + 1 < k < NUM_IMMEDIATE :: list.list[k] == old(list.list)[k - 1]
    {
      list.list := list.list[i + 1 := list.list[i]];
      i := i - 1;
    }
    list.list := list.list[pos := e];
  }

  lemma PackedTail(s: Slots, r: seq<Entry>, items: seq<Entry>)
    requires Packed(s + r, items)
    ensures |items| >= NUM_IMMEDIATE ==> Packed(r, items[NUM_IMMEDIATE..]) && s[3] != NULL
    ensures |items| <= NUM_IMMEDIATE ==> Packed(r, [])
  {
    assert forall k | 0 <= k < |r| :: (s + r)[k + NUM_IMMEDIATE] == r[k];
    assert (s + r)[3] == s[3];
  }

  lemma PackedPrepend(s: Slots, r: seq<Entry>, items: seq<Entry>, e: Symbol, s': Slots, r': seq<Entry>)
    requires Packed(s + r, items) && Inserted(s, 0, e, s')
    requires if |items| < NUM_IMMEDIATE then r' == r else Packed(r', [s[3]] + items[NUM_IMMEDIATE..])
    ensures Packed(s' + r', [e] + items)
  {
    PackedTail(s, r, items);
    assert forall k | 0 <= k < NUM_IMMEDIATE :: (s + r)[k] == s[k];
    forall k | 1 + |items| <= k < |s' + r'| ensures (s' + r')[k] == NULL {
      if k < NUM_IMMEDIATE { assert (s' + r')[k] == s[k - 1]; } else { assert (s' + r')[k] == r'[k - NUM_IMMEDIATE]; }
    }
  }

  /** entry_list_prepend_rec. */
  method PrependRec(list: Node?, e: Symbol, numItems: nat, ghost c: Chain, ghost items: seq<Entry>)
    returns (r: Node, ghost c': Chain)
    requires IsList(list, c) && Packed(Flat(c), items) && numItems == |items|
    modifies Nodes(c)
    ensures IsList(r, c') && Nodes(c) <= Nodes(c') && forall n | n in Nodes(c') :: n in Nodes(c) || fresh(n)
    ensures Packed(Flat(c'), [e] + items)
    decreases numItems
  {
    if list == null {
      r := new Node();
      r.list := r.list[0 := e];
      c' := Link(r, r.list, End);
    } else {
      r := list;
      assert allocated(Nodes(c)) && list !in Nodes(c.rest);
      PackedTail(c.slots, Flat(c.rest), items);
      var last := list.list[NUM_IMMEDIATE - 1];
      InsertInNode(list, 0, e);
      ghost var s' := list.list;
      ghost var rest' := c.rest;
      if numItems >= NUM_IMMEDIATE {
        var next;
        next, rest' := PrependRec(list.next, last, numItems - NUM_IMMEDIATE, c.rest, items[NUM_IMMEDIATE..]);
        list.next := next;
      }
      c' := Link(list, s', rest');
      PackedPrepend(c.slots, Flat(c.rest), items, e, s', Flat(rest'));
    }
  }

  /** The last slot drops out when it is null, and else needs a new node. */
  ghost function Trim(g: seq<Entry>): seq<Entry>
    requires g != []
  {
    if g[|g| - 1] == NULL then g[..|g| - 1] else g + [NULL, NULL, NULL]
  }

  /** The slots after inserting at `pos`. */
  ghost function Shifted(f: seq<Entry>, pos: nat, e: Entry): seq<Entry>
    requires pos <= |f|
  {
    Trim(f[..pos] + [e] + f[pos..])
  }

  lemma ShiftedSplit(s: Slots, r: seq<Entry>, pos: nat, e: Entry, s': Slots)
    requires pos < NUM_IMMEDIATE && Inserted(s, pos, e, s')
    ensures Shifted(s + r, pos, e) == s' + Shifted(r, 0, s[3])
  {
  }

  /** insert_and_shift_right. */
  method InsertAndShiftRight(list: Node?, pos: nat, e: Entry, ghost c: Chain) returns (ghost c': Chain)
    requires IsList(list, c) && pos < NUM_IMMEDIATE
    modifies Nodes(c)
    ensures IsList(list, c') && Nodes(c) <= Nodes(c') && forall n | n in Nodes(c') :: n in Nodes(c) || fresh(n)
    ensures list == null ==> c' == c
    ensures list != null ==> Flat(c') == Shifted(Flat(c), pos, e)
    decreases c
  {
    if list == null { return c; }
    var keep := list.list[NUM_IMMEDIATE - 1];
    assert allocated(Nodes(c)) && list !in Nodes(c.rest);
    InsertInNode(list, pos, e);
    ghost var s' := list.list;
    ghost var rest' := c.rest;
    if list.next != null {
      rest' := InsertAndShiftRight(list.next, 0, keep, c.rest);
    } else if keep != NULL {
      var node := new Node();
      rest' := AddToPosRec(node, keep, 0, Link(node, node.list, End));
      list.next := node;
    }
    c' := Link(list, s', rest');
    ShiftedSplit(c.slots, Flat(c.rest), pos, e, s');
  }

  /** The first position that holds `e`, or the length. */
  ghost function IndexOf(f: seq<Entry>, e: Entry): (i: nat)
    ensures i <= |f| && (i < |f| ==> f[i] == e)
    ensures forall k | 0 <= k < i :: f[k] != e
  {
    if f == [] || f[0] == e then 0 else 1 + IndexOf(f[1..], e)
  }

  lemma IndexOfIs(f: seq<Entry>, e: Entry, i: nat)
    requires i <= |f| && (i < |f| ==> f[i] == e) && forall k | 0 <= k < i :: f[k] != e
    ensures IndexOf(f, e) == i
  {
  }

  lemma IndexOfRest(s: Slots, r: seq<Entry>, e: Entry)
    requires e !in s
    ensures IndexOf(s + r, e) == NUM_IMMEDIATE + IndexOf(r, e)
  {
    var i := NUM_IMMEDIATE + IndexOf(r, e);
    forall k | 0 <= k < i ensures (s + r)[k] != e {
      if k < NUM_IMMEDIATE { assert (s + r)[k] == s[k]; } else { assert (s + r)[k] == r[k - NUM_IMMEDIATE]; }
    }
    IndexOfIs(s + r, e, i);
  }

  lemma ShiftedRest(s: Slots, r: seq<Entry>, pos: nat, e: Entry)
    requires pos < |r|
    ensures Shifted(s + r, NUM_IMMEDIATE + pos, e) == s + Shifted(r, pos, e)
  {
  }

  method FindInNode(slots: Slots, position: Symbol) returns (j: nat)
    ensures j <= NUM_IMMEDIATE && (j < NUM_IMMEDIATE ==> slots[j] == position)
    ensures forall k | 0 <= k < j :: slots[k] != position
  {
    j := 0;
    while j < NUM_IMMEDIATE && slots[j] != position
      invariant j <= NUM_IMMEDIATE && forall k | 0 <= k < j :: slots[k] != position
    {
      j := j + 1;
    }
  }

  /** entry_list_add_before_rec. */
  method AddBeforeRec(list: Node?, position: Symbol, e: Symbol, ghost c: Chain) returns (found: bool, ghost c': Chain)
    requires IsList(list, c)
    modifies Nodes(c)
    ensures IsList(list, c') && Nodes(c) <= Nodes(c') && forall n | n in Nodes(c') :: n in Nodes(c) || fresh(n)
    ensures found <==> position in Flat(c)
    ensures Flat(c') == if position in Flat(c) then Shifted(Flat(c), IndexOf(Flat(c), position), e) else Flat(c)
    decreases c
  {
    c' := c;
    if list == null { return false, c; }
    assert allocated(Nodes(c)) && list !in Nodes(c.rest);
    var j := FindInNode(list.list, position);
    ghost var s, r: seq<Entry> := c.slots, Flat(c.rest);
    if j == NUM_IMMEDIATE {
      IndexOfRest(s, r, position);
      ghost var rest';
      found, rest' := AddBeforeRec(list.next, position, e, c.rest);
      if found { ShiftedRest(s, r, IndexOf(r, position), e); }
      c' := Link(list, s, rest');
      return;
    }
    assert (s + r)[j] == position && forall k | 0 <= k < j :: (s + r)[k] == s[k];
    IndexOfIs(s + r, position, j);
    c' := InsertAndShiftRight(list, j, e, c);
    found := true;
  }

  /** The slots without the one at `pos`, and null at the end. */
  ghost function Closed(f: seq<Entry>, pos: nat): seq<Entry>
    requires pos < |f|
  {
    f[..pos] + f[pos + 1..] + [NULL]
  }

  lemma ClosedSplit(s: Slots, r: seq<Entry>, pos: nat)
    requires pos < NUM_IMMEDIATE
    ensures r == [] ==> Closed(s + r, pos) == s[..pos] + s[pos + 1..] + [NULL]
    ensures r != [] ==> Closed(s + r, pos) == s[..pos] + s[pos + 1..] + [r[0]] + Closed(r, 0)
  {
  }

  /** The loop that moves the slots after `pos` one to the left, within a node. */
  method CloseInNode(list: Node, pos: nat)
    requires pos < NUM_IMMEDIATE
    modifies list`list
    ensures list.list[..3] == old(list.list)[..pos] + old(list.list)[pos + 1..]
  {
    var j := pos + 1;
    while j < NUM_IMMEDIATE
      invariant pos < j <= NUM_IMMEDIATE
      invariant forall k | 0 <= k < NUM_IMMEDIATE ::
                  list.list[k] == old(list.list)[if pos <= k < j - 1 then k + 1 else k]
    {
      list.list := list.list[j - 1 := list.list[j]];
      j := j + 1;
    }
  }

  /** shift_left_all_elements_from_pos. */
  method ShiftLeft(list: Node?, pos: nat, ghost c: Chain) returns (first: Entry, ghost c': Chain)
    requires IsList(list, c) && pos < NUM_IMMEDIATE
    modifies Nodes(c)
    ensures IsList(list, c') && Nodes(c') == Nodes(c)
    ensures first == if list == null then NULL else Flat(c)[0]
    ensures Flat(c') == if list == null then [] else Closed(Flat(c), pos)
    decreases c
  {
    if list == null { return NULL, c; }
    ghost var s, r: seq<Entry> := c.slots, Flat(c.rest);
    assert allocated(Nodes(c)) && list !in Nodes(c.rest);
    first := list.list[0];
    CloseInNode(list, pos);
    var next;
    ghost var rest';
    next, rest' := ShiftLeft(list.next, 0, c.rest);
    list.list := list.list[3 := next];
    c' := Link(list, list.list, rest');
    ClosedSplit(s, r, pos);
    assert list.list == s[..pos] + s[pos + 1..] + [next];
  }

  /** The scan of entry_list_remove_rec: after a match everything moves left, and the scan goes
      on with the next slot. */
  ghost function Scan(f: seq<Entry>, i: nat, e: Entry): (f': seq<Entry>)
    requires i <= |f|
    ensures |f'| == |f|
    decreases |f| - i
  {
    if i == |f| then f
    else Scan(if f[i] == e then Closed(f, i) else f, i + 1, e)
  }

  ghost function Matches(f: seq<Entry>, i: nat, e: Entry): nat
    requires i <= |f|
    decreases |f| - i
  {
    if i == |f| then 0
    else if f[i] == e then 1 + Matches(Closed(f, i), i + 1, e)
    else Matches(f, i + 1, e)
  }

  lemma ClosedRest(s: seq<Entry>, r: seq<Entry>, i: nat)
    requires i < |r|
    ensures Closed(s + r, |s| + i) == s + Closed(r, i)
  {
  }

  lemma {:induction false} ScanRest(s: seq<Entry>, r: seq<Entry>, i: nat, e: Entry)
    requires i <= |r|
    ensures Scan(s + r, |s| + i, e) == s + Scan(r, i, e)
    ensures Matches(s + r, |s| + i, e) == Matches(r, i, e)
    decreases |r| - i
  {
    if i < |r| {
      assert (s + r)[|s| + i] == r[i];
      ClosedRest(s, r, i);
      ScanRest(s, if r[i] == e then Closed(r, i) else r, i + 1, e);
    }
  }

  /** entry_list_remove_rec. */
  method RemoveRec(list: Node?, e: Symbol, ghost c: Chain) returns (numberOfMatches: nat, ghost c': Chain)
    requires IsList(list, c)
    modifies Nodes(c)
    ensures IsList(list, c') && Nodes(c') == Nodes(c)
    ensures Flat(c') == Scan(Flat(c), 0, e) && numberOfMatches == Matches(Flat(c), 0, e)
    decreases |Flat(c)|
  {
    c' := c;
    if list == null { return 0, c; }
    numberOfMatches := 0;
    var i := 0;
    while i < NUM_IMMEDIATE
      invariant i <= NUM_IMMEDIATE && c'.Link? && IsList(list, c') && Nodes(c') == Nodes(c)
      invariant |Flat(c')| == |Flat(c)|
      invariant Scan(Flat(c'), i, e) == Scan(Flat(c), 0, e)
      invariant numberOfMatches + Matches(Flat(c'), i, e) == Matches(Flat(c), 0, e)
    {
      assert Flat(c')[i] == c'.slots[i];
      if list.list[i] == e {
        numberOfMatches := numberOfMatches + 1;
        var _, d := ShiftLeft(list, i, c');
        c' := d;
      }
      i := i + 1;
    }
    assert list !in Nodes(c'.rest);
    ScanRest(c'.slots, Flat(c'.rest), 0, e);
    ghost var s := c'.slots;
    var more, rest' := RemoveRec(list.next, e, c'.rest);
    c' := Link(list, s, rest');
    numberOfMatches := more + numberOfMatches;
  }

  /** What entry_list_remove leaves: it skips the item that follows each match. */
  ghost function Removed(items: seq<Entry>, e: Entry): seq<Entry> {
    if items == [] then []
    else if items[0] != e then [items[0]] + Removed(items[1..], e)
    else if |items| == 1 then []
    else [items[1]] + Removed(items[2..], e)
  }

  /** The scan works on each run of copies by itself. */
  lemma {:induction false} RemovedApart(a: seq<Entry>, x: Entry, b: seq<Entry>, e: Entry)
    requires x != e
    ensures Removed(a + [x] + b, e) == Removed(a, e) + [x] + Removed(b, e)
    decreases |a|
  {
    var s := a + [x] + b;
    if a == [] {
      assert s == [x] + b;
    } else if a[0] != e {
      assert s[1..] == a[1..] + [x] + b;
      RemovedApart(a[1..], x, b, e);
    } else if |a| == 1 {
      assert s[1] == x && s[2..] == b;
    } else {
      assert s[1] == a[1] && s[2..] == a[2..] + [x] + b;
      RemovedApart(a[2..], x, b, e);
    }
  }

  /** Of a run of `n` copies it leaves every second one. */
  lemma {:induction false} RemovedRun(n: nat, e: Entry)
    ensures Removed(seq(n, _ => e), e) == seq(n / 2, _ => e)
  {
    if n > 1 {
      assert seq(n, _ => e)[2..] == seq(n - 2, _ => e);
      RemovedRun(n - 2, e);
      assert seq(n / 2, _ => e) == [e] + seq((n - 2) / 2, _ => e);
    }
  }

  /** The items other than `e`, in order. */
  ghost function Without(items: seq<Entry>, e: Entry): (r: seq<Entry>)
    ensures e !in r
  {
    if items == [] then []
    else if items[0] == e then Without(items[1..], e)
    else [items[0]] + Without(items[1..], e)
  }

  ghost predicate AdjacentCopies(items: seq<Entry>, e: Entry) {
    exists i {:trigger items[i]} :: 0 <= i < |items| - 1 && items[i] == e && items[i + 1] == e
  }

  lemma {:induction false} ScanNulls(f: seq<Entry>, i: nat, e: Symbol)
    requires i <= |f| && forall k | i <= k < |f| :: f[k] == NULL
    ensures Scan(f, i, e) == f && Matches(f, i, e) == 0
    decreases |f| - i
  {
    if i < |f| {
      ScanNulls(f, i + 1, e);
    }
  }

  lemma ScanOther(x: Entry, t: seq<Entry>, e: Symbol)
    requires x != e
    ensures Scan([x] + t, 0, e) == [x] + Scan(t, 0, e) && Matches([x] + t, 0, e) == Matches(t, 0, e)
  {
    ScanRest([x], t, 0, e);
  }

  lemma ScanMatch(y: Entry, t: seq<Entry>, e: Symbol)
    ensures Scan([e, y] + t, 0, e) == [y] + Scan(t + [NULL], 0, e)
    ensures Matches([e, y] + t, 0, e) == 1 + Matches(t + [NULL], 0, e)
  {
    assert Closed([e, y] + t, 0) == [y] + (t + [NULL]);
    ScanRest([y], t + [NULL], 0, e);
  }

  /** The other items all stay, in order. */
  lemma {:induction false} RemovedKeepsOthers(items: seq<Entry>, e: Entry)
    ensures Without(Removed(items, e), e) == Without(items, e)
    decreases |items|
  {
    if items != [] {
      if items[0] != e {
        RemovedKeepsOthers(items[1..], e);
      } else if |items| > 1 {
        RemovedKeepsOthers(items[2..], e);
        assert items[1..][1..] == items[2..];
      }
    }
  }

  lemma {:induction false} RemovedHasNone(items: seq<Entry>, e: Entry)
    ensures e !in Removed(items, e) <==> !AdjacentCopies(items, e)
    decreases |items|
  {
    if items != [] {
      if items[0] != e {
        RemovedHasNone(items[1..], e);
        assert forall i | 0 <= i < |items| - 1 :: items[1..][i] == items[i + 1];
        if AdjacentCopies(items, e) {
          var i :| 0 <= i < |items| - 1 && items[i] == e && items[i + 1] == e;
          assert items[1..][i - 1] == e && items[1..][i - 1 + 1] == e;
        }
      } else if |items| > 1 {
        RemovedHasNone(items[2..], e);
        assert forall i | 0 <= i < |items| - 2 :: items[2..][i] == items[i + 2];
        if AdjacentCopies(items, e) && items[1] != e {
          var i :| 0 <= i < |items| - 1 && items[i] == e && items[i + 1] == e;
          assert items[2..][i - 2] == e && items[2..][i - 2 + 1] == e;
        }
      }
    }
  }

  lemma {:induction false} WithoutNone(items: seq<Entry>, e: Entry)
    requires e !in items
    ensures Without(items, e) == items
  {
    if items != [] {
      WithoutNone(items[1..], e);
    }
  }

  /** entry_list_remove deletes exactly the given entry if and only if no two copies of it
      are adjacent. */
  lemma RemoveIsExact(items: seq<Entry>, e: Entry)
    ensures Removed(items, e) == Without(items, e) <==> !AdjacentCopies(items, e)
  {
    RemovedHasNone(items, e);
    RemovedKeepsOthers(items, e);
    if e !in Removed(items, e) { WithoutNone(Removed(items, e), e); }
  }

  /** Two adjacent copies: one of them stays. */
  lemma RemoveCanLeaveACopy(e: Symbol)
    ensures Removed([e, e], e) == [e]
  {
  }

  lemma PackedCons(x: Symbol, t: seq<Entry>, items: seq<Entry>)
    requires Packed(t, items)
    ensures Packed([x] + t, [x] + items)
  {
  }

  /** The scan of the slots, on the items. */
  lemma {:induction false} PackedRemove(f: seq<Entry>, items: seq<Entry>, e: Symbol)
    requires Packed(f, items)
    ensures Packed(Scan(f, 0, e), Removed(items, e))
    ensures |Removed(items, e)| == |items| - Matches(f, 0, e)
    decreases |items|
  {
    if items == [] {
      ScanNulls(f, 0, e);
    } else if items[0] != e {
      PackedRemove(f[1..], items[1..], e);
      ScanOther(items[0], f[1..], e);
      PackedCons(items[0], Scan(f[1..], 0, e), Removed(items[1..], e));
      assert f == [items[0]] + f[1..];
    } else if |items| == 1 {
      ScanNulls(Closed(f, 0), 1, e);
    } else {
      var t := f[2..];
      PackedRemove(t + [NULL], items[2..], e);
      ScanMatch(items[1], t, e);
      PackedCons(items[1], Scan(t + [NULL], 0, e), Removed(items[2..], e));
      assert f == [e, items[1]] + t;
    }
  }

  lemma PackedInsert(f: seq<Entry>, items: seq<Entry>, pos: nat, e: Symbol)
    requires Packed(f, items) && pos < |items|
    ensures Packed(Shifted(f, pos, e), items[..pos] + [e] + items[pos..])
  {
  }

  lemma PackedIndex(f: seq<Entry>, items: seq<Entry>, e: Symbol)
    requires Packed(f, items)
    ensures e in f <==> e in items
    ensures e in f ==> IndexOf(f, e) == IndexOf(items, e) < |items|
  {
  }

  /** A list; the null list stands for the empty one. */
  class List {
    var numItemsList: nat
    var next: Node
    ghost var chain: Chain
    ghost var items: seq<Symbol>

    ghost predicate Valid()
      reads this, Nodes(chain)
    {
      && IsList(next, chain)
      && Packed(Flat(chain), items)
      && numItemsList == |items|
    }

    ghost function Repr(): set<object>
      reads this
    {
      {this} + Nodes(chain)
    }

    /** entry_list_new. */
    constructor (entry: Symbol)
      ensures Valid() && items == [entry] && fresh(Repr())
    {
      var node := new Node();
      numItemsList, next := 1, node;
      items := [entry];
      new;
      node.list := node.list[0 := entry];
      chain := Link(node, node.list, End);
    }

    constructor Of(numItems: nat, first: Node, ghost chain: Chain, ghost items: seq<Symbol>)
      requires IsList(first, chain) && Packed(Flat(chain), items) && numItems == |items|
      ensures Valid() && this.chain == chain && this.items == items
    {
      numItemsList, next := numItems, first;
      this.chain, this.items := chain, items;
    }
  }

  ghost predicate Good(list: List?)
    reads list, Footprint(list)
  {
    list != null ==> list.Valid()
  }

  ghost function Items(list: List?): seq<Symbol>
    reads list
  {
    if list == null then [] else list.items
  }

  ghost function Footprint(list: List?): set<object>
    reads list
  {
    if list == null then {} else list.Repr()
  }

  /** entry_list_add. */
  method Add(list: List?, entry: Symbol) returns (r: List)
    requires Good(list)
    modifies Footprint(list)
    ensures r.Valid() && r.items == old(Items(list)) + [entry]
    ensures (list != null ==> r == list) && forall o | o in r.Repr() :: o in old(Footprint(list)) || fresh(o)
  {
    if list == null {
      r := new List(entry);
    } else {
      ghost var chain' := AddToPosRec(list.next, entry, list.numItemsList, list.chain);
      list.chain, list.items := chain', list.items + [entry];
      list.numItemsList := list.numItemsList + 1;
      r := list;
    }
  }

  /** entry_list_prepend. */
  method Prepend(list: List?, entry: Symbol) returns (r: List)
    requires Good(list)
    modifies Footprint(list)
    ensures r.Valid() && r.items == [entry] + old(Items(list))
    ensures (list != null ==> r == list) && forall o | o in r.Repr() :: o in old(Footprint(list)) || fresh(o)
  {
    if list == null {
      r := new List(entry);
    } else {
      var next;
      ghost var chain';
      next, chain' := PrependRec(list.next, entry, list.numItemsList, list.chain, list.items);
      list.next, list.chain, list.items := next, chain', [entry] + list.items;
      list.numItemsList := list.numItemsList + 1;
      r := list;
    }
  }

  ghost function Before(items: seq<Symbol>, position: Symbol, entry: Symbol): (r: seq<Symbol>)
    ensures position !in items ==> r == items
    ensures position in items ==>
              exists i :: 0 <= i < |items| && items[i] == position && position !in items[..i]
                          && r == items[..i] + [entry] + items[i..]
  {
    if position in items
    then items[..IndexOf(items, position)] + [entry] + items[IndexOf(items, position)..]
    else items
  }

  /** entry_list_add_before: before the first copy of `position`, if there is one. */
  method AddBefore(list: List, position: Symbol, entry: Symbol)
    requires list.Valid()
    modifies list.Repr()
    ensures list.Valid() && list.items == Before(old(list.items), position, entry)
    ensures fresh(list.Repr() - old(list.Repr()))
  {
    PackedIndex(Flat(list.chain), list.items, position);
    if position in list.items { PackedInsert(Flat(list.chain), list.items, IndexOf(list.items, position), entry); }
    var found, chain' := AddBeforeRec(list.next, position, entry, list.chain);
    list.chain, list.items := chain', Before(list.items, position, entry);
    if found {
      list.numItemsList := list.numItemsList + 1;
    }
  }

  /** entry_list_remove. */
  method Remove(list: List?, entry: Symbol) returns (r: List?)
    requires Good(list)
    modifies Footprint(list)
    ensures r == list && Good(r) && Items(r) == Removed(old(Items(list)), entry) && Footprint(r) == old(Footprint(list))
  {
    r := list;
    if list == null { return; }
    PackedRemove(Flat(list.chain), list.items, entry);
    var numberOfMatches, chain' := RemoveRec(list.next, entry, list.chain);
    list.chain, list.items := chain', Removed(list.items, entry);
    list.numItemsList := list.numItemsList - numberOfMatches;
  }

  ghost predicate LinkAt(ds: seq<Node>, rows: seq<Slots>, i: nat)
    requires i < |ds| == |rows|
    reads ds[i]
  {
    ds[i].list == rows[i] && ds[i].next == if i + 1 < |ds| then ds[i + 1] else null
  }

  /** The nodes `ds`, each linked to the next one, with the slots `rows`. */
  ghost predicate Row(first: Node?, ds: seq<Node>, rows: seq<Slots>)
    reads ds
  {
    && |ds| == |rows|
    && first == (if ds == [] then null else ds[0])
    && NoDup(ds)
    && forall i {:trigger LinkAt(ds, rows, i)} | 0 <= i < |ds| :: LinkAt(ds, rows, i)
  }

  ghost function ChainOf(ds: seq<Node>, rows: seq<Slots>, i: nat): Chain
    requires i <= |ds| == |rows|
    decreases |ds| - i
  {
    if i == |ds| then End else Link(ds[i], rows[i], ChainOf(ds, rows, i + 1))
  }

  lemma {:induction false} NodesOfChain(ds: seq<Node>, rows: seq<Slots>, i: nat)
    requires i <= |ds| == |rows|
    ensures forall n :: n in Nodes(ChainOf(ds, rows, i)) <==> n in ds[i..]
    decreases |ds| - i
  {
    if i < |ds| {
      NodesOfChain(ds, rows, i + 1);
      assert ds[i..] == [ds[i]] + ds[i + 1..];
    }
  }

  lemma {:induction false} RowIsList(first: Node?, ds: seq<Node>, rows: seq<Slots>, i: nat)
    requires Row(first, ds, rows) && i <= |ds|
    ensures Nodes(ChainOf(ds, rows, i)) <= (set n | n in ds)
    ensures IsList(if i < |ds| then ds[i] else null, ChainOf(ds, rows, i))
    decreases |ds| - i
  {
    if i < |ds| {
      RowIsList(first, ds, rows, i + 1);
      assert LinkAt(ds, rows, i);
      NodesOfChain(ds, rows, i + 1);
      forall j | i < j < |ds| ensures ds[j] != ds[i] { NotBefore(ds, i, j); }
    }
  }

  /** One more node at the end of a row. */
  method Append(first: Node?, last: Node?, node: Node, ghost ds: seq<Node>, ghost rows: seq<Slots>) returns (r: Node)
    requires Row(first, ds, rows) && node !in ds && node.next == null
    requires last == if ds == [] then null else ds[|ds| - 1]
    modifies if last == null then {} else {last}
    ensures Row(r, ds + [node], rows + [node.list])
  {
    forall i | 0 <= i < |ds| - 1 ensures ds[i] != ds[|ds| - 1] { NotBefore(ds, i, |ds| - 1); }
    assert forall i | 0 <= i < |ds| :: LinkAt(ds, rows, i);
    r := if last == null then node else first;
    if last != null { last.next := node; }
    ghost var es := ds + [node];
    assert es[..|ds|] == ds && Fresh(node, ds);
    forall i | 0 <= i < |es| ensures LinkAt(es, rows + [node.list], i) {
      assert i < |ds| - 1 ==> old(LinkAt(ds, rows, i));
      assert i == |ds| - 1 ==> old(LinkAt(ds, rows, i));
    }
  }

  ghost function RowsOf(c: Chain): seq<Slots> {
    match c
    case End => []
    case Link(_, slots, rest) => [slots] + RowsOf(rest)
  }

  lemma {:induction false} ChainOfRows(ds: seq<Node>, rows: seq<Slots>, i: nat)
    requires i <= |ds| == |rows|
    ensures RowsOf(ChainOf(ds, rows, i)) == rows[i..]
    decreases |ds| - i
  {
    if i < |ds| {
      ChainOfRows(ds, rows, i + 1);
    }
  }

  lemma {:induction false} SameRowsSameFlat(c: Chain, d: Chain)
    requires RowsOf(c) == RowsOf(d)
    ensures Flat(c) == Flat(d)
  {
    if c.Link? && d.Link? {
      assert RowsOf(c)[0] == RowsOf(d)[0] && RowsOf(c)[1..] == RowsOf(d)[1..];
      SameRowsSameFlat(c.rest, d.rest);
    }
  }

  method CopyNode(it: Node) returns (node: Node)
    ensures fresh(node) && node.list == it.list && node.next == null
  {
    node := new Node();
    var i := 0;
    while i < NUM_IMMEDIATE
      invariant i <= NUM_IMMEDIATE && node.list[..i] == it.list[..i] && node.next == null
    {
      node.list := node.list[i := it.list[i]];
      i := i + 1;
    }
  }

  /** One turn of the loop of entry_list_copy. */
  method AppendCopy(it: Node, first: Node?, last: Node?, ghost ds: seq<Node>, ghost rows: seq<Slots>, ghost rest: Chain)
    returns (r: Node, node: Node)
    requires Row(first, ds, rows) && IsList(it, rest) && forall n | n in Nodes(rest) :: n !in ds
    requires last == if ds == [] then null else ds[|ds| - 1]
    modifies if last == null then {} else {last}
    ensures fresh(node) && Row(r, ds + [node], rows + [rest.slots]) && IsList(it.next, rest.rest)
  {
    assert allocated(ds) && allocated(Nodes(rest)) && it in Nodes(rest);
    assert last != null ==> last in ds;
    node := CopyNode(it);
    r := Append(first, last, node, ds, rows);
  }

  /** The loop of entry_list_copy: new nodes with the same slots. */
  method CopyNodes(head: Node, ghost c: Chain) returns (first: Node, ghost c': Chain)
    requires IsList(head, c)
    ensures IsList(first, c') && (forall n | n in Nodes(c') :: fresh(n)) && Flat(c') == Flat(c)
  {
    var it: Node? := head;
    var start: Node?, last: Node? := null, null;
    ghost var rest, ds, rows := c, [], [];
    assert allocated(Nodes(c));
    while it != null
      invariant IsList(it, rest) && Nodes(rest) <= Nodes(c) && Row(start, ds, rows)
      invariant (forall n | n in ds :: fresh(n)) && (last == null || fresh(last))
      invariant last == if ds == [] then null else ds[|ds| - 1]
      invariant RowsOf(c) == rows + RowsOf(rest)
      decreases rest
    {
      var node;
      start, node := AppendCopy(it, start, last, ds, rows, rest);
      assert rows + RowsOf(rest) == (rows + [rest.slots]) + RowsOf(rest.rest);
      ds, rows := ds + [node], rows + [rest.slots];
      last := node;
      it, rest := it.next, rest.rest;
    }
    assert ds != [];
    first := start;
    c' := CopiedChain(start, ds, rows, c);
  }

  lemma CopiedChain(first: Node?, ds: seq<Node>, rows: seq<Slots>, c: Chain) returns (c': Chain)
    requires Row(first, ds, rows) && rows == RowsOf(c)
    ensures IsList(first, c') && Flat(c') == Flat(c)
    ensures forall n | n in Nodes(c') :: n in ds
  {
    c' := ChainOf(ds, rows, 0);
    RowIsList(first, ds, rows, 0);
    ChainOfRows(ds, rows, 0);
    SameRowsSameFlat(c', c);
  }

  /** entry_list_copy. */
  method Copy(list: List?) returns (r: List?)
    requires Good(list)
    ensures (r == null <==> list == null) && Good(r)
    ensures Items(r) == Items(list) && fresh(Footprint(r)) && Good(list) && Items(list) == old(Items(list))
  {
    if list == null { return null; }
    assert allocated(Footprint(list));
    var first, chain := CopyNodes(list.next, list.chain);
    r := new List.Of(list.numItemsList, first, chain, list.items);
  }

  ghost function HeadOf(c: Chain): Node? {
    if c.End? then null else c.node
  }

  /** The nodes of `c` after the first `k`. */
  ghost function Drop(c: Chain, k: nat): Chain {
    if k == 0 || c.End? then c else Drop(c.rest, k - 1)
  }

  lemma {:induction false} DropNext(c: Chain, k: nat)
    requires Drop(c, k).Link?
    ensures Drop(c, k + 1) == Drop(c, k).rest
  {
    if k > 0 { DropNext(c.rest, k - 1); }
  }

  lemma {:induction false} DropFlat(c: Chain, k: nat)
    requires NUM_IMMEDIATE * k <= |Flat(c)|
    ensures Flat(Drop(c, k)) == Flat(c)[NUM_IMMEDIATE * k..]
  {
    if k > 0 { DropFlat(c.rest, k - 1); }
  }

  lemma {:induction false} DropList(head: Node?, c: Chain, k: nat)
    requires IsList(head, c)
    ensures Nodes(Drop(c, k)) <= Nodes(c) && IsList(HeadOf(Drop(c, k)), Drop(c, k))
  {
    if k > 0 && c.Link? { DropList(c.node.next, c.rest, k - 1); }
  }

  /** An iterator over the items of a list. */
  class Iterator {
    var currentPos: nat
    var totalPos: nat
    var currentList: Node?
    const firstList: List?

    /** The current node is the one that holds the item number `totalPos`. */
    ghost predicate Valid()
      reads this, firstList
    {
      && currentPos == totalPos % NUM_IMMEDIATE
      && (firstList != null ==> currentList == HeadOf(Drop(firstList.chain, totalPos / NUM_IMMEDIATE)))
    }

    /** entry_list_iterator_begin. */
    constructor (list: List?)
      requires Good(list)
      ensures Valid() && firstList == list && totalPos == 0
    {
      firstList := list;
      currentList := if list != null then list.next else null;
      currentPos, totalPos := 0, 0;
    }

    /** entry_list_iterator_end. */
    predicate AtEnd()
      reads this, firstList
    {
      firstList == null || totalPos >= firstList.numItemsList
    }

    /** At an item there is a node. */
    lemma AtItem()
      requires Valid() && Good(firstList) && !AtEnd()
      ensures currentList != null && currentList in Nodes(firstList.chain)
      ensures currentList.list[currentPos] == firstList.items[totalPos]
      ensures currentPos == NUM_IMMEDIATE - 1 ==>
                currentList.next == HeadOf(Drop(firstList.chain, totalPos / NUM_IMMEDIATE + 1))
    {
      var c, k := firstList.chain, totalPos / NUM_IMMEDIATE;
      DropList(firstList.next, c, k);
      DropFlat(c, k);
      assert Flat(Drop(c, k))[currentPos] == Flat(c)[totalPos];
      DropNext(c, k);
      DropList(firstList.next, c, k + 1);
    }

    /** entry_list_iterator_current. */
    function Current(): (e: Symbol)
      requires Valid() && Good(firstList) && !AtEnd()
      reads this, firstList, Footprint(firstList)
      ensures totalPos < |Items(firstList)| && e == Items(firstList)[totalPos]
    {
      AtItem();
      currentList.list[currentPos]
    }

    /** entry_list_iterator_next. */
    method Next()
      requires Valid() && Good(firstList) && !AtEnd()
      modifies this
      ensures Valid() && totalPos == old(totalPos) + 1
    {
      AtItem();
      currentPos := currentPos + 1;
      totalPos := totalPos + 1;
      if currentPos == NUM_IMMEDIATE {
        currentPos := 0;
        currentList := currentList.next;
      }
    }
  }

  /** Iterating over a list: every item, in order. */
  method Elements(list: List?) returns (elems: seq<Symbol>)
    requires Good(list)
    ensures elems == Items(list) && Good(list) && Items(list) == old(Items(list))
  {
    elems := [];
    ghost var items := Items(list);
    assert allocated(Footprint(list));
    var it := new Iterator(list);
    while !it.AtEnd()
      invariant it.Valid() && Good(list) && it.totalPos == |elems| <= |items| && Items(list) == items
      invariant elems == items[..|elems|]
      decreases |items| - it.totalPos
    {
      var entry := it.Current();
      NextPrefix(items, |elems|);
      elems := elems + [entry];
      it.Next();
    }
  }

  /** entry_list_contains. */
  method Contains(list: List?, entry: Symbol) returns (result: bool)
    requires Good(list)
    ensures (result <==> entry in Items(list)) && Good(list) && Items(list) == old(Items(list))
  {
    result := false;
    if list == null { return; }
    ghost var items := Items(list);
    assert allocated(Footprint(list));
    var it := new Iterator(list);
    while !it.AtEnd() && !result
      invariant it.Valid() && Good(list) && it.totalPos <= |items| && Items(list) == items
      invariant result <==> entry in items[..it.totalPos]
      decreases |items| - it.totalPos
    {
      NextPrefix(items, it.totalPos);
      var current := it.Current();
      if current == entry { result := true; }
      it.Next();
    }
  }

  /** The two arrays of entry_list_merge end with null. */
  function WithNull(elems: seq<Symbol>): seq<Entry> {
    elems + [NULL]
  }

  ghost predicate Permutes(sort: seq<Symbol> -> seq<Symbol>, elems: seq<Symbol>) {
    multiset(sort(elems)) == multiset(elems)
  }

  /** Skips the copies of an element that follow one another. */
  method SkipCopies(elems: seq<Symbol>, start: nat) returns (p: nat)
    requires start < |elems|
    ensures start <= p < |elems| && elems[p] == elems[start]
    ensures forall x :: x in elems[start..] <==> x in elems[p..]
  {
    p := start;
    while WithNull(elems)[p] == WithNull(elems)[p + 1]
      invariant start <= p < |elems| && elems[p] == elems[start]
      invariant forall x :: x in elems[start..] <==> x in elems[p..]
      decreases |elems| - p
    {
      assert elems[p..] == [elems[p]] + elems[p + 1..];
      p := p + 1;
    }
  }

  /** `result` accounts for what the loops of the merge have passed. */
  ghost predicate Merging(xs: seq<Symbol>, p: nat, ys: seq<Symbol>, q: nat, result: seq<Symbol>) {
    && p <= |xs| && q <= |ys| && |result| <= p + q
    && forall x :: x in xs || x in ys <==> x in result || x in xs[p..] || x in ys[q..]
  }

  lemma MergingStep(xs: seq<Symbol>, p: nat, p': nat, ys: seq<Symbol>, q: nat, q': nat, result: seq<Symbol>, e: Symbol)
    requires Merging(xs, p, ys, q, result) && p <= p' <= |xs| && q <= q' <= |ys| && p + q < p' + q'
    requires e in xs[p..] || e in ys[q..]
    requires forall x :: (x in xs[p'..] ==> x in xs[p..]) && (x in xs[p..] ==> x in xs[p'..] || x == e)
    requires forall x :: (x in ys[q'..] ==> x in ys[q..]) && (x in ys[q..] ==> x in ys[q'..] || x == e)
    ensures Merging(xs, p', ys, q', result + [e])
  {
  }

  /** One turn of the main loop of entry_list_merge. */
  method MergeTurn(xs: seq<Symbol>, p: nat, ys: seq<Symbol>, q: nat, result: List?) returns (r: List, p': nat, q': nat)
    requires Good(result) && Merging(xs, p, ys, q, Items(result)) && p < |xs| && q < |ys|
    modifies Footprint(result)
    ensures r.Valid() && Merging(xs, p', ys, q', r.items) && p + q < p' + q'
    ensures forall o | o in r.Repr() :: o in old(Footprint(result)) || fresh(o)
  {
    assert allocated(Footprint(result));
    p' := SkipCopies(xs, p);
    q' := SkipCopies(ys, q);
    var e := if xs[p'] <= ys[q'] then xs[p'] else ys[q'];
    ghost var items := Items(result);
    var first, second := xs[p'] <= ys[q'], ys[q'] <= xs[p'];
    DropHead(xs, p');
    DropHead(ys, q');
    if first { p' := p' + 1; }
    if second { q' := q' + 1; }
    r := Add(result, e);
    MergingStep(xs, p, p', ys, q, q', items, e);
  }

  lemma DropHead(s: seq<Symbol>, p: nat)
    requires p < |s|
    ensures forall x :: x in s[p..] <==> x == s[p] || x in s[p + 1..]
  {
  }

  /** The last loops of entry_list_merge: the rest of one array. */
  method MergeRest(xs: seq<Symbol>, p: nat, ys: seq<Symbol>, q: nat, result: List?) returns (r: List?)
    requires Good(result) && Merging(xs, p, ys, q, Items(result))
    modifies Footprint(result)
    ensures Good(r) && Merging(xs, |xs|, ys, q, Items(r))
    ensures forall o | o in Footprint(r) :: o in old(Footprint(result)) || fresh(o)
  {
    r := result;
    var i := p;
    while WithNull(xs)[i] != NULL
      invariant p <= i <= |xs| && Good(r) && Merging(xs, i, ys, q, Items(r))
      invariant forall o | o in Footprint(r) :: o in old(Footprint(result)) || fresh(o)
      decreases |xs| - i
    {
      ghost var items := Items(r);
      DropHead(xs, i);
      r := Add(r, xs[i]);
      MergingStep(xs, i, i + 1, ys, q, q, items, xs[i]);
      i := i + 1;
    }
  }

  /** The elements of a list in an array of their own, after qsort. */
  method SortedElements(list: List?, sort: seq<Symbol> -> seq<Symbol>) returns (elems: seq<Symbol>)
    requires Good(list) && Permutes(sort, Items(list))
    ensures |elems| == |Items(list)| && forall x :: x in elems <==> x in Items(list)
  {
    ghost var items := Items(list);
    elems := Elements(list);
    elems := sort(elems);
    SameMembers(elems, items);
  }

  /** entry_list_merge, for any permutation that qsort makes: the union of both lists, not longer
      than both together. */
  method Merge(list1: List?, list2: List?,
               sort1: seq<Symbol> -> seq<Symbol>, sort2: seq<Symbol> -> seq<Symbol>)
    returns (result: List?)
    requires Good(list1) && Good(list2)
    requires Permutes(sort1, Items(list1)) && Permutes(sort2, Items(list2))
    ensures Good(result) && forall o | o in Footprint(result) :: fresh(o)
    ensures forall x :: x in Items(result) <==> x in Items(list1) || x in Items(list2)
    ensures |Items(result)| <= |Items(list1)| + |Items(list2)|
  {
    assert allocated(Footprint(list1)) && allocated(Footprint(list2));
    var elems1 := SortedElements(list1, sort1);
    var elems2 := SortedElements(list2, sort2);
    result := null;
    var p: nat, q: nat := 0, 0;
    while WithNull(elems1)[p] != NULL && WithNull(elems2)[q] != NULL
      invariant Good(result) && Merging(elems1, p, elems2, q, Items(result))
      invariant forall o | o in Footprint(result) :: fresh(o)
      decreases |elems1| + |elems2| - p - q
    {
      result, p, q := MergeTurn(elems1, p, elems2, q, result);
    }
    result := MergeRest(elems1, p, elems2, q, result);
    MergingSwap(elems1, |elems1|, elems2, q, Items(result));
    result := MergeRest(elems2, q, elems1, |elems1|, result);
  }

  lemma MergingSwap(xs: seq<Symbol>, p: nat, ys: seq<Symbol>, q: nat, result: seq<Symbol>)
    requires Merging(xs, p, ys, q, result)
    ensures Merging(ys, q, xs, p, result)
  {
  }

  /** entry_list_add_once. */
  method AddOnce(list: List?, entry: Symbol) returns (r: List)
    requires Good(list)
    modifies Footprint(list)
    ensures r.Valid() && r.items == if entry in old(Items(list)) then old(Items(list)) else old(Items(list)) + [entry]
    ensures (list != null ==> r == list) && forall o | o in r.Repr() :: o in old(Footprint(list)) || fresh(o)
  {
    assert allocated(Footprint(list));
    var found := Contains(list, entry);
    if found { return list; }
    r := Add(list, entry);
  }
}
