/** uniquestr as a table of chains that moves a found string to the front of its chain. */
module CharHash {
  import opened CStrings
  import opened Chains
  import opened Interning

  const HASH_LENGTH := 76003

  type Link = Cell<bv32, CString>
  type MaybeLink = Cell?<bv32, CString>

  /** One turn of the loop of hash_string; a `char` is signed. */
  function HashStep(hash: bv32, c: Byte): bv32 {
    var byte := c as int as bv32;
    ((hash << 5) + hash) ^ (if c < 128 then byte else byte | 0xFFFF_FF00)
  }

  /** The hash so far times 33, combined with the character, which is negative from 128 on. */
  lemma HashStepTimes33(hash: bv32, c: Byte)
    ensures c < 128 ==> HashStep(hash, c) == (hash * 33) ^ (c as int as bv32)
    ensures c >= 128 ==> HashStep(hash, c) == (hash * 33) ^ ((c as int as bv32) - 256)
  {
  }

  function Hash(s: Str): bv32 {
    if s == [] then 0 else HashStep(Hash(s[..|s| - 1]), s[|s| - 1])
  }

  /** The characters enter the hash from the first one to the last one. */
  lemma HashMore(s: Str, c: Byte)
    ensures Hash([]) == 0 && Hash(s + [c]) == HashStep(Hash(s), c)
  {
    assert (s + [c])[..|s|] == s;
  }

  /** hash_string. */
  method HashString(s: Str) returns (hash: bv32)
    ensures hash == Hash(s)
  {
    hash := 0;
    var p := 0;
    while p < |s|
      invariant 0 <= p <= |s| && hash == Hash(s[..p])
    {
      hash := HashStep(hash, s[p]);
      assert s[..p + 1][..p] == s[..p];
      p := p + 1;
    }
    assert s[..|s|] == s;
  }

  function Index(hash: bv32): nat {
    (hash as int) % HASH_LENGTH
  }

  /** A cell keeps the hash `f` of its string, and its string is the one of the dictionary. */
  ghost predicate Keeps(f: Str -> bv32, c: Link, d: Dictionary)
    reads c`value
  {
    var s := c.value.text;
    c.key == f(s) && s in d && d[s] == c.value
  }

  ghost predicate HasCell(cells: set<Link>, d: Dictionary, s: Str)
    requires s in d
    reads cells`value
  {
    exists c :: c in cells && c.value == d[s]
  }

  /** The cells hold the handles of the dictionary, and no others. */
  ghost predicate Holds(f: Str -> bv32, cells: set<Link>, d: Dictionary)
    reads cells`value
  {
    && Faithful(d)
    && (forall c | c in cells :: Keeps(f, c, d))
    && (forall s {:trigger HasCell(cells, d, s)} | s in d :: HasCell(cells, d, s))
  }

  /** The search loop of uniquestr in one chain. */
  method Find(head: MaybeLink, ghost cs: seq<Link>, s: Str, hash: bv32)
    returns (prev: MaybeLink, p: MaybeLink, ghost i: nat)
    requires IsChain(head, cs)
    requires forall c | c in cs :: c.value.text == s ==> c.key == hash
    ensures p == At(cs, i) && i <= |cs| && prev == (if i == 0 then null else cs[i - 1])
    ensures p != null ==> i < |cs| && p.value.text == s
    ensures p == null ==> forall c | c in cs :: c.value.text != s
  {
    p, prev, i := head, null, 0;
    while p != null && !(p.key == hash && p.value.text == s)
      invariant i <= |cs| && p == At(cs, i)
      invariant prev == (if i == 0 then null else cs[i - 1])
      invariant forall k | 0 <= k < i :: cs[k].value.text != s
      decreases |cs| - i
    {
      prev, p := p, p.next;
      i := i + 1;
    }
  }

  /** A string of the dictionary is in the chain that its hash selects. */
  lemma InItsChain(f: Str -> bv32, chains: seq<seq<Link>>, cells: set<Link>, d: Dictionary, s: Str)
    requires Placed(Index, chains, cells) && Holds(f, cells, d) && s in d && Index(f(s)) < |chains|
    ensures exists c :: c in chains[Index(f(s))] && c.value.text == s
  {
    assert HasCell(cells, d, s);
    var c :| c in cells && c.value == d[s];
    assert Keeps(f, c, d);
  }

  lemma HoldsOneMore(f: Str -> bv32, cells: set<Link>, d: Dictionary, c: Link)
    requires Holds(f, cells, d) && c.key == f(c.value.text) && c.value.text !in d
    ensures Holds(f, cells + {c}, d[c.value.text := c.value])
  {
    var s, cells', d' := c.value.text, cells + {c}, d[c.value.text := c.value];
    forall c' | c' in cells' ensures Keeps(f, c', d') {
      assert c' != c ==> Keeps(f, c', d);
    }
    forall t | t in d' ensures HasCell(cells', d', t) {
      if t == s { assert c in cells'; } else {
        assert HasCell(cells, d, t);
        var c' :| c' in cells && c'.value == d[t];
        assert c' in cells';
      }
    }
  }

  /** A found string moves to the front of its chain, unless it is there. */
  method MoveUp(table: array<MaybeLink>, b: nat, prev: MaybeLink, p: Link,
                ghost chains: seq<seq<Link>>, ghost cells: set<Link>, ghost i: nat)
    returns (ghost chains': seq<seq<Link>>)
    requires IsTable(Index, table, chains, cells) && b < |chains| && i < |chains[b]|
    requires p == chains[b][i] && prev == (if i == 0 then null else chains[b][i - 1])
    modifies table, cells`next
    ensures IsTable(Index, table, chains', cells)
    ensures |chains'| == |chains| && multiset(chains'[b]) == multiset(chains[b])
    ensures forall b' | 0 <= b' < |chains| && b' != b :: chains'[b'] == chains[b']
  {
    chains' := chains;
    if p != table[b] {
      FrontPermutes(chains[b], i);
      assert p in chains[b] && prev in chains[b];
      Promote(Index, table, b, prev, p, chains, cells, i);
      chains' := chains[b := [p] + Without(chains[b], i)];
    }
  }

  /** A string that is not found is copied and becomes the first one of its chain. */
  method AddString(ghost f: Str -> bv32, table: array<MaybeLink>, s: Str, hash: bv32,
                   ghost chains: seq<seq<Link>>, ghost cells: set<Link>, ghost d: Dictionary)
    returns (h: CString, ghost chains': seq<seq<Link>>, ghost cells': set<Link>)
    requires IsTable(Index, table, chains, cells) && Holds(f, cells, d)
    requires s !in d && hash == f(s) && Index(hash) < |chains|
    modifies table
    ensures Interned(d, s, h, d[s := h]) && fresh(cells' - cells) && |chains'| == |chains|
    ensures IsTable(Index, table, chains', cells') && Holds(f, cells', d[s := h])
  {
    assert allocated(cells) && allocated(d);
    h := new CString(s);
    var newLink := new Cell(hash, h);
    Push(Index, table, Index(hash), newLink, chains, cells);
    cells' := cells + {newLink};
    assert Holds(f, cells, d);
    HoldsOneMore(f, cells, d, newLink);
    chains' := chains[Index(hash) := [newLink] + chains[Index(hash)]];
  }

  /** What uniquestr does once it has the hash. */
  method Intern(ghost f: Str -> bv32, table: array<MaybeLink>, s: Str, hash: bv32,
                ghost chains: seq<seq<Link>>, ghost cells: set<Link>, ghost d: Dictionary)
    returns (h: CString, ghost chains': seq<seq<Link>>, ghost cells': set<Link>, ghost d': Dictionary)
    requires IsTable(Index, table, chains, cells) && Holds(f, cells, d)
    requires hash == f(s) && Index(hash) < |chains|
    modifies table, cells`next
    ensures IsTable(Index, table, chains', cells') && Holds(f, cells', d') && |chains'| == |chains|
    ensures Interned(d, s, h, d') && fresh(cells' - cells)
    ensures s in d ==> cells' == cells
  {
    var b := Index(hash);
    assert forall c | c in chains[b] :: c in cells && Keeps(f, c, d);
    var prev, p, i := Find(table[b], chains[b], s, hash);
    if p != null {
      assert p in chains[b];
      h, d', cells' := p.value, d, cells;
      chains' := MoveUp(table, b, prev, p, chains, cells, i);
    } else {
      if s in d { InItsChain(f, chains, cells, d, s); assert false; }
      h, chains', cells' := AddString(f, table, s, hash, chains, cells, d);
      d' := d[s := h];
    }
  }

  /** What the table stands for. */
  datatype View = View(chains: seq<seq<Link>>, cells: set<Link>, dictionary: Dictionary)

  class Table {
    const table: array<MaybeLink>
    ghost var view: View

    ghost predicate Valid()
      reads this, table, view.cells
    {
      && table.Length == |view.chains| == HASH_LENGTH
      && IsTable(Index, table, view.chains, view.cells)
      && Holds(Hash, view.cells, view.dictionary)
    }

    constructor ()
      ensures Valid() && view.dictionary == map[] && fresh(table)
    {
      table := new MaybeLink[HASH_LENGTH](_ => null);
      view := View(seq(HASH_LENGTH, _ => []), {}, map[]);
    }

    method UniqueText(s: Str, hash: bv32) returns (h: CString)
      requires Valid() && hash == Hash(s)
      modifies this`view, table, view.cells`next
      ensures Valid() && fresh(view.cells - old(view.cells))
      ensures Interned(old(view.dictionary), s, h, view.dictionary)
      ensures s in old(view.dictionary) ==> view.cells == old(view.cells)
    {
      ghost var chains, cells, dictionary;
      h, chains, cells, dictionary := Intern(Hash, table, s, hash, view.chains, view.cells, view.dictionary);
      view := View(chains, cells, dictionary);
    }

    /** uniquestr, for the table of chains. */
    method UniqueStr(arg: Argument) returns (h: CString?)
      requires Valid()
      modifies this`view, table, view.cells`next
      ensures Valid() && fresh(view.cells - old(view.cells))
      ensures Called(old(view.dictionary), arg, h, view.dictionary)
      ensures arg == Null ==> view == old(view)
      ensures arg != Null && arg.text in old(view.dictionary) ==> view.cells == old(view.cells)
    {
      if arg == Null { return null; }
      var hash := HashString(arg.text);
      h := UniqueText(arg.text, hash);
    }
  }
}
