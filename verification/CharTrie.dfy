/** uniquestr as a trie whose nodes keep their elements sorted. */
module CharTrie {
  import opened CStrings
  import opened Interning

  /** An element of a node: code 0 ends a string and keeps its copy, any other code leads on. */
  datatype Element = Element(elem: nat, str: CString?, next: Node?)

  datatype MaybeElement = NoElement | Found(element: Element)

  class Node {
    /** The text that leads here from the root. */
    ghost const path: Str
    var elements: seq<Element>

    constructor (ghost path: Str)
      ensures this.path == path && elements == []
    {
      this.path, elements := path, [];
    }
  }

  ghost predicate Sorted(es: seq<Element>) {
    forall i, j | 0 <= i < j < |es| :: es[i].elem < es[j].elem
  }

  ghost predicate HasCode(es: seq<Element>, code: nat) {
    exists e :: e in es && e.elem == code
  }

  /** lookup_element_rec: binary search between two positions. */
  function LookupElementRec(es: seq<Element>, entity: nat, lower: int, upper: int): MaybeElement
    requires 0 <= lower && upper < |es|
    decreases upper - lower + 1
  {
    if lower > upper then NoElement
    else
      var middle := (lower + upper) / 2;
      if entity < es[middle].elem then LookupElementRec(es, entity, lower, middle - 1)
      else if es[middle].elem < entity then LookupElementRec(es, entity, middle + 1, upper)
      else Found(es[middle])
  }

  function LookupElement(es: seq<Element>, entity: nat): MaybeElement {
    LookupElementRec(es, entity, 0, |es| - 1)
  }

  lemma {:induction false} SearchRec(es: seq<Element>, entity: nat, lower: int, upper: int)
    requires Sorted(es) && 0 <= lower && upper < |es|
    ensures match LookupElementRec(es, entity, lower, upper)
      case NoElement => forall i | lower <= i <= upper :: es[i].elem != entity
      case Found(e) => e in es && e.elem == entity
    decreases upper - lower + 1
  {
    if lower <= upper {
      var middle := (lower + upper) / 2;
      if entity < es[middle].elem {
        SearchRec(es, entity, lower, middle - 1);
      } else if es[middle].elem < entity {
        SearchRec(es, entity, middle + 1, upper);
      }
    }
  }

  /** On sorted elements the binary search is exact. */
  lemma SearchIsExact(es: seq<Element>, entity: nat)
    requires Sorted(es)
    ensures LookupElement(es, entity).Found? <==> HasCode(es, entity)
    ensures LookupElement(es, entity).Found? ==> LookupElement(es, entity).element in es
    ensures LookupElement(es, entity).Found? ==> LookupElement(es, entity).element.elem == entity
  {
    SearchRec(es, entity, 0, |es| - 1);
  }

  /** The string ends here exactly when the first element has code 0. */
  lemma EndIsFirst(es: seq<Element>)
    requires Sorted(es)
    ensures HasCode(es, 0) <==> |es| > 0 && es[0].elem == 0
  {
  }

  /** An element leads to the node one byte further, or keeps the copy of the text that ends. */
  ghost predicate ElementOk(path: Str, e: Element, nodes: set<Node>, d: Dictionary) {
    if e.elem == 0 then path in d && d[path] == e.str
    else e.elem < 256 && e.next != null && e.next in nodes && e.next.path == path + [e.elem as Byte]
  }

  ghost predicate NodeOk(n: Node, nodes: set<Node>, d: Dictionary)
    reads n`elements
  {
    && Sorted(n.elements)
    && forall e | e in n.elements :: ElementOk(n.path, e, nodes, d)
  }

  ghost predicate SamePath(m: Node, n: Node) {
    m.path == n.path
  }

  /** Different nodes have different paths. */
  ghost predicate Distinct(nodes: set<Node>) {
    forall m, n {:trigger SamePath(m, n)} | m in nodes && n in nodes :: SamePath(m, n) ==> m == n
  }

  /** `n` is the root, or an element of another node leads to it. */
  ghost predicate Reached(n: Node, nodes: set<Node>)
    reads nodes`elements
  {
    n.path == [] || exists m, e :: m in nodes && e in m.elements && e.elem != 0 && e.next == n
  }

  ghost predicate HasEnd(s: Str, nodes: set<Node>)
    reads nodes`elements
  {
    exists n :: n in nodes && n.path == s && HasCode(n.elements, 0)
  }

  ghost predicate Whole(root: Node, nodes: set<Node>, d: Dictionary)
    reads nodes`elements
  {
    && root in nodes && root.path == []
    && Faithful(d)
    && (forall n {:trigger NodeOk(n, nodes, d)} | n in nodes :: NodeOk(n, nodes, d))
    && Distinct(nodes)
    && (forall n {:trigger Reached(n, nodes)} | n in nodes :: Reached(n, nodes))
    && (forall s {:trigger HasEnd(s, nodes)} | s in d :: HasEnd(s, nodes))
  }

  /** A string that is stored below `n` leads on through an element of `n`. */
  lemma {:induction false} LeadsOn(root: Node, nodes: set<Node>, d: Dictionary, n: Node, m: Node)
    requires Whole(root, nodes, d) && n in nodes && m in nodes
    requires n.path < m.path
    ensures HasCode(n.elements, m.path[|n.path|] as int)
    decreases |m.path|
  {
    assert Reached(m, nodes);
    var p, e :| p in nodes && e in p.elements && e.elem != 0 && e.next == m;
    assert NodeOk(p, nodes, d);
    assert ElementOk(p.path, e, nodes, d);
    if |p.path| == |n.path| {
      assert SamePath(p, n);
    } else {
      assert p.path == m.path[..|p.path|];
      LeadsOn(root, nodes, d, n, p);
    }
  }

  /** lookup_list. */
  method LookupList(n: Node, s: Str, ghost root: Node, ghost nodes: set<Node>, ghost d: Dictionary)
    returns (h: CString?)
    requires Whole(root, nodes, d) && n in nodes
    ensures h == if n.path + s in d then d[n.path + s] else null
    decreases |s|
  {
    assert NodeOk(n, nodes, d);
    if s == [] {
      EndIsFirst(n.elements);
      assert n.path + s == n.path;
      if |n.elements| > 0 && n.elements[0].elem == 0 {
        assert ElementOk(n.path, n.elements[0], nodes, d);
        return n.elements[0].str;
      }
      if n.path in d { Ends(root, nodes, d, n); }
      return null;
    }
    SearchIsExact(n.elements, s[0] as int);
    var elem := LookupElement(n.elements, s[0] as int);
    if elem.NoElement? {
      if n.path + s in d { Below(root, nodes, d, n, s); }
      return null;
    }
    assert ElementOk(n.path, elem.element, nodes, d);
    assert n.path + s == n.path + [s[0]] + s[1..];
    h := LookupList(elem.element.next, s[1..], root, nodes, d);
  }

  lemma Ends(root: Node, nodes: set<Node>, d: Dictionary, n: Node)
    requires Whole(root, nodes, d) && n in nodes && n.path in d
    ensures HasCode(n.elements, 0)
  {
    assert HasEnd(n.path, nodes);
    var m :| m in nodes && m.path == n.path && HasCode(m.elements, 0);
    assert SamePath(m, n);
  }

  lemma Below(root: Node, nodes: set<Node>, d: Dictionary, n: Node, s: Str)
    requires Whole(root, nodes, d) && n in nodes && s != [] && n.path + s in d
    ensures HasCode(n.elements, s[0] as int)
  {
    assert HasEnd(n.path + s, nodes);
    var m :| m in nodes && m.path == n.path + s && HasCode(m.elements, 0);
    LeadsOn(root, nodes, d, n, m);
  }

  /** create_elements, the search: where a code that is not there would go. */
  method FindPlace(es: seq<Element>, code: nat) returns (lower: nat)
    requires Sorted(es) && forall i | 0 <= i < |es| :: es[i].elem != code
    ensures lower <= |es|
    ensures forall i | 0 <= i < lower :: es[i].elem < code
    ensures forall i | lower <= i < |es| :: code < es[i].elem
  {
    lower := 0;
    var upper := |es| - 1;
    while lower <= upper
      invariant lower <= upper + 1 <= |es|
      invariant forall i | 0 <= i < lower :: es[i].elem < code
      invariant forall i | upper < i < |es| :: code < es[i].elem
      decreases upper + 1 - lower
    {
      var middle := (lower + upper) / 2;
      if code < es[middle].elem {
        upper := middle - 1;
      } else if es[middle].elem < code {
        lower := middle + 1;
      } else {
        // The call of abort.
        assert false;
      }
    }
  }

  lemma ShiftOne(elems: seq<Element>, es: seq<Element>, i: nat)
    requires 0 < i <= |es| && |elems| == |es| + 1
    requires elems[..i] == es[..i] && elems[i + 1..] == es[i..]
    ensures var shifted := elems[i := elems[i - 1]]; shifted[..i - 1] == es[..i - 1] && shifted[i..] == es[i - 1..]
  {
    assert elems[i - 1] == elems[..i][i - 1] == es[i - 1];
    assert elems[i := elems[i - 1]][i..] == [es[i - 1]] + elems[i + 1..];
    assert es[i - 1..] == [es[i - 1]] + es[i..];
    assert elems[i := elems[i - 1]][..i - 1] == elems[..i][..i - 1];
  }

  /** The loop that shifts the elements from `lower` on one position to the right. */
  method ShiftRight(n: Node, lower: nat, ghost es: seq<Element>)
    requires lower <= |es| && |n.elements| == |es| + 1 && n.elements[..|es|] == es
    modifies n`elements
    ensures |n.elements| == |es| + 1 && n.elements[..lower] == es[..lower] && n.elements[lower + 1..] == es[lower..]
  {
    var i := |n.elements| - 1;
    while i > lower
      invariant lower <= i <= |es| && |n.elements| == |es| + 1
      invariant n.elements[..i] == es[..i] && n.elements[i + 1..] == es[i..]
    {
      ShiftOne(n.elements, es, i);
      n.elements := n.elements[i := n.elements[i - 1]];
      i := i - 1;
    }
  }

  lemma Opened(elems: seq<Element>, es: seq<Element>, lower: nat)
    requires lower <= |es| && |elems| == |es| + 1
    requires elems[..lower] == es[..lower] && elems[lower + 1..] == es[lower..]
    ensures forall i | 0 <= i < lower :: elems[i] == es[i]
    ensures forall i | lower < i < |elems| :: elems[i] == es[i - 1]
  {
    assert forall i | 0 <= i < lower :: elems[i] == elems[..lower][i];
    assert forall i | lower < i < |elems| :: elems[i] == elems[lower + 1..][i - lower - 1];
  }

  /** create_elements, the growth and the shift: opens position `lower` for `code`. */
  method OpenSlot(n: Node, code: nat) returns (lower: nat)
    requires Sorted(n.elements) && !HasCode(n.elements, code)
    modifies n`elements
    ensures lower <= |old(n.elements)| && |n.elements| == |old(n.elements)| + 1
    ensures forall i | 0 <= i < lower :: n.elements[i] == old(n.elements)[i] && n.elements[i].elem < code
    ensures forall i | lower < i < |n.elements| :: n.elements[i] == old(n.elements)[i - 1] && code < n.elements[i].elem
  {
    ghost var es := n.elements;
    assert forall i | 0 <= i < |es| :: es[i] in es;
    lower := FindPlace(n.elements, code);
    n.elements := n.elements + [Element(0, null, null)];
    ShiftRight(n, lower, es);
    Opened(n.elements, es, lower);
  }

  /** `es'` is the sorted `es` with `e` put in order. */
  ghost predicate WithElement(es: seq<Element>, e: Element, es': seq<Element>) {
    && Sorted(es')
    && (forall x {:trigger x in es'} | x in es' :: x == e || x in es)
    && (forall x {:trigger x in es} | x in es :: x in es')
    && e in es'
  }

  method InsertElement(n: Node, e: Element)
    requires Sorted(n.elements) && !HasCode(n.elements, e.elem)
    modifies n`elements
    ensures WithElement(old(n.elements), e, n.elements)
  {
    ghost var es := n.elements;
    var lower := OpenSlot(n, e.elem);
    n.elements := n.elements[lower := e];
    forall x | x in es ensures x in n.elements {
      var k :| 0 <= k < |es| && es[k] == x;
      assert n.elements[if k < lower then k else k + 1] == x;
    }
    forall x | x in n.elements && x != e ensures x in es {
      var k :| 0 <= k < |n.elements| && n.elements[k] == x;
      assert es[if k < lower then k else k - 1] == x;
    }
    assert n.elements[lower] == e;
  }

  /** The string ends at `n`: its copy becomes its handle. */
  method AddEnd(n: Node, h: CString, ghost root: Node, ghost nodes: set<Node>, ghost d: Dictionary)
    requires Whole(root, nodes, d) && n in nodes && !HasCode(n.elements, 0) && h.text == n.path
    modifies n`elements
    ensures Whole(root, nodes, d[n.path := h])
  {
    assert NodeOk(n, nodes, d);
    var e := Element(0, h, null);
    InsertElement(n, e);
    ghost var d' := d[n.path := h];
    forall m | m in nodes ensures NodeOk(m, nodes, d') {
      assert old(NodeOk(m, nodes, d));
      if m != n { assert !SamePath(m, n); }
    }
    forall m | m in nodes ensures Reached(m, nodes) {
      assert old(Reached(m, nodes));
    }
    assert e in n.elements && HasCode(n.elements, 0);
    forall s | s in d' ensures HasEnd(s, nodes) {
      if s != n.path { assert old(HasEnd(s, nodes)); }
    }
  }

  lemma NotThere(root: Node, nodes: set<Node>, d: Dictionary, n: Node, child: Node)
    requires Whole(root, nodes, d) && n in nodes && n.path < child.path
    requires !HasCode(n.elements, child.path[|n.path|] as int)
    ensures Distinct(nodes + {child})
  {
    forall m | m in nodes ensures !SamePath(m, child) && !SamePath(child, m) {
      if n.path < m.path { LeadsOn(root, nodes, d, n, m); }
    }
  }

  /** A new node below `n`, for one more byte. */
  method AddStep(n: Node, c: Byte, child: Node, ghost root: Node, ghost nodes: set<Node>, ghost d: Dictionary)
    requires Whole(root, nodes, d) && n in nodes && !HasCode(n.elements, c as int)
    requires child !in nodes && child.path == n.path + [c] && child.elements == []
    modifies n`elements
    ensures Whole(root, nodes + {child}, d)
  {
    assert NodeOk(n, nodes, d);
    NotThere(root, nodes, d, n, child);
    var e := Element(c as int, null, child);
    InsertElement(n, e);
    ghost var nodes' := nodes + {child};
    forall m | m in nodes' ensures NodeOk(m, nodes', d) {
      if m != child { assert old(NodeOk(m, nodes, d)); }
    }
    forall m | m in nodes' ensures Reached(m, nodes') {
      if m != child { assert old(Reached(m, nodes)); }
    }
    forall s | s in d ensures HasEnd(s, nodes') {
      assert old(HasEnd(s, nodes));
    }
  }

  function FirstCode(s: Str): nat {
    if s == [] then 0 else s[0] as int
  }

  /** create_elements: what is left of the string, below a node that has no element for it. */
  method CreateElements(n: Node, origStr: Str, s: Str, ghost root: Node, ghost nodes: set<Node>, ghost d: Dictionary)
    returns (h: CString, ghost nodes': set<Node>)
    requires Whole(root, nodes, d) && n in nodes && n.path + s == origStr && !HasCode(n.elements, FirstCode(s))
    modifies n`elements
    ensures Whole(root, nodes', d[origStr := h]) && nodes <= nodes' && fresh(nodes' - nodes)
    ensures fresh(h) && h.text == origStr
    decreases |s|
  {
    assert allocated(nodes) && allocated(d);
    if s == [] {
      assert n.path == origStr;
      h := new CString(origStr);
      nodes' := nodes;
      AddEnd(n, h, root, nodes, d);
    } else {
      var child := new Node(n.path + [s[0]]);
      AddStep(n, s[0], child, root, nodes, d);
      assert n.path + s == child.path + s[1..];
      h, nodes' := CreateElements(child, origStr, s[1..], root, nodes + {child}, d);
    }
  }

  /** insert_list_rec: null exactly when the string is there already. */
  method InsertListRec(n: Node, origStr: Str, s: Str, ghost root: Node, ghost nodes: set<Node>, ghost d: Dictionary)
    returns (h: CString?, ghost nodes': set<Node>)
    requires Whole(root, nodes, d) && n in nodes && n.path + s == origStr
    modifies nodes`elements
    ensures h == null <==> origStr in d
    ensures h == null ==> nodes' == nodes && Whole(root, nodes, d)
    ensures h != null ==> Whole(root, nodes', d[origStr := h]) && nodes <= nodes' && fresh(nodes' - nodes)
    ensures h != null ==> fresh(h) && h.text == origStr
    decreases |s|
  {
    nodes' := nodes;
    assert NodeOk(n, nodes, d);
    if s == [] {
      EndIsFirst(n.elements);
      assert n.path == origStr;
      if |n.elements| == 0 || n.elements[0].elem != 0 {
        if origStr in d { Ends(root, nodes, d, n); }
        h, nodes' := CreateElements(n, origStr, s, root, nodes, d);
      } else {
        assert ElementOk(n.path, n.elements[0], nodes, d);
        h := null;
      }
    } else {
      SearchIsExact(n.elements, s[0] as int);
      var elem := LookupElement(n.elements, s[0] as int);
      if elem.NoElement? {
        if origStr in d { Below(root, nodes, d, n, s); }
        h, nodes' := CreateElements(n, origStr, s, root, nodes, d);
      } else {
        assert ElementOk(n.path, elem.element, nodes, d);
        assert n.path + s == n.path + [s[0]] + s[1..];
        h, nodes' := InsertListRec(elem.element.next, origStr, s[1..], root, nodes, d);
      }
    }
  }

  /** The global trie. */
  class Trie {
    const globalTrie: Node
    ghost var nodes: set<Node>
    ghost var dictionary: Dictionary

    ghost predicate Valid()
      reads this, nodes`elements
    {
      Whole(globalTrie, nodes, dictionary)
    }

    constructor ()
      ensures Valid() && dictionary == map[] && fresh(nodes)
    {
      globalTrie := new Node([]);
      nodes, dictionary := {globalTrie}, map[];
    }

    /** uniquestr, for the trie. */
    method UniqueStr(arg: Argument) returns (h: CString?)
      requires Valid()
      modifies this`nodes, this`dictionary, nodes`elements
      ensures Valid() && fresh(nodes - old(nodes))
      ensures Called(old(dictionary), arg, h, dictionary)
    {
      if arg == Null { return null; }
      assert [] + arg.text == arg.text;
      h := LookupList(globalTrie, arg.text, globalTrie, nodes, dictionary);
      if h == null {
        assert allocated(dictionary);
        ghost var nodes';
        h, nodes' := InsertListRec(globalTrie, arg.text, arg.text, globalTrie, nodes, dictionary);
        nodes, dictionary := nodes', dictionary[arg.text := h];
      }
    }
  }
}
