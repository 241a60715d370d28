/** The mathematical side of the red-black tree: node objects, the ghost tree shapes
    that describe how they are linked, and the zipper contexts that describe the rest
    of the tree around a position. Nothing in this module reads the heap. */
module RbShape {

  /** A `const void*` of the original: an address, 0 being the null pointer. */
  type Address = int

  /** `comp_func`: positive when the first key is greater, negative when it is smaller. */
  type Comparator = (Address, Address) -> int

  class RbNode {
    const key: Address
    var info: Address
    var red: bool
    var left: RbNode
    var right: RbNode
    var parent: RbNode

    /** NEW(rb_red_blk_node): the links are set by whoever allocates the node. */
    constructor (key: Address, info: Address)
      ensures this.key == key && this.info == info && !red
      ensures left == this && right == this && parent == this
    {
      this.key, this.info, red := key, info, false;
      left, right, parent := this, this, this;
    }
  }

  /** `comp_func` is an arbitrary total preorder. */
  ghost predicate TotalPreorder(comp: Comparator) {
    && (forall a, b :: comp(a, b) > 0 <==> comp(b, a) < 0)
    && (forall a, b, c :: comp(a, b) <= 0 && comp(b, c) <= 0 ==> comp(a, c) <= 0)
  }

  datatype Shape = Nil | Fork(left: Shape, node: RbNode, red: bool, right: Shape)

  /** The tree around a hole: the hole is the left (Left) or right (Right) child of `node`. */
  datatype Ctx =
    | Top
    | Left(up: Ctx, node: RbNode, red: bool, right: Shape)
    | Right(up: Ctx, left: Shape, node: RbNode, red: bool)

  ghost function Plug(c: Ctx, t: Shape): Shape {
    match c
    case Top => t
    case Left(up, n, red, r) => Plug(up, Fork(t, n, red, r))
    case Right(up, l, n, red) => Plug(up, Fork(l, n, red, t))
  }

  ghost function Nodes(t: Shape): set<RbNode> {
    match t
    case Nil => {}
    case Fork(l, n, _, r) => Nodes(l) + {n} + Nodes(r)
  }

  ghost function CNodes(c: Ctx): set<RbNode> {
    match c
    case Top => {}
    case Left(up, n, _, r) => CNodes(up) + {n} + Nodes(r)
    case Right(up, l, n, _) => CNodes(up) + Nodes(l) + {n}
  }

  ghost predicate Distinct(t: Shape) {
    match t
    case Nil => true
    case Fork(l, n, _, r) =>
      && n !in Nodes(l) && n !in Nodes(r) && Nodes(l) !! Nodes(r)
      && Distinct(l) && Distinct(r)
  }

  ghost predicate CDistinct(c: Ctx) {
    match c
    case Top => true
    case Left(up, n, _, r) =>
      n !in Nodes(r) && n !in CNodes(up) && Nodes(r) !! CNodes(up) && Distinct(r) && CDistinct(up)
    case Right(up, l, n, _) =>
      n !in Nodes(l) && n !in CNodes(up) && Nodes(l) !! CNodes(up) && Distinct(l) && CDistinct(up)
  }

  ghost predicate ZDistinct(c: Ctx, t: Shape) {
    CDistinct(c) && Distinct(t) && CNodes(c) !! Nodes(t)
  }

  // ----- in-order sequences

  ghost function InOrder(t: Shape): seq<RbNode> {
    match t
    case Nil => []
    case Fork(l, n, _, r) => InOrder(l) + [n] + InOrder(r)
  }

  ghost function Before(c: Ctx): seq<RbNode> {
    match c
    case Top => []
    case Left(up, _, _, _) => Before(up)
    case Right(up, l, n, _) => Before(up) + InOrder(l) + [n]
  }

  ghost function After(c: Ctx): seq<RbNode> {
    match c
    case Top => []
    case Left(up, n, _, r) => [n] + InOrder(r) + After(up)
    case Right(up, _, _, _) => After(up)
  }

  lemma Regroup(a: seq<RbNode>, l: seq<RbNode>, k: seq<RbNode>, r: seq<RbNode>, b: seq<RbNode>)
    ensures a + (l + k + r) + b == (a + l) + k + (r + b)
    ensures a + (l + k + r) + b == (a + l + k) + r + b
    ensures a + (l + k + r) + b == a + l + (k + r + b)
    ensures a + (l + r) + b == (a + l) + (r + b)
  {
  }

  lemma {:induction false} PlugInOrder(c: Ctx, t: Shape)
    ensures InOrder(Plug(c, t)) == Before(c) + InOrder(t) + After(c)
    decreases c
  {
    match c
    case Top =>
    case Left(up, n, red, r) =>
      PlugInOrder(up, Fork(t, n, red, r));
      Regroup(Before(up), InOrder(t), [n], InOrder(r), After(up));
    case Right(up, l, n, red) =>
      PlugInOrder(up, Fork(l, n, red, t));
      Regroup(Before(up), InOrder(l), [n], InOrder(t), After(up));
  }

  lemma {:induction false} PlugNodes(c: Ctx, t: Shape)
    ensures Nodes(Plug(c, t)) == CNodes(c) + Nodes(t)
    ensures Distinct(Plug(c, t)) <==> ZDistinct(c, t)
    decreases c
  {
    match c
    case Top =>
    case Left(up, n, red, r) => PlugNodes(up, Fork(t, n, red, r));
    case Right(up, l, n, red) => PlugNodes(up, Fork(l, n, red, t));
  }

  /** Every node of a shape is the root of some subtree of it. */
  lemma {:induction false} Locate(c: Ctx, t: Shape, z: RbNode) returns (cz: Ctx, l: Shape, red: bool, r: Shape)
    requires z in Nodes(t)
    ensures Plug(c, t) == Plug(cz, Fork(l, z, red, r))
    decreases t
  {
    if t.node == z {
      cz, l, red, r := c, t.left, t.red, t.right;
    } else if z in Nodes(t.left) {
      cz, l, red, r := Locate(Left(c, t.node, t.red, t.right), t.left, z);
    } else {
      cz, l, red, r := Locate(Right(c, t.left, t.node, t.red), t.right, z);
    }
  }

  lemma {:induction false} InOrderNodes(t: Shape)
    ensures forall n | n in InOrder(t) :: n in Nodes(t)
    ensures forall n | n in Nodes(t) :: n in InOrder(t)
    ensures |InOrder(t)| == Size(t)
  {
    match t
    case Nil =>
    case Fork(l, _, _, r) => InOrderNodes(l); InOrderNodes(r);
  }

  ghost function Size(t: Shape): nat {
    match t
    case Nil => 0
    case Fork(l, _, _, r) => Size(l) + 1 + Size(r)
  }

  /** Keys strictly increase. */
  ghost predicate Sorted(comp: Comparator, s: seq<RbNode>) {
    forall i, j {:trigger Less(comp, s[i].key, s[j].key)} | 0 <= i < j < |s| :: Less(comp, s[i].key, s[j].key)
  }

  ghost predicate Less(comp: Comparator, a: Address, b: Address) { comp(a, b) < 0 }

  /** `t` is `s` with the node `z` put in at some place. */
  ghost predicate OneMore(s: seq<RbNode>, z: RbNode, t: seq<RbNode>) {
    |t| == |s| + 1 && exists i | 0 <= i < |t| :: t[i] == z && s == t[..i] + t[i + 1..]
  }

  lemma InsertedAt(a: seq<RbNode>, z: RbNode, b: seq<RbNode>)
    ensures OneMore(a + b, z, a + [z] + b)
  {
    var t := a + [z] + b;
    assert t[|a|] == z && a + b == t[..|a|] + t[|a| + 1..];
  }

  /** The key `q` belongs in the hole: it lies between the nodes before and after it. */
  ghost predicate Brackets(comp: Comparator, c: Ctx, q: Address) {
    && (forall n | n in Before(c) :: comp(n.key, q) < 0)
    && (forall n | n in After(c) :: comp(n.key, q) > 0)
  }

  lemma SortedDistinct(comp: Comparator, s: seq<RbNode>)
    requires TotalPreorder(comp) && Sorted(comp, s)
    ensures forall i, j | 0 <= i < j < |s| :: s[i] != s[j]
  {
    forall i, j | 0 <= i < j < |s| ensures s[i] != s[j] {
      assert Less(comp, s[i].key, s[j].key);
    }
  }

  lemma SortedSplit(comp: Comparator, p: seq<RbNode>, k: RbNode, r: seq<RbNode>)
    requires Sorted(comp, p + [k] + r)
    ensures forall n | n in p :: comp(n.key, k.key) < 0
    ensures forall n | n in r :: comp(k.key, n.key) < 0
  {
    var s := p + [k] + r;
    assert s[|p|] == k;
    forall n | n in p ensures comp(n.key, k.key) < 0 {
      var i :| 0 <= i < |p| && p[i] == n;
      assert s[i] == n && Less(comp, s[i].key, s[|p|].key);
    }
    forall n | n in r ensures comp(k.key, n.key) < 0 {
      var i :| 0 <= i < |r| && r[i] == n;
      assert s[|p| + 1 + i] == n && Less(comp, s[|p|].key, s[|p| + 1 + i].key);
    }
  }

  lemma SortedAround(comp: Comparator, c: Ctx, t: Shape)
    requires t.Fork? && Sorted(comp, InOrder(Plug(c, t)))
    ensures forall n | n in InOrder(t.left) :: comp(n.key, t.node.key) < 0
    ensures forall n | n in InOrder(t.right) :: comp(t.node.key, n.key) < 0
  {
    PlugInOrder(c, t);
    var p, r := Before(c) + InOrder(t.left), InOrder(t.right) + After(c);
    assert InOrder(Plug(c, t)) == p + [t.node] + r;
    SortedSplit(comp, p, t.node, r);
  }

  lemma BracketsLeft(comp: Comparator, c: Ctx, t: Shape, q: Address)
    requires TotalPreorder(comp) && Sorted(comp, InOrder(Plug(c, t)))
    requires t.Fork? && Brackets(comp, c, q) && comp(t.node.key, q) > 0
    ensures Brackets(comp, Left(c, t.node, t.red, t.right), q)
  {
    SortedAround(comp, c, t);
  }

  lemma BracketsRight(comp: Comparator, c: Ctx, t: Shape, q: Address)
    requires TotalPreorder(comp) && Sorted(comp, InOrder(Plug(c, t)))
    requires t.Fork? && Brackets(comp, c, q) && comp(t.node.key, q) < 0
    ensures Brackets(comp, Right(c, t.left, t.node, t.red), q)
  {
    SortedAround(comp, c, t);
  }

  lemma PlugNil(c: Ctx)
    ensures InOrder(Plug(c, Nil)) == Before(c) + After(c)
  {
    PlugInOrder(c, Nil);
    assert Before(c) + [] == Before(c);
  }

  lemma BracketsNil(comp: Comparator, c: Ctx, q: Address)
    requires Brackets(comp, c, q)
    ensures forall n | n in InOrder(Plug(c, Nil)) :: comp(n.key, q) != 0
  {
    PlugNil(c);
  }

  lemma SortedInsert(comp: Comparator, a: seq<RbNode>, z: RbNode, b: seq<RbNode>)
    requires TotalPreorder(comp) && Sorted(comp, a + b)
    requires forall n | n in a :: comp(n.key, z.key) < 0
    requires forall n | n in b :: comp(n.key, z.key) > 0
    ensures Sorted(comp, a + [z] + b)
  {
    var s := a + [z] + b;
    forall i, j | 0 <= i < j < |s| ensures Less(comp, s[i].key, s[j].key) {
      var i', j' := if i > |a| then i - 1 else i, if j > |a| then j - 1 else j;
      assert i != |a| ==> s[i] == (a + b)[i'] && s[i] in a + b;
      assert j != |a| ==> s[j] == (a + b)[j'];
      if i == |a| { assert s[j] in b; } else if j == |a| { assert s[i] in a; } else {
        assert Less(comp, (a + b)[i'].key, (a + b)[j'].key);
      }
    }
  }

  // ----- the red-black invariant

  ghost predicate IsRed(t: Shape) { t.Fork? && t.red }

  ghost predicate NoRedRed(t: Shape) {
    match t
    case Nil => true
    case Fork(l, _, red, r) => NoRedRed(l) && NoRedRed(r) && (red ==> !IsRed(l) && !IsRed(r))
  }

  /** Number of black nodes on the leftmost path; by `Balanced`, on every path. */
  ghost function BlackHeight(t: Shape): nat {
    match t
    case Nil => 0
    case Fork(l, _, red, _) => BlackHeight(l) + if red then 0 else 1
  }

  ghost predicate Balanced(t: Shape) {
    match t
    case Nil => true
    case Fork(l, _, _, r) => Balanced(l) && Balanced(r) && BlackHeight(l) == BlackHeight(r)
  }

  ghost predicate RedBlack(t: Shape) { NoRedRed(t) && Balanced(t) && !IsRed(t) }

  ghost predicate CRed(c: Ctx) { !c.Top? && c.red }

  /** No red node of the context has a red child, the hole not counted. */
  ghost predicate CNoRedRed(c: Ctx) {
    match c
    case Top => true
    case Left(up, _, red, r) => NoRedRed(r) && CNoRedRed(up) && (red ==> !IsRed(r) && !CRed(up))
    case Right(up, l, _, red) => NoRedRed(l) && CNoRedRed(up) && (red ==> !IsRed(l) && !CRed(up))
  }

  /** The context is balanced once its hole holds a tree of black height `h`. */
  ghost predicate CBalanced(c: Ctx, h: nat) {
    match c
    case Top => true
    case Left(up, _, red, r) => Balanced(r) && BlackHeight(r) == h && CBalanced(up, h + if red then 0 else 1)
    case Right(up, l, _, red) => Balanced(l) && BlackHeight(l) == h && CBalanced(up, h + if red then 0 else 1)
  }

  ghost predicate CRootBlack(c: Ctx) {
    match c
    case Top => true
    case Left(up, _, red, _) => if up.Top? then !red else CRootBlack(up)
    case Right(up, _, _, red) => if up.Top? then !red else CRootBlack(up)
  }

  /** The context is red-black and waits for a tree of black height `h`. */
  ghost predicate CRedBlack(c: Ctx, h: nat) { CNoRedRed(c) && CBalanced(c, h) && CRootBlack(c) }

  ghost predicate Fits(c: Ctx, t: Shape) {
    && NoRedRed(t) && Balanced(t)
    && CRedBlack(c, BlackHeight(t))
    && (CRed(c) || c.Top? ==> !IsRed(t))
  }

  lemma {:induction false} PlugFits(c: Ctx, t: Shape)
    ensures RedBlack(Plug(c, t)) <==> Fits(c, t)
    decreases c
  {
    match c
    case Top =>
    case Left(up, n, red, r) => PlugFits(up, Fork(t, n, red, r));
    case Right(up, l, n, red) => PlugFits(up, Fork(l, n, red, t));
  }

  /** The same tree with another colour at its root. */
  ghost function Painted(t: Shape, red: bool): Shape {
    match t
    case Nil => Nil
    case Fork(l, n, _, r) => Fork(l, n, red, r)
  }

  // ----- one step up a zipper

  /** The subtree of the node above the hole, the hole filled with `t`. */
  ghost function Fill(c: Ctx, t: Shape): (f: Shape)
    requires !c.Top?
    ensures Plug(c.up, f) == Plug(c, t)
    ensures f.Fork? && f.node == c.node && f.red == c.red
  {
    if c.Left? then Fork(t, c.node, c.red, c.right) else Fork(c.left, c.node, c.red, t)
  }

  /** The context of the sibling of the hole, once the hole is filled with `t`. */
  ghost function Beside(c: Ctx, t: Shape): (b: Ctx)
    requires !c.Top?
    ensures !b.Top? && b.up == c.up
    ensures Fill(b, Sibling(c)) == Fill(c, t)
  {
    if c.Left? then Right(c.up, t, c.node, c.red) else Left(c.up, c.node, c.red, t)
  }

  /** The other child of the node above the hole. */
  ghost function Sibling(c: Ctx): Shape
    requires !c.Top?
  {
    if c.Left? then c.right else c.left
  }

  lemma SameOrder(c: Ctx, t: Shape, t': Shape)
    requires InOrder(t) == InOrder(t')
    ensures InOrder(Plug(c, t)) == InOrder(Plug(c, t'))
  {
    PlugInOrder(c, t);
    PlugInOrder(c, t');
  }

  lemma PlugHas(c: Ctx, t: Shape)
    ensures t.Fork? ==> t.node in InOrder(Plug(c, t)) && t.node in Nodes(Plug(c, t))
  {
    PlugInOrder(c, t);
    PlugNodes(c, t);
  }

  // ----- height

  function Pow2(n: nat): nat { if n == 0 then 1 else 2 * Pow2(n - 1) }

  ghost function Max(a: nat, b: nat): nat { if a < b then b else a }

  ghost function Height(t: Shape): nat {
    match t
    case Nil => 0
    case Fork(l, _, _, r) => 1 + Max(Height(l), Height(r))
  }

  lemma {:induction false} SizeAtLeast(t: Shape)
    requires Balanced(t)
    ensures Size(t) + 1 >= Pow2(BlackHeight(t))
  {
    match t
    case Nil =>
    case Fork(l, _, _, r) => SizeAtLeast(l); SizeAtLeast(r);
  }

  lemma {:induction false} HeightAtMost(t: Shape)
    requires Balanced(t) && NoRedRed(t)
    ensures Height(t) <= 2 * BlackHeight(t) + if IsRed(t) then 1 else 0
  {
    match t
    case Nil =>
    case Fork(l, _, _, r) => HeightAtMost(l); HeightAtMost(r);
  }

  lemma {:induction false} Pow2Square(a: nat, h: nat)
    requires h <= 2 * a
    ensures Pow2(h) <= Pow2(a) * Pow2(a)
    decreases a
  {
    if a == 0 {
    } else {
      Pow2Square(a - 1, if h < 2 then 0 else h - 2);
      var p := Pow2(a - 1);
      assert Pow2(a) * Pow2(a) == 4 * (p * p);
      if h >= 2 { assert Pow2(h) == 4 * Pow2(h - 2); } else { assert Pow2(h) <= 2; }
    }
  }

  /** A red-black tree of n nodes has height h with 2^h <= (n+1)^2. */
  lemma HeightBound(t: Shape)
    requires RedBlack(t)
    ensures Logarithmic(Height(t), Size(t))
  {
    SizeAtLeast(t);
    HeightAtMost(t);
    Pow2Square(BlackHeight(t), Height(t));
    SquareMonotone(Pow2(BlackHeight(t)), Size(t) + 1);
  }

  lemma {:induction false} Pow2Monotone(a: nat, b: nat)
    requires a <= b
    ensures Pow2(a) <= Pow2(b)
  {
    if a < b { Pow2Monotone(a, b - 1); }
  }

  /** At most 2 * log2(n + 1), without logarithms. */
  ghost predicate Logarithmic(h: nat, n: nat) { Pow2(h) <= (n + 1) * (n + 1) }

  lemma SquareMonotone(a: nat, b: nat)
    requires a <= b
    ensures a * a <= b * b
  {
  }
}
