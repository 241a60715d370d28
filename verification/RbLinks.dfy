/** How a red-black tree is laid out in memory: the link fields that each node of a zipper
    must hold, and how rotating, attaching, splicing and replacing change them node by node. */
module RbLinks {
  import opened RbShape

  datatype Links = Links(left: RbNode, right: RbNode, parent: RbNode, red: bool)

  datatype Sentinels = Sentinels(root: RbNode, nil: RbNode)

  ghost function Head(t: Shape, s: Sentinels): RbNode { if t.Nil? then s.nil else t.node }

  /** The node above the hole of a context: a real node or the root sentinel. */
  ghost function Above(c: Ctx, s: Sentinels): RbNode { if c.Top? then s.root else c.node }

  /** The link fields of node `n` of a tree shaped `t` that hangs from `up`. */
  ghost function TLinks(t: Shape, up: RbNode, n: RbNode, s: Sentinels): Links {
    match t
    case Nil => Links(s.nil, s.nil, s.nil, false)
    case Fork(l, k, red, r) =>
      if n == k then Links(Head(l, s), Head(r, s), up, red)
      else if n in Nodes(l) then TLinks(l, k, n, s)
      else TLinks(r, k, n, s)
  }

  /** The link fields of node `n` of a context whose hole holds the pointer `hole`; the root
      sentinel is black and uses its left link only. */
  ghost function CLinks(c: Ctx, hole: RbNode, n: RbNode, s: Sentinels): Links {
    match c
    case Top => Links(hole, s.nil, s.nil, false)
    case Left(up, k, red, r) =>
      if n == k then Links(hole, Head(r, s), Above(up, s), red)
      else if n in Nodes(r) then TLinks(r, k, n, s)
      else CLinks(up, k, n, s)
    case Right(up, l, k, red) =>
      if n == k then Links(Head(l, s), hole, Above(up, s), red)
      else if n in Nodes(l) then TLinks(l, k, n, s)
      else CLinks(up, k, n, s)
  }

  ghost function ZLinks(c: Ctx, t: Shape, n: RbNode, s: Sentinels): Links {
    if n in Nodes(t) then TLinks(t, Above(c, s), n, s) else CLinks(c, Head(t, s), n, s)
  }

  ghost function Cells(c: Ctx, t: Shape, s: Sentinels): set<RbNode> { CNodes(c) + Nodes(t) + {s.root} }

  ghost predicate Proper(c: Ctx, t: Shape, s: Sentinels) {
    ZDistinct(c, t) && s.nil !in Cells(c, t, s) && s.root !in CNodes(c) + Nodes(t)
  }

  // ----- moving a zipper

  lemma FillLinks(c: Ctx, t: Shape, s: Sentinels)
    requires !c.Top?
    ensures Cells(c, t, s) == Cells(c.up, Fill(c, t), s)
    ensures Proper(c, t, s) <==> Proper(c.up, Fill(c, t), s)
    ensures Proper(c, t, s) ==>
              forall n | n in Cells(c, t, s) :: ZLinks(c, t, n, s) == ZLinks(c.up, Fill(c, t), n, s)
  {
  }

  lemma {:induction false} PlugLinks(c: Ctx, t: Shape, s: Sentinels)
    requires Proper(c, t, s)
    ensures Proper(Top, Plug(c, t), s) && Cells(Top, Plug(c, t), s) == Cells(c, t, s)
    ensures forall n | n in Cells(c, t, s) :: ZLinks(c, t, n, s) == ZLinks(Top, Plug(c, t), n, s)
    decreases c
  {
    if !c.Top? {
      FillLinks(c, t, s);
      PlugLinks(c.up, Fill(c, t), s);
    }
  }

  // ----- elementary changes

  /** What the links of the node above the hole become when the hole gets another pointer. */
  ghost function Refill(k: Links, c: Ctx, hole: RbNode): Links {
    if c.Right? then k.(right := hole) else k.(left := hole)
  }

  lemma RefillLinks(c: Ctx, hole: RbNode, hole': RbNode, n: RbNode, s: Sentinels)
    requires n in CNodes(c) + {s.root} && s.root !in CNodes(c) && CDistinct(c)
    ensures CLinks(c, hole', n, s) == if n == Above(c, s) then Refill(CLinks(c, hole, n, s), c, hole')
                                      else CLinks(c, hole, n, s)
  {
  }

  lemma ReparentLinks(t: Shape, up: RbNode, up': RbNode, n: RbNode, s: Sentinels)
    requires n in Nodes(t)
    ensures TLinks(t, up', n, s) == if n == t.node then TLinks(t, up, n, s).(parent := up') else TLinks(t, up, n, s)
  {
  }

  lemma PaintLinks(c: Ctx, t: Shape, red: bool, s: Sentinels)
    requires t.Fork? && Proper(c, t, s)
    ensures Proper(c, Painted(t, red), s) && Cells(c, Painted(t, red), s) == Cells(c, t, s)
    ensures forall n | n in Cells(c, t, s) ::
              ZLinks(c, Painted(t, red), n, s) ==
              if n == t.node then ZLinks(c, t, n, s).(red := red) else ZLinks(c, t, n, s)
  {
  }

  /** The comparison with the node above the hole tells which of its children the hole is. */
  lemma BracketsAbove(comp: Comparator, c: Ctx, q: Address, s: Sentinels)
    requires Brackets(comp, c, q)
    ensures !c.Top? ==> (comp(Above(c, s).key, q) > 0 <==> c.Left?)
  {
  }

  // ----- rotations

  ghost predicate IsRightHeavy(t: Shape) { t.Fork? && t.right.Fork? }

  ghost function RotatedLeft(t: Shape): (r: Shape)
    requires IsRightHeavy(t)
    ensures r.Fork? && r.left.Fork?
  {
    Fork(Fork(t.left, t.node, t.red, t.right.left), t.right.node, t.right.red, t.right.right)
  }

  ghost predicate IsLeftHeavy(t: Shape) { t.Fork? && t.left.Fork? }

  ghost function RotatedRight(t: Shape): (r: Shape)
    requires IsLeftHeavy(t)
    ensures r.Fork? && r.right.Fork?
  {
    Fork(t.left.left, t.left.node, t.left.red, Fork(t.left.right, t.node, t.red, t.right))
  }

  lemma LeftRotationView(c: Ctx, t: Shape, s: Sentinels)
    requires IsRightHeavy(t) && Proper(c, t, s)
    ensures var x, y, b, up := t.node, t.right.node, Head(t.right.left, s), Above(c, s);
            && {x, y, up} <= Cells(c, t, s) && (b != s.nil ==> b in Cells(c, t, s))
            && x != y && up !in {x, y, b} && b !in {x, y}
            && ZLinks(c, t, x, s).right == y && ZLinks(c, t, y, s).left == b && ZLinks(c, t, x, s).parent == up
            && (c.Right? ==> ZLinks(c, t, up, s).left != x && ZLinks(c, t, up, s).right == x)
            && (!c.Right? ==> ZLinks(c, t, up, s).left == x)
  {
    assert Distinct(t.right) && t.right.node in Nodes(t.right);
    assert TLinks(t.right, t.node, t.right.node, s).left == Head(t.right.left, s);
    assert t.right.left.Fork? ==> t.right.left.node in Nodes(t.right.left);
    if c.Right? { assert c.left.Fork? ==> c.left.node in Nodes(c.left); }
  }

  lemma RightRotationView(c: Ctx, t: Shape, s: Sentinels)
    requires IsLeftHeavy(t) && Proper(c, t, s)
    ensures var y, x, b, up := t.node, t.left.node, Head(t.left.right, s), Above(c, s);
            && {x, y, up} <= Cells(c, t, s) && (b != s.nil ==> b in Cells(c, t, s))
            && x != y && up !in {x, y, b} && b !in {x, y}
            && ZLinks(c, t, y, s).left == x && ZLinks(c, t, x, s).right == b && ZLinks(c, t, y, s).parent == up
            && (c.Right? ==> ZLinks(c, t, up, s).left != y && ZLinks(c, t, up, s).right == y)
            && (!c.Right? ==> ZLinks(c, t, up, s).left == y)
  {
    assert Distinct(t.left) && t.left.node in Nodes(t.left);
    assert TLinks(t.left, t.node, t.left.node, s).right == Head(t.left.right, s);
    assert t.left.right.Fork? ==> t.left.right.node in Nodes(t.left.right);
    if c.Right? { assert c.left.Fork? ==> c.left.node in Nodes(c.left); }
  }

  /** The effect of a left rotation on one node: `x` goes below `y`, `b` changes sides. */
  ghost function LeftRotationAt(k: Links, n: RbNode, c: Ctx, x: RbNode, y: RbNode, b: RbNode, up: RbNode): Links {
    if n == x then k.(right := b, parent := y)
    else if n == y then k.(left := x, parent := up)
    else if n == up then Refill(k, c, y)
    else if n == b then k.(parent := x)
    else k
  }

  ghost function RightRotationAt(k: Links, n: RbNode, c: Ctx, y: RbNode, x: RbNode, b: RbNode, up: RbNode): Links {
    if n == y then k.(left := b, parent := x)
    else if n == x then k.(right := y, parent := up)
    else if n == up then Refill(k, c, x)
    else if n == b then k.(parent := y)
    else k
  }

  lemma RotationOrder(t: Shape)
    ensures IsRightHeavy(t) ==> InOrder(RotatedLeft(t)) == InOrder(t) && Nodes(RotatedLeft(t)) == Nodes(t)
    ensures IsLeftHeavy(t) ==> InOrder(RotatedRight(t)) == InOrder(t) && Nodes(RotatedRight(t)) == Nodes(t)
  {
  }

  lemma LeftRotationLinks(c: Ctx, t: Shape, s: Sentinels)
    requires IsRightHeavy(t) && Proper(c, t, s)
    ensures Proper(c, RotatedLeft(t), s) && Cells(c, RotatedLeft(t), s) == Cells(c, t, s)
    ensures forall n | n in Cells(c, t, s) ::
              ZLinks(c, RotatedLeft(t), n, s) ==
              LeftRotationAt(ZLinks(c, t, n, s), n, c, t.node, t.right.node, Head(t.right.left, s), Above(c, s))
  {
    var Fork(a, x, rx, yt) := t;
    var Fork(b, y, ry, g) := yt;
    var xt := Fork(a, x, rx, b);
    RotationOrder(t);
    assert Distinct(yt) && Nodes(yt) == Nodes(b) + {y} + Nodes(g);
    assert Distinct(xt) && Nodes(xt) == Nodes(a) + {x} + Nodes(b);
    forall n | n in Cells(c, t, s)
      ensures ZLinks(c, RotatedLeft(t), n, s) == LeftRotationAt(ZLinks(c, t, n, s), n, c, x, y, Head(b, s), Above(c, s))
    {
      assert TLinks(yt, x, n, s) == if n == y then Links(Head(b, s), Head(g, s), x, ry)
                                    else if n in Nodes(b) then TLinks(b, y, n, s) else TLinks(g, y, n, s);
      assert TLinks(xt, y, n, s) == if n == x then Links(Head(a, s), Head(b, s), y, rx)
                                    else if n in Nodes(a) then TLinks(a, x, n, s) else TLinks(b, x, n, s);
    }
  }

  lemma RightRotationLinks(c: Ctx, t: Shape, s: Sentinels)
    requires IsLeftHeavy(t) && Proper(c, t, s)
    ensures Proper(c, RotatedRight(t), s) && Cells(c, RotatedRight(t), s) == Cells(c, t, s)
    ensures forall n | n in Cells(c, t, s) ::
              ZLinks(c, RotatedRight(t), n, s) ==
              RightRotationAt(ZLinks(c, t, n, s), n, c, t.node, t.left.node, Head(t.left.right, s), Above(c, s))
  {
    var Fork(xt, y, ry, g) := t;
    var Fork(a, x, rx, b) := xt;
    var yt := Fork(b, y, ry, g);
    RotationOrder(t);
    assert Distinct(xt) && Nodes(xt) == Nodes(a) + {x} + Nodes(b);
    assert Distinct(yt) && Nodes(yt) == Nodes(b) + {y} + Nodes(g);
    forall n | n in Cells(c, t, s)
      ensures ZLinks(c, RotatedRight(t), n, s)
           == RightRotationAt(ZLinks(c, t, n, s), n, c, y, x, Head(b, s), Above(c, s))
    {
      assert TLinks(xt, y, n, s) == if n == x then Links(Head(a, s), Head(b, s), y, rx)
                                    else if n in Nodes(a) then TLinks(a, x, n, s) else TLinks(b, x, n, s);
      assert TLinks(yt, x, n, s) == if n == y then Links(Head(b, s), Head(g, s), x, ry)
                                    else if n in Nodes(b) then TLinks(b, y, n, s) else TLinks(g, y, n, s);
    }
  }

  // ----- attaching, splicing and replacing nodes

  /** Storing a new leaf in an empty hole. */
  lemma AttachLinks(c: Ctx, z: RbNode, red: bool, s: Sentinels)
    requires Proper(c, Nil, s) && z !in Cells(c, Nil, s) && z != s.nil
    ensures var leaf := Fork(Nil, z, red, Nil);
            && Proper(c, leaf, s) && Cells(c, leaf, s) == Cells(c, Nil, s) + {z}
            && forall n | n in Cells(c, leaf, s) ::
                 ZLinks(c, leaf, n, s) ==
                 if n == z then Links(s.nil, s.nil, Above(c, s), red)
                 else if n == Above(c, s) then Refill(ZLinks(c, Nil, n, s), c, z)
                 else ZLinks(c, Nil, n, s)
  {
  }

  /** Cutting out a node with one subtree `x` at most. */
  lemma SpliceLinks(c: Ctx, t: Shape, x: Shape, s: Sentinels)
    requires t.Fork? && Proper(c, t, s)
    requires (t.left.Nil? && x == t.right) || (t.right.Nil? && x == t.left)
    ensures Proper(c, x, s) && Cells(c, x, s) == Cells(c, t, s) - {t.node}
    ensures forall n | n in Cells(c, x, s) ::
              ZLinks(c, x, n, s) ==
              if n == Head(x, s) then ZLinks(c, t, n, s).(parent := Above(c, s))
              else if n == Above(c, s) then Refill(ZLinks(c, t, n, s), c, Head(x, s))
              else ZLinks(c, t, n, s)
  {
    forall n | n in Cells(c, x, s)
      ensures ZLinks(c, x, n, s) ==
              if n == Head(x, s) then ZLinks(c, t, n, s).(parent := Above(c, s))
              else if n == Above(c, s) then Refill(ZLinks(c, t, n, s), c, Head(x, s))
              else ZLinks(c, t, n, s)
    {
      if n in Nodes(x) {
        ReparentLinks(x, t.node, Above(c, s), n, s);
      } else {
        RefillLinks(c, t.node, Head(x, s), n, s);
      }
    }
  }

  /** Putting node `y` in the place of the focus node. */
  lemma ReplaceLinks(c: Ctx, t: Shape, y: RbNode, s: Sentinels)
    requires t.Fork? && Proper(c, t, s) && y !in Cells(c, t, s) && y != s.nil
    ensures var t' := t.(node := y);
            && Proper(c, t', s) && Cells(c, t', s) == Cells(c, t, s) - {t.node} + {y}
            && forall n | n in Cells(c, t', s) ::
                 ZLinks(c, t', n, s) ==
                 if n == y then ZLinks(c, t, t.node, s)
                 else if n == Head(t.left, s) || n == Head(t.right, s) then ZLinks(c, t, n, s).(parent := y)
                 else if n == Above(c, s) then Refill(ZLinks(c, t, n, s), c, y)
                 else ZLinks(c, t, n, s)
  {
    var t' := t.(node := y);
    forall n | n in Cells(c, t', s)
      ensures ZLinks(c, t', n, s) ==
              if n == y then ZLinks(c, t, t.node, s)
              else if n == Head(t.left, s) || n == Head(t.right, s) then ZLinks(c, t, n, s).(parent := y)
              else if n == Above(c, s) then Refill(ZLinks(c, t, n, s), c, y)
              else ZLinks(c, t, n, s)
    {
      if n in Nodes(t.left) {
        ReparentLinks(t.left, t.node, y, n, s);
      } else if n in Nodes(t.right) {
        ReparentLinks(t.right, t.node, y, n, s);
      } else if n != y {
        RefillLinks(c, t.node, y, n, s);
      }
    }
  }

  lemma ChildrenInside(c: Ctx, t: Shape, s: Sentinels)
    requires t.Fork? && Proper(c, t, s)
    ensures forall k | k in {t.left, t.right} && k.Fork? ::
              k.node in Nodes(t) && k.node != t.node && k.node != Above(c, s)
    ensures t.left.Fork? && t.right.Fork? ==> t.left.node != t.right.node
    ensures c.Right? ==> Head(c.left, s) != t.node
    ensures Above(c, s) != t.node
  {
  }
}
