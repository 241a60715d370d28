/** The red-black tree as the program keeps it: nodes with parent pointers, a shared `nil`
    sentinel whose parent field is scratch, and a root sentinel above the real root. */
module RbTree {
  import opened Wrappers
  import opened RbShape
  import opened RbLinks
  import opened RbFixUp
  import opened RbMap

  class Tree {
    const comp: Comparator
    const root: RbNode
    const nil: RbNode

    /** The tree below the root sentinel. */
    ghost var shape: Shape

    ghost function S(): Sentinels { Sentinels(root, nil) }

    /** Every cell of the zipper holds the links that the zipper says. */
    ghost predicate Linked(c: Ctx, t: Shape)
      reads Cells(c, t, S())
    {
      && Proper(c, t, S())
      && forall n | n in Cells(c, t, S()) :: Links(n.left, n.right, n.parent, n.red) == ZLinks(c, t, n, S())
    }

    ghost predicate Valid()
      reads this, Cells(Top, shape, S()), nil
    {
      && TotalPreorder(comp)
      && Linked(Top, shape) && !nil.red
      && RedBlack(shape)
      && Sorted(comp, InOrder(shape))
    }

    constructor (comp: Comparator)
      requires TotalPreorder(comp)
      ensures Valid() && this.comp == comp && shape == Nil
      ensures fresh(root) && fresh(nil)
    {
      this.comp, shape := comp, Nil;
      var temp := new RbNode(0, 0);
      var temp2 := new RbNode(0, 0);
      temp2.left, temp2.right, temp2.parent := temp, temp, temp;
      nil, root := temp, temp2;
    }

    // ----- reading the heap through a zipper

    lemma Look(c: Ctx, t: Shape)
      requires Linked(c, t)
      ensures t.Fork? ==>
                && t.node.left == Head(t.left, S()) && t.node.right == Head(t.right, S())
                && t.node.parent == Above(c, S()) && t.node.red == t.red
                && t.node != nil && t.node != root && t.node in Cells(c, t, S())
      ensures c.Top? ==> root.left == Head(t, S()) && !root.red && root.right == nil
      ensures Above(c, S()) in Cells(c, t, S()) && Above(c, S()) != nil && Above(c, S()) != Head(t, S())
      ensures !c.Top? ==>
                && c.node.left == Head(if c.Left? then t else c.left, S())
                && c.node.right == Head(if c.Left? then c.right else t, S())
                && c.node.parent == Above(c.up, S()) && c.node.red == c.red
                && c.node != root
                && (Sibling(c).Fork? || t.Fork? ==> Head(t, S()) != Head(Sibling(c), S()))
      ensures !c.Top? && Sibling(c).Fork? ==> Sibling(c).node in Cells(c, t, S())
    {
    }

    lemma Ascend(c: Ctx, t: Shape)
      requires !c.Top?
      ensures Linked(c, t) <==> Linked(c.up, Fill(c, t))
      ensures Cells(c.up, Fill(c, t), S()) == Cells(c, t, S())
    {
      FillLinks(c, t, S());
    }

    lemma Whole(c: Ctx, t: Shape)
      requires Linked(c, t)
      ensures Linked(Top, Plug(c, t)) && Cells(Top, Plug(c, t), S()) == Cells(c, t, S())
    {
      PlugLinks(c, t, S());
    }

    lemma SiblingColour(c: Ctx, t: Shape)
      requires Linked(c, t) && !c.Top? && !nil.red
      ensures Head(Sibling(c), S()).red == IsRed(Sibling(c))
    {
    }

    lemma BelowInCells(c: Ctx, t: Shape)
      requires Linked(c, t) && !c.Top? && Sibling(c).Fork?
      ensures Near(c).Fork? ==> Near(c).node in Cells(c, t, S())
      ensures Far(c).Fork? ==> Far(c).node in Cells(c, t, S())
      ensures Sibling(c).node.left == Head(Sibling(c).left, S()) && Sibling(c).node.right == Head(Sibling(c).right, S())
    {
    }

    /** `nil` being black, the colour of a child pointer is the colour of the child. */
    lemma ChildColours(c: Ctx, t: Shape)
      requires Linked(c, t) && !c.Top? && Sibling(c).Fork? && !nil.red
      ensures Head(Near(c), S()).red == IsRed(Near(c)) && Head(Far(c), S()).red == IsRed(Far(c))
    {
      Ascend(c, t);
      Ascend(Beside(c, t), Sibling(c));
      Ascend(BelowSibling(c, t), Near(c));
      Look(BelowSibling(c, t), Near(c));
      Ascend(BeyondSibling(c, t), Far(c));
      Look(BeyondSibling(c, t), Far(c));
    }

    // ----- rotations

    method LeftRotate(x: RbNode)
      requires nil !in {x, x.right, x.parent} && x.right.left !in {x, x.right} && x != x.right
      requires x.parent !in {x, x.right} && (x.right.left != nil ==> x.right.left != x.parent)
      modifies {x, x.right, x.parent}`left, {x, x.right, x.parent}`right
      modifies {x, x.right}`parent, ({x.right.left} - {nil})`parent
      ensures var y, b, up := old(x.right), old(x.right.left), old(x.parent);
              && x.left == old(x.left) && x.right == b && x.parent == y
              && y.left == x && y.right == old(y.right) && y.parent == up
              && (b != nil ==> b.parent == x)
              && if old(up.left) == x then up.left == y && up.right == old(up.right)
                 else up.left == old(up.left) && up.right == y
    {
      var y := x.right;
      x.right := y.left;
      if y.left != nil {
        y.left.parent := x;
      }
      y.parent := x.parent;
      if x == x.parent.left {
        x.parent.left := y;
      } else {
        x.parent.right := y;
      }
      y.left := x;
      x.parent := y;
    }

    method RightRotate(y: RbNode)
      requires nil !in {y, y.left, y.parent} && y.left.right !in {y, y.left} && y != y.left
      requires y.parent !in {y, y.left} && (y.left.right != nil ==> y.left.right != y.parent)
      modifies {y, y.left, y.parent}`left, {y, y.left, y.parent}`right
      modifies {y, y.left}`parent, ({y.left.right} - {nil})`parent
      ensures var x, b, up := old(y.left), old(y.left.right), old(y.parent);
              && y.right == old(y.right) && y.left == b && y.parent == x
              && x.right == y && x.left == old(x.left) && x.parent == up
              && (b != nil ==> b.parent == y)
              && if old(up.left) == y then up.left == x && up.right == old(up.right)
                 else up.left == old(up.left) && up.right == x
    {
      var x := y.left;
      y.left := x.right;
      if nil != x.right {
        x.right.parent := y;
      }
      x.parent := y.parent;
      if y == y.parent.left {
        y.parent.left := x;
      } else {
        y.parent.right := x;
      }
      x.right := y;
      y.parent := x;
    }

    /** A left rotation of the focus, as a change of the tree; `nil` is not written. */
    method LeftRotateAt(x: RbNode, ghost c: Ctx, ghost t: Shape)
      requires Linked(c, t) && IsRightHeavy(t) && t.node == x
      modifies Cells(c, t, S())`left, Cells(c, t, S())`right, Cells(c, t, S())`parent
      ensures Linked(c, RotatedLeft(t)) && Cells(c, RotatedLeft(t), S()) == Cells(c, t, S())
    {
      LeftRotationView(c, t, S());
      assert allocated(Cells(c, t, S()));
      LeftRotate(x);
      LeftRotationLinks(c, t, S());
    }

    /** A right rotation of the focus, as a change of the tree; `nil` is not written. */
    method RightRotateAt(y: RbNode, ghost c: Ctx, ghost t: Shape)
      requires Linked(c, t) && IsLeftHeavy(t) && t.node == y
      modifies Cells(c, t, S())`left, Cells(c, t, S())`right, Cells(c, t, S())`parent
      ensures Linked(c, RotatedRight(t)) && Cells(c, RotatedRight(t), S()) == Cells(c, t, S())
    {
      RightRotationView(c, t, S());
      assert allocated(Cells(c, t, S()));
      RightRotate(y);
      RightRotationLinks(c, t, S());
    }

    method PaintAt(n: RbNode, red: bool, ghost c: Ctx, ghost t: Shape)
      requires Linked(c, t) && t.Fork? && t.node == n
      modifies n`red
      ensures Linked(c, Painted(t, red)) && Cells(c, Painted(t, red), S()) == Cells(c, t, S())
    {
      PaintLinks(c, t, red, S());
      n.red := red;
    }

    // ----- insertion

    /** Parent and uncle turn black, the grandparent red. */
    method Recolor(x: RbNode, y: RbNode, ghost c: Ctx, ghost t: Shape)
      requires Linked(c, t) && t.Fork? && t.node == x
      requires !c.Top? && !c.up.Top? && Sibling(c.up).Fork? && y == Sibling(c.up).node
      modifies Cells(c, t, S())`red
      ensures Linked(c.up.up, Recolored(c, t)) && Cells(c.up.up, Recolored(c, t), S()) == Cells(c, t, S())
    {
      Look(c, t);
      Ascend(c, t);
      Look(c.up, Fill(c, t));
      PaintAt(x.parent, false, c.up, Fill(c, t));
      ghost var p, u := Blacken(Fill(c, t)), Sibling(c.up);
      ghost var beside := Beside(c.up, p);
      Ascend(c.up, p);
      Ascend(beside, u);
      PaintAt(y, false, beside, u);
      Ascend(beside, Blacken(u));
      PaintAt(x.parent.parent, true, c.up.up, Fill(beside, Blacken(u)));
    }

    /** Walks down to the empty hole where the absent key `q` belongs. */
    method FindHole(q: Address) returns (y: RbNode, ghost c: Ctx)
      requires Valid()
      requires forall n | n in InOrder(shape) :: comp(n.key, q) != 0
      ensures Plug(c, Nil) == shape && Brackets(comp, c, q) && y == Above(c, S())
      ensures Linked(c, Nil) && Cells(c, Nil, S()) == Cells(Top, shape, S())
    {
      y := root;
      var x := root.left;
      c := Top;
      ghost var t := shape;
      while x != nil
        invariant Linked(c, t) && Plug(c, t) == shape && Brackets(comp, c, q)
        invariant x == Head(t, S()) && y == Above(c, S())
        invariant Cells(c, t, S()) == Cells(Top, shape, S())
        decreases t
      {
        Look(c, t);
        PlugHas(c, t);
        y := x;
        if comp(x.key, q) > 0 {
          BracketsLeft(comp, c, t, q);
          x := x.left;
          c, t := Left(c, t.node, t.red, t.right), t.left;
        } else {
          BracketsRight(comp, c, t, q);
          x := x.right;
          c, t := Right(c, t.left, t.node, t.red), t.right;
        }
        Ascend(c, t);
      }
      Look(c, t);
    }

    /** The stores of TreeInsertHelp once the parent `y` of the new leaf is known. */
    method StoreLeaf(z: RbNode, y: RbNode)
      requires z != y
      modifies z`left, z`right, z`parent, y`left, y`right
      ensures z.left == z.right == nil && z.parent == y
      ensures if y == root || comp(y.key, z.key) > 0 then y.left == z && y.right == old(y.right)
              else y.left == old(y.left) && y.right == z
    {
      z.left, z.right := nil, nil;
      z.parent := y;
      if y == root || comp(y.key, z.key) > 0 {
        y.left := z;
      } else {
        y.right := z;
      }
    }

    method HangLeaf(z: RbNode, y: RbNode, ghost c: Ctx)
      requires Linked(c, Nil) && z !in Cells(c, Nil, S()) && z != nil
      requires y == Above(c, S()) && (y == root || comp(y.key, z.key) > 0 <==> !c.Right?)
      modifies z`left, z`right, z`parent, y`left, y`right
      ensures Linked(c, Fork(Nil, z, z.red, Nil))
      ensures Cells(c, Fork(Nil, z, z.red, Nil), S()) == Cells(c, Nil, S()) + {z}
    {
      Look(c, Nil);
      AttachLinks(c, z, z.red, S());
      assert allocated(Cells(c, Nil, S()));
      StoreLeaf(z, y);
    }

    /** `z` becomes a leaf in the hole where its key belongs. */
    method TreeInsertHelp(z: RbNode) returns (ghost c: Ctx)
      requires Valid() && z !in Cells(Top, shape, S()) && z != nil
      requires forall n | n in InOrder(shape) :: comp(n.key, z.key) != 0
      modifies z`left, z`right, z`parent, Cells(Top, shape, S())`left, Cells(Top, shape, S())`right
      ensures Plug(c, Nil) == shape && Brackets(comp, c, z.key)
      ensures Linked(c, Fork(Nil, z, z.red, Nil))
      ensures Cells(c, Fork(Nil, z, z.red, Nil), S()) == Cells(Top, shape, S()) + {z}
    {
      var y;
      y, c := FindHole(z.key);
      Look(c, Nil);
      BracketsAbove(comp, c, z.key, S());
      HangLeaf(z, y, c);
    }

    /** An outer grandchild: colours swapped, the parent is rotated above the grandparent. */
    method RaiseParent(x: RbNode, ghost c: Ctx, ghost t: Shape)
      requires Linked(c, t) && t.Fork? && t.node == x && IsOuter(c)
      modifies Cells(c, t, S())`red, Cells(c, t, S())`left, Cells(c, t, S())`right, Cells(c, t, S())`parent
      ensures Linked(Raised(c), t) && Cells(Raised(c), t, S()) == Cells(c, t, S())
    {
      ghost var p := Blacken(Fill(c, t));
      ghost var g := Painted(Fill(c.up, p), true);
      Look(c, t);
      Ascend(c, t);
      Look(c.up, Fill(c, t));
      PaintAt(x.parent, false, c.up, Fill(c, t));
      Ascend(c.up, p);
      PaintAt(x.parent.parent, true, c.up.up, Fill(c.up, p));
      if x == x.parent.left {
        RightRotateAt(x.parent.parent, c.up.up, g);
      } else {
        LeftRotateAt(x.parent.parent, c.up.up, g);
      }
      Ascend(Raised(c), t);
    }

    /** The branch of the fix-up loop in which the uncle is red. */
    method StepRedUncle(x: RbNode, y: RbNode, ghost c: Ctx, ghost t: Shape)
      returns (x': RbNode, ghost c': Ctx, ghost t': Shape)
      requires Linked(c, t) && t.Fork? && t.node == x && Pending(c, t) && CRed(c) && !c.up.Top?
      requires IsRed(Sibling(c.up)) && y == Sibling(c.up).node
      modifies Cells(c, t, S())`red
      ensures Linked(c', t') && t'.Fork? && t'.node == x' && Pending(c', t') && Depth(c') < Depth(c)
      ensures Cells(c', t', S()) == Cells(c, t, S()) && InOrder(Plug(c', t')) == InOrder(Plug(c, t))
    {
      Look(c, t);
      Ascend(c, t);
      Look(c.up, Fill(c, t));
      Recolor(x, y, c, t);
      RecoloredPending(c, t);
      RecoloredOrder(c, t);
      x' := x.parent.parent;
      c', t' := c.up.up, Recolored(c, t);
    }

    /** The branch of the fix-up loop in which the uncle is black: one or two rotations. */
    method StepBlackUncle(x: RbNode, ghost c: Ctx, ghost t: Shape) returns (x': RbNode, ghost c': Ctx, ghost t': Shape)
      requires Linked(c, t) && t.Fork? && t.node == x && Pending(c, t) && CRed(c) && !c.up.Top?
      requires !IsRed(Sibling(c.up))
      modifies Cells(c, t, S())`red, Cells(c, t, S())`left, Cells(c, t, S())`right, Cells(c, t, S())`parent
      ensures Linked(c', t') && t'.Fork? && t'.node == x' && Pending(c', t') && !CRed(c') && Depth(c') < Depth(c)
      ensures Cells(c', t', S()) == Cells(c, t, S()) && InOrder(Plug(c', t')) == InOrder(Plug(c, t))
    {
      x', c', t' := x, c, t;
      Look(c, t);
      Ascend(c, t);
      Look(c.up, Fill(c, t));
      if x.parent == x.parent.parent.left {
        if x == x.parent.right {
          x' := x.parent;
          LeftRotateAt(x', c.up, Fill(c, t));
        }
      } else {
        if x == x.parent.left {
          x' := x.parent;
          RightRotateAt(x', c.up, Fill(c, t));
        }
      }
      if !IsOuter(c) {
        TurnedPending(c, t);
        TurnedOrder(c, t);
        c', t' := Turned(c, t).0, Turned(c, t).1;
        Ascend(c', t');
      }
      RaiseParent(x', c', t');
      RaisedPending(c', t');
      RaisedOrder(c', t');
      c' := Raised(c');
    }

    /** The fix-up loop of rb_tree_add. */
    method AddFixUp(z: RbNode, ghost c0: Ctx, ghost t0: Shape, ghost cells: set<RbNode>) returns (ghost w: Shape)
      requires Linked(c0, t0) && t0.Fork? && t0.node == z && Pending(c0, t0) && !nil.red
      requires cells == Cells(c0, t0, S())
      modifies cells`red, cells`left, cells`right, cells`parent
      ensures Linked(Top, w) && Cells(Top, w, S()) == cells
      ensures NoRedRed(w) && Balanced(w) && InOrder(w) == InOrder(Plug(c0, t0))
    {
      var x := z;
      ghost var c, t := c0, t0;
      Look(c, t);
      while x.parent.red
        invariant Linked(c, t) && t.Fork? && t.node == x && x.parent == Above(c, S()) && x.parent.red == CRed(c)
        invariant Pending(c, t) && Cells(c, t, S()) == cells
        invariant InOrder(Plug(c, t)) == InOrder(Plug(c0, t0))
        decreases Depth(c)
      {
        GrandparentExists(c, t);
        Look(c, t);
        Ascend(c, t);
        Look(c.up, Fill(c, t));
        SiblingColour(c.up, Fill(c, t));
        if x.parent == x.parent.parent.left {
          var y := x.parent.parent.right;
          if y.red {
            x, c, t := StepRedUncle(x, y, c, t);
          } else {
            x, c, t := StepBlackUncle(x, c, t);
          }
        } else {
          var y := x.parent.parent.left;
          if y.red {
            x, c, t := StepRedUncle(x, y, c, t);
          } else {
            x, c, t := StepBlackUncle(x, c, t);
          }
        }
        Look(c, t);
      }
      w := Plug(c, t);
      Whole(c, t);
      PendingDone(c, t);
    }

    method BlackenRoot(ghost w: Shape)
      requires Linked(Top, w) && w.Fork? && !nil.red
      requires TotalPreorder(comp) && RedBlack(Blacken(w)) && Sorted(comp, InOrder(Blacken(w)))
      modifies this`shape, root.left`red
      ensures Valid() && shape == Blacken(w) && Cells(Top, shape, S()) == Cells(Top, w, S())
    {
      Look(Top, w);
      PaintLinks(Top, w, false, S());
      root.left.red := false;
      shape := Blacken(w);
    }

    /** rb_tree_add once the new red leaf hangs in its hole. */
    method Rebalance(x: RbNode, ghost c: Ctx, ghost cells: set<RbNode>)
      requires TotalPreorder(comp) && !nil.red
      requires Linked(c, Fork(Nil, x, true, Nil)) && Brackets(comp, c, x.key)
      requires RedBlack(Plug(c, Nil)) && Sorted(comp, InOrder(Plug(c, Nil)))
      requires cells == Cells(c, Fork(Nil, x, true, Nil), S())
      modifies this`shape, cells`red, cells`left, cells`right, cells`parent
      ensures Valid() && InOrder(shape) == Before(c) + [x] + After(c)
      ensures Cells(Top, shape, S()) == cells
    {
      NewLeafPending(c, x);
      ghost var w := AddFixUp(x, c, Fork(Nil, x, true, Nil), cells);
      InsertionDone(comp, c, x, w);
      Look(Top, w);
      BlackenRoot(w);
    }

    /** The new node, red, hangs in the hole where its key belongs. */
    method NewLeaf(key: Address, info: Address, ghost cells: set<RbNode>) returns (x: RbNode, ghost c: Ctx)
      requires Valid() && cells == Cells(Top, shape, S())
      requires forall n | n in InOrder(shape) :: comp(n.key, key) != 0
      modifies cells`left, cells`right
      ensures fresh(x) && x.key == key && x.info == info && !nil.red
      ensures Plug(c, Nil) == shape && Brackets(comp, c, key)
      ensures Linked(c, Fork(Nil, x, true, Nil)) && Cells(c, Fork(Nil, x, true, Nil), S()) == cells + {x}
    {
      x := new RbNode(key, info);
      c := TreeInsertHelp(x);
      PaintLinks(c, Fork(Nil, x, x.red, Nil), true, S());
      x.red := true;
    }

    /** rb_tree_add: `key` is known to be absent. */
    method Add(key: Address, info: Address, ghost cells: set<RbNode>) returns (newNode: RbNode, ghost c: Ctx)
      requires Valid() && cells == Cells(Top, shape, S())
      requires forall n | n in InOrder(shape) :: comp(n.key, key) != 0
      modifies this`shape, cells`red, cells`left, cells`right, cells`parent
      ensures Valid() && fresh(newNode) && newNode.key == key && newNode.info == info
      ensures Plug(c, Nil) == old(shape) && Brackets(comp, c, key)
      ensures InOrder(shape) == Before(c) + [newNode] + After(c)
      ensures Cells(Top, shape, S()) == cells + {newNode}
    {
      newNode, c := NewLeaf(key, info, cells);
      Rebalance(newNode, c, cells + {newNode});
    }

    // ----- the tree as a map

    /** The bindings, in key order. */
    ghost function Contents(): seq<Entry>
      reads this, (set n | n in InOrder(shape))`info
    {
      Entries(InOrder(shape))
    }

    lemma ContentsIncreasing()
      requires Valid()
      ensures Increasing(comp, Contents())
    {
    }

    /** rb_tree_query: the node with key equal to `q`, or null. `calls` counts the
        calls of the comparator: at most twice the binary logarithm of n + 1. */
    method Query(q: Address) returns (r: RbNode?, ghost calls: nat)
      requires Valid()
      ensures r == null ==> forall n | n in InOrder(shape) :: comp(n.key, q) != 0
      ensures r != null ==> r in InOrder(shape) && comp(r.key, q) == 0
      ensures Logarithmic(calls, |InOrder(shape)|)
      ensures Valid() && Contents() == old(Contents())
    {
      assert allocated(Cells(Top, shape, S())) && allocated(InOrder(shape));
      calls := 0;
      var x := root.left;
      ghost var c, t := Top, shape;
      Look(c, t);
      if x == nil {
        return null, calls;
      }
      var compVal := comp(x.key, q);
      calls := calls + 1;
      while 0 != compVal
        invariant Linked(c, t) && Plug(c, t) == shape && Brackets(comp, c, q)
        invariant t.Fork? && x == t.node && compVal == comp(x.key, q)
        invariant calls == Depth(c) + 1
        decreases t
      {
        Look(c, t);
        if compVal > 0 {
          BracketsLeft(comp, c, t, q);
          x := x.left;
          c, t := Left(c, t.node, t.red, t.right), t.left;
        } else {
          BracketsRight(comp, c, t, q);
          x := x.right;
          c, t := Right(c, t.left, t.node, t.red), t.right;
        }
        Ascend(c, t);
        Look(c, t);
        if x == nil {
          BracketsNil(comp, c, q);
          QueryCost(c, t, calls);
          return null, calls;
        }
        compVal := comp(x.key, q);
        calls := calls + 1;
      }
      QueryCost(c, t, calls);
      PlugHas(c, t);
      r := x;
    }

    /** What a query finds is what the map holds for the class of the key. */
    lemma QueryIsGet(q: Address, r: RbNode?)
      requires Valid()
      requires r == null ==> forall n | n in InOrder(shape) :: comp(n.key, q) != 0
      requires r != null ==> r in InOrder(shape) && comp(r.key, q) == 0
      ensures Get(comp, Contents(), q) == if r == null then None else Some(r.info)
    {
      var order, es := InOrder(shape), Contents();
      if r == null {
        forall e | e in es ensures comp(e.key, q) != 0 {
          var i :| 0 <= i < |es| && es[i] == e;
          assert order[i] in order;
        }
        GetNowhere(comp, es, q);
      } else {
        var i :| 0 <= i < |order| && order[i] == r;
        ContentsIncreasing();
        GetAt(comp, es, i, q);
      }
    }

    /** A present key: the info of its node is replaced. */
    method Update(node: RbNode, info: Address)
      requires TotalPreorder(comp) && Sorted(comp, InOrder(shape))
      requires Linked(Top, shape) && node in InOrder(shape)
      modifies node`info
      ensures Linked(Top, shape) && node.info == info
      ensures Contents() == Put(comp, old(Contents()), node.key, info)
    {
      ghost var order, es := InOrder(shape), Contents();
      ghost var i :| 0 <= i < |order| && order[i] == node;
      PutThere(comp, order, es, i, node.key, info);
      node.info := info;
    }

    /** An absent key: a new node enters the order at its place. */
    method AddNew(key: Address, info: Address, ghost cells: set<RbNode>) returns (node: RbNode)
      requires Valid() && cells == Cells(Top, shape, S())
      requires forall n | n in InOrder(shape) :: comp(n.key, key) != 0
      modifies this`shape, cells`red, cells`left, cells`right, cells`parent
      ensures Valid() && fresh(node) && node.key == key && node.info == info
      ensures Contents() == Put(comp, old(Contents()), key, info)
      ensures OneMore(old(InOrder(shape)), node, InOrder(shape)) && Cells(Top, shape, S()) == cells + {node}
    {
      ghost var order, es := InOrder(shape), Contents();
      assert allocated(order);
      ghost var c;
      node, c := Add(key, info, cells);
      assert Entries(order) == es;
      PlugNil(c);
      PutNew(comp, Before(c), After(c), es, key, info);
      EntriesInsert(Before(c), node, After(c));
      InsertedAt(Before(c), node, After(c));
    }

    /** rb_tree_insert: a present key has its info replaced, an absent key gets a new node;
        the other nodes, their keys and infos stay as they are. */
    method Insert(key: Address, info: Address) returns (node: RbNode)
      requires Valid()
      modifies this`shape, Cells(Top, shape, S())
      ensures Valid() && node in InOrder(shape) && comp(node.key, key) == 0 && node.info == info
      ensures Contents() == Put(comp, old(Contents()), key, info)
      ensures if node in old(InOrder(shape)) then shape == old(shape)
              else fresh(node) && OneMore(old(InOrder(shape)), node, InOrder(shape))
      ensures fresh(Cells(Top, shape, S()) - old(Cells(Top, shape, S())))
    {
      ghost var cells := Cells(Top, shape, S());
      assert allocated(InOrder(shape)) && allocated(cells);
      var found, calls := Query(key);
      if found != null {
        node := found;
        InOrderNodes(shape);
        PutSameClass(comp, Contents(), node.key, key, info);
        Update(node, info);
      } else {
        node := AddNew(key, info, cells);
      }
    }

    // ----- deletion: the cases of the fix-up

    /** Painting the sibling of the hole. */
    method PaintSibling(w: RbNode, red: bool, ghost c: Ctx, ghost t: Shape)
      requires Linked(c, t) && !c.Top? && Sibling(c).Fork? && w == Sibling(c).node
      modifies w`red
      ensures Linked(WithSibling(c, Painted(Sibling(c), red)), t)
      ensures Cells(WithSibling(c, Painted(Sibling(c), red)), t, S()) == Cells(c, t, S())
    {
      ghost var beside, sib := Beside(c, t), Sibling(c);
      Ascend(c, t);
      Ascend(beside, sib);
      PaintAt(w, red, beside, sib);
      Ascend(beside, Painted(sib, red));
      Ascend(WithSibling(c, Painted(sib, red)), t);
    }

    /** Painting the node above the hole. */
    method PaintParent(p: RbNode, red: bool, ghost c: Ctx, ghost t: Shape)
      requires Linked(c, t) && !c.Top? && p == c.node
      modifies p`red
      ensures Linked(c.up, Painted(Fill(c, t), red))
      ensures Cells(c.up, Painted(Fill(c, t), red), S()) == Cells(c, t, S())
    {
      Ascend(c, t);
      PaintAt(p, red, c.up, Fill(c, t));
    }

    /** Case 1: a red sibling. */
    method RaiseSibling(x: RbNode, w: RbNode, ghost c: Ctx, ghost t: Shape)
      requires Linked(c, t) && x == Head(t, S()) && x.parent == Above(c, S())
      requires !c.Top? && Sibling(c).Fork? && w == Sibling(c).node
      modifies Cells(c, t, S())`red, Cells(c, t, S())`left, Cells(c, t, S())`right, Cells(c, t, S())`parent
      ensures Linked(SiblingRaised(c), t) && Cells(SiblingRaised(c), t, S()) == Cells(c, t, S())
    {
      ghost var c1 := WithSibling(c, Blacken(Sibling(c)));
      ghost var p := Painted(Fill(c1, t), true);
      Look(c, t);
      PaintSibling(w, false, c, t);
      PaintParent(x.parent, true, c1, t);
      if x == x.parent.left {
        LeftRotateAt(x.parent, c.up, p);
      } else {
        RightRotateAt(x.parent, c.up, p);
      }
      Ascend(SiblingRaised(c), t);
      Ascend(SiblingRaised(c).up, Fill(SiblingRaised(c), t));
    }

    method PaintNear(w: RbNode, near: RbNode, ghost c: Ctx, ghost t: Shape)
      requires Linked(c, t) && !c.Top? && Sibling(c).Fork? && w == Sibling(c).node
      requires Near(c).Fork? && near == Near(c).node
      modifies w`red, near`red
      ensures Linked(Beside(c, t), NearPainted(c)) && Cells(Beside(c, t), NearPainted(c), S()) == Cells(c, t, S())
    {
      ghost var below := BelowSibling(c, t);
      Ascend(c, t);
      Ascend(Beside(c, t), Sibling(c));
      Ascend(below, Near(c));
      PaintAt(near, false, below, Near(c));
      PaintParent(w, true, below, Blacken(Near(c)));
    }

    /** Case 3: the near child of the sibling is red, the far one black. */
    method RaiseNear(x: RbNode, w: RbNode, near: RbNode, ghost c: Ctx, ghost t: Shape)
      requires Linked(c, t) && x == Head(t, S()) && x.parent == Above(c, S())
      requires !c.Top? && Sibling(c).Fork? && w == Sibling(c).node
      requires Near(c).Fork? && near == Near(c).node
      modifies Cells(c, t, S())`red, Cells(c, t, S())`left, Cells(c, t, S())`right, Cells(c, t, S())`parent
      ensures Linked(WithSibling(c, NearRaised(c)), t)
      ensures Cells(WithSibling(c, NearRaised(c)), t, S()) == Cells(c, t, S())
    {
      Look(c, t);
      BelowInCells(c, t);
      PaintNear(w, near, c, t);
      if x == x.parent.left {
        RightRotateAt(w, Beside(c, t), NearPainted(c));
      } else {
        LeftRotateAt(w, Beside(c, t), NearPainted(c));
      }
      Ascend(Beside(c, t), NearRaised(c));
      Ascend(WithSibling(c, NearRaised(c)), t);
    }

    method PaintFar(far: RbNode, ghost c: Ctx, ghost t: Shape)
      requires Linked(c, t) && !c.Top? && Sibling(c).Fork? && Far(c).Fork? && far == Far(c).node
      modifies far`red
      ensures Linked(WithSibling(c, FarPainted(c)), t)
      ensures Cells(WithSibling(c, FarPainted(c)), t, S()) == Cells(c, t, S())
    {
      ghost var beyond := BeyondSibling(c, t);
      Ascend(c, t);
      Ascend(Beside(c, t), Sibling(c));
      Ascend(beyond, Far(c));
      PaintAt(far, false, beyond, Far(c));
      Ascend(beyond, Blacken(Far(c)));
      Ascend(Beside(c, t), FarPainted(c));
      Ascend(WithSibling(c, FarPainted(c)), t);
    }

    /** The three stores of colours of case 4. */
    method ExchangeColours(x: RbNode, w: RbNode, far: RbNode, ghost c: Ctx, ghost t: Shape)
      requires Linked(c, t) && x == Head(t, S()) && x.parent == Above(c, S())
      requires !c.Top? && Sibling(c).Fork? && w == Sibling(c).node && Far(c).Fork? && far == Far(c).node
      modifies w`red, x.parent`red, far`red
      ensures Linked(Exchanged(c), t) && Cells(Exchanged(c), t, S()) == Cells(c, t, S())
    {
      ghost var c1 := WithSibling(c, Painted(Sibling(c), c.red));
      ghost var c2 := Recoloured(c1, false);
      Look(c, t);
      PaintSibling(w, x.parent.red, c, t);
      PaintParent(x.parent, false, c1, t);
      Ascend(c2, t);
      PaintFar(far, c2, t);
    }

    /** Case 4: the far child of the sibling is red. */
    method Settle(x: RbNode, w: RbNode, far: RbNode, ghost c: Ctx, ghost t: Shape)
      requires Linked(c, t) && x == Head(t, S()) && x.parent == Above(c, S())
      requires !c.Top? && Sibling(c).Fork? && w == Sibling(c).node && Far(c).Fork? && far == Far(c).node
      modifies Cells(c, t, S())`red, Cells(c, t, S())`left, Cells(c, t, S())`right, Cells(c, t, S())`parent
      ensures Linked(c.up, Settled(c, t)) && Cells(c.up, Settled(c, t), S()) == Cells(c, t, S())
    {
      Look(c, t);
      BelowInCells(c, t);
      ExchangeColours(x, w, far, c, t);
      Ascend(Exchanged(c), t);
      Look(Exchanged(c), t);
      ExchangedTurns(c, t);
      if x == x.parent.left {
        LeftRotateAt(x.parent, c.up, Fill(Exchanged(c), t));
      } else {
        RightRotateAt(x.parent, c.up, Fill(Exchanged(c), t));
      }
    }

    /** After case 4 the remembered root is black: it is still the root, or the old parent of the focus. */
    lemma RootTurnedBlack(c: Ctx, t: Shape, rt: RbNode)
      requires RootKnown(c, rt, S()) && Sibling(c).Fork?
      requires Linked(c.up, Settled(c, t)) && RedBlack(Plug(c.up, Settled(c, t)))
      ensures !rt.red && (rt == root.left || rt == c.node)
    {
      if rt == c.node {
        ParentTurnedBlack(c, t);
      } else {
        SettledRoot(c, t, rt, S());
        Whole(c.up, Settled(c, t));
        Look(Top, Plug(c.up, Settled(c, t)));
        RootInCtx(c.up, Nil, S());
      }
    }

    /** After case 4 the old parent of the focus is a black node below the sibling. */
    lemma ParentTurnedBlack(c: Ctx, t: Shape)
      requires !c.Top? && Sibling(c).Fork? && Linked(c.up, Settled(c, t))
      ensures !c.node.red
    {
      var w := Settled(c, t);
      var below := if c.Left? then Left(c.up, w.node, w.red, w.right) else Right(c.up, w.left, w.node, w.red);
      var p := if c.Left? then w.left else w.right;
      Ascend(below, p);
      Look(below, p);
    }

    /** Cases 3 and 4: some child of the black sibling is red. */
    method StepSettle(x: RbNode, w: RbNode, near: RbNode, far: RbNode, ghost c: Ctx, ghost t: Shape)
      returns (ghost c': Ctx)
      requires Linked(c, t) && x == Head(t, S()) && x.parent == Above(c, S()) && !nil.red
      requires !c.Top? && Deficit(c, t) && !IsRed(t)
      requires Sibling(c).Fork? && !IsRed(Sibling(c)) && w == Sibling(c).node
      requires near == Head(Near(c), S()) && far == Head(Far(c), S()) && (IsRed(Near(c)) || IsRed(Far(c)))
      modifies Cells(c, t, S())`red, Cells(c, t, S())`left, Cells(c, t, S())`right, Cells(c, t, S())`parent
      ensures c'.Left? == c.Left? && !c'.Top? && c'.up == c.up && c'.node == c.node && Sibling(c').Fork?
      ensures Linked(c.up, Settled(c', t)) && Cells(c.up, Settled(c', t), S()) == Cells(c, t, S())
      ensures RedBlack(Plug(c.up, Settled(c', t)))
      ensures InOrder(Plug(c.up, Settled(c', t))) == InOrder(Plug(c, t))
    {
      c' := c;
      var w', far' := w, far;
      ChildColours(c, t);
      if !far.red {
        RaiseNear(x, w, near, c, t);
        NearRaisedDeficit(c, t);
        NearRaisedOrder(c, t);
        c' := WithSibling(c, NearRaised(c));
        w', far' := near, w;
      }
      Settle(x, w', far', c', t);
      SettledRedBlack(c', t);
      SettledOrder(c', t);
    }

    /** Cases 2 to 4, the sibling being black: the deficit moves up or is settled. */
    method StepBlackSibling(x: RbNode, w: RbNode, near: RbNode, far: RbNode, rt: RbNode, ghost c: Ctx, ghost t: Shape)
      returns (x': RbNode, ghost settled: bool, ghost whole: Shape)
      requires Linked(c, t) && x == Head(t, S()) && x.parent == Above(c, S()) && !nil.red
      requires !c.Top? && Deficit(c, t) && !IsRed(t) && RootKnown(c, rt, S())
      requires Sibling(c).Fork? && !IsRed(Sibling(c)) && w == Sibling(c).node
      requires near == Head(Near(c), S()) && far == Head(Far(c), S())
      modifies Cells(c, t, S())`red, Cells(c, t, S())`left, Cells(c, t, S())`right, Cells(c, t, S())`parent
      ensures !settled ==>
                && whole == Fill(WithSibling(c, Painted(Sibling(c), true)), t)
                && x' == c.node && Linked(c.up, whole) && Cells(c.up, whole, S()) == Cells(c, t, S())
                && Deficit(c.up, whole) && InOrder(Plug(c.up, whole)) == InOrder(Plug(c, t))
      ensures settled ==>
                && x' == rt && !rt.red && Linked(Top, whole) && Cells(Top, whole, S()) == Cells(c, t, S())
                && RedBlack(whole) && InOrder(whole) == InOrder(Plug(c, t))
    {
      ChildColours(c, t);
      settled := far.red || near.red;
      if !far.red && !near.red {
        DeficitMovesUp(c, t);
        RepaintedSiblingOrder(c, t, true);
        PaintSibling(w, true, c, t);
        Ascend(WithSibling(c, Painted(Sibling(c), true)), t);
        whole := Fill(WithSibling(c, Painted(Sibling(c), true)), t);
        x' := x.parent;
      } else {
        ghost var c' := StepSettle(x, w, near, far, c, t);
        whole := Plug(c.up, Settled(c', t));
        Whole(c.up, Settled(c', t));
        RootTurnedBlack(c', t, rt);
        x' := rt;
      }
    }

    /** One turn of the loop of RBDeleteFixUp. */
    method DeleteStep(x: RbNode, rt: RbNode, ghost c: Ctx, ghost t: Shape)
      returns (x': RbNode, ghost settled: bool, ghost c': Ctx, ghost t': Shape)
      requires Linked(c, t) && x == Head(t, S()) && x.parent == Above(c, S()) && !nil.red
      requires !c.Top? && Deficit(c, t) && !IsRed(t) && rt == Root(c, t, S())
      modifies Cells(c, t, S())`red, Cells(c, t, S())`left, Cells(c, t, S())`right, Cells(c, t, S())`parent
      ensures Linked(c', t') && Cells(c', t', S()) == Cells(c, t, S()) && InOrder(Plug(c', t')) == InOrder(Plug(c, t))
      ensures settled ==> x' == rt && !rt.red && c' == Top && RedBlack(t')
      ensures !settled ==> t'.Fork? && x' == t'.node && Deficit(c', t')
      ensures !settled ==> IsRed(t') || (rt == Root(c', t', S()) && Depth(c') < Depth(c))
    {
      var w: RbNode;
      c', t' := c, t;
      SiblingExists(c, t);
      Look(c, t);
      SiblingColour(c, t);
      RootStaysKnown(c, t, rt, S());
      w := if x == x.parent.left then x.parent.right else x.parent.left;
      if w.red {
        RaiseSibling(x, w, c, t);
        SiblingRaisedDeficit(c, t);
        SiblingRaisedOrder(c, t);
        c' := SiblingRaised(c);
        Look(c', t);
        SiblingExists(c', t);
        w := if x == x.parent.left then x.parent.right else x.parent.left;
      }
      BelowInCells(c', t);
      var near := if x == x.parent.left then w.left else w.right;
      var far := if x == x.parent.left then w.right else w.left;
      x', settled, t' := StepBlackSibling(x, w, near, far, rt, c', t);
      if settled {
        c' := Top;
      } else {
        if c'.node == c.node && c' == c { RootStaysKnown(WithSibling(c, Painted(Sibling(c), true)), t, rt, S()); }
        c' := c'.up;
      }
    }

    /** The store that ends RBDeleteFixUp: a red focus, or the root, turns black; once all
        is settled the remembered root is black already and nothing changes. */
    method PayDeficit(x: RbNode, ghost settled: bool, ghost c: Ctx, ghost t: Shape) returns (ghost w: Shape)
      requires Linked(c, t) && !nil.red
      requires settled ==> !x.red && c == Top && RedBlack(t)
      requires !settled ==> x == Head(t, S()) && Deficit(c, t) && (IsRed(t) || x == Root(c, t, S()))
      modifies x`red
      ensures Linked(Top, w) && Cells(Top, w, S()) == Cells(c, t, S()) && !nil.red
      ensures RedBlack(w) && InOrder(w) == InOrder(Plug(c, t))
    {
      if settled {
        w := t;
      } else {
        if !c.Top? { RootInCtx(c, t, S()); Look(c, t); }
        DeficitPaid(c, t);
        SameOrder(c, t, Blacken(t));
        if t.Fork? { PaintLinks(c, t, false, S()); }
        w := Plug(c, Blacken(t));
        PlugLinks(c, Blacken(t), S());
      }
      x.red := false;
    }

    /** RBDeleteFixUp. `x` may be `nil`; its parent field then holds the node above. */
    method DeleteFixUp(x0: RbNode, ghost c0: Ctx, ghost t0: Shape, ghost cells: set<RbNode>) returns (ghost w: Shape)
      requires Linked(c0, t0) && x0 == Head(t0, S()) && x0.parent == Above(c0, S()) && !nil.red
      requires Deficit(c0, t0) && cells == Cells(c0, t0, S())
      modifies cells`red, cells`left, cells`right, cells`parent, nil`red
      ensures Linked(Top, w) && Cells(Top, w, S()) == cells && !nil.red
      ensures RedBlack(w) && InOrder(w) == InOrder(Plug(c0, t0))
    {
      Whole(c0, t0);
      Look(Top, Plug(c0, t0));
      PlugRoot(c0, t0, S());
      var x := x0;
      var rt := root.left;
      ghost var c, t := c0, t0;
      ghost var settled := false;
      Look(c, t);
      while !x.red && rt != x
        invariant !nil.red && Linked(c, t) && Cells(c, t, S()) == cells
        invariant InOrder(Plug(c, t)) == InOrder(Plug(c0, t0))
        invariant settled ==> x == rt && !x.red && c == Top && RedBlack(t)
        invariant !settled ==> x == Head(t, S()) && x.parent == Above(c, S()) && x.red == IsRed(t) && Deficit(c, t)
        invariant !settled ==> IsRed(t) || rt == Root(c, t, S())
        decreases if settled || IsRed(t) then 0 else 1 + Depth(c)
      {
        x, settled, c, t := DeleteStep(x, rt, c, t);
        Look(c, t);
      }
      w := PayDeficit(x, settled, c, t);
    }

    // ----- deletion

    lemma Open(c: Ctx, t: Shape)
      requires Linked(Top, Plug(c, t))
      ensures Linked(c, t) && Cells(c, t, S()) == Cells(Top, Plug(c, t), S())
    {
      PlugNodes(c, t);
      PlugLinks(c, t, S());
    }

    /** The first loop of rb_tree_successor: down to the minimum of a subtree. */
    method Minimum(x: RbNode, ghost c: Ctx, ghost t: Shape) returns (y: RbNode, ghost cy: Ctx, ghost ty: Shape)
      requires Linked(c, t) && t.Fork? && t.node == x
      ensures Linked(cy, ty) && ty.Fork? && ty.node == y && Plug(cy, ty) == Plug(c, t)
      ensures Cells(cy, ty, S()) == Cells(c, t, S()) && Before(cy) == Before(c) && ty.left.Nil?
    {
      y, cy, ty := x, c, t;
      Look(cy, ty);
      while y.left != nil
        invariant Linked(cy, ty) && ty.Fork? && ty.node == y && Plug(cy, ty) == Plug(c, t)
        invariant y.left == Head(ty.left, S()) && Cells(cy, ty, S()) == Cells(c, t, S())
        invariant Before(cy) == Before(c)
        decreases ty
      {
        y := y.left;
        cy, ty := Left(cy, ty.node, ty.red, ty.right), ty.left;
        Ascend(cy, ty);
        Look(cy, ty);
      }
      Look(cy, ty);
    }

    /** The second loop of rb_tree_successor: up while coming from the right; the root
        sentinel, whose right link is `nil`, stops the climb. */
    method Climb(x: RbNode, ghost c: Ctx, ghost t: Shape) returns (y: RbNode, ghost cy: Ctx, ghost ty: Shape)
      requires Linked(c, t) && t.Fork? && t.node == x
      ensures Linked(cy, ty) && ty.Fork? && Plug(cy, ty) == Plug(c, t) && !cy.Right? && y == Above(cy, S())
      ensures Cells(cy, ty, S()) == Cells(c, t, S()) && Before(cy) + InOrder(ty) == Before(c) + InOrder(t)
    {
      var x' := x;
      y := x.parent;
      cy, ty := c, t;
      Look(cy, ty);
      while x' == y.right
        invariant Linked(cy, ty) && ty.Fork? && ty.node == x' && Plug(cy, ty) == Plug(c, t)
        invariant y == Above(cy, S()) && Cells(cy, ty, S()) == Cells(c, t, S())
        invariant Before(cy) + InOrder(ty) == Before(c) + InOrder(t)
        decreases Depth(cy)
      {
        Look(cy, ty);
        Ascend(cy, ty);
        ClimbOrder(cy, ty);
        x' := y;
        y := y.parent;
        cy, ty := cy.up, Fill(cy, ty);
      }
      Look(cy, ty);
    }

    /** rb_tree_successor: the node that follows `x` in key order, or `nil`. */
    method Successor(x: RbNode, ghost c: Ctx, ghost t: Shape) returns (y: RbNode, ghost cy: Ctx, ghost ty: Shape)
      requires Linked(c, t) && t.Fork? && t.node == x
      ensures Linked(cy, ty) && Plug(cy, ty) == Plug(c, t) && Cells(cy, ty, S()) == Cells(c, t, S())
      ensures y == nil ==> t.right.Nil? && InOrder(Plug(c, t)) == Through(c, t)
      ensures y != nil ==> ty.Fork? && ty.node == y && Before(cy) + InOrder(ty.left) == Through(c, t)
      ensures t.right.Fork? ==> y != nil && ty.left.Nil?
    {
      Look(c, t);
      y := x.right;
      if nil != y {
        Ascend(Right(c, t.left, x, t.red), t.right);
        y, cy, ty := Minimum(y, Right(c, t.left, x, t.red), t.right);
        ThroughRight(c, t, cy, ty);
        Look(cy, ty);
      } else {
        y, cy, ty := Climb(x, c, t);
        ClimbEnds(c, t, cy, ty);
        Look(cy, ty);
        if y == root {
          return nil, cy, ty;
        }
        Ascend(cy, ty);
        cy, ty := cy.up, Fill(cy, ty);
      }
    }

    /** The stores of rb_tree_delete that cut `y` out; the parent field of the child is
        written even when the child is `nil`. */
    method Splice(y: RbNode) returns (x: RbNode)
      requires y.parent !in {y, nil, y.left, y.right} && y !in {y.left, y.right}
      requires y.left == nil || y.right == nil
      modifies y.left`parent, y.right`parent, y.parent`left, y.parent`right
      ensures x == if y.left == nil then y.right else y.left
      ensures x.parent == y.parent && (x != y.left && y.left != nil ==> y.left.parent == old(y.left.parent))
      ensures y.left == old(y.left) && y.right == old(y.right) && y.parent == old(y.parent)
      ensures if y.parent == root || old(y.parent.left) == y
              then y.parent.left == x && y.parent.right == old(y.parent.right)
              else y.parent.left == old(y.parent.left) && y.parent.right == x
    {
      x := if y.left == nil then y.right else y.left;
      x.parent := y.parent;
      if root == x.parent {
        root.left := x;
      } else if y == y.parent.left {
        y.parent.left := x;
      } else {
        y.parent.right := x;
      }
    }

    method SpliceAt(y: RbNode, ghost c: Ctx, ghost t: Shape) returns (x: RbNode)
      requires Linked(c, t) && t.Fork? && t.node == y && (t.left.Nil? || t.right.Nil?)
      modifies y.left`parent, y.right`parent, y.parent`left, y.parent`right
      ensures Linked(c, OnlyChild(t)) && Cells(c, OnlyChild(t), S()) == Cells(c, t, S()) - {y}
      ensures x == Head(OnlyChild(t), S()) && x.parent == Above(c, S())
    {
      Look(c, t);
      SpliceLinks(c, t, OnlyChild(t), S());
      ChildrenInside(c, t, S());
      assert allocated(Cells(c, t, S()));
      x := Splice(y);
    }

    /** The stores of rb_tree_delete that put `y` in the place of `z`. */
    method TakePlace(y: RbNode, z: RbNode)
      requires y !in {z, z.left, z.right, z.parent} && z !in {z.left, z.right, z.parent}
      requires z.parent !in {z.left, z.right}
      modifies y`left, y`right, y`parent, y`red, z.left`parent, z.right`parent, z.parent`left, z.parent`right
      ensures y.left == z.left && y.right == z.right && y.parent == z.parent && y.red == z.red
      ensures z.left == old(z.left) && z.right == old(z.right) && z.parent == old(z.parent)
      ensures z.left.parent == y && z.right.parent == y
      ensures if old(z.parent.left) == z then z.parent.left == y && z.parent.right == old(z.parent.right)
              else z.parent.left == old(z.parent.left) && z.parent.right == y
    {
      y.left := z.left;
      y.right := z.right;
      y.parent := z.parent;
      y.red := z.red;
      z.right.parent := y;
      z.left.parent := z.right.parent;
      if z == z.parent.left {
        z.parent.left := y;
      } else {
        z.parent.right := y;
      }
    }

    lemma PlaceView(y: RbNode, z: RbNode, c: Ctx, t: Shape)
      requires Linked(c, t) && t.Fork? && t.node == z && y !in Cells(c, t, S()) && y != nil
      ensures z.left == Head(t.left, S()) && z.right == Head(t.right, S()) && z.parent == Above(c, S())
      ensures y !in {z, z.left, z.right, z.parent} && z !in {z.left, z.right, z.parent}
      ensures z.parent !in {z.left, z.right} && z.parent in Cells(c, t, S())
    {
      Look(c, t);
      ChildrenInside(c, t, S());
    }

    method TakePlaceAt(y: RbNode, z: RbNode, ghost c: Ctx, ghost t: Shape)
      requires Linked(c, t) && t.Fork? && t.node == z && y !in Cells(c, t, S()) && y != nil
      modifies y`left, y`right, y`parent, y`red, z.left`parent, z.right`parent, z.parent`left, z.parent`right
      ensures Linked(c, t.(node := y)) && Cells(c, t.(node := y), S()) == Cells(c, t, S()) - {z} + {y}
    {
      PlaceView(y, z, c, t);
      ReplaceLinks(c, t, y, S());
      assert allocated(Cells(c, t, S()));
      TakePlace(y, z);
    }

    /** The first half of rb_tree_delete: `y` is cut out and the colours are repaired. */
    method CutOut(y: RbNode, ghost c: Ctx, ghost t: Shape, ghost cells: set<RbNode>) returns (ghost w: Shape)
      requires Linked(c, t) && t.Fork? && t.node == y && (t.left.Nil? || t.right.Nil?)
      requires RedBlack(Plug(c, t)) && !nil.red && cells == Cells(c, t, S())
      modifies cells`red, cells`left, cells`right, cells`parent, nil`red, nil`parent
      ensures Linked(Top, w) && Cells(Top, w, S()) == cells - {y} && !nil.red
      ensures RedBlack(w) && InOrder(w) == InOrder(Plug(c, OnlyChild(t)))
    {
      Look(c, t);
      ChildrenInside(c, t, S());
      SpliceDeficit(c, t);
      var x := SpliceAt(y, c, t);
      if !y.red {
        w := DeleteFixUp(x, c, OnlyChild(t), cells - {y});
      } else {
        w := Plug(c, OnlyChild(t));
        Whole(c, OnlyChild(t));
      }
    }

    /** The second half of rb_tree_delete when a following node `y` was cut out: it takes the
        place of `z`, wherever the repairs have moved `z`. */
    method PutInPlace(y: RbNode, z: RbNode, ghost w: Shape,
                      ghost cz: Ctx, ghost tz: Shape, ghost cy: Ctx, ghost ty: Shape) returns (ghost w': Shape)
      requires Linked(Top, w) && y !in Cells(Top, w, S()) && y != nil && RedBlack(w)
      requires CutFor(cz, tz, cy, ty) && tz.node == z && ty.node == y && y != z
      requires TotalPreorder(comp) && Sorted(comp, InOrder(Plug(cz, tz)))
      requires InOrder(w) == InOrder(Plug(cy, OnlyChild(ty)))
      modifies Cells(Top, w, S())`left, Cells(Top, w, S())`right, Cells(Top, w, S())`parent
      modifies y`left, y`right, y`parent, y`red, nil`parent
      ensures Linked(Top, w') && RedBlack(w') && Cells(Top, w', S()) == Cells(Top, w, S()) - {z} + {y}
      ensures Sorted(comp, InOrder(w')) && OneMore(InOrder(w'), z, InOrder(Plug(cz, tz)))
    {
      assert z in Nodes(w) by { DeleteOrder(comp, cz, tz, cy, ty); InOrderNodes(w); }
      ghost var c, l, red, r := Locate(Top, w, z);
      ghost var t := Fork(l, z, red, r);
      Open(c, t);
      Look(c, t);
      ChildrenInside(c, t, S());
      TakePlaceAt(y, z, c, t);
      Whole(c, t.(node := y));
      ReplaceRedBlack(c, t, y);
      w' := Plug(c, t.(node := y));
      assert Sorted(comp, InOrder(w')) && OneMore(InOrder(w'), z, InOrder(Plug(cz, tz))) by {
        ReplaceOrder(comp, cz, tz, cy, ty, c, t);
      }
    }

    /** The node to be cut out when `z` is deleted: `z`, or the node that follows it when
        `z` has two children. */
    method Victim(z: RbNode) returns (y: RbNode, ghost cz: Ctx, ghost tz: Shape, ghost cy: Ctx, ghost ty: Shape)
      requires Linked(Top, shape) && z in InOrder(shape)
      ensures tz.Fork? && tz.node == z && Plug(cz, tz) == shape
      ensures Linked(cy, ty) && Cells(cy, ty, S()) == Cells(Top, shape, S())
      ensures CutFor(cz, tz, cy, ty) && ty.node == y && y in Cells(Top, shape, S()) && y != nil
    {
      InOrderNodes(shape);
      ghost var l, red, r;
      cz, l, red, r := Locate(Top, shape, z);
      tz := Fork(l, z, red, r);
      Open(cz, tz);
      Look(cz, tz);
      y, cy, ty := z, cz, tz;
      if z.left != nil && z.right != nil {
        y, cy, ty := Successor(z, cz, tz);
        assert Before(cy) + [] == Before(cy);
        ThroughApart(cz, tz, cy, ty, S());
      }
      Look(cy, ty);
    }

    /** The end of rb_tree_delete: only a node other than `z` has to be put in its place. */
    method Relink(y: RbNode, z: RbNode, ghost w: Shape, ghost cells: set<RbNode>,
                  ghost cz: Ctx, ghost tz: Shape, ghost cy: Ctx, ghost ty: Shape) returns (ghost w': Shape)
      requires Linked(Top, w) && Cells(Top, w, S()) == cells - {y} && y in cells && y != nil && RedBlack(w)
      requires CutFor(cz, tz, cy, ty) && tz.node == z && ty.node == y
      requires TotalPreorder(comp) && Sorted(comp, InOrder(Plug(cz, tz)))
      requires InOrder(w) == InOrder(Plug(cy, OnlyChild(ty)))
      modifies cells`red, cells`left, cells`right, cells`parent, nil`parent
      ensures Linked(Top, w') && RedBlack(w') && Cells(Top, w', S()) == cells - {z}
      ensures Sorted(comp, InOrder(w')) && OneMore(InOrder(w'), z, InOrder(Plug(cz, tz)))
    {
      if y != z {
        w' := PutInPlace(y, z, w, cz, tz, cy, ty);
      } else {
        w' := w;
        DeleteOrder(comp, cz, tz, cy, ty);
      }
    }

    /** The body of rb_tree_delete. */
    method Unlink(z: RbNode, ghost cells: set<RbNode>) returns (ghost w: Shape)
      requires Linked(Top, shape) && z in InOrder(shape) && cells == Cells(Top, shape, S()) && !nil.red
      requires TotalPreorder(comp) && RedBlack(shape) && Sorted(comp, InOrder(shape))
      modifies cells`red, cells`left, cells`right, cells`parent, nil`red, nil`parent
      ensures Linked(Top, w) && Cells(Top, w, S()) == cells - {z} && !nil.red
      ensures RedBlack(w) && Sorted(comp, InOrder(w)) && OneMore(InOrder(w), z, InOrder(shape))
    {
      var y;
      ghost var cz, tz, cy, ty;
      y, cz, tz, cy, ty := Victim(z);
      w := CutOut(y, cy, ty, cells);
      w := Relink(y, z, w, cells, cz, tz, cy, ty);
    }

    /** The tree without the node `z`. */
    method TakeOut(z: RbNode)
      requires Valid() && z in InOrder(shape)
      modifies this`shape, Cells(Top, shape, S())`red, Cells(Top, shape, S())`left
      modifies Cells(Top, shape, S())`right, Cells(Top, shape, S())`parent, nil`red, nil`parent
      ensures Valid() && OneMore(InOrder(shape), z, old(InOrder(shape)))
      ensures Cells(Top, shape, S()) == old(Cells(Top, shape, S())) - {z}
    {
      ghost var w := Unlink(z, Cells(Top, shape, S()));
      shape := w;
    }

    /** rb_tree_delete: exactly the node `z` leaves the tree; the others stay, in order,
        with their keys and infos. */
    method Delete(z: RbNode)
      requires Valid() && z in InOrder(shape)
      modifies this`shape, Cells(Top, shape, S())`red, Cells(Top, shape, S())`left
      modifies Cells(Top, shape, S())`right, Cells(Top, shape, S())`parent, nil`red, nil`parent
      ensures Valid() && OneMore(InOrder(shape), z, old(InOrder(shape)))
      ensures Cells(Top, shape, S()) == old(Cells(Top, shape, S())) - {z}
      ensures Contents() == Remove(comp, old(Contents()), z.key)
    {
      ghost var order, es := InOrder(shape), Contents();
      assert allocated(order);
      TakeOut(z);
      assert Entries(order) == es;
      RemoveThere(comp, InOrder(shape), z, order);
    }

    // ----- the walk

    /** InorderTreeWalk: the calls of the walk function, in order. */
    function InorderTreeWalk(x: RbNode, ghost c: Ctx, ghost t: Shape): (log: seq<Entry>)
      requires Linked(c, t) && x == Head(t, S())
      reads Cells(c, t, S()), (set n | n in InOrder(t))`info
      ensures log == Entries(InOrder(t))
      decreases t
    {
      Look(c, t);
      if x == nil then []
      else
        Ascend(Left(c, x, t.red, t.right), t.left);
        Ascend(Right(c, t.left, x, t.red), t.right);
        EntriesAround(InOrder(t.left), x, InOrder(t.right));
        InorderTreeWalk(x.left, Left(c, x, t.red, t.right), t.left)
        + [Entry(x.key, x.info)]
        + InorderTreeWalk(x.right, Right(c, t.left, x, t.red), t.right)
    }

    /** rb_tree_walk calls the walk function once for every binding, in key order. */
    method Walk() returns (log: seq<Entry>)
      requires Valid()
      ensures log == Contents()
      ensures Valid() && Contents() == old(Contents())
    {
      Look(Top, shape);
      log := InorderTreeWalk(root.left, Top, shape);
    }
  }
}
