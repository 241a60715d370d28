/** What the two fix-up loops do to the red-black invariant, stated on zippers. */
module RbFixUp {
  import opened RbShape
  import opened RbLinks

  ghost function Blacken(t: Shape): Shape { Painted(t, false) }

  ghost function Depth(c: Ctx): nat { if c.Top? then 0 else 1 + Depth(c.up) }

  ghost function WithSibling(c: Ctx, w: Shape): (r: Ctx)
    requires !c.Top?
    ensures r.Left? == c.Left? && r.Right? == c.Right? && r.up == c.up && r.node == c.node && r.red == c.red
    ensures Sibling(r) == w
  {
    if c.Left? then c.(right := w) else c.(left := w)
  }

  /** What a red-black context says about its lowest node. */
  lemma OpenCtx(c: Ctx, h: nat)
    requires CRedBlack(c, h) && !c.Top?
    ensures CRedBlack(c.up, h + if c.red then 0 else 1)
    ensures NoRedRed(Sibling(c)) && Balanced(Sibling(c)) && BlackHeight(Sibling(c)) == h
    ensures c.red ==> !c.up.Top? && !c.up.red && !IsRed(Sibling(c))
  {
  }

  /** What a red-black subtree says about its root. */
  lemma OpenShape(t: Shape)
    requires NoRedRed(t) && Balanced(t) && t.Fork?
    ensures NoRedRed(t.left) && Balanced(t.left) && NoRedRed(t.right) && Balanced(t.right)
    ensures BlackHeight(t.left) == BlackHeight(t.right) == BlackHeight(t) - if t.red then 0 else 1
    ensures t.red ==> !IsRed(t.left) && !IsRed(t.right)
  {
  }

  /** The root of the whole tree. */
  ghost function Root(c: Ctx, t: Shape, s: Sentinels): RbNode {
    if c.Top? then Head(t, s) else if c.up.Top? then c.node else Root(c.up, t, s)
  }

  lemma {:induction false} PlugRoot(c: Ctx, t: Shape, s: Sentinels)
    ensures Head(Plug(c, t), s) == Root(c, t, s)
    decreases c
  {
    if !c.Top? {
      PlugRoot(c.up, Fill(c, t), s);
      RootOfFill(c.up, Fill(c, t), t, s);
    }
  }

  lemma {:induction false} RootOfFill(c: Ctx, t: Shape, t': Shape, s: Sentinels)
    ensures !c.Top? ==> Root(c, t, s) == Root(c, t', s)
    decreases c
  {
    if !c.Top? { RootOfFill(c.up, t, t', s); }
  }

  /** A position is no deeper than the tree is high. */
  lemma {:induction false} DepthHeight(c: Ctx, t: Shape)
    ensures Depth(c) + Height(t) <= Height(Plug(c, t))
    decreases c
  {
    if !c.Top? { DepthHeight(c.up, Fill(c, t)); }
  }

  lemma QueryCost(c: Ctx, t: Shape, calls: nat)
    requires RedBlack(Plug(c, t)) && calls <= Depth(c) + if t.Nil? then 0 else 1
    ensures Logarithmic(calls, |InOrder(Plug(c, t))|)
  {
    DepthHeight(c, t);
    Pow2Monotone(calls, Height(Plug(c, t)));
    HeightBound(Plug(c, t));
    InOrderNodes(Plug(c, t));
  }

  // ----- insertion

  /** Everything is in order but that the red focus may hang from a red node. */
  ghost predicate Pending(c: Ctx, t: Shape) {
    IsRed(t) && NoRedRed(t) && Balanced(t) && CRedBlack(c, BlackHeight(t))
  }

  /** A red parent is never the root of the tree, so there is a real, black grandparent. */
  lemma GrandparentExists(c: Ctx, t: Shape)
    requires Pending(c, t) && CRed(c)
    ensures !c.up.Top? && !c.up.red
  {
  }

  /** The grandparent's subtree once parent and uncle are black and the grandparent red. */
  ghost function Recolored(c: Ctx, t: Shape): Shape
    requires !c.Top? && !c.up.Top?
  {
    Painted(Fill(WithSibling(c.up, Blacken(Sibling(c.up))), Blacken(Fill(c, t))), true)
  }

  lemma RecoloredPending(c: Ctx, t: Shape)
    requires Pending(c, t) && CRed(c) && !c.up.Top? && IsRed(Sibling(c.up))
    ensures Pending(c.up.up, Recolored(c, t))
  {
    OpenCtx(c, BlackHeight(t));
    OpenCtx(c.up, BlackHeight(t));
    OpenShape(Sibling(c.up));
    var p := Blacken(Fill(c, t));
    assert Balanced(p) && NoRedRed(p) && BlackHeight(p) == BlackHeight(t) + 1;
  }

  lemma RecoloredOrder(c: Ctx, t: Shape)
    requires !c.Top? && !c.up.Top?
    ensures InOrder(Plug(c.up.up, Recolored(c, t))) == InOrder(Plug(c, t))
  {
    SameOrder(c.up.up, Recolored(c, t), Fill(c.up, Fill(c, t)));
  }

  /** Both steps down to the focus go the same way. */
  ghost predicate IsOuter(c: Ctx) { !c.Top? && !c.up.Top? && c.Left? == c.up.Left? }

  /** The zipper of the same focus after the rotation of an outer grandchild. */
  ghost function Raised(c: Ctx): Ctx
    requires IsOuter(c)
  {
    if c.Left? then Left(c.up.up, c.node, false, Fork(c.right, c.up.node, true, c.up.right))
    else Right(c.up.up, Fork(c.up.left, c.up.node, true, c.left), c.node, false)
  }

  lemma RaisedPending(c: Ctx, t: Shape)
    requires Pending(c, t) && CRed(c) && IsOuter(c) && !IsRed(Sibling(c.up))
    ensures Pending(Raised(c), t) && !CRed(Raised(c))
  {
    OpenCtx(c, BlackHeight(t));
    OpenCtx(c.up, BlackHeight(t));
  }

  lemma RaisedOrder(c: Ctx, t: Shape)
    requires IsOuter(c)
    ensures InOrder(Plug(Raised(c), t)) == InOrder(Plug(c, t))
  {
    var before, after := Fill(c.up, Fill(c, t)), Fill(Raised(c), t);
    if c.Left? { RotationOrder(before); } else { RotationOrder(before); }
    assert InOrder(before) == InOrder(after);
    SameOrder(c.up.up, before, after);
  }

  /** An inner grandchild: the parent takes the place of the focus below it. */
  ghost function Turned(c: Ctx, t: Shape): (Ctx, Shape)
    requires !c.Top? && t.Fork?
  {
    if c.Left? then (Right(c.up, t.left, t.node, t.red), Fork(t.right, c.node, c.red, c.right))
    else (Left(c.up, t.node, t.red, t.right), Fork(c.left, c.node, c.red, t.left))
  }

  lemma TurnedPending(c: Ctx, t: Shape)
    requires Pending(c, t) && CRed(c) && !c.up.Top? && !IsOuter(c)
    ensures Pending(Turned(c, t).0, Turned(c, t).1) && CRed(Turned(c, t).0) && IsOuter(Turned(c, t).0)
  {
  }

  lemma TurnedOrder(c: Ctx, t: Shape)
    requires !c.Top? && t.Fork?
    ensures InOrder(Plug(Turned(c, t).0, Turned(c, t).1)) == InOrder(Plug(c, t))
  {
    var before, after := Fill(c, t), Fill(Turned(c, t).0, Turned(c, t).1);
    RotationOrder(before);
    SameOrder(c.up, before, after);
  }

  /** The loop ends; painting the root black finishes the job. */
  lemma {:induction false} PendingDone(c: Ctx, t: Shape)
    requires NoRedRed(t) && Balanced(t) && CNoRedRed(c) && CBalanced(c, BlackHeight(t))
    requires CRed(c) ==> !IsRed(t)
    ensures NoRedRed(Plug(c, t)) && Balanced(Plug(c, t))
    decreases c
  {
    if !c.Top? { PendingDone(c.up, Fill(c, t)); }
  }

  lemma NewLeafPending(c: Ctx, z: RbNode)
    requires RedBlack(Plug(c, Nil))
    ensures Pending(c, Fork(Nil, z, true, Nil))
  {
    PlugFits(c, Nil);
  }

  /** The tree that the loop leaves, its root painted black, is a red-black search tree
      with one more node at the place of its key. */
  lemma InsertionDone(comp: Comparator, c: Ctx, z: RbNode, w: Shape)
    requires TotalPreorder(comp) && Sorted(comp, InOrder(Plug(c, Nil))) && Brackets(comp, c, z.key)
    requires NoRedRed(w) && Balanced(w) && InOrder(w) == InOrder(Plug(c, Fork(Nil, z, true, Nil)))
    ensures w.Fork? && RedBlack(Blacken(w))
    ensures InOrder(Blacken(w)) == Before(c) + [z] + After(c)
    ensures Sorted(comp, InOrder(Blacken(w)))
  {
    PlugInOrder(c, Nil);
    PlugInOrder(c, Fork(Nil, z, true, Nil));
    assert InOrder(Fork(Nil, z, true, Nil)) == [z];
    assert Before(c) + [] + After(c) == Before(c) + After(c);
    SortedInsert(comp, Before(c), z, After(c));
  }

  // ----- deletion

  /** The focus lacks one black node, and may be red below a red node. */
  ghost predicate Deficit(c: Ctx, t: Shape) {
    NoRedRed(Blacken(t)) && Balanced(t) && CRedBlack(c, BlackHeight(t) + 1)
  }

  /** A black focus that is not the root has a real sibling. */
  lemma SiblingExists(c: Ctx, t: Shape)
    requires Deficit(c, t) && !c.Top?
    ensures Sibling(c).Fork? && NoRedRed(Sibling(c)) && Balanced(Sibling(c))
    ensures BlackHeight(Sibling(c)) == BlackHeight(t) + 1
    ensures IsRed(Sibling(c)) ==> Sibling(c).left.Fork? && Sibling(c).right.Fork? && !c.red
  {
  }

  /** The near child and the far child of the sibling, seen from the focus. */
  ghost function Near(c: Ctx): Shape
    requires !c.Top? && Sibling(c).Fork?
  {
    if c.Left? then Sibling(c).left else Sibling(c).right
  }

  ghost function Far(c: Ctx): Shape
    requires !c.Top? && Sibling(c).Fork?
  {
    if c.Left? then Sibling(c).right else Sibling(c).left
  }

  /** Case 1: the red sibling is rotated above the parent. */
  ghost function SiblingRaised(c: Ctx): Ctx
    requires !c.Top? && Sibling(c).Fork?
  {
    if c.Left? then Left(Left(c.up, c.right.node, false, c.right.right), c.node, true, c.right.left)
    else Right(Right(c.up, c.left.left, c.left.node, false), c.left.right, c.node, true)
  }

  lemma SiblingRaisedDeficit(c: Ctx, t: Shape)
    requires Deficit(c, t) && !c.Top? && IsRed(Sibling(c))
    ensures Deficit(SiblingRaised(c), t) && !IsRed(Sibling(SiblingRaised(c)))
    ensures CRed(SiblingRaised(c))
  {
    SiblingExists(c, t);
    OpenCtx(c, BlackHeight(t) + 1);
    OpenShape(Sibling(c));
    assert CRedBlack(SiblingRaised(c).up, BlackHeight(t) + 1);
  }

  /** Case 2: the sibling turns red and the deficit moves to the parent. */
  lemma DeficitMovesUp(c: Ctx, t: Shape)
    requires Deficit(c, t) && !c.Top? && !IsRed(t) && Sibling(c).Fork? && !IsRed(Sibling(c))
    requires !IsRed(Sibling(c).left) && !IsRed(Sibling(c).right)
    ensures Deficit(c.up, Fill(WithSibling(c, Painted(Sibling(c), true)), t))
  {
  }

  /** Case 3: the sibling's near child is rotated above the sibling. */
  ghost function NearRaised(c: Ctx): Shape
    requires !c.Top? && Sibling(c).Fork? && Near(c).Fork?
  {
    var w := Sibling(c);
    if c.Left? then Fork(w.left.left, w.left.node, false, Fork(w.left.right, w.node, true, w.right))
    else Fork(Fork(w.left, w.node, true, w.right.left), w.right.node, false, w.right.right)
  }

  /** The sibling, red, with its near child black: what is rotated in case 3. */
  ghost function NearPainted(c: Ctx): Shape
    requires !c.Top? && Sibling(c).Fork?
  {
    var w := Sibling(c);
    if c.Left? then Fork(Blacken(w.left), w.node, true, w.right) else Fork(w.left, w.node, true, Blacken(w.right))
  }

  /** The context of the near child of the sibling. */
  ghost function BelowSibling(c: Ctx, t: Shape): (b: Ctx)
    requires !c.Top? && Sibling(c).Fork?
    ensures !b.Top? && b.up == Beside(c, t) && b.node == Sibling(c).node
    ensures Fill(b, Near(c)) == Sibling(c) && Painted(Fill(b, Blacken(Near(c))), true) == NearPainted(c)
  {
    var w := Sibling(c);
    if c.Left? then Left(Beside(c, t), w.node, w.red, w.right) else Right(Beside(c, t), w.left, w.node, w.red)
  }

  lemma SiblingReplaced(c: Ctx, w: Shape, h: nat)
    requires !c.Top? && CRedBlack(c, h) && NoRedRed(w) && Balanced(w) && BlackHeight(w) == h && !IsRed(w)
    ensures CRedBlack(WithSibling(c, w), h) && Sibling(WithSibling(c, w)) == w
  {
    OpenCtx(c, h);
  }

  lemma NearRaisedShape(c: Ctx, h: nat)
    requires !c.Top? && Sibling(c).Fork? && !IsRed(Sibling(c)) && IsRed(Near(c)) && !IsRed(Far(c))
    requires NoRedRed(Sibling(c)) && Balanced(Sibling(c)) && BlackHeight(Sibling(c)) == h + 1
    ensures var w := NearRaised(c); NoRedRed(w) && Balanced(w) && BlackHeight(w) == h + 1
  {
    OpenShape(Sibling(c));
    OpenShape(Near(c));
    var w := NearRaised(c);
    assert NoRedRed(w.left) && Balanced(w.left) && NoRedRed(w.right) && Balanced(w.right);
    assert BlackHeight(w.left) == BlackHeight(w.right) == h;
  }

  /** Case 3 leaves the deficit where it is, with a red far child. */
  lemma NearRaisedDeficit(c: Ctx, t: Shape)
    requires Deficit(c, t) && !c.Top? && Sibling(c).Fork? && !IsRed(Sibling(c))
    requires IsRed(Near(c)) && !IsRed(Far(c))
    ensures var c' := WithSibling(c, NearRaised(c));
            Deficit(c', t) && Sibling(c').Fork? && !IsRed(Sibling(c')) && IsRed(Far(c'))
  {
    SiblingExists(c, t);
    NearRaisedShape(c, BlackHeight(t));
    SiblingReplaced(c, NearRaised(c), BlackHeight(t) + 1);
  }

  /** Case 4: the sibling takes the parent's place and colour; no deficit is left. */
  ghost function Settled(c: Ctx, t: Shape): Shape
    requires !c.Top? && Sibling(c).Fork?
  {
    var w := Sibling(c);
    if c.Left? then Fork(Fork(t, c.node, false, w.left), w.node, c.red, Blacken(w.right))
    else Fork(Blacken(w.left), w.node, c.red, Fork(w.right, c.node, false, t))
  }

  /** The context with another colour at the node above the hole. */
  ghost function Recoloured(c: Ctx, red: bool): (r: Ctx)
    requires !c.Top?
    ensures !r.Top? && r.up == c.up && r.node == c.node && r.Left? == c.Left? && r.Right? == c.Right?
    ensures Sibling(r) == Sibling(c)
  {
    if c.Left? then Left(c.up, c.node, red, c.right) else Right(c.up, c.left, c.node, red)
  }

  /** The sibling with its far child black. */
  ghost function FarPainted(c: Ctx): Shape
    requires !c.Top? && Sibling(c).Fork?
  {
    var w := Sibling(c);
    if c.Left? then Fork(w.left, w.node, w.red, Blacken(w.right)) else Fork(Blacken(w.left), w.node, w.red, w.right)
  }

  /** The context of the far child of the sibling. */
  ghost function BeyondSibling(c: Ctx, t: Shape): (b: Ctx)
    requires !c.Top? && Sibling(c).Fork?
    ensures !b.Top? && b.up == Beside(c, t)
    ensures Fill(b, Far(c)) == Sibling(c) && Fill(b, Blacken(Far(c))) == FarPainted(c)
  {
    var w := Sibling(c);
    if c.Left? then Right(Beside(c, t), w.left, w.node, w.red) else Left(Beside(c, t), w.node, w.red, w.right)
  }

  /** Case 4 just before the rotation: the colours are exchanged already. */
  ghost function Exchanged(c: Ctx): (r: Ctx)
    requires !c.Top? && Sibling(c).Fork?
    ensures !r.Top? && r.up == c.up && r.node == c.node && r.Left? == c.Left? && Sibling(r).Fork?
  {
    var c1 := Recoloured(WithSibling(c, Painted(Sibling(c), c.red)), false);
    WithSibling(c1, FarPainted(c1))
  }

  lemma ExchangedTurns(c: Ctx, t: Shape)
    requires !c.Top? && Sibling(c).Fork?
    ensures c.Left? ==> RotatedLeft(Fill(Exchanged(c), t)) == Settled(c, t)
    ensures !c.Left? ==> RotatedRight(Fill(Exchanged(c), t)) == Settled(c, t)
  {
  }

  lemma SettledRedBlack(c: Ctx, t: Shape)
    requires Deficit(c, t) && !c.Top? && !IsRed(t) && Sibling(c).Fork? && !IsRed(Sibling(c)) && IsRed(Far(c))
    ensures RedBlack(Plug(c.up, Settled(c, t)))
  {
    SiblingExists(c, t);
    OpenCtx(c, BlackHeight(t) + 1);
    OpenShape(Sibling(c));
    OpenShape(Far(c));
    var w := Settled(c, t);
    assert NoRedRed(w.left) && Balanced(w.left) && NoRedRed(w.right) && Balanced(w.right);
    assert BlackHeight(w.left) == BlackHeight(w.right) == BlackHeight(t) + 1;
    PlugFits(c.up, w);
  }

  /** A red focus, or the root, pays the deficit by turning black. */
  lemma DeficitPaid(c: Ctx, t: Shape)
    requires Deficit(c, t) && (IsRed(t) || c.Top?)
    ensures RedBlack(Plug(c, Blacken(t)))
  {
    PlugFits(c, Blacken(t));
  }

  /** The root of the tree, as the fix-up remembers it: the parent of the focus, or the
      root of the tree above that parent. */
  ghost predicate RootKnown(c: Ctx, rt: RbNode, s: Sentinels) {
    !c.Top? && (rt == c.node || (!c.up.Top? && rt == Root(c.up, Nil, s)))
  }

  lemma RootStaysKnown(c: Ctx, t: Shape, rt: RbNode, s: Sentinels)
    requires !c.Top? && rt == Root(c, t, s)
    ensures RootKnown(c, rt, s)
    ensures Sibling(c).Fork? ==> RootKnown(SiblingRaised(c), rt, s)
    ensures forall w :: RootKnown(WithSibling(c, w), rt, s)
    ensures Root(c.up, Fill(c, t), s) == rt
  {
    if !c.up.Top? {
      RootOfFill(c.up, t, Nil, s);
      RootOfFill(c.up, t, Fill(c, t), s);
    }
  }

  lemma {:induction false} RootInCtx(c: Ctx, t: Shape, s: Sentinels)
    requires !c.Top?
    ensures Root(c, t, s) in CNodes(c)
    decreases c
  {
    if !c.up.Top? { RootInCtx(c.up, t, s); }
  }

  /** When the fix-up has settled, the remembered root is black: it is still the root,
      or it is the old parent, which was painted black. */
  lemma SettledRoot(c: Ctx, t: Shape, rt: RbNode, s: Sentinels)
    requires RootKnown(c, rt, s) && Sibling(c).Fork? && rt != c.node
    ensures Head(Plug(c.up, Settled(c, t)), s) == rt
  {
    PlugRoot(c.up, Settled(c, t), s);
    RootOfFill(c.up, Nil, Settled(c, t), s);
  }

  // ----- what the cases do to the order

  lemma SiblingRaisedOrder(c: Ctx, t: Shape)
    requires !c.Top? && Sibling(c).Fork?
    ensures InOrder(Plug(SiblingRaised(c), t)) == InOrder(Plug(c, t))
  {
    var before, after := Fill(c, t), Fill(SiblingRaised(c).up, Fill(SiblingRaised(c), t));
    RotationOrder(before);
    SameOrder(c.up, before, after);
  }

  lemma NearRaisedOrder(c: Ctx, t: Shape)
    requires !c.Top? && Sibling(c).Fork? && Near(c).Fork?
    ensures InOrder(Plug(WithSibling(c, NearRaised(c)), t)) == InOrder(Plug(c, t))
  {
    RotationOrder(Sibling(c));
    assert InOrder(NearRaised(c)) == InOrder(Sibling(c));
    SameOrder(c.up, Fill(c, t), Fill(WithSibling(c, NearRaised(c)), t));
  }

  lemma SettledOrder(c: Ctx, t: Shape)
    requires !c.Top? && Sibling(c).Fork?
    ensures InOrder(Plug(c.up, Settled(c, t))) == InOrder(Plug(c, t))
  {
    RotationOrder(Fill(c, t));
    assert InOrder(Blacken(Far(c))) == InOrder(Far(c));
    SameOrder(c.up, Fill(c, t), Settled(c, t));
  }

  lemma RepaintedSiblingOrder(c: Ctx, t: Shape, red: bool)
    requires !c.Top?
    ensures InOrder(Plug(WithSibling(c, Painted(Sibling(c), red)), t)) == InOrder(Plug(c, t))
  {
    SameOrder(c.up, Fill(c, t), Fill(WithSibling(c, Painted(Sibling(c), red)), t));
  }

  // ----- splicing out a node

  /** The only subtree that a node to be spliced out may have. */
  ghost function OnlyChild(t: Shape): Shape
    requires t.Fork?
  {
    if t.left.Nil? then t.right else t.left
  }

  /** Cutting out a red node harms nothing; cutting out a black one leaves a deficit. */
  lemma SpliceDeficit(c: Ctx, t: Shape)
    requires t.Fork? && RedBlack(Plug(c, t)) && (t.left.Nil? || t.right.Nil?)
    ensures if t.red then RedBlack(Plug(c, OnlyChild(t))) else Deficit(c, OnlyChild(t))
  {
    PlugFits(c, t);
    OpenShape(t);
    if t.red {
      PlugFits(c, OnlyChild(t));
    }
  }

  lemma SpliceOrder(c: Ctx, t: Shape)
    requires t.Fork? && (t.left.Nil? || t.right.Nil?)
    ensures InOrder(Plug(c, t)) == Before(c) + InOrder(t.left) + [t.node] + (InOrder(t.right) + After(c))
    ensures InOrder(Plug(c, OnlyChild(t))) == Before(c) + InOrder(t.left) + (InOrder(t.right) + After(c))
  {
    PlugInOrder(c, t);
    PlugInOrder(c, OnlyChild(t));
    Regroup(Before(c), InOrder(t.left), [t.node], InOrder(t.right), After(c));
    assert InOrder(OnlyChild(t)) == InOrder(t.left) + InOrder(t.right);
  }

  // ----- a node takes another one's place

  lemma ReplaceRedBlack(c: Ctx, t: Shape, y: RbNode)
    requires t.Fork? && RedBlack(Plug(c, t))
    ensures RedBlack(Plug(c, t.(node := y)))
  {
    PlugFits(c, t);
    PlugFits(c, t.(node := y));
  }

  /** Going up from a right child moves no node across the end of the subtree. */
  lemma ClimbOrder(c: Ctx, t: Shape)
    requires c.Right?
    ensures Before(c.up) + InOrder(Fill(c, t)) == Before(c) + InOrder(t)
  {
  }

  /** The nodes up to and including the focus node. */
  ghost function Through(c: Ctx, t: Shape): seq<RbNode>
    requires t.Fork?
  {
    Before(c) + InOrder(t.left) + [t.node]
  }

  lemma ThroughRight(c: Ctx, t: Shape, c': Ctx, t': Shape)
    requires t.Fork? && t'.Fork? && t'.left.Nil?
    requires Before(c') == Before(Right(c, t.left, t.node, t.red))
    ensures Before(c') + InOrder(t'.left) == Through(c, t)
  {
  }

  lemma ClimbEnds(c: Ctx, t: Shape, c': Ctx, t': Shape)
    requires t.Fork? && t.right.Nil? && !c'.Right? && Plug(c', t') == Plug(c, t)
    requires Before(c') + InOrder(t') == Before(c) + InOrder(t)
    ensures c'.Top? ==> InOrder(Plug(c, t)) == Through(c, t)
    ensures !c'.Top? ==> Before(c'.up) + InOrder(Fill(c', t').left) == Through(c, t)
  {
    assert InOrder(t) == InOrder(t.left) + [t.node];
    PlugInOrder(c', t');
  }

  /** The node to be cut out for `z`: `z` itself, or the node that follows it. */
  ghost predicate CutFor(cz: Ctx, tz: Shape, cy: Ctx, ty: Shape) {
    && tz.Fork? && ty.Fork? && Plug(cy, ty) == Plug(cz, tz) && (ty.left.Nil? || ty.right.Nil?)
    && (ty.node == tz.node ==> cy == cz && ty == tz)
    && (ty.node != tz.node ==> ty.left.Nil? && Before(cy) == Through(cz, tz))
  }

  lemma SortedWithout(comp: Comparator, a: seq<RbNode>, z: RbNode, b: seq<RbNode>)
    requires Sorted(comp, a + [z] + b)
    ensures Sorted(comp, a + b)
  {
    var s, t := a + [z] + b, a + b;
    forall i, j | 0 <= i < j < |t| ensures Less(comp, t[i].key, t[j].key) {
      var i', j' := if i < |a| then i else i + 1, if j < |a| then j else j + 1;
      assert s[i'] == t[i] && s[j'] == t[j] && Less(comp, s[i'].key, s[j'].key);
    }
  }

  /** Cutting the node itself out takes exactly that node out of the order. */
  lemma DeleteOrder(comp: Comparator, cz: Ctx, tz: Shape, cy: Ctx, ty: Shape)
    requires CutFor(cz, tz, cy, ty) && TotalPreorder(comp) && Sorted(comp, InOrder(Plug(cz, tz)))
    ensures Sorted(comp, InOrder(Plug(cy, OnlyChild(ty))))
    ensures OneMore(InOrder(Plug(cy, OnlyChild(ty))), ty.node, InOrder(Plug(cz, tz)))
    ensures ty.node != tz.node ==> tz.node in InOrder(Plug(cy, OnlyChild(ty)))
  {
    SpliceOrder(cy, ty);
    var a, b := Before(cy) + InOrder(ty.left), InOrder(ty.right) + After(cy);
    InsertedAt(a, ty.node, b);
    SortedWithout(comp, a, ty.node, b);
    if ty.node != tz.node { assert a[|a| - 1] == tz.node; }
  }

  lemma UniqueSplit(a: seq<RbNode>, z: RbNode, b: seq<RbNode>, a': seq<RbNode>, b': seq<RbNode>)
    requires a + [z] + b == a' + [z] + b' && z !in a && z !in a'
    ensures a == a' && b == b'
  {
    var s := a + [z] + b;
    assert s[|a|] == z && s[|a'|] == z;
    assert a == s[..|a|] && b == s[|a| + 1..];
  }

  lemma NotAmongBefore(comp: Comparator, a: seq<RbNode>, z: RbNode, b: seq<RbNode>)
    requires TotalPreorder(comp) && Sorted(comp, a + [z] + b)
    ensures z !in a
  {
    SortedSplit(comp, a, z, b);
  }

  lemma FocusSplit(c: Ctx, t: Shape, y: RbNode)
    requires t.Fork?
    ensures InOrder(Plug(c, t)) == Before(c) + InOrder(t.left) + [t.node] + (InOrder(t.right) + After(c))
    ensures InOrder(Plug(c, t.(node := y))) == Before(c) + InOrder(t.left) + [y] + (InOrder(t.right) + After(c))
  {
    PlugInOrder(c, t);
    PlugInOrder(c, t.(node := y));
    Regroup(Before(c), InOrder(t.left), [t.node], InOrder(t.right), After(c));
    Regroup(Before(c), InOrder(t.left), [y], InOrder(t.right), After(c));
  }

  /** Replacing `z` by the node that followed it, after that node was cut out, takes
      exactly `z` out of the order. */
  lemma ReplaceOrder(comp: Comparator, cz: Ctx, tz: Shape, cy: Ctx, ty: Shape, c: Ctx, t: Shape)
    requires CutFor(cz, tz, cy, ty) && ty.node != tz.node && TotalPreorder(comp)
    requires Sorted(comp, InOrder(Plug(cz, tz)))
    requires t.Fork? && t.node == tz.node && InOrder(Plug(c, t)) == InOrder(Plug(cy, OnlyChild(ty)))
    ensures Sorted(comp, InOrder(Plug(c, t.(node := ty.node))))
    ensures OneMore(InOrder(Plug(c, t.(node := ty.node))), tz.node, InOrder(Plug(cz, tz)))
  {
    var z, y := tz.node, ty.node;
    var p, b := Before(cz) + InOrder(tz.left), InOrder(ty.right) + After(cy);
    SpliceOrder(cy, ty);
    DeleteOrder(comp, cz, tz, cy, ty);
    FocusSplit(c, t, y);
    var a', b' := Before(c) + InOrder(t.left), InOrder(t.right) + After(c);
    assert p + [z] + [] == p + [z];
    NotAmongBefore(comp, p, z, b);
    NotAmongBefore(comp, a', z, b');
    UniqueSplit(p, z, b, a', b');
    Replaced(comp, p, z, y, b);
  }

  lemma Replaced(comp: Comparator, p: seq<RbNode>, z: RbNode, y: RbNode, b: seq<RbNode>)
    requires Sorted(comp, p + [z] + [y] + b)
    ensures Sorted(comp, p + [y] + b) && OneMore(p + [y] + b, z, p + [z] + [y] + b)
  {
    assert p + [z] + [y] + b == p + [z] + ([y] + b);
    assert p + [y] + b == p + ([y] + b);
    SortedWithout(comp, p, z, [y] + b);
    InsertedAt(p, z, [y] + b);
  }

  /** A node that comes right after `z` is not `z`. */
  lemma ThroughApart(cz: Ctx, tz: Shape, cy: Ctx, ty: Shape, s: Sentinels)
    requires tz.Fork? && ty.Fork? && ty.left.Nil? && Before(cy) == Through(cz, tz) && Proper(cy, ty, s)
    ensures ty.node != tz.node
  {
    BeforeInCtx(cy);
    assert Before(cy)[|Before(cy)| - 1] == tz.node;
  }

  lemma {:induction false} BeforeInCtx(c: Ctx)
    ensures forall n | n in Before(c) :: n in CNodes(c)
    decreases c
  {
    match c
    case Top =>
    case Left(up, _, _, _) => BeforeInCtx(up);
    case Right(up, l, _, _) => BeforeInCtx(up); InOrderNodes(l);
  }
}
