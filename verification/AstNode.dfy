/** The nodes of the abstract syntax tree, with up to four packed children. */
module AstNode {
  import opened AstBitmap

  datatype Text = NoText | Text(characters: string)

  datatype NodeType = AST_NODE_LIST | AST_AMBIGUITY | Other(code: nat)

  /** What slot `j` of the compact array `cs` holds. */
  ghost function At(bits: seq<bool>, cs: seq<Ast?>, j: Slot): Ast?
    requires |bits| == MCXX_MAX_AST_CHILDREN
  {
    if bits[j] && Count(bits, j) < |cs| then cs[Count(bits, j)] else null
  }

  /** Storing at the index of slot `i` changes no other slot. */
  lemma StoreAt(bits: seq<bool>, cs: seq<Ast?>, i: Slot, c: Ast?)
    requires |bits| == MCXX_MAX_AST_CHILDREN && |cs| == Count(bits, MCXX_MAX_AST_CHILDREN) && bits[i]
    ensures Count(bits, i) < |cs|
    ensures forall j: Slot :: At(bits, cs[Count(bits, i) := c], j) == if j == i then c else At(bits, cs, j)
  {
    CountGrows(bits, i, MCXX_MAX_AST_CHILDREN);
    forall j: Slot ensures At(bits, cs[Count(bits, i) := c], j) == if j == i then c else At(bits, cs, j) {
      CountGrows(bits, j, MCXX_MAX_AST_CHILDREN);
      if i < j { CountGrows(bits, i, j); } else { CountGrows(bits, j, i); }
    }
  }

  lemma NotNullAt(bits: seq<bool>, cs: seq<Ast?>, j: Slot)
    requires |bits| == MCXX_MAX_AST_CHILDREN && |cs| == Count(bits, MCXX_MAX_AST_CHILDREN)
    requires forall k | 0 <= k < |cs| :: cs[k] != null
    ensures At(bits, cs, j) != null <==> bits[j]
  {
    CountGrows(bits, j, MCXX_MAX_AST_CHILDREN);
  }

  /** `cs'` is `cs` with `c` in slot `i`. */
  ghost predicate Stored(bits: seq<bool>, cs: seq<Ast?>, cs': seq<Ast?>, i: Slot, c: Ast?)
    requires |bits| == MCXX_MAX_AST_CHILDREN && |cs| == Count(bits, MCXX_MAX_AST_CHILDREN)
  {
    && |cs'| == |cs|
    && At(bits, cs', i) == c
    && (forall j: Slot | j != i :: At(bits, cs', j) == At(bits, cs, j))
    && (forall k {:trigger cs'[k]} | 0 <= k < |cs| :: cs'[k] == cs[k] || (k == Count(bits, i) && cs'[k] != null))
    && (bits[i] ==> Count(bits, i) < |cs'| && cs'[Count(bits, i)] != null)
  }

  /** One turn of the loop of ast_reallocate_children. */
  method RepackOne(oldBitmap: bv4, olds: seq<Ast?>, bitmap: bv4, num: Slot, newChild: Ast?, i: Slot, cs: seq<Ast?>)
    returns (cs': seq<Ast?>)
    requires |olds| == Count(Bits(oldBitmap), MCXX_MAX_AST_CHILDREN) && forall k | 0 <= k < |olds| :: olds[k] != null
    requires Bits(bitmap) == Bits(oldBitmap)[num := newChild != null]
    requires |cs| == Count(Bits(bitmap), MCXX_MAX_AST_CHILDREN)
    ensures Stored(Bits(bitmap), cs, cs', i, if i == num then newChild else At(Bits(oldBitmap), olds, i))
  {
    cs' := cs;
    NotNullAt(Bits(oldBitmap), olds, i);
    var has := HasBit(bitmap, i);
    if has {
      var c := newChild;
      if i != num {
        // The old sons change their position.
        CountGrows(Bits(oldBitmap), i, MCXX_MAX_AST_CHILDREN);
        var oldIndex := CountBits(oldBitmap, i);
        c := olds[oldIndex];
      }
      StoreAt(Bits(bitmap), cs, i, c);
      var index := CountBits(bitmap, i);
      cs' := cs[index := c];
    }
  }

  /** The loop of ast_reallocate_children. */
  method Repack(oldBitmap: bv4, olds: seq<Ast?>, bitmap: bv4, num: Slot, newChild: Ast?) returns (cs: seq<Ast?>)
    requires |olds| == Count(Bits(oldBitmap), MCXX_MAX_AST_CHILDREN) && forall k | 0 <= k < |olds| :: olds[k] != null
    requires Bits(bitmap) == Bits(oldBitmap)[num := newChild != null]
    ensures |cs| == Count(Bits(bitmap), MCXX_MAX_AST_CHILDREN) && forall k | 0 <= k < |cs| :: cs[k] != null
    ensures forall j: Slot :: At(Bits(bitmap), cs, j) == if j == num then newChild else At(Bits(oldBitmap), olds, j)
  {
    ghost var bits, oldBits := Bits(bitmap), Bits(oldBitmap);
    var n := CountBits(bitmap, MCXX_MAX_AST_CHILDREN);
    cs := seq(n, _ => null);
    var i := 0;
    while i < MCXX_MAX_AST_CHILDREN
      invariant i <= MCXX_MAX_AST_CHILDREN && |cs| == Count(bits, MCXX_MAX_AST_CHILDREN)
      invariant forall k | 0 <= k < Count(bits, i) && k < |cs| :: cs[k] != null
      invariant forall j: Slot | j < i :: At(bits, cs, j) == if j == num then newChild else At(oldBits, olds, j)
    {
      cs := RepackOne(oldBitmap, olds, bitmap, num, newChild, i, cs);
      i := i + 1;
    }
  }

  /** ADD_SON of ast_make, without the parent link. */
  method AddSon(bitmap: bv4, cs: seq<Ast?>, i: Slot, child: Ast?, idx: nat) returns (cs': seq<Ast?>, next: nat)
    requires Bits(bitmap)[i] <==> child != null
    requires |cs| == Count(Bits(bitmap), MCXX_MAX_AST_CHILDREN) && idx == Count(Bits(bitmap), i)
    ensures next == Count(Bits(bitmap), i + 1) && Stored(Bits(bitmap), cs, cs', i, child)
  {
    cs', next := cs, idx;
    if child != null {
      StoreAt(Bits(bitmap), cs, i, child);
      cs', next := cs[idx := child], idx + 1;
    }
  }

  /** The bitmap and the array of ast_make. */
  method PackSons(child0: Ast?, child1: Ast?, child2: Ast?, child3: Ast?) returns (bitmap: bv4, cs: seq<Ast?>)
    ensures Compact(bitmap, cs, [child0, child1, child2, child3])
  {
    bitmap := BitmapOf(child0 != null, child1 != null, child2 != null, child3 != null);
    cs := PackSlots(bitmap, [child0, child1, child2, child3]);
  }

  /** Fills a compact array for the slots of a bitmap. */
  method PackSlots(bitmap: bv4, sons: Sons) returns (cs: seq<Ast?>)
    requires forall j: Slot :: Bits(bitmap)[j] <==> sons[j] != null
    ensures Compact(bitmap, cs, sons)
  {
    ghost var bits := Bits(bitmap);
    var numChildren := CountBits(bitmap, MCXX_MAX_AST_CHILDREN);
    cs := seq(numChildren, _ => null);
    var idx, i := 0, 0;
    while i < MCXX_MAX_AST_CHILDREN
      invariant i <= MCXX_MAX_AST_CHILDREN && idx == Count(bits, i) && |cs| == Count(bits, MCXX_MAX_AST_CHILDREN)
      invariant forall k | 0 <= k < Count(bits, i) && k < |cs| :: cs[k] != null
      invariant forall j: Slot | j < i :: At(bits, cs, j) == sons[j]
    {
      cs, idx := AddSon(bitmap, cs, i, sons[i], idx);
      i := i + 1;
    }
  }

  /** Four children, null where there is none. */
  type Sons = s: seq<Ast?> | |s| == MCXX_MAX_AST_CHILDREN witness [null, null, null, null]

  /** The compact array `cs` holds exactly the children `slots` that are not null. */
  ghost predicate Compact(bitmap: bv4, cs: seq<Ast?>, slots: Sons)
  {
    && |cs| == Count(Bits(bitmap), MCXX_MAX_AST_CHILDREN)
    && (forall k | 0 <= k < |cs| :: cs[k] != null)
    && forall j: Slot :: At(Bits(bitmap), cs, j) == slots[j]
  }

  class Ast {
    var nodeType: NodeType
    var bitmapSons: bv4
    var parent: Ast?
    var locus: int
    var text: Text
    /** The compact array of the children that are there. */
    var children: seq<Ast?>
    /** The interpretations of an ambiguity. */
    var ambig: seq<Ast>
    /** What the bitmap and the compact array stand for. */
    ghost var sons: Sons

    ghost predicate SlotOk(j: Slot)
      reads `bitmapSons, `children, `sons
    {
      Compact(bitmapSons, children, sons)
    }

    /** The bitmap and the compact array hold the four children. */
    ghost predicate Packed()
      reads `bitmapSons, `children, `sons
    {
      forall j: Slot {:trigger SlotOk(j)} :: SlotOk(j)
    }

    /** ast_make. */
    constructor (nodeType: NodeType, child0: Ast?, child1: Ast?, child2: Ast?, child3: Ast?, locus: int, text: Text)
      modifies (set c: Ast | c in [child0, child1, child2, child3])`parent
      ensures this.nodeType == nodeType && this.locus == locus && this.text == text && parent == null && ambig == []
      ensures Packed() && sons == [child0, child1, child2, child3]
      ensures forall c: Ast | c in [child0, child1, child2, child3] :: c.parent == this
    {
      this.nodeType, this.locus, this.text := nodeType, locus, text;
      parent, ambig := null, [];
      var bitmap, cs := PackSons(child0, child1, child2, child3);
      bitmapSons, children := bitmap, cs;
      sons := [child0, child1, child2, child3];
      new;
      Adopt(child0, child1, child2, child3);
    }

    /** A new node with the contents of `orig` and no children, as ast_copy_one_node leaves it. */
    constructor Duplicate(orig: Ast)
      ensures nodeType == orig.nodeType && parent == orig.parent && locus == orig.locus && text == orig.text
      ensures Packed() && sons == [null, null, null, null] && ambig == [] && bitmapSons == 0 && children == []
    {
      nodeType, parent, locus, text := orig.nodeType, orig.parent, orig.locus, orig.text;
      bitmapSons, children, ambig, sons := 0, [], [], [null, null, null, null];
    }

    /** ast_replace: the contents of `src` in this node. */
    method Become(src: Ast)
      modifies this
      ensures nodeType == old(src.nodeType) && parent == old(src.parent)
      ensures locus == old(src.locus) && text == old(src.text)
      ensures bitmapSons == old(src.bitmapSons) && children == old(src.children) && ambig == old(src.ambig)
      ensures sons == old(src.sons)
    {
      nodeType, parent, locus, text := src.nodeType, src.parent, src.locus, src.text;
      bitmapSons, children, ambig, sons := src.bitmapSons, src.children, src.ambig, src.sons;
    }

    /** The parent links that ADD_SON sets. */
    method Adopt(child0: Ast?, child1: Ast?, child2: Ast?, child3: Ast?)
      modifies (set c: Ast | c in [child0, child1, child2, child3])`parent
      ensures forall c: Ast | c in [child0, child1, child2, child3] :: c.parent == this
    {
      if child0 != null { child0.parent := this; }
      if child1 != null { child1.parent := this; }
      if child2 != null { child2.parent := this; }
      if child3 != null { child3.parent := this; }
    }

    /** Stores a bitmap with its compact array. */
    method SetSons(bitmap: bv4, cs: seq<Ast?>, ghost slots: Sons)
      requires Compact(bitmap, cs, slots)
      modifies `bitmapSons, `children, `sons
      ensures Packed() && sons == slots
    {
      bitmapSons, children, sons := bitmap, cs, slots;
    }

    lemma BitsSayWhich()
      requires Packed()
      ensures forall j: Slot :: Bits(bitmapSons)[j] <==> sons[j] != null
    {
      assert SlotOk(0);
      forall j: Slot ensures Bits(bitmapSons)[j] <==> sons[j] != null {
        NotNullAt(Bits(bitmapSons), children, j);
        assert At(Bits(bitmapSons), children, j) == sons[j];
      }
    }

    /** ast_get_child. */
    function GetChild(j: Slot): (c: Ast?)
      requires Packed()
      reads `bitmapSons, `children, `sons
      ensures c == sons[j]
    {
      assert SlotOk(j);
      CountGrows(Bits(bitmapSons), j, MCXX_MAX_AST_CHILDREN);
      assert At(Bits(bitmapSons), children, j) == sons[j];
      if Bits(bitmapSons)[j] then children[Count(Bits(bitmapSons), j)] else null
    }

    /** ast_reallocate_children, for widening and for shrinking. */
    method ReallocateChildren(num: Slot, newChild: Ast?)
      requires Packed()
      modifies `bitmapSons, `children, `sons
      ensures Packed() && sons == old(sons)[num := newChild]
    {
      assert SlotOk(num);
      var oldChildren, oldBitmap := children, bitmapSons;
      var bitmap;
      if newChild != null {
        bitmap := WithBit(oldBitmap, num);
      } else {
        bitmap := WithoutBit(oldBitmap, num);
      }
      var cs := Repack(oldBitmap, oldChildren, bitmap, num, newChild);
      bitmapSons, children, sons := bitmap, cs, sons[num := newChild];
    }

    /** ast_set_child_but_parent. */
    method SetChildButParent(num: Slot, newChild: Ast?)
      requires Packed()
      modifies `bitmapSons, `children, `sons
      ensures Packed() && sons == old(sons)[num := newChild]
    {
      assert SlotOk(num);
      NotNullAt(Bits(bitmapSons), children, num);
      var has := HasBit(bitmapSons, num);
      if newChild == null {
        if has {
          // Shrinks the node.
          ReallocateChildren(num, newChild);
        }
      } else if has {
        StoreAt(Bits(bitmapSons), children, num, newChild);
        var index := CountBits(bitmapSons, num);
        children := children[index := newChild];
        sons := sons[num := newChild];
      } else {
        // Widens the node.
        ReallocateChildren(num, newChild);
      }
    }

    /** ast_set_child. */
    method SetChild(num: Slot, newChild: Ast?)
      requires Packed()
      modifies `bitmapSons, `children, `sons, (if newChild == null then {} else {newChild})`parent
      ensures Packed() && sons == old(sons)[num := newChild]
      ensures newChild != null ==> newChild.parent == this
    {
      SetChildButParent(num, newChild);
      if newChild != null {
        newChild.parent := this;
      }
    }
  }
}
