/** The bitmap that says which of the four children a node has. */
module AstBitmap {

  const MCXX_MAX_AST_CHILDREN := 4

  type Slot = i: nat | i < MCXX_MAX_AST_CHILDREN

  /** The bits of a bitmap, the lowest one first. */
  function Bits(bitmap: bv4): (bits: seq<bool>)
    ensures |bits| == MCXX_MAX_AST_CHILDREN
  {
    [bitmap & 1 != 0, bitmap & 2 != 0, bitmap & 4 != 0, bitmap & 8 != 0]
  }

  /** The number of bits that are set below position `n`. */
  function Count(bits: seq<bool>, n: nat): (c: nat)
    requires n <= |bits|
    ensures c <= n
  {
    if n == 0 then 0 else Count(bits, n - 1) + if bits[n - 1] then 1 else 0
  }

  /** ast_has_son. */
  method HasBit(bitmap: bv4, i: Slot) returns (r: bool)
    ensures r == Bits(bitmap)[i]
  {
    assert i == 0 || i == 1 || i == 2 || i == 3;
    r := ((1 as bv4) << i) & bitmap != 0;
  }

  method WithBit(bitmap: bv4, i: Slot) returns (r: bv4)
    ensures Bits(r) == Bits(bitmap)[i := true]
  {
    assert i == 0 || i == 1 || i == 2 || i == 3;
    r := bitmap | ((1 as bv4) << i);
  }

  method WithoutBit(bitmap: bv4, i: Slot) returns (r: bv4)
    ensures Bits(r) == Bits(bitmap)[i := false]
  {
    assert i == 0 || i == 1 || i == 2 || i == 3;
    r := bitmap & !((1 as bv4) << i);
  }

  /** The bitmap that ast_make computes. */
  method BitmapOf(b0: bool, b1: bool, b2: bool, b3: bool) returns (r: bv4)
    ensures Bits(r) == [b0, b1, b2, b3]
  {
    var c0: bv4, c1: bv4 := if b0 then 1 else 0, if b1 then 1 else 0;
    var c2: bv4, c3: bv4 := if b2 then 1 else 0, if b3 then 1 else 0;
    r := c0 | (c1 << 1) | (c2 << 2) | (c3 << 3);
  }

  lemma LowBit(bitmap: bv4, i: Slot)
    ensures (bitmap >> i) & 1 == if Bits(bitmap)[i] then 1 else 0
    ensures (bitmap >> i) >> 1 == bitmap >> (i + 1)
  {
  }

  /** ast_bitmap_to_index without a builtin; ast_count_bitmap is the same loop over all bits. */
  method CountBits(bitmap: bv4, num: nat) returns (s: nat)
    requires num <= MCXX_MAX_AST_CHILDREN
    ensures s == Count(Bits(bitmap), num)
  {
    s := 0;
    var rest, i := bitmap, 0;
    while i < num
      invariant i <= num && s == Count(Bits(bitmap), i) && rest == bitmap >> i
    {
      LowBit(bitmap, i);
      s := s + if rest & 1 == 1 then 1 else 0;
      rest := rest >> 1;
      i := i + 1;
    }
  }

  lemma {:induction false} CountGrows(bits: seq<bool>, i: nat, j: nat)
    requires i <= j <= |bits|
    ensures Count(bits, i) <= Count(bits, j)
    ensures i < j && bits[i] ==> Count(bits, i) < Count(bits, j)
    decreases j
  {
    if i < j { CountGrows(bits, i, j - 1); }
  }

  lemma MaskedBit(bitmap: bv4, n: nat, j: Slot)
    requires n <= MCXX_MAX_AST_CHILDREN
    ensures Bits(bitmap & !(0xF << n))[j] <==> j < n && Bits(bitmap)[j]
  {
  }

  /** The form with a builtin count, which masks the bits from `n` on, gives the same index. */
  lemma {:induction false} CountMasked(bitmap: bv4, n: nat, m: nat)
    requires n <= MCXX_MAX_AST_CHILDREN && m <= MCXX_MAX_AST_CHILDREN
    ensures Count(Bits(bitmap & !(0xF << n)), m) == Count(Bits(bitmap), if m < n then m else n)
  {
    if m > 0 {
      CountMasked(bitmap, n, m - 1);
      MaskedBit(bitmap, n, m - 1);
    }
  }
}
