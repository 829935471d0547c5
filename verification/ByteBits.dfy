/** The bits of a byte, as the kernel's bitmaps set and clear them. */
module ByteBits {

  function Mask(j: nat): bv8
    requires j < 8
  {
    1 << j
  }

  predicate Bit(b: bv8, j: nat)
    requires j < 8
  {
    (b >> j) & 1 == 1
  }

  lemma SetBit(b: bv8, j: nat, i: nat)
    requires i < 8 && j < 8
    ensures Bit(b | Mask(j), i) <==> i == j || Bit(b, i)
  {
  }

  lemma ClearBit(b: bv8, j: nat, i: nat)
    requires i < 8 && j < 8
    ensures Bit(b & !Mask(j), i) <==> i != j && Bit(b, i)
  {
  }

  predicate EightBits(b: bv8) {
    Bit(b, 0) && Bit(b, 1) && Bit(b, 2) && Bit(b, 3) && Bit(b, 4) && Bit(b, 5) && Bit(b, 6) && Bit(b, 7)
  }

  lemma EightBitsFull(b: bv8)
    ensures b == 0xff <==> EightBits(b)
  {
  }

  lemma AllBits(b: bv8)
    ensures b == 0xff <==> forall j | 0 <= j < 8 :: Bit(b, j)
  {
    EightBitsFull(b);
    if forall j | 0 <= j < 8 :: Bit(b, j) {
      assert EightBits(b);
    }
  }

  lemma NoBit(j: nat)
    requires j < 8
    ensures !Bit(0, j)
  {
  }

  lemma ShiftNext(b: bv8, j: nat)
    requires j < 7
    ensures (b >> j) >> 1 == b >> (j + 1)
  {
  }

  lemma OddBit(b: bv8, j: nat)
    requires j < 8
    ensures (b >> j) & 1 != 0 <==> Bit(b, j)
  {
  }

  /** Byte `b` with bit `j` made `on`. */
  ghost predicate ByteWith(b: bv8, b': bv8, j: nat, on: bool)
    requires j < 8
  {
    forall k | 0 <= k < 8 :: Bit(b', k) <==> if k == j then on else Bit(b, k)
  }

  /** `bitmap[i] |= 1 << j`. */
  method WithBit(b: bv8, j: nat) returns (b': bv8)
    requires j < 8
    ensures ByteWith(b, b', j, true)
  {
    b' := b | (1 << j);
    forall k | 0 <= k < 8
      ensures Bit(b', k) <==> k == j || Bit(b, k)
    {
      SetBit(b, j, k);
    }
  }

  /** `bitmap[i] &= ~(1 << j)`. */
  method WithoutBit(b: bv8, j: nat) returns (b': bv8)
    requires j < 8
    ensures ByteWith(b, b', j, false)
  {
    b' := b & !(1 << j);
    forall k | 0 <= k < 8
      ensures Bit(b', k) <==> k != j && Bit(b, k)
    {
      ClearBit(b, j, k);
    }
  }

  /** Eight bits make a byte. */
  lemma SameBits(b: bv8, c: bv8)
    requires forall k | 0 <= k < 8 :: Bit(b, k) <==> Bit(c, k)
    ensures b == c
  {
    assert Bit(b, 0) <==> Bit(c, 0);
    assert Bit(b, 1) <==> Bit(c, 1);
    assert Bit(b, 2) <==> Bit(c, 2);
    assert Bit(b, 3) <==> Bit(c, 3);
    assert Bit(b, 4) <==> Bit(c, 4);
    assert Bit(b, 5) <==> Bit(c, 5);
    assert Bit(b, 6) <==> Bit(c, 6);
    assert Bit(b, 7) <==> Bit(c, 7);
  }

  /** Setting bit 0 is an or with 1. */
  lemma LowestSet(b: bv8, c: bv8)
    requires ByteWith(b, c, 0, true)
    ensures c == b | 1
  {
    assert Mask(0) == 1;
    forall k | 0 <= k < 8
      ensures Bit(c, k) <==> Bit(b | 1, k)
    {
      SetBit(b, 0, k);
    }
    SameBits(c, b | 1);
  }

  // ---------- Shifting one by one ----------

  /** The byte after `j` shifts to the right by one. */
  function ShiftedBy(b: bv8, j: nat): bv8 {
    if j == 0 then b else ShiftedBy(b, j - 1) >> 1
  }

  lemma {:induction false} ShiftedByIs(b: bv8, j: nat)
    requires j < 8
    ensures ShiftedBy(b, j) == b >> j
    decreases j
  {
    if j == 0 {
      assert b >> 0 == b;
    } else {
      ShiftedByIs(b, j - 1);
      ShiftNext(b, j - 1);
    }
  }

  /** The lowest bit is then bit `j`. */
  lemma LowestShifted(b: bv8, j: nat)
    requires j < 8
    ensures ShiftedBy(b, j) & 1 != 0 <==> Bit(b, j)
  {
    ShiftedByIs(b, j);
    OddBit(b, j);
  }
}
