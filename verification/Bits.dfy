/** Single bits of a byte, as the shift, or and and-not of `shardpreftable.go` see them. */
module Bits {

  /** Go's `byte(1) << k`: the one moves up a place at a time and falls off the top. */
  function Mask(k: nat): bv8 {
    if k == 0 then 1 else Mask(k - 1) << 1
  }

  predicate Bit(x: bv8, k: nat) {
    x & Mask(k) != 0
  }

  function SetBit(x: bv8, k: nat): bv8 {
    x | Mask(k)
  }

  function ClearBit(x: bv8, k: nat): bv8 {
    x & !Mask(k)
  }

  predicate OneHot(m: bv8) {
    m != 0 && m & (m - 1) == 0
  }

  lemma MaskValues()
    ensures Mask(0) == 1 && Mask(1) == 2 && Mask(2) == 4 && Mask(3) == 8
    ensures Mask(4) == 16 && Mask(5) == 32 && Mask(6) == 64 && Mask(7) == 128
  {
    assert Mask(3) == 8;
    assert Mask(6) == 64;
  }

  /** The masks in range are the shifts that the code writes. */
  lemma MaskIsShift(k: nat)
    requires k < 8
    ensures Mask(k) == (1 as bv8) << k
  {
    MaskValues();
  }

  /** Shifting a byte by eight places or more leaves nothing. */
  lemma {:induction false} MaskVanishes(k: nat)
    requires 8 <= k
    ensures Mask(k) == 0
  {
    if k == 8 {
      MaskValues();
    } else {
      MaskVanishes(k - 1);
    }
  }

  lemma MaskOneHot(k: nat)
    requires k < 8
    ensures OneHot(Mask(k))
  {
    MaskValues();
  }

  lemma MaskInjective(j: nat, k: nat)
    requires j < 8 && k < 8
    ensures Mask(j) == Mask(k) <==> j == k
  {
    MaskValues();
  }

  lemma OrOneHot(x: bv8, m: bv8, n: bv8)
    requires OneHot(m) && OneHot(n)
    ensures (x | n) & m != 0 <==> m == n || x & m != 0
  {
  }

  lemma AndNotOneHot(x: bv8, m: bv8, n: bv8)
    requires OneHot(m) && OneHot(n)
    ensures (x & !n) & m != 0 <==> m != n && x & m != 0
  {
  }

  /** Or-ing a mask in sets that bit and no other. */
  lemma BitAfterSet(x: bv8, j: nat, k: nat)
    requires j < 8 && k < 8
    ensures Bit(SetBit(x, k), j) <==> j == k || Bit(x, j)
  {
    MaskOneHot(j);
    MaskOneHot(k);
    OrOneHot(x, Mask(j), Mask(k));
    MaskInjective(j, k);
  }

  /** And-ing a mask's complement clears that bit and no other. */
  lemma BitAfterClear(x: bv8, j: nat, k: nat)
    requires j < 8 && k < 8
    ensures Bit(ClearBit(x, k), j) <==> j != k && Bit(x, j)
  {
    MaskOneHot(j);
    MaskOneHot(k);
    AndNotOneHot(x, Mask(j), Mask(k));
    MaskInjective(j, k);
  }

  /** A mask that vanished does nothing. */
  lemma NoBitToMove(x: bv8, k: nat)
    requires 8 <= k
    ensures SetBit(x, k) == x && ClearBit(x, k) == x
  {
    MaskVanishes(k);
  }

  /** A byte is its eight bits. */
  lemma ByteExtensionality(x: bv8, y: bv8)
    requires forall k: nat | k < 8 :: Bit(x, k) == Bit(y, k)
    ensures x == y
  {
    MaskValues();
    assert Bit(x, 0) == Bit(y, 0) && Bit(x, 1) == Bit(y, 1) && Bit(x, 2) == Bit(y, 2) && Bit(x, 3) == Bit(y, 3);
    assert Bit(x, 4) == Bit(y, 4) && Bit(x, 5) == Bit(y, 5) && Bit(x, 6) == Bit(y, 6) && Bit(x, 7) == Bit(y, 7);
  }

  lemma ZeroHasNoBits(k: nat)
    ensures !Bit(0, k)
  {
  }

  /** Go's `1 << k` on a byte, for any shift count. */
  method ShiftOne(k: nat) returns (mask: bv8)
    ensures mask == Mask(k)
    ensures 8 <= k ==> mask == 0
  {
    if k < 8 {
      mask := 1 << k;
      MaskIsShift(k);
    } else {
      mask := 0;
      MaskVanishes(k);
    }
  }

  /** Masks below bit 4, and masks that vanished, do not reach the upper half of a byte. */
  lemma UpperHalfUntouched(x: bv8, k: nat, j: nat)
    requires k < 4 || 8 <= k
    requires 4 <= j < 8
    ensures Bit(SetBit(x, k), j) == Bit(x, j) && Bit(ClearBit(x, k), j) == Bit(x, j)
  {
    if 8 <= k {
      NoBitToMove(x, k);
    } else {
      BitAfterSet(x, j, k);
      BitAfterClear(x, j, k);
    }
  }
}
