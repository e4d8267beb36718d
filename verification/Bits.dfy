/**
 Bits of a 32-bit word, as the bitmap tests, sets and clears them.
 */
module Bits {

  const ONES: bv32 := 0xFFFF_FFFF

  function Mask(i: nat): bv32
    requires i < 32
  {
    (1 as bv32) << i
  }

  predicate Bit(w: bv32, i: nat)
    requires i < 32
  {
    Mask(i) & w != 0
  }

  function WithBit(w: bv32, i: nat): bv32
    requires i < 32
  {
    w | Mask(i)
  }

  function WithoutBit(w: bv32, i: nat): bv32
    requires i < 32
  {
    w & (Mask(i) ^ ONES)
  }

  /** Bit 0 is the lowest, and each next one twice as high. */
  lemma MaskValues(i: nat)
    requires i < 32
    ensures Mask(0) == 1
    ensures i < 31 ==> Mask(i + 1) == Mask(i) << 1
  {
    if i < 31 {
      IndexAsShift(i);
      IndexAsShift(i + 1);
      ShiftOnce(i as bv6);
      assert (i + 1) as bv6 == i as bv6 + 1;
    }
  }

  lemma ShiftOnce(i: bv6)
    requires i < 31
    ensures (1 as bv32) << (i + 1) == ((1 as bv32) << i) << 1
  {
  }

  lemma ShiftsApart(a: bv6, b: bv6)
    requires a < 32 && b < 32
    ensures a != b ==> (1 as bv32 << a) & (1 as bv32 << b) == 0
    ensures 1 as bv32 << a != 0
  {
  }

  lemma IndexAsShift(i: nat)
    requires i < 32
    ensures (i as bv6) as nat == i && (i as bv6) < 32
  {
  }

  lemma MasksApart(i: nat, j: nat)
    requires i < 32 && j < 32
    ensures i != j ==> Mask(i) & Mask(j) == 0
    ensures Mask(i) != 0
  {
    IndexAsShift(i);
    IndexAsShift(j);
    ShiftsApart(i as bv6, j as bv6);
  }

  lemma OrOther(w: bv32, a: bv32, b: bv32)
    requires a & b == 0
    ensures b & (w | a) != 0 <==> b & w != 0
  {
  }

  lemma AndOther(w: bv32, a: bv32, b: bv32)
    requires a & b == 0
    ensures b & (w & (a ^ ONES)) != 0 <==> b & w != 0
  {
  }

  lemma OrSelf(w: bv32, a: bv32)
    requires a != 0
    ensures a & (w | a) != 0
  {
  }

  lemma AndSelf(w: bv32, a: bv32)
    ensures a & (w & (a ^ ONES)) == 0
  {
  }

  lemma SetOther(w: bv32, i: nat, j: nat)
    requires i < 32 && j < 32 && i != j
    ensures Bit(WithBit(w, i), j) <==> Bit(w, j)
  {
    MasksApart(i, j);
    OrOther(w, Mask(i), Mask(j));
  }

  lemma SetSelf(w: bv32, i: nat)
    requires i < 32
    ensures Bit(WithBit(w, i), i)
  {
    MasksApart(i, i);
    OrSelf(w, Mask(i));
  }

  lemma ClearOther(w: bv32, i: nat, j: nat)
    requires i < 32 && j < 32 && i != j
    ensures Bit(WithoutBit(w, i), j) <==> Bit(w, j)
  {
    MasksApart(i, j);
    AndOther(w, Mask(i), Mask(j));
  }

  lemma ClearSelf(w: bv32, i: nat)
    requires i < 32
    ensures !Bit(WithoutBit(w, i), i)
  {
    AndSelf(w, Mask(i));
  }

  /** Setting bit i changes bit i only. */
  lemma SetBit(w: bv32, i: nat, j: nat)
    requires i < 32 && j < 32
    ensures Bit(WithBit(w, i), j) <==> Bit(w, j) || i == j
  {
    hide Bit, WithBit, WithoutBit;
    if i == j { SetSelf(w, i); } else { SetOther(w, i, j); }
  }

  /** Clearing bit i changes bit i only. */
  lemma ClearBit(w: bv32, i: nat, j: nat)
    requires i < 32 && j < 32
    ensures Bit(WithoutBit(w, i), j) <==> Bit(w, j) && i != j
  {
    hide Bit, WithBit, WithoutBit;
    if i == j { ClearSelf(w, i); } else { ClearOther(w, i, j); }
  }

  lemma Constants(i: nat)
    requires i < 32
    ensures Bit(ONES, i) && !Bit(0, i)
  {
    MasksApart(i, i);
  }
}
