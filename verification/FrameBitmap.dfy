/** Bits of the bytes the frame bitmap is made of. */
module FrameBitmap {

  /** `1 << k` for the eight bits of a byte. */
  function Mask(k: nat): bv8
    requires k < 8
  {
    (1 as bv8) << k
  }

  predicate OneBit(m: bv8) {
    m == 1 || m == 2 || m == 4 || m == 8 || m == 16 || m == 32 || m == 64 || m == 128
  }

  lemma MaskIs(k: nat)
    requires k < 8
    ensures Mask(k) == if k == 0 then 1 else if k == 1 then 2 else if k == 2 then 4 else if k == 3 then 8
                       else if k == 4 then 16 else if k == 5 then 32 else if k == 6 then 64 else 128
  {
  }

  lemma MasksDiffer(k: nat, j: nat)
    requires k < 8 && j < 8
    ensures OneBit(Mask(k)) && OneBit(Mask(j)) && (Mask(k) == Mask(j) <==> k == j)
  {
    MaskIs(k);
    MaskIs(j);
  }

  predicate Meets(b: bv8, m: bv8) {
    b & m != 0
  }

  lemma MaskedBits(b: bv8, m: bv8, n: bv8)
    requires OneBit(m) && OneBit(n)
    ensures Meets(b | m, n) <==> m == n || Meets(b, n)
    ensures Meets(b & !m, n) <==> m != n && Meets(b, n)
  {
  }

  predicate BitSet(b: bv8, k: nat)
    requires k < 8
  {
    Meets(b, Mask(k))
  }

  /** Setting or clearing one bit leaves the other bits alone. */
  lemma BitChanged(b: bv8, k: nat, j: nat)
    requires k < 8 && j < 8
    ensures BitSet(b | Mask(k), j) <==> j == k || BitSet(b, j)
    ensures BitSet(b & !Mask(k), j) <==> j != k && BitSet(b, j)
  {
    hide Mask, OneBit, Meets;
    MasksDiffer(k, j);
    MaskedBits(b, Mask(k), Mask(j));
  }

  /** Every bit of 0xFF is set. */
  lemma AllSet(k: nat)
    requires k < 8
    ensures BitSet(0xFF, k)
  {
    MaskIs(k);
  }
}
