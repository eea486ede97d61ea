/** Single bits of a byte, as read and set by masks of the form 1 << k. */
module Bits {

  type byte = bv8

  predicate TestBit(b: byte, k: nat)
    requires k < 8
  {
    b & (1 << k) != 0
  }

  function SetBit(b: byte, k: nat): byte
    requires k < 8
  {
    b | (1 << k)
  }

  /** Bit k is worth 2^k. */
  lemma BitValue(k: nat)
    requires k < 8
    ensures SetBit(0, k) == [1, 2, 4, 8, 16, 32, 64, 128][k] as byte
  {
    MaskValue(k);
    var mask: byte := 1 << k;
    assert 0 | mask == mask;
  }

  /** Setting bit k sets exactly that bit. */
  lemma SetBitTests(b: byte, k: nat, j: nat)
    requires k < 8 && j < 8
    ensures TestBit(SetBit(b, k), j) == (j == k || TestBit(b, j))
  {
    if j == k {
    } else {
      DistinctMasks(k, j);
      var mk: byte, mj: byte := 1 << k, 1 << j;
      assert (b | mk) & mj == (b & mj) | (mk & mj);
    }
  }

  lemma DistinctMasks(k: nat, j: nat)
    requires k < 8 && j < 8 && k != j
    ensures (1 as byte << k) & (1 as byte << j) == 0
  {
    MaskValue(k);
    MaskValue(j);
  }

  lemma MaskValue(k: nat)
    requires k < 8
    ensures (1 as byte << k) == [1, 2, 4, 8, 16, 32, 64, 128][k] as byte
    ensures (1 as byte << k) != 0
  {
    if k == 0 {} else if k == 1 {} else if k == 2 {} else if k == 3 {}
    else if k == 4 {} else if k == 5 {} else if k == 6 {} else {}
  }

  lemma ZeroHasNoBits(k: nat)
    requires k < 8
    ensures !TestBit(0, k)
  {
  }

  /** Two bytes with the same bits are the same byte. */
  lemma SameBits(a: byte, b: byte)
    requires forall k :: 0 <= k < 8 ==> TestBit(a, k) == TestBit(b, k)
    ensures a == b
  {
    assert TestBit(a, 0) == TestBit(b, 0) && TestBit(a, 1) == TestBit(b, 1);
    assert TestBit(a, 2) == TestBit(b, 2) && TestBit(a, 3) == TestBit(b, 3);
    assert TestBit(a, 4) == TestBit(b, 4) && TestBit(a, 5) == TestBit(b, 5);
    assert TestBit(a, 6) == TestBit(b, 6) && TestBit(a, 7) == TestBit(b, 7);
  }
}
