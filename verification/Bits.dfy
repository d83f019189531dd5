/** Single bits of packed bytes, least significant first. */
module Bits {
  function Mask(k: nat): bv8
    requires k < 8
  {
    [1, 2, 4, 8, 16, 32, 64, 128][k]
  }

  /** Bit k of a byte counts 2^k. */
  lemma MaskIs(k: nat)
    requires k < 8
    ensures Mask(k) == (1 as bv8) << k
  {
  }

  predicate Has(x: bv8, k: nat)
    requires k < 8
  {
    x & Mask(k) != 0
  }

  function With(x: bv8, k: nat): bv8
    requires k < 8
  {
    x | Mask(k)
  }

  function Without(x: bv8, k: nat): bv8
    requires k < 8
  {
    x & !Mask(k)
  }

  lemma WithHas(x: bv8, k: nat, j: nat)
    requires k < 8 && j < 8
    ensures Has(With(x, k), j) <==> j == k || Has(x, j)
  {
  }

  lemma WithoutHas(x: bv8, k: nat, j: nat)
    requires k < 8 && j < 8
    ensures Has(Without(x, k), j) <==> j != k && Has(x, j)
  {
  }

  predicate Bit(bytes: seq<bv8>, p: nat)
    requires p < 8 * |bytes|
  {
    Has(bytes[p / 8], p % 8)
  }

  function SetBit(bytes: seq<bv8>, p: nat): seq<bv8>
    requires p < 8 * |bytes|
  {
    bytes[p / 8 := With(bytes[p / 8], p % 8)]
  }

  function UnsetBit(bytes: seq<bv8>, p: nat): seq<bv8>
    requires p < 8 * |bytes|
  {
    bytes[p / 8 := Without(bytes[p / 8], p % 8)]
  }

  /** Two positions in one byte differ in their places there. */
  lemma SameByte(p: nat, q: nat)
    requires q / 8 == p / 8
    ensures q % 8 == p % 8 <==> q == p
  {
  }

  lemma SetBitAt(bytes: seq<bv8>, p: nat, q: nat)
    requires p < 8 * |bytes| && q < 8 * |bytes|
    ensures Bit(SetBit(bytes, p), q) <==> q == p || Bit(bytes, q)
  {
    hide Has, With;
    if q / 8 == p / 8 {
      SameByte(p, q);
      WithHas(bytes[p / 8], p % 8, q % 8);
    }
  }

  lemma UnsetBitAt(bytes: seq<bv8>, p: nat, q: nat)
    requires p < 8 * |bytes| && q < 8 * |bytes|
    ensures Bit(UnsetBit(bytes, p), q) <==> q != p && Bit(bytes, q)
  {
    hide Has, Without;
    if q / 8 == p / 8 {
      SameByte(p, q);
      WithoutHas(bytes[p / 8], p % 8, q % 8);
    }
  }
}
