/**
 * Single bits of byte-wide device registers. Bits are named by number, and the operations have
 * names of their own, so that proofs about whole runs need not look at bit vectors.
 */
module Bits {

  /** `1 << i` cut to a byte. */
  function Bit(i: nat): bv8 {
    match i
    case 0 => 0x01
    case 1 => 0x02
    case 2 => 0x04
    case 3 => 0x08
    case 4 => 0x10
    case 5 => 0x20
    case 6 => 0x40
    case 7 => 0x80
    case _ => 0
  }

  lemma BitIsShift(i: nat)
    requires i < 8
    ensures Bit(i) == 1 << i
  {
  }

  lemma NoSuchBit(i: nat)
    requires i >= 8
    ensures Bit(i) == 0
  {
  }

  predicate Test(b: bv8, i: nat) {
    b & Bit(i) != 0
  }

  function With(b: bv8, i: nat): bv8 {
    b | Bit(i)
  }

  function Without(b: bv8, i: nat): bv8 {
    b & !Bit(i)
  }

  /** The number of the lowest set bit, which a priority resolver picks. 8 if there is none. */
  function Lowest(b: bv8): (i: nat)
    ensures i <= 8
    ensures i < 8 ==> Test(b, i)
    ensures forall j: nat :: j < i ==> !Test(b, j)
    ensures i == 8 <==> b == 0
  {
    if b & 0x01 != 0 then 0
    else if b & 0x02 != 0 then 1
    else if b & 0x04 != 0 then 2
    else if b & 0x08 != 0 then 3
    else if b & 0x10 != 0 then 4
    else if b & 0x20 != 0 then 5
    else if b & 0x40 != 0 then 6
    else if b & 0x80 != 0 then 7
    else 8
  }

  lemma TestWith(b: bv8, i: nat, j: nat)
    ensures Test(With(b, i), j) <==> (i == j && i < 8) || Test(b, j)
  {
  }

  lemma TestWithout(b: bv8, i: nat, j: nat)
    ensures Test(Without(b, i), j) <==> i != j && Test(b, j)
  {
  }

  lemma TestConstant(i: nat)
    ensures !Test(0, i) && (Test(0xff, i) <==> i < 8)
  {
  }

  /** A bit above all the others (of lower number) comes out first and can be taken off again. */
  lemma LowestWith(b: bv8, i: nat)
    requires i < Lowest(b)
    ensures Lowest(With(b, i)) == i && Without(With(b, i), i) == b
  {
  }

  lemma WithoutLowest(b: bv8)
    ensures Without(b, Lowest(b)) == b <==> b == 0
  {
  }
}
