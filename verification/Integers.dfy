/** Integers of the machine: their limits, and words of 32 bits and their bytes, the most significant one first. */
module Integers {
  const TWO32: nat := 0x1_0000_0000

  /** The largest `int`. */
  const INT_MAX: nat := 0x7fff_ffff

  function Word(b0: bv8, b1: bv8, b2: bv8, b3: bv8): bv32 {
    ((b0 as bv32) << 24) | ((b1 as bv32) << 16) | ((b2 as bv32) << 8) | (b3 as bv32)
  }

  function Bytes(w: bv32): (s: seq<bv8>)
    ensures |s| == 4
  {
    [(w >> 24) as bv8, ((w >> 16) & 0xff) as bv8, ((w >> 8) & 0xff) as bv8, (w & 0xff) as bv8]
  }

  lemma BytesWord(b0: bv8, b1: bv8, b2: bv8, b3: bv8)
    ensures Bytes(Word(b0, b1, b2, b3)) == [b0, b1, b2, b3]
  {
  }

  lemma WordBytes(w: bv32)
    ensures Word(Bytes(w)[0], Bytes(w)[1], Bytes(w)[2], Bytes(w)[3]) == w
  {
  }
}
