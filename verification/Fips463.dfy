/** The Data Encryption Standard as FIPS 46-3 writes it down: permutations, selections and S-boxes of single bits. */
module Fips463 {
  type Bits = seq<bool>

  type Place64 = n: nat | 1 <= n <= 64 witness 1
  type Place56 = n: nat | 1 <= n <= 56 witness 1
  type Place32 = n: nat | 1 <= n <= 32 witness 1
  type Nibble = n: nat | n < 16

  const IP: seq<Place64> :=
    [58, 50, 42, 34, 26, 18, 10,  2] +
    [60, 52, 44, 36, 28, 20, 12,  4] +
    [62, 54, 46, 38, 30, 22, 14,  6] +
    [64, 56, 48, 40, 32, 24, 16,  8] +
    [57, 49, 41, 33, 25, 17,  9,  1] +
    [59, 51, 43, 35, 27, 19, 11,  3] +
    [61, 53, 45, 37, 29, 21, 13,  5] +
    [63, 55, 47, 39, 31, 23, 15,  7]

  const IP_INVERSE: seq<Place64> :=
    [40,  8, 48, 16, 56, 24, 64, 32] +
    [39,  7, 47, 15, 55, 23, 63, 31] +
    [38,  6, 46, 14, 54, 22, 62, 30] +
    [37,  5, 45, 13, 53, 21, 61, 29] +
    [36,  4, 44, 12, 52, 20, 60, 28] +
    [35,  3, 43, 11, 51, 19, 59, 27] +
    [34,  2, 42, 10, 50, 18, 58, 26] +
    [33,  1, 41,  9, 49, 17, 57, 25]

  const E: seq<Place32> :=
    [32,  1,  2,  3,  4,  5] +
    [ 4,  5,  6,  7,  8,  9] +
    [ 8,  9, 10, 11, 12, 13] +
    [12, 13, 14, 15, 16, 17] +
    [16, 17, 18, 19, 20, 21] +
    [20, 21, 22, 23, 24, 25] +
    [24, 25, 26, 27, 28, 29] +
    [28, 29, 30, 31, 32,  1]

  const P: seq<Place32> :=
    [16,  7, 20, 21] +
    [29, 12, 28, 17] +
    [ 1, 15, 23, 26] +
    [ 5, 18, 31, 10] +
    [ 2,  8, 24, 14] +
    [32, 27,  3,  9] +
    [19, 13, 30,  6] +
    [22, 11,  4, 25]

  const PC1: seq<Place64> :=
    [57, 49, 41, 33, 25, 17,  9] +
    [ 1, 58, 50, 42, 34, 26, 18] +
    [10,  2, 59, 51, 43, 35, 27] +
    [19, 11,  3, 60, 52, 44, 36] +
    [63, 55, 47, 39, 31, 23, 15] +
    [ 7, 62, 54, 46, 38, 30, 22] +
    [14,  6, 61, 53, 45, 37, 29] +
    [21, 13,  5, 28, 20, 12,  4]

  const PC2: seq<Place56> :=
    [14, 17, 11, 24,  1,  5] +
    [ 3, 28, 15,  6, 21, 10] +
    [23, 19, 12,  4, 26,  8] +
    [16,  7, 27, 20, 13,  2] +
    [41, 52, 31, 37, 47, 55] +
    [30, 40, 51, 45, 33, 48] +
    [44, 49, 39, 56, 34, 53] +
    [46, 42, 50, 36, 29, 32]

  const SHIFTS: seq<nat> := [1, 1, 2, 2, 2, 2, 2, 2, 1, 2, 2, 2, 2, 2, 2, 1]

  const S1: seq<Nibble> :=
    [14,  4, 13,  1,  2, 15, 11,  8,  3, 10,  6, 12,  5,  9,  0,  7] +
    [ 0, 15,  7,  4, 14,  2, 13,  1, 10,  6, 12, 11,  9,  5,  3,  8] +
    [ 4,  1, 14,  8, 13,  6,  2, 11, 15, 12,  9,  7,  3, 10,  5,  0] +
    [15, 12,  8,  2,  4,  9,  1,  7,  5, 11,  3, 14, 10,  0,  6, 13]

  const S2: seq<Nibble> :=
    [15,  1,  8, 14,  6, 11,  3,  4,  9,  7,  2, 13, 12,  0,  5, 10] +
    [ 3, 13,  4,  7, 15,  2,  8, 14, 12,  0,  1, 10,  6,  9, 11,  5] +
    [ 0, 14,  7, 11, 10,  4, 13,  1,  5,  8, 12,  6,  9,  3,  2, 15] +
    [13,  8, 10,  1,  3, 15,  4,  2, 11,  6,  7, 12,  0,  5, 14,  9]

  const S3: seq<Nibble> :=
    [10,  0,  9, 14,  6,  3, 15,  5,  1, 13, 12,  7, 11,  4,  2,  8] +
    [13,  7,  0,  9,  3,  4,  6, 10,  2,  8,  5, 14, 12, 11, 15,  1] +
    [13,  6,  4,  9,  8, 15,  3,  0, 11,  1,  2, 12,  5, 10, 14,  7] +
    [ 1, 10, 13,  0,  6,  9,  8,  7,  4, 15, 14,  3, 11,  5,  2, 12]

  const S4: seq<Nibble> :=
    [ 7, 13, 14,  3,  0,  6,  9, 10,  1,  2,  8,  5, 11, 12,  4, 15] +
    [13,  8, 11,  5,  6, 15,  0,  3,  4,  7,  2, 12,  1, 10, 14,  9] +
    [10,  6,  9,  0, 12, 11,  7, 13, 15,  1,  3, 14,  5,  2,  8,  4] +
    [ 3, 15,  0,  6, 10,  1, 13,  8,  9,  4,  5, 11, 12,  7,  2, 14]

  const S5: seq<Nibble> :=
    [ 2, 12,  4,  1,  7, 10, 11,  6,  8,  5,  3, 15, 13,  0, 14,  9] +
    [14, 11,  2, 12,  4,  7, 13,  1,  5,  0, 15, 10,  3,  9,  8,  6] +
    [ 4,  2,  1, 11, 10, 13,  7,  8, 15,  9, 12,  5,  6,  3,  0, 14] +
    [11,  8, 12,  7,  1, 14,  2, 13,  6, 15,  0,  9, 10,  4,  5,  3]

  const S6: seq<Nibble> :=
    [12,  1, 10, 15,  9,  2,  6,  8,  0, 13,  3,  4, 14,  7,  5, 11] +
    [10, 15,  4,  2,  7, 12,  9,  5,  6,  1, 13, 14,  0, 11,  3,  8] +
    [ 9, 14, 15,  5,  2,  8, 12,  3,  7,  0,  4, 10,  1, 13, 11,  6] +
    [ 4,  3,  2, 12,  9,  5, 15, 10, 11, 14,  1,  7,  6,  0,  8, 13]

  const S7: seq<Nibble> :=
    [ 4, 11,  2, 14, 15,  0,  8, 13,  3, 12,  9,  7,  5, 10,  6,  1] +
    [13,  0, 11,  7,  4,  9,  1, 10, 14,  3,  5, 12,  2, 15,  8,  6] +
    [ 1,  4, 11, 13, 12,  3,  7, 14, 10, 15,  6,  8,  0,  5,  9,  2] +
    [ 6, 11, 13,  8,  1,  4, 10,  7,  9,  5,  0, 15, 14,  2,  3, 12]

  const S8: seq<Nibble> :=
    [13,  2,  8,  4,  6, 15, 11,  1, 10,  9,  3, 14,  5,  0, 12,  7] +
    [ 1, 15, 13,  8, 10,  3,  7,  4, 12,  5,  6, 11,  0, 14,  9,  2] +
    [ 7, 11,  4,  1,  9, 12, 14,  2,  0,  6, 10, 13, 15,  3,  5,  8] +
    [ 2,  1, 14,  7,  4, 10,  8, 13, 15, 12,  9,  0,  3,  5,  6, 11]

  lemma Sizes()
    ensures |IP| == |IP_INVERSE| == 64 && |E| == |PC2| == 48 && |P| == 32 && |PC1| == 56 && |SHIFTS| == 16
  {
  }

  /** The bits of `b` at some places, of which the first is 1. */
  function Choose(b: Bits, places: seq<nat>): (r: Bits)
    requires forall i :: 0 <= i < |places| ==> 1 <= places[i] <= |b|
    ensures |r| == |places|
  {
    seq(|places|, i requires 0 <= i < |places| => b[places[i] - 1])
  }

  function XorBits(a: Bits, b: Bits): (r: Bits)
    requires |a| == |b|
    ensures |r| == |a|
  {
    seq(|a|, i requires 0 <= i < |a| => a[i] != b[i])
  }

  // ---------- The cipher function ----------

  /** The selection function S of box `j`, row by row. */
  function Box(j: nat): (s: seq<Nibble>)
    requires j < 8
    ensures |s| == 64
  {
    if j == 0 then S1 else if j == 1 then S2 else if j == 2 then S3 else if j == 3 then S4
    else if j == 4 then S5 else if j == 5 then S6 else if j == 6 then S7 else S8
  }

  function Digit(b: bool): (n: nat)
    ensures n < 2
  {
    if b then 1 else 0
  }

  /** Six bits select a row by the first and the last, and a column by those between. */
  function Entry(b: Bits): (n: nat)
    requires |b| == 6
    ensures n < 64
  {
    16 * (2 * Digit(b[0]) + Digit(b[5])) + 8 * Digit(b[1]) + 4 * Digit(b[2]) + 2 * Digit(b[3]) + Digit(b[4])
  }

  /** Bit `t` of four, the most significant one first. */
  predicate NibbleBit(n: Nibble, t: nat)
    requires t < 4
  {
    if t == 0 then n / 8 % 2 == 1 else if t == 1 then n / 4 % 2 == 1 else if t == 2 then n / 2 % 2 == 1 else n % 2 == 1
  }

  function Substitute(b: Bits): (r: Bits)
    requires |b| == 48
    ensures |r| == 32
  {
    seq(32, i requires 0 <= i < 32 => NibbleBit(Box(i / 4)[Entry(b[6 * (i / 4)..6 * (i / 4) + 6])], i % 4))
  }

  function F(r: Bits, k: Bits): (b: Bits)
    requires |r| == 32 && |k| == 48
    ensures |b| == 32
  {
    Sizes();
    Choose(Substitute(XorBits(Choose(r, E), k)), P)
  }

  // ---------- The key schedule ----------

  function LeftShift(h: Bits, n: nat): (r: Bits)
    requires n <= |h|
    ensures |r| == |h|
  {
    h[n..] + h[..n]
  }

  /** The blocks C and D after `n` shifts. */
  function Halves(key: Bits, n: nat): (cd: (Bits, Bits))
    requires |key| == 64 && n <= 16
    ensures |cd.0| == |cd.1| == 28
  {
    Sizes();
    if n == 0 then (Choose(key, PC1)[..28], Choose(key, PC1)[28..])
    else
      var cd := Halves(key, n - 1);
      Shifts(n - 1);
      (LeftShift(cd.0, SHIFTS[n - 1]), LeftShift(cd.1, SHIFTS[n - 1]))
  }

  lemma Shifts(n: nat)
    requires n < 16
    ensures |SHIFTS| == 16 && SHIFTS[n] <= 2
  {
  }

  /** The key of round `n`, of which the first is 1. */
  function RoundKey(key: Bits, n: nat): (k: Bits)
    requires |key| == 64 && 1 <= n <= 16
    ensures |k| == 48
  {
    Sizes();
    Choose(Halves(key, n).0 + Halves(key, n).1, PC2)
  }

  // ---------- Enciphering and deciphering ----------

  /** The key that round `n` uses. */
  function KeyOf(key: Bits, decipher: bool, n: nat): (k: Bits)
    requires |key| == 64 && 1 <= n <= 16
    ensures |k| == 48
  {
    if decipher then RoundKey(key, 17 - n) else RoundKey(key, n)
  }

  /** The halves after `n` rounds. */
  function Rounds(lr: (Bits, Bits), key: Bits, decipher: bool, n: nat): (r: (Bits, Bits))
    requires |lr.0| == |lr.1| == 32 && |key| == 64 && n <= 16
    ensures |r.0| == |r.1| == 32
  {
    if n == 0 then lr
    else
      var (l, r) := Rounds(lr, key, decipher, n - 1);
      (r, XorBits(l, F(r, KeyOf(key, decipher, n))))
  }

  function Cipher(key: Bits, decipher: bool, block: Bits): (r: Bits)
    requires |key| == |block| == 64
    ensures |r| == 64
  {
    Sizes();
    var b := Choose(block, IP);
    var (l, r) := Rounds((b[..32], b[32..]), key, decipher, 16);
    Choose(r + l, IP_INVERSE)
  }
}
