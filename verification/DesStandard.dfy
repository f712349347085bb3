/** The implementation of DES is the standard. */
module DesStandard {
  import opened Integers
  import opened DesTables
  import opened D3Des
  import opened DesBits
  import opened DesBoxes
  import Fips = Fips463

  // ---------- The key schedule ----------

  /** The key as the standard numbers its bits: `bytebit` takes the least significant bit of each byte for the first. */
  function MirrorBits(key: Block): (b: Fips.Bits)
    ensures |b| == 64
  {
    Sizes();
    seq(64, i requires 0 <= i < 64 => key[i / 8] & BYTEBIT[i % 8] != 0)
  }

  lemma Pc1Same(r: nat, c: nat)
    requires r < 8 && c < 7
    ensures |PC1| == |Fips.PC1| == 56 && PC1[7 * r + c] as int + 1 == Fips.PC1[7 * r + c] as int
  {
    assert c == 0 || c == 1 || c == 2 || c == 3 || c == 4 || c == 5 || c == 6;
    assert r == 0 || r == 1 || r == 2 || r == 3 || r == 4 || r == 5 || r == 6 || r == 7;
  }

  lemma Pc2Same(r: nat, c: nat)
    requires r < 8 && c < 6
    ensures |PC2| == |Fips.PC2| == 48 && PC2[6 * r + c] as int + 1 == Fips.PC2[6 * r + c] as int
  {
    assert c == 0 || c == 1 || c == 2 || c == 3 || c == 4 || c == 5;
    assert r == 0 || r == 1 || r == 2 || r == 3 || r == 4 || r == 5 || r == 6 || r == 7;
  }

  lemma PermutedAt(key: Block, j: nat)
    requires j < 56
    ensures |Fips.PC1| == 56 && Permuted(key)[j] == MirrorBits(key)[Fips.PC1[j] as int - 1]
  {
    hide PC1, Fips.PC1;
    Sizes();
    Pc1Same(j / 7, j % 7);
  }

  lemma PermutedIs(key: Block)
    ensures |Fips.PC1| == 56 && Permuted(key) == Fips.Choose(MirrorBits(key), Fips.PC1)
  {
    hide Permuted, MirrorBits, PC1, Fips.PC1;
    TableSizes();
    forall j: nat | j < 56
      ensures Permuted(key)[j] == MirrorBits(key)[Fips.PC1[j] as int - 1]
    {
      PermutedAt(key, j);
    }
  }

  /** The sum of the first shifts. */
  function Total(n: nat): nat
    requires n <= 16
  {
    Sizes();
    if n == 0 then 0 else TOTROT[n - 1]
  }

  lemma TotalNext(n: nat)
    requires n < 16
    ensures |Fips.SHIFTS| == 16 && Total(n + 1) == Total(n) + Fips.SHIFTS[n] <= 28
  {
    assert || n == 0 || n == 1 || n == 2 || n == 3 || n == 4 || n == 5 || n == 6 || n == 7 || n == 8 || n == 9
           || n == 10 || n == 11 || n == 12 || n == 13 || n == 14 || n == 15;
  }

  lemma ShiftTwice(h: Fips.Bits, m: nat, n: nat)
    requires m + n <= |h|
    ensures Fips.LeftShift(Fips.LeftShift(h, m), n) == Fips.LeftShift(h, m + n)
  {
  }

  lemma {:induction false} HalvesAre(key: Block, n: nat)
    requires n <= 16
    ensures Total(n) <= 28
    ensures var (c, cd) := (Permuted(key), Fips.Halves(MirrorBits(key), n));
            cd.0 == Fips.LeftShift(c[..28], Total(n)) && cd.1 == Fips.LeftShift(c[28..], Total(n))
  {
    hide Permuted, MirrorBits, Fips.LeftShift, Total;
    if n == 0 {
      PermutedIs(key);
      NoShifts(Permuted(key)[..28], Permuted(key)[28..]);
    } else {
      HalvesAre(key, n - 1);
      TotalNext(n - 1);
      ShiftTwice(Permuted(key)[..28], Total(n - 1), Fips.SHIFTS[n - 1]);
      ShiftTwice(Permuted(key)[28..], Total(n - 1), Fips.SHIFTS[n - 1]);
    }
  }

  lemma NoShifts(c: Fips.Bits, d: Fips.Bits)
    ensures Total(0) == 0 && Fips.LeftShift(c, 0) == c && Fips.LeftShift(d, 0) == d
  {
  }

  lemma RotatedIs(c: seq<bool>, r: Rotation)
    requires |c| == 56
    ensures Rotated(c, r) == Fips.LeftShift(c[..28], r) + Fips.LeftShift(c[28..], r)
  {
  }

  lemma KInjective(i: nat, j: nat)
    requires i < 32 && j < 32 && K(i) == K(j)
    ensures i == j
  {
    KNumber(i);
    KNumber(j);
  }

  lemma KNumber(i: nat)
    requires i < 32
    ensures K(i) as int == 31 - i
  {
    Ks();
    hide K;
    assert || i == 0 || i == 1 || i == 2 || i == 3 || i == 4 || i == 5 || i == 6 || i == 7 || i == 8 || i == 9
           || i == 10 || i == 11 || i == 12 || i == 13 || i == 14 || i == 15 || i == 16 || i == 17 || i == 18 || i == 19
           || i == 20 || i == 21 || i == 22 || i == 23 || i == 24 || i == 25 || i == 26 || i == 27 || i == 28 || i == 29
           || i == 30 || i == 31;
  }

  lemma {:induction false} BigByteBit(j: nat, k: bv5)
    requires j < 24
    ensures Bit(BigByte(j), k) == (k == K(j + 8))
  {
    BigBytes();
    Ks();
    hide BigByte, K;
    assert || j == 0 || j == 1 || j == 2 || j == 3 || j == 4 || j == 5 || j == 6 || j == 7 || j == 8 || j == 9
           || j == 10 || j == 11 || j == 12 || j == 13 || j == 14 || j == 15 || j == 16 || j == 17 || j == 18 || j == 19
           || j == 20 || j == 21 || j == 22 || j == 23;
  }

  lemma BigBytes()
    ensures BigByte(0) == 0x800000 && BigByte(1) == 0x400000 && BigByte(2) == 0x200000 && BigByte(3) == 0x100000
    ensures BigByte(4) == 0x080000 && BigByte(5) == 0x040000 && BigByte(6) == 0x020000 && BigByte(7) == 0x010000
    ensures BigByte(8) == 0x008000 && BigByte(9) == 0x004000 && BigByte(10) == 0x002000 && BigByte(11) == 0x001000
    ensures BigByte(12) == 0x000800 && BigByte(13) == 0x000400 && BigByte(14) == 0x000200 && BigByte(15) == 0x000100
    ensures BigByte(16) == 0x000080 && BigByte(17) == 0x000040 && BigByte(18) == 0x000020 && BigByte(19) == 0x000010
    ensures BigByte(20) == 0x000008 && BigByte(21) == 0x000004 && BigByte(22) == 0x000002 && BigByte(23) == 0x000001
  {
    assert BigByte(8) == 0x008000;
    assert BigByte(16) == 0x000080;
  }

  /** The bits of half a round key. */
  lemma {:induction false} SelectBit(c: seq<bool>, off: nat, n: nat, j: nat)
    requires |c| == 56 && off + 24 <= 48 && n <= 24 && j < 24
    ensures |PC2| == 48 && Bit(Select(c, off, n), K(j + 8)) == (j < n && c[PC2[off + j]])
  {
    hide Bit, K, SetBit, BigByte;
    Sizes();
    if n == 0 {
      NoBits(K(j + 8));
    } else {
      SelectBit(c, off, n - 1, j);
      SetBitBit(Select(c, off, n - 1), n - 1, j);
    }
  }

  lemma NoBits(k: bv5)
    ensures !Bit(0, k)
  {
  }

  lemma SetBitBit(w: bv32, i: nat, j: nat)
    requires i < 24 && j < 24
    ensures Bit(SetBit(w, i), K(j + 8)) == (Bit(w, K(j + 8)) || i == j)
  {
    hide Bit, K, Or, BigByte;
    OnOr(w, BigByte(i), K(j + 8));
    BigByteBit(i, K(j + 8));
    if K(j + 8) == K(i + 8) {
      KInjective(j + 8, i + 8);
    }
  }

  /** `cookey` moves fields of six bits. */
  lemma Cooked(raw0: bv32, raw1: bv32)
    ensures var (k0, k1) := Cook(raw0, raw1);
            && Field(k0, 24) == Field(raw0, 18) && Field(k1, 24) == Field(raw0, 12)
            && Field(k0, 16) == Field(raw0, 6) && Field(k1, 16) == Field(raw0, 0)
            && Field(k0, 8) == Field(raw1, 18) && Field(k1, 8) == Field(raw1, 12)
            && Field(k0, 0) == Field(raw1, 6) && Field(k1, 0) == Field(raw1, 0)
  {
  }

  lemma CookedBit(raw0: bv32, raw1: bv32, g: nat, t: nat)
    requires g < 8 && t < 6
    ensures var (k0, k1) := Cook(raw0, raw1);
            SixBit(Group(k0, k1, g), t) == if g < 4 then Bit(raw0, K(6 * g + t + 8)) else Bit(raw1, K(6 * (g - 4) + t + 8))
  {
    hide SixBit, Field, Bit, Cook, K, Behind;
    Cooked(raw0, raw1);
    var r := if g < 4 then g else g - 4;
    var n: bv5 := if r == 0 then 18 else if r == 1 then 12 else if r == 2 then 6 else 0;
    assert g == 0 || g == 1 || g == 2 || g == 3 || g == 4 || g == 5 || g == 6 || g == 7;
    FieldBit(if g < 4 then raw0 else raw1, n, t);
    FieldPlace(r, t, n);
  }

  lemma FieldPlace(r: nat, t: nat, n: bv5)
    requires r < 4 && t < 6 && n == if r == 0 then 18 else if r == 1 then 12 else if r == 2 then 6 else 0
    ensures K(6 * r + t + 8) == n + 5 - Behind(t)
  {
    Ks();
    hide K;
    assert r == 0 || r == 1 || r == 2 || r == 3;
    assert t == 0 || t == 1 || t == 2 || t == 3 || t == 4 || t == 5;
  }

  /** The words that `cookey` makes of a round key hold the key of the standard. */
  lemma RoundKeyIs(key: Block, i: nat)
    requires i < 16
    ensures HoldsKey(RoundKey(key, i).0, RoundKey(key, i).1, Fips.RoundKey(MirrorBits(key), i + 1))
  {
    hide Permuted, MirrorBits, Rotated, Fips.LeftShift, Fips.Halves, Select, Cook, Group, SixBit, Bit, K;
    Sizes();
    TableSizes();
    var c := Rotated(Permuted(key), TOTROT[i]);
    HalvesAre(key, i + 1);
    RotatedIs(Permuted(key), TOTROT[i]);
    var (raw0, raw1) := RawKey(key, i);
    var (k0, k1) := Cook(raw0, raw1);
    var bits := Fips.RoundKey(MirrorBits(key), i + 1);
    forall g: nat | g < 8
      ensures bits[6 * g..6 * g + 6] == Six(Group(k0, k1, g))
    {
      forall t: nat | t < 6
        ensures bits[6 * g + t] == SixBit(Group(k0, k1, g), t)
      {
        Pc2Same(g, t);
        CookedBit(raw0, raw1, g, t);
        if g < 4 {
          SelectBit(c, 0, 24, 6 * g + t);
        } else {
          SelectBit(c, 24, 24, 6 * (g - 4) + t);
        }
      }
    }
  }

  // ---------- Rounds and blocks ----------

  lemma KeyIs(key: Block, edf: Mode, n: nat)
    requires 1 <= n <= 16
    ensures HoldsKey(Schedule(key, edf)[2 * n - 2], Schedule(key, edf)[2 * n - 1], Fips.KeyOf(MirrorBits(key), edf == DE1, n))
  {
    hide RoundKey, Fips.RoundKey, MirrorBits, HoldsKey;
    RoundKeyIs(key, Place(edf, n - 1));
  }

  /** One of the two rounds of a turn: `other` is the half that changes. */
  lemma RoundIs(half: bv32, other: bv32, k0: bv32, k1: bv32, key: Fips.Bits)
    requires HoldsKey(k0, k1, key)
    ensures WordBits(Ror(Mix(other, F(half, k0, k1)))) == Fips.XorBits(WordBits(Ror(other)), Fips.F(WordBits(Ror(half)), key))
  {
    hide F, Ror, Rol, Mix, WordBits, HoldsKey, Fips.F;
    RolRor(half);
    FIsStandard(Ror(half), k0, k1, key);
    RorMix(other, F(half, k0, k1));
    MixBits(Ror(other), Ror(F(half, k0, k1)));
  }

  /** The halves of the standard. */
  function HalfPair(half: (bv32, bv32)): (lr: (Fips.Bits, Fips.Bits))
    ensures |lr.0| == |lr.1| == 32
  {
    (WordBits(Ror(half.0)), WordBits(Ror(half.1)))
  }

  /** A turn is two rounds of the standard. */
  lemma {:induction false} RoundsAre(key: Block, edf: Mode, half: (bv32, bv32), n: nat)
    requires n <= 8
    ensures HalfPair(Rounds(F, half, Schedule(key, edf), n)) == Fips.Rounds(HalfPair(half), MirrorBits(key), edf == DE1, 2 * n)
  {
    hide F, Ror, WordBits, HoldsKey, Schedule, MirrorBits, Fips.F, Fips.KeyOf, Fips.XorBits, Mix;
    if n > 0 {
      var kn := Schedule(key, edf);
      RoundsAre(key, edf, half, n - 1);
      KeyIs(key, edf, 2 * n - 1);
      KeyIs(key, edf, 2 * n);
      var (l, r) := Rounds(F, half, kn, n - 1);
      RoundIs(r, l, kn[4 * n - 4], kn[4 * n - 3], Fips.KeyOf(MirrorBits(key), edf == DE1, 2 * n - 1));
      var l' := Mix(l, F(r, kn[4 * n - 4], kn[4 * n - 3]));
      RoundIs(l', r, kn[4 * n - 2], kn[4 * n - 1], Fips.KeyOf(MirrorBits(key), edf == DE1, 2 * n));
      TwoRounds(HalfPair(half), MirrorBits(key), edf == DE1, 2 * n);
    }
  }

  lemma TwoRounds(lr: (Fips.Bits, Fips.Bits), key: Fips.Bits, decipher: bool, n: nat)
    requires |lr.0| == |lr.1| == 32 && |key| == 64 && 2 <= n <= 16
    ensures var (l, r) := Fips.Rounds(lr, key, decipher, n - 2);
            var r1 := Fips.XorBits(l, Fips.F(r, Fips.KeyOf(key, decipher, n - 1)));
            Fips.Rounds(lr, key, decipher, n) == (r1, Fips.XorBits(r, Fips.F(r1, Fips.KeyOf(key, decipher, n))))
  {
    hide Fips.F, Fips.XorBits, Fips.KeyOf;
    assert Fips.Rounds(lr, key, decipher, n - 1).0 == Fips.Rounds(lr, key, decipher, n - 2).1;
  }

  lemma CipherIs(key: Block, edf: Mode, a: bv32, b: bv32)
    ensures var (x, y) := Cipher(F, Schedule(key, edf), a, b);
            PairBits(x, y) == Fips.Cipher(MirrorBits(key), edf == DE1, PairBits(a, b))
  {
    hide F, Ror, WordBits, PairBits, Schedule, MirrorBits, Initial, Final, Rounds, Fips.Rounds;
    TableSizes();
    var half := Initial(a, b);
    var (l, r) := Rounds(F, half, Schedule(key, edf), 8);
    InitialBits(a, b);
    RoundsAre(key, edf, half, 8);
    FinalBits(l, r);
    var bits := Fips.Choose(PairBits(a, b), Fips.IP);
    assert bits[..32] == WordBits(Ror(half.0)) && bits[32..] == WordBits(Ror(half.1));
  }

  /** Bit `t` of a byte, the most significant one first. */
  predicate ByteBit(b: bv8, t: nat) {
    if t == 0 then b & 0x80 != 0 else if t == 1 then b & 0x40 != 0 else if t == 2 then b & 0x20 != 0 else if t == 3 then b & 0x10 != 0
    else if t == 4 then b & 0x08 != 0 else if t == 5 then b & 0x04 != 0 else if t == 6 then b & 0x02 != 0 else b & 0x01 != 0
  }

  function BlockBits(block: Block): (b: Fips.Bits)
    ensures |b| == 64
  {
    seq(64, i requires 0 <= i < 64 => ByteBit(block[i / 8], i % 8))
  }

  lemma WordByte0(b0: bv8, b1: bv8, b2: bv8, b3: bv8)
    ensures Bit(Word(b0, b1, b2, b3), 31) == ByteBit(b0, 0) && Bit(Word(b0, b1, b2, b3), 30) == ByteBit(b0, 1)
    ensures Bit(Word(b0, b1, b2, b3), 29) == ByteBit(b0, 2) && Bit(Word(b0, b1, b2, b3), 28) == ByteBit(b0, 3)
    ensures Bit(Word(b0, b1, b2, b3), 27) == ByteBit(b0, 4) && Bit(Word(b0, b1, b2, b3), 26) == ByteBit(b0, 5)
    ensures Bit(Word(b0, b1, b2, b3), 25) == ByteBit(b0, 6) && Bit(Word(b0, b1, b2, b3), 24) == ByteBit(b0, 7)
  {
  }

  lemma WordByte1(b0: bv8, b1: bv8, b2: bv8, b3: bv8)
    ensures Bit(Word(b0, b1, b2, b3), 23) == ByteBit(b1, 0) && Bit(Word(b0, b1, b2, b3), 22) == ByteBit(b1, 1)
    ensures Bit(Word(b0, b1, b2, b3), 21) == ByteBit(b1, 2) && Bit(Word(b0, b1, b2, b3), 20) == ByteBit(b1, 3)
    ensures Bit(Word(b0, b1, b2, b3), 19) == ByteBit(b1, 4) && Bit(Word(b0, b1, b2, b3), 18) == ByteBit(b1, 5)
    ensures Bit(Word(b0, b1, b2, b3), 17) == ByteBit(b1, 6) && Bit(Word(b0, b1, b2, b3), 16) == ByteBit(b1, 7)
  {
  }

  lemma WordByte2(b0: bv8, b1: bv8, b2: bv8, b3: bv8)
    ensures Bit(Word(b0, b1, b2, b3), 15) == ByteBit(b2, 0) && Bit(Word(b0, b1, b2, b3), 14) == ByteBit(b2, 1)
    ensures Bit(Word(b0, b1, b2, b3), 13) == ByteBit(b2, 2) && Bit(Word(b0, b1, b2, b3), 12) == ByteBit(b2, 3)
    ensures Bit(Word(b0, b1, b2, b3), 11) == ByteBit(b2, 4) && Bit(Word(b0, b1, b2, b3), 10) == ByteBit(b2, 5)
    ensures Bit(Word(b0, b1, b2, b3), 9) == ByteBit(b2, 6) && Bit(Word(b0, b1, b2, b3), 8) == ByteBit(b2, 7)
  {
  }

  lemma WordByte3(b0: bv8, b1: bv8, b2: bv8, b3: bv8)
    ensures Bit(Word(b0, b1, b2, b3), 7) == ByteBit(b3, 0) && Bit(Word(b0, b1, b2, b3), 6) == ByteBit(b3, 1)
    ensures Bit(Word(b0, b1, b2, b3), 5) == ByteBit(b3, 2) && Bit(Word(b0, b1, b2, b3), 4) == ByteBit(b3, 3)
    ensures Bit(Word(b0, b1, b2, b3), 3) == ByteBit(b3, 4) && Bit(Word(b0, b1, b2, b3), 2) == ByteBit(b3, 5)
    ensures Bit(Word(b0, b1, b2, b3), 1) == ByteBit(b3, 6) && Bit(Word(b0, b1, b2, b3), 0) == ByteBit(b3, 7)
  {
  }

  lemma WordBit(b0: bv8, b1: bv8, b2: bv8, b3: bv8, j: nat, t: nat)
    requires j < 4 && t < 8
    ensures Bit(Word(b0, b1, b2, b3), K(8 * j + t)) == ByteBit(if j == 0 then b0 else if j == 1 then b1 else if j == 2 then b2 else b3, t)
  {
    Ks();
    hide Bit, Word, ByteBit, K;
    assert t == 0 || t == 1 || t == 2 || t == 3 || t == 4 || t == 5 || t == 6 || t == 7;
    if j == 0 {
      WordByte0(b0, b1, b2, b3);
    } else if j == 1 {
      WordByte1(b0, b1, b2, b3);
    } else if j == 2 {
      WordByte2(b0, b1, b2, b3);
    } else {
      WordByte3(b0, b1, b2, b3);
    }
  }

  /** The two words of a block hold its bits. */
  lemma BlockIs(block: Block)
    ensures BlockBits(block)
         == PairBits(Word(block[0], block[1], block[2], block[3]), Word(block[4], block[5], block[6], block[7]))
  {
    hide Bit, Word, ByteBit, K, PairBit, Q;
    var (x, y) := (Word(block[0], block[1], block[2], block[3]), Word(block[4], block[5], block[6], block[7]));
    PairIs(x, y);
    forall i: nat | i < 64
      ensures BlockBits(block)[i] == (WordBits(x) + WordBits(y))[i]
    {
      if i < 32 {
        WordBit(block[0], block[1], block[2], block[3], i / 8, i % 8);
      } else {
        WordBit(block[4], block[5], block[6], block[7], i / 8 - 4, i % 8);
      }
    }
  }

  /** Enciphering and deciphering are those of the standard, bit for bit, under the key with the bits of each byte in opposite order. */
  lemma DesIsStandard(key: Block, edf: Mode, block: Block)
    ensures BlockBits(Des(Schedule(key, edf), block)) == Fips.Cipher(MirrorBits(key), edf == DE1, BlockBits(block))
  {
    hide BlockBits, PairBits, MirrorBits, Schedule, Cipher, Word, Bytes, Fips.Cipher;
    var (a, b) := (Word(block[0], block[1], block[2], block[3]), Word(block[4], block[5], block[6], block[7]));
    var (x, y) := Cipher(F, Schedule(key, edf), a, b);
    BlockIs(block);
    CipherIs(key, edf, a, b);
    WordsOf(x, y);
    BlockIs(Bytes(x) + Bytes(y));
  }

  /** The key of the standard has the bits of each byte in opposite order. */
  lemma MirrorIs(key: Block, j: nat, t: nat)
    requires j < 8 && t < 8
    ensures MirrorBits(key)[8 * j + t] == BlockBits(key)[8 * j + (7 - t)]
  {
    Sizes();
    assert (8 * j + t) / 8 == j && (8 * j + t) % 8 == t;
    assert (8 * j + (7 - t)) / 8 == j && (8 * j + (7 - t)) % 8 == 7 - t;
    assert t == 0 || t == 1 || t == 2 || t == 3 || t == 4 || t == 5 || t == 6 || t == 7;
  }
}
