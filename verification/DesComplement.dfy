/** The complementation property of DES, and the key bits that do not matter. */
module DesComplement {
  import opened DesTables
  import opened D3Des
  import opened Integers

  /** Every bit of a block, a word, a pair of words inverted. */
  function Not(b: Block): Block {
    seq(8, i requires 0 <= i < 8 => b[i] ^ 0xff)
  }

  function NotHalves(half: (bv32, bv32)): (bv32, bv32) {
    (NotWord(half.0), NotWord(half.1))
  }

  // ---------- The key schedule ----------

  lemma BitInverted(x: bv8, m: nat)
    requires m < 7
    ensures (x ^ 0xff) & BYTEBIT[m] != 0 <==> x & BYTEBIT[m] == 0
  {
    if m == 0 {
    } else if m == 1 {
    } else if m == 2 {
    } else if m == 3 {
    } else if m == 4 {
    } else if m == 5 {
    } else {
    }
  }

  lemma PermutedInverted(key: Block)
    ensures forall j | 0 <= j < 56 :: Permuted(Not(key))[j] == !Permuted(key)[j]
  {
    Sizes();
    forall j | 0 <= j < 56 ensures Permuted(Not(key))[j] == !Permuted(key)[j] {
      BitInverted(key[PC1[j] / 8], PC1[j] % 8);
    }
  }

  /** The first `n` bits that `bigbyte` names. */
  function Ones(n: nat): bv32 {
    if n == 0 then 0 else SetBit(Ones(n - 1), n - 1)
  }

  lemma AllOnes()
    ensures Ones(24) == 0xffffff
  {
    assert Ones(6) == 0xfc0000;
    assert Ones(12) == 0xfff000;
    assert Ones(18) == 0xffffc0;
  }

  /** The bits that `bigbyte` has yet to name after the first `n`. */
  function Rest(n: nat): bv32 {
    if n == 0 then 0xffffff else Rest(n - 1) >> 1
  }

  /** `rest` is a run of low bits, of which `bit` is the highest, and `ones` has none of them. */
  predicate Ahead(ones: bv32, rest: bv32, bit: bv32) {
    rest & (rest + 1) == 0 && bit == rest ^ (rest >> 1) && ones & rest == 0
  }

  lemma {:induction false} BitsAhead(n: nat)
    ensures Ahead(Ones(n), Rest(n), BigByte(n))
  {
    hide Ahead, SetBit;
    if n == 0 {
      NoneNamed();
    } else {
      BitsAhead(n - 1);
      OneMoreNamed(Ones(n - 1), Rest(n - 1), n - 1);
    }
  }

  lemma NoneNamed()
    ensures Ahead(0, 0xffffff, 0x800000)
  {
  }

  lemma OneMoreNamed(ones: bv32, rest: bv32, j: nat)
    requires Ahead(ones, rest, BigByte(j))
    ensures Ahead(SetBit(ones, j), rest >> 1, BigByte(j) >> 1)
  {
  }

  lemma AheadApart(ones: bv32, rest: bv32, bit: bv32)
    requires Ahead(ones, rest, bit)
    ensures Apart(ones, bit)
  {
    assert rest & (rest >> 1) == rest >> 1;
  }

  /** The bits of `w` and those of `v` make up `ones`, without overlap: each is the other inverted. */
  predicate Inverts(w: bv32, v: bv32, ones: bv32) {
    Apart(w, v) && Or(w, v) == ones
  }

  lemma {:induction false} SelectInverted(c: seq<bool>, d: seq<bool>, off: nat, n: nat)
    requires |c| == |d| == 56 && off + n <= 48 && n <= 24
    requires forall j | 0 <= j < 56 :: d[j] == !c[j]
    ensures Inverts(Select(c, off, n), Select(d, off, n), Ones(n))
  {
    hide SetBit, Inverts, BigByte, Apart, Rest, Ahead;
    Sizes();
    if n == 0 {
      NothingInverted();
    } else {
      SelectInverted(c, d, off, n - 1);
      BitsAhead(n - 1);
      AheadApart(Ones(n - 1), Rest(n - 1), BigByte(n - 1));
      SetInverted(Select(c, off, n - 1), Select(d, off, n - 1), Ones(n - 1), n - 1);
    }
  }

  lemma NothingInverted()
    ensures Inverts(0, 0, 0)
  {
  }

  lemma SetInverted(w: bv32, v: bv32, ones: bv32, j: nat)
    requires Inverts(w, v, ones) && Apart(ones, BigByte(j))
    ensures Inverts(SetBit(w, j), v, SetBit(ones, j)) && Inverts(w, SetBit(v, j), SetBit(ones, j))
  {
    hide BigByte, Inverts, Apart, Or;
    OrInverted(w, v, ones, BigByte(j));
  }

  predicate Apart(ones: bv32, bit: bv32) {
    ones & bit == 0
  }

  lemma OrInverted(w: bv32, v: bv32, ones: bv32, bit: bv32)
    requires Inverts(w, v, ones) && Apart(ones, bit)
    ensures Inverts(Or(w, bit), v, Or(ones, bit)) && Inverts(w, Or(v, bit), Or(ones, bit))
  {
    hide Apart, Or;
    ApartOr(w, v, bit);
    OrOr(w, v, bit);
  }

  lemma ApartOr(w: bv32, v: bv32, bit: bv32)
    requires Apart(w, v) && Apart(Or(w, v), bit)
    ensures Apart(Or(w, bit), v) && Apart(w, Or(v, bit))
  {
  }

  lemma OrOr(w: bv32, v: bv32, bit: bv32)
    ensures Or(Or(w, bit), v) == Or(Or(w, v), bit)
    ensures Or(w, Or(v, bit)) == Or(Or(w, v), bit)
  {
    hide Or;
    OrAssociates(w, v, bit);
    OrAssociates(w, bit, v);
    OrCommutes(v, bit);
  }

  lemma OrAssociates(w: bv32, v: bv32, bit: bv32)
    ensures Or(w, Or(v, bit)) == Or(Or(w, v), bit)
  {
  }

  lemma OrCommutes(v: bv32, bit: bv32)
    ensures Or(v, bit) == Or(bit, v)
  {
  }

  // ---------- Round keys ----------

  /** `k` and `k'` differ in every bit of their eight fields. */
  predicate FieldsInverted(k: bv32, k': bv32) {
    k ^ k' == 0x3f3f3f3f
  }

  function NotKey(w: bv32): bv32 { w ^ 0xffffff }

  lemma InvertsAll(w: bv32, v: bv32)
    requires Inverts(w, v, 0xffffff)
    ensures v == NotKey(w)
  {
  }

  lemma CookInverted(a: bv32, b: bv32)
    ensures FieldsInverted(Cook(a, b).0, Cook(NotKey(a), NotKey(b)).0)
  {
  }

  lemma CookInvertedToo(a: bv32, b: bv32)
    ensures FieldsInverted(Cook(a, b).1, Cook(NotKey(a), NotKey(b)).1)
  {
  }

  lemma RoundKeyInverted(key: Block, i: nat)
    requires i < 16
    ensures FieldsInverted(RoundKey(key, i).0, RoundKey(Not(key), i).0)
    ensures FieldsInverted(RoundKey(key, i).1, RoundKey(Not(key), i).1)
  {
    hide Permuted, Not, Select, Cook, FieldsInverted, Inverts, Ones, NotKey;
    Sizes();
    PermutedInverted(key);
    var (c, d) := (Rotated(Permuted(key), TOTROT[i]), Rotated(Permuted(Not(key)), TOTROT[i]));
    SelectInverted(c, d, 0, 24);
    SelectInverted(c, d, 24, 24);
    AllOnes();
    InvertsAll(Select(c, 0, 24), Select(d, 0, 24));
    InvertsAll(Select(c, 24, 24), Select(d, 24, 24));
    CookInverted(Select(c, 0, 24), Select(c, 24, 24));
    CookInvertedToo(Select(c, 0, 24), Select(c, 24, 24));
  }

  lemma ScheduleInverted(key: Block, edf: Mode)
    ensures forall n | 0 <= n < 32 :: FieldsInverted(Schedule(key, edf)[n], Schedule(Not(key), edf)[n])
  {
    hide RoundKey, Not, FieldsInverted;
    forall n | 0 <= n < 32 ensures FieldsInverted(Schedule(key, edf)[n], Schedule(Not(key), edf)[n]) {
      RoundKeyInverted(key, Place(edf, n / 2));
    }
  }

  // ---------- Rounds ----------

  /** Inverting a half and a round key leaves the indices into the substitution tables as they are. */
  lemma FieldInverted(x: bv32, k: bv32, k': bv32, n: bv32)
    requires FieldsInverted(k, k') && (n == 0 || n == 8 || n == 16 || n == 24)
    ensures Field(Mix(NotWord(x), k'), n) == Field(Mix(x, k), n)
  {
    assert NotWord(x) ^ k' == x ^ k ^ 0xc0c0c0c0;
    FieldIgnores(x ^ k, n);
  }

  lemma FieldIgnores(x: bv32, n: bv32)
    requires n == 0 || n == 8 || n == 16 || n == 24
    ensures Field(x ^ 0xc0c0c0c0, n) == Field(x, n)
  {
    if n == 0 {
    } else if n == 8 {
    } else if n == 16 {
    } else {
    }
  }

  lemma FInverted(r: bv32, k0: bv32, k1: bv32, k0': bv32, k1': bv32)
    requires FieldsInverted(k0, k0') && FieldsInverted(k1, k1')
    ensures F(NotWord(r), k0', k1') == F(r, k0, k1)
  {
    hide Field, Lookup, FieldsInverted, Mix, Ror4, NotWord, Or;
    RotationInverted(r);
    FieldInverted(Ror4(r), k0, k0', 0);
    FieldInverted(Ror4(r), k0, k0', 8);
    FieldInverted(Ror4(r), k0, k0', 16);
    FieldInverted(Ror4(r), k0, k0', 24);
    FieldInverted(r, k1, k1', 0);
    FieldInverted(r, k1, k1', 8);
    FieldInverted(r, k1, k1', 16);
    FieldInverted(r, k1, k1', 24);
  }

  lemma RotationInverted(r: bv32)
    ensures Ror4(NotWord(r)) == NotWord(Ror4(r))
  {
    assert NotWord(r) == r ^ 0xffffffff;
    assert (r ^ 0xffffffff) << 28 == (r << 28) ^ 0xf0000000;
    assert (r ^ 0xffffffff) >> 4 == (r >> 4) ^ 0x0fffffff;
  }

  lemma MixInverted(x: bv32, y: bv32)
    ensures Mix(NotWord(x), y) == NotWord(Mix(x, y))
  {
    assert (x ^ 0xffffffff) ^ y == (x ^ y) ^ 0xffffffff;
  }

  lemma TurnInverted(half: (bv32, bv32), k0: bv32, k1: bv32, k2: bv32, k3: bv32,
                     k0': bv32, k1': bv32, k2': bv32, k3': bv32)
    requires FieldsInverted(k0, k0') && FieldsInverted(k1, k1') && FieldsInverted(k2, k2') && FieldsInverted(k3, k3')
    ensures Turn(F, NotHalves(half), k0', k1', k2', k3') == NotHalves(Turn(F, half, k0, k1, k2, k3))
  {
    hide F, Mix, NotWord, FieldsInverted;
    FInverted(half.1, k0, k1, k0', k1');
    MixInverted(half.0, F(half.1, k0, k1));
    var l := Mix(half.0, F(half.1, k0, k1));
    FInverted(l, k2, k3, k2', k3');
    MixInverted(half.1, F(l, k2, k3));
  }

  lemma {:induction false} RoundsInverted(half: (bv32, bv32), k: seq<bv32>, k': seq<bv32>, n: nat)
    requires |k| == |k'| == 32 && n <= 8
    requires forall i | 0 <= i < 32 :: FieldsInverted(k[i], k'[i])
    ensures Rounds(F, NotHalves(half), k', n) == NotHalves(Rounds(F, half, k, n))
  {
    hide Turn, NotHalves, FieldsInverted;
    if n > 0 {
      RoundsInverted(half, k, k', n - 1);
      TurnInverted(Rounds(F, half, k, n - 1), k[4 * n - 4], k[4 * n - 3], k[4 * n - 2], k[4 * n - 1],
                   k'[4 * n - 4], k'[4 * n - 3], k'[4 * n - 2], k'[4 * n - 1]);
    }
  }

  // ---------- The permutations ----------

  lemma SwapInverted(x: bv32, y: bv32, n: bv32, mask: bv32)
    requires n < 32 && IsStep(n, mask)
    ensures Swap(NotWord(x), NotWord(y), n, mask) == NotHalves(Swap(x, y, n, mask))
  {
    hide Work, Shl, Mix, NotWord;
    Work0Inverted(x, y);
    Work2Inverted(x, y);
    Work4Inverted(x, y);
    Work8Inverted(x, y);
    Work16Inverted(x, y);
    var work := Work(x, y, n, mask);
    MixInverted(x, Shl(work, n));
    MixInverted(y, work);
  }

  lemma Work0Inverted(x: bv32, y: bv32)
    ensures Work(NotWord(x), NotWord(y), 0, 0xaaaaaaaa) == Work(x, y, 0, 0xaaaaaaaa)
  {
  }

  lemma Work2Inverted(x: bv32, y: bv32)
    ensures Work(NotWord(x), NotWord(y), 2, 0x33333333) == Work(x, y, 2, 0x33333333)
  {
  }

  lemma Work4Inverted(x: bv32, y: bv32)
    ensures Work(NotWord(x), NotWord(y), 4, 0x0f0f0f0f) == Work(x, y, 4, 0x0f0f0f0f)
  {
  }

  lemma Work8Inverted(x: bv32, y: bv32)
    ensures Work(NotWord(x), NotWord(y), 8, 0x00ff00ff) == Work(x, y, 8, 0x00ff00ff)
  {
  }

  lemma Work16Inverted(x: bv32, y: bv32)
    ensures Work(NotWord(x), NotWord(y), 16, 0x0000ffff) == Work(x, y, 16, 0x0000ffff)
  {
  }

  lemma RolInverted(x: bv32)
    ensures Rol(NotWord(x)) == NotWord(Rol(x))
  {
    assert NotWord(x) == x ^ 0xffffffff;
    assert (x ^ 0xffffffff) << 1 == (x << 1) ^ 0xfffffffe;
    assert (x ^ 0xffffffff) >> 31 == (x >> 31) ^ 1;
  }

  lemma RorInverted(x: bv32)
    ensures Ror(NotWord(x)) == NotWord(Ror(x))
  {
    assert NotWord(x) == x ^ 0xffffffff;
    assert (x ^ 0xffffffff) << 31 == (x << 31) ^ 0x80000000;
    assert (x ^ 0xffffffff) >> 1 == (x >> 1) ^ 0x7fffffff;
  }

  lemma InitialInverted(a: bv32, b: bv32)
    ensures Initial(NotWord(a), NotWord(b)) == NotHalves(Initial(a, b))
  {
    hide Swap, Rol, Ror, NotWord;
    var (l1, r1) := Swap(a, b, 4, 0x0f0f0f0f);
    var (l2, r2) := Swap(l1, r1, 16, 0x0000ffff);
    var (r3, l3) := Swap(r2, l2, 2, 0x33333333);
    var (r4, l4) := Swap(r3, l3, 8, 0x00ff00ff);
    var (l5, r5) := Swap(l4, Rol(r4), 0, 0xaaaaaaaa);
    SwapInverted(a, b, 4, 0x0f0f0f0f);
    SwapInverted(l1, r1, 16, 0x0000ffff);
    SwapInverted(r2, l2, 2, 0x33333333);
    SwapInverted(r3, l3, 8, 0x00ff00ff);
    RolInverted(r4);
    SwapInverted(l4, Rol(r4), 0, 0xaaaaaaaa);
    RolInverted(l5);
  }

  lemma FinalInverted(l: bv32, r: bv32)
    ensures Final(NotWord(l), NotWord(r)) == NotHalves(Final(l, r))
  {
    hide Swap, Rol, Ror, NotWord;
    var (l1, r1) := Swap(l, Ror(r), 0, 0xaaaaaaaa);
    var (l2, r2) := Swap(Ror(l1), r1, 8, 0x00ff00ff);
    var (l3, r3) := Swap(l2, r2, 2, 0x33333333);
    var (r4, l4) := Swap(r3, l3, 16, 0x0000ffff);
    RorInverted(r);
    SwapInverted(l, Ror(r), 0, 0xaaaaaaaa);
    RorInverted(l1);
    SwapInverted(Ror(l1), r1, 8, 0x00ff00ff);
    SwapInverted(l2, r2, 2, 0x33333333);
    SwapInverted(r3, l3, 16, 0x0000ffff);
    SwapInverted(r4, l4, 4, 0x0f0f0f0f);
  }

  // ---------- The theorems ----------

  lemma WordInverted(b0: bv8, b1: bv8, b2: bv8, b3: bv8)
    ensures Word(b0 ^ 0xff, b1 ^ 0xff, b2 ^ 0xff, b3 ^ 0xff) == NotWord(Word(b0, b1, b2, b3))
  {
  }

  lemma WordsInverted(block: Block)
    ensures var n := Not(block);
            && Word(n[0], n[1], n[2], n[3]) == NotWord(Word(block[0], block[1], block[2], block[3]))
            && Word(n[4], n[5], n[6], n[7]) == NotWord(Word(block[4], block[5], block[6], block[7]))
  {
    hide Word, NotWord;
    WordInverted(block[0], block[1], block[2], block[3]);
    WordInverted(block[4], block[5], block[6], block[7]);
  }

  lemma BytesInverted(w: bv32)
    ensures Bytes(NotWord(w)) == [Bytes(w)[0] ^ 0xff, Bytes(w)[1] ^ 0xff, Bytes(w)[2] ^ 0xff, Bytes(w)[3] ^ 0xff]
  {
    assert ((w ^ 0xffffffff) >> 24) as bv8 == ((w >> 24) as bv8) ^ 0xff;
    assert (((w ^ 0xffffffff) >> 16) & 0xff) as bv8 == (((w >> 16) & 0xff) as bv8) ^ 0xff;
    assert (((w ^ 0xffffffff) >> 8) & 0xff) as bv8 == (((w >> 8) & 0xff) as bv8) ^ 0xff;
    assert ((w ^ 0xffffffff) & 0xff) as bv8 == ((w & 0xff) as bv8) ^ 0xff;
  }

  lemma BlockInverted(a: bv32, b: bv32)
    ensures |Bytes(a) + Bytes(b)| == 8 && Bytes(NotWord(a)) + Bytes(NotWord(b)) == Not(Bytes(a) + Bytes(b))
  {
    hide Bytes, NotWord;
    BytesLength(a);
    BytesLength(b);
    BytesInverted(a);
    BytesInverted(b);
    NotParts(Bytes(a), Bytes(b));
  }

  lemma NotParts(s: seq<bv8>, t: seq<bv8>)
    requires |s| == |t| == 4
    ensures Not(s + t) == [s[0] ^ 0xff, s[1] ^ 0xff, s[2] ^ 0xff, s[3] ^ 0xff] + [t[0] ^ 0xff, t[1] ^ 0xff, t[2] ^ 0xff, t[3] ^ 0xff]
  {
  }

  lemma BytesLength(a: bv32)
    ensures |Bytes(a)| == 4
  {
  }

  /** Inverting every bit of the key and of the block inverts every bit of the result, when enciphering and deciphering. */
  lemma Complementation(key: Block, edf: Mode, block: Block)
    ensures Des(Schedule(Not(key), edf), Not(block)) == Not(Des(Schedule(key, edf), block))
  {
    hide Schedule, Initial, Final, Rounds, Word, Bytes, NotWord, Not, FieldsInverted;
    ScheduleInverted(key, edf);
    var (k, k') := (Schedule(key, edf), Schedule(Not(key), edf));
    var (a, b) := (Word(block[0], block[1], block[2], block[3]), Word(block[4], block[5], block[6], block[7]));
    WordsInverted(block);
    InitialInverted(a, b);
    RoundsInverted(Initial(a, b), k, k', 8);
    var (l, r) := Rounds(F, Initial(a, b), k, 8);
    FinalInverted(l, r);
    BlockInverted(Final(l, r).0, Final(l, r).1);
  }

  /** The most significant bit of each key byte has no influence. */
  lemma TopBitsIgnored(key: Block, key': Block, edf: Mode)
    requires forall i | 0 <= i < 8 :: key[i] & 0x7f == key'[i] & 0x7f
    ensures Schedule(key, edf) == Schedule(key', edf)
  {
    hide Cook, Select;
    assert Permuted(key) == Permuted(key') by {
      Sizes();
      forall j | 0 <= j < 56 ensures Permuted(key)[j] == Permuted(key')[j] {
        TopBitIgnored(key[PC1[j] / 8], key'[PC1[j] / 8], PC1[j] % 8);
      }
    }
  }

  lemma TopBitIgnored(x: bv8, y: bv8, m: nat)
    requires m < 7 && x & 0x7f == y & 0x7f
    ensures |BYTEBIT| == 8 && x & BYTEBIT[m] == y & BYTEBIT[m]
  {
    Sizes();
    if m == 0 {
    } else if m == 1 {
    } else if m == 2 {
    } else if m == 3 {
    } else if m == 4 {
    } else if m == 5 {
    } else {
    }
  }
}
