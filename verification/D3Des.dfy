/** The DES block cipher of VNC authentication. */
module D3Des {
  import opened DesTables
  import opened Integers

  // ---------- The key schedule ----------

  datatype Mode = EN0 | DE1

  /** The eight bytes of a key or a block. */
  type Block = s: seq<bv8> | |s| == 8 witness [0, 0, 0, 0, 0, 0, 0, 0]

  /** `key[l >> 3] & bytebit[l & 07]` */
  function KeyBitSet(key: Block, l: KeyBit): bool {
    key[l / 8] & BYTEBIT[l % 8] != 0
  }

  /** `pc1m` */
  function Permuted(key: Block): (c: seq<bool>)
    ensures |c| == 56
  {
    Sizes();
    seq(56, j requires 0 <= j < 56 => KeyBitSet(key, PC1[j]))
  }

  /** `pcr`: both halves of the permuted key, rotated left. */
  function Rotated(c: seq<bool>, r: Rotation): (d: seq<bool>)
    requires |c| == 56
    ensures |d| == 56
  {
    seq(56, j requires 0 <= j < 56 => c[RotatedFrom(j, r)])
  }

  function RotatedFrom(j: nat, r: Rotation): (l: nat)
    requires j < 56
    ensures l < 56
  {
    if j < 28 then (if j + r < 28 then j + r else j + r - 28) else (if j + r < 56 then j + r else j + r - 28)
  }

  /** `w |= bigbyte[j]` */
  function SetBit(w: bv32, j: nat): bv32 {
    Or(w, BigByte(j))
  }

  function Or(w: bv32, bit: bv32): bv32 {
    w | bit
  }

  /** The word that the first `n` selections from `off` on set bit by bit. */
  function Select(c: seq<bool>, off: nat, n: nat): bv32
    requires |c| == 56 && off + n <= 48 && n <= 24
  {
    Sizes();
    if n == 0 then 0
    else if c[PC2[off + n - 1]] then SetBit(Select(c, off, n - 1), n - 1) else Select(c, off, n - 1)
  }

  /** The round key of round `i`, as `rfbDesKey` first computes it. */
  function RawKey(key: Block, i: nat): (bv32, bv32)
    requires i < 16
  {
    Sizes();
    var c := Rotated(Permuted(key), TOTROT[i]);
    (Select(c, 0, 24), Select(c, 24, 24))
  }

  /** `cookey` on one round key: eight fields of six bits, one to a byte. */
  function Cook(raw0: bv32, raw1: bv32): (bv32, bv32) {
    (((raw0 & 0x00fc0000) << 6) | ((raw0 & 0x00000fc0) << 10) | ((raw1 & 0x00fc0000) >> 10) | ((raw1 & 0x00000fc0) >> 6),
     ((raw0 & 0x0003f000) << 12) | ((raw0 & 0x0000003f) << 16) | ((raw1 & 0x0003f000) >> 4) | (raw1 & 0x0000003f))
  }

  function RoundKey(key: Block, i: nat): (bv32, bv32)
    requires i < 16
  {
    Cook(RawKey(key, i).0, RawKey(key, i).1)
  }

  /** The place in the schedule of the key of round `i`. */
  function Place(edf: Mode, i: nat): (p: nat)
    requires i < 16
    ensures p < 16
  {
    if edf == DE1 then 15 - i else i
  }

  /** The key register after `rfbDesKey`. */
  function Schedule(key: Block, edf: Mode): (kn: seq<bv32>)
    ensures |kn| == 32
  {
    seq(32, n requires 0 <= n < 32 =>
      var k := RoundKey(key, Place(edf, n / 2)); if n % 2 == 0 then k.0 else k.1)
  }

  // ---------- One block ----------

  /** `work`: the bits in which `x >> n` and `y` differ under the mask. */
  function Work(x: bv32, y: bv32, n: bv32, mask: bv32): bv32
    requires n < 32
  {
    ((x >> n) ^ y) & mask
  }

  function Shl(work: bv32, n: bv32): bv32
    requires n < 32
  {
    work << n
  }

  function Mix(x: bv32, y: bv32): bv32 {
    x ^ y
  }

  /** One step of the initial and final permutations: exchanges the bits of `x >> n` and `y` under the mask. */
  function Swap(x: bv32, y: bv32, n: bv32, mask: bv32): (bv32, bv32)
    requires n < 32
  {
    var work := Work(x, y, n, mask);
    (Mix(x, Shl(work, n)), Mix(y, work))
  }

  function NotWord(w: bv32): bv32 { w ^ 0xffffffff }

  function Rol(x: bv32): bv32 { (x << 1) | (x >> 31) }

  function Ror(x: bv32): bv32 { (x << 31) | (x >> 1) }

  /** The first part of `desfunc`. */
  function Initial(block0: bv32, block1: bv32): (bv32, bv32) {
    var (l1, r1) := Swap(block0, block1, 4, 0x0f0f0f0f);
    var (l2, r2) := Swap(l1, r1, 16, 0x0000ffff);
    var (r3, l3) := Swap(r2, l2, 2, 0x33333333);
    var (r4, l4) := Swap(r3, l3, 8, 0x00ff00ff);
    var (l5, r5) := Swap(l4, Rol(r4), 0, 0xaaaaaaaa);
    (Rol(l5), r5)
  }

  /** The last part of `desfunc`: the halves as they are stored to `block[0]` and `block[1]`. */
  function Final(leftt: bv32, right: bv32): (bv32, bv32) {
    var (l1, r1) := Swap(leftt, Ror(right), 0, 0xaaaaaaaa);
    var (l2, r2) := Swap(Ror(l1), r1, 8, 0x00ff00ff);
    var (l3, r3) := Swap(l2, r2, 2, 0x33333333);
    var (r4, l4) := Swap(r3, l3, 16, 0x0000ffff);
    var (r5, l5) := Swap(r4, l4, 4, 0x0f0f0f0f);
    (r5, l5)
  }

  /** The steps that the permutations take. */
  predicate IsStep(n: bv32, mask: bv32) {
    || (n == 0 && mask == 0xaaaaaaaa) || (n == 2 && mask == 0x33333333) || (n == 4 && mask == 0x0f0f0f0f)
    || (n == 8 && mask == 0x00ff00ff) || (n == 16 && mask == 0x0000ffff)
  }

  lemma SwapSelfInverse(x: bv32, y: bv32, n: bv32, mask: bv32)
    requires n < 32 && IsStep(n, mask)
    ensures Swap(Swap(x, y, n, mask).0, Swap(x, y, n, mask).1, n, mask) == (x, y)
  {
    hide Work, Shl, Mix;
    var w := Work(x, y, n, mask);
    WorkKept(x, y, n, mask, w);
    MixCancels(x, Shl(w, n));
    MixCancels(y, w);
  }

  lemma MixCancels(x: bv32, f: bv32)
    ensures Mix(Mix(x, f), f) == x
  {
  }

  lemma WorkKept(x: bv32, y: bv32, n: bv32, mask: bv32, w: bv32)
    requires n < 32 && IsStep(n, mask) && w == Work(x, y, n, mask)
    ensures Work(Mix(x, Shl(w, n)), Mix(y, w), n, mask) == w
  {
    if n == 0 {
    } else if n == 2 {
    } else if n == 4 {
    } else if n == 8 {
    } else {
    }
  }

  lemma SwapSymmetric(x: bv32, y: bv32)
    ensures Swap(y, x, 0, 0xaaaaaaaa) == (Swap(x, y, 0, 0xaaaaaaaa).1, Swap(x, y, 0, 0xaaaaaaaa).0)
  {
    hide Mix;
    var w := Work(x, y, 0, 0xaaaaaaaa);
    assert w == Work(y, x, 0, 0xaaaaaaaa) && Shl(w, 0) == w;
  }

  lemma RolRor(x: bv32)
    ensures Rol(Ror(x)) == x && Ror(Rol(x)) == x
  {
  }

  /** The final permutation is undone by the initial one, which exchanges the halves. */
  lemma InitialFinal(l: bv32, r: bv32)
    ensures Initial(Final(l, r).0, Final(l, r).1) == (r, l)
  {
    hide Swap, Rol, Ror;
    var (l1, r1) := Swap(l, Ror(r), 0, 0xaaaaaaaa);
    var (l2, r2) := Swap(Ror(l1), r1, 8, 0x00ff00ff);
    var (l3, r3) := Swap(l2, r2, 2, 0x33333333);
    var (r4, l4) := Swap(r3, l3, 16, 0x0000ffff);
    SwapSelfInverse(r4, l4, 4, 0x0f0f0f0f);
    SwapSelfInverse(r3, l3, 16, 0x0000ffff);
    SwapSelfInverse(l2, r2, 2, 0x33333333);
    SwapSelfInverse(Ror(l1), r1, 8, 0x00ff00ff);
    SwapSelfInverse(l, Ror(r), 0, 0xaaaaaaaa);
    SwapSymmetric(l, Ror(r));
    SwapSelfInverse(l1, r1, 0, 0xaaaaaaaa);
    SwapSymmetric(l1, r1);
    RolRor(l1);
    RolRor(r);
  }

  lemma FinalInitial(a: bv32, b: bv32)
    ensures Final(Initial(a, b).1, Initial(a, b).0) == (a, b)
  {
    hide Swap, Rol, Ror;
    var (l1, r1) := Swap(a, b, 4, 0x0f0f0f0f);
    var (l2, r2) := Swap(l1, r1, 16, 0x0000ffff);
    var (r3, l3) := Swap(r2, l2, 2, 0x33333333);
    var (r4, l4) := Swap(r3, l3, 8, 0x00ff00ff);
    var (l5, r5) := Swap(l4, Rol(r4), 0, 0xaaaaaaaa);
    SwapSelfInverse(a, b, 4, 0x0f0f0f0f);
    SwapSelfInverse(l1, r1, 16, 0x0000ffff);
    SwapSelfInverse(r2, l2, 2, 0x33333333);
    SwapSelfInverse(r3, l3, 8, 0x00ff00ff);
    SwapSelfInverse(l4, Rol(r4), 0, 0xaaaaaaaa);
    SwapSymmetric(l4, Rol(r4));
    SwapSelfInverse(l5, r5, 0, 0xaaaaaaaa);
    SwapSymmetric(l5, r5);
    RolRor(l5);
    RolRor(r4);
  }

  // ---------- The rounds ----------

  /** `(w >> n) & 0x3f` */
  function Field(w: bv32, n: bv32): bv6
    requires n < 32
  {
    ((w >> n) & 0x3f) as bv6
  }

  /** `(right << 28) | (right >> 4)` */
  function Ror4(r: bv32): bv32 {
    (r << 28) | (r >> 4)
  }

  /** `fval` for one half and one round key. */
  function F(r: bv32, k0: bv32, k1: bv32): bv32 {
    var a := Mix(Ror4(r), k0);
    var b := Mix(r, k1);
    Or(Or(Or(Lookup(SP7, Field(a, 0)), Lookup(SP5, Field(a, 8))), Or(Lookup(SP3, Field(a, 16)), Lookup(SP1, Field(a, 24)))),
       Or(Or(Lookup(SP8, Field(b, 0)), Lookup(SP6, Field(b, 8))), Or(Lookup(SP4, Field(b, 16)), Lookup(SP2, Field(b, 24)))))
  }

  /** What a half and the two words of a round key make for the other half. */
  type RoundFunction = (bv32, bv32, bv32) -> bv32

  /** One turn of the loop: two rounds. */
  function Turn(f: RoundFunction, half: (bv32, bv32), k0: bv32, k1: bv32, k2: bv32, k3: bv32): (bv32, bv32) {
    var l := Mix(half.0, f(half.1, k0, k1));
    (l, Mix(half.1, f(l, k2, k3)))
  }

  /** The halves after `n` turns. */
  function Rounds(f: RoundFunction, half: (bv32, bv32), kn: seq<bv32>, n: nat): (bv32, bv32)
    requires 4 * n <= |kn|
  {
    if n == 0 then half
    else Turn(f, Rounds(f, half, kn, n - 1), kn[4 * n - 4], kn[4 * n - 3], kn[4 * n - 2], kn[4 * n - 1])
  }

  /** `desfunc` on the two words of a block, with any round function. */
  function Cipher(f: RoundFunction, kn: seq<bv32>, a: bv32, b: bv32): (bv32, bv32)
    requires |kn| == 32
  {
    var (l, r) := Rounds(f, Initial(a, b), kn, 8);
    Final(l, r)
  }

  function Feistel(f: RoundFunction, kn: seq<bv32>, block: Block): Block
    requires |kn| == 32
  {
    var (a, b) := Cipher(f, kn, Word(block[0], block[1], block[2], block[3]), Word(block[4], block[5], block[6], block[7]));
    Bytes(a) + Bytes(b)
  }

  /** `rfbDes` with key register `kn`. */
  function Des(kn: seq<bv32>, block: Block): Block
    requires |kn| == 32
  {
    Feistel(F, kn, block)
  }

  // ---------- Decryption ----------

  /** The two schedules of a key hold the same round keys in opposite order. */
  lemma ScheduleReversed(key: Block, p: nat)
    requires p < 16
    ensures var (e, d) := (Schedule(key, EN0), Schedule(key, DE1));
            d[2 * p] == e[2 * (15 - p)] && d[2 * p + 1] == e[2 * (15 - p) + 1]
  {
    hide RoundKey;
  }

  ghost predicate Reversed(e: seq<bv32>, d: seq<bv32>) {
    |e| == |d| == 32 && forall p | 0 <= p < 16 :: d[2 * p] == e[30 - 2 * p] && d[2 * p + 1] == e[31 - 2 * p]
  }

  lemma SchedulesReversed(key: Block)
    ensures Reversed(Schedule(key, EN0), Schedule(key, DE1)) && Reversed(Schedule(key, DE1), Schedule(key, EN0))
  {
    hide Schedule;
    forall p: nat | p < 16
      ensures Schedule(key, DE1)[2 * p] == Schedule(key, EN0)[30 - 2 * p]
      ensures Schedule(key, DE1)[2 * p + 1] == Schedule(key, EN0)[31 - 2 * p]
      ensures Schedule(key, EN0)[2 * p] == Schedule(key, DE1)[30 - 2 * p]
      ensures Schedule(key, EN0)[2 * p + 1] == Schedule(key, DE1)[31 - 2 * p]
    {
      ScheduleReversed(key, p);
      ScheduleReversed(key, 15 - p);
    }
  }

  function Exchanged(half: (bv32, bv32)): (bv32, bv32) {
    (half.1, half.0)
  }

  /** A turn with the keys in opposite order, on the exchanged halves, takes a turn back. */
  lemma TurnUndone(f: RoundFunction, half: (bv32, bv32), k0: bv32, k1: bv32, k2: bv32, k3: bv32)
    ensures Turn(f, Exchanged(Turn(f, half, k0, k1, k2, k3)), k2, k3, k0, k1) == Exchanged(half)
  {
    hide Mix;
    var f0 := f(half.1, k0, k1);
    MixCancels(half.0, f0);
    MixCancels(half.1, f(Mix(half.0, f0), k2, k3));
  }

  /** Running the first `n` turns of the reversed schedule on the exchanged halves takes back the last `n` turns. */
  lemma {:induction false} RoundsUndone(f: RoundFunction, half: (bv32, bv32), e: seq<bv32>, d: seq<bv32>, n: nat)
    requires |e| == |d| == 32 && Reversed(e, d) && n <= 8
    ensures Rounds(f, Exchanged(Rounds(f, half, e, 8)), d, n) == Exchanged(Rounds(f, half, e, 8 - n))
  {
    hide Turn, Exchanged, Reversed;
    if n > 0 {
      var m := 9 - n;
      RoundsUndone(f, half, e, d, n - 1);
      TurnKeys(e, d, n);
      TurnUndone(f, Rounds(f, half, e, m - 1), e[4 * m - 4], e[4 * m - 3], e[4 * m - 2], e[4 * m - 1]);
    }
  }

  lemma TurnKeys(e: seq<bv32>, d: seq<bv32>, n: nat)
    requires Reversed(e, d) && 1 <= n <= 8
    ensures d[4 * n - 4] == e[34 - 4 * n] && d[4 * n - 3] == e[35 - 4 * n]
    ensures d[4 * n - 2] == e[32 - 4 * n] && d[4 * n - 1] == e[33 - 4 * n]
  {
    assert d[2 * (2 * n - 2)] == e[30 - 2 * (2 * n - 2)] && d[2 * (2 * n - 2) + 1] == e[31 - 2 * (2 * n - 2)];
    assert d[2 * (2 * n - 1)] == e[30 - 2 * (2 * n - 1)] && d[2 * (2 * n - 1) + 1] == e[31 - 2 * (2 * n - 1)];
  }

  /** A block enciphered with one schedule is recovered with the reversed one, whatever the substitution tables and all
      else that makes up the round function. */
  lemma FeistelInverse(f: RoundFunction, e: seq<bv32>, d: seq<bv32>, block: Block)
    requires |e| == |d| == 32 && Reversed(e, d)
    ensures Feistel(f, d, Feistel(f, e, block)) == block
  {
    hide Initial, Final, Turn, Word, Bytes, Reversed;
    var (a, b) := (Word(block[0], block[1], block[2], block[3]), Word(block[4], block[5], block[6], block[7]));
    var half := Initial(a, b);
    var (l, r) := Rounds(f, half, e, 8);
    RoundsUndone(f, half, e, d, 8);
    InitialFinal(l, r);
    FinalInitial(a, b);
    WordsOf(Final(l, r).0, Final(l, r).1);
    BytesWord(block[0], block[1], block[2], block[3]);
    BytesWord(block[4], block[5], block[6], block[7]);
  }

  lemma DesInverse(e: seq<bv32>, d: seq<bv32>, block: Block)
    requires |e| == |d| == 32 && Reversed(e, d)
    ensures Des(d, Des(e, block)) == block
  {
    hide Feistel, Reversed;
    FeistelInverse(F, e, d, block);
  }

  lemma WordsOf(a: bv32, b: bv32)
    ensures var s := Bytes(a) + Bytes(b); |s| == 8 && Word(s[0], s[1], s[2], s[3]) == a && Word(s[4], s[5], s[6], s[7]) == b
  {
    hide Word;
    WordBytes(a);
    WordBytes(b);
  }
}
