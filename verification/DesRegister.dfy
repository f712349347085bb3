/** The key register and the routines that load and use it. */
module DesRegister {
  import opened DesTables
  import opened D3Des
  import opened Integers
  import opened Octets

  class Register {
    /** `static unsigned long KnL[32]` */
    const KnL: array<bv32>

    constructor ()
      ensures fresh(KnL) && KnL.Length == 32
    {
      KnL := new bv32[32];
    }

    /** `rfbDesKey`: computes the schedule of `key` for the given direction, and loads the key register with it. */
    method DesKey(key: Block, edf: Mode)
      requires KnL.Length == 32
      modifies KnL
      ensures KnL[..] == Schedule(key, edf)
    {
      hide Permuted, RoundKey, Schedule, Holds;
      var pc1m := PermuteKey(key);
      var pcr := new bool[56];
      var kn := new bv32[32];
      for i := 0 to 16
        invariant pc1m[..] == Permuted(key)
        invariant forall r: nat | r < i :: Holds(kn[..], key, edf, Place(edf, r))
      {
        RawRound(pc1m, pcr, kn, i, key, edf);
      }
      AllHold(kn[..], key, edf);
      Cookey(key, edf, kn);
    }

    /** `cookey`, and the `rfbUseKey` that it ends with. */
    method Cookey(ghost key: Block, ghost edf: Mode, raw: array<bv32>)
      requires KnL.Length == raw.Length == 32 && raw != KnL
      requires forall p: nat | p < 16 :: Holds(raw[..], key, edf, p)
      modifies KnL
      ensures KnL[..] == Schedule(key, edf)
    {
      hide RawKey, Cook, Schedule;
      var dough := new bv32[32];
      for i := 0 to 16
        invariant forall k: nat | k < 2 * i :: dough[k] == Schedule(key, edf)[k]
      {
        assert Holds(raw[..], key, edf, i);
        ScheduleAt(key, edf, i);
        dough[2 * i] := Cook(raw[2 * i], raw[2 * i + 1]).0;
        dough[2 * i + 1] := Cook(raw[2 * i], raw[2 * i + 1]).1;
      }
      for to := 0 to 32
        invariant dough[..] == Schedule(key, edf)
        invariant forall k | 0 <= k < to :: KnL[k] == dough[k]
      {
        KnL[to] := dough[to];
      }
      assert KnL[..] == Schedule(key, edf);
    }
  }

  /** The loop that fills `pc1m`. */
  method PermuteKey(key: Block) returns (pc1m: array<bool>)
    ensures fresh(pc1m) && pc1m[..] == Permuted(key)
  {
    hide KeyBitSet;
    pc1m := new bool[56];
    Sizes();
    for j := 0 to 56
      invariant forall k | 0 <= k < j :: pc1m[k] == KeyBitSet(key, PC1[k])
    {
      var l := PC1[j];
      pc1m[j] := KeyBitSet(key, l);
    }
  }

  /** One pass of the loop that fills `kn`. */
  method RawRound(pc1m: array<bool>, pcr: array<bool>, kn: array<bv32>, i: nat, key: Block, edf: Mode)
    requires pc1m.Length == pcr.Length == 56 && kn.Length == 32 && pc1m != pcr && i < 16 && pc1m[..] == Permuted(key)
    requires pc1m as object != kn as object && pcr as object != kn as object
    requires forall r: nat | r < i :: Holds(kn[..], key, edf, Place(edf, r))
    modifies pcr, kn
    ensures forall r: nat | r < i + 1 :: Holds(kn[..], key, edf, Place(edf, r))
  {
    hide Permuted, Select, Holds;
    Sizes();
    var m := if edf == DE1 then 2 * (15 - i) else 2 * i;
    var n := m + 1;
    ghost var before := kn[..];
    kn[m], kn[n] := 0, 0;
    Rotate(pc1m, TOTROT[i], pcr);
    SelectBoth(pcr, kn, m, n);
    KeepsHolding(before, kn[..], key, edf, i);
  }

  /** `rfbDes`: the block at `inblock + i`, enciphered, to `outblock + o`.  They can be the same. */
  method DesBlock(reg: Register, inblock: array<bv8>, i: nat, outblock: array<bv8>, o: nat)
    requires reg.KnL.Length == 32 && reg.KnL as object != outblock as object
    requires i + 8 <= inblock.Length && o + 8 <= outblock.Length
    modifies outblock
    ensures reg.KnL[..] == old(reg.KnL[..])
    ensures outblock[..] == old(outblock[..o] + Des(reg.KnL[..], inblock[i..i + 8]) + outblock[o + 8..])
  {
    hide Cipher, Word, Bytes;
    ghost var (block, kn) := (inblock[i..i + 8], reg.KnL[..]);
    ghost var (before, after) := (outblock[..o], outblock[o + 8..]);
    var work0 := Word(inblock[i], inblock[i + 1], inblock[i + 2], inblock[i + 3]);
    var work1 := Word(inblock[i + 4], inblock[i + 5], inblock[i + 6], inblock[i + 7]);
    work0, work1 := DesFunc(work0, work1, reg.KnL);
    Unscrun(work0, work1, outblock, o);
    assert Des(kn, block) == Bytes(work0) + Bytes(work1);
  }

  /** `unscrun` */
  method Unscrun(work0: bv32, work1: bv32, into: array<bv8>, o: nat)
    requires o + 8 <= into.Length
    modifies into
    ensures into[..] == old(into[..o]) + (Bytes(work0) + Bytes(work1)) + old(into[o + 8..])
  {
    hide Bytes;
    var s := Bytes(work0) + Bytes(work1);
    BytesLength(work0, work1);
    ghost var was := into[..];
    assert was == was[..o] + s[..0] + was[o..];
    for k := 0 to 8
      invariant into[..] == was[..o] + s[..k] + was[o + k..]
    {
      Spliced(was, s, o, k);
      into[o + k] := s[k];
    }
  }

  lemma BytesLength(work0: bv32, work1: bv32)
    ensures |Bytes(work0) + Bytes(work1)| == 8
  {
  }

  /** `desfunc` */
  method DesFunc(block0: bv32, block1: bv32, keys: array<bv32>) returns (out0: bv32, out1: bv32)
    requires keys.Length == 32
    ensures (out0, out1) == Cipher(F, keys[..], block0, block1)
  {
    hide Initial, Final, F, Mix;
    var leftt, right := Initial(block0, block1).0, Initial(block0, block1).1;
    var at := 0;
    for round := 0 to 8
      invariant at == 4 * round && (leftt, right) == Rounds(F, Initial(block0, block1), keys[..], round)
    {
      leftt := Mix(leftt, F(right, keys[at], keys[at + 1]));
      right := Mix(right, F(leftt, keys[at + 2], keys[at + 3]));
      at := at + 4;
    }
    out0, out1 := Final(leftt, right).0, Final(leftt, right).1;
  }

  /** The two loops that fill `pcr`. */
  method Rotate(pc1m: array<bool>, r: Rotation, pcr: array<bool>)
    requires pc1m.Length == pcr.Length == 56 && pc1m != pcr
    modifies pcr
    ensures pcr[..] == Rotated(pc1m[..], r)
  {
    for j := 0 to 28
      invariant forall k | 0 <= k < j :: pcr[k] == pc1m[RotatedFrom(k, r)]
    {
      var l := j + r;
      pcr[j] := if l < 28 then pc1m[l] else pc1m[l - 28];
    }
    for j := 28 to 56
      invariant forall k | 0 <= k < j :: pcr[k] == pc1m[RotatedFrom(k, r)]
    {
      var l := j + r;
      pcr[j] := if l < 56 then pc1m[l] else pc1m[l - 28];
    }
  }

  /** `if(b) kn[m] |= bigbyte[j]` */
  method SetBitIf(b: bool, kn: array<bv32>, m: nat, j: nat)
    requires m < kn.Length
    modifies kn
    ensures kn[..] == old(kn[..])[m := if b then SetBit(old(kn[m]), j) else old(kn[m])]
  {
    if b {
      kn[m] := SetBit(kn[m], j);
    }
  }

  /** The loop that sets the bits of the two words of a round key. */
  method SelectBoth(pcr: array<bool>, kn: array<bv32>, m: nat, n: nat)
    requires pcr as object != kn as object
    requires pcr.Length == 56 && m < kn.Length && n < kn.Length && m != n && kn[m] == 0 && kn[n] == 0
    modifies kn
    ensures kn[m] == Select(pcr[..], 0, 24) && kn[n] == Select(pcr[..], 24, 24)
    ensures forall k | 0 <= k < kn.Length && k != m && k != n :: kn[k] == old(kn[k])
  {
    hide Select, SetBit;
    Sizes();
    ghost var c, was := pcr[..], kn[..];
    SelectNone(c);
    for j := 0 to 24
      invariant pcr[..] == c && kn[..] == was[m := Select(c, 0, j)][n := Select(c, 24, j)]
    {
      SelectOne(pcr, kn, m, n, j, was);
    }
    assert kn[..][m] == Select(c, 0, 24) && kn[..][n] == Select(c, 24, 24);
    assert forall k | 0 <= k < kn.Length && k != m && k != n :: kn[k] == kn[..][k] == was[k];
  }

  /** One pass of that loop. */
  method SelectOne(pcr: array<bool>, kn: array<bv32>, m: nat, n: nat, j: nat, ghost was: seq<bv32>)
    requires pcr as object != kn as object
    requires pcr.Length == 56 && m < kn.Length == |was| && n < kn.Length && m != n && j < 24
    requires kn[..] == was[m := Select(pcr[..], 0, j)][n := Select(pcr[..], 24, j)]
    modifies kn
    ensures kn[..] == was[m := Select(pcr[..], 0, j + 1)][n := Select(pcr[..], 24, j + 1)]
  {
    hide Select, SetBit;
    Sizes();
    SelectNext(pcr[..], 0, j);
    SelectNext(pcr[..], 24, j);
    SetBitIf(pcr[PC2[j]], kn, m, j);
    SetBitIf(pcr[PC2[j + 24]], kn, n, j);
  }

  lemma SelectNone(c: seq<bool>)
    requires |c| == 56
    ensures Select(c, 0, 0) == 0 && Select(c, 24, 0) == 0
  {
  }

  lemma SelectNext(c: seq<bool>, off: nat, j: nat)
    requires |c| == 56 && off + j < 48 && j < 24
    ensures |PC2| == 48
    ensures Select(c, off, j + 1) == if c[PC2[off + j]] then SetBit(Select(c, off, j), j) else Select(c, off, j)
  {
    hide SetBit;
    Sizes();
  }

  lemma KeepsHolding(before: seq<bv32>, kn: seq<bv32>, key: Block, edf: Mode, i: nat)
    requires |before| == |kn| == 32 && i < 16
    requires forall r: nat | r < i :: Holds(before, key, edf, Place(edf, r))
    requires var m := 2 * Place(edf, i);
             && kn[m] == RawKey(key, i).0 && kn[m + 1] == RawKey(key, i).1
             && forall k | 0 <= k < 32 && k != m && k != m + 1 :: kn[k] == before[k]
    ensures forall r: nat | r < i + 1 :: Holds(kn, key, edf, Place(edf, r))
  {
    hide RawKey;
    forall r: nat | r < i + 1 ensures Holds(kn, key, edf, Place(edf, r)) {
      if r < i {
        assert Holds(before, key, edf, Place(edf, r));
      }
    }
  }

  lemma AllHold(kn: seq<bv32>, key: Block, edf: Mode)
    requires |kn| == 32 && forall r: nat | r < 16 :: Holds(kn, key, edf, Place(edf, r))
    ensures forall p: nat | p < 16 :: Holds(kn, key, edf, p)
  {
    hide RawKey;
    forall p: nat | p < 16 ensures Holds(kn, key, edf, p) {
      assert Holds(kn, key, edf, Place(edf, Place(edf, p)));
    }
  }

  lemma ScheduleAt(key: Block, edf: Mode, p: nat)
    requires p < 16
    ensures Schedule(key, edf)[2 * p] == RoundKey(key, Place(edf, p)).0
    ensures Schedule(key, edf)[2 * p + 1] == RoundKey(key, Place(edf, p)).1
  {
    hide RoundKey;
  }

  /** Slot `p` of the raw schedule holds its round key. */
  ghost predicate Holds(kn: seq<bv32>, key: Block, edf: Mode, p: nat)
    requires |kn| == 32 && p < 16
  {
    kn[2 * p] == RawKey(key, Place(edf, p)).0 && kn[2 * p + 1] == RawKey(key, Place(edf, p)).1
  }
}
