/** SHA-1 as FIPS 180-3 defines it, on messages of whole bytes followed by up to seven bits. */
module Sha1Spec {
  import opened Grid
  import opened Integers

  // ---------- The compression function ----------

  /** `ROTL`, section 3.2 of FIPS 180-3. */
  function Rotl(x: bv32, n: nat): bv32
    requires 0 < n < 32
  {
    (x << n) | (x >> (32 - n))
  }

  /** The functions of section 4.1.1 of FIPS 180-3. */
  function Ch(x: bv32, y: bv32, z: bv32): bv32 { (x & y) ^ ((!x) & z) }

  function Parity(x: bv32, y: bv32, z: bv32): bv32 { x ^ y ^ z }

  function Maj(x: bv32, y: bv32, z: bv32): bv32 { (x & y) ^ (x & z) ^ (y & z) }

  /** The definitions under `USE_MODIFIED_MACROS` are equivalent. */
  lemma ModifiedMacros(x: bv32, y: bv32, z: bv32)
    ensures Ch(x, y, z) == (x & (y ^ z)) ^ z
    ensures Maj(x, y, z) == (x & (y | z)) | (y & z)
  {
  }

  function Mixed(t: nat, b: bv32, c: bv32, d: bv32): bv32
  {
    if t < 20 then Ch(b, c, d) else if t < 40 then Parity(b, c, d) else if t < 60 then Maj(b, c, d) else Parity(b, c, d)
  }

  function Constant(t: nat): bv32 {
    if t < 20 then 0x5A827999 else if t < 40 then 0x6ED9EBA1 else if t < 60 then 0x8F1BBCDC else 0xCA62C1D6
  }

  type Block = s: seq<bv8> | |s| == 64 witness seq(64, _ => 0)

  function Next(w3: bv32, w8: bv32, w14: bv32, w16: bv32): bv32 {
    Rotl(w3 ^ w8 ^ w14 ^ w16, 1)
  }

  /** The message schedule, section 6.1.2 of FIPS 180-3: its first `n` words. */
  function Schedule(m: Block, n: nat): (w: seq<bv32>)
    ensures |w| == n
  {
    if n == 0 then []
    else
      var w := Schedule(m, n - 1);
      var t := n - 1;
      w + [if t < 16 then Word(m[4 * t], m[4 * t + 1], m[4 * t + 2], m[4 * t + 3])
           else Next(w[t - 3], w[t - 8], w[t - 14], w[t - 16])]
  }

  /** The five words of a hash value, or of the working variables. */
  datatype Hash = Hash(a: bv32, b: bv32, c: bv32, d: bv32, e: bv32)

  const INITIAL := Hash(0x67452301, 0xEFCDAB89, 0x98BADCFE, 0x10325476, 0xC3D2E1F0)

  /** `temp`: a sum modulo 2^32. */
  function Temp(a: bv32, f: bv32, e: bv32, w: bv32, k: bv32): bv32 {
    PlusAll(Rotl(a, 5), f, e, w, k)
  }

  function PlusAll(a: bv32, f: bv32, e: bv32, w: bv32, k: bv32): bv32 { a + f + e + w + k }

  function Round(t: nat, h: Hash, w: bv32): Hash {
    Hash(Temp(h.a, Mixed(t, h.b, h.c, h.d), h.e, w, Constant(t)), h.a, Rotl(h.b, 30), h.c, h.d)
  }

  /** The working variables after the first `n` rounds. */
  function Rounds(h: Hash, w: seq<bv32>, n: nat): Hash
    requires n <= |w|
  {
    if n == 0 then h else Round(n - 1, Rounds(h, w, n - 1), w[n - 1])
  }

  /** Addition modulo 2^32. */
  function Plus(x: bv32, y: bv32): bv32 { x + y }

  function Add(x: Hash, y: Hash): Hash {
    Hash(Plus(x.a, y.a), Plus(x.b, y.b), Plus(x.c, y.c), Plus(x.d, y.d), Plus(x.e, y.e))
  }

  function Compress(h: Hash, m: Block): Hash {
    Add(h, Rounds(h, Schedule(m, 80), 80))
  }

  /** The intermediate hash value after the first `n` blocks of `m`. */
  function Fold(m: seq<bv8>, n: nat): Hash
    requires 64 * n <= |m|
  {
    if n == 0 then INITIAL else Compress(Fold(m, n - 1), m[64 * (n - 1)..64 * n])
  }

  // ---------- Padding ----------

  /** `l` as eight bytes, most significant first. */
  function Length64(l: nat): (s: seq<bv8>)
    ensures |s| == 8
  {
    [ByteOf(l, 0x1_00000000_000000), ByteOf(l, 0x1_00000000_0000), ByteOf(l, 0x1_00000000_00), ByteOf(l, 0x1_00000000),
     ByteOf(l, 0x1_000000), ByteOf(l, 0x1_0000), ByteOf(l, 0x1_00), ByteOf(l, 1)]
  }

  function ByteOf(l: nat, unit: nat): bv8
    requires unit > 0
  {
    (l / unit % 256) as bv8
  }

  /** `j` zero bytes after `n` message bytes and the tail leave eight bytes of the last block. */
  predicate Fills(n: nat, j: nat) {
    (n + 1 + j) % 64 == 56
  }

  /** The number of zero bytes: the smallest that leaves room for the length at the end of a block. */
  function Zeros(n: nat): (k: nat)
    ensures Fills(n, k)
    ensures forall j: nat | Fills(n, j) :: k <= j
  {
    (119 - n % 64) % 64
  }

  lemma WholeBlocks(n: nat)
    requires n % 64 == 56
    ensures (n + 8) % 64 == 0
  {
    assert n + 8 == 64 * (n / 64 + 1);
  }

  /** The padded message, section 5.1.1 of FIPS 180-3: `tail` holds the last `extra` bits of the message, a one, and zeros. */
  function Padded(m: seq<bv8>, tail: bv8, extra: nat): (p: seq<bv8>)
    ensures |p| % 64 == 0
  {
    WholeBlocks(|m| + 1 + Zeros(|m|));
    m + [tail] + seq(Zeros(|m|), _ => 0) + Length64(8 * |m| + extra)
  }

  const MASKS: seq<bv8> := [0x00, 0x80, 0xC0, 0xE0, 0xF0, 0xF8, 0xFC, 0xFE]

  const MARKBIT: seq<bv8> := [0x80, 0x40, 0x20, 0x10, 0x08, 0x04, 0x02, 0x01]

  /** The tail byte for the upper `n` bits of `b`. */
  function Tail(b: bv8, n: nat): bv8
    requires n < 8
  {
    (b & MASKS[n]) | MARKBIT[n]
  }

  /** The tail byte holds the `n` bits, then a one, then zeros; without bits it is 0x80. */
  lemma TailBits(b: bv8, n: nat)
    requires n < 8
    ensures n > 0 ==> Tail(b, n) >> (8 - n) == b >> (8 - n)
    ensures Tail(b, n) << n == 0x80
    ensures Tail(b, 0) == 0x80
  {
    hide Tail;
    if n > 0 {
      TailBefore(b, n);
    }
    TailMark(b, n);
    TailMark(b, 0);
  }

  lemma TailBefore(b: bv8, n: nat)
    requires 0 < n < 8
    ensures Tail(b, n) >> (8 - n) == b >> (8 - n)
  {
    if n == 1 {
    } else if n == 2 {
    } else if n == 3 {
    } else if n == 4 {
    } else if n == 5 {
    } else if n == 6 {
    } else {
    }
  }

  lemma TailMark(b: bv8, n: nat)
    requires n < 8
    ensures Tail(b, n) << n == 0x80
    ensures n == 0 ==> Tail(b, n) == 0x80
  {
    if n == 0 {
    } else if n == 1 {
    } else if n == 2 {
    } else if n == 3 {
    } else if n == 4 {
    } else if n == 5 {
    } else if n == 6 {
    } else {
    }
  }

  function Digest(h: Hash): (s: seq<bv8>)
    ensures |s| == 20
  {
    Bytes(h.a) + Bytes(h.b) + Bytes(h.c) + Bytes(h.d) + Bytes(h.e)
  }

  /** Byte `i` of the digest is one of word `i / 4`. */
  lemma DigestAt(h: Hash, i: nat)
    requires i < 20
    ensures Digest(h)[i] == Bytes(if i < 4 then h.a else if i < 8 then h.b else if i < 12 then h.c else if i < 16 then h.d else h.e)[i % 4]
  {
    hide Bytes;
    var q := i / 4;
    assert i == 4 * q + i % 4;
  }

  function Sha1With(m: seq<bv8>, tail: bv8, extra: nat): Hash {
    var p := Padded(m, tail, extra);
    Fold(p, |p| / 64)
  }

  /** The hash of a message of whole bytes. */
  function Sha1(m: seq<bv8>): seq<bv8> {
    Digest(Sha1With(m, 0x80, 0))
  }

  // ---------- Facts ----------

  lemma {:induction false} FoldPrefix(m: seq<bv8>, m': seq<bv8>, n: nat)
    requires 64 * n <= |m| && m <= m'
    ensures Fold(m', n) == Fold(m, n)
  {
    hide Compress;
    if n > 0 {
      FoldPrefix(m, m', n - 1);
      assert m'[64 * (n - 1)..64 * n] == m[64 * (n - 1)..64 * n];
    }
  }

  /** What a streaming context holds after the bytes `m`: the fold of the first `n` blocks, and the bytes after them. */
  ghost predicate Holds(m: seq<bv8>, n: nat, hash: Hash, block: seq<bv8>, index: nat) {
    && |block| == 64 && index <= 64 && |m| == 64 * n + index
    && hash == Fold(m, n) && block[..index] == m[64 * n..]
  }

  lemma HoldsNothing(block: seq<bv8>)
    requires |block| == 64
    ensures Holds([], 0, INITIAL, block, 0)
  {
  }

  lemma HoldsIndex(m: seq<bv8>, n: nat, hash: Hash, block: seq<bv8>, index: nat)
    requires Holds(m, n, hash, block, index)
    ensures index <= 64 && |block| == 64 && |m| == 64 * n + index
  {
  }

  lemma HoldsEnd(m: seq<bv8>, n: nat, hash: Hash, block: seq<bv8>)
    requires Holds(m, n, hash, block, 0)
    ensures |m| == 64 * n && |m| / 64 == n && hash == Fold(m, n)
  {
  }

  lemma HoldsCount(m: seq<bv8>, n: nat, hash: Hash, block: seq<bv8>, index: nat)
    requires Holds(m, n, hash, block, index) && index < 64
    ensures |m| / 64 == n
  {
    hide Fold;
  }

  /** How many zeros `SHA1PadMessage` stores, and where. */
  lemma ZerosAre(n: nat, index: nat)
    requires index < 64
    ensures Zeros(64 * n + index) == if index >= 56 then 63 - index + 56 else 55 - index
  {
    assert (64 * n + index) % 64 == index;
  }

  lemma ZeroBytes(a: nat, b: nat)
    ensures seq(a, _ => 0 as bv8) + seq(b, _ => 0 as bv8) == seq(a + b, _ => 0 as bv8)
  {
  }

  /** More bytes that fit the block. */
  lemma HoldsMore(m: seq<bv8>, n: nat, hash: Hash, block: seq<bv8>, index: nat, s: seq<bv8>, block': seq<bv8>)
    requires Holds(m, n, hash, block, index) && index + |s| <= 64
    requires |block'| == 64 && block'[..index + |s|] == block[..index] + s
    ensures Holds(m + s, n, hash, block', index + |s|)
  {
    hide Fold;
    FoldPrefix(m, m + s, n);
    assert (m + s)[64 * n..] == m[64 * n..] + s;
  }

  /** A full block is processed. */
  lemma HoldsBlock(m: seq<bv8>, n: nat, hash: Hash, block: seq<bv8>)
    requires Holds(m, n, hash, block, 64)
    ensures Holds(m, n + 1, Compress(hash, block), block, 0)
  {
    hide Compress;
    assert m[64 * n..64 * (n + 1)] == m[64 * n..] == block[..64] == block;
  }

  /** The input that comes in parts. */
  function Joined(parts: seq<seq<bv8>>): seq<bv8> {
    if parts == [] then [] else Joined(parts[..|parts| - 1]) + parts[|parts| - 1]
  }

  lemma {:induction false} JoinedLonger(parts: seq<seq<bv8>>, k: nat)
    requires k <= |parts|
    ensures |Joined(parts[..k])| <= |Joined(parts)|
    decreases |parts|
  {
    if k < |parts| {
      JoinedLonger(parts[..|parts| - 1], k);
      assert parts[..|parts| - 1][..k] == parts[..k];
    } else {
      assert parts[..k] == parts;
    }
  }

  lemma JoinedNext(parts: seq<seq<bv8>>, k: nat)
    requires k < |parts|
    ensures Joined(parts[..k + 1]) == Joined(parts[..k]) + parts[k]
  {
    assert parts[..k + 1][..k] == parts[..k];
  }

  /** The length, from the two words that hold it. */
  lemma LengthWords(high: nat, low: nat)
    requires high < 0x1_0000_0000 && low < 0x1_0000_0000
    ensures Length64(high * 0x1_0000_0000 + low) ==
            [ByteOf(high, 0x1_000000), ByteOf(high, 0x1_0000), ByteOf(high, 0x1_00), ByteOf(high, 1),
             ByteOf(low, 0x1_000000), ByteOf(low, 0x1_0000), ByteOf(low, 0x1_00), ByteOf(low, 1)]
  {
    var l := high * 0x1_0000_0000 + low;
    HighByte(high, low, 0x1_000000);
    HighByte(high, low, 0x1_0000);
    HighByte(high, low, 0x1_00);
    HighByte(high, low, 1);
    LowByte(high, low, 0x1_000000, 1);
    LowByte(high, low, 0x1_0000, 0x1_00);
    LowByte(high, low, 0x1_00, 0x1_0000);
    LowByte(high, low, 1, 0x1_000000);
  }

  lemma HighByte(high: nat, low: nat, unit: nat)
    requires low < 0x1_0000_0000 && unit > 0
    ensures ByteOf(high * 0x1_0000_0000 + low, unit * 0x1_0000_0000) == ByteOf(high, unit)
  {
    var (q, r) := (high / unit, high % unit);
    assert high == unit * q + r;
    assert high * 0x1_0000_0000 + low == unit * 0x1_0000_0000 * q + (r * 0x1_0000_0000 + low);
    DivModUnique(unit * 0x1_0000_0000, q, r * 0x1_0000_0000 + low);
  }

  lemma LowByte(high: nat, low: nat, unit: nat, rest: nat)
    requires unit > 0 && unit * (256 * rest) == 0x1_0000_0000
    ensures ByteOf(high * 0x1_0000_0000 + low, unit) == ByteOf(low, unit)
  {
    var (q, r, k) := (low / unit, low % unit, rest * high);
    LowSplit(high, low, unit, rest);
    DivModUnique(unit, 256 * k + q, r);
    DivModUnique(unit, q, r);
    DivModUnique(256, k + q / 256, q % 256);
  }

  lemma LowSplit(high: nat, low: nat, unit: nat, rest: nat)
    requires unit > 0 && unit * (256 * rest) == 0x1_0000_0000
    ensures low == unit * (low / unit) + low % unit
    ensures high * 0x1_0000_0000 + low == unit * (256 * (rest * high) + low / unit) + low % unit
  {
    var q := low / unit;
    Regroup(unit, rest, high);
    assert unit * (256 * (rest * high) + q) == unit * (256 * (rest * high)) + unit * q;
  }

  lemma Regroup(unit: nat, rest: nat, high: nat)
    ensures high * (unit * (256 * rest)) == unit * (256 * (rest * high))
  {
  }
}
