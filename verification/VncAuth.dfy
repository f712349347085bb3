/** The block modes in which VNC authentication uses the cipher. */
module VncAuth {
  import opened Integers
  import opened D3Des
  import opened DesRegister

  // ---------- Specifications ----------

  /** Block by block, as sections 6.1 of NIST SP 800-38A describes; a last partial block is not touched. */
  function Ecb(kn: seq<bv32>, s: seq<bv8>): (c: seq<bv8>)
    requires |kn| == 32
    ensures |c| == |s|
  {
    if |s| < 8 then s else Des(kn, s[..8]) + Ecb(kn, s[8..])
  }

  function Xor(a: Block, b: Block): Block {
    seq(8, i requires 0 <= i < 8 => a[i] ^ b[i])
  }

  /** Cipher block chaining, as section 6.2 of NIST SP 800-38A describes, with initial vector `iv`. */
  function Cbc(kn: seq<bv32>, iv: Block, s: seq<bv8>): (c: seq<bv8>)
    requires |kn| == 32 && |s| % 8 == 0
    ensures |c| == |s|
    decreases |s|
  {
    if s == [] then [] else
    var c := Des(kn, Xor(s[..8], iv));
    c + Cbc(kn, c, s[8..])
  }

  function Uncbc(kn: seq<bv32>, iv: Block, c: seq<bv8>): (s: seq<bv8>)
    requires |kn| == 32 && |c| % 8 == 0
    ensures |s| == |c|
    decreases |c|
  {
    if c == [] then [] else Xor(Des(kn, c[..8]), iv) + Uncbc(kn, c[..8], c[8..])
  }

  lemma Halves(c: Block, rest: seq<bv8>)
    ensures var s: seq<bv8> := c + rest; s[..8] == c && s[8..] == rest
  {
  }

  lemma XorTwice(a: Block, b: Block)
    ensures Xor(Xor(a, b), b) == a
  {
    forall i | 0 <= i < 8 ensures Xor(Xor(a, b), b)[i] == a[i] {
      XorByteTwice(a[i], b[i]);
    }
  }

  lemma XorByteTwice(x: bv8, y: bv8)
    ensures (x ^ y) ^ y == x
  {
  }

  lemma {:induction false} EcbInverse(e: seq<bv32>, d: seq<bv32>, s: seq<bv8>)
    requires |e| == |d| == 32 && Reversed(e, d)
    ensures Ecb(d, Ecb(e, s)) == s
  {
    hide Des, Reversed;
    if |s| >= 8 {
      var c := Des(e, s[..8]);
      var rest: seq<bv8> := Ecb(e, s[8..]);
      DesInverse(e, d, s[..8]);
      EcbInverse(e, d, s[8..]);
      Halves(c, rest);
    }
  }

  lemma {:induction false} CbcInverse(e: seq<bv32>, d: seq<bv32>, iv: Block, s: seq<bv8>)
    requires |e| == |d| == 32 && Reversed(e, d) && |s| % 8 == 0
    ensures Uncbc(d, iv, Cbc(e, iv, s)) == s
    decreases |s|
  {
    hide Des, Reversed, Xor;
    if s != [] {
      var c := Des(e, Xor(s[..8], iv));
      var rest: seq<bv8> := Cbc(e, c, s[8..]);
      DesInverse(e, d, Xor(s[..8], iv));
      XorTwice(s[..8], iv);
      CbcInverse(e, d, c, s[8..]);
      Halves(c, rest);
    }
  }

  lemma {:induction false} UncbcInverse(e: seq<bv32>, d: seq<bv32>, iv: Block, c: seq<bv8>)
    requires |e| == |d| == 32 && Reversed(d, e) && |c| % 8 == 0
    ensures Cbc(e, iv, Uncbc(d, iv, c)) == c
    decreases |c|
  {
    hide Des, Reversed, Xor;
    if c != [] {
      var p := Xor(Des(d, c[..8]), iv);
      var rest: seq<bv8> := Uncbc(d, c[..8], c[8..]);
      XorTwice(Des(d, c[..8]), iv);
      DesInverse(d, e, c[..8]);
      UncbcInverse(e, d, c[..8], c[8..]);
      Halves(p, rest);
    }
  }

  /** With the schedules of one key, both modes are bijections on the buffers of whole blocks, and decryption inverts them. */
  lemma ModesInvertible(key: Block, iv: Block, s: seq<bv8>)
    requires |s| % 8 == 0
    ensures var (e, d) := (Schedule(key, EN0), Schedule(key, DE1));
            && Ecb(d, Ecb(e, s)) == s && Ecb(e, Ecb(d, s)) == s
            && Uncbc(d, iv, Cbc(e, iv, s)) == s && Cbc(e, iv, Uncbc(d, iv, s)) == s
  {
    hide Schedule, Reversed, Ecb, Cbc, Uncbc;
    SchedulesReversed(key);
    var (e, d) := (Schedule(key, EN0), Schedule(key, DE1));
    EcbInverse(e, d, s);
    EcbInverse(d, e, s);
    CbcInverse(e, d, iv, s);
    UncbcInverse(e, d, iv, s);
  }

  // ---------- Block loops ----------

  lemma {:induction false} EcbAppend(kn: seq<bv32>, s: seq<bv8>, block: Block)
    requires |kn| == 32 && |s| % 8 == 0
    ensures Ecb(kn, s + block) == Ecb(kn, s) + Des(kn, block)
  {
    hide Des;
    if s == [] {
      assert s + block == block && (s + block)[..8] == block && (s + block)[8..] == [];
    } else {
      assert (s + block)[..8] == s[..8] && (s + block)[8..] == s[8..] + block;
      EcbAppend(kn, s[8..], block);
    }
  }

  /** The loop of `encrypt_rfbdes` and `decrypt_rfbdes`, with the key register loaded.  The output may be the input. */
  method CryptBlocks(reg: Register, out: array<bv8>, o: nat, inp: array<bv8>, i: nat, inLen: nat)
    requires reg.KnL.Length == 32 && reg.KnL as object != out as object
    requires i + inLen <= inp.Length && o + inLen <= out.Length && (out == inp ==> o == i)
    requires inLen <= INT_MAX
    modifies out
    ensures out[..] == old(out[..o] + Ecb(reg.KnL[..], inp[i..i + inLen / 8 * 8]) + out[o + inLen / 8 * 8..])
  {
    hide Des, Ecb, CryptedTo;
    ghost var (was, src, kn) := (out[..], inp[..], reg.KnL[..]);
    CryptedStart(kn, was, src, o, i);
    for k := 0 to inLen / 8
      invariant reg.KnL[..] == kn
      invariant out != inp ==> inp[..] == src
      invariant CryptedTo(kn, was, src, out[..], o, i, k)
    {
      CryptBlock(reg, out, o, inp, i, k, inLen, was, src);
    }
    CryptedEnd(kn, was, src, out[..], o, i, inLen / 8);
  }

  /** One pass of that loop. */
  method CryptBlock(reg: Register, out: array<bv8>, o: nat, inp: array<bv8>, i: nat, k: nat, inLen: nat,
                    ghost was: seq<bv8>, ghost src: seq<bv8>)
    requires reg.KnL.Length == 32 && reg.KnL as object != out as object && k < inLen / 8
    requires i + inLen <= |src| && o + inLen <= |was|
    requires if out == inp then was == src && o == i else inp[..] == src
    requires CryptedTo(reg.KnL[..], was, src, out[..], o, i, k)
    modifies out
    ensures reg.KnL[..] == old(reg.KnL[..]) && (out != inp ==> inp[..] == src)
    ensures CryptedTo(reg.KnL[..], was, src, out[..], o, i, k + 1)
  {
    hide Des, Ecb, CryptedTo;
    CryptedStep(reg.KnL[..], was, src, out[..], inp[..], o, i, k, inLen, out == inp);
    DesBlock(reg, inp, i + 8 * k, out, o + 8 * k);
  }

  ghost predicate CryptedTo(kn: seq<bv32>, was: seq<bv8>, src: seq<bv8>, now: seq<bv8>, o: nat, i: nat, k: nat)
    requires |kn| == 32
  {
    i + 8 * k <= |src| && o + 8 * k <= |was|
    && now == was[..o] + Ecb(kn, src[i..i + 8 * k]) + was[o + 8 * k..]
  }

  lemma CryptedStart(kn: seq<bv32>, was: seq<bv8>, src: seq<bv8>, o: nat, i: nat)
    requires |kn| == 32 && i <= |src| && o <= |was|
    ensures CryptedTo(kn, was, src, was, o, i, 0)
  {
  }

  lemma CryptedEnd(kn: seq<bv32>, was: seq<bv8>, src: seq<bv8>, now: seq<bv8>, o: nat, i: nat, k: nat)
    requires |kn| == 32 && CryptedTo(kn, was, src, now, o, i, k)
    ensures i + 8 * k <= |src| && o + 8 * k <= |was| && now == was[..o] + Ecb(kn, src[i..i + 8 * k]) + was[o + 8 * k..]
  {
  }

  /** What one more block makes of the buffer. */
  lemma CryptedStep(kn: seq<bv32>, was: seq<bv8>, src: seq<bv8>, now: seq<bv8>, inp: seq<bv8>, o: nat, i: nat, k: nat,
                    inLen: nat, inPlace: bool)
    requires |kn| == 32 && k < inLen / 8 && i + inLen <= |src| && o + inLen <= |was|
    requires CryptedTo(kn, was, src, now, o, i, k)
    requires if inPlace then inp == now && was == src && o == i else inp == src
    ensures |now| == |was| && |inp| == |src| && i + 8 * k + 8 <= |inp| && o + 8 * k + 8 <= |now|
    ensures CryptedTo(kn, was, src, now[..o + 8 * k] + Des(kn, inp[i + 8 * k..i + 8 * k + 8]) + now[o + 8 * k + 8..], o, i, k + 1)
  {
    hide Des, Ecb;
    var (a, b) := (i + 8 * k, o + 8 * k);
    assert a + 8 <= |src| && b + 8 <= |was|;
    BlockReplaced(kn, was, src, now, o, i, a, b);
    assert i + 8 * (k + 1) == a + 8 && o + 8 * (k + 1) == b + 8;
  }

  lemma BlockReplaced(kn: seq<bv32>, was: seq<bv8>, src: seq<bv8>, now: seq<bv8>, o: nat, i: nat, a: nat, b: nat)
    requires |kn| == 32 && i <= a && a + 8 <= |src| && b + 8 <= |was| && b - o == a - i && (a - i) % 8 == 0
    requires now == was[..o] + Ecb(kn, src[i..a]) + was[b..]
    ensures |now| == |was| && now[b..b + 8] == was[b..b + 8]
    ensures now[..b] + Des(kn, src[a..a + 8]) + now[b + 8..] == was[..o] + Ecb(kn, src[i..a + 8]) + was[b + 8..]
  {
    hide Des, Ecb;
    var block: Block := src[a..a + 8];
    EcbLength(kn, src[i..a]);
    ReplaceBlock(was, o, Ecb(kn, src[i..a]), Des(kn, block));
    NextSlice(src, i, a);
    EcbAppend(kn, src[i..a], block);
  }

  lemma NextSlice(s: seq<bv8>, i: nat, a: nat)
    requires i <= a && a + 8 <= |s|
    ensures s[i..a] + s[a..a + 8] == s[i..a + 8] && |s[i..a]| == a - i
  {
  }

  lemma EcbLength(kn: seq<bv32>, s: seq<bv8>)
    requires |kn| == 32
    ensures |s| % 8 == 0 ==> |Ecb(kn, s)| == |s|
  {
  }

  /** A buffer whose bytes from `o` on begin with `e`, when one more block behind them is replaced. */
  lemma ReplaceBlock(was: seq<bv8>, o: nat, e: seq<bv8>, d: seq<bv8>)
    requires o + |e| + 8 <= |was| && |d| == 8
    ensures var (b, now) := (o + |e|, was[..o] + e + was[o + |e|..]);
            && |now| == |was| && now[b..b + 8] == was[b..b + 8]
            && now[..b] + d + now[b + 8..] == was[..o] + (e + d) + was[b + 8..]
  {
    var (b, now) := (o + |e|, was[..o] + e + was[o + |e|..]);
    assert now[..b] == was[..o] + e;
    assert now[b..] == was[b..];
    assert now[b + 8..] == now[b..][8..] == was[b..][8..] == was[b + 8..];
    assert (was[..o] + e) + d == was[..o] + (e + d);
  }

  /** `encrypt_rfbdes` and `decrypt_rfbdes` */
  method Crypt(reg: Register, edf: Mode, out: array<bv8>, o: nat, key: Block, inp: array<bv8>, i: nat, inLen: nat)
    returns (outLen: nat)
    requires reg.KnL.Length == 32 && reg.KnL as object != out as object && reg.KnL as object != inp as object
    requires i + inLen <= inp.Length && o + inLen <= out.Length && (out == inp ==> o == i)
    requires inLen <= INT_MAX
    modifies out, reg.KnL
    ensures reg.KnL[..] == Schedule(key, edf) && outLen == inLen
    ensures out[..] == old(out[..o]) + Ecb(Schedule(key, edf), old(inp[i..i + inLen / 8 * 8])) + old(out[o + inLen / 8 * 8..])
  {
    hide Ecb, Schedule;
    ghost var (was, src) := (out[..], inp[..]);
    reg.DesKey(key, edf);
    assert out[..] == was && inp[..] == src;
    CryptBlocks(reg, out, o, inp, i, inLen);
    assert reg.KnL[..] == Schedule(key, edf);
    outLen := inLen;
  }

  // ---------- Cipher block chaining, in place ----------

  /** The block that the next block of a chain is combined with. */
  function Last(iv: Block, c: seq<bv8>): Block
    requires |c| % 8 == 0
  {
    if c == [] then iv else c[|c| - 8..]
  }

  lemma {:induction false} CbcAppend(kn: seq<bv32>, iv: Block, s: seq<bv8>, block: Block)
    requires |kn| == 32 && |s| % 8 == 0
    ensures Cbc(kn, iv, s + block) == Cbc(kn, iv, s) + Des(kn, Xor(block, Last(iv, Cbc(kn, iv, s))))
    decreases |s|
  {
    hide Des, Xor;
    if s == [] {
      assert s + block == block && (s + block)[..8] == block && (s + block)[8..] == [];
      CbcNone(kn, Des(kn, Xor(block, iv)));
    } else {
      var c := Des(kn, Xor(s[..8], iv));
      assert (s + block)[..8] == s[..8] && (s + block)[8..] == s[8..] + block;
      CbcAppend(kn, c, s[8..], block);
      LastOfTail(iv, c, Cbc(kn, c, s[8..]));
    }
  }

  lemma CbcNone(kn: seq<bv32>, iv: Block)
    requires |kn| == 32
    ensures Cbc(kn, iv, []) == []
  {
  }

  lemma LastOfTail(iv: Block, c: Block, rest: seq<bv8>)
    requires |rest| % 8 == 0
    ensures var s: seq<bv8> := c + rest; |s| % 8 == 0 && Last(iv, s) == Last(c, rest)
  {
  }

  /** `where[o + j] ^= block[j]` for eight bytes; `block` is the key or the block before. */
  method XorInto(buf: array<bv8>, o: nat, block: Block)
    requires o + 8 <= buf.Length
    modifies buf
    ensures buf[..] == old(buf[..o]) + Xor(old(buf[o..o + 8]), block) + old(buf[o + 8..])
  {
    ghost var was := buf[..];
    for j := 0 to 8
      invariant forall k: nat | k < buf.Length :: buf[k] == if o <= k < o + j then was[k] ^ block[k - o] else was[k]
    {
      buf[o + j] := buf[o + j] ^ block[j];
    }
    assert buf[o..o + 8] == Xor(was[o..o + 8], block);
  }

  /** The first `i` bytes have gone into the chain. */
  ghost predicate Chained(key: Block, was: seq<bv8>, now: seq<bv8>, i: nat) {
    i % 8 == 0 && i <= |was| == |now| && now == Cbc(Schedule(key, EN0), key, was[..i]) + was[i..]
  }

  /** A block of a buffer has been combined with another one. */
  ghost predicate Mixed(before: seq<bv8>, mixed: seq<bv8>, i: nat, block: Block) {
    && i + 8 <= |before| == |mixed|
    && mixed == before[..i] + Xor(before[i..i + 8], block) + before[i + 8..]
  }

  /** A buffer with the block at `i` enciphered. */
  ghost function Enciphered(kn: seq<bv32>, s: seq<bv8>, i: nat): seq<bv8>
    requires |kn| == 32 && i + 8 <= |s|
  {
    s[..i] + Ecb(kn, s[i..i + 8]) + s[i + 8..]
  }

  lemma ChainStart(key: Block, was: seq<bv8>)
    ensures Chained(key, was, was, 0)
  {
    hide Schedule;
    CbcNone(Schedule(key, EN0), key);
  }

  lemma ChainNext(key: Block, was: seq<bv8>, before: seq<bv8>, mixed: seq<bv8>, i: nat, block: Block)
    requires Chained(key, was, before, i) && Mixed(before, mixed, i, block)
    requires i % 8 == 0 && i + 8 <= |was| && (i == 0 || i >= 8) && block == if i == 0 then key else before[i - 8..i]
    ensures Chained(key, was, Enciphered(Schedule(key, EN0), mixed, i), i + 8)
  {
    hide Cbc, Xor, Schedule, Ecb;
    CbcBlock(Schedule(key, EN0), key, was, before, mixed, i, block);
  }

  lemma ChainEnd(key: Block, was: seq<bv8>, now: seq<bv8>, i: nat)
    requires Chained(key, was, now, i)
    ensures i % 8 == 0 && i <= |was| && now == Cbc(Schedule(key, EN0), key, was[..i]) + was[i..]
  {
    hide Cbc, Schedule;
  }

  /** One block of the chain: `block` is the key at the start, and the enciphered block before it later. */
  method ChainBlock(reg: Register, buf: array<bv8>, i: nat, block: Block, key: Block, ghost was: seq<bv8>)
    requires reg.KnL.Length == 32 && reg.KnL as object != buf as object
    requires i % 8 == 0 && i + 8 <= |was| == buf.Length
    requires block == if i == 0 then key else buf[i - 8..i]
    requires Chained(key, was, buf[..], i)
    modifies buf, reg.KnL
    ensures Chained(key, was, buf[..], i + 8)
  {
    hide Chained, Xor, Schedule, Ecb;
    ghost var before := buf[..];
    XorInto(buf, i, block);
    assert Mixed(before, buf[..], i, block);
    ChainNext(key, was, before, buf[..], i, block);
    var outLen := Crypt(reg, EN0, buf, i, key, buf, i, 8);
  }

  /** `rfbEncryptBytes2`: the chain of whole blocks that the loop visits, at least one. */
  method EncryptBytes2(reg: Register, buf: array<bv8>, length: int, key: Block)
    requires reg.KnL.Length == 32 && reg.KnL as object != buf as object
    requires buf.Length >= Visited(length) && length <= INT_MAX - 7
    modifies buf, reg.KnL
    ensures buf[..] == Cbc(Schedule(key, EN0), key, old(buf[..Visited(length)])) + old(buf[Visited(length)..])
  {
    hide Cbc, Chained, Schedule, Visited;
    ghost var was := buf[..];
    ChainStart(key, was);
    ChainBlock(reg, buf, 0, key, key, was);
    var i := 8;
    while i < length
      invariant 8 <= i && i % 8 == 0 && i <= Visited(length)
      invariant Chained(key, was, buf[..], i)
    {
      NextVisited(i, length);
      ChainBlock(reg, buf, i, buf[i - 8..i], key, was);
      i := i + 8;
    }
    NextVisited(i, length);
    ChainEnd(key, was, buf[..], i);
  }

  /** The block that the loop visits next, unless it has visited them all. */
  lemma NextVisited(i: nat, length: int)
    requires i % 8 == 0 && 8 <= i <= Visited(length)
    ensures if i < length then i + 8 <= Visited(length) && (i + 8) % 8 == 0 else i == Visited(length)
  {
    hide Visited;
    var (a, b) := (i / 8, Visited(length) / 8);
    assert i == 8 * a && Visited(length) == 8 * b;
  }

  /** The number of bytes in the blocks that the loop visits: `length`, rounded up to whole blocks, but at least one. */
  function Visited(length: int): (n: nat)
    ensures n % 8 == 0 && n >= 8 && n >= length && (n - 8 < length || n == 8)
  {
    if length <= 8 then 8 else (length + 7) / 8 * 8
  }

  /** Combining a block with the one before it and enciphering it extends the chain. */
  lemma CbcBlock(kn: seq<bv32>, iv: Block, was: seq<bv8>, before: seq<bv8>, mixed: seq<bv8>, i: nat, last: Block)
    requires |kn| == 32 && i % 8 == 0 && (i == 0 || i >= 8) && i + 8 <= |was| && Mixed(before, mixed, i, last)
    requires before == Cbc(kn, iv, was[..i]) + was[i..]
    requires last == if i == 0 then iv else before[i - 8..i]
    ensures (i + 8) % 8 == 0 && Enciphered(kn, mixed, i) == Cbc(kn, iv, was[..i + 8]) + was[i + 8..]
  {
    hide Des, Xor, Cbc;
    var block: Block := was[i..i + 8];
    var c := Cbc(kn, iv, was[..i]);
    CbcLength(kn, iv, was[..i]);
    Middle(c, was, i);
    assert was[..i + 8] == was[..i] + block;
    CbcAppend(kn, iv, was[..i], block);
    assert i > 0 ==> before[i - 8..i] == c[|c| - 8..];
    var x := Xor(block, Last(iv, c));
    assert mixed[i..i + 8] == x;
    EcbOne(kn, x);
  }

  lemma CbcLength(kn: seq<bv32>, iv: Block, s: seq<bv8>)
    requires |kn| == 32 && |s| % 8 == 0
    ensures |Cbc(kn, iv, s)| == |s|
  {
  }

  lemma Middle(c: seq<bv8>, was: seq<bv8>, i: nat)
    requires |c| == i && i + 8 <= |was|
    ensures (c + was[i..])[..i] == c && (c + was[i..])[i..i + 8] == was[i..i + 8] && (c + was[i..])[i + 8..] == was[i + 8..]
  {
  }

  lemma EcbOne(kn: seq<bv32>, block: Block)
    requires |kn| == 32
    ensures Ecb(kn, block) == Des(kn, block)
  {
    hide Des;
    assert block[..8] == block && block[8..] == [];
  }

  // ---------- Passwords ----------

  /** A C string, without its terminator, padded with nulls or cut to eight bytes. */
  function Padded(passwd: seq<bv8>): (key: Block)
    ensures forall i | 0 <= i < 8 :: key[i] == if i < |passwd| then passwd[i] else 0
  {
    seq(8, i requires 0 <= i < 8 => if i < |passwd| then passwd[i] else 0)
  }

  /** The C string at the start of a buffer. */
  function CString(s: seq<bv8>): (t: seq<bv8>)
    ensures t <= s
  {
    if s == [] || s[0] == 0 then [] else
    var t := CString(s[1..]);
    assert [s[0]] + t <= [s[0]] + s[1..] == s;
    [s[0]] + t
  }

  const FIXED_KEY: Block := [23, 82, 107, 6, 35, 78, 88, 7]

  /** What `rfbEncryptAndStorePasswd` writes to the file. */
  method StoredPassword(reg: Register, passwd: seq<bv8>) returns (encrypted: array<bv8>)
    requires reg.KnL.Length == 32
    modifies reg.KnL
    ensures fresh(encrypted) && encrypted[..] == Ecb(Schedule(FIXED_KEY, EN0), Padded(passwd))
  {
    hide Ecb, Schedule;
    encrypted := new bv8[8];
    PadInto(passwd, encrypted);
    assert encrypted[0..8] == Padded(passwd);
    var outLen := Crypt(reg, EN0, encrypted, 0, FIXED_KEY, encrypted, 0, 8);
  }

  /** What `rfbDecryptPasswdFromFile` returns for the eight bytes of a file, as a C string. */
  method LoadedPassword(reg: Register, file: Block) returns (passwd: array<bv8>)
    requires reg.KnL.Length == 32
    modifies reg.KnL
    ensures fresh(passwd) && passwd[..] == Ecb(Schedule(FIXED_KEY, DE1), file) + [0]
  {
    hide Ecb, Schedule;
    passwd := new bv8[9];
    for i := 0 to 8
      invariant passwd[..i] == file[..i]
    {
      passwd[i] := file[i];
    }
    assert passwd[0..8] == file;
    ghost var was := passwd[..];
    var outLen := Crypt(reg, DE1, passwd, 0, FIXED_KEY, passwd, 0, 8);
    FirstEight(was, Ecb(Schedule(FIXED_KEY, DE1), file));
    passwd[8] := 0;
  }

  lemma FirstEight(was: seq<bv8>, e: seq<bv8>)
    requires |was| == 9 && |e| == 8
    ensures (was[..0] + e + was[8..])[8 := 0] == e + [0]
  {
  }

  method PadInto(passwd: seq<bv8>, key: array<bv8>)
    requires key.Length == 8
    modifies key
    ensures key[..] == Padded(passwd)
  {
    for i := 0 to 8
      invariant forall k | 0 <= k < i :: key[k] == if k < |passwd| then passwd[k] else 0
    {
      if i < |passwd| {
        key[i] := passwd[i];
      } else {
        key[i] := 0;
      }
    }
  }

  /** `rfbEncryptBytes`: a challenge of 16 bytes, under the password. */
  method EncryptBytes(reg: Register, bytes: array<bv8>, passwd: seq<bv8>)
    requires reg.KnL.Length == 32 && reg.KnL as object != bytes as object && bytes.Length == 16
    modifies bytes, reg.KnL
    ensures bytes[..] == Ecb(Schedule(Padded(passwd), EN0), old(bytes[..]))
  {
    hide Ecb, Schedule;
    var key := new bv8[8];
    ghost var was := bytes[..];
    PadInto(passwd, key);
    assert bytes[..] == was;
    ghost var passKey: Block := key[..];
    var outLen := Crypt(reg, EN0, bytes, 0, key[..], bytes, 0, 16);
    WholeBuffer(was, Ecb(Schedule(passKey, EN0), was));
  }

  lemma WholeBuffer(was: seq<bv8>, now: seq<bv8>)
    requires |was| == 16
    ensures was[..0] + now + was[16..] == now && was[0..16] == was
  {
  }

  /** A stored password is recovered up to its eighth byte. */
  lemma PasswordRecovered(passwd: seq<bv8>)
    requires forall i | 0 <= i < |passwd| :: passwd[i] != 0
    ensures var stored := Ecb(Schedule(FIXED_KEY, EN0), Padded(passwd));
            CString(Ecb(Schedule(FIXED_KEY, DE1), stored) + [0]) == if |passwd| <= 8 then passwd else passwd[..8]
  {
    hide Ecb, Schedule, Reversed;
    SchedulesReversed(FIXED_KEY);
    EcbInverse(Schedule(FIXED_KEY, EN0), Schedule(FIXED_KEY, DE1), Padded(passwd));
    var kept := if |passwd| <= 8 then passwd else passwd[..8];
    var zeros := seq(9 - |kept|, i => 0 as bv8);
    assert Padded(passwd) + [0] == kept + zeros;
    CStringOf(kept, zeros);
  }

  lemma {:induction false} CStringOf(s: seq<bv8>, zeros: seq<bv8>)
    requires zeros != [] && zeros[0] == 0 && forall i | 0 <= i < |s| :: s[i] != 0
    ensures CString(s + zeros) == s
  {
    if s != [] {
      assert (s + zeros)[1..] == s[1..] + zeros;
      CStringOf(s[1..], zeros);
    }
  }
}
