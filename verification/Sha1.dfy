/** The streaming SHA-1 context. */
module Sha1 {
  import opened Sha1Spec
  import opened Integers

  datatype Code = Success | Null | InputTooLong | StateError | BadParam

  const TWO64: nat := 0x1_0000_0000_0000_0000

  /** `uint32_t` as a number. */
  type uint32 = x: nat | x < 0x1_0000_0000

  class SHA1Context {
    const Intermediate_Hash: array<bv32>
    var Length_High: uint32
    var Length_Low: uint32
    var Message_Block_Index: nat
    const Message_Block: array<bv8>
    var Computed: bool
    var Corrupted: Code

    /** The bytes absorbed since the last reset, and the final bits if the digest has been computed. */
    ghost var message: seq<bv8>
    ghost var tail: bv8
    ghost var extra: nat

    ghost predicate Shape()
      reads this
    {
      && Intermediate_Hash.Length == 5 && Message_Block.Length == 64
      && Intermediate_Hash as object != Message_Block as object
      && Intermediate_Hash as object != this as object && Message_Block as object != this as object
    }

    ghost function HashValue(): Hash
      reads this, Intermediate_Hash
      requires Shape()
    {
      Hash(Intermediate_Hash[0], Intermediate_Hash[1], Intermediate_Hash[2], Intermediate_Hash[3], Intermediate_Hash[4])
    }

    /** Until the length overflows the context holds the fold of the complete blocks, the bytes after them, and the length;
        once it has computed the digest it holds the hash. */
    ghost predicate Valid()
      reads this, Intermediate_Hash, Message_Block
    {
      && Shape()
      && (Computed ==> HashValue() == Sha1With(message, tail, extra))
      && (!Computed && Corrupted != InputTooLong ==> Absorbed())
    }

    ghost predicate Absorbed()
      reads this, Intermediate_Hash, Message_Block
      requires Shape()
    {
      && Length_High * TWO32 + Length_Low == 8 * |message|
      && Message_Block_Index < 64
      && Holds(message, |message| / 64, HashValue(), Message_Block[..], Message_Block_Index)
    }

    /** Input is accepted. */
    ghost predicate Open()
      reads this, Intermediate_Hash, Message_Block
    {
      Valid() && !Computed && Corrupted == Success
    }

    constructor ()
      ensures Shape() && fresh(Intermediate_Hash) && fresh(Message_Block)
    {
      Intermediate_Hash := new bv32[5];
      Message_Block := new bv8[64];
    }

    /** `SHA1Reset` */
    method Reset()
      requires Shape()
      modifies this, Intermediate_Hash
      ensures Valid() && !Computed && Corrupted == Success && message == []
    {
      hide Holds, Sha1With;
      Length_High, Length_Low := 0, 0;
      Message_Block_Index := 0;
      Intermediate_Hash[0] := 0x67452301;
      Intermediate_Hash[1] := 0xEFCDAB89;
      Intermediate_Hash[2] := 0x98BADCFE;
      Intermediate_Hash[3] := 0x10325476;
      Intermediate_Hash[4] := 0xC3D2E1F0;
      Computed := false;
      Corrupted := Success;
      message := [];
      HoldsNothing(Message_Block[..]);
    }

    /** `SHA1ProcessMessageBlock` */
    method ProcessMessageBlock()
      requires Shape()
      modifies this`Message_Block_Index, Intermediate_Hash
      ensures HashValue() == Compress(old(HashValue()), old(Message_Block[..])) && Message_Block_Index == 0
    {
      hide Schedule, Rounds, Plus;
      ghost var h := HashValue();
      var w := Words(Message_Block);
      var a, b, c, d, e := AllRounds(Intermediate_Hash[0], Intermediate_Hash[1], Intermediate_Hash[2],
                                     Intermediate_Hash[3], Intermediate_Hash[4], w);
      Intermediate_Hash[0] := Plus(Intermediate_Hash[0], a);
      Intermediate_Hash[1] := Plus(Intermediate_Hash[1], b);
      Intermediate_Hash[2] := Plus(Intermediate_Hash[2], c);
      Intermediate_Hash[3] := Plus(Intermediate_Hash[3], d);
      Intermediate_Hash[4] := Plus(Intermediate_Hash[4], e);
      Message_Block_Index := 0;
    }

    /** `SHA1AddLength` */
    method AddLength(length: nat) returns (r: Code)
      requires length < TWO32
      modifies this`Length_High, this`Length_Low, this`Corrupted
      ensures var total := old(Length_High * TWO32 + Length_Low) + length;
              && Length_High * TWO32 + Length_Low == (if total < TWO64 then total else total - TWO64)
              && Corrupted == (if total < TWO64 then old(Corrupted) else InputTooLong)
              && r == Corrupted
    {
      var addTemp := Length_Low;
      Length_Low := (Length_Low + length) % TWO32;
      if Length_Low < addTemp {
        Length_High := (Length_High + 1) % TWO32;
        if Length_High == 0 {
          Corrupted := InputTooLong;
        }
      }
      r := Corrupted;
    }

    /** One turn of the loop of `SHA1Input`. */
    method Absorb(b: bv8)
      requires Open() && 8 * (|message| + 1) <= TWO64
      modifies this, Intermediate_Hash, Message_Block
      ensures tail == old(tail) && extra == old(extra)
      ensures if 8 * (old(|message|) + 1) < TWO64 then Open() && message == old(message) + [b]
              else Valid() && !Computed && Corrupted == InputTooLong
    {
      hide Holds, Fold, Compress, Sha1With;
      ghost var (m, n, hash, block, index) := (message, |message| / 64, HashValue(), Message_Block[..], Message_Block_Index);
      HoldsIndex(m, n, hash, block, index);
      Message_Block[Message_Block_Index] := b;
      Message_Block_Index := Message_Block_Index + 1;
      assert HashValue() == hash && Message_Block[..index + 1] == block[..index] + [b];
      HoldsMore(m, n, hash, block, index, [b], Message_Block[..]);
      var r := AddLength(8);
      if r == Success && Message_Block_Index == 64 {
        HoldsBlock(m + [b], n, hash, Message_Block[..]);
        ProcessMessageBlock();
        HoldsCount(m + [b], n + 1, HashValue(), Message_Block[..], 0);
      } else if r == Success {
        HoldsCount(m + [b], n, HashValue(), Message_Block[..], Message_Block_Index);
      }
      if r == Success {
        message := m + [b];
      }
    }

    /** `SHA1Input` */
    method Input(message_array: seq<bv8>) returns (r: Code)
      requires Valid() && |message_array| < TWO32 && (Open() ==> 8 * (|message| + |message_array|) <= TWO64)
      modifies this, Intermediate_Hash, Message_Block
      ensures Valid() && Computed == old(Computed) && tail == old(tail) && extra == old(extra)
      ensures message == if r == Success then old(message) + message_array else old(message)
      ensures Corrupted == if message_array != [] && old(Computed) then StateError
                           else if old(Open()) && 8 * (old(|message|) + |message_array|) == TWO64 then InputTooLong
                           else old(Corrupted)
      ensures r == if message_array == [] then Success else Corrupted
    {
      hide Holds, Fold, Sha1With;
      if message_array == [] {
        AbsorbedLength();
        return Success;
      }
      if Computed {
        Corrupted := StateError;
        return Corrupted;
      }
      if Corrupted != Success {
        return Corrupted;
      }
      AbsorbedLength();
      ghost var was := message;
      for k := 0 to |message_array|
        invariant Valid() && !Computed && tail == old(tail) && extra == old(extra)
        invariant if 8 * (|was| + k) < TWO64 then Corrupted == Success && message == was + message_array[..k]
                  else Corrupted == InputTooLong
      {
        Absorb(message_array[k]);
      }
      if Corrupted != Success {
        message := was;
      }
      return Corrupted;
    }

    lemma AbsorbedLength()
      requires Valid()
      ensures Open() ==> 8 * |message| < TWO64
    {
      hide Holds, Sha1With;
    }

    /** `while(context->Message_Block_Index < end) context->Message_Block[context->Message_Block_Index++] = 0` */
    method FillZeros(end: nat, ghost p: seq<bv8>, ghost n: nat) returns (ghost p': seq<bv8>)
      requires Shape() && end <= 64 && Message_Block_Index <= end
      requires Holds(p, n, HashValue(), Message_Block[..], Message_Block_Index)
      modifies this`Message_Block_Index, Message_Block
      ensures Message_Block_Index == end && HashValue() == old(HashValue())
      ensures p' == p + seq(end - old(Message_Block_Index), _ => 0)
      ensures Holds(p', n, HashValue(), Message_Block[..], end)
    {
      hide Holds;
      p' := p;
      while Message_Block_Index < end
        invariant old(Message_Block_Index) <= Message_Block_Index <= end && HashValue() == old(HashValue())
        invariant p' == p + seq(Message_Block_Index - old(Message_Block_Index), _ => 0)
        invariant Holds(p', n, HashValue(), Message_Block[..], Message_Block_Index)
      {
        p' := PutByte(0, p', n);
      }
    }

    /** `context->Message_Block[context->Message_Block_Index++] = b` */
    method PutByte(b: bv8, ghost p: seq<bv8>, ghost n: nat) returns (ghost p': seq<bv8>)
      requires Shape() && Message_Block_Index < 64
      requires Holds(p, n, HashValue(), Message_Block[..], Message_Block_Index)
      modifies this`Message_Block_Index, Message_Block
      ensures Message_Block_Index == old(Message_Block_Index) + 1 && HashValue() == old(HashValue())
      ensures p' == p + [b] && Holds(p', n, HashValue(), Message_Block[..], Message_Block_Index)
    {
      hide Holds;
      ghost var (hash, block, index) := (HashValue(), Message_Block[..], Message_Block_Index);
      Message_Block[Message_Block_Index] := b;
      Message_Block_Index := Message_Block_Index + 1;
      assert HashValue() == hash && Message_Block[..index + 1] == block[..index] + [b];
      HoldsMore(p, n, hash, block, index, [b], Message_Block[..]);
      p' := p + [b];
    }

    /** The first part of `SHA1PadMessage`: everything before the length. */
    method PadTail(padByte: bv8) returns (ghost p: seq<bv8>, ghost n: nat)
      requires Shape() && Message_Block_Index < 64
      requires Holds(message, |message| / 64, HashValue(), Message_Block[..], Message_Block_Index)
      modifies this`Message_Block_Index, Intermediate_Hash, Message_Block
      ensures p == message + [padByte] + seq(Zeros(|message|), _ => 0)
      ensures Holds(p, n, HashValue(), Message_Block[..], 56)
    {
      hide Holds, Fold, Compress, Zeros;
      p, n := message, |message| / 64;
      HoldsIndex(p, n, HashValue(), Message_Block[..], Message_Block_Index);
      ZerosAre(n, Message_Block_Index);
      ZeroBytes(if Message_Block_Index >= 56 then 63 - Message_Block_Index else 0, 56);
      if Message_Block_Index >= 64 - 8 {
        p := PutByte(padByte, p, n);
        p := FillZeros(64, p, n);
        HoldsBlock(p, n, HashValue(), Message_Block[..]);
        n := n + 1;
        ProcessMessageBlock();
      } else {
        p := PutByte(padByte, p, n);
      }
      p := FillZeros(64 - 8, p, n);
    }

    /** `SHA1PadMessage` */
    method PadMessage(padByte: bv8, ghost bits: nat)
      requires Shape() && Message_Block_Index < 64
      requires Holds(message, |message| / 64, HashValue(), Message_Block[..], Message_Block_Index)
      requires Length_High * TWO32 + Length_Low == 8 * |message| + bits
      modifies this`Message_Block_Index, Intermediate_Hash, Message_Block
      ensures HashValue() == Sha1With(message, padByte, bits)
    {
      hide Holds, Fold, Compress, Zeros, Length64;
      ghost var p, n := PadTail(padByte);
      StoreLength(p, n);
      p := p + Length64(Length_High * TWO32 + Length_Low);
      HoldsBlock(p, n, HashValue(), Message_Block[..]);
      ProcessMessageBlock();
      HoldsEnd(p, n + 1, HashValue(), Message_Block[..]);
    }

    /** The eight stores of the length. */
    method StoreLength(ghost p: seq<bv8>, ghost n: nat)
      requires Shape() && Holds(p, n, HashValue(), Message_Block[..], 56)
      modifies Message_Block
      ensures HashValue() == old(HashValue())
      ensures Holds(p + Length64(Length_High * TWO32 + Length_Low), n, HashValue(), Message_Block[..], 64)
    {
      hide Holds, ByteOf, Length64;
      ghost var (hash, block) := (HashValue(), Message_Block[..]);
      ghost var length := Length64(Length_High * TWO32 + Length_Low);
      StoreWord(56, Length_High);
      StoreWord(60, Length_Low);
      LengthWords(Length_High, Length_Low);
      assert Message_Block[..64] == block[..56] + length;
      HoldsMore(p, n, hash, block, 56, length, Message_Block[..]);
    }

    /** Four of the stores. */
    method StoreWord(at: nat, word: nat)
      requires Shape() && at + 4 <= 64
      modifies Message_Block
      ensures Message_Block[..] == old(Message_Block[..at])
              + [ByteOf(word, 0x1_000000), ByteOf(word, 0x1_0000), ByteOf(word, 0x1_00), ByteOf(word, 1)] + old(Message_Block[at + 4..])
    {
      hide ByteOf;
      Message_Block[at] := ByteOf(word, 0x1_000000);
      Message_Block[at + 1] := ByteOf(word, 0x1_0000);
      Message_Block[at + 2] := ByteOf(word, 0x1_00);
      Message_Block[at + 3] := ByteOf(word, 1);
    }

    /** `SHA1Finalize` */
    method Finalize(padByte: bv8, ghost bits: nat)
      requires Shape() && Message_Block_Index < 64
      requires Holds(message, |message| / 64, HashValue(), Message_Block[..], Message_Block_Index)
      requires Length_High * TWO32 + Length_Low == 8 * |message| + bits
      modifies this, Intermediate_Hash, Message_Block
      ensures Valid() && Computed && Corrupted == old(Corrupted)
      ensures message == old(message) && tail == padByte && extra == bits
    {
      hide Holds, Sha1With;
      PadMessage(padByte, bits);
      for i := 0 to 64
        modifies Message_Block
      {
        Message_Block[i] := 0;
      }
      Length_High := 0;
      Length_Low := 0;
      Computed := true;
      tail, extra := padByte, bits;
    }

    /** `SHA1FinalBits` */
    method FinalBits(message_bits: bv8, length: nat) returns (r: Code)
      requires Valid()
      modifies this, Intermediate_Hash, Message_Block
      ensures Valid() && message == old(message)
      ensures if length == 0 then r == Success && Computed == old(Computed) && Corrupted == old(Corrupted)
              else if old(Corrupted) != Success then r == Corrupted == old(Corrupted) && Computed == old(Computed)
              else if old(Computed) then r == Corrupted == StateError && Computed
              else if length >= 8 then r == Corrupted == BadParam && !Computed
              else r == Corrupted == Success && Computed && tail == Tail(message_bits, length) && extra == length
      ensures !(old(Corrupted) == Success && !old(Computed) && 0 < length < 8) ==> tail == old(tail) && extra == old(extra)
    {
      hide Holds, Sha1With, Tail;
      if length == 0 {
        return Success;
      }
      if Corrupted != Success {
        return Corrupted;
      }
      if Computed {
        Corrupted := StateError;
        return Corrupted;
      }
      if length >= 8 {
        Corrupted := BadParam;
        return Corrupted;
      }
      r := AddLength(length);
      Finalize(Tail(message_bits, length), length);
      return Corrupted;
    }

    /** `SHA1Result` */
    method Result(digest: array<bv8>) returns (r: Code)
      requires Valid() && digest.Length == 20 && digest != Message_Block
      requires digest as object != Intermediate_Hash as object && digest as object != this as object
      modifies this, Intermediate_Hash, Message_Block, digest
      ensures Valid() && message == old(message) && Corrupted == old(Corrupted) && r == Corrupted
      ensures if old(Corrupted) != Success then Computed == old(Computed) && digest[..] == old(digest[..])
              else Computed && digest[..] == Digest(Sha1With(message, tail, extra))
      ensures if old(Corrupted) == Success && !old(Computed) then tail == 0x80 && extra == 0
              else tail == old(tail) && extra == old(extra)
    {
      hide Holds, Sha1With, Bytes;
      if Corrupted != Success {
        return Corrupted;
      }
      if !Computed {
        Finalize(0x80, 0);
      }
      PutDigest(Intermediate_Hash, digest);
      return Success;
    }
  }

  /** The loop that writes the digest. */
  method PutDigest(words: array<bv32>, digest: array<bv8>)
    requires words.Length == 5 && digest.Length == 20 && digest as object != words as object
    modifies digest
    ensures digest[..] == Digest(Hash(words[0], words[1], words[2], words[3], words[4]))
  {
    hide Bytes, Digest;
    ghost var h := Hash(words[0], words[1], words[2], words[3], words[4]);
    for i := 0 to 20
      invariant h == Hash(words[0], words[1], words[2], words[3], words[4])
      invariant forall k :: 0 <= k < i ==> digest[k] == Digest(h)[k]
    {
      DigestAt(h, i);
      digest[i] := Bytes(words[i / 4])[i % 4];
    }
  }

  /** A run of the context: the input in any division, at most seven last bits, and the digest. */
  method HashParts(parts: seq<seq<bv8>>, message_bits: bv8, length: nat, digest: array<bv8>)
    requires (forall k :: 0 <= k < |parts| ==> |parts[k]| < TWO32) && 8 * |Joined(parts)| < TWO64
    requires length < 8 && digest.Length == 20
    modifies digest
    ensures digest[..] == Digest(Sha1With(Joined(parts), if length == 0 then 0x80 else Tail(message_bits, length), length))
    ensures length == 0 ==> digest[..] == Sha1(Joined(parts))
  {
    hide Sha1With, Digest, Joined, Tail;
    var sha1 := new SHA1Context();
    sha1.Reset();
    JoinedNothing();
    assert parts[..0] == [];
    for k := 0 to |parts|
      invariant sha1.Open() && sha1.message == Joined(parts[..k])
      invariant fresh(sha1) && fresh(sha1.Intermediate_Hash) && fresh(sha1.Message_Block)
    {
      JoinedNext(parts, k);
      JoinedLonger(parts, k + 1);
      var r := sha1.Input(parts[k]);
    }
    assert parts[..|parts|] == parts;
    var r := sha1.FinalBits(message_bits, length);
    r := sha1.Result(digest);
  }

  lemma JoinedNothing()
    ensures Joined([]) == []
  {
  }

  /** What `hash_sha1` hands on: `SHA1Input` takes the length as an `unsigned` of 32 bits. */
  function HandedOn(inp: seq<bv8>): seq<bv8> { inp[..|inp| % TWO32] }

  /** It is the whole input just when the length fits. */
  lemma HandedOnWhole(inp: seq<bv8>)
    ensures HandedOn(inp) == inp <==> |inp| < TWO32
    ensures |inp| == TWO32 ==> HandedOn(inp) == []
  {
  }

  /** `hash_sha1` */
  method HashSha1(out: array<bv8>, inp: seq<bv8>) returns (ok: bool)
    requires out.Length == 20
    modifies out
    ensures ok && out[..] == Sha1(HandedOn(inp))
    ensures |inp| < TWO32 ==> out[..] == Sha1(inp)
  {
    hide Sha1With, Digest;
    var sha1 := new SHA1Context();
    sha1.Reset();
    HandedOnWhole(inp);
    var r := sha1.Input(HandedOn(inp));
    if r != Success {
      return false;
    }
    assert sha1.message == HandedOn(inp);
    r := sha1.Result(out);
    return r == Success;
  }

  /** The word sequence `W` of a block. */
  method Words(block: array<bv8>) returns (w: array<bv32>)
    requires block.Length == 64
    ensures fresh(w) && w[..] == Schedule(block[..], 80)
  {
    hide Word, Next;
    ghost var m: Block := block[..];
    w := new bv32[80];
    for t := 0 to 16
      invariant w[..t] == Schedule(m, t)
    {
      w[t] := Word(block[t * 4], block[t * 4 + 1], block[t * 4 + 2], block[t * 4 + 3]);
    }
    for t := 16 to 80
      invariant w[..t] == Schedule(m, t)
    {
      w[t] := Next(w[t - 3], w[t - 8], w[t - 14], w[t - 16]);
    }
  }

  /** The four loops of twenty rounds. */
  method AllRounds(a0: bv32, b0: bv32, c0: bv32, d0: bv32, e0: bv32, w: array<bv32>)
    returns (a: bv32, b: bv32, c: bv32, d: bv32, e: bv32)
    requires w.Length == 80
    ensures Hash(a, b, c, d, e) == Rounds(Hash(a0, b0, c0, d0, e0), w[..], 80)
  {
    hide Rotl, Ch, Parity, Maj, Temp;
    ghost var h := Hash(a0, b0, c0, d0, e0);
    a, b, c, d, e := a0, b0, c0, d0, e0;
    for t := 0 to 20
      invariant Hash(a, b, c, d, e) == Rounds(h, w[..], t)
    {
      var temp := Temp(a, Ch(b, c, d), e, w[t], 0x5A827999);
      a, b, c, d, e := temp, a, Rotl(b, 30), c, d;
    }
    for t := 20 to 40
      invariant Hash(a, b, c, d, e) == Rounds(h, w[..], t)
    {
      var temp := Temp(a, Parity(b, c, d), e, w[t], 0x6ED9EBA1);
      a, b, c, d, e := temp, a, Rotl(b, 30), c, d;
    }
    for t := 40 to 60
      invariant Hash(a, b, c, d, e) == Rounds(h, w[..], t)
    {
      var temp := Temp(a, Maj(b, c, d), e, w[t], 0x8F1BBCDC);
      a, b, c, d, e := temp, a, Rotl(b, 30), c, d;
    }
    for t := 60 to 80
      invariant Hash(a, b, c, d, e) == Rounds(h, w[..], t)
    {
      var temp := Temp(a, Parity(b, c, d), e, w[t], 0xCA62C1D6);
      a, b, c, d, e := temp, a, Rotl(b, 30), c, d;
    }
  }
}
