/** The buffer in which the server gathers what it sends to a client. */
module UpdateBuffer {
  import opened Octets

  const UPDATE_BUF_SIZE: nat := 32768

  class Updates {
    const updateBuf: array<byte>
    var ublen: nat
    /** What has gone out on the socket, and how many more times sending succeeds. */
    var sent: seq<byte>
    var sends: nat

    ghost predicate Valid()
      reads this
    {
      updateBuf.Length == UPDATE_BUF_SIZE && ublen <= UPDATE_BUF_SIZE
    }

    /** All bytes for the client so far. */
    ghost function Out(): seq<byte>
      reads this, updateBuf
      requires Valid()
    {
      sent + updateBuf[..ublen]
    }

    constructor (sends: nat)
      ensures Valid() && fresh(updateBuf) && Out() == [] && ublen == 0 && sent == [] && this.sends == sends
    {
      updateBuf := new byte[UPDATE_BUF_SIZE];
      ublen, sent, this.sends := 0, [], sends;
    }

    /** `rfbSendUpdateBuf` */
    method Send() returns (ok: bool)
      requires Valid()
      modifies this
      ensures Valid() && Out() == old(Out())
      ensures ok == (old(sends) > 0) && sends <= old(sends) && (ok ==> ublen == 0)
    {
      if sends == 0 {
        return false;
      }
      sends := sends - 1;
      sent := sent + updateBuf[..ublen];
      ublen := 0;
      return true;
    }

    method Put(byte: byte)
      requires Valid() && ublen < UPDATE_BUF_SIZE
      modifies this`ublen, updateBuf
      ensures Valid() && Out() == old(Out()) + [byte] && ublen == old(ublen) + 1
    {
      updateBuf[ublen] := byte;
      ublen := ublen + 1;
    }

    method PutAll(bytes: seq<byte>)
      requires Valid() && ublen + |bytes| <= UPDATE_BUF_SIZE
      modifies this`ublen, updateBuf
      ensures Valid() && Out() == old(Out()) + bytes && ublen == old(ublen) + |bytes|
    {
      for i := 0 to |bytes|
        invariant Valid() && Out() == old(Out()) + bytes[..i] && ublen == old(ublen) + i
      {
        assert bytes[..i + 1] == bytes[..i] + [bytes[i]];
        Put(bytes[i]);
      }
    }

    /** Sets a flag in a byte that is still in the buffer. */
    method SetFlag(at: nat, flag: Flag, ghost before: seq<byte>, ghost head: byte, ghost after: seq<byte>)
      requires Valid() && at < ublen && Out() == before + [head] + after && |before| == |sent| + at
      modifies updateBuf
      ensures Valid() && Out() == before + [With(head, flag)] + after
    {
      assert updateBuf[at] == Out()[|before|];
      updateBuf[at] := With(updateBuf[at], flag);
      assert Out() == old(Out())[|before| := With(head, flag)];
    }

    /** Takes back what was put in after the first `start` bytes of the buffer. */
    method Rewind(start: nat, ghost before: seq<byte>)
      requires Valid() && start <= ublen && before <= Out() && |before| == |sent| + start
      modifies this`ublen
      ensures Valid() && Out() == before && ublen == start
    {
      assert Out()[..|before|] == sent + updateBuf[..start];
      ublen := start;
    }
  }
}
