/** The client's end of the connection, as the decoders of rectangles see it. */
module Connection {
  import opened Octets

  const RFB_BUFFER_SIZE: nat := 640 * 480

  /** The bytes that are still to come until the connection ends. */
  class Connection {
    var input: seq<byte>

    constructor (input: seq<byte>)
      ensures this.input == input
    {
      this.input := input;
    }

    /** `ReadFromRFBServer`: all of the bytes, or a failure. */
    method Read(n: nat) returns (ok: bool, bytes: seq<byte>)
      modifies this
      ensures ok == (n <= |old(input)|)
      ensures ok ==> bytes == old(input)[..n] && input == old(input)[n..]
    {
      if n <= |input| {
        ok, bytes, input := true, input[..n], input[n..];
      } else {
        ok, bytes, input := false, [], [];
      }
    }

    /** `ReadFromRFBServer` into the client's buffer. */
    method ReadBuffer(n: nat) returns (ok: bool, bytes: seq<byte>)
      requires n <= RFB_BUFFER_SIZE
      modifies this
      ensures ok == (n <= |old(input)|)
      ensures ok ==> bytes == old(input)[..n] && input == old(input)[n..]
    {
      ok, bytes := Read(n);
    }
  }
}
