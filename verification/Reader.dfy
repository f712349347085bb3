/** The buffered exact reader of the client, and the SASL layer that can lie below it. */
module Reader {
  import opened Octets

  const RFB_BUF_SIZE: nat := 8192

  /** What one `read` on the socket meets; with SASL, what one `read` and the `sasl_decode` of its bytes yield.
      `errno` is not set by a failing `sasl_decode`: it is whatever an earlier call left.
      A list of events is one schedule of the network, after which the peer has closed. */
  datatype Event = Arrived(bytes: seq<bv8>) | WouldBlock | Closed | Failed | Undecodable(errnoAgain: bool)

  /** The bytes that a schedule brings. */
  function Bytes(events: seq<Event>): seq<bv8> {
    if events == [] then []
    else (if events[0].Arrived? then events[0].bytes else []) + Bytes(events[1..])
  }

  class Client {
    const buf: array<bv8>
    var bufoutptr: nat
    var buffered: nat
    var readTimeout: nat
    /** `saslconn`, and the state of `ReadFromSASL`: the decoded bytes that are left, if any. */
    var saslconn: bool
    var saslDecoded: seq<bv8>
    var saslDecodedOffset: nat
    var saslDecodedSet: bool
    /** `errno == EWOULDBLOCK || errno == EAGAIN` */
    var errnoAgain: bool
    var events: seq<Event>

    ghost predicate Valid()
      reads this
    {
      && buf.Length == RFB_BUF_SIZE && bufoutptr + buffered <= RFB_BUF_SIZE
      && (if saslDecodedSet then saslconn && saslDecodedOffset < |saslDecoded| else saslDecodedOffset == 0 && saslDecoded == [])
    }

    /** The bytes that have not entered the buffer. */
    ghost function Incoming(): seq<bv8>
      reads this`events, this`saslDecoded, this`saslDecodedOffset
      requires saslDecodedOffset <= |saslDecoded|
    {
      saslDecoded[saslDecodedOffset..] + Bytes(events)
    }

    /** The bytes that the caller has yet to see. */
    ghost function Pending(): seq<bv8>
      reads this, buf
      requires Valid()
    {
      buf[bufoutptr..bufoutptr + buffered] + Incoming()
    }

    /** How many decoded bytes lie in the SASL layer. */
    ghost function Left(): nat
      reads this`saslDecoded, this`saslDecodedOffset
      requires saslDecodedOffset <= |saslDecoded|
    {
      |saslDecoded| - saslDecodedOffset
    }

    constructor (readTimeout: nat, saslconn: bool, events: seq<Event>)
      ensures Valid() && fresh(buf) && Pending() == Bytes(events)
    {
      buf := new bv8[RFB_BUF_SIZE];
      bufoutptr, buffered := 0, 0;
      this.readTimeout, this.saslconn, this.events := readTimeout, saslconn, events;
      saslDecoded, saslDecodedOffset, saslDecodedSet := [], 0, false;
      errnoAgain := false;
    }

    /** `read`: the number of bytes received, 0 if the peer has closed, or -1. */
    method ReadSocket(dst: array<bv8>, at: nat, n: nat) returns (i: int)
      requires Valid() && !saslconn && at + n <= dst.Length && n > 0
      modifies this`events, this`errnoAgain, dst
      ensures Took(i, errnoAgain, n, false, Left(), events, old(Left()), old(events))
      ensures Moved(i, old(Incoming()), Incoming(), at, old(dst[..]), dst[..])
    {
      hide Bytes, Took, Moved;
      ghost var was, incoming, into := events, Incoming(), dst[..];
      if events == [] {
        NothingThere(false, errnoAgain, n, 0);
        MovedNone(incoming, at, into);
        return 0;
      }
      var e := events[0];
      var bytes := [];
      if e.Arrived? && |e.bytes| > n {
        bytes := e.bytes[..n];
        events := [Arrived(e.bytes[n..])] + events[1..];
      } else {
        bytes := if e.Arrived? then e.bytes else [];
        events := events[1..];
      }
      if e.WouldBlock? || e.Failed? || e.Undecodable? {
        errnoAgain := e.WouldBlock? || (e.Undecodable? && e.errnoAgain);
      }
      i := if e.Arrived? then |bytes| else if e.Closed? then 0 else -1;
      BytesSplit(was, bytes, events);
      SocketTook(i, errnoAgain, n, bytes, events, was);
      Copy(bytes, dst, at);
      BytesMoved(i, bytes, Bytes(events), at, into);
      assert Incoming() == Bytes(events) && incoming == bytes + Bytes(events);
    }

    /** The first half of `ReadFromSASL`: one read of the socket, decoded as a whole. */
    method Decode() returns (err: int)
      requires Valid() && saslconn && !saslDecodedSet
      modifies this`events, this`errnoAgain, this`saslDecoded, this`saslDecodedSet
      ensures err <= 0 && saslDecodedOffset <= |saslDecoded| && Incoming() == old(Incoming())
      ensures err == 0 ==> saslDecodedSet && old(events) == [Arrived(saslDecoded)] + events
      ensures err < 0 ==> !saslDecodedSet && saslDecoded == []
      ensures err < 0 && old(events) == [] ==> events == [] && !errnoAgain
      ensures err < 0 && old(events) != [] ==>
          && events == old(events)[1..] && !old(events)[0].Arrived?
          && errnoAgain == (old(events)[0].WouldBlock? || (old(events)[0].Undecodable? && old(events)[0].errnoAgain))
    {
      hide Bytes;
      ghost var was := events;
      if events == [] {
        errnoAgain := false;
        return -5;
      }
      var e := events[0];
      events := events[1..];
      BytesSplit(was, if e.Arrived? then e.bytes else [], events);
      if !e.Arrived? {
        errnoAgain := e.WouldBlock? || (e.Undecodable? && e.errnoAgain);
        return if e.Undecodable? then -22 else if e.Closed? then -5 else -1;
      }
      saslDecoded, saslDecodedSet := e.bytes, true;
      return 0;
    }

    /** `ReadFromSASL`: as `read`, out of the decoded bytes that are left, or else of the next ones. */
    method ReadFromSASL(dst: array<bv8>, at: nat, n: nat) returns (i: int)
      requires Valid() && saslconn && at + n <= dst.Length && n > 0
      modifies this`events, this`errnoAgain, this`saslDecoded, this`saslDecodedOffset, this`saslDecodedSet, dst
      ensures Valid()
      ensures Took(i, errnoAgain, n, true, Left(), events, old(Left()), old(events))
      ensures Moved(i, old(Incoming()), Incoming(), at, old(dst[..]), dst[..])
    {
      hide Bytes, Took, Moved, Incoming;
      ghost var incoming, wasLeft, was, into := Incoming(), Left(), events, dst[..];
      if !saslDecodedSet {
        var err := Decode();
        if err < 0 {
          NothingTaken(err, errnoAgain, n, events, was);
          Unmoved(err, incoming, at, into);
          return err;
        }
        assert was[1..] == events;
      }
      ghost var left := |saslDecoded| - saslDecodedOffset;
      var want := CopyDecoded(dst, at, n);
      SaslTook(want, errnoAgain, n, left, events, wasLeft, was);
      if want == 0 {
        errnoAgain := true;
        return -11;
      }
      return want;
    }

    /** The second half: bytes out of what lies decoded. */
    method CopyDecoded(dst: array<bv8>, at: nat, n: nat) returns (want: nat)
      requires buf.Length == RFB_BUF_SIZE && bufoutptr + buffered <= RFB_BUF_SIZE && saslconn
      requires saslDecodedSet && saslDecodedOffset <= |saslDecoded| && at + n <= dst.Length && n > 0
      modifies this`saslDecoded, this`saslDecodedOffset, this`saslDecodedSet, dst
      ensures Valid()
      ensures want == (if old(Left()) > n then n else old(Left())) && Left() == old(Left()) - want
      ensures Moved(if want == 0 then -11 else want, old(Incoming()), Incoming(), at, old(dst[..]), dst[..])
    {
      hide Bytes, Moved;
      ghost var into, left := dst[..], saslDecoded[saslDecodedOffset..];
      want := |saslDecoded| - saslDecodedOffset;
      if want > n {
        want := n;
      }
      var part := saslDecoded[saslDecodedOffset..saslDecodedOffset + want];
      assert part == left[..want];
      Copy(part, dst, at);
      saslDecodedOffset := saslDecodedOffset + want;
      Taken(left, Bytes(events), want, at, into);
      assert saslDecoded[saslDecodedOffset..] == left[want..];
      if saslDecodedOffset == |saslDecoded| {
        saslDecoded, saslDecodedOffset, saslDecodedSet := [], 0, false;
      }
      assert Incoming() == left[want..] + Bytes(events);
    }

    /** The choice of the source of bytes that both loops of `ReadFromRFBServer` make. */
    method Receive(dst: array<bv8>, at: nat, n: nat) returns (i: int)
      requires Valid() && at + n <= dst.Length && n > 0
      modifies this`events, this`errnoAgain, this`saslDecoded, this`saslDecodedOffset, this`saslDecodedSet, dst
      ensures Valid()
      ensures Took(i, errnoAgain, n, saslconn, Left(), events, old(Left()), old(events))
      ensures Moved(i, old(Incoming()), Incoming(), at, old(dst[..]), dst[..])
    {
      if saslconn {
        i := ReadFromSASL(dst, at, n);
      } else {
        i := ReadSocket(dst, at, n);
      }
    }

    /** One pass of either loop: a read, and the decision what to do when it yields nothing. */
    method Attempt(dst: array<bv8>, at: nat, n: nat, tries: nat, ghost need: nat)
        returns (ok: bool, i: nat, retries: nat)
      requires Valid() && at + n <= dst.Length && n > 0 && need > 0
      requires readTimeout > 0 ==> tries <= Limit(readTimeout)
      modifies this`events, this`errnoAgain, this`saslDecoded, this`saslDecodedOffset, this`saslDecodedSet, dst
      ensures Valid()
      ensures Supply(old(Left()), old(events), need, saslconn, readTimeout, tries)
           == (ok && Supply(Left(), events, Sub(need, i), saslconn, readTimeout, retries))
      ensures Moved(i, old(Incoming()), Incoming(), at, old(dst[..]), dst[..]) && i <= n && (!ok ==> i == 0)
      ensures ok && i == 0 ==> |events| < |old(events)|
      ensures readTimeout > 0 ==> retries == (if ok && i > 0 then tries else tries + 1) && (ok ==> retries <= Limit(readTimeout))
    {
      hide Bytes, Moved, Supply, Limit;
      retries := tries;
      ghost var left, was, stream, into := Left(), events, Incoming(), dst[..];
      var count := Receive(dst, at, n);
      Told(count, errnoAgain, n, saslconn, Left(), events, left, was, need, readTimeout, tries);
      if count <= 0 {
        Halted(count, stream, Incoming(), at, into, dst[..]);
      }
      if count <= 0 {
        if readTimeout > 0 {
          retries := retries + 1;
        }
        return count < 0 && errnoAgain && (readTimeout == 0 || retries <= Limit(readTimeout)), 0, retries;
      }
      return true, count, retries;
    }

    /** One pass of that loop. */
    method FillMore(n: nat, tries: nat) returns (ok: bool, i: nat, retries: nat)
      requires Valid() && bufoutptr == 0 && buffered < n <= RFB_BUF_SIZE && (readTimeout > 0 ==> tries <= Limit(readTimeout))
      modifies this`events, this`errnoAgain, this`saslDecoded, this`saslDecodedOffset, this`saslDecodedSet, this`buffered, buf
      ensures Valid() && buffered == old(buffered) + i
      ensures buf[..buffered] + Incoming() == old(buf[..buffered] + Incoming())
      ensures Supply(old(Left()), old(events), n - old(buffered), saslconn, readTimeout, tries)
           == (ok && Supply(Left(), events, Sub(n, buffered), saslconn, readTimeout, retries))
      ensures ok && i == 0 ==> |events| < |old(events)| && |Incoming()| == |old(Incoming())|
      ensures i > 0 ==> |Incoming()| < |old(Incoming())|
      ensures readTimeout > 0 ==> retries == (if ok && i > 0 then tries else tries + 1) && (ok ==> retries <= Limit(readTimeout))
    {
      hide Bytes, Took, Moved, Supply, Limit, Incoming, Left;
      ghost var stream, all := Incoming(), buf[..];
      ok, i, retries := Attempt(buf, buffered, RFB_BUF_SIZE - buffered, tries, n - buffered);
      Grown(i, stream, Incoming(), buffered, all, buf[..]);
      buffered := buffered + i;
    }

    /** The loop for a request that the buffer can hold: it reads on until `n` bytes lie there. */
    method FillBuffer(n: nat) returns (ok: bool, ghost calls: nat)
      requires Valid() && bufoutptr == buffered == 0 && n <= RFB_BUF_SIZE
      modifies this`events, this`errnoAgain, this`saslDecoded, this`saslDecodedOffset, this`saslDecodedSet, this`buffered, buf
      ensures Valid()
      ensures Pending() == old(Incoming()) && (ok ==> bufoutptr == 0)
      ensures ok == Supply(old(Left()), old(events), n, saslconn, readTimeout, 0)
      ensures ok ==> n <= buffered
      ensures readTimeout > 0 ==> calls <= n + Limit(readTimeout) + 1
    {
      hide Bytes, Took, Moved, Supply, Limit, Incoming, Left;
      var retries: nat := 0;
      ok, calls := true, 0;
      while buffered < n
        invariant Valid() && bufoutptr == 0 && ok
        invariant buf[..buffered] + Incoming() == old(Incoming())
        invariant Supply(old(Left()), old(events), n, saslconn, readTimeout, 0)
               == Supply(Left(), events, Sub(n, buffered), saslconn, readTimeout, retries)
        invariant readTimeout > 0 ==> retries <= Limit(readTimeout) && calls <= buffered + retries && calls <= n + retries
        decreases |Incoming()|, |events|
      {
        var i: nat;
        ok, i, retries := FillMore(n, retries);
        calls := calls + 1;
        if !ok {
          return;
        }
      }
      SupplyNone(Left(), events, saslconn, readTimeout, retries);
    }

    /** The loop for a longer request: it reads straight into the caller's memory. */
    method ReadDirect(out: array<bv8>, at: nat, n: nat) returns (ok: bool, ghost calls: nat)
      requires Valid() && at + n <= out.Length && out != buf
      modifies this`events, this`errnoAgain, this`saslDecoded, this`saslDecodedOffset, this`saslDecodedSet, out
      ensures Valid()
      ensures ok == Supply(old(Left()), old(events), n, saslconn, readTimeout, 0)
      ensures exists i: nat :: i <= n && (ok ==> i == n) && Moved(i, old(Incoming()), Incoming(), at, old(out[..]), out[..])
      ensures readTimeout > 0 ==> calls <= n + Limit(readTimeout) + 1
    {
      hide Bytes, Took, Moved, Supply, Limit, Incoming, Left;
      var retries: nat := 0;
      ok, calls := true, 0;
      var left: nat := n;
      MovedNone(Incoming(), at, out[..]);
      while left > 0
        invariant Valid() && left <= n && ok
        invariant Moved(n - left, old(Incoming()), Incoming(), at, old(out[..]), out[..])
        invariant Supply(old(Left()), old(events), n, saslconn, readTimeout, 0)
               == Supply(Left(), events, left, saslconn, readTimeout, retries)
        invariant readTimeout > 0 ==> retries <= Limit(readTimeout) && calls <= n - left + retries
        decreases left, |events|
      {
        ghost var stream, into := Incoming(), out[..];
        var i: nat;
        ok, i, retries := Attempt(out, at + n - left, left, retries, left);
        calls := calls + 1;
        MovedOn(n - left, i, old(Incoming()), stream, Incoming(), at, old(out[..]), into, out[..]);
        left := left - i;
        if !ok {
          assert n - left <= n && Moved(n - left, old(Incoming()), Incoming(), at, old(out[..]), out[..]);
          return;
        }
      }
      assert Moved(n, old(Incoming()), Incoming(), at, old(out[..]), out[..]);
      SupplyNone(Left(), events, saslconn, readTimeout, retries);
    }

    /** The copy out of the buffer. */
    method Serve(out: array<bv8>, at: nat, n: nat)
      requires Valid() && n <= buffered && at + n <= out.Length && out != buf
      modifies this`bufoutptr, this`buffered, out
      ensures Valid() && buffered == old(buffered) - n
      ensures Moved(n, old(Pending()), Pending(), at, old(out[..]), out[..])
    {
      hide Bytes, Moved, Incoming, Left;
      Served(n, buf[..], bufoutptr, buffered, Incoming(), at, out[..]);
      Copy(buf[bufoutptr..bufoutptr + n], out, at);
      bufoutptr := bufoutptr + n;
      buffered := buffered - n;
    }

    /** The part of a request that the buffer did not hold. */
    method ReadRest(out: array<bv8>, at: nat, n: nat) returns (ok: bool, ghost calls: nat)
      requires Valid() && at + n <= out.Length && out != buf && bufoutptr == buffered == 0
      modifies this`events, this`errnoAgain, this`saslDecoded, this`saslDecodedOffset, this`saslDecodedSet,
               this`bufoutptr, this`buffered, buf, out
      ensures Valid()
      ensures ok == Supply(old(Left()), old(events), n, saslconn, readTimeout, 0)
      ensures exists i: nat :: i <= n && (ok ==> i == n) && Moved(i, old(Incoming()), Pending(), at, old(out[..]), out[..])
      ensures readTimeout > 0 ==> calls <= n + Limit(readTimeout) + 1
    {
      hide Bytes, Took, Supply, Moved, Limit, Incoming, Left;
      if n <= RFB_BUF_SIZE {
        ok, calls := FillBuffer(n);
        if ok {
          Serve(out, at, n);
        } else {
          MovedNone(Pending(), at, out[..]);
        }
      } else {
        ok, calls := ReadDirect(out, at, n);
        assert Pending() == Incoming();
      }
    }

    /** `n` bytes of the stream, no matter how it arrives: the call succeeds just when they come before the connection
        ends and before the reader has met more refusals than it puts up with, and with a timeout set it never reads
        the socket more than `n + Limit + 1` times. When it fails, the bytes that came off the stream stand in `out`. */
    method ReadFromRFBServer(out: array<bv8>, at: nat, n: nat) returns (ok: bool, ghost calls: nat)
      requires Valid() && at + n <= out.Length && out != buf
      modifies this`events, this`errnoAgain, this`saslDecoded, this`saslDecodedOffset, this`saslDecodedSet,
               this`bufoutptr, this`buffered, buf, out
      ensures Valid()
      ensures ok == Supply(old(buffered) + old(Left()), old(events), n, saslconn, readTimeout, 0)
      ensures exists i: nat :: i <= n && (ok ==> i == n) && Moved(i, old(Pending()), Pending(), at, old(out[..]), out[..])
      ensures readTimeout > 0 ==> calls <= n + Limit(readTimeout) + 1
    {
      hide Bytes, Took, Supply, Moved, Limit, Incoming, Left;
      ghost var pending, into := Pending(), out[..];
      SupplyLess(buffered, Left(), events, n, saslconn, readTimeout, 0);
      if n <= buffered {
        Serve(out, at, n);
        return true, 0;
      }
      var have := buffered;
      Serve(out, at, have);
      ghost var stream, held := Incoming(), out[..];
      assert Pending() == stream;
      bufoutptr := 0;
      ok, calls := ReadRest(out, at + have, n - have);
      ghost var i: nat :| i <= n - have && (ok ==> i == n - have) && Moved(i, stream, Pending(), at + have, held, out[..]);
      MovedOn(have, i, pending, stream, Pending(), at, into, held, out[..]);
    }
  }

  /** One request, and what it takes off the stream. */
  method Request(client: Client, n: nat) returns (ok: bool, part: seq<bv8>, ghost taken: seq<bv8>, ghost calls: nat)
    requires client.Valid()
    modifies client, client.buf
    ensures client.Valid() && client.readTimeout == old(client.readTimeout)
    ensures taken + client.Pending() == old(client.Pending())
    ensures if ok then taken == part && |part| == n else |taken| <= n
    ensures client.readTimeout > 0 ==> calls <= n + Limit(client.readTimeout) + 1
  {
    hide Moved, Supply, Limit, Bytes;
    var out := new bv8[n];
    ghost var before, was := client.Pending(), out[..];
    ok, calls := client.ReadFromRFBServer(out, 0, n);
    ghost var i: nat :| i <= n && (ok ==> i == n) && Moved(i, before, client.Pending(), 0, was, out[..]);
    PartMoved(i, before, client.Pending(), was, out[..]);
    part, taken := out[..], out[..i];
  }

  /** A run of requests, which ends with the first that fails: what the calls delivered, in order, what the failing call
      has cut off, and what is still to come are the stream that the run began with, however the bytes arrived and
      wherever the buffer was refilled; and with a timeout set the number of reads is bounded over the whole run. */
  method ReadRun(client: Client, requests: seq<nat>) returns (ok: bool, parts: seq<seq<bv8>>, ghost cut: seq<bv8>, ghost calls: nat)
    requires client.Valid()
    modifies client, client.buf
    ensures client.Valid() && client.readTimeout == old(client.readTimeout)
    ensures Concat(parts) + (cut + client.Pending()) == old(client.Pending())
    ensures |parts| <= |requests| && forall k :: 0 <= k < |parts| ==> |parts[k]| == requests[k]
    ensures if ok then |parts| == |requests| && cut == [] else |parts| < |requests| && |cut| <= requests[|parts|]
    ensures client.readTimeout > 0 ==> Bounded(calls, requests[..if ok then |parts| else |parts| + 1], Limit(client.readTimeout))
  {
    hide Limit, Bounded, Concat, Bytes;
    ok, parts, cut, calls := true, [], [], 0;
    BoundedNone(Limit(client.readTimeout));
    NothingDelivered(client.Pending());
    assert requests[..0] == [];
    for k := 0 to |requests|
      invariant ok && client.Valid() && client.readTimeout == old(client.readTimeout)
      invariant |parts| == k && forall j :: 0 <= j < k ==> |parts[j]| == requests[j]
      invariant Concat(parts) + client.Pending() == old(client.Pending())
      invariant client.readTimeout > 0 ==> Bounded(calls, requests[..k], Limit(client.readTimeout))
    {
      ghost var taken, turns;
      var part;
      ok, part, taken, turns := Request(client, requests[k]);
      PartDelivered(parts, taken, client.Pending());
      if client.readTimeout > 0 {
        BoundedMore(calls, requests, turns, Limit(client.readTimeout), k);
      }
      calls := calls + turns;
      if !ok {
        cut := taken;
        return;
      }
      parts := parts + [part];
    }
    assert cut + client.Pending() == client.Pending();
  }

  lemma NothingDelivered(stream: seq<bv8>)
    ensures Concat([]) + stream == stream
  {
  }

  function Sub(a: nat, b: nat): (d: nat) { if a <= b then 0 else a - b }

  /** How often a read that would block is tried again: `readTimeout` is in seconds, a wait takes 100000 microseconds,
      and the product is one of `unsigned int`. */
  function Limit(readTimeout: nat): nat { readTimeout * 1000 * 1000 % 0x1_0000_0000 / 100000 }

  /** That is ten tries a second, up to timeouts of 4294 seconds and no longer: from then on the product wraps around. */
  lemma TenTriesASecond(readTimeout: nat)
    ensures Limit(readTimeout) == 10 * readTimeout <==> readTimeout <= 4294
  {
    var n := readTimeout * 1000 * 1000;
    if readTimeout <= 4294 {
      assert n % 0x1_0000_0000 == n == 100000 * (10 * readTimeout);
    } else {
      assert n % 0x1_0000_0000 < 0x1_0000_0000;
    }
  }

  /** Whether a schedule brings `need` bytes before it ends the connection, or the reader gives up on it. */
  ghost predicate Enough(events: seq<Event>, need: nat, sasl: bool, readTimeout: nat, retries: nat) {
    need == 0
    || (events != []
        && match events[0]
        case Arrived(bytes) =>
          if bytes == [] then sasl && Retried(events, need, sasl, readTimeout, retries)
          else Enough(events[1..], Sub(need, |bytes|), sasl, readTimeout, retries)
        case WouldBlock => Retried(events, need, sasl, readTimeout, retries)
        case Undecodable(again) => again && Retried(events, need, sasl, readTimeout, retries)
        case _ => false)
  }

  ghost predicate Retried(events: seq<Event>, need: nat, sasl: bool, readTimeout: nat, retries: nat)
    requires events != []
    decreases events, 0
  {
    if readTimeout == 0 then Enough(events[1..], need, sasl, readTimeout, retries)
    else retries < Limit(readTimeout) && Enough(events[1..], need, sasl, readTimeout, retries + 1)
  }

  /** The same when the SASL layer still holds `left` decoded bytes. */
  ghost predicate Supply(left: nat, events: seq<Event>, need: nat, sasl: bool, readTimeout: nat, retries: nat) {
    Enough(events, Sub(need, left), sasl, readTimeout, retries)
  }

  /** An event that lets the reader go on. */
  ghost predicate Open(e: Event, sasl: bool) {
    e.WouldBlock? || (e.Undecodable? && e.errnoAgain) || (e.Arrived? && (sasl || e.bytes != []))
  }

  ghost predicate AllOpen(events: seq<Event>, sasl: bool) {
    forall k :: 0 <= k < |events| ==> Open(events[k], sasl)
  }

  /** How many events make the reader try again. */
  ghost function Refusals(events: seq<Event>): nat {
    if events == [] then 0
    else (if events[0].Arrived? && events[0].bytes != [] then 0 else 1) + Refusals(events[1..])
  }

  ghost predicate Brings(events: seq<Event>, k: nat, need: nat, sasl: bool, readTimeout: nat, retries: nat) {
    && k <= |events| && AllOpen(events[..k], sasl) && need <= |Bytes(events[..k])|
    && (readTimeout == 0 || retries + Refusals(events[..k]) <= Limit(readTimeout))
  }

  /** When a request succeeds: just when some first part of the schedule brings the bytes, holds nothing that ends the
      connection, and refuses no more reads than the timeout grants. */
  lemma {:induction false} EnoughIff(events: seq<Event>, need: nat, sasl: bool, readTimeout: nat, retries: nat)
    requires readTimeout == 0 || retries <= Limit(readTimeout)
    ensures Enough(events, need, sasl, readTimeout, retries)
       <==> exists k: nat :: Brings(events, k, need, sasl, readTimeout, retries)
    decreases |events|
  {
    hide Limit;
    if need == 0 {
      assert Brings(events, 0, need, sasl, readTimeout, retries);
    } else if events != [] {
      var less := if events[0].Arrived? then Sub(need, |events[0].bytes|) else need;
      var more := if readTimeout == 0 || (events[0].Arrived? && events[0].bytes != []) then retries else retries + 1;
      if Open(events[0], sasl) && (readTimeout == 0 || more <= Limit(readTimeout)) {
        EnoughIff(events[1..], less, sasl, readTimeout, more);
        assert Enough(events, need, sasl, readTimeout, retries) == Enough(events[1..], less, sasl, readTimeout, more);
        if k: nat :| Brings(events[1..], k, less, sasl, readTimeout, more) {
          BringsStep(events, k, need, sasl, readTimeout, retries);
        }
      }
      if k: nat :| Brings(events, k, need, sasl, readTimeout, retries) {
        BringsStep(events, if k == 0 then 0 else k - 1, need, sasl, readTimeout, retries);
      }
    }
  }

  lemma BringsStep(events: seq<Event>, k: nat, need: nat, sasl: bool, readTimeout: nat, retries: nat)
    requires events != [] && need > 0
    ensures Brings(events, k + 1, need, sasl, readTimeout, retries)
       <==> (&& Open(events[0], sasl)
             && Brings(events[1..], k, if events[0].Arrived? then Sub(need, |events[0].bytes|) else need, sasl, readTimeout,
                       if readTimeout == 0 || (events[0].Arrived? && events[0].bytes != []) then retries else retries + 1))
    ensures !Brings(events, 0, need, sasl, readTimeout, retries)
  {
    hide Limit;
    if k < |events| {
      assert events[..k + 1][1..] == events[1..][..k];
      assert events[..k + 1][0] == events[0];
    }
  }

  function Concat(parts: seq<seq<bv8>>): seq<bv8> {
    if parts == [] then [] else Concat(parts[..|parts| - 1]) + parts[|parts| - 1]
  }

  function Sum(requests: seq<nat>): nat {
    if requests == [] then 0 else Sum(requests[..|requests| - 1]) + requests[|requests| - 1]
  }

  lemma PartMoved(i: nat, before: seq<bv8>, after: seq<bv8>, was: seq<bv8>, now: seq<bv8>)
    requires Moved(i, before, after, 0, was, now) && i <= |was|
    ensures |now| == |was| && now[..i] + after == before
  {
    if i > 0 {
      assert now[..i] == before[..i];
    }
  }

  lemma PartDelivered(parts: seq<seq<bv8>>, part: seq<bv8>, rest: seq<bv8>)
    ensures Concat(parts + [part]) + rest == Concat(parts) + (part + rest)
  {
    assert (parts + [part])[..|parts|] == parts;
  }

  /** At most `limit + 1` reads more than bytes for each request. */
  ghost predicate Bounded(calls: nat, requests: seq<nat>, limit: nat) { calls <= Sum(requests) + |requests| * (limit + 1) }

  lemma BoundedNone(limit: nat)
    ensures Bounded(0, [], limit)
  {
  }

  lemma BoundedMore(calls: nat, requests: seq<nat>, more: nat, limit: nat, k: nat)
    requires k < |requests| && Bounded(calls, requests[..k], limit) && more <= requests[k] + limit + 1
    ensures Bounded(calls + more, requests[..k + 1], limit)
  {
    assert requests[..k + 1][..k] == requests[..k];
    assert (k + 1) * (limit + 1) == k * (limit + 1) + (limit + 1);
  }

  lemma SupplyNone(left: nat, events: seq<Event>, sasl: bool, readTimeout: nat, retries: nat)
    ensures Supply(left, events, 0, sasl, readTimeout, retries)
  {
  }

  /** What the outcome of one read says about the rest of the schedule. */
  lemma Told(i: int, again: bool, n: nat, sasl: bool, left: nat, events: seq<Event>, wasLeft: nat, was: seq<Event>,
             need: nat, readTimeout: nat, retries: nat)
    requires Took(i, again, n, sasl, left, events, wasLeft, was) && need > 0
    ensures Supply(wasLeft, was, need, sasl, readTimeout, retries)
         == if i > 0 then Supply(left, events, Sub(need, i), sasl, readTimeout, retries)
            else if i == 0 || !again then false
            else if readTimeout == 0 then Supply(left, events, need, sasl, readTimeout, retries)
            else retries < Limit(readTimeout) && Supply(left, events, need, sasl, readTimeout, retries + 1)
    ensures i < 0 && again ==> |events| < |was|
  {
    hide Limit;
    if wasLeft == 0 && was != [] {
      assert Enough(was, need, sasl, readTimeout, retries)
          == match was[0]
             case Arrived(bytes) =>
               if bytes == [] then sasl && Retried(was, need, sasl, readTimeout, retries)
               else Enough(was[1..], Sub(need, |bytes|), sasl, readTimeout, retries)
             case WouldBlock => Retried(was, need, sasl, readTimeout, retries)
             case Undecodable(again) => again && Retried(was, need, sasl, readTimeout, retries)
             case _ => false;
      if i > 0 && left == 0 && events != was[1..] {
        assert events[1..] == was[1..];
        assert Sub(Sub(need, i), |was[0].bytes| - i) == Sub(need, |was[0].bytes|);
      }
    }
  }

  /** A read to the end of what stands in the target leaves target and stream joined as they were. */
  lemma Grown(i: nat, before: seq<bv8>, after: seq<bv8>, at: nat, was: seq<bv8>, now: seq<bv8>)
    requires Moved(i, before, after, at, was, now) && at + i <= |was|
    ensures |now| == |was|
    ensures now[..at + i] + after == was[..at] + before
    ensures now[..at] + after == was[..at] + after
    ensures |after| + i == |before|
    ensures i == 0 ==> after == before
  {
    if i > 0 {
      assert now[..at + i] == was[..at] + before[..i];
    }
  }

  lemma MovedNone(stream: seq<bv8>, at: nat, was: seq<bv8>)
    ensures Moved(0, stream, stream, at, was, was)
  {
  }

  lemma Halted(count: int, before: seq<bv8>, after: seq<bv8>, at: nat, was: seq<bv8>, now: seq<bv8>)
    requires Moved(count, before, after, at, was, now) && count <= 0
    ensures Moved(0, before, after, at, was, now)
  {
  }

  /** Two reads in a row move what one read of their sum would. */
  lemma MovedOn(i: nat, j: nat, s0: seq<bv8>, s1: seq<bv8>, s2: seq<bv8>, at: nat, o0: seq<bv8>, o1: seq<bv8>, o2: seq<bv8>)
    requires Moved(i, s0, s1, at, o0, o1) && Moved(j, s1, s2, at + i, o1, o2)
    ensures Moved(i + j, s0, s2, at, o0, o2)
  {
    if i > 0 && j > 0 {
      assert o1[..at + i] == o0[..at] + s0[..i];
      assert s0[..i + j] == s0[..i] + s1[..j];
      assert o1[at + i + j..] == o0[at + i + j..];
    }
  }

  lemma SupplyLess(have: nat, left: nat, events: seq<Event>, need: nat, sasl: bool, readTimeout: nat, retries: nat)
    ensures Supply(have + left, events, need, sasl, readTimeout, retries)
         == (need <= have || Supply(left, events, Sub(need, have), sasl, readTimeout, retries))
  {
  }

  /** Taking bytes out of the buffer moves them as a read would. */
  lemma Served(n: nat, buf: seq<bv8>, start: nat, count: nat, incoming: seq<bv8>, at: nat, was: seq<bv8>)
    requires n <= count && start + count <= |buf| && at + n <= |was|
    ensures Moved(n, buf[start..start + count] + incoming, buf[start + n..start + count] + incoming, at, was,
                  was[..at] + buf[start..start + n] + was[at + n..])
  {
    var stream := buf[start..start + count] + incoming;
    assert stream[..n] == buf[start..start + n];
    assert stream[n..] == buf[start + n..start + count] + incoming;
    if n == 0 {
      assert was[..at] + buf[start..start] + was[at..] == was;
    }
  }

  /** What one read does with the schedule: it uses up bytes that lie decoded, or else the first event or a part of it. */
  ghost predicate Took(i: int, again: bool, n: nat, sasl: bool, left: nat, events: seq<Event>, wasLeft: nat, was: seq<Event>)
  {
    if wasLeft > 0 then 0 < i <= n && i <= wasLeft && left == wasLeft - i && events == was
    else if was == [] then left == 0 && events == [] && (i == 0 || (i < 0 && !again))
    else match was[0]
      case Arrived(bytes) =>
        if bytes == [] then left == 0 && events == was[1..] && (if sasl then i < 0 && again else i == 0) else
        && 0 < i <= n && i <= |bytes|
        && ((left == |bytes| - i && events == was[1..]) || (left == 0 && i < |bytes| && events == [Arrived(bytes[i..])] + was[1..]))
      case WouldBlock => left == 0 && events == was[1..] && i < 0 && again
      case Undecodable(errnoAgain) => left == 0 && events == was[1..] && i < 0 && again == errnoAgain
      case _ => left == 0 && events == was[1..] && (i == 0 || (i < 0 && !again))
  }

  /** What one read does with the bytes: those it yields come off the stream and stand in the target, in order. */
  ghost predicate Moved(i: int, before: seq<bv8>, after: seq<bv8>, at: nat, was: seq<bv8>, now: seq<bv8>) {
    if i <= 0 then before == after && now == was
    else at + i <= |was| && i <= |before| && after == before[i..] && now == was[..at] + before[..i] + was[at + i..]
  }

  /** Removing the first event, or the first bytes of an arrival, removes those bytes from the stream. */
  lemma BytesSplit(events: seq<Event>, bytes: seq<bv8>, rest: seq<Event>)
    requires events != []
    requires if events[0].Arrived? then
               (bytes == events[0].bytes && rest == events[1..])
               || (bytes <= events[0].bytes && rest == [Arrived(events[0].bytes[|bytes|..])] + events[1..])
             else bytes == [] && rest == events[1..]
    ensures Bytes(events) == bytes + Bytes(rest)
  {
  }

  lemma Taken(left: seq<bv8>, rest: seq<bv8>, want: nat, at: nat, was: seq<bv8>)
    requires want <= |left| && at + want <= |was|
    ensures left[want..] + rest == (left + rest)[want..]
    ensures Moved(if want == 0 then -11 else want, left + rest, left[want..] + rest, at, was, was[..at] + left[..want] + was[at + want..])
  {
    assert left[..want] == (left + rest)[..want];
    if want == 0 {
      assert was[..at] + left[..0] + was[at..] == was;
    }
  }

  lemma Unmoved(err: int, stream: seq<bv8>, at: nat, was: seq<bv8>)
    requires err < 0
    ensures Moved(err, stream, stream, at, was, was)
  {
  }

  lemma NothingThere(sasl: bool, again: bool, n: nat, left: nat)
    ensures left == 0 ==> Took(0, again, n, sasl, 0, [], 0, [])
  {
  }

  lemma SocketTook(i: int, again: bool, n: nat, bytes: seq<bv8>, events: seq<Event>, was: seq<Event>)
    requires was != [] && n > 0 && |bytes| <= n
    requires i == if was[0].Arrived? then |bytes| else if was[0].Closed? then 0 else -1
    requires i < 0 ==> again == (was[0].WouldBlock? || (was[0].Undecodable? && was[0].errnoAgain))
    requires if was[0].Arrived? && |was[0].bytes| > n then |bytes| == n && events == [Arrived(was[0].bytes[n..])] + was[1..]
             else events == was[1..] && (was[0].Arrived? ==> bytes == was[0].bytes)
    ensures Took(i, again, n, false, 0, events, 0, was)
  {
  }

  lemma BytesMoved(i: int, bytes: seq<bv8>, rest: seq<bv8>, at: nat, was: seq<bv8>)
    requires at + |bytes| <= |was| && (i == |bytes| || (i <= 0 && bytes == []))
    ensures Moved(i, bytes + rest, rest, at, was, was[..at] + bytes + was[at + |bytes|..])
  {
    if bytes == [] {
      assert bytes + rest == rest && was[..at] + bytes + was[at..] == was;
    }
  }

  lemma NothingTaken(err: int, again: bool, n: nat, events: seq<Event>, was: seq<Event>)
    requires err < 0
    requires if was == [] then events == [] && !again
             else events == was[1..] && !was[0].Arrived? && again == (was[0].WouldBlock? || (was[0].Undecodable? && was[0].errnoAgain))
    ensures Took(err, again, n, true, 0, events, 0, was)
  {
  }

  lemma SaslTook(want: nat, again: bool, n: nat, left: nat, events: seq<Event>, wasLeft: nat, was: seq<Event>)
    requires want == (if left > n then n else left) && n > 0
    requires if wasLeft > 0 then left == wasLeft && events == was
             else was != [] && was[0].Arrived? && |was[0].bytes| == left && events == was[1..]
    ensures want > 0 ==> Took(want, again, n, true, left - want, events, wasLeft, was)
    ensures want == 0 ==> Took(-11, true, n, true, 0, events, wasLeft, was)
  {
  }

  /** What one `write` meets: it takes some bytes, it would block and `select` then finds the socket ready or not,
      or it fails. */
  datatype Ack = Accepted(count: nat) | Busy(ready: bool) | Refused

  /** Whether `need` bytes get through before a `write` fails. */
  predicate Passes(acks: seq<Ack>, need: nat) {
    need == 0
    || (acks != []
        && match acks[0]
        case Accepted(count) => count > 0 && Passes(acks[1..], Sub(need, count))
        case Busy(ready) => ready && Passes(acks[1..], need)
        case Refused => false)
  }

  /** `WriteToRFBServer`, once the bytes are encoded: a first part of them goes out in order, and all of them if and
      only if it succeeds. */
  method WriteToRFBServer(obuf: seq<bv8>, acks: seq<Ack>) returns (ok: bool, sent: seq<bv8>)
    ensures ok == Passes(acks, |obuf|) == (sent == obuf)
    ensures sent <= obuf
  {
    var rest := acks;
    sent := [];
    while |sent| < |obuf|
      invariant sent <= obuf
      invariant Passes(acks, |obuf|) == Passes(rest, |obuf| - |sent|)
      decreases rest
    {
      if rest == [] {
        return false, sent;
      }
      var j := 0;
      match rest[0] {
        case Accepted(count) =>
          j := if count < |obuf| - |sent| then count else |obuf| - |sent|;
          if j == 0 {
            return false, sent;
          }
        case Busy(ready) =>
          if !ready {
            return false, sent;
          }
        case Refused =>
          return false, sent;
      }
      rest := rest[1..];
      sent := obuf[..|sent| + j];
    }
    return true, sent;
  }

  /** `memcpy` */
  method Copy(s: seq<bv8>, dst: array<bv8>, at: nat)
    requires at + |s| <= dst.Length
    modifies dst
    ensures dst[..] == old(dst[..at]) + s + old(dst[at + |s|..])
  {
    ghost var was := dst[..];
    assert was == was[..at] + s[..0] + was[at..];
    for k := 0 to |s|
      invariant dst[..] == was[..at] + s[..k] + was[at + k..]
    {
      Spliced(was, s, at, k);
      dst[at + k] := s[k];
    }
  }
}
