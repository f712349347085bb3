/** A framebuffer update, as the server sends it, and what the client makes of it. */
module UpdateServer {
  import opened Grid
  import opened Octets
  import opened Canvas
  import opened Pictures
  import opened Connection
  import opened UpdateBuffer
  import opened Rre
  import opened Rectangles
  import opened Update
  import opened RawServer
  import opened RreServer
  import HextileFormat
  import HextileClient
  import HextileTiles
  import HextileServer
  import HextileRoundTrip

  /** The encodings of this model that a client can prefer. */
  predicate Known(encoding: nat) {
    encoding == ENCODING_RAW || encoding == ENCODING_RRE || encoding == ENCODING_CORRE || encoding == ENCODING_HEXTILE
  }

  /** A client that gets the tiles that the server sends shows the rectangle. */
  lemma HextileConveys(pieces: seq<seq<byte>>, tiles: seq<HextileFormat.Tile>, screen: seq<Pixel>, width: nat, height: nat, rect: Box,
                       bpp: nat)
    requires width > 0 && Supported(bpp) && CheckRect(rect, width, height) && FitsHeader(rect) && |screen| == height * width
    requires |tiles| == HextileClient.Count(rect) && HextileTiles.Encodes(pieces, tiles, screen, width, rect, bpp)
    requires HextileTiles.FgKept(tiles, |tiles|)
    ensures Conveys(Header(rect, ENCODING_HEXTILE) + Flat(pieces), 1, screen, width, height, [rect], bpp)
  {
    hide Conveys, Header, HextileTiles.Encodes, HextileTiles.FgKept, HextileClient.Decode, HextileClient.Count, ShowsRect;
    var body := Flat(pieces);
    forall s: Screen, garbage | body <= s.input && |s.canvas| == |screen|
      ensures BodyConveyed(s, DecodeBody(ENCODING_HEXTILE, s, width, height, rect, bpp, garbage), |body|, screen, width, rect, bpp)
    {
      assert s.input == body + s.input[|body|..];
      HextileRoundTrip.DecodesRectangle(HextileClient.State(s.input, seq(bpp, _ => 0), garbage, s.canvas), pieces, tiles,
                                        s.input[|body|..], screen, width, height, rect, bpp);
    }
    ConveysRect(ENCODING_HEXTILE, body, screen, width, height, rect, bpp);
  }

  /** A header, if need be after what the buffer holds has gone out. */
  method PutHeader(cl: Updates, header: seq<byte>) returns (ok: bool)
    requires cl.Valid() && |header| == 12
    modifies cl, cl.updateBuf
    ensures cl.Valid() && cl.sends <= old(cl.sends)
    ensures if ok then cl.Out() == old(cl.Out()) + header else cl.sends == 0
    ensures old(cl.ublen) + 12 <= UPDATE_BUF_SIZE ==> ok && cl.sends == old(cl.sends)
  {
    if cl.ublen + 12 > UPDATE_BUF_SIZE {
      ok := cl.Send();
      if !ok {
        return;
      }
    }
    cl.PutAll(header);
    ok := true;
  }

  /** The bytes of a hextile rectangle: its header, and the tiles that the encoder chooses. */
  ghost function HextileBytes(screen: seq<Pixel>, width: nat, rect: Box, bpp: nat): seq<byte> {
    var tiles := HextileServer.Choices(screen, width, rect, bpp, HextileClient.Count(rect)).0;
    Header(rect, ENCODING_HEXTILE) + Flat(HextileServer.Pieces(tiles, rect, bpp))
  }

  /** `rfbSendRectEncodingHextile`; at other pixel sizes it fails behind the header. */
  method SendHextile(cl: Updates, screen: seq<Pixel>, width: nat, height: nat, rect: Box, bpp: nat) returns (ok: bool, ghost bytes: seq<byte>)
    requires cl.Valid() && 0 < bpp <= 4 && width > 0 && CheckRect(rect, width, height) && FitsHeader(rect)
    requires |screen| == height * width && AllPixels(screen, bpp)
    modifies cl, cl.updateBuf
    ensures cl.Valid() && cl.sends <= old(cl.sends)
    ensures if ok then
              && cl.Out() == old(cl.Out()) + bytes && bytes == HextileBytes(screen, width, rect, bpp)
              && Conveys(bytes, 1, screen, width, height, [rect], bpp)
            else cl.sends == 0 || !Supported(bpp)
    ensures !Supported(bpp) ==> !ok
  {
    hide Conveys, Header, HextileServer.Choices, HextileServer.Pieces, AllPixels, HextileTiles.Encodes, HextileTiles.FgKept, HextileClient.Count;
    bytes := [];
    ok := PutHeader(cl, Header(rect, ENCODING_HEXTILE));
    if !ok || !Supported(bpp) {
      return false, [];
    }
    ghost var pieces, tiles;
    ok, pieces, tiles := HextileServer.SendHextiles(cl, screen, width, height, rect, bpp);
    if ok {
      bytes := Header(rect, ENCODING_HEXTILE) + Flat(pieces);
      HextileConveys(pieces, tiles, screen, width, height, rect, bpp);
    }
  }

  /** How many rectangles one rectangle of the region becomes. */
  function Parts(rect: Box, encoding: nat, maxWidth: nat, maxHeight: nat): nat
    requires maxWidth > 0 && maxHeight > 0 && rect.w > 0 && rect.h > 0
  {
    if encoding == ENCODING_CORRE then PartCount(rect, maxWidth, maxHeight) else 1
  }

  /** Rectangles of a region: none is empty, and all lie on the screen. */
  ghost predicate IsRegion(region: seq<Box>, width: nat, height: nat) {
    forall i :: 0 <= i < |region| ==> region[i].w > 0 && region[i].h > 0 && CheckRect(region[i], width, height)
  }

  function Total(region: seq<Box>, encoding: nat, maxWidth: nat, maxHeight: nat): nat
    requires maxWidth > 0 && maxHeight > 0 && forall i :: 0 <= i < |region| ==> region[i].w > 0 && region[i].h > 0
  {
    if region == [] then 0
    else
      Total(region[..|region| - 1], encoding, maxWidth, maxHeight) + Parts(region[|region| - 1], encoding, maxWidth, maxHeight)
  }

  /** Whether the raw pixels of one line are more than the buffer holds. */
  ghost predicate LongLine(region: seq<Box>, bpp: nat) {
    exists i :: 0 <= i < |region| && region[i].w * bpp > UPDATE_BUF_SIZE
  }

  /** Encodings that report no failure although they have nothing to send for a pixel size. */
  predicate Lost(encoding: nat, bpp: nat) { encoding == ENCODING_CORRE && !Supported(bpp) }

  /** Encodings that fail for a pixel size. */
  predicate Refused(encoding: nat, bpp: nat) { (encoding == ENCODING_RRE || encoding == ENCODING_HEXTILE) && !Supported(bpp) }

  /** The bytes of one rectangle of the region in an encoding. */
  ghost function RectBytes(screen: seq<Pixel>, width: nat, rect: Box, bpp: nat, encoding: nat, maxWidth: nat, maxHeight: nat): seq<byte>
    requires maxWidth > 0 && maxHeight > 0
  {
    if rect.w == 0 then []
    else if encoding == ENCODING_RAW then RawBytes(screen, width, rect)
    else if encoding == ENCODING_RRE then RreBytes(screen, width, rect, bpp)
    else if encoding == ENCODING_CORRE then CorreBytes(screen, width, Split(rect, maxWidth, maxHeight), bpp)
    else HextileBytes(screen, width, rect, bpp)
  }

  /** The bytes of all rectangles of the region, in their order. */
  ghost function RegionBytes(screen: seq<Pixel>, width: nat, region: seq<Box>, bpp: nat, encoding: nat, maxWidth: nat, maxHeight: nat): seq<byte>
    requires maxWidth > 0 && maxHeight > 0
  {
    if region == [] then []
    else
      RegionBytes(screen, width, region[..|region| - 1], bpp, encoding, maxWidth, maxHeight)
      + RectBytes(screen, width, region[|region| - 1], bpp, encoding, maxWidth, maxHeight)
  }

  lemma RegionNext(screen: seq<Pixel>, width: nat, region: seq<Box>, i: nat, bpp: nat, encoding: nat, maxWidth: nat, maxHeight: nat)
    requires maxWidth > 0 && maxHeight > 0 && i < |region|
    ensures RegionBytes(screen, width, region[..i + 1], bpp, encoding, maxWidth, maxHeight)
         == RegionBytes(screen, width, region[..i], bpp, encoding, maxWidth, maxHeight)
            + RectBytes(screen, width, region[i], bpp, encoding, maxWidth, maxHeight)
  {
    hide RectBytes;
    assert region[..i + 1][..i] == region[..i];
  }

  lemma RegionNothing(screen: seq<Pixel>, width: nat, bpp: nat, encoding: nat, maxWidth: nat, maxHeight: nat)
    requires maxWidth > 0 && maxHeight > 0
    ensures RegionBytes(screen, width, [], bpp, encoding, maxWidth, maxHeight) == []
  {
  }

  /** The `switch` over the preferred encoding; `whole` tells whether everything went out. */
  method SendRect(cl: Updates, screen: seq<Pixel>, width: nat, height: nat, rect: Box, bpp: nat, encoding: nat, maxWidth: nat, maxHeight: nat)
      returns (ok: bool, ghost whole: bool, ghost bytes: seq<byte>)
    requires cl.Valid() && 0 < bpp <= 4 && rect.w > 0 && rect.h > 0 && CheckRect(rect, width, height) && Known(encoding)
    requires width < 0x1_0000 && height < 0x1_0000 && 0 < maxWidth < 256 && 0 < maxHeight < 256
    requires |screen| == height * width && AllPixels(screen, bpp)
    modifies cl, cl.updateBuf
    ensures cl.Valid() && cl.sends <= old(cl.sends)
    ensures whole ==>
        && ok && cl.Out() == old(cl.Out()) + bytes && bytes == RectBytes(screen, width, rect, bpp, encoding, maxWidth, maxHeight)
        && Conveys(bytes, Parts(rect, encoding, maxWidth, maxHeight), screen, width, height, Visible([rect], bpp), bpp)
    ensures !whole ==> cl.sends == 0 || (!ok && (rect.w * bpp > UPDATE_BUF_SIZE || Refused(encoding, bpp))) || Lost(encoding, bpp)
    ensures Lost(encoding, bpp) ==> ok && !whole && unchanged(cl, cl.updateBuf)
    ensures Refused(encoding, bpp) ==> !ok && !whole
  {
    hide Conveys, AllPixels, RawBytes, RreBytes, CorreBytes, HextileBytes;
    if encoding == ENCODING_RAW {
      ok, bytes := SendRaw(cl, screen, width, height, rect, bpp);
      whole := ok;
    } else if encoding == ENCODING_RRE {
      ok, bytes := SendRre(cl, screen, width, height, rect, bpp);
      whole := ok;
    } else if encoding == ENCODING_CORRE {
      ok, whole, bytes := SendCorre(cl, screen, width, height, rect, bpp, maxWidth, maxHeight);
      SplitCount(rect, maxWidth, maxHeight);
    } else {
      ok, bytes := SendHextile(cl, screen, width, height, rect, bpp);
      whole := ok;
    }
  }

  /** `rfbFramebufferUpdateMsg`, with the lower 16 bits of the number of rectangles. */
  function Message(n: nat): seq<byte> { [0, 0] + Swapped(n, 2) }

  /** The marker that the server sends when it takes the number of rectangles for unknown. */
  function Marker(n: nat): seq<byte> {
    if n == 0xFFFF then Header(Box(0, 0, 0, 0), ENCODING_LAST_RECT) else []
  }

  /** `rfbSendFramebufferUpdate` for a region.  When it reports success, the number of rectangles and all of them have gone
      out, although the CoRRE encoder itself never reports a failure - but only at the supported pixel sizes: at others the
      number of CoRRE rectangles goes out, and none of them. */
  method SendUpdate(cl: Updates, screen: seq<Pixel>, width: nat, height: nat, region: seq<Box>, bpp: nat, encoding: nat, maxWidth: nat, maxHeight: nat)
      returns (r: bool, ghost bytes: seq<byte>)
    requires cl.Valid() && cl.ublen == 0 && 0 < bpp <= 4 && 0 < width < 0x1_0000 && height < 0x1_0000 && IsRegion(region, width, height)
    requires Known(encoding) && 0 < maxWidth < 256 && 0 < maxHeight < 256 && |screen| == height * width && AllPixels(screen, bpp)
    modifies cl, cl.updateBuf
    ensures cl.Valid()
    ensures region == [] ==> r && unchanged(cl, cl.updateBuf)
    ensures region != [] ==>
              var n := Total(region, encoding, maxWidth, maxHeight);
              if r then
                && cl.ublen == 0 && cl.sent == old(cl.sent) + (Message(n) + bytes + Marker(n)) && !Refused(encoding, bpp)
                && (if Lost(encoding, bpp) then bytes == []
                    else
                      && bytes == RegionBytes(screen, width, region, bpp, encoding, maxWidth, maxHeight)
                      && Conveys(bytes, n, screen, width, height, Visible(region, bpp), bpp))
              else cl.sends == 0 || LongLine(region, bpp) || Refused(encoding, bpp)
    ensures region != [] && Lost(encoding, bpp) ==> r == (old(cl.sends) > 0)
  {
    hide Conveys, AllPixels, Total, Header, Marker, RegionBytes;
    bytes := [];
    if region == [] {
      return true, bytes;
    }
    var n := CountRects(region, encoding, maxWidth, maxHeight);
    ghost var out := cl.Out();
    cl.PutAll(Message(n));
    ghost var whole;
    r, whole, bytes := SendRegion(cl, screen, width, height, region, bpp, encoding, maxWidth, maxHeight);
    if !r {
      return;
    }
    r := SendRest(cl, n);
    if r {
      Rejoined(out, Message(n), bytes, Marker(n));
    }
  }

  /** The marker, if it is needed, and the end of the update. */
  method SendRest(cl: Updates, n: nat) returns (r: bool)
    requires cl.Valid()
    modifies cl, cl.updateBuf
    ensures cl.Valid() && (r ==> cl.ublen == 0 && cl.sent == old(cl.Out()) + Marker(n)) && (!r ==> cl.sends == 0)
    ensures old(cl.sends) == 0 ==> !r
    ensures old(cl.ublen) + 12 <= UPDATE_BUF_SIZE ==> r == (old(cl.sends) > 0)
  {
    hide Header;
    if n == 0xFFFF {
      r := PutHeader(cl, Header(Box(0, 0, 0, 0), ENCODING_LAST_RECT));
      if !r {
        return;
      }
    }
    r := cl.Send();
  }

  lemma Rejoined(a: seq<byte>, b: seq<byte>, c: seq<byte>, d: seq<byte>)
    ensures a + b + c + d == a + (b + c + d)
  {
  }

  lemma MarkerIs(n: nat)
    ensures Marker(n) == if n == 0xFFFF then Header(Box(0, 0, 0, 0), ENCODING_LAST_RECT) else []
  {
  }

  /** The loop that counts. */
  method CountRects(region: seq<Box>, encoding: nat, maxWidth: nat, maxHeight: nat) returns (n: nat)
    requires maxWidth > 0 && maxHeight > 0 && forall i :: 0 <= i < |region| ==> region[i].w > 0 && region[i].h > 0
    ensures n == Total(region, encoding, maxWidth, maxHeight)
  {
    hide PartCount;
    n := 0;
    for i := 0 to |region|
      invariant n == Total(region[..i], encoding, maxWidth, maxHeight)
    {
      TotalNext(region, i, encoding, maxWidth, maxHeight);
      n := n + Parts(region[i], encoding, maxWidth, maxHeight);
    }
    assert region[..|region|] == region;
  }

  lemma TotalNext(region: seq<Box>, i: nat, encoding: nat, maxWidth: nat, maxHeight: nat)
    requires maxWidth > 0 && maxHeight > 0 && (forall i :: 0 <= i < |region| ==> region[i].w > 0 && region[i].h > 0) && i < |region|
    ensures Total(region[..i + 1], encoding, maxWidth, maxHeight)
         == Total(region[..i], encoding, maxWidth, maxHeight) + Parts(region[i], encoding, maxWidth, maxHeight)
  {
    hide Parts;
    assert region[..i + 1][..i] == region[..i];
  }

  /** The loop over the rectangles of the region. */
  method SendRegion(cl: Updates, screen: seq<Pixel>, width: nat, height: nat, region: seq<Box>, bpp: nat, encoding: nat, maxWidth: nat,
                    maxHeight: nat)
      returns (ok: bool, ghost whole: bool, ghost bytes: seq<byte>)
    requires cl.Valid() && 0 < bpp <= 4 && 0 < width < 0x1_0000 && height < 0x1_0000 && IsRegion(region, width, height)
    requires Known(encoding) && 0 < maxWidth < 256 && 0 < maxHeight < 256 && |screen| == height * width && AllPixels(screen, bpp)
    modifies cl, cl.updateBuf
    ensures cl.Valid() && cl.sends <= old(cl.sends)
    ensures whole ==>
        && ok && cl.Out() == old(cl.Out()) + bytes && bytes == RegionBytes(screen, width, region, bpp, encoding, maxWidth, maxHeight)
        && Conveys(bytes, Total(region, encoding, maxWidth, maxHeight), screen, width, height, Visible(region, bpp), bpp)
    ensures !whole ==> cl.sends == 0 || (!ok && (LongLine(region, bpp) || Refused(encoding, bpp))) || Lost(encoding, bpp)
    ensures region != [] && Lost(encoding, bpp) ==> ok && !whole && bytes == [] && unchanged(cl, cl.updateBuf)
    ensures region != [] && Refused(encoding, bpp) ==> !ok
  {
    hide Conveys, AllPixels, Total, Parts, InBoxes, Visible, Lost, Refused, RectBytes, RegionBytes;
    ok, whole, bytes := true, true, [];
    ConveysNothing(screen, width, height, bpp);
    TotalNothing(encoding, maxWidth, maxHeight);
    assert region[..0] == [];
    VisibleNext(region, 0, bpp);
    RegionNothing(screen, width, bpp, encoding, maxWidth, maxHeight);
    for i := 0 to |region|
      invariant cl.Valid() && cl.sends <= old(cl.sends)
      invariant if whole then
                  && cl.Out() == old(cl.Out()) + bytes
                  && bytes == RegionBytes(screen, width, region[..i], bpp, encoding, maxWidth, maxHeight)
                  && Conveys(bytes, Total(region[..i], encoding, maxWidth, maxHeight), screen, width, height, Visible(region[..i], bpp), bpp)
                else cl.sends == 0 || Lost(encoding, bpp)
      invariant Lost(encoding, bpp) ==> bytes == [] && (i > 0 ==> !whole) && unchanged(cl, cl.updateBuf)
      invariant Refused(encoding, bpp) ==> i == 0
    {
      ghost var sent, more;
      ok, sent, more := SendRect(cl, screen, width, height, region[i], bpp, encoding, maxWidth, maxHeight);
      if whole && sent {
        ConveysBoth(bytes, Total(region[..i], encoding, maxWidth, maxHeight), more, Parts(region[i], encoding, maxWidth, maxHeight),
                    screen, width, height, Visible(region[..i], bpp), Visible([region[i]], bpp), bpp);
        TotalNext(region, i, encoding, maxWidth, maxHeight);
        VisibleNext(region, i, bpp);
        RegionNext(screen, width, region, i, bpp, encoding, maxWidth, maxHeight);
        bytes := bytes + more;
      }
      whole := whole && sent;
      if !ok {
        return;
      }
    }
    assert region[..|region|] == region;
    ok := true;
  }

  lemma VisibleNext(region: seq<Box>, i: nat, bpp: nat)
    requires i <= |region|
    ensures Visible([], bpp) == []
    ensures i < |region| ==> Visible(region[..i + 1], bpp) == Visible(region[..i], bpp) + Visible([region[i]], bpp)
  {
    if i < |region| {
      assert region[..i + 1] == region[..i] + [region[i]];
    }
  }

  lemma TotalNothing(encoding: nat, maxWidth: nat, maxHeight: nat)
    requires maxWidth > 0 && maxHeight > 0
    ensures Total([], encoding, maxWidth, maxHeight) == 0
  {
  }

  // ---------- What becomes of an update ----------

  /** What the client makes of all that the server sends behind the header of an update: it takes up all of it just when the
      number of rectangles is below 0xFFFF, shows them all if there are no more than that, and none if the number that it
      reads is 0. */
  lemma Taking(t: Screen, bytes: seq<byte>, n: nat, screen: seq<Pixel>, width: nat, height: nat, boxes: seq<Box>, bpp: nat, garbage: Pixel)
    requires width > 0 && Conveys(bytes, n, screen, width, height, boxes, bpp)
    requires t.input == bytes + Marker(n) && |t.canvas| == |screen|
    ensures var d := DecodeRects(t, width, height, bpp, garbage, n % 0x1_0000);
            && d.Some? && !d.value.last && (d.value.screen.input == [] <==> n < 0xFFFF)
            && (n <= 0xFFFF ==> ShowsBoxes(d.value.screen.canvas, t.canvas, screen, boxes, width))
            && (n % 0x1_0000 == 0 ==> d.value.screen == t)
  {
    hide DecodeRect, ShowsBoxes;
    var m := n % 0x1_0000;
    var all := DecodeRects(t, width, height, bpp, garbage, n);
    assert bytes <= t.input && t.input[|bytes|..] == Marker(n);
    assert Conveyed(t, all, |bytes|, screen, width, boxes);
    if n >= 0x1_0000 {
      DecodeMore(t, width, height, bpp, garbage, m, n - m);
      var d := DecodeRects(t, width, height, bpp, garbage, m);
      if d.value.screen.input == [] {
        NothingTaken(d.value.screen, width, height, bpp, garbage, n - m);
      }
    }
  }

  /** Without bytes there are no rectangles. */
  lemma {:induction false} NothingTaken(s: Screen, width: nat, height: nat, bpp: nat, garbage: Pixel, n: nat)
    requires width > 0 && s.input == [] && n > 0
    ensures DecodeRects(s, width, height, bpp, garbage, n).None?
  {
    if n > 1 {
      NothingTaken(s, width, height, bpp, garbage, n - 1);
    }
  }

  /** Both ends of the protocol.  At the supported pixel sizes, an update of a region, sent in any of the encodings, makes the
      client show the server's screen in the region and leaves its other pixels as they were, as long as there are at most
      0xFFFF rectangles; and it leaves nothing behind that the client would take for another message just when there are
      fewer.  At other pixel sizes the client never shows anything; the server refuses RRE and hextile, but announces
      CoRRE rectangles that do not come. `rest` is what the client has not taken up. */
  method Deliver(cl: Updates, screen: seq<Pixel>, region: seq<Box>, bpp: nat, encoding: nat, maxWidth: nat, maxHeight: nat,
                 fb: FrameBuffer, garbage: Pixel)
      returns (sent: bool, ok: bool, rest: seq<byte>)
    requires cl.Valid() && cl.ublen == 0 && cl.sent == [] && fb.Valid() && 0 < bpp <= 4 && fb.width < 0x1_0000 && fb.height < 0x1_0000
    requires IsRegion(region, fb.width, fb.height) && Known(encoding) && 0 < maxWidth < 256 && 0 < maxHeight < 256
    requires |screen| == fb.height * fb.width && AllPixels(screen, bpp) && fb.pixels as object != cl.updateBuf as object
    modifies cl, cl.updateBuf, fb.pixels
    ensures !sent ==> cl.sends == 0 || LongLine(region, bpp) || Refused(encoding, bpp)
    ensures region != [] && Refused(encoding, bpp) ==> !sent
    ensures region != [] && Lost(encoding, bpp) ==> sent == (old(cl.sends) > 0)
    ensures sent && Supported(bpp) ==>
              var n := Total(region, encoding, maxWidth, maxHeight);
              && ok && (rest == [] <==> n < 0xFFFF)
              && (n <= 0xFFFF ==> ShowsBoxes(fb.pixels[..], old(fb.pixels[..]), screen, region, fb.width))
              && (n % 0x1_0000 == 0 ==> fb.pixels[..] == old(fb.pixels[..]))
    ensures !Supported(bpp) ==> fb.pixels[..] == old(fb.pixels[..])
    ensures sent && !Supported(bpp) && 0 < Total(region, encoding, maxWidth, maxHeight) < 0xFFFF ==> ok == (encoding == ENCODING_RAW)
  {
    hide Conveys, AllPixels, Total, ShowsBoxes, DecodeRects, Big, Swapped, Marker;
    ghost var bytes;
    sent, bytes := SendUpdate(cl, screen, fb.width, fb.height, region, bpp, encoding, maxWidth, maxHeight);
    ok, rest := sent, [];
    TotalNothing(encoding, maxWidth, maxHeight);
    NoneShown(fb.pixels[..], screen, fb.width);
    if sent && region != [] {
      ghost var n := Total(region, encoding, maxWidth, maxHeight);
      var conn := new Connection(cl.sent);
      var kind;
      ok, kind := conn.Read(1);
      ghost var s := Screen(conn.input, fb.pixels[..]);
      MessageRead(cl.sent, n, bytes);
      TwoBytes(n);
      ghost var t := Screen(s.input[3..], s.canvas);
      if Lost(encoding, bpp) {
        if 0 < n < 0xFFFF {
          MarkerIs(n);
          NothingTaken(t, fb.width, fb.height, bpp, garbage, n);
        }
      } else {
        Taking(t, bytes, n, screen, fb.width, fb.height, Visible(region, bpp), bpp, garbage);
      }
      ok := HandleUpdate(conn, fb, bpp, garbage);
      rest := conn.input;
    }
  }

  lemma NoneShown(c: seq<Pixel>, screen: seq<Pixel>, width: nat)
    requires width > 0 && |c| == |screen|
    ensures ShowsBoxes(c, c, screen, [], width)
  {
  }

  lemma MessageRead(all: seq<byte>, n: nat, bytes: seq<byte>)
    requires all == [] + (Message(n) + bytes + Marker(n))
    ensures |all| >= 4 && all[1..][..3][1..] == Swapped(n, 2) && all[1..][3..] == bytes + Marker(n)
  {
    hide Swapped, Marker;
    var tail := bytes + Marker(n);
    assert all == [0, 0] + Swapped(n, 2) + tail;
    assert all[1..] == [0] + Swapped(n, 2) + tail;
    assert all[1..][..3] == [0] + Swapped(n, 2);
  }

  /** Regions with exactly 0xFFFF and 0x10000 CoRRE rectangles of the server's default size. */
  lemma ManyRectangles()
    ensures IsRegion([Box(0, 0, 12336, 12240)], 12336, 12288) && IsRegion([Box(0, 0, 12288, 12288)], 12336, 12288)
    ensures Total([Box(0, 0, 12336, 12240)], ENCODING_CORRE, 48, 48) == 0xFFFF
    ensures Total([Box(0, 0, 12288, 12288)], ENCODING_CORRE, 48, 48) == 0x1_0000
  {
    TotalNothing(ENCODING_CORRE, 48, 48);
  }

  /** One pixel of 24 bits in CoRRE: the server reports success, and the client waits for a rectangle that does not come. */
  method OnePixelLost(colour: Pixel, garbage: Pixel) returns (sent: bool, ok: bool)
    requires |colour| == 3
    ensures sent && !ok
  {
    var cl := new Updates(1);
    var fb := new FrameBuffer(1, 1, colour);
    var region := [Box(0, 0, 1, 1)];
    TotalNothing(ENCODING_CORRE, 48, 48);
    assert Total(region, ENCODING_CORRE, 48, 48) == 1;
    var rest;
    sent, ok, rest := Deliver(cl, [colour], region, 3, ENCODING_CORRE, 48, 48, fb, garbage);
  }

  /** The screen with one pixel. */
  function Dot(bpp: nat, b: byte): (screen: seq<Pixel>)
    ensures |screen| == 1 && AllPixels(screen, bpp)
  {
    [seq(bpp, _ => b)]
  }

  /** There are bytes that convey a screen to every client. */
  ghost predicate Conveyable(screen: seq<Pixel>, width: nat, height: nat, bpp: nat) {
    width > 0 && exists bytes, n :: Conveys(bytes, n, screen, width, height, [Box(0, 0, width, height)], bpp)
  }

  ghost predicate AllConveyable(bpp: nat) {
    forall screen: seq<Pixel>, width: nat, height: nat ::
      0 < width < 0x1_0000 && 0 < height < 0x1_0000 && |screen| == height * width && AllPixels(screen, bpp) ==>
        Conveyable(screen, width, height, bpp)
  }

  /** Whatever is sent, no client shows anything at other pixel sizes. */
  lemma {:induction false} NeverShown(s: Screen, width: nat, height: nat, bpp: nat, garbage: Pixel, n: nat)
    requires width > 0 && !Supported(bpp)
    ensures var d := DecodeRects(s, width, height, bpp, garbage, n); d.Some? ==> d.value.screen.canvas == s.canvas
  {
    hide DecodeBody, WideBox, Big;
    if n > 0 {
      NeverShown(s, width, height, bpp, garbage, n - 1);
      forall encoding, t, rect
        ensures var d := DecodeBody(encoding, t, width, height, rect, bpp, garbage); d.Some? ==> d.value.canvas == t.canvas
      {
        BodyUnshown(encoding, t, width, height, rect, bpp, garbage);
      }
    }
  }

  lemma BodyUnshown(encoding: nat, t: Screen, width: nat, height: nat, rect: Box, bpp: nat, garbage: Pixel)
    requires width > 0 && !Supported(bpp)
    ensures var d := DecodeBody(encoding, t, width, height, rect, bpp, garbage); d.Some? ==> d.value.canvas == t.canvas
  {
    hide Chop;
  }

  /** There are bytes for every screen just at the supported pixel sizes. */
  lemma ConveyableIff(bpp: nat)
    requires 0 < bpp <= 4
    ensures AllConveyable(bpp) <==> Supported(bpp)
  {
    hide Conveys, AllPixels;
    if Supported(bpp) {
      forall screen: seq<Pixel>, width: nat, height: nat |
          0 < width < 0x1_0000 && 0 < height < 0x1_0000 && |screen| == height * width && AllPixels(screen, bpp)
        ensures Conveyable(screen, width, height, bpp)
      {
        RawConveys(screen, width, height, Box(0, 0, width, height), bpp);
      }
    } else {
      DotUnshown(bpp);
    }
  }

  lemma DotUnshown(bpp: nat)
    requires 0 < bpp && !Supported(bpp)
    ensures !Conveyable(Dot(bpp, 1), 1, 1, bpp)
  {
    hide DecodeRects;
    if bytes, n :| Conveys(bytes, n, Dot(bpp, 1), 1, 1, [Box(0, 0, 1, 1)], bpp) {
      var s := Screen(bytes, Dot(bpp, 0));
      var d := DecodeRects(s, 1, 1, bpp, [], n);
      assert Conveyed(s, d, |bytes|, Dot(bpp, 1), 1, [Box(0, 0, 1, 1)]);
      DotsDiffer(bpp);
      DotShown(d.value.screen.canvas, Dot(bpp, 0), Dot(bpp, 1));
      NeverShown(s, 1, 1, bpp, [], n);
    }
  }

  lemma DotsDiffer(bpp: nat)
    requires bpp > 0
    ensures Dot(bpp, 0) != Dot(bpp, 1)
  {
    assert Dot(bpp, 0)[0][0] != Dot(bpp, 1)[0][0];
  }

  lemma DotShown(now: seq<Pixel>, was: seq<Pixel>, screen: seq<Pixel>)
    requires |screen| == 1 && ShowsBoxes(now, was, screen, [Box(0, 0, 1, 1)], 1)
    ensures now == screen
  {
    assert Covers([Box(0, 0, 1, 1)][0], Col(1, 0), Row(1, 0));
  }
}
