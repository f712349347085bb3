/** A framebuffer update, as the client takes it. */
module Update {
  import opened Wrappers
  import opened Grid
  import opened Octets
  import opened Canvas
  import opened Pictures
  import opened Connection
  import opened Rre
  import opened Rectangles
  import Hextile = HextileClient

  /** `HandleHextile` on a screen; `garbage` is what its uninitialised variable holds. */
  function DecodeHextile(s: Screen, width: nat, height: nat, rect: Box, bpp: nat, garbage: Pixel): Option<Screen>
    requires width > 0
  {
    var d := Hextile.Decode(Hextile.State(s.input, seq(bpp, _ => 0), garbage, s.canvas), width, height, rect, bpp, Hextile.Count(rect));
    if d.None? then None else Some(Screen(d.value.input, d.value.canvas))
  }

  /** The bytes behind a header.  The switches over the pixel size for RRE, CoRRE and hextile do nothing at other sizes. */
  function DecodeBody(encoding: nat, s: Screen, width: nat, height: nat, rect: Box, bpp: nat, garbage: Pixel): Option<Screen>
    requires width > 0
  {
    if encoding == ENCODING_RAW then DecodeRaw(s, width, height, rect, bpp)
    else if !Supported(bpp) && (encoding == ENCODING_RRE || encoding == ENCODING_CORRE || encoding == ENCODING_HEXTILE) then Some(s)
    else if encoding == ENCODING_RRE then DecodeRre(s, width, height, rect, bpp)
    else if encoding == ENCODING_CORRE then DecodeCorre(s, width, height, rect, bpp)
    else if encoding == ENCODING_HEXTILE then DecodeHextile(s, width, height, rect, bpp, garbage)
    else None
  }

  /** What some rectangles have left, and whether the marker of the last one has come. */
  datatype Taken = Taken(screen: Screen, last: bool)

  /** A rectangle with its header. */
  function DecodeRect(s: Screen, width: nat, height: nat, bpp: nat, garbage: Pixel): Option<Taken>
    requires width > 0
  {
    if |s.input| < 12 then None
    else
      var (rect, encoding, t) := (WideBox(s.input[..8]), Big(s.input[..12][8..]), Screen(s.input[12..], s.canvas));
      if encoding == ENCODING_LAST_RECT then Some(Taken(t, true))
      else if !CheckRect(rect, width, height) then None
      else
        var d := DecodeBody(encoding, t, width, height, rect, bpp, garbage);
        if d.None? then None else Some(Taken(d.value, false))
  }

  function DecodeRects(s: Screen, width: nat, height: nat, bpp: nat, garbage: Pixel, n: nat): Option<Taken>
    requires width > 0
  {
    if n == 0 then Some(Taken(s, false))
    else
      var before := DecodeRects(s, width, height, bpp, garbage, n - 1);
      if before.None? || before.value.last then before else DecodeRect(before.value.screen, width, height, bpp, garbage)
  }

  lemma {:induction false} DecodeMore(s: Screen, width: nat, height: nat, bpp: nat, garbage: Pixel, n: nat, m: nat)
    requires width > 0
    ensures DecodeRects(s, width, height, bpp, garbage, n + m)
         == (var d := DecodeRects(s, width, height, bpp, garbage, n);
             if d.None? || d.value.last then d else DecodeRects(d.value.screen, width, height, bpp, garbage, m))
    decreases m
  {
    hide DecodeRect;
    if m > 0 {
      DecodeMore(s, width, height, bpp, garbage, n, m - 1);
      assert n + m - 1 == n + (m - 1);
    }
  }

  /** One turn of the client's loop over the rectangles of an update. */
  method HandleRect(conn: Connection, fb: FrameBuffer, bpp: nat, garbage: Pixel) returns (ok: bool, last: bool)
    requires fb.Valid() && 0 < bpp <= 4
    modifies conn, fb.pixels
    ensures var d := DecodeRect(Screen(old(conn.input), old(fb.pixels[..])), fb.width, fb.height, bpp, garbage);
            ok == d.Some? && (ok ==> d.value == Taken(Screen(conn.input, fb.pixels[..]), last))
    ensures !Supported(bpp) ==> fb.pixels[..] == old(fb.pixels[..])
  {
    hide Big, DecodeRaw, DecodeRre, DecodeCorre, WideBox;
    var bytes;
    ghost var input := conn.input;
    last := false;
    ok, bytes := conn.Read(12);
    if !ok {
      return;
    }
    var rect, encoding := WideBox(bytes[..8]), Big(bytes[8..]);
    assert input[..12][..8] == input[..8];
    if encoding == ENCODING_LAST_RECT {
      return true, true;
    }
    if !CheckRect(rect, fb.width, fb.height) {
      return false, false;
    }
    BoxFits(bytes[..8]);
    if encoding == ENCODING_RAW {
      ok := HandleRaw(conn, fb, rect, bpp);
    } else if !Supported(bpp) {
      ok := encoding == ENCODING_RRE || encoding == ENCODING_CORRE || encoding == ENCODING_HEXTILE;
    } else if encoding == ENCODING_RRE {
      ok := HandleRre(conn, fb, rect, bpp);
    } else if encoding == ENCODING_CORRE {
      ok := HandleCorre(conn, fb, rect, bpp);
    } else if encoding == ENCODING_HEXTILE {
      ok := Hextile.HandleHextile(conn, fb, rect, bpp, garbage);
    } else {
      ok := false;
    }
  }

  lemma BoxFits(c: seq<byte>)
    requires |c| == 8
    ensures FitsHeader(WideBox(c))
  {
    hide Big;
    BelowTwoBytes(c[..2]);
    BelowTwoBytes(c[2..4]);
    BelowTwoBytes(c[4..6]);
    BelowTwoBytes(c[6..]);
  }

  lemma BelowTwoBytes(c: seq<byte>)
    requires |c| == 2
    ensures Big(c) < 0x1_0000
  {
    assert c == c[..1] + [c[1]] && c[..1] == [] + [c[0]];
    BigEnd(c[..1], c[1]);
    BigEnd([], c[0]);
  }

  /** The message behind its type byte: a byte of padding, the number of rectangles, and the rectangles. */
  function DecodeUpdate(s: Screen, width: nat, height: nat, bpp: nat, garbage: Pixel): Option<Screen>
    requires width > 0
  {
    if |s.input| < 3 then None
    else
      var d := DecodeRects(Screen(s.input[3..], s.canvas), width, height, bpp, garbage, Big(s.input[..3][1..]));
      if d.None? then None else Some(d.value.screen)
  }

  /** The client's loop over the rectangles of an update, which the marker of the last one ends.  At other pixel sizes it
      shows nothing. */
  method HandleUpdate(conn: Connection, fb: FrameBuffer, bpp: nat, garbage: Pixel) returns (ok: bool)
    requires fb.Valid() && 0 < bpp <= 4
    modifies conn, fb.pixels
    ensures var d := DecodeUpdate(Screen(old(conn.input), old(fb.pixels[..])), fb.width, fb.height, bpp, garbage);
            ok == d.Some? && (ok ==> d.value == Screen(conn.input, fb.pixels[..]))
    ensures !Supported(bpp) ==> fb.pixels[..] == old(fb.pixels[..])
  {
    hide DecodeRect, Big;
    var bytes;
    ok, bytes := conn.Read(3);
    if !ok {
      return;
    }
    var nRects := Big(bytes[1..]);
    ghost var s := Screen(conn.input, fb.pixels[..]);
    for i := 0 to nRects
      invariant DecodeRects(s, fb.width, fb.height, bpp, garbage, i) == Some(Taken(Screen(conn.input, fb.pixels[..]), false))
      invariant !Supported(bpp) ==> fb.pixels[..] == s.canvas
    {
      var last;
      ok, last := HandleRect(conn, fb, bpp, garbage);
      if !ok || last {
        DecodeMore(s, fb.width, fb.height, bpp, garbage, i + 1, nRects - i - 1);
        return;
      }
    }
    ok := true;
  }

  // ---------- Bytes that convey a part of a screen ----------

  ghost predicate InBoxes(boxes: seq<Box>, x: int, y: int) {
    exists i :: 0 <= i < |boxes| && Covers(boxes[i], x, y)
  }

  /** The framebuffer shows the screen in some rectangles, and is what it was elsewhere. */
  ghost predicate ShowsBoxes(now: seq<Pixel>, was: seq<Pixel>, screen: seq<Pixel>, boxes: seq<Box>, width: nat)
    requires width > 0
  {
    && |now| == |was| == |screen|
    && forall k :: 0 <= k < |now| ==> now[k] == if InBoxes(boxes, Col(width, k), Row(width, k)) then screen[k] else was[k]
  }

  /** A client that gets the bytes as `n` rectangles, whatever it showed before and whatever follows them, takes up just
      these bytes and shows the screen in some rectangles, and what it showed before elsewhere. */
  ghost predicate Conveys(bytes: seq<byte>, n: nat, screen: seq<Pixel>, width: nat, height: nat, boxes: seq<Box>, bpp: nat)
    requires width > 0
  {
    forall s: Screen, garbage :: bytes <= s.input && |s.canvas| == |screen| ==>
      Conveyed(s, DecodeRects(s, width, height, bpp, garbage, n), |bytes|, screen, width, boxes)
  }

  ghost predicate Conveyed(s: Screen, d: Option<Taken>, size: nat, screen: seq<Pixel>, width: nat, boxes: seq<Box>)
    requires width > 0 && size <= |s.input|
  {
    && d.Some? && !d.value.last && d.value.screen.input == s.input[size..]
    && ShowsBoxes(d.value.screen.canvas, s.canvas, screen, boxes, width)
  }

  /** The rectangles of which a client shows anything. */
  function Visible(boxes: seq<Box>, bpp: nat): seq<Box> { if Supported(bpp) then boxes else [] }

  /** The same for the bytes of one rectangle behind its header. */
  ghost predicate BodyConveys(encoding: nat, body: seq<byte>, screen: seq<Pixel>, width: nat, height: nat, rect: Box, bpp: nat)
    requires width > 0
  {
    forall s: Screen, garbage :: body <= s.input && |s.canvas| == |screen| ==>
      BodyConveyed(s, DecodeBody(encoding, s, width, height, rect, bpp, garbage), |body|, screen, width, rect, bpp)
  }

  ghost predicate BodyConveyed(s: Screen, d: Option<Screen>, size: nat, screen: seq<Pixel>, width: nat, rect: Box, bpp: nat)
    requires width > 0 && size <= |s.input|
  {
    && d.Some? && d.value.input == s.input[size..]
    && if Supported(bpp) then ShowsRect(d.value.canvas, s.canvas, screen, rect, width) else d.value.canvas == s.canvas
  }

  /** A rectangle is conveyed by its header and its body. */
  lemma ConveysRect(encoding: nat, body: seq<byte>, screen: seq<Pixel>, width: nat, height: nat, rect: Box, bpp: nat)
    requires width > 0 && CheckRect(rect, width, height) && FitsHeader(rect) && encoding < 0x1_0000_0000
    requires encoding != ENCODING_LAST_RECT && BodyConveys(encoding, body, screen, width, height, rect, bpp)
    ensures Conveys(Header(rect, encoding) + body, 1, screen, width, height, Visible([rect], bpp), bpp)
  {
    hide DecodeBody, Header, WideBox, Big, CheckRect;
    var bytes := Header(rect, encoding) + body;
    HeaderBack(rect, encoding);
    forall s: Screen, garbage | bytes <= s.input && |s.canvas| == |screen|
      ensures Conveyed(s, DecodeRects(s, width, height, bpp, garbage, 1), |bytes|, screen, width, Visible([rect], bpp))
    {
      Headed(Header(rect, encoding), body, s.input);
      var t := Screen(s.input[12..], s.canvas);
      var d := DecodeBody(encoding, t, width, height, rect, bpp, garbage);
      assert BodyConveyed(t, d, |body|, screen, width, rect, bpp);
      assert DecodeRects(s, width, height, bpp, garbage, 0) == Some(Taken(s, false));
      assert DecodeRects(s, width, height, bpp, garbage, 1) == Some(Taken(d.value, false));
      if Supported(bpp) {
        OneBox(d.value.canvas, s.canvas, screen, rect, width);
      }
    }
  }

  lemma Headed(header: seq<byte>, body: seq<byte>, input: seq<byte>)
    requires |header| == 12 && header + body <= input
    ensures input[..8] == header[..8] && input[..12][8..] == header[8..] && body <= input[12..]
    ensures input[12..][|body|..] == input[|header + body|..]
  {
    assert input[..12] == header;
    assert input[12..][..|body|] == body;
  }

  lemma OneBox(now: seq<Pixel>, was: seq<Pixel>, screen: seq<Pixel>, rect: Box, width: nat)
    requires width > 0 && ShowsRect(now, was, screen, rect, width)
    ensures ShowsBoxes(now, was, screen, [rect], width)
  {
    forall k | 0 <= k < |now|
      ensures InBoxes([rect], Col(width, k), Row(width, k)) <==> Covers(rect, Col(width, k), Row(width, k))
    {
      if Covers(rect, Col(width, k), Row(width, k)) {
        assert Covers([rect][0], Col(width, k), Row(width, k));
      }
    }
  }

  lemma ConveysNothing(screen: seq<Pixel>, width: nat, height: nat, bpp: nat)
    requires width > 0
    ensures Conveys([], 0, screen, width, height, [], bpp)
  {
    forall s: Screen, garbage | |s.canvas| == |screen|
      ensures Conveyed(s, DecodeRects(s, width, height, bpp, garbage, 0), 0, screen, width, [])
    {
    }
  }

  /** Bytes that convey one part and then another. */
  lemma ConveysBoth(x: seq<byte>, n: nat, y: seq<byte>, m: nat, screen: seq<Pixel>, width: nat, height: nat,
                    c: seq<Box>, d: seq<Box>, bpp: nat)
    requires width > 0 && Conveys(x, n, screen, width, height, c, bpp) && Conveys(y, m, screen, width, height, d, bpp)
    ensures Conveys(x + y, n + m, screen, width, height, c + d, bpp)
  {
    hide DecodeRects, ShowsBoxes;
    var (bytes, all, boxes) := (x + y, n + m, c + d);
    forall s: Screen, garbage | bytes <= s.input && |s.canvas| == |screen|
      ensures Conveyed(s, DecodeRects(s, width, height, bpp, garbage, all), |bytes|, screen, width, boxes)
    {
      Behind(x, y, s.input);
      DecodeMore(s, width, height, bpp, garbage, n, m);
      assert Conveyed(s, DecodeRects(s, width, height, bpp, garbage, n), |x|, screen, width, c);
      var t := DecodeRects(s, width, height, bpp, garbage, n).value.screen;
      SameSize(t.canvas, s.canvas, screen, c, width);
      assert Conveyed(t, DecodeRects(t, width, height, bpp, garbage, m), |y|, screen, width, d);
      ShowsBoth(DecodeRects(t, width, height, bpp, garbage, m).value.screen.canvas, t.canvas, s.canvas, screen, c, d, width);
    }
  }

  lemma SameSize(now: seq<Pixel>, was: seq<Pixel>, screen: seq<Pixel>, boxes: seq<Box>, width: nat)
    requires width > 0 && ShowsBoxes(now, was, screen, boxes, width)
    ensures |now| == |screen|
  {
  }

  lemma Behind(x: seq<byte>, y: seq<byte>, input: seq<byte>)
    requires x + y <= input
    ensures x <= input && y <= input[|x|..] && input[|x|..][|y|..] == input[|x + y|..]
  {
    assert input[..|x|] == (x + y)[..|x|] == x;
    assert input[|x|..][..|y|] == (x + y)[|x|..] == y;
  }

  lemma ShowsBoth(now: seq<Pixel>, mid: seq<Pixel>, was: seq<Pixel>, screen: seq<Pixel>, c: seq<Box>, d: seq<Box>, width: nat)
    requires width > 0 && ShowsBoxes(mid, was, screen, c, width) && ShowsBoxes(now, mid, screen, d, width)
    ensures ShowsBoxes(now, was, screen, c + d, width)
  {
    forall k | 0 <= k < |now|
      ensures InBoxes(c + d, Col(width, k), Row(width, k))
         <==> InBoxes(c, Col(width, k), Row(width, k)) || InBoxes(d, Col(width, k), Row(width, k))
    {
      InEither(c, d, Col(width, k), Row(width, k));
    }
  }

  lemma InEither(c: seq<Box>, d: seq<Box>, x: int, y: int)
    ensures InBoxes(c + d, x, y) <==> InBoxes(c, x, y) || InBoxes(d, x, y)
  {
    if i :| 0 <= i < |c| && Covers(c[i], x, y) {
      assert (c + d)[i] == c[i];
    }
    if i :| 0 <= i < |d| && Covers(d[i], x, y) {
      assert (c + d)[|c| + i] == d[i];
    }
  }

  /** Other rectangles that make up the same part. */
  lemma ConveysSame(bytes: seq<byte>, n: nat, screen: seq<Pixel>, width: nat, height: nat, c: seq<Box>, d: seq<Box>, bpp: nat)
    requires width > 0 && Conveys(bytes, n, screen, width, height, c, bpp)
    requires forall x, y :: InBoxes(c, x, y) <==> InBoxes(d, x, y)
    ensures Conveys(bytes, n, screen, width, height, d, bpp)
  {
    hide DecodeRects, InBoxes;
    forall s: Screen, garbage | bytes <= s.input && |s.canvas| == |screen|
      ensures Conveyed(s, DecodeRects(s, width, height, bpp, garbage, n), |bytes|, screen, width, d)
    {
      assert Conveyed(s, DecodeRects(s, width, height, bpp, garbage, n), |bytes|, screen, width, c);
    }
  }
}
