/** The server's raw rectangles. */
module RawServer {
  import opened Grid
  import opened Octets
  import opened Canvas
  import opened Subrects
  import opened Pictures
  import opened UpdateBuffer
  import opened Rre
  import opened Rectangles
  import opened Update

  lemma {:induction false} FlatJoin(a: seq<seq<byte>>, b: seq<seq<byte>>)
    ensures Flat(a + b) == Flat(a) + Flat(b)
    decreases |a|
  {
    if a == [] {
      assert a + b == b;
    } else {
      assert (a + b)[1..] == a[1..] + b;
      FlatJoin(a[1..], b);
    }
  }

  /** The lines of a part are those above a line and a strip of `n` lines below it. */
  lemma PartStrip(screen: seq<Pixel>, width: nat, rect: Box, done: nat, n: nat)
    requires rect.w > 0
    ensures Part(screen, width, rect.(h := done + n))
         == Part(screen, width, rect.(h := done)) + Part(screen, width, Box(rect.x, rect.y + done, rect.w, n))
  {
    hide Part;
    var (w, a, m) := (rect.w, rect.w * done, rect.w * n);
    assert w * (done + n) == a + m;
    var (whole, upper, lower) := (Part(screen, width, rect.(h := done + n)), Part(screen, width, rect.(h := done)),
                                  Part(screen, width, Box(rect.x, rect.y + done, w, n)));
    forall k: nat | k < m
      ensures whole[a + k] == lower[k]
    {
      PartLower(screen, width, rect, done, n, a, k);
    }
    forall k: nat | k < a
      ensures whole[k] == upper[k]
    {
      PartUpper(screen, width, rect, done, n, k);
    }
    assert whole[..a] == upper && whole[a..] == lower;
  }

  lemma PartUpper(screen: seq<Pixel>, width: nat, rect: Box, done: nat, n: nat, k: nat)
    requires rect.w > 0 && k < rect.w * done <= rect.w * (done + n)
    ensures Part(screen, width, rect.(h := done + n))[k] == Part(screen, width, rect.(h := done))[k]
  {
    hide Dot;
  }

  lemma PartLower(screen: seq<Pixel>, width: nat, rect: Box, done: nat, n: nat, a: nat, k: nat)
    requires rect.w > 0 && k < rect.w * n && a == rect.w * done && rect.w * (done + n) == a + rect.w * n
    ensures Part(screen, width, rect.(h := done + n))[a + k] == Part(screen, width, Box(rect.x, rect.y + done, rect.w, n))[k]
  {
    hide Dot;
    RowCol(rect.w, n, k);
    At(rect.w, done + Row(rect.w, k), Col(rect.w, k));
    assert (done + Row(rect.w, k)) * rect.w == a + Row(rect.w, k) * rect.w;
  }

  lemma PartSize(screen: seq<Pixel>, width: nat, height: nat, b: Box, bpp: nat)
    requires b.w > 0 && CheckRect(b, width, height) && |screen| == height * width && AllPixels(screen, bpp)
    ensures |Flat(Part(screen, width, b))| == b.h * (b.w * bpp)
  {
    hide Part, AllPixels, Flat, Chop, CheckRect;
    PartPixels(screen, width, height, b, bpp);
    PixelSizes(Part(screen, width, b), bpp);
    FlatChop(Part(screen, width, b), bpp, []);
    Regroup(b.w, b.h, bpp);
  }

  /** A strip of `n` lines into the buffer. */
  method PutStrip(cl: Updates, screen: seq<Pixel>, width: nat, height: nat, rect: Box, bpp: nat, done: nat, n: nat, ghost before: seq<byte>)
    requires cl.Valid() && rect.w > 0 && CheckRect(rect, width, height) && done + n <= rect.h
    requires |screen| == height * width && AllPixels(screen, bpp) && cl.ublen + n * (rect.w * bpp) <= UPDATE_BUF_SIZE
    requires cl.Out() == before + Flat(Part(screen, width, rect.(h := done)))
    modifies cl`ublen, cl.updateBuf
    ensures cl.Valid() && cl.ublen == old(cl.ublen) + n * (rect.w * bpp)
    ensures cl.Out() == before + Flat(Part(screen, width, rect.(h := done + n)))
  {
    hide Part, AllPixels, Flat;
    var strip := Box(rect.x, rect.y + done, rect.w, n);
    PartSize(screen, width, height, strip, bpp);
    PartStrip(screen, width, rect, done, n);
    FlatJoin(Part(screen, width, rect.(h := done)), Part(screen, width, strip));
    var data := Translate(screen, width, strip);
    cl.PutAll(Flat(data[..]));
  }

  /** How many lines the rest of the buffer holds. */
  function Room(ublen: nat, bytesPerLine: nat): (n: nat)
    requires ublen <= UPDATE_BUF_SIZE && bytesPerLine > 0
    ensures ublen + n * bytesPerLine <= UPDATE_BUF_SIZE
    ensures ublen == 0 ==> (n == 0 <==> bytesPerLine > UPDATE_BUF_SIZE)
  {
    RoomIs(UPDATE_BUF_SIZE - ublen, bytesPerLine);
    Quotient(UPDATE_BUF_SIZE - ublen, bytesPerLine)
  }

  lemma RoomIs(space: nat, line: nat)
    requires line > 0
    ensures Quotient(space, line) * line <= space && (Quotient(space, line) == 0 <==> line > space)
  {
    assert space == line * Quotient(space, line) + space % line;
  }

  /** The bytes of a raw rectangle: its header, and its pixels line by line. */
  function RawBytes(screen: seq<Pixel>, width: nat, rect: Box): seq<byte> {
    if rect.w == 0 || rect.h == 0 then [] else Header(rect, ENCODING_RAW) + Flat(Part(screen, width, rect))
  }

  /** `rfbSendRectEncodingRaw`: it fails when the socket does or when a line is longer than the buffer, and else sends a
      rectangle that a client of a supported pixel size turns back into that part of the screen, and that any other reads
      without showing it. */
  method SendRaw(cl: Updates, screen: seq<Pixel>, width: nat, height: nat, rect: Box, bpp: nat) returns (ok: bool, ghost bytes: seq<byte>)
    requires cl.Valid() && 0 < bpp <= 4 && CheckRect(rect, width, height) && FitsHeader(rect)
    requires |screen| == height * width && AllPixels(screen, bpp)
    modifies cl, cl.updateBuf
    ensures cl.Valid() && cl.sends <= old(cl.sends) && (ok ==> bytes == RawBytes(screen, width, rect))
    ensures rect.w == 0 || rect.h == 0 ==> ok && cl.Out() == old(cl.Out())
    ensures rect.w > 0 && rect.h > 0 ==> !ok ==> cl.sends == 0 || rect.w * bpp > UPDATE_BUF_SIZE
    ensures rect.w > 0 && rect.h > 0 ==> ok ==>
        && cl.Out() == old(cl.Out()) + bytes && Conveys(bytes, 1, screen, width, height, Visible([rect], bpp), bpp)
  {
    hide Part, AllPixels, Conveys, Header, CheckRect;
    bytes := [];
    ok := true;
    if rect.h == 0 || rect.w == 0 {
      return;
    }
    ghost var out := cl.Out();
    if cl.ublen > 0 {
      ok := cl.Send();
      if !ok {
        return;
      }
    }
    cl.PutAll(Header(rect, ENCODING_RAW));
    ghost var before := cl.Out();
    FlatNothing(screen, width, rect);
    ok := SendLines(cl, screen, width, height, rect, bpp, before);
    if ok {
      bytes := Header(rect, ENCODING_RAW) + Flat(Part(screen, width, rect));
      RawConveys(screen, width, height, rect, bpp);
      assert out + Header(rect, ENCODING_RAW) + Flat(Part(screen, width, rect)) == out + bytes;
    }
  }

  lemma FlatNothing(screen: seq<Pixel>, width: nat, rect: Box)
    requires rect.w > 0
    ensures Flat(Part(screen, width, rect.(h := 0))) == []
  {
    assert rect.w * 0 == 0;
  }

  /** The loop that fills the buffer with lines and flushes it. */
  method SendLines(cl: Updates, screen: seq<Pixel>, width: nat, height: nat, rect: Box, bpp: nat, ghost before: seq<byte>) returns (ok: bool)
    requires cl.Valid() && 0 < bpp && rect.w > 0 && rect.h > 0 && CheckRect(rect, width, height)
    requires |screen| == height * width && AllPixels(screen, bpp) && cl.Out() == before
    modifies cl, cl.updateBuf
    ensures cl.Valid() && cl.sends <= old(cl.sends)
    ensures if ok then cl.Out() == before + Flat(Part(screen, width, rect)) else cl.sends == 0 || rect.w * bpp > UPDATE_BUF_SIZE
  {
    hide Part, AllPixels, CheckRect;
    var h := rect.h;
    var bytesPerLine := rect.w * bpp;
    assert bytesPerLine > 0;
    FlatNothing(screen, width, rect);
    var nlines := Room(cl.ublen, bytesPerLine);
    while true
      invariant cl.Valid() && cl.sends <= old(cl.sends) && 0 < h <= rect.h && cl.ublen + nlines * bytesPerLine <= UPDATE_BUF_SIZE && nlines >= 0
      invariant cl.Out() == before + Flat(Part(screen, width, rect.(h := rect.h - h)))
      decreases h, if nlines == 0 then 1 else 0
    {
      if nlines > h {
        Scale(bytesPerLine, h, nlines);
        nlines := h;
      }
      PutStrip(cl, screen, width, height, rect, bpp, rect.h - h, nlines, before);
      h := h - nlines;
      if h == 0 {
        return true;
      }
      ok := cl.Send();
      if !ok {
        return;
      }
      nlines := Room(cl.ublen, bytesPerLine);
      if nlines == 0 {
        return false;
      }
    }
  }

  /** A client that gets the raw pixels shows them, if it can show anything. */
  lemma RawConveys(screen: seq<Pixel>, width: nat, height: nat, rect: Box, bpp: nat)
    requires rect.w > 0 && rect.h > 0 && CheckRect(rect, width, height) && FitsHeader(rect)
    requires |screen| == height * width && AllPixels(screen, bpp)
    ensures Conveys(Header(rect, ENCODING_RAW) + Flat(Part(screen, width, rect)), 1, screen, width, height, Visible([rect], bpp), bpp)
  {
    hide Part, AllPixels, Conveys, Header, Blit, Chop;
    var body := Flat(Part(screen, width, rect));
    PartPixels(screen, width, height, rect, bpp);
    PixelSizes(Part(screen, width, rect), bpp);
    forall s: Screen, garbage | body <= s.input && |s.canvas| == |screen|
      ensures BodyConveyed(s, DecodeBody(ENCODING_RAW, s, width, height, rect, bpp, garbage), |body|, screen, width, rect, bpp)
    {
      var rest := s.input[|body|..];
      assert s.input == body + rest;
      FlatChop(Part(screen, width, rect), bpp, rest);
      BlitShows(s.canvas, screen, width, height, rect);
    }
    ConveysRect(ENCODING_RAW, body, screen, width, height, rect, bpp);
  }

  lemma PixelSizes(d: seq<Pixel>, bpp: nat)
    requires AllPixels(d, bpp)
    ensures forall k :: 0 <= k < |d| ==> |d[k]| == bpp
  {
  }

  lemma BlitShows(c: seq<Pixel>, screen: seq<Pixel>, width: nat, height: nat, rect: Box)
    requires rect.w > 0 && width > 0 && CheckRect(rect, width, height) && |screen| == height * width == |c|
    ensures ShowsRect(Blit(c, width, height, rect, Part(screen, width, rect)), c, screen, rect, width)
  {
    hide Part, Within, Blit;
    forall k: nat | k < |screen|
      ensures Blit(c, width, height, rect, Part(screen, width, rect))[k]
           == if Covers(rect, Col(width, k), Row(width, k)) then screen[k] else c[k]
    {
      BlitAt(c, width, height, rect, Part(screen, width, rect), k);
      if Covers(rect, Col(width, k), Row(width, k)) {
        PartAt(screen, width, height, rect, k);
      }
    }
  }
}
