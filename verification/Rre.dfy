/** The client's RRE and CoRRE decoders. */
module Rre {
  import opened Wrappers
  import opened Grid
  import opened Octets
  import opened Canvas
  import opened Connection

  datatype Screen = Screen(input: seq<byte>, canvas: seq<Pixel>)

  /** The rectangle of an RRE subrectangle: four numbers of two bytes. */
  function WideBox(c: seq<byte>): Box
    requires |c| == 8
  {
    Box(Big(c[..2]), Big(c[2..4]), Big(c[4..6]), Big(c[6..]))
  }

  /** The rectangle of a CoRRE subrectangle: four bytes. */
  function SmallBox(c: seq<byte>): Box
    requires |c| == 4
  {
    Box(Int(c[0]), Int(c[1]), Int(c[2]), Int(c[3]))
  }

  function WideSubs(chunks: seq<seq<byte>>, bpp: nat): (r: seq<Sub>)
    requires forall i :: 0 <= i < |chunks| ==> |chunks[i]| == bpp + 8
    ensures |r| == |chunks|
  {
    seq(|chunks|, i requires 0 <= i < |chunks| => Sub(WideBox(chunks[i][bpp..]), chunks[i][..bpp]))
  }

  function SmallSubs(chunks: seq<seq<byte>>, bpp: nat): (r: seq<Sub>)
    requires forall i :: 0 <= i < |chunks| ==> |chunks[i]| == bpp + 4
    ensures |r| == |chunks|
  {
    seq(|chunks|, i requires 0 <= i < |chunks| => Sub(SmallBox(chunks[i][bpp..]), chunks[i][..bpp]))
  }

  /** The number of subrectangles, once the header and the background are there. */
  function NSubrects(input: seq<byte>): nat
    requires |input| >= 4
  {
    Big(input[..4])
  }

  /** A background, and subrectangles over it. */
  function Painted(c: seq<Pixel>, width: nat, height: nat, rect: Box, bg: Pixel, subs: seq<Sub>): (r: seq<Pixel>)
    requires width > 0
    ensures |r| == |c|
  {
    Paint(Fill(c, width, height, rect, bg), width, height, rect.x, rect.y, subs)
  }

  function DecodeRre(s: Screen, width: nat, height: nat, rect: Box, bpp: nat): Option<Screen>
    requires width > 0
  {
    if |s.input| < 4 + bpp then None
    else
      var n, bg, body := NSubrects(s.input), s.input[4..4 + bpp], s.input[4 + bpp..];
      if |body| < n * (bpp + 8) then None
      else Some(Screen(body[n * (bpp + 8)..], Painted(s.canvas, width, height, rect, bg, WideSubs(Chop(body, bpp + 8, n), bpp))))
  }

  function DecodeCorre(s: Screen, width: nat, height: nat, rect: Box, bpp: nat): Option<Screen>
    requires width > 0
  {
    if |s.input| < 4 + bpp then None
    else
      var n, bg, body := NSubrects(s.input), s.input[4..4 + bpp], s.input[4 + bpp..];
      if n > RFB_BUFFER_SIZE / (4 + bpp) || |body| < n * (4 + bpp) then None
      else Some(Screen(body[n * (4 + bpp)..], Painted(s.canvas, width, height, rect, bg, SmallSubs(Chop(body, bpp + 4, n), bpp))))
  }

  /** Piece `i` of a stream, as it is read in two parts. */
  lemma PieceAt(input: seq<byte>, a: nat, b: nat, n: nat, i: nat)
    requires n * (a + b) <= |input| && i < n
    ensures 0 <= i * (a + b) <= |input|
    ensures var rest := input[i * (a + b)..];
            && a + b <= |rest|
            && Chop(input, a + b, n)[i][..a] == rest[..a] && Chop(input, a + b, n)[i][a..] == rest[a..][..b]
            && 0 <= (i + 1) * (a + b) <= |input| && rest[a..][b..] == input[(i + 1) * (a + b)..]
  {
    ChopAt(input, a + b, n, i);
    Peel(i + 1, a + b);
    var rest := input[i * (a + b)..];
    assert Chop(input, a + b, n)[i] == rest[..a + b];
  }

  lemma PiecesEnd(input: seq<byte>, m: nat, n: nat, i: nat)
    requires i < n && i * m <= |input| && |input[i * m..]| < m
    ensures |input| < n * m
  {
    Scale(m, i + 1, n);
    Peel(i + 1, m);
  }

  /** The loop over subrectangles of `HandleRRE`. */
  method PaintRre(conn: Connection, fb: FrameBuffer, n: nat, x: nat, y: nat, bpp: nat) returns (ok: bool)
    requires fb.Valid() && Supported(bpp)
    modifies conn, fb.pixels
    ensures ok == (n * (bpp + 8) <= |old(conn.input)|)
    ensures ok ==>
        && conn.input == old(conn.input)[n * (bpp + 8)..]
        && fb.pixels[..] == Paint(old(fb.pixels[..]), fb.width, fb.height, x, y, WideSubs(Chop(old(conn.input), bpp + 8, n), bpp))
  {
    hide Big, Paint, Fill, Chop;
    ghost var was, body := fb.pixels[..], conn.input;
    ghost var whole := n * (bpp + 8) <= |body|;
    ghost var subs := if whole then WideSubs(Chop(body, bpp + 8, n), bpp) else [];
    PaintNone(was, fb.width, fb.height, x, y);
    assert subs[..0] == [] && body[0..] == body;
    for i := 0 to n
      invariant i * (bpp + 8) <= |body| && conn.input == body[i * (bpp + 8)..]
      invariant whole ==> fb.pixels[..] == Paint(was, fb.width, fb.height, x, y, subs[..i])
    {
      if whole {
        PieceAt(body, bpp, 8, n, i);
        PaintOne(was, fb.width, fb.height, x, y, subs, i);
      } else if |conn.input| < bpp + 8 {
        PiecesEnd(body, bpp + 8, n, i);
      } else {
        Peel(i + 1, bpp + 8);
      }
      var pix, bytes;
      ok, pix := conn.Read(bpp);
      if !ok {
        return;
      }
      ok, bytes := conn.Read(8);
      if !ok {
        return;
      }
      fb.FillRectangle(Moved(WideBox(bytes), x, y), pix, bpp);
    }
    assert whole ==> subs[..n] == subs;
    return true;
  }

  /** `HandleRRE`, for all three pixel sizes: it fails just when the bytes run out, and otherwise paints the
      subrectangles in their order. */
  method HandleRre(conn: Connection, fb: FrameBuffer, rect: Box, bpp: nat) returns (ok: bool)
    requires fb.Valid() && Supported(bpp)
    modifies conn, fb.pixels
    ensures var d := DecodeRre(Screen(old(conn.input), old(fb.pixels[..])), fb.width, fb.height, rect, bpp);
            ok == d.Some? && (ok ==> d.value == Screen(conn.input, fb.pixels[..]))
  {
    hide Big, Paint, Fill, Chop;
    var hdr, pix;
    ghost var input := conn.input;
    ok, hdr := conn.Read(4);
    if !ok {
      return;
    }
    ok, pix := conn.Read(bpp);
    if !ok {
      return;
    }
    assert pix == input[4..4 + bpp] && conn.input == input[4 + bpp..];
    fb.FillRectangle(rect, pix, bpp);
    ok := PaintRre(conn, fb, Big(hdr), rect.x, rect.y, bpp);
  }

  /** `HandleCoRRE`, for all three pixel sizes: it also fails when the subrectangles would not fit the client's buffer. */
  method HandleCorre(conn: Connection, fb: FrameBuffer, rect: Box, bpp: nat) returns (ok: bool)
    requires fb.Valid() && Supported(bpp)
    modifies conn, fb.pixels
    ensures var d := DecodeCorre(Screen(old(conn.input), old(fb.pixels[..])), fb.width, fb.height, rect, bpp);
            ok == d.Some? && (ok ==> d.value == Screen(conn.input, fb.pixels[..]))
  {
    hide Big, Paint, Fill, Chop;
    var hdr, pix, buffer;
    ghost var input := conn.input;
    ok, hdr := conn.Read(4);
    if !ok {
      return;
    }
    var nSubrects := Big(hdr);
    ok, pix := conn.Read(bpp);
    if !ok {
      return;
    }
    assert pix == input[4..4 + bpp] && conn.input == input[4 + bpp..];
    fb.FillRectangle(rect, pix, bpp);
    if nSubrects > RFB_BUFFER_SIZE / (4 + bpp) {
      return false;
    }
    Scale(4 + bpp, nSubrects, RFB_BUFFER_SIZE / (4 + bpp));
    ghost var body := conn.input;
    ok, buffer := conn.ReadBuffer(nSubrects * (4 + bpp));
    if !ok {
      return;
    }
    ChopPrefix(body, bpp + 4, nSubrects);
    PaintCorre(fb, buffer, nSubrects, rect.x, rect.y, bpp);
  }

  /** The loop over subrectangles of `HandleCoRRE`. */
  method PaintCorre(fb: FrameBuffer, buffer: seq<byte>, n: nat, x: nat, y: nat, bpp: nat)
    requires fb.Valid() && Supported(bpp) && |buffer| == n * (bpp + 4)
    modifies fb.pixels
    ensures fb.pixels[..] == Paint(old(fb.pixels[..]), fb.width, fb.height, x, y, SmallSubs(Chop(buffer, bpp + 4, n), bpp))
  {
    hide Int, Paint, Fill, Chop;
    ghost var was, subs := fb.pixels[..], SmallSubs(Chop(buffer, bpp + 4, n), bpp);
    var ptr := 0;
    PaintNone(was, fb.width, fb.height, x, y);
    assert subs[..0] == [] && subs[..n] == subs;
    for i := 0 to n
      invariant ptr == i * (bpp + 4)
      invariant fb.pixels[..] == Paint(was, fb.width, fb.height, x, y, subs[..i])
    {
      ChopAt(buffer, bpp + 4, n, i);
      Peel(i + 1, bpp + 4);
      var pix := buffer[ptr..ptr + bpp];
      ptr := ptr + bpp;
      var b := Box(Int(buffer[ptr]), Int(buffer[ptr + 1]), Int(buffer[ptr + 2]), Int(buffer[ptr + 3]));
      ptr := ptr + 4;
      assert subs[i] == Sub(b, pix);
      PaintOne(was, fb.width, fb.height, x, y, subs, i);
      fb.FillRectangle(Moved(b, x, y), pix, bpp);
    }
  }
}
