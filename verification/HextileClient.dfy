/** The client's hextile decoder. */
module HextileClient {
  import opened Wrappers
  import opened Grid
  import opened Octets
  import opened Canvas
  import opened Connection
  import opened HextileFormat

  /** The tiles across a width. */
  function Across(w: nat): nat { (w + 15) / 16 }

  function Count(rect: Box): nat { Across(rect.w) * Across(rect.h) }

  /** The size of the tile at offset `at` of `total` pixels. */
  function Side(total: nat, at: nat): (s: nat)
    ensures s <= 16
  {
    if total <= at then 0 else if total - at < 16 then total - at else 16
  }

  /** Tile `t` of a rectangle, in left-to-right, top-to-bottom order. */
  function TileBox(rect: Box, t: nat): (b: Box)
    ensures b.w <= 16 && b.h <= 16
  {
    if rect.w == 0 then Box(rect.x, rect.y, 0, 0)
    else
      var i, j := Col(Across(rect.w), t), Row(Across(rect.w), t);
      Box(rect.x + 16 * i, rect.y + 16 * j, Side(rect.w, 16 * i), Side(rect.h, 16 * j))
  }

  /** The background after a tile. */
  function NextBg(t: Tile, bg: Option<Pixel>): Option<Pixel> {
    if t.Painted? && t.bg.Some? then t.bg else bg
  }

  /** The foreground that a tile's plain subrectangles have. */
  function OwnFg(t: Tile, fg: Option<Pixel>): Option<Pixel> {
    if t.Painted? && t.fg.Some? then t.fg else fg
  }

  /** The foreground after a tile: the variable also receives the colours of coloured subrectangles. */
  function NextFg(t: Tile, fg: Option<Pixel>): Option<Pixel> {
    if t.Painted? && t.rects.Coloured? && t.rects.subs != [] then Some(t.rects.subs[|t.rects.subs| - 1].colour) else OwnFg(t, fg)
  }

  function Tinted(boxes: seq<Box>, fg: Pixel): (r: seq<Sub>)
    ensures |r| == |boxes|
  {
    seq(|boxes|, i requires 0 <= i < |boxes| => Sub(boxes[i], fg))
  }

  function RectSubs(rects: Rects, fg: Pixel): seq<Sub> {
    match rects
    case NoRects => []
    case Plain(boxes) => Tinted(boxes, fg)
    case Coloured(subs) => subs
  }

  datatype State = State(input: seq<byte>, bg: Pixel, fg: Pixel, canvas: seq<Pixel>)

  /** What a tile does to the client's state. */
  function Shown(t: Tile, rest: seq<byte>, s: State, width: nat, height: nat, b: Box): State
    requires width > 0 && (t.RawTile? ==> |t.pixels| == b.w * b.h)
  {
    if t.RawTile? then s.(input := rest, canvas := Blit(s.canvas, width, height, b, t.pixels))
    else
      var bg := NextBg(t, Some(s.bg)).value;
      State(rest, bg, NextFg(t, Some(s.fg)).value,
            Paint(Fill(s.canvas, width, height, b, bg), width, height, b.x, b.y, RectSubs(t.rects, OwnFg(t, Some(s.fg)).value)))
  }

  function Step(s: State, width: nat, height: nat, b: Box, bpp: nat): Option<State>
    requires width > 0
  {
    var p := Parse(s.input, b.w * b.h, bpp);
    if p.None? then None else Some(Shown(p.value.tile, p.value.rest, s, width, height, b))
  }

  /** The state after the first `t` tiles of a rectangle. */
  function Decode(s: State, width: nat, height: nat, rect: Box, bpp: nat, t: nat): Option<State>
    requires width > 0
  {
    if t == 0 then Some(s)
    else
      var before := Decode(s, width, height, rect, bpp, t - 1);
      if before.None? then None else Step(before.value, width, height, TileBox(rect, t - 1), bpp)
  }

  /** The loop over subrectangles that bring their colours. */
  method PaintColoured(fb: FrameBuffer, buffer: seq<byte>, n: nat, x: nat, y: nat, bpp: nat, fg: Pixel) returns (fg': Pixel)
    requires fb.Valid() && Supported(bpp) && |buffer| == n * (2 + bpp)
    modifies fb.pixels
    ensures var subs := SubsOf(Chop(buffer, 2 + bpp, n), bpp);
            && fb.pixels[..] == Paint(old(fb.pixels[..]), fb.width, fb.height, x, y, subs)
            && fg' == if n == 0 then fg else subs[n - 1].colour
  {
    hide BoxOf, Fill, Paint, Chop;
    ghost var was := fb.pixels[..];
    ghost var subs := SubsOf(Chop(buffer, 2 + bpp, n), bpp);
    var ptr := 0;
    fg' := fg;
    PaintNone(was, fb.width, fb.height, x, y);
    assert subs[..0] == [] && subs[..n] == subs;
    for i := 0 to n
      invariant fb.pixels[..] == Paint(was, fb.width, fb.height, x, y, subs[..i])
      invariant ptr == i * (2 + bpp)
      invariant fg' == if i == 0 then fg else subs[i - 1].colour
    {
      ChopAt(buffer, 2 + bpp, n, i);
      ghost var chunk := buffer[ptr..ptr + 2 + bpp];
      fg' := buffer[ptr..ptr + bpp];
      ptr := ptr + bpp;
      var b := BoxOf(buffer[ptr], buffer[ptr + 1]);
      ptr := ptr + 2;
      assert subs[i] == Sub(b, fg');
      PaintOne(was, fb.width, fb.height, x, y, subs, i);
      fb.FillRectangle(Moved(b, x, y), fg', bpp);
      Peel(i + 1, 2 + bpp);
    }
  }

  /** The loop over subrectangles of the foreground colour. */
  method PaintPlain(fb: FrameBuffer, buffer: seq<byte>, n: nat, x: nat, y: nat, bpp: nat, fg: Pixel)
    requires fb.Valid() && Supported(bpp) && |buffer| == n * 2
    modifies fb.pixels
    ensures fb.pixels[..]
         == Paint(old(fb.pixels[..]), fb.width, fb.height, x, y, Tinted(BoxesOf(Chop(buffer, 2, n)), fg))
  {
    hide BoxOf, Fill, Paint, Chop;
    ghost var was := fb.pixels[..];
    ghost var subs := Tinted(BoxesOf(Chop(buffer, 2, n)), fg);
    var ptr := 0;
    PaintNone(was, fb.width, fb.height, x, y);
    assert subs[..0] == [] && subs[..n] == subs;
    for i := 0 to n
      invariant fb.pixels[..] == Paint(was, fb.width, fb.height, x, y, subs[..i])
      invariant ptr == i * 2
    {
      ChopAt(buffer, 2, n, i);
      var b := BoxOf(buffer[ptr], buffer[ptr + 1]);
      ptr := ptr + 2;
      assert subs[i] == Sub(b, fg);
      PaintOne(was, fb.width, fb.height, x, y, subs, i);
      fb.FillRectangle(Moved(b, x, y), fg, bpp);
    }
  }

  /** A tile's subrectangles, read into the client's buffer and painted out of it. */
  method HandleRects(conn: Connection, fb: FrameBuffer, head: byte, x: nat, y: nat, bpp: nat, fg: Pixel)
      returns (ok: bool, fg': Pixel)
    requires fb.Valid() && Supported(bpp)
    modifies conn, fb.pixels
    ensures ok == ParseRects(head, old(conn.input), bpp).Some?
    ensures ok ==> var p := ParseRects(head, old(conn.input), bpp).value;
                   && conn.input == p.rest
                   && fb.pixels[..] == Paint(old(fb.pixels[..]), fb.width, fb.height, x, y, RectSubs(p.rects, fg))
                   && Some(fg') == NextFg(Painted(None, None, p.rects), Some(fg))
  {
    hide Has, Int, Paint, ParseColoured, ParsePlain;
    fg' := fg;
    PaintNone(fb.pixels[..], fb.width, fb.height, x, y);
    if !Has(head, AnySubrects) {
      return true, fg';
    }
    var nSubrects;
    ok, nSubrects := conn.Read(1);
    if !ok {
      return;
    }
    if Has(head, SubrectsColoured) {
      ok, fg' := HandleColoured(conn, fb, Int(nSubrects[0]), x, y, bpp, fg);
    } else {
      ok := HandlePlain(conn, fb, Int(nSubrects[0]), x, y, bpp, fg);
    }
  }

  method HandleColoured(conn: Connection, fb: FrameBuffer, n: nat, x: nat, y: nat, bpp: nat, fg: Pixel) returns (ok: bool, fg': Pixel)
    requires fb.Valid() && Supported(bpp) && n < 256
    modifies conn, fb.pixels
    ensures var p := ParseColoured(n, old(conn.input), bpp);
            && ok == p.Some?
            && (ok ==> && conn.input == p.value.rest
                       && fb.pixels[..] == Paint(old(fb.pixels[..]), fb.width, fb.height, x, y, RectSubs(p.value.rects, fg))
                       && Some(fg') == NextFg(Painted(None, None, p.value.rects), Some(fg)))
  {
    hide SubsOf, Paint, Chop;
    var buffer;
    fg' := fg;
    ghost var input := conn.input;
    BufferHolds(n, bpp);
    ok, buffer := conn.ReadBuffer(n * (2 + bpp));
    if ok {
      ChopPrefix(input, 2 + bpp, n);
      fg' := PaintColoured(fb, buffer, n, x, y, bpp, fg);
    }
  }

  method HandlePlain(conn: Connection, fb: FrameBuffer, n: nat, x: nat, y: nat, bpp: nat, fg: Pixel) returns (ok: bool)
    requires fb.Valid() && Supported(bpp) && n < 256
    modifies conn, fb.pixels
    ensures var p := ParsePlain(n, old(conn.input));
            && ok == p.Some?
            && (ok ==> && conn.input == p.value.rest
                       && fb.pixels[..] == Paint(old(fb.pixels[..]), fb.width, fb.height, x, y, RectSubs(p.value.rects, fg))
                       && p.value.rects.Plain?)
  {
    hide BoxesOf, Paint, Chop;
    var buffer;
    ghost var input := conn.input;
    ok, buffer := conn.ReadBuffer(n * 2);
    if ok {
      ChopPrefix(input, 2, n);
      PaintPlain(fb, buffer, n, x, y, bpp, fg);
    }
  }

  lemma BufferHolds(n: nat, bpp: nat)
    requires n < 256 && bpp <= 4
    ensures 0 <= n * (2 + bpp) <= RFB_BUFFER_SIZE
  {
    Scale(2 + bpp, n, 255);
    assert n * (2 + bpp) == (2 + bpp) * n;
  }

  /** One tile of the loop nest. */
  method HandleTile(conn: Connection, fb: FrameBuffer, b: Box, bpp: nat, bg: Pixel, fg: Pixel)
      returns (ok: bool, bg': Pixel, fg': Pixel)
    requires fb.Valid() && Supported(bpp) && b.w <= 16 && b.h <= 16
    modifies conn, fb.pixels
    ensures var s := Step(State(old(conn.input), bg, fg, old(fb.pixels[..])), fb.width, fb.height, b, bpp);
            && ok == s.Some?
            && (ok ==> s.value == State(conn.input, bg', fg', fb.pixels[..]))
  {
    hide Has, ParseRects, Paint, Fill, Chop, Blit;
    bg', fg' := bg, fg;
    var subencoding, bytes;
    ok, subencoding := conn.Read(1);
    if !ok {
      return;
    }
    var head := subencoding[0];
    if Has(head, Raw) {
      Scale(b.w, b.h, 16);
      Scale(bpp, b.w * b.h, 256);
      ghost var rest := conn.input;
      ok, bytes := conn.ReadBuffer(b.w * b.h * bpp);
      if ok {
        ChopPrefix(rest, bpp, b.w * b.h);
        fb.CopyRectangle(Chop(bytes, bpp, b.w * b.h), b, bpp);
      }
      return;
    }
    if Has(head, BackgroundSpecified) {
      ok, bg' := conn.Read(bpp);
      if !ok {
        return;
      }
    }
    fb.FillRectangle(b, bg', bpp);
    if Has(head, ForegroundSpecified) {
      ok, fg' := conn.Read(bpp);
      if !ok {
        return;
      }
    }
    ok, fg' := HandleRects(conn, fb, head, b.x, b.y, bpp, fg');
  }

  lemma {:induction false} DecodeFails(s: State, width: nat, height: nat, rect: Box, bpp: nat, t: nat, u: nat)
    requires width > 0 && t <= u && Decode(s, width, height, rect, bpp, t).None?
    ensures Decode(s, width, height, rect, bpp, u).None?
    decreases u
  {
    hide Step, TileBox;
    if t < u {
      DecodeFails(s, width, height, rect, bpp, t, u - 1);
    }
  }

  /** The tile that the loops are at. */
  lemma TileAt(rect: Box, i: nat, j: nat)
    requires 16 * i < rect.w && 16 * j < rect.h
    ensures i < Across(rect.w) && j < Across(rect.h)
    ensures TileBox(rect, j * Across(rect.w) + i)
         == Box(rect.x + 16 * i, rect.y + 16 * j, if rect.w - 16 * i < 16 then rect.w - 16 * i else 16,
                if rect.h - 16 * j < 16 then rect.h - 16 * j else 16)
    ensures j * Across(rect.w) + i < Count(rect)
  {
    Sixteens(rect.w, i);
    Sixteens(rect.h, j);
    At(Across(rect.w), j, i);
    BeforeCount(Across(rect.w), Across(rect.h), i, j);
  }

  lemma Sixteens(w: nat, i: nat)
    requires 16 * i < w
    ensures i < Across(w)
  {
  }

  lemma BeforeCount(a: nat, b: nat, i: nat, j: nat)
    requires i < a && j < b
    ensures j * a + i < a * b
  {
    Scale(a, j + 1, b);
    assert a * (j + 1) == j * a + a;
  }

  /** `HandleHextile`, for all three pixel sizes: it fails just when the bytes run out within a tile, and otherwise does
      what its tiles say, one after the other. `garbage` is what the uninitialised `fg` holds. */
  method HandleHextile(conn: Connection, fb: FrameBuffer, rect: Box, bpp: nat, garbage: Pixel) returns (ok: bool)
    requires fb.Valid() && Supported(bpp)
    modifies conn, fb.pixels
    ensures var s := State(old(conn.input), seq(bpp, _ => 0), garbage, old(fb.pixels[..]));
            var d := Decode(s, fb.width, fb.height, rect, bpp, Count(rect));
            && ok == d.Some?
            && (ok ==> conn.input == d.value.input && fb.pixels[..] == d.value.canvas)
  {
    hide Step, TileBox, Count;
    var bg, fg := seq(bpp, _ => 0), garbage;
    ghost var s := State(conn.input, bg, fg, fb.pixels[..]);
    var y := rect.y;
    ghost var j: nat := 0;
    ghost var a := Across(rect.w);
    while y < rect.y + rect.h
      invariant y == rect.y + 16 * j
      invariant j * a <= Count(rect)
      invariant Decode(s, fb.width, fb.height, rect, bpp, j * a) == Some(State(conn.input, bg, fg, fb.pixels[..]))
    {
      var x := rect.x;
      ghost var i: nat, row: nat := 0, j * a;
      while x < rect.x + rect.w
        invariant x == rect.x + 16 * i && i <= a
        invariant row + i <= Count(rect)
        invariant Decode(s, fb.width, fb.height, rect, bpp, row + i) == Some(State(conn.input, bg, fg, fb.pixels[..]))
      {
        var w, h := 16, 16;
        if rect.x + rect.w - x < 16 {
          w := rect.x + rect.w - x;
        }
        if rect.y + rect.h - y < 16 {
          h := rect.y + rect.h - y;
        }
        TileAt(rect, i, j);
        ok, bg, fg := HandleTile(conn, fb, Box(x, y, w, h), bpp, bg, fg);
        if !ok {
          DecodeFails(s, fb.width, fb.height, rect, bpp, row + i + 1, Count(rect));
          return;
        }
        x := x + 16;
        i := i + 1;
      }
      RowDone(rect, i, j);
      y := y + 16;
      j := j + 1;
    }
    AllDone(rect, j);
    return true;
  }

  lemma RowDone(rect: Box, i: nat, j: nat)
    requires i <= Across(rect.w) && rect.w <= 16 * i && 16 * j < rect.h
    ensures i == Across(rect.w) && j * Across(rect.w) + i == (j + 1) * Across(rect.w) <= Count(rect)
  {
    Scale(Across(rect.w), j + 1, Across(rect.h));
  }

  lemma AllDone(rect: Box, j: nat)
    requires rect.h <= 16 * j && j * Across(rect.w) <= Count(rect)
    ensures j * Across(rect.w) == Count(rect)
  {
    Scale(Across(rect.w), Across(rect.h), j);
  }
}
