/** From the server's screen to the client's framebuffer. */
module HextileRoundTrip {
  import opened Wrappers
  import opened Grid
  import opened Octets
  import opened Canvas
  import opened Subrects
  import opened Pictures
  import opened Connection
  import opened UpdateBuffer
  import opened HextileFormat
  import opened HextileClient
  import opened HextileTiles
  import opened HextileServer

  /** A stream that depicts a whole rectangle by the rules of the comment gives that rectangle, if and only if no tile takes
      over a foreground that the client has lost; the bytes behind it and the pixels around it stay in any case. */
  lemma DecodesRectangle(s: State, pieces: seq<seq<byte>>, tiles: seq<Tile>, rest: seq<byte>, screen: seq<Pixel>,
                         width: nat, height: nat, rect: Box, bpp: nat)
    requires width > 0 && CheckRect(rect, width, height) && |screen| == height * width == |s.canvas|
    requires |tiles| == Count(rect) && Encodes(pieces, tiles, screen, width, rect, bpp) && s.input == Flat(pieces) + rest
    ensures var d := Decode(s, width, height, rect, bpp, Count(rect));
            && d.Some? && d.value.input == rest && |d.value.canvas| == |screen|
            && (forall k :: 0 <= k < |screen| && !Covers(rect, Col(width, k), Row(width, k)) ==> d.value.canvas[k] == s.canvas[k])
            && (ShowsRect(d.value.canvas, s.canvas, screen, rect, width) <==> FgKept(tiles, |tiles|))
  {
    hide Decode, Encodes, InFirst, FgKept;
    DecodesPicture(s, pieces, tiles, rest, screen, width, height, rect, bpp, |tiles|);
    EncodesSizes(pieces, tiles, screen, width, rect, bpp);
    assert pieces[|tiles|..] == [] && Flat([]) + rest == rest;
    var d := Decode(s, width, height, rect, bpp, Count(rect)).value;
    forall k | 0 <= k < |screen|
      ensures InFirst(rect, Count(rect), width, k) <==> Covers(rect, Col(width, k), Row(width, k))
    {
      WholeRectangle(rect, width, k);
    }
  }

  lemma EncodesSizes(pieces: seq<seq<byte>>, tiles: seq<Tile>, screen: seq<Pixel>, width: nat, rect: Box, bpp: nat)
    requires Encodes(pieces, tiles, screen, width, rect, bpp)
    ensures |pieces| == |tiles|
  {
  }

  /** A column of 33 pixels in three tiles, each with a dot at its top, the middle one of another colour. */
  function DotColour(t: nat): Pixel { if t == 1 then [2] else [1] }

  function Dots(): seq<Pixel> { seq(33, k requires 0 <= k < 33 => if Row(16, k) * 16 == k then DotColour(Row(16, k)) else [0]) }

  const Column: Box := Box(0, 0, 1, 33)
  const Dot1: Box := Box(0, 0, 1, 1)

  /** The first tile specifies the foreground, the second one is coloured, and the third one takes the foreground over. */
  function DotTile(t: nat): Tile {
    if t == 0 then Painted(Some([0]), Some([1]), Plain([Dot1]))
    else if t == 1 then Painted(None, None, Coloured([Sub(Dot1, [2])]))
    else Painted(None, None, Plain([Dot1]))
  }

  function DotBytes(t: nat): seq<byte> {
    if t == 0 then [14, 0, 1, 1, 0, 0] else if t == 1 then [24, 1, 2, 0, 0] else [8, 1, 0, 0]
  }

  function DotCarry(t: nat): Carry { if t == 0 then Carry(None, None) else Carry(Some([0]), Some([1])) }

  lemma DotBox(t: nat)
    requires t < 3
    ensures TileBox(Column, t) == Box(0, 16 * t, 1, if t == 2 then 1 else 16) && Count(Column) == 3
  {
    hide TileBox, Count;
    TileAt(Column, 0, t);
    assert Across(1) == 1 && Across(33) == 3;
    CountIs(Column);
  }

  lemma CountIs(rect: Box)
    ensures Count(rect) == Across(rect.w) * Across(rect.h)
  {
  }

  lemma DotsAt(t: nat, k: nat)
    requires k < 16 && 16 * t + k < 33
    ensures |Dots()| == 33 && Dots()[16 * t + k] == if k == 0 then DotColour(t) else [0]
  {
    hide DotColour;
    At(16, t, k);
    assert 16 * t + k == t * 16 + k;
  }

  lemma DotPart(t: nat, k: nat, b: Box)
    requires t < 3 && b == Box(0, 16 * t, 1, if t == 2 then 1 else 16) && k < b.h
    ensures Part(Dots(), 1, b)[k] == if k == 0 then DotColour(t) else [0]
  {
    hide DotColour, Dots;
    DotsAt(t, k);
    At(1, k, 0);
    assert k < b.w * b.h;
    assert Part(Dots(), 1, b)[k] == Dot(Dots(), 1, 0, 16 * t + k);
  }

  lemma DotShade(w: nat, h: nat, k: nat, colour: Pixel)
    requires w == 1 && h > 0
    ensures Shade([Sub(Dot1, colour)], w, h, 0, 0, k, [0]) == if k == 0 then colour else [0]
  {
    At(1, k, 0);
    assert Shade([], w, h, 0, 0, k, [0]) == [0];
  }

  lemma DotDepicted(t: nat, b: Box)
    requires t < 3 && b == Box(0, 16 * t, 1, if t == 2 then 1 else 16)
    ensures Depicts([Sub(Dot1, DotColour(t))], Part(Dots(), 1, b), b.w, b.h, [0])
  {
    hide Part, Shade, Dots;
    DotPart(t, 0, b);
    var picture := Part(Dots(), 1, b);
    assert picture[0] in picture;
    forall k: nat | k < |picture|
      ensures Shade([Sub(Dot1, DotColour(t))], b.w, b.h, 0, 0, k, [0]) == picture[k]
    {
      DotPart(t, k, b);
      DotShade(b.w, b.h, k, DotColour(t));
    }
  }

  lemma DotPacked()
    ensures PackBox(Dot1) == [0, 0] && Byte(1) == 1
  {
  }

  lemma OneBox()
    ensures EncodableRects(Plain([Dot1]), 1) && RectBody(Plain([Dot1]), 1) == [1, 0, 0]
  {
    hide PackBox, Flat, Byte;
    var boxes := [Dot1];
    assert Packable(boxes[0]);
    DotPacked();
    assert PackBoxes(boxes) == [[0, 0]];
    FlatOne([0, 0]);
  }

  lemma OneSub()
    ensures var rects := Coloured([Sub(Dot1, [2])]);
            EncodableRects(rects, 1) && RectBody(rects, 1) == [1, 2, 0, 0]
  {
    hide PackBox, Flat, Byte;
    var subs := [Sub(Dot1, [2])];
    assert Packable(Dot1);
    DotPacked();
    assert PackSub(subs[0], 1) == [2] + [0, 0] == [2, 0, 0];
    assert PackSubs(subs, 1)[0] == PackSub(subs[0], 1);
    assert PackSubs(subs, 1) == [[2, 0, 0]];
    FlatOne([2, 0, 0]);
  }

  lemma FlatOne(chunk: seq<byte>)
    ensures Flat([chunk]) == chunk
  {
    assert Flat([chunk]) == chunk + Flat([]);
  }

  lemma DotWire(t: nat)
    requires t < 3
    ensures EncodableRects(DotTile(t).rects, 1) && RectSubs(DotTile(t).rects, DotColour(t)) == [Sub(Dot1, DotColour(t))]
    ensures var (bgs, fgs, rects) := (DotTile(t).bg, DotTile(t).fg, DotTile(t).rects);
            DotBytes(t) == [Head(bgs.Some?, !rects.NoRects?, fgs.Some?, rects.Coloured?)] + (Colour(bgs) + (Colour(fgs) + RectBody(rects, 1)))
  {
    hide RectBody, EncodableRects;
    OneBox();
    OneSub();
  }

  lemma DotEncodes(t: nat)
    requires t < 3
    ensures TileEncodes(DotBytes(t), DotTile(t), DotCarry(t), Dots(), 1, TileBox(Column, t), 1)
  {
    hide Part, Head, Depicts, RectBody, EncodableRects, TileEncodes, RectSubs, DotBytes, Dots, TileBox, Count;
    var b := TileBox(Column, t);
    DotBox(t);
    DotDepicted(t, b);
    DotWire(t);
    PaintedTile(DotTile(t).bg, DotTile(t).fg, DotTile(t).rects, DotCarry(t), Dots(), 1, b, 1, [0], DotColour(t));
  }

  function DotTiles(): seq<Tile> { [DotTile(0), DotTile(1), DotTile(2)] }

  function DotPieces(): seq<seq<byte>> { [DotBytes(0), DotBytes(1), DotBytes(2)] }

  lemma DotCarries(t: nat)
    requires t < 3
    ensures CarryAfter(DotTiles()[..t]) == DotCarry(t)
    ensures t == 2 ==> HeldAfter(DotTiles()[..t]) == Carry(Some([0]), Some([2]))
  {
    if t > 0 {
      DotCarries(t - 1);
      assert DotTiles()[..t][..t - 1] == DotTiles()[..t - 1];
      assert HeldAfter(DotTiles()[..0]).fg == None;
      assert DotTiles()[..1][..0] == [];
    }
  }

  lemma DotsEncoded(pieces: seq<seq<byte>>, tiles: seq<Tile>, screen: seq<Pixel>)
    requires pieces == DotPieces() && tiles == DotTiles() && screen == Dots()
    ensures Encodes(pieces, tiles, screen, 1, Column, 1) && |screen| == 33 && screen[32] == [1]
  {
    hide TileEncodes, CarryAfter, DotBytes, DotTile, TileBox, Count, Dots;
    DotBox(0);
    DotsAt(2, 0);
    forall t | 0 <= t < 3
      ensures TileEncodes(pieces[t], tiles[t], CarryAfter(tiles[..t]), screen, 1, TileBox(Column, t), 1)
    {
      DotEncodes(t);
      DotCarries(t);
    }
  }

  /** A dot that takes over the foreground is painted with what the client holds. */
  lemma LastDot(t: Tile, rest: seq<byte>, d: State, width: nat, height: nat, b: Box)
    requires t == Painted(None, None, Plain([Dot1])) && width > 0 && b.w > 0 && b.h > 0 && CheckRect(b, width, height)
    requires |d.canvas| == height * width
    ensures 0 <= b.y * width + b.x < |d.canvas| && Shown(t, rest, d, width, height, b).canvas[b.y * width + b.x] == d.fg
  {
    hide Paint, Fill;
    FirstCell(width, height, b.x, b.y);
    var subs := Tinted([Dot1], d.fg);
    PaintShade(Fill(d.canvas, width, height, b, d.bg), width, height, b.x, b.y, subs, b.y * width + b.x);
  }

  lemma LastPiece()
    ensures Flat(DotPieces()[2..]) + [] == DotBytes(2)
  {
    hide DotBytes;
    assert DotPieces()[2..] == [DotBytes(2)];
    assert Flat([DotBytes(2)]) == DotBytes(2) + Flat([]);
  }

  lemma DecodeStep(s: State, height: nat)
    ensures var d := Decode(s, 1, height, Column, 1, 2);
            d.Some? ==> Decode(s, 1, height, Column, 1, 3) == Step(d.value, 1, height, TileBox(Column, 2), 1)
  {
    hide Step, TileBox;
  }

  /** Three tiles that depict a column by the rules of the comment: the client paints the last dot with the colour of the
      coloured subrectangle before it. */
  lemma ForegroundLost(s: State, pieces: seq<seq<byte>>, tiles: seq<Tile>, screen: seq<Pixel>, height: nat)
    requires pieces == DotPieces() && tiles == DotTiles() && screen == Dots()
    requires s.input == Flat(pieces) && |s.canvas| == 33 == height
    ensures Encodes(pieces, tiles, screen, 1, Column, 1) && |tiles| == Count(Column) == 3
    ensures var d := Decode(s, 1, height, Column, 1, 3);
            d.Some? && |d.value.canvas| == 33 == |screen| && screen[32] == [1] && d.value.canvas[32] == [2]
  {
    hide Part, TileEncodes, Encodes, Decode, Step, Shown, FgKept, DotBytes, DotTile, Dots, TileBox, Count, Flat;
    DotBox(2);
    DotsEncoded(pieces, tiles, screen);
    assert s.input == Flat(pieces) + [];
    DecodesPicture(s, pieces, tiles, [], screen, 1, height, Column, 1, 2);
    DotCarries(2);
    LastPiece();
    var d := Decode(s, 1, height, Column, 1, 2).value;
    var b := TileBox(Column, 2);
    LastStep(d, height, b);
    DecodeStep(s, height);
  }

  lemma LastStep(d: State, height: nat, b: Box)
    requires |d.canvas| == 33 == height && d.input == DotBytes(2) + [] && d.fg == [2] && b == TileBox(Column, 2)
    ensures var e := Step(d, 1, height, b, 1);
            e.Some? && |e.value.canvas| == 33 && e.value.canvas[32] == [2]
  {
    hide TileEncodes, IsWire, DotBytes, DotTile, Parse, Shown, Step, TileBox;
    DotBox(2);
    DotEncodes(2);
    DotIsWire(b);
    LastTile();
    StepParses(DotBytes(2), DotTile(2), [], d, 1, height, b, 1);
    LastDot(DotTile(2), [], d, 1, height, b);
    ShownLength(DotTile(2), [], d, 1, height, b);
  }

  lemma LastTile()
    ensures DotTile(2) == Painted(None, None, Plain([Dot1]))
  {
  }

  lemma ShownLength(t: Tile, rest: seq<byte>, d: State, width: nat, height: nat, b: Box)
    requires t.Painted? && width > 0
    ensures |Shown(t, rest, d, width, height, b).canvas| == |d.canvas|
  {
    hide Paint, Fill;
  }

  lemma DotIsWire(b: Box)
    requires TileEncodes(DotBytes(2), DotTile(2), DotCarry(2), Dots(), 1, b, 1)
    ensures IsWire(DotBytes(2), DotTile(2), b.w * b.h, 1)
  {
    hide TileDepicts, DotBytes, DotTile, IsWire, Dots, Part;
  }

  /** Both ends of the protocol: what the server sends for a rectangle of its screen, the client, whatever is on its
      framebuffer and in its variables, turns back into that rectangle. */
  method Transfer(cl: Updates, screen: seq<Pixel>, rect: Box, bpp: nat, fb: FrameBuffer, garbage: Pixel) returns (sent: bool, ok: bool)
    requires cl.Valid() && cl.Out() == [] && fb.Valid() && Supported(bpp) && CheckRect(rect, fb.width, fb.height)
    requires |screen| == fb.height * fb.width && AllPixels(screen, bpp) && fb.pixels as object != cl.updateBuf as object
    modifies cl, cl.updateBuf, fb.pixels
    ensures !sent ==> cl.sends == 0
    ensures sent ==> ok && ShowsRect(fb.pixels[..], old(fb.pixels[..]), screen, rect, fb.width)
  {
    hide Decode, Encodes, Count;
    ghost var pieces, tiles;
    sent, pieces, tiles := SendHextiles(cl, screen, fb.width, fb.height, rect, bpp);
    ok := false;
    if sent {
      var conn := new Connection(cl.sent + cl.updateBuf[..cl.ublen]);
      ghost var s := State(conn.input, seq(bpp, _ => 0), garbage, fb.pixels[..]);
      assert conn.input == Flat(pieces) + [];
      DecodesRectangle(s, pieces, tiles, [], screen, fb.width, fb.height, rect, bpp);
      ok := HandleHextile(conn, fb, rect, bpp, garbage);
    }
  }
}
