/** Tiles that depict a picture, and what the client makes of them. */
module HextileTiles {
  import opened Wrappers
  import opened Grid
  import opened Octets
  import opened Canvas
  import opened Pictures
  import opened HextileFormat
  import opened HextileClient

  /** The tile in which a place of the rectangle lies. */
  function TileOf(rect: Box, x: int, y: int): nat
    requires Covers(rect, x, y)
  {
    (y - rect.y) / 16 * Across(rect.w) + (x - rect.x) / 16
  }

  /** The tiles partition the rectangle. */
  lemma Partition(rect: Box, t: nat, x: int, y: int)
    requires t < Count(rect)
    ensures Covers(TileBox(rect, t), x, y) <==> Covers(rect, x, y) && TileOf(rect, x, y) == t
    ensures Covers(rect, x, y) ==> TileOf(rect, x, y) < Count(rect)
    ensures TileBox(rect, t).w > 0 && TileBox(rect, t).h > 0
    ensures forall width: nat, height: nat :: CheckRect(rect, width, height) ==> CheckRect(TileBox(rect, t), width, height)
  {
    hide TileOf;
    var a := Across(rect.w);
    assert a == 0 ==> Count(rect) == 0;
    var i, j := Col(a, t), Row(a, t);
    RowCol(a, Across(rect.h), t);
    assert 16 * i < rect.w && 16 * j < rect.h;
    if Covers(rect, x, y) {
      TileOfIs(rect, x, y, i, j);
    }
  }

  lemma TileOfIs(rect: Box, x: int, y: int, i: nat, j: nat)
    requires Covers(rect, x, y) && i < Across(rect.w)
    ensures TileOf(rect, x, y) < Count(rect)
    ensures TileOf(rect, x, y) == j * Across(rect.w) + i
       <==> rect.x + 16 * i <= x < rect.x + 16 * i + 16 && rect.y + 16 * j <= y < rect.y + 16 * j + 16
  {
    hide Count;
    var i', j' := (x - rect.x) / 16, (y - rect.y) / 16;
    Sixteenth(x - rect.x, i);
    Sixteenth(y - rect.y, j);
    Sixteenth(x - rect.x, i');
    Sixteenth(y - rect.y, j');
    TileAt(rect, i', j');
    SameTile(Across(rect.w), i', j', i, j);
  }

  lemma Sixteenth(d: nat, i: nat)
    ensures d / 16 == i <==> 16 * i <= d < 16 * i + 16
  {
  }

  lemma SameTile(a: nat, i: nat, j: nat, k: nat, l: nat)
    requires i < a && k < a
    ensures j * a + i == l * a + k <==> i == k && j == l
  {
    At(a, j, i);
    At(a, l, k);
  }

  /** Background and foreground that a tile without its own ones takes over. */
  datatype Carry = Carry(bg: Option<Pixel>, fg: Option<Pixel>)

  /** What `rfbproto.h` carries from tile to tile: the last colours that were specified. */
  function CarryAfter(tiles: seq<Tile>): Carry {
    if tiles == [] then Carry(None, None) else Specified(tiles[|tiles| - 1], CarryAfter(tiles[..|tiles| - 1]))
  }

  function Specified(t: Tile, c: Carry): Carry { Carry(NextBg(t, c.bg), OwnFg(t, c.fg)) }

  /** What the client's variables carry. */
  function HeldAfter(tiles: seq<Tile>): Carry {
    if tiles == [] then Carry(None, None) else After(tiles[|tiles| - 1], HeldAfter(tiles[..|tiles| - 1]))
  }

  function After(t: Tile, c: Carry): Carry { Carry(NextBg(t, c.bg), NextFg(t, c.fg)) }

  /** Only foregrounds can differ. */
  ghost predicate Akin(c: Carry, held: Carry) { c.bg == held.bg && (c.fg.Some? ==> held.fg.Some?) }

  lemma {:induction false} CarriesAkin(tiles: seq<Tile>)
    ensures Akin(CarryAfter(tiles), HeldAfter(tiles))
  {
    if tiles != [] {
      CarriesAkin(tiles[..|tiles| - 1]);
    }
  }

  /** Whether a tile takes over the foreground. */
  predicate TakesFg(t: Tile) { t.Painted? && t.fg.None? && t.rects.Plain? && t.rects.boxes != [] }

  /** Where a tile takes over the foreground, the client holds the one that the comment means. */
  predicate FgKept(tiles: seq<Tile>, t: nat)
    requires t <= |tiles|
  {
    forall u :: 0 <= u < t && TakesFg(tiles[u]) ==> HeldAfter(tiles[..u]).fg == CarryAfter(tiles[..u]).fg
  }

  /** What `rfbproto.h` makes of a tile: a raw tile holds its pixels; any other one is its background, its own or the
      carried one, under its subrectangles, of their own colours or of its own or the carried foreground. */
  ghost predicate TileDepicts(t: Tile, c: Carry, picture: seq<Pixel>, w: nat, h: nat, bpp: nat) {
    && w > 0 && |picture| == w * h && Encodable(t, w * h, bpp)
    && match t
       case RawTile(pixels) => pixels == picture
       case Painted(_, _, rects) =>
         && NextBg(t, c.bg).Some?
         && (rects.Plain? && rects.boxes != [] ==> OwnFg(t, c.fg).Some?)
         && AllFit(RectSubs(rects, Or(OwnFg(t, c.fg))), w, h)
         && forall k :: 0 <= k < |picture| ==> Shade(RectSubs(rects, Or(OwnFg(t, c.fg))), w, h, 0, 0, k, NextBg(t, c.bg).value) == picture[k]
  }

  function Or(p: Option<Pixel>): Pixel { if p.Some? then p.value else [] }

  ghost predicate Agrees(c: Carry, s: State) {
    (c.bg.Some? ==> c.bg == Some(s.bg)) && (c.fg.Some? ==> c.fg == Some(s.fg))
  }

  lemma FirstCell(w: nat, h: nat, x: nat, y: nat)
    requires x < w && y < h
    ensures 0 <= y * w + x < h * w && Col(w, y * w + x) == x && Row(w, y * w + x) == y
  {
    At(w, y, x);
    Ordered(w, y, h, h);
  }

  /** The corner of the last plain subrectangle shows its colour, on the canvas and in the picture. */
  lemma LastCorner(boxes: seq<Box>, fg: Pixel, own: Pixel, bg: Pixel, under: seq<Pixel>, screen: seq<Pixel>, width: nat, height: nat, b: Box)
      returns (k: nat)
    requires width > 0 && b.w > 0 && CheckRect(b, width, height) && |screen| == height * width == |under|
    requires boxes != [] && AllFit(Tinted(boxes, fg), b.w, b.h) && boxes[|boxes| - 1].w > 0 && boxes[|boxes| - 1].h > 0
    requires forall i :: 0 <= i < b.w * b.h ==> Shade(Tinted(boxes, fg), b.w, b.h, 0, 0, i, bg) == Part(screen, width, b)[i]
    ensures k < |screen| && Covers(b, Col(width, k), Row(width, k)) && screen[k] == fg
    ensures Paint(under, width, height, b.x, b.y, Tinted(boxes, own))[k] == own
  {
    hide Part, Paint, Within;
    var last := boxes[|boxes| - 1];
    var (subs, mine) := (Tinted(boxes, fg), Tinted(boxes, own));
    assert subs[|subs| - 1] == Sub(last, fg) && mine[|mine| - 1] == Sub(last, own);
    FirstCell(width, height, b.x + last.x, b.y + last.y);
    k := (b.y + last.y) * width + (b.x + last.x);
    HitsMoved(last, width, height, b, k);
    PartAt(screen, width, height, b, k);
    PaintShade(under, width, height, b.x, b.y, mine, k);
  }

  /** A tile that depicts a part of the picture puts just that part on the canvas, if and only if it does not take over a
      foreground that the client has lost. */
  lemma TileShown(t: Tile, c: Carry, held: Carry, rest: seq<byte>, s: State, screen: seq<Pixel>, width: nat, height: nat, b: Box, bpp: nat)
    requires width > 0 && b.w > 0 && CheckRect(b, width, height) && |screen| == height * width == |s.canvas|
    requires TileDepicts(t, c, Part(screen, width, b), b.w, b.h, bpp) && Akin(c, held) && Agrees(held, s)
    ensures var n := Shown(t, rest, s, width, height, b);
            && n.input == rest && Agrees(After(t, held), n) && |n.canvas| == |s.canvas|
            && (forall k :: 0 <= k < |s.canvas| && !Covers(b, Col(width, k), Row(width, k)) ==> n.canvas[k] == s.canvas[k])
            && (ShowsRect(n.canvas, s.canvas, screen, b, width) <==> (TakesFg(t) ==> held.fg == c.fg))
  {
    hide Part, Shade, Within, Paint;
    if t.Painted? {
      var bg := NextBg(t, c.bg).value;
      assert RectSubs(t.rects, []) == RectSubs(t.rects, Or(OwnFg(t, c.fg))) || t.rects.Plain?;
      AnyFg(t.rects, Or(OwnFg(t, c.fg)), b.w, b.h);
      ShownInside(t, rest, s, width, height, b, bpp);
      if TakesFg(t) && held.fg != c.fg {
        var under := Fill(s.canvas, width, height, b, bg);
        EncodableLast(t, b.w * b.h, bpp);
        var k := LastCorner(t.rects.boxes, c.fg.value, s.fg, bg, under, screen, width, height, b);
      } else {
        PaintShows(s.canvas, RectSubs(t.rects, Or(OwnFg(t, c.fg))), bg, screen, width, height, b);
        assert RectSubs(t.rects, OwnFg(t, Some(s.fg)).value) == RectSubs(t.rects, Or(OwnFg(t, c.fg)));
      }
    } else {
      forall k | 0 <= k < |screen| && Covers(b, Col(width, k), Row(width, k))
        ensures Shown(t, rest, s, width, height, b).canvas[k] == screen[k]
      {
        PartAt(screen, width, height, b, k);
      }
    }
  }

  lemma AnyFg(rects: Rects, fg: Pixel, w: nat, h: nat)
    requires AllFit(RectSubs(rects, fg), w, h)
    ensures AllFit(RectSubs(rects, []), w, h)
  {
    forall i | 0 <= i < |RectSubs(rects, [])|
      ensures CheckRect(RectSubs(rects, [])[i].box, w, h)
    {
      assert RectSubs(rects, [])[i].box == RectSubs(rects, fg)[i].box;
    }
  }

  lemma EncodableLast(t: Tile, n: nat, bpp: nat)
    requires Encodable(t, n, bpp) && TakesFg(t)
    ensures t.rects.boxes[|t.rects.boxes| - 1].w > 0 && t.rects.boxes[|t.rects.boxes| - 1].h > 0
  {
  }

  /** The bytes of a tile. */
  ghost predicate IsWire(bytes: seq<byte>, t: Tile, n: nat, bpp: nat) {
    bytes != [] && Encodable(t, n, bpp) && Announces(bytes[0], t) && bytes[1..] == Body(t, n, bpp)
  }

  ghost predicate TileEncodes(bytes: seq<byte>, t: Tile, c: Carry, screen: seq<Pixel>, width: nat, b: Box, bpp: nat) {
    b.w > 0 && IsWire(bytes, t, b.w * b.h, bpp) && TileDepicts(t, c, Part(screen, width, b), b.w, b.h, bpp)
  }

  /** Pieces of a stream that are the bytes of tiles which depict the first tiles of a rectangle of the screen. */
  ghost predicate Encodes(pieces: seq<seq<byte>>, tiles: seq<Tile>, screen: seq<Pixel>, width: nat, rect: Box, bpp: nat) {
    && |pieces| == |tiles| <= Count(rect)
    && forall t :: 0 <= t < |tiles| ==>
         TileEncodes(pieces[t], tiles[t], CarryAfter(tiles[..t]), screen, width, TileBox(rect, t), bpp)
  }

  /** Whether a cell lies in one of the first `t` tiles. */
  ghost predicate InFirst(rect: Box, t: nat, width: nat, k: nat)
    requires width > 0
  {
    Covers(rect, Col(width, k), Row(width, k)) && TileOf(rect, Col(width, k), Row(width, k)) < t
  }

  ghost predicate Shows(now: seq<Pixel>, was: seq<Pixel>, screen: seq<Pixel>, rect: Box, t: nat, width: nat)
    requires width > 0
  {
    && |now| == |was| == |screen|
    && forall k :: 0 <= k < |now| ==> now[k] == if InFirst(rect, t, width, k) then screen[k] else was[k]
  }

  lemma ShowsMore(now: seq<Pixel>, next: seq<Pixel>, was: seq<Pixel>, screen: seq<Pixel>, rect: Box, t: nat, width: nat)
    requires width > 0 && t < Count(rect) && Kept(now, was, rect, t, width) && |next| == |now| == |screen|
    requires forall k :: 0 <= k < |now| && !Covers(TileBox(rect, t), Col(width, k), Row(width, k)) ==> next[k] == now[k]
    ensures Kept(next, was, rect, t + 1, width)
    ensures Shows(next, was, screen, rect, t + 1, width)
       <==> Shows(now, was, screen, rect, t, width) && ShowsRect(next, now, screen, TileBox(rect, t), width)
  {
    forall k | 0 <= k < |now|
      ensures InFirst(rect, t + 1, width, k) <==> InFirst(rect, t, width, k) || Covers(TileBox(rect, t), Col(width, k), Row(width, k))
      ensures !(InFirst(rect, t, width, k) && Covers(TileBox(rect, t), Col(width, k), Row(width, k)))
    {
      Partition(rect, t, Col(width, k), Row(width, k));
    }
  }

  lemma StepParses(bytes: seq<byte>, t: Tile, rest: seq<byte>, s: State, width: nat, height: nat, b: Box, bpp: nat)
    requires width > 0 && IsWire(bytes, t, b.w * b.h, bpp) && s.input == bytes + rest
    ensures t.RawTile? ==> |t.pixels| == b.w * b.h
    ensures Step(s, width, height, b, bpp) == Some(Shown(t, rest, s, width, height, b))
  {
    hide Parse, Announces, Encodable, Body, Shown;
    var n := b.w * b.h;
    assert s.input[1..] == Body(t, n, bpp) + rest;
    ParseExact(s.input, t, rest, n, bpp);
    EncodableRaw(t, n, bpp);
  }

  lemma EncodableRaw(t: Tile, n: nat, bpp: nat)
    requires Encodable(t, n, bpp)
    ensures t.RawTile? ==> |t.pixels| == n
  {
  }

  /** The client's decoder takes up just the bytes of any stream that depicts a rectangle of a screen by the rules of the
      comment, whatever the choice of raw, carried or coloured tiles, and leaves all pixels outside alone; whatever its
      framebuffer and its variables held before, it turns the stream into that rectangle if and only if no tile takes
      over a foreground that coloured subrectangles have overwritten. */
  lemma {:induction false} DecodesPicture(s: State, pieces: seq<seq<byte>>, tiles: seq<Tile>, rest: seq<byte>, screen: seq<Pixel>,
                                          width: nat, height: nat, rect: Box, bpp: nat, t: nat)
    requires width > 0 && CheckRect(rect, width, height) && |screen| == height * width == |s.canvas|
    requires t <= |tiles| && Encodes(pieces, tiles, screen, width, rect, bpp) && s.input == Flat(pieces) + rest
    ensures var d := Decode(s, width, height, rect, bpp, t);
            && d.Some? && d.value.input == Flat(pieces[t..]) + rest
            && Agrees(HeldAfter(tiles[..t]), d.value)
            && Kept(d.value.canvas, s.canvas, rect, t, width)
            && (Shows(d.value.canvas, s.canvas, screen, rect, t, width) <==> FgKept(tiles, t))
  {
    hide Step, Encodes, CheckRect, Shows, Kept, FgKept, Agrees;
    if t == 0 {
      assert pieces[0..] == pieces;
      Undecoded(s, tiles, screen, rect, width);
    } else {
      DecodesPicture(s, pieces, tiles, rest, screen, width, height, rect, bpp, t - 1);
      DecodesNext(s, pieces, tiles, rest, screen, width, height, rect, bpp, t - 1);
      FgKeptNext(tiles, t - 1);
    }
  }

  lemma Undecoded(s: State, tiles: seq<Tile>, screen: seq<Pixel>, rect: Box, width: nat)
    requires width > 0 && |screen| == |s.canvas|
    ensures Agrees(HeldAfter(tiles[..0]), s) && FgKept(tiles, 0)
    ensures Kept(s.canvas, s.canvas, rect, 0, width) && Shows(s.canvas, s.canvas, screen, rect, 0, width)
  {
  }

  lemma FgKeptNext(tiles: seq<Tile>, t: nat)
    requires t < |tiles|
    ensures HeldAfter(tiles[..t + 1]) == After(tiles[t], HeldAfter(tiles[..t]))
    ensures FgKept(tiles, t + 1) <==> FgKept(tiles, t) && (TakesFg(tiles[t]) ==> HeldAfter(tiles[..t]).fg == CarryAfter(tiles[..t]).fg)
  {
    hide CarryAfter, TakesFg, After;
    assert tiles[..t + 1][..t] == tiles[..t];
  }

  lemma DecodesNext(s: State, pieces: seq<seq<byte>>, tiles: seq<Tile>, rest: seq<byte>, screen: seq<Pixel>,
                    width: nat, height: nat, rect: Box, bpp: nat, t: nat)
    requires width > 0 && CheckRect(rect, width, height) && |screen| == height * width == |s.canvas|
    requires t < |tiles| && Encodes(pieces, tiles, screen, width, rect, bpp)
    requires var d := Decode(s, width, height, rect, bpp, t);
             && d.Some? && d.value.input == Flat(pieces[t..]) + rest
             && Agrees(HeldAfter(tiles[..t]), d.value) && Kept(d.value.canvas, s.canvas, rect, t, width)
    ensures var d, e := Decode(s, width, height, rect, bpp, t).value, Decode(s, width, height, rect, bpp, t + 1);
            && e.Some? && e.value.input == Flat(pieces[t + 1..]) + rest
            && Agrees(After(tiles[t], HeldAfter(tiles[..t])), e.value) && Kept(e.value.canvas, s.canvas, rect, t + 1, width)
            && (Shows(e.value.canvas, s.canvas, screen, rect, t + 1, width)
                <==> && Shows(d.canvas, s.canvas, screen, rect, t, width)
                     && (TakesFg(tiles[t]) ==> HeldAfter(tiles[..t]).fg == CarryAfter(tiles[..t]).fg))
  {
    hide Step, Shown, TileDepicts, IsWire, Parse, Count, NextBg, NextFg, TileBox, TileOf, Part, CheckRect, TakesFg, CarryAfter, HeldAfter;
    var d := Decode(s, width, height, rect, bpp, t).value;
    var (c, held) := (CarryAfter(tiles[..t]), HeldAfter(tiles[..t]));
    var b := TileBox(rect, t);
    assert TileEncodes(pieces[t], tiles[t], c, screen, width, b, bpp);
    Partition(rect, t, 0, 0);
    CarriesAkin(tiles[..t]);
    var after := Flat(pieces[t + 1..]) + rest;
    assert pieces[t..][1..] == pieces[t + 1..];
    assert d.input == pieces[t] + after;
    StepParses(pieces[t], tiles[t], after, d, width, height, b, bpp);
    TileShown(tiles[t], c, held, after, d, screen, width, height, b, bpp);
    ShowsMore(d.canvas, Shown(tiles[t], after, d, width, height, b).canvas, s.canvas, screen, rect, t, width);
  }

  /** Two runs over the same bytes agree on every pixel of the tiles decoded so far, whatever was there before, and on
      all pixels on which they agreed. */
  lemma {:induction false} OldPixelsForgotten(s: State, canvas: seq<Pixel>, width: nat, height: nat, rect: Box, bpp: nat, t: nat)
    requires width > 0 && CheckRect(rect, width, height) && |canvas| == |s.canvas| && t <= Count(rect)
    ensures var d, e := Decode(s, width, height, rect, bpp, t), Decode(s.(canvas := canvas), width, height, rect, bpp, t);
            && d.Some? == e.Some?
            && (d.Some? ==>
                && e.value == d.value.(canvas := e.value.canvas) && |e.value.canvas| == |d.value.canvas| == |canvas|
                && forall k :: 0 <= k < |canvas| && (InFirst(rect, t, width, k) || canvas[k] == s.canvas[k]) ==>
                                 d.value.canvas[k] == e.value.canvas[k])
  {
    hide Parse, Shown, TileBox, Count, TileOf, CheckRect, Encodable, Announces, Body;
    if t > 0 {
      OldPixelsForgotten(s, canvas, width, height, rect, bpp, t - 1);
      var d := Decode(s, width, height, rect, bpp, t - 1);
      if d.Some? {
        var e := Decode(s.(canvas := canvas), width, height, rect, bpp, t - 1);
        var b := TileBox(rect, t - 1);
        var p := Parse(d.value.input, b.w * b.h, bpp);
        if p.Some? {
          Partition(rect, t - 1, 0, 0);
          ParsedBody(d.value.input, b.w * b.h, bpp);
          EncodableRaw(p.value.tile, b.w * b.h, bpp);
          ShownSame(p.value.tile, p.value.rest, d.value, e.value.canvas, width, height, b);
          forall k | 0 <= k < |canvas| && (InFirst(rect, t, width, k) || canvas[k] == s.canvas[k])
            ensures Covers(b, Col(width, k), Row(width, k)) || d.value.canvas[k] == e.value.canvas[k]
          {
            Partition(rect, t - 1, Col(width, k), Row(width, k));
          }
        }
      }
    }
  }

  lemma ShownSame(t: Tile, rest: seq<byte>, s: State, canvas: seq<Pixel>, width: nat, height: nat, b: Box)
    requires width > 0 && CheckRect(b, width, height) && |canvas| == |s.canvas| && (t.RawTile? ==> |t.pixels| == b.w * b.h)
    ensures var m, n := Shown(t, rest, s, width, height, b), Shown(t, rest, s.(canvas := canvas), width, height, b);
            && n == m.(canvas := n.canvas) && |n.canvas| == |m.canvas| == |canvas|
            && forall k :: 0 <= k < |canvas| && (Covers(b, Col(width, k), Row(width, k)) || canvas[k] == s.canvas[k]) ==>
                             m.canvas[k] == n.canvas[k]
  {
    hide Paint, Shade;
    var m, n := Shown(t, rest, s, width, height, b), Shown(t, rest, s.(canvas := canvas), width, height, b);
    forall k | 0 <= k < |canvas| && (Covers(b, Col(width, k), Row(width, k)) || canvas[k] == s.canvas[k])
      ensures m.canvas[k] == n.canvas[k]
    {
      if t.Painted? {
        var bg := NextBg(t, Some(s.bg)).value;
        var subs := RectSubs(t.rects, OwnFg(t, Some(s.fg)).value);
        PaintShade(Fill(s.canvas, width, height, b, bg), width, height, b.x, b.y, subs, k);
        PaintShade(Fill(canvas, width, height, b, bg), width, height, b.x, b.y, subs, k);
      }
    }
  }

  /** Whether the subrectangles of the next tile lie inside it. */
  ghost predicate StaysInside(s: State, b: Box, bpp: nat) {
    var p := Parse(s.input, b.w * b.h, bpp);
    p.Some? && p.value.tile.Painted? ==> AllFit(RectSubs(p.value.tile.rects, []), b.w, b.h)
  }

  ghost predicate AllStayInside(s: State, width: nat, height: nat, rect: Box, bpp: nat, t: nat)
    requires width > 0
  {
    forall u :: 0 <= u < t && Decode(s, width, height, rect, bpp, u).Some? ==>
                  StaysInside(Decode(s, width, height, rect, bpp, u).value, TileBox(rect, u), bpp)
  }

  lemma ShownInside(t: Tile, rest: seq<byte>, s: State, width: nat, height: nat, b: Box, bpp: nat)
    requires width > 0 && CheckRect(b, width, height) && (t.RawTile? ==> |t.pixels| == b.w * b.h)
    requires t.Painted? ==> AllFit(RectSubs(t.rects, []), b.w, b.h)
    ensures var n := Shown(t, rest, s, width, height, b);
            && |n.canvas| == |s.canvas|
            && forall k :: 0 <= k < |s.canvas| && !Covers(b, Col(width, k), Row(width, k)) ==> n.canvas[k] == s.canvas[k]
  {
    hide Paint, Shade;
    var n := Shown(t, rest, s, width, height, b);
    forall k | 0 <= k < |s.canvas| && !Covers(b, Col(width, k), Row(width, k))
      ensures n.canvas[k] == s.canvas[k]
    {
      if t.Painted? {
        var bg := NextBg(t, Some(s.bg)).value;
        var subs := RectSubs(t.rects, OwnFg(t, Some(s.fg)).value);
        assert forall i :: 0 <= i < |subs| ==> subs[i].box == RectSubs(t.rects, [])[i].box;
        PaintShade(Fill(s.canvas, width, height, b, bg), width, height, b.x, b.y, subs, k);
        ShadeMoved(subs, width, height, b, k, s.canvas[k]);
      }
    }
  }

  lemma StepInside(s: State, width: nat, height: nat, b: Box, bpp: nat)
    requires width > 0 && CheckRect(b, width, height) && StaysInside(s, b, bpp) && Step(s, width, height, b, bpp).Some?
    ensures var n := Step(s, width, height, b, bpp).value;
            && |n.canvas| == |s.canvas|
            && forall k :: 0 <= k < |s.canvas| && !Covers(b, Col(width, k), Row(width, k)) ==> n.canvas[k] == s.canvas[k]
  {
    hide Parse, Shown, Announces, Body, AllFit, RectSubs;
    var p := Parse(s.input, b.w * b.h, bpp).value;
    ParsedBody(s.input, b.w * b.h, bpp);
    EncodableRaw(p.tile, b.w * b.h, bpp);
    ShownInside(p.tile, p.rest, s, width, height, b, bpp);
  }

  ghost predicate Kept(now: seq<Pixel>, was: seq<Pixel>, rect: Box, t: nat, width: nat)
    requires width > 0
  {
    |now| == |was| && forall k :: 0 <= k < |was| && !InFirst(rect, t, width, k) ==> now[k] == was[k]
  }

  lemma KeptNone(was: seq<Pixel>, rect: Box, width: nat)
    requires width > 0
    ensures Kept(was, was, rect, 0, width)
  {
  }

  lemma KeptMore(now: seq<Pixel>, next: seq<Pixel>, was: seq<Pixel>, rect: Box, t: nat, width: nat)
    requires width > 0 && t < Count(rect) && Kept(now, was, rect, t, width) && |next| == |now|
    requires forall k :: 0 <= k < |now| && !Covers(TileBox(rect, t), Col(width, k), Row(width, k)) ==> next[k] == now[k]
    ensures Kept(next, was, rect, t + 1, width)
  {
    forall k | 0 <= k < |now| && !InFirst(rect, t + 1, width, k)
      ensures next[k] == was[k]
    {
      Partition(rect, t, Col(width, k), Row(width, k));
    }
  }

  /** When all subrectangles lie inside their tiles, the client paints nothing outside the tiles. */
  lemma {:induction false} OutsideKept(s: State, width: nat, height: nat, rect: Box, bpp: nat, t: nat)
    requires width > 0 && CheckRect(rect, width, height) && t <= Count(rect)
    requires AllStayInside(s, width, height, rect, bpp, t)
    ensures var d := Decode(s, width, height, rect, bpp, t);
            d.Some? ==> Kept(d.value.canvas, s.canvas, rect, t, width)
  {
    hide Step, StaysInside, TileBox, Count, CheckRect, Kept;
    KeptNone(s.canvas, rect, width);
    if t > 0 {
      OutsideKept(s, width, height, rect, bpp, t - 1);
      var d := Decode(s, width, height, rect, bpp, t - 1);
      if d.Some? {
        var b := TileBox(rect, t - 1);
        Partition(rect, t - 1, 0, 0);
        assert StaysInside(d.value, b, bpp);
        var next := Step(d.value, width, height, b, bpp);
        if next.Some? {
          StepInside(d.value, width, height, b, bpp);
          KeptMore(d.value.canvas, next.value.canvas, s.canvas, rect, t - 1, width);
        }
      }
    }
  }

  /** All tiles together are the rectangle. */
  lemma WholeRectangle(rect: Box, width: nat, k: nat)
    requires width > 0
    ensures InFirst(rect, Count(rect), width, k) <==> Covers(rect, Col(width, k), Row(width, k))
  {
    if Covers(rect, Col(width, k), Row(width, k)) {
      var i, j := (Col(width, k) - rect.x) / 16, (Row(width, k) - rect.y) / 16;
      TileAt(rect, i, j);
    }
  }
}
