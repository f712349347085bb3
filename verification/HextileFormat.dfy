/** What the bytes of a hextile rectangle say. */
module HextileFormat {
  import opened Wrappers
  import opened Octets
  import opened Canvas

  const Raw: Flag := 1
  const BackgroundSpecified: Flag := 2
  const ForegroundSpecified: Flag := 4
  const AnySubrects: Flag := 8
  const SubrectsColoured: Flag := 16

  /** `rfbHextilePackXY`, and `rfbHextilePackWH` of sizes less one. */
  function Pack(x: nat, y: nat): byte
    requires x < 16 && y < 16
  {
    Byte(16 * x + y)
  }

  /** The two bytes of a rectangle inside a tile, by the `Extract` macros. */
  function BoxOf(a: byte, b: byte): Box {
    Box(Int(a) / 16, Int(a) % 16, Int(b) / 16 + 1, Int(b) % 16 + 1)
  }

  predicate Packable(b: Box) {
    b.x < 16 && b.y < 16 && 0 < b.w <= 16 && 0 < b.h <= 16
  }

  function PackBox(b: Box): (r: seq<byte>)
    requires Packable(b)
    ensures |r| == 2
  {
    [Pack(b.x, b.y), Pack(b.w - 1, b.h - 1)]
  }

  lemma Nibbles(a: byte, x: nat, y: nat)
    requires x < 16 && y < 16
    ensures Int(a) / 16 < 16
    ensures a == Pack(x, y) <==> Int(a) / 16 == x && Int(a) % 16 == y
  {
  }

  /** The two bytes and the rectangle determine each other. */
  lemma BoxBytes(a: byte, b: byte, box: Box)
    ensures Packable(BoxOf(a, b))
    ensures Packable(box) ==> (PackBox(box) == [a, b] <==> BoxOf(a, b) == box)
  {
    hide Pack, Int;
    Nibbles(a, 0, 0);
    Nibbles(b, 0, 0);
    if Packable(box) {
      Nibbles(a, box.x, box.y);
      Nibbles(b, box.w - 1, box.h - 1);
    }
  }

  /** The column and the width come in the upper four bits, section 7.7.4 of RFC 6143. */
  lemma UpperBits()
    ensures BoxOf(0x12, 0x34) == Box(1, 2, 4, 5) && PackBox(Box(1, 2, 4, 5)) == [0x12, 0x34]
  {
  }

  datatype Rects = NoRects | Plain(boxes: seq<Box>) | Coloured(subs: seq<Sub>)

  datatype Tile = RawTile(pixels: seq<Pixel>) | Painted(bg: Option<Pixel>, fg: Option<Pixel>, rects: Rects)

  predicate IsPixel(p: Pixel, bpp: nat) { |p| == bpp }

  predicate IsColour(p: Option<Pixel>, bpp: nat) { p.Some? ==> |p.value| == bpp }

  /** The tiles of `n` pixels that have an encoding. */
  predicate Encodable(t: Tile, n: nat, bpp: nat) {
    match t
    case RawTile(pixels) => |pixels| == n && forall i :: 0 <= i < n ==> IsPixel(pixels[i], bpp)
    case Painted(bg, fg, rects) =>
      IsColour(bg, bpp) && IsColour(fg, bpp) && EncodableRects(rects, bpp)
  }

  predicate EncodableRects(rects: Rects, bpp: nat) {
    match rects
    case NoRects => true
    case Plain(boxes) => |boxes| < 256 && forall i :: 0 <= i < |boxes| ==> Packable(boxes[i])
    case Coloured(subs) => |subs| < 256 && forall i :: 0 <= i < |subs| ==> PackableSub(subs[i], bpp)
  }

  predicate PackableSub(s: Sub, bpp: nat) { Packable(s.box) && |s.colour| == bpp }

  function PackSub(s: Sub, bpp: nat): (r: seq<byte>)
    requires PackableSub(s, bpp)
    ensures |r| == 2 + bpp
  {
    s.colour + PackBox(s.box)
  }

  /** Whether a subencoding byte announces a tile: all other flags are irrelevant to a raw tile, `SubrectsColoured` to
      one without subrectangles, and the three top bits to every tile. */
  predicate Announces(head: byte, t: Tile) {
    match t
    case RawTile(_) => Has(head, Raw)
    case Painted(bg, fg, rects) =>
      && !Has(head, Raw)
      && Has(head, BackgroundSpecified) == bg.Some? && Has(head, ForegroundSpecified) == fg.Some?
      && AnnouncesRects(head, rects)
  }

  predicate AnnouncesRects(head: byte, rects: Rects) {
    Has(head, AnySubrects) == !rects.NoRects? && (!rects.NoRects? ==> Has(head, SubrectsColoured) == rects.Coloured?)
  }

  function Colour(p: Option<Pixel>): seq<byte> { if p.Some? then p.value else [] }

  function PackBoxes(boxes: seq<Box>): (r: seq<seq<byte>>)
    requires forall i :: 0 <= i < |boxes| ==> Packable(boxes[i])
    ensures |r| == |boxes| && forall i :: 0 <= i < |r| ==> |r[i]| == 2
  {
    seq(|boxes|, i requires 0 <= i < |boxes| => PackBox(boxes[i]))
  }

  function PackSubs(subs: seq<Sub>, bpp: nat): (r: seq<seq<byte>>)
    requires forall i :: 0 <= i < |subs| ==> PackableSub(subs[i], bpp)
    ensures |r| == |subs| && forall i :: 0 <= i < |r| ==> |r[i]| == 2 + bpp
  {
    seq(|subs|, i requires 0 <= i < |subs| => PackSub(subs[i], bpp))
  }

  /** The bytes of a tile after its subencoding byte. */
  function Body(t: Tile, n: nat, bpp: nat): seq<byte>
    requires Encodable(t, n, bpp)
  {
    match t
    case RawTile(pixels) => Flat(pixels)
    case Painted(bg, fg, rects) => Colour(bg) + (Colour(fg) + RectBody(rects, bpp))
  }

  function RectBody(rects: Rects, bpp: nat): seq<byte>
    requires EncodableRects(rects, bpp)
  {
    match rects
    case NoRects => []
    case Plain(boxes) => [Byte(|boxes|)] + Flat(PackBoxes(boxes))
    case Coloured(subs) => [Byte(|subs|)] + Flat(PackSubs(subs, bpp))
  }

  datatype Parsed = Parsed(tile: Tile, rest: seq<byte>)

  function BoxesOf(chunks: seq<seq<byte>>): (r: seq<Box>)
    requires forall i :: 0 <= i < |chunks| ==> |chunks[i]| == 2
    ensures |r| == |chunks|
  {
    seq(|chunks|, i requires 0 <= i < |chunks| => BoxOf(chunks[i][0], chunks[i][1]))
  }

  function SubsOf(chunks: seq<seq<byte>>, bpp: nat): (r: seq<Sub>)
    requires forall i :: 0 <= i < |chunks| ==> |chunks[i]| == 2 + bpp
    ensures |r| == |chunks|
  {
    seq(|chunks|, i requires 0 <= i < |chunks| => Sub(BoxOf(chunks[i][bpp], chunks[i][bpp + 1]), chunks[i][..bpp]))
  }

  /** What the client takes the head of its input for. */
  function Parse(input: seq<byte>, n: nat, bpp: nat): Option<Parsed> {
    if input == [] then None
    else if Has(input[0], Raw) then
      if |input[1..]| < n * bpp then None
      else Some(Parsed(RawTile(Chop(input[1..], bpp, n)), input[1..][n * bpp..]))
    else ParseBg(input[0], input[1..], bpp)
  }

  function ParseBg(head: byte, input: seq<byte>, bpp: nat): Option<Parsed> {
    if !Has(head, BackgroundSpecified) then ParseFg(head, None, input, bpp)
    else if |input| < bpp then None
    else ParseFg(head, Some(input[..bpp]), input[bpp..], bpp)
  }

  function ParseFg(head: byte, bg: Option<Pixel>, input: seq<byte>, bpp: nat): Option<Parsed> {
    if !Has(head, ForegroundSpecified) then Joined(bg, None, ParseRects(head, input, bpp))
    else if |input| < bpp then None
    else Joined(bg, Some(input[..bpp]), ParseRects(head, input[bpp..], bpp))
  }

  datatype ParsedRects = ParsedRects(rects: Rects, rest: seq<byte>)

  function Joined(bg: Option<Pixel>, fg: Option<Pixel>, p: Option<ParsedRects>): Option<Parsed> {
    if p.None? then None else Some(Parsed(Painted(bg, fg, p.value.rects), p.value.rest))
  }

  function ParseRects(head: byte, input: seq<byte>, bpp: nat): Option<ParsedRects> {
    if !Has(head, AnySubrects) then Some(ParsedRects(NoRects, input))
    else if input == [] then None
    else if Has(head, SubrectsColoured) then ParseColoured(Int(input[0]), input[1..], bpp)
    else ParsePlain(Int(input[0]), input[1..])
  }

  function ParseColoured(n: nat, input: seq<byte>, bpp: nat): Option<ParsedRects> {
    if |input| < n * (2 + bpp) then None
    else Some(ParsedRects(Coloured(SubsOf(Chop(input, 2 + bpp, n), bpp)), input[n * (2 + bpp)..]))
  }

  function ParsePlain(n: nat, input: seq<byte>): Option<ParsedRects> {
    if |input| < n * 2 then None
    else Some(ParsedRects(Plain(BoxesOf(Chop(input, 2, n))), input[n * 2..]))
  }

  lemma BoxesBack(boxes: seq<Box>)
    requires forall i :: 0 <= i < |boxes| ==> Packable(boxes[i])
    ensures BoxesOf(PackBoxes(boxes)) == boxes
  {
    forall i | 0 <= i < |boxes|
      ensures BoxesOf(PackBoxes(boxes))[i] == boxes[i]
    {
      BoxBytes(PackBoxes(boxes)[i][0], PackBoxes(boxes)[i][1], boxes[i]);
    }
  }

  lemma SubsBack(subs: seq<Sub>, bpp: nat)
    requires forall i :: 0 <= i < |subs| ==> PackableSub(subs[i], bpp)
    ensures SubsOf(PackSubs(subs, bpp), bpp) == subs
  {
    hide PackBox, BoxOf;
    forall i | 0 <= i < |subs|
      ensures SubsOf(PackSubs(subs, bpp), bpp)[i] == subs[i]
    {
      var p := PackBox(subs[i].box);
      assert p == [p[0], p[1]];
      assert PackSub(subs[i], bpp) == subs[i].colour + p;
      BoxBytes(p[0], p[1], subs[i].box);
    }
  }

  lemma ChunksBack(chunks: seq<seq<byte>>)
    requires forall i :: 0 <= i < |chunks| ==> |chunks[i]| == 2
    ensures forall i :: 0 <= i < |chunks| ==> Packable(BoxesOf(chunks)[i])
    ensures PackBoxes(BoxesOf(chunks)) == chunks
  {
    hide PackBox, BoxOf;
    forall i | 0 <= i < |chunks|
      ensures Packable(BoxesOf(chunks)[i]) && PackBox(BoxesOf(chunks)[i]) == chunks[i]
    {
      BoxBytes(chunks[i][0], chunks[i][1], BoxesOf(chunks)[i]);
      assert chunks[i] == [chunks[i][0], chunks[i][1]];
    }
  }

  lemma ColouredBack(chunks: seq<seq<byte>>, bpp: nat)
    requires forall i :: 0 <= i < |chunks| ==> |chunks[i]| == 2 + bpp
    ensures forall i :: 0 <= i < |chunks| ==> PackableSub(SubsOf(chunks, bpp)[i], bpp)
    ensures PackSubs(SubsOf(chunks, bpp), bpp) == chunks
  {
    hide PackBox, BoxOf;
    forall i | 0 <= i < |chunks|
      ensures PackableSub(SubsOf(chunks, bpp)[i], bpp) && PackSub(SubsOf(chunks, bpp)[i], bpp) == chunks[i]
    {
      BoxBytes(chunks[i][bpp], chunks[i][bpp + 1], SubsOf(chunks, bpp)[i].box);
      assert chunks[i] == chunks[i][..bpp] + [chunks[i][bpp], chunks[i][bpp + 1]];
    }
  }

  lemma PlainParse(boxes: seq<Box>, rest: seq<byte>)
    requires forall i :: 0 <= i < |boxes| ==> Packable(boxes[i])
    ensures ParsePlain(|boxes|, Flat(PackBoxes(boxes)) + rest) == Some(ParsedRects(Plain(boxes), rest))
  {
    hide BoxesOf, PackBoxes, Chop, Flat;
    BoxesBack(boxes);
    FlatChop(PackBoxes(boxes), 2, rest);
  }

  lemma ColouredParse(subs: seq<Sub>, rest: seq<byte>, bpp: nat)
    requires forall i :: 0 <= i < |subs| ==> PackableSub(subs[i], bpp)
    ensures ParseColoured(|subs|, Flat(PackSubs(subs, bpp)) + rest, bpp) == Some(ParsedRects(Coloured(subs), rest))
  {
    hide SubsOf, PackSubs, Chop, Flat;
    SubsBack(subs, bpp);
    FlatChop(PackSubs(subs, bpp), 2 + bpp, rest);
  }

  lemma RectsParse(head: byte, rects: Rects, rest: seq<byte>, bpp: nat)
    requires EncodableRects(rects, bpp) && AnnouncesRects(head, rects)
    ensures ParseRects(head, RectBody(rects, bpp) + rest, bpp) == Some(ParsedRects(rects, rest))
  {
    hide Has, PackBoxes, PackSubs, ParsePlain, ParseColoured, Flat;
    var all := RectBody(rects, bpp) + rest;
    if rects.NoRects? {
      assert all == rest;
    } else if rects.Plain? {
      PlainParse(rects.boxes, rest);
        assert all == [Byte(|rects.boxes|)] + (Flat(PackBoxes(rects.boxes)) + rest);
    } else {
      ColouredParse(rects.subs, rest, bpp);
        assert all == [Byte(|rects.subs|)] + (Flat(PackSubs(rects.subs, bpp)) + rest);
    }
  }

  lemma BgParse(head: byte, bg: Option<Pixel>, fg: Option<Pixel>, tail: seq<byte>, bpp: nat)
    requires IsColour(bg, bpp) && IsColour(fg, bpp)
    requires Has(head, BackgroundSpecified) == bg.Some? && Has(head, ForegroundSpecified) == fg.Some?
    ensures ParseBg(head, Colour(bg) + (Colour(fg) + tail), bpp) == Joined(bg, fg, ParseRects(head, tail, bpp))
  {
    hide Has, ParseRects;
    assert (Colour(fg) + tail)[|Colour(fg)|..] == tail;
    assert (Colour(bg) + (Colour(fg) + tail))[|Colour(bg)|..] == Colour(fg) + tail;
  }

  lemma RawParse(pixels: seq<Pixel>, rest: seq<byte>, bpp: nat)
    requires forall i :: 0 <= i < |pixels| ==> IsPixel(pixels[i], bpp)
    ensures |Flat(pixels) + rest| >= |pixels| * bpp
    ensures Chop(Flat(pixels) + rest, bpp, |pixels|) == pixels && (Flat(pixels) + rest)[|pixels| * bpp..] == rest
  {
    FlatChop(pixels, bpp, rest);
  }

  /** A tile is read back from its bytes, whatever follows them. */
  lemma ParseBody(head: byte, t: Tile, rest: seq<byte>, n: nat, bpp: nat)
    requires Encodable(t, n, bpp) && Announces(head, t)
    ensures Parse([head] + (Body(t, n, bpp) + rest), n, bpp) == Some(Parsed(t, rest))
  {
    hide Has, ParseRects, ParseBg, RectBody, EncodableRects, AnnouncesRects, Chop, Flat, Colour;
    assert ([head] + (Body(t, n, bpp) + rest))[1..] == Body(t, n, bpp) + rest;
    if t.RawTile? {
      RawParse(t.pixels, rest, bpp);
    } else {
      var tail := RectBody(t.rects, bpp);
      RectsParse(head, t.rects, rest, bpp);
      BgParse(head, t.bg, t.fg, tail + rest, bpp);
      assert Body(t, n, bpp) + rest == Colour(t.bg) + (Colour(t.fg) + (tail + rest));
    }
  }

  lemma PlainBody(input: seq<byte>, k: nat)
    requires k < 256 && k * 2 <= |input|
    ensures var boxes := BoxesOf(Chop(input, 2, k));
            (forall i :: 0 <= i < |boxes| ==> Packable(boxes[i])) && input == Flat(PackBoxes(boxes)) + input[k * 2..]
  {
    ChopFlat(input, 2, k);
    ChunksBack(Chop(input, 2, k));
  }

  lemma ColouredBody(input: seq<byte>, k: nat, bpp: nat)
    requires k < 256 && k * (2 + bpp) <= |input|
    ensures var subs := SubsOf(Chop(input, 2 + bpp, k), bpp);
            (forall i :: 0 <= i < |subs| ==> PackableSub(subs[i], bpp)) && input == Flat(PackSubs(subs, bpp)) + input[k * (2 + bpp)..]
  {
    ChopFlat(input, 2 + bpp, k);
    ColouredBack(Chop(input, 2 + bpp, k), bpp);
  }

  lemma RectsBody(head: byte, input: seq<byte>, bpp: nat)
    requires ParseRects(head, input, bpp).Some?
    ensures var p := ParseRects(head, input, bpp).value;
            EncodableRects(p.rects, bpp) && AnnouncesRects(head, p.rects) && input == RectBody(p.rects, bpp) + p.rest
  {
    hide Has, BoxesOf, SubsOf, PackBoxes, PackSubs, Chop, Flat;
    if Has(head, AnySubrects) {
      var k := Int(input[0]);
        assert input == [Byte(k)] + input[1..];
      if Has(head, SubrectsColoured) {
        ColouredBody(input[1..], k, bpp);
      } else {
        PlainBody(input[1..], k);
      }
    }
  }

  lemma BgBody(head: byte, input: seq<byte>, bpp: nat)
    requires ParseBg(head, input, bpp).Some?
    ensures var p := ParseBg(head, input, bpp).value;
            && p.tile.Painted? && IsColour(p.tile.bg, bpp) && IsColour(p.tile.fg, bpp)
            && Has(head, BackgroundSpecified) == p.tile.bg.Some? && Has(head, ForegroundSpecified) == p.tile.fg.Some?
            && exists tail :: input == Colour(p.tile.bg) + (Colour(p.tile.fg) + tail)
                              && ParseRects(head, tail, bpp) == Some(ParsedRects(p.tile.rects, p.rest))
  {
    hide Has, ParseRects;
    var p := ParseBg(head, input, bpp).value;
    var after := input[if Has(head, BackgroundSpecified) then bpp else 0..];
    var tail := after[if Has(head, ForegroundSpecified) then bpp else 0..];
    assert after == Colour(p.tile.fg) + tail;
    assert input == Colour(p.tile.bg) + after;
    assert ParseRects(head, tail, bpp) == Some(ParsedRects(p.tile.rects, p.rest));
  }

  lemma ParsedBody(input: seq<byte>, n: nat, bpp: nat)
    requires Parse(input, n, bpp).Some?
    ensures var p := Parse(input, n, bpp).value;
            input != [] && Encodable(p.tile, n, bpp) && Announces(input[0], p.tile) && input[1..] == Body(p.tile, n, bpp) + p.rest
  {
    hide Has, ParseRects, ParseBg, RectBody, EncodableRects, AnnouncesRects, Chop, Flat;
    var (head, body, p) := (input[0], input[1..], Parse(input, n, bpp).value);
    if Has(head, Raw) {
      ChopFlat(body, bpp, n);
    } else {
      BgBody(head, body, bpp);
      var tail :| body == Colour(p.tile.bg) + (Colour(p.tile.fg) + tail)
                  && ParseRects(head, tail, bpp) == Some(ParsedRects(p.tile.rects, p.rest));
      RectsBody(head, tail, bpp);
      assert body == Colour(p.tile.bg) + (Colour(p.tile.fg) + RectBody(p.tile.rects, bpp)) + p.rest;
    }
  }

  /** The client takes its input for a tile just when the input is a byte that announces the tile, the tile's bytes,
      and the rest. */
  lemma ParseExact(input: seq<byte>, t: Tile, rest: seq<byte>, n: nat, bpp: nat)
    ensures Parse(input, n, bpp) == Some(Parsed(t, rest))
       <==> input != [] && Encodable(t, n, bpp) && Announces(input[0], t) && input[1..] == Body(t, n, bpp) + rest
  {
    hide Parse, Announces, Body;
    if input != [] && Encodable(t, n, bpp) && Announces(input[0], t) && input[1..] == Body(t, n, bpp) + rest {
      assert input == [input[0]] + (Body(t, n, bpp) + rest);
      ParseBody(input[0], t, rest, n, bpp);
    }
    if Parse(input, n, bpp).Some? {
      ParsedBody(input, n, bpp);
    }
  }
}
