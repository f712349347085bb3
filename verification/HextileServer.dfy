/** The server's hextile encoder. */
module HextileServer {
  import opened Wrappers
  import opened Grid
  import opened Octets
  import opened Canvas
  import opened Subrects
  import opened Pictures
  import opened UpdateBuffer
  import opened HextileFormat
  import opened HextileClient
  import opened HextileTiles

  ghost predicate Has1(d: seq<Pixel>, a: Pixel) { forall k :: 0 <= k < |d| ==> d[k] == a }

  ghost predicate Has2(d: seq<Pixel>, a: Pixel, b: Pixel) { forall k :: 0 <= k < |d| ==> d[k] == a || d[k] == b }

  ghost predicate Counts(d: seq<Pixel>, colour1: Pixel, n1: nat, colour2: Pixel, n2: nat, solid: bool) {
    && n1 + n2 == |d| && n2 == Others(d, colour1) && solid == (n2 == 0)
    && (if n2 == 0 then Has1(d, colour1)
        else Has2(d, colour1, colour2) && colour1 != colour2 && colour2 in d && n1 == Others(d, colour2))
    && (|d| > 0 ==> n1 > 0 && colour1 in d)
  }

  lemma CountsMore(d: seq<Pixel>, p: Pixel, colour1: Pixel, n1: nat, colour2: Pixel, n2: nat, solid: bool)
    requires Counts(d, colour1, n1, colour2, n2, solid)
    ensures var c1 := if n1 == 0 then p else colour1;
            if p == c1 then Counts(d + [p], c1, n1 + 1, colour2, n2, solid)
            else
              var c2 := if n2 == 0 then p else colour2;
              p == c2 ==> Counts(d + [p], c1, n1, c2, n2 + 1, false)
  {
    hide Others;
    OthersEnd(d, p, if n1 == 0 then p else colour1);
    OthersEnd(d, p, if n2 == 0 then p else colour2);
    if n1 == 0 {
      assert d == [];
      AllOthers(d, p, colour1);
      AllOthers(d, colour1, p);
    } else if n2 == 0 && p != colour1 {
      AllOthers(d, p, colour1);
    }
  }

  lemma CountsEnd(d: seq<Pixel>, colour1: Pixel, n1: nat, colour2: Pixel, n2: nat, solid: bool)
    requires Counts(d, colour1, n1, colour2, n2, solid) && |d| > 0
    ensures solid <==> exists a :: Has1(d, a)
    ensures exists a, b :: Has2(d, a, b)
    ensures solid ==> n1 > n2 && Has1(d, colour1) && colour1 in d
    ensures !solid ==> colour1 in d && colour2 in d && colour1 != colour2
    ensures if n1 > n2 then Has2(d, colour1, colour2) && 2 * Others(d, colour1) <= |d|
            else !solid && Has2(d, colour2, colour1) && 2 * Others(d, colour2) <= |d|
  {
    assert Has2(d, colour1, colour2);
    assert solid ==> Has1(d, colour1);
  }

  lemma CountsOthers(d: seq<Pixel>, colour1: Pixel, n1: nat, colour2: Pixel, n2: nat, solid: bool)
    requires Counts(d, colour1, n1, colour2, n2, solid)
    ensures n1 + n2 == |d| && Others(d, colour1) == n2
  {
  }

  lemma CountsStart(colour1: Pixel, colour2: Pixel)
    ensures Counts([], colour1, 0, colour2, 0, true)
  {
  }

  lemma Third(d: seq<Pixel>, part: seq<Pixel>, p: Pixel, colour1: Pixel, n1: nat, colour2: Pixel, n2: nat, solid: bool)
    requires part <= d && Counts(part, colour1, n1, colour2, n2, solid) && n2 > 0
    requires p in d && p != colour1 && p != colour2
    ensures colour1 in d && colour2 in d
    ensures !exists a, b :: Has2(d, a, b)
    ensures !exists a :: Has1(d, a)
  {
    hide Others;
    assert colour1 in part && colour2 in part;
    assert colour1 in d && colour2 in d;
  }

  lemma AllOthers(d: seq<Pixel>, p: Pixel, c: Pixel)
    requires Has1(d, c)
    ensures Others(d, c) == 0
    ensures p != c ==> Others(d, p) == |d|
  {
    if d != [] {
      AllOthers(d[1..], p, c);
    }
  }

  ghost predicate Solid(d: seq<Pixel>) { exists a :: Has1(d, a) }

  ghost predicate Mono(d: seq<Pixel>) { exists a, b :: Has2(d, a, b) }

  /** The first colour that is not a given one. */
  function Another(d: seq<Pixel>, c: Pixel, none: Pixel): Pixel {
    if d == [] then none else if d[0] != c then d[0] else Another(d[1..], c, none)
  }

  /** How many pixels come before the first one that has neither of two colours. */
  function Twins(d: seq<Pixel>, a: Pixel, b: Pixel): (n: nat)
    ensures n <= |d|
  {
    if d == [] || (d[0] != a && d[0] != b) then 0 else 1 + Twins(d[1..], a, b)
  }

  /** Background and foreground: the first two colours, the first one in front if it has more of the pixels before a third
      colour. */
  ghost function Grounds(d: seq<Pixel>, bpp: nat): (Pixel, Pixel) {
    var a := if d == [] then seq(bpp, _ => 0) else d[0];
    var b := Another(d, a, seq(bpp, _ => 0));
    var n := Twins(d, a, b);
    if n > 2 * Others(d[..n], a) then (a, b) else (b, a)
  }

  lemma {:induction false} AnotherEnd(d: seq<Pixel>, p: Pixel, c: Pixel, none: Pixel)
    ensures Another(d + [p], c, none) == if Others(d, c) == 0 && p != c then p else Another(d, c, none)
    ensures Others(d, c) == 0 || d == [] ==> Another(d, c, none) == none
  {
    if d == [] {
      assert d + [p] == [p];
    } else {
      assert (d + [p])[1..] == d[1..] + [p];
      AnotherEnd(d[1..], p, c, none);
    }
  }

  lemma {:induction false} AnotherAfter(d: seq<Pixel>, n: nat, c: Pixel, none: Pixel)
    requires n <= |d| && Others(d[..n], c) > 0
    ensures Another(d, c, none) == Another(d[..n], c, none)
  {
    if d[0] == c {
      assert d[..n][1..] == d[1..][..n - 1];
      AnotherAfter(d[1..], n - 1, c, none);
    }
  }

  lemma {:induction false} TwinsAre(d: seq<Pixel>, n: nat, a: Pixel, b: Pixel)
    requires n <= |d| && Has2(d[..n], a, b) && (n < |d| ==> d[n] != a && d[n] != b)
    ensures Twins(d, a, b) == n
  {
    if n > 0 {
      assert d[..n][0] == d[0];
      assert d[..n][1..] == d[1..][..n - 1];
      TwinsAre(d[1..], n - 1, a, b);
    }
  }

  lemma GroundsAre(d: seq<Pixel>, n: nat, colour1: Pixel, n1: nat, colour2: Pixel, n2: nat, solid: bool, bpp: nat)
    requires 0 < n <= |d| && Counts(d[..n], colour1, n1, colour2, n2, solid) && colour1 == d[0]
    requires colour2 == Another(d[..n], colour1, seq(bpp, _ => 0))
    requires n < |d| ==> n2 > 0 && d[n] != colour1 && d[n] != colour2
    ensures Grounds(d, bpp) == if n1 > n2 then (colour1, colour2) else (colour2, colour1)
  {
    hide Others;
    if n < |d| {
      AnotherAfter(d, n, colour1, seq(bpp, _ => 0));
    } else {
      assert d[..n] == d;
    }
    TwinsAre(d, n, colour1, colour2);
  }

  /** One colour, two or more; and with two, the background is one that at least half of the pixels have. */
  method TestColours(data: array<Pixel>, bpp: nat) returns (mono: bool, solid: bool, bg: Pixel, fg: Pixel)
    requires data.Length > 0
    ensures solid == Solid(data[..]) && mono == Mono(data[..]) && (bg, fg) == Grounds(data[..], bpp)
    ensures solid ==> Has1(data[..], bg)
    ensures bg in data[..]
    ensures mono ==> Has2(data[..], bg, fg) && 2 * Others(data[..], bg) <= data.Length
    ensures mono && !solid ==> fg in data[..] && bg != fg
  {
    hide Others, Counts, Another, Grounds;
    var colour1, colour2 := seq(bpp, _ => 0), seq(bpp, _ => 0);
    var n1, n2 := 0, 0;
    mono, solid := true, true;
    var k := 0;
    ghost var none := colour2;
    CountsStart(colour1, colour2);
    AnotherEnd([], [], colour1, none);
    assert data[..0] == [];
    while k < data.Length
      invariant 0 <= k <= data.Length && mono && solid == (n2 == 0)
      invariant Counts(data[..k], colour1, n1, colour2, n2, solid)
      invariant n1 == 0 ==> k == 0
      invariant (if k == 0 then colour2 == none else colour1 == data[0] && colour2 == Another(data[..k], colour1, none))
    {
      var p := data[k];
      assert data[..k + 1] == data[..k] + [p];
      CountsMore(data[..k], p, colour1, n1, colour2, n2, solid);
      CountsOthers(data[..k], colour1, n1, colour2, n2, solid);
      AnotherEnd(data[..k], p, if n1 == 0 then p else colour1, none);
      k := k + 1;
      if n1 == 0 {
        colour1 := p;
      }
      if p == colour1 {
        n1 := n1 + 1;
        continue;
      }
      if n2 == 0 {
        solid := false;
        colour2 := p;
      }
      if p == colour2 {
        n2 := n2 + 1;
        continue;
      }
      mono := false;
      Third(data[..], data[..k - 1], p, colour1, n1, colour2, n2, solid);
      assert data[..][..k - 1] == data[..k - 1];
      GroundsAre(data[..], k - 1, colour1, n1, colour2, n2, solid, bpp);
      break;
    }
    if mono {
      assert data[..k] == data[..] == data[..][..k];
      GroundsAre(data[..], k, colour1, n1, colour2, n2, solid, bpp);
      CountsEnd(data[..], colour1, n1, colour2, n2, solid);
    }
    if n1 > n2 {
      bg, fg := colour1, colour2;
    } else {
      bg, fg := colour2, colour1;
    }
  }

  /** The bytes of a subrectangle of a tile with one foreground colour. */
  function MonoWire(s: Sub): (r: seq<byte>)
    ensures |r| == 2
  {
    if Packable(s.box) then PackBox(s.box) else [0, 0]
  }

  /** The bytes of a subrectangle that brings its colour. */
  function ColourWire(s: Sub, bpp: nat): (r: seq<byte>)
    ensures |r| == 2 + bpp
  {
    (if |s.colour| == bpp then s.colour else seq(bpp, _ => 0)) + MonoWire(s)
  }

  function Boxes(subs: seq<Sub>): (r: seq<Box>)
    ensures |r| == |subs|
  {
    seq(|subs|, i requires 0 <= i < |subs| => subs[i].box)
  }

  lemma {:induction false} MonoWires(subs: seq<Sub>, data: seq<Pixel>, w: nat, h: nat, bg: Pixel, fg: Pixel)
    requires w <= 16 && h <= 16 && AllProper(subs, data, w, h, bg) && Has2(data, bg, fg)
    ensures forall i :: 0 <= i < |subs| ==> Packable(Boxes(subs)[i])
    ensures Tinted(Boxes(subs), fg) == subs
    ensures WireAll(MonoWire, subs) == Flat(PackBoxes(Boxes(subs)))
  {
    assert forall i :: 0 <= i < |subs| ==> Proper(subs[i], data, w, h, bg);
    if subs != [] {
      MonoWires(subs[1..], data, w, h, bg, fg);
      assert Boxes(subs)[1..] == Boxes(subs[1..]);
      assert PackBoxes(Boxes(subs))[1..] == PackBoxes(Boxes(subs[1..]));
    }
  }

  lemma {:induction false} ColourWires(subs: seq<Sub>, data: seq<Pixel>, w: nat, h: nat, bg: Pixel, bpp: nat)
    requires w <= 16 && h <= 16 && AllProper(subs, data, w, h, bg) && AllPixels(data, bpp)
    ensures forall i :: 0 <= i < |subs| ==> PackableSub(subs[i], bpp)
    ensures WireAll(s => ColourWire(s, bpp), subs) == Flat(PackSubs(subs, bpp))
  {
    forall i | 0 <= i < |subs|
      ensures PackableSub(subs[i], bpp)
    {
      assert Proper(subs[i], data, w, h, bg);
    }
    if subs != [] {
      ColourWires(subs[1..], data, w, h, bg, bpp);
      assert PackSubs(subs, bpp)[1..] == PackSubs(subs[1..], bpp);
      assert ColourWire(subs[0], bpp) == PackSub(subs[0], bpp);
    }
  }

  /** Half a tile at most has the foreground, and each coloured subrectangle costs more bytes than a pixel: the number of
      subrectangles always fits its byte. */
  lemma CountFits(n: nat, others: nat, w: nat, h: nat, bpp: nat, mono: bool)
    requires w <= 16 && h <= 16 && 0 < bpp <= 4 && n <= others
    requires if mono then 2 * others <= h * w else 1 + (2 + bpp) * n <= w * h * bpp
    ensures n < 256
  {
    Scale(w, h, 16);
    assert w * h == h * w <= 256;
    Scale(bpp, w * h, 256);
  }

  /** Whether the count and the subrectangles take more bytes than the pixels of the tile. */
  predicate TooLong(subs: seq<Sub>, w: nat, h: nat, bpp: nat, mono: bool) {
    1 + (if mono then 2 else 2 + bpp) * |subs| > w * h * bpp
  }

  function Shapes(subs: seq<Sub>, mono: bool): Rects { if mono then Plain(Boxes(subs)) else Coloured(subs) }

  /** The bytes of `subrectEncode` at the end of the buffer.  When there would be too many, a part of them is left there,
      behind a count that is not set. */
  method SendSubrects(cl: Updates, data: array<Pixel>, w: nat, h: nat, bpp: nat, bg: Pixel, fg: Pixel, mono: bool)
      returns (ok: bool, ghost part: seq<byte>)
    requires cl.Valid() && 0 < w <= 16 && 0 < h <= 16 && 0 < bpp <= 4 && data.Length == h * w
    requires AllPixels(data[..], bpp) && cl.ublen + 256 * bpp <= UPDATE_BUF_SIZE
    requires mono ==> Has2(data[..], bg, fg) && 2 * Others(data[..], bg) <= data.Length
    requires cl.updateBuf as object != data as object
    modifies cl`ublen, cl.updateBuf, data
    ensures cl.Valid()
    ensures var subs := Greedy(old(data[..]), w, h, bg, 0);
            var rects := Shapes(subs, mono);
            && ok == !TooLong(subs, w, h, bpp, mono)
            && (if ok then
                  && EncodableRects(rects, bpp) && RectSubs(rects, fg) == subs && Depicts(subs, old(data[..]), w, h, bg)
                  && cl.Out() == old(cl.Out()) + RectBody(rects, bpp)
                else cl.Out() == old(cl.Out()) + part && 0 < |part| <= w * h * bpp)
  {
    hide Others, Depicts, WireAll, Byte, RectBody, EncodableRects, RectSubs, Shapes, AllPixels, Has2, Greedy, TooLong;
    ghost var was := data[..];
    ghost var subs := Greedy(was, w, h, bg, 0);
    var out, numsubs;
    part := [];
    Scale(w, h, 16);
    Scale(bpp, w * h, 256);
    ok, out, numsubs := ListSubrects(data, w, h, bpp, bg, mono);
    if !ok {
      part := LeavePart(cl, out);
      return;
    }
    RectsAre(was, w, h, bg, fg, bpp, mono);
    cl.Put(Byte(numsubs));
    cl.PutAll(out);
  }

  /** The call of `subrectEncode` for either kind of subrectangles. */
  method ListSubrects(data: array<Pixel>, w: nat, h: nat, bpp: nat, bg: Pixel, mono: bool) returns (ok: bool, out: seq<byte>, numsubs: nat)
    requires 0 < w && 0 < h && 0 < bpp && data.Length == h * w
    modifies data
    ensures var subs := Greedy(old(data[..]), w, h, bg, 0);
            && ok == !TooLong(subs, w, h, bpp, mono)
            && (ok ==> numsubs == |subs| && out == ShapeBytes(subs, bpp, mono))
    ensures 1 + |out| <= w * h * bpp
  {
    hide WireAll, Greedy;
    Scale(w, 1, h);
    Scale(bpp, 1, w * h);
    if mono {
      ok, out, numsubs := SubrectEncode(data, w, h, bg, MonoWire, 2, 1, w * h * bpp);
    } else {
      ok, out, numsubs := SubrectEncode(data, w, h, bg, s => ColourWire(s, bpp), 2 + bpp, 1, w * h * bpp);
    }
  }

  function ShapeBytes(subs: seq<Sub>, bpp: nat, mono: bool): seq<byte> {
    if mono then WireAll(MonoWire, subs) else WireAll(s => ColourWire(s, bpp), subs)
  }

  /** What an encoding that is given up leaves in the buffer: a byte as it was, and the subrectangles so far. */
  method LeavePart(cl: Updates, out: seq<byte>) returns (ghost part: seq<byte>)
    requires cl.Valid() && cl.ublen + 1 + |out| <= UPDATE_BUF_SIZE
    modifies cl`ublen, cl.updateBuf
    ensures cl.Valid() && cl.Out() == old(cl.Out()) + part && |part| == 1 + |out|
  {
    var count := cl.updateBuf[cl.ublen];
    part := [count] + out;
    cl.Put(count);
    cl.PutAll(out);
  }

  /** The listed subrectangles are those of a tile that has an encoding, unless they take too many bytes. */
  lemma RectsAre(data: seq<Pixel>, w: nat, h: nat, bg: Pixel, fg: Pixel, bpp: nat, mono: bool)
    requires 0 < w <= 16 && 0 < h <= 16 && 0 < bpp <= 4 && |data| == h * w && AllPixels(data, bpp)
    requires mono ==> Has2(data, bg, fg) && 2 * Others(data, bg) <= |data|
    ensures var subs := Greedy(data, w, h, bg, 0);
            var rects := Shapes(subs, mono);
            !TooLong(subs, w, h, bpp, mono) ==>
              && EncodableRects(rects, bpp) && RectSubs(rects, fg) == subs && Depicts(subs, data, w, h, bg) && |subs| < 256
              && RectBody(rects, bpp) == [Byte(|subs|)] + ShapeBytes(subs, bpp, mono)
  {
    hide Others, Shade, WireAll, Greedy, AllPixels, Has2, EncodableRects, RectSubs, RectBody, ShapeBytes, Byte, Shapes, AllProper;
    var subs := Greedy(data, w, h, bg, 0);
    GreedyDepicts(data, w, h, bg);
    if !TooLong(subs, w, h, bpp, mono) {
      CountFits(|subs|, Others(data, bg), w, h, bpp, mono);
      ShapesAre(subs, data, w, h, bg, fg, bpp, mono);
    }
  }

  lemma ShapesAre(subs: seq<Sub>, data: seq<Pixel>, w: nat, h: nat, bg: Pixel, fg: Pixel, bpp: nat, mono: bool)
    requires w <= 16 && h <= 16 && AllProper(subs, data, w, h, bg) && AllPixels(data, bpp) && |subs| < 256
    requires mono ==> Has2(data, bg, fg)
    ensures var rects := Shapes(subs, mono);
            && EncodableRects(rects, bpp) && RectSubs(rects, fg) == subs
            && RectBody(rects, bpp) == [Byte(|subs|)] + ShapeBytes(subs, bpp, mono)
  {
    if mono {
      MonoWires(subs, data, w, h, bg, fg);
    } else {
      ColourWires(subs, data, w, h, bg, bpp);
    }
  }

  /** The colours that the encoder takes the client to hold. */
  datatype Memory = Memory(validBg: bool, bg: Pixel, validFg: bool, fg: Pixel)

  /** The client holds them indeed, and they are the ones that the comment means. */
  ghost predicate Remembers(m: Memory, c: Carry, held: Carry) {
    (m.validBg ==> c.bg == held.bg == Some(m.bg)) && (m.validFg ==> c.fg == held.fg == Some(m.fg))
  }

  /** The tile that the encoder chooses for a picture, and what it remembers then. */
  ghost function Choice(m: Memory, d: seq<Pixel>, w: nat, h: nat, bpp: nat): (Tile, Memory)
    requires w > 0
  {
    var (bg, fg) := Grounds(d, bpp);
    var bgs := Unless(m.validBg && bg == m.bg, bg);
    var (mono, subs) := (Mono(d), Greedy(d, w, h, bg, 0));
    if Solid(d) then (Painted(bgs, None, NoRects), m.(validBg := true, bg := bg))
    else if TooLong(subs, w, h, bpp, mono) then (RawTile(d), Memory(false, bg, false, fg))
    else (Painted(bgs, Unless(!mono || (m.validFg && fg == m.fg), fg), Shapes(subs, mono)), Memory(true, bg, mono, if mono then fg else m.fg))
  }

  /** A colour, unless it need not be sent. */
  function Unless(known: bool, colour: Pixel): Option<Pixel> { if known then None else Some(colour) }

  /** The subencoding byte that the encoder gives a tile. */
  function Subencoding(t: Tile): byte {
    match t
    case RawTile(_) => Raw
    case Painted(bg, fg, rects) => Head(bg.Some?, !rects.NoRects?, fg.Some?, rects.Coloured?)
  }

  /** The bytes that the encoder sends for a tile of `n` pixels. */
  function TileBytes(t: Tile, n: nat, bpp: nat): seq<byte> {
    if Encodable(t, n, bpp) then [Subencoding(t)] + Body(t, n, bpp) else []
  }

  /** A tile that depicts its part of the screen, takes over no foreground but one that the client holds, and leaves what
      the encoder remembers. */
  ghost predicate TileSent(piece: seq<byte>, t: Tile, c: Carry, held: Carry, m: Memory, screen: seq<Pixel>, width: nat, b: Box, bpp: nat) {
    && TileEncodes(piece, t, c, screen, width, b, bpp) && piece == TileBytes(t, b.w * b.h, bpp)
    && (TakesFg(t) ==> held.fg == c.fg) && Remembers(m, Specified(t, c), After(t, held))
  }

  /** The subencoding byte as the encoder builds it up. */
  function Head(bg: bool, any: bool, fg: bool, coloured: bool): byte {
    (if bg then 2 else 0) + (if any then 8 else 0) + (if fg then 4 else 0) + (if coloured then 16 else 0)
  }

  lemma HeadBits(bg: bool, any: bool, fg: bool, coloured: bool)
    ensures var h := Head(bg, any, fg, coloured);
            && !Has(h, Raw) && Has(h, BackgroundSpecified) == bg && Has(h, ForegroundSpecified) == fg
            && Has(h, AnySubrects) == any && Has(h, SubrectsColoured) == coloured
    ensures Has(Raw, Raw)
  {
  }

  lemma HeadSteps(bg: bool)
    ensures Head(false, false, false, false) == 0
    ensures With(0, BackgroundSpecified) == Head(true, false, false, false)
    ensures With(Head(bg, false, false, false), AnySubrects) == Head(bg, true, false, false)
    ensures With(Head(bg, true, false, false), ForegroundSpecified) == Head(bg, true, true, false)
    ensures With(Head(bg, true, false, false), SubrectsColoured) == Head(bg, true, false, true)
  {
  }

  lemma PaintedTile(bgs: Option<Pixel>, fgs: Option<Pixel>, rects: Rects, c: Carry, screen: seq<Pixel>, width: nat, b: Box,
                    bpp: nat, bg: Pixel, fg: Pixel)
    requires b.w > 0 && IsColour(bgs, bpp) && IsColour(fgs, bpp) && EncodableRects(rects, bpp)
    requires NextBg(Painted(bgs, fgs, rects), c.bg) == Some(bg)
    requires rects.Plain? ==> OwnFg(Painted(bgs, fgs, rects), c.fg) == Some(fg)
    requires Depicts(RectSubs(rects, fg), Part(screen, width, b), b.w, b.h, bg)
    ensures var piece := [Head(bgs.Some?, !rects.NoRects?, fgs.Some?, rects.Coloured?)] + (Colour(bgs) + (Colour(fgs) + RectBody(rects, bpp)));
            && TileEncodes(piece, Painted(bgs, fgs, rects), c, screen, width, b, bpp)
            && piece == TileBytes(Painted(bgs, fgs, rects), b.w * b.h, bpp)
  {
    hide Head, Has, Part, RectBody, Shade;
    var t := Painted(bgs, fgs, rects);
    HeadBits(bgs.Some?, !rects.NoRects?, fgs.Some?, rects.Coloured?);
    assert RectSubs(rects, Or(OwnFg(t, c.fg))) == RectSubs(rects, fg);
    assert forall i :: 0 <= i < |RectSubs(rects, fg)| ==> Proper(RectSubs(rects, fg)[i], Part(screen, width, b), b.w, b.h, bg);
  }

  lemma SolidDepicts(picture: seq<Pixel>, w: nat, h: nat, bg: Pixel)
    requires w > 0 && Has1(picture, bg)
    ensures Depicts([], picture, w, h, bg)
  {
  }

  lemma RawTileEncodes(c: Carry, screen: seq<Pixel>, width: nat, b: Box, bpp: nat)
    requires b.w > 0 && AllPixels(Part(screen, width, b), bpp)
    ensures var (piece, t) := ([Raw] + Flat(Part(screen, width, b)), RawTile(Part(screen, width, b)));
            TileEncodes(piece, t, c, screen, width, b, bpp) && piece == TileBytes(t, b.w * b.h, bpp)
  {
    hide Part;
    HeadBits(false, false, false, false);
  }

  /** The background of a tile, unless the client has it. */
  method SendBackground(cl: Updates, startUblen: nat, m: Memory, newBg: Pixel, ghost before: seq<byte>) returns (ghost bgs: Option<Pixel>)
    requires cl.Valid() && cl.Out() == before + [0] && |before| == |cl.sent| + startUblen && cl.ublen == startUblen + 1
    requires cl.ublen + |newBg| <= UPDATE_BUF_SIZE
    modifies cl`ublen, cl.updateBuf
    ensures cl.Valid() && cl.Out() == before + [Head(bgs.Some?, false, false, false)] + Colour(bgs)
    ensures cl.ublen == old(cl.ublen) + |Colour(bgs)|
    ensures bgs == Unless(m.validBg && newBg == m.bg, newBg)
  {
    hide Head;
    HeadSteps(true);
    bgs := None;
    if !m.validBg || newBg != m.bg {
      cl.SetFlag(startUblen, BackgroundSpecified, before, 0, []);
      cl.PutAll(newBg);
      bgs := Some(newBg);
    }
  }

  /** The flags for subrectangles, and their foreground, unless the client has it or they bring their colours. */
  method SendForeground(cl: Updates, startUblen: nat, m: Memory, mono: bool, newFg: Pixel, ghost before: seq<byte>, ghost bgs: Option<Pixel>)
      returns (ghost fgs: Option<Pixel>)
    requires cl.Valid() && cl.Out() == before + [Head(bgs.Some?, false, false, false)] + Colour(bgs)
    requires |before| == |cl.sent| + startUblen && startUblen < cl.ublen && (mono ==> cl.ublen + |newFg| <= UPDATE_BUF_SIZE)
    modifies cl`ublen, cl.updateBuf
    ensures cl.Valid() && cl.Out() == before + ([Head(bgs.Some?, true, fgs.Some?, !mono)] + (Colour(bgs) + Colour(fgs)))
    ensures cl.ublen == old(cl.ublen) + |Colour(fgs)|
    ensures fgs == Unless(!mono || (m.validFg && newFg == m.fg), newFg)
  {
    hide Head;
    HeadSteps(bgs.Some?);
    fgs := None;
    cl.SetFlag(startUblen, AnySubrects, before, Head(bgs.Some?, false, false, false), Colour(bgs));
    if mono {
      if !m.validFg || newFg != m.fg {
        cl.SetFlag(startUblen, ForegroundSpecified, before, Head(bgs.Some?, true, false, false), Colour(bgs));
        cl.PutAll(newFg);
        fgs := Some(newFg);
      }
    } else {
      cl.SetFlag(startUblen, SubrectsColoured, before, Head(bgs.Some?, true, false, false), Colour(bgs));
    }
  }

  /** A tile that the encoder gave up on. */
  method SendRaw(cl: Updates, startUblen: nat, screen: seq<Pixel>, width: nat, b: Box, bpp: nat, ghost c: Carry, ghost before: seq<byte>)
      returns (ghost piece: seq<byte>, ghost tile: Tile)
    requires cl.Valid() && b.w > 0 && AllPixels(Part(screen, width, b), bpp)
    requires before <= cl.Out() && |before| == |cl.sent| + startUblen && startUblen <= cl.ublen
    requires startUblen + 1 + b.w * b.h * bpp <= UPDATE_BUF_SIZE
    modifies cl`ublen, cl.updateBuf
    ensures cl.Valid() && cl.Out() == before + piece && tile == RawTile(Part(screen, width, b))
    ensures TileEncodes(piece, tile, c, screen, width, b, bpp) && piece == TileBytes(tile, b.w * b.h, bpp)
  {
    hide Part, TileEncodes, TileBytes;
    cl.Rewind(startUblen, before);
    cl.Put(Raw);
    var data := Translate(screen, width, b);
    FlatChop(data[..], bpp, []);
    cl.PutAll(Flat(data[..]));
    RawTileEncodes(c, screen, width, b, bpp);
    piece, tile := [Raw] + Flat(data[..]), RawTile(data[..]);
  }

  /** The part of a tile of more than one colour that follows its background. */
  method SendShapes(cl: Updates, startUblen: nat, data: array<Pixel>, screen: seq<Pixel>, width: nat, b: Box, bpp: nat, m: Memory,
                    mono: bool, newBg: Pixel, newFg: Pixel, ghost c: Carry, ghost held: Carry, ghost before: seq<byte>,
                    ghost bgs: Option<Pixel>)
      returns (m': Memory, ghost piece: seq<byte>, ghost tile: Tile)
    requires cl.Valid() && 0 < bpp <= 4 && 0 < b.w <= 16 && 0 < b.h <= 16 && startUblen + 1 + (2 + 256) * bpp <= UPDATE_BUF_SIZE
    requires data[..] == Part(screen, width, b) && AllPixels(data[..], bpp) && cl.updateBuf as object != data as object
    requires cl.Out() == before + [Head(bgs.Some?, false, false, false)] + Colour(bgs)
    requires |before| == |cl.sent| + startUblen && cl.ublen == startUblen + 1 + |Colour(bgs)|
    requires IsColour(bgs, bpp) && (mono ==> |newFg| == bpp) && Remembers(m, c, held)
    requires bgs == Unless(m.validBg && newBg == m.bg, newBg)
    requires !Solid(data[..]) && mono == Mono(data[..]) && (newBg, newFg) == Grounds(data[..], bpp)
    requires mono ==> Has2(data[..], newBg, newFg) && 2 * Others(data[..], newBg) <= data.Length
    modifies cl`ublen, cl.updateBuf, data
    ensures cl.Valid() && cl.Out() == before + piece
    ensures TileSent(piece, tile, c, held, m', screen, width, b, bpp)
    ensures (tile, m') == Choice(m, Part(screen, width, b), b.w, b.h, bpp)
  {
    hide Part, TileEncodes, TileBytes, Head, Others, Depicts, Flat, RectBody, EncodableRects, RectSubs, Greedy, Grounds, TooLong, Mono, Solid;
    Scale(b.w, b.h, 16);
    Scale(bpp, b.w * b.h, 256);
    ghost var fgs := SendForeground(cl, startUblen, m, mono, newFg, before, bgs);
    ghost var front := [Head(bgs.Some?, true, fgs.Some?, !mono)] + (Colour(bgs) + Colour(fgs));
    ghost var rects := Shapes(Greedy(data[..], b.w, b.h, newBg, 0), mono);
    var ok; ghost var part;
    ok, part := SendSubrects(cl, data, b.w, b.h, bpp, newBg, newFg, mono);
    if !ok {
      StillBefore(before, front, part);
      piece, tile := SendRaw(cl, startUblen, screen, width, b, bpp, c, before);
      m' := Memory(false, newBg, false, newFg);
    } else {
      tile := Painted(bgs, fgs, rects);
      PaintedTile(bgs, fgs, rects, c, screen, width, b, bpp, newBg, newFg);
      piece := [Head(bgs.Some?, true, fgs.Some?, !mono)] + (Colour(bgs) + (Colour(fgs) + RectBody(rects, bpp)));
      Grouped(before, Head(bgs.Some?, true, fgs.Some?, !mono), Colour(bgs), Colour(fgs), RectBody(rects, bpp));
      m' := Memory(true, newBg, mono, if mono then newFg else m.fg);
    }
  }

  lemma StillBefore(before: seq<byte>, front: seq<byte>, part: seq<byte>)
    ensures before <= before + front + part
  {
    assert before + front + part == before + (front + part);
  }

  /** One tile of the loop nest of `sendHextiles`. */
  method SendTile(cl: Updates, screen: seq<Pixel>, width: nat, height: nat, b: Box, bpp: nat, m: Memory, ghost c: Carry, ghost held: Carry)
      returns (m': Memory, ghost piece: seq<byte>, ghost tile: Tile)
    requires cl.Valid() && 0 < bpp <= 4 && 0 < b.w <= 16 && 0 < b.h <= 16 && cl.ublen + 1 + (2 + 256) * bpp <= UPDATE_BUF_SIZE
    requires CheckRect(b, width, height) && |screen| == height * width && AllPixels(screen, bpp) && Remembers(m, c, held)
    modifies cl`ublen, cl.updateBuf
    ensures cl.Valid() && cl.Out() == old(cl.Out()) + piece
    ensures TileSent(piece, tile, c, held, m', screen, width, b, bpp)
    ensures (tile, m') == Choice(m, Part(screen, width, b), b.w, b.h, bpp)
  {
    hide Part, TileEncodes, TileBytes, Head, Others, Depicts, Flat, RectBody, EncodableRects, RectSubs, Greedy, Grounds, TooLong, Mono, Solid;
    PartPixels(screen, width, height, b, bpp);
    var data := Translate(screen, width, b);
    var startUblen := cl.ublen;
    ghost var before := cl.Out();
    Scale(b.w, b.h, 1);
    assert b.w * b.h > 0;
    cl.Put(0);
    var mono, solid, newBg, newFg := TestColours(data, bpp);
    ghost var bgs := SendBackground(cl, startUblen, m, newBg, before);
    if solid {
      tile := Painted(bgs, None, NoRects);
      EmptyRects(bpp, m.fg);
      SolidDepicts(data[..], b.w, b.h, newBg);
      PaintedTile(bgs, None, NoRects, c, screen, width, b, bpp, newBg, m.fg);
      piece := [Head(bgs.Some?, false, false, false)] + (Colour(bgs) + (Colour(None) + []));
      m' := m.(validBg := true, bg := newBg);
    } else {
      m', piece, tile := SendShapes(cl, startUblen, data, screen, width, b, bpp, m, mono, newBg, newFg, c, held, before, bgs);
    }
  }

  lemma Grouped(before: seq<byte>, head: byte, bg: seq<byte>, fg: seq<byte>, rects: seq<byte>)
    ensures before + ([head] + (bg + fg)) + rects == before + ([head] + (bg + (fg + rects)))
  {
    assert (bg + fg) + rects == bg + (fg + rects);
    assert ([head] + (bg + fg)) + rects == [head] + (bg + (fg + rects));
  }

  lemma EmptyRects(bpp: nat, fg: Pixel)
    ensures EncodableRects(NoRects, bpp) && RectBody(NoRects, bpp) == [] && RectSubs(NoRects, fg) == []
  {
  }

  /** The tiles that the encoder chooses for the first `t` of a rectangle, and what it remembers then. */
  ghost function Choices(screen: seq<Pixel>, width: nat, rect: Box, bpp: nat, t: nat): (r: (seq<Tile>, Memory))
    requires t <= Count(rect)
    ensures |r.0| == t
  {
    if t == 0 then ([], Memory(false, seq(bpp, _ => 0), false, seq(bpp, _ => 0)))
    else
      var (tiles, m) := Choices(screen, width, rect, bpp, t - 1);
      var b := TileBox(rect, t - 1);
      Partition(rect, t - 1, 0, 0);
      var (tile, m') := Choice(m, Part(screen, width, b), b.w, b.h, bpp);
      (tiles + [tile], m')
  }

  /** The bytes of the first tiles of a rectangle. */
  function Pieces(tiles: seq<Tile>, rect: Box, bpp: nat): seq<seq<byte>>
    requires |tiles| <= Count(rect)
  {
    seq(|tiles|, t requires 0 <= t < |tiles| => var b := TileBox(rect, t); TileBytes(tiles[t], b.w * b.h, bpp))
  }

  /** What has been sent when the first tiles are done. */
  ghost predicate Sent(out: seq<byte>, before: seq<byte>, m: Memory, pieces: seq<seq<byte>>, tiles: seq<Tile>, screen: seq<Pixel>,
                       width: nat, rect: Box, bpp: nat, t: nat)
  {
    && t <= Count(rect) && out == before + Flat(pieces) && |tiles| == t
    && (tiles, m) == Choices(screen, width, rect, bpp, t) && pieces == Pieces(tiles, rect, bpp) && Remembers(m, CarryAfter(tiles), HeldAfter(tiles))
    && Encodes(pieces, tiles, screen, width, rect, bpp) && FgKept(tiles, t)
  }

  lemma SentMore(out: seq<byte>, before: seq<byte>, m: Memory, pieces: seq<seq<byte>>, tiles: seq<Tile>, screen: seq<Pixel>,
                 width: nat, rect: Box, bpp: nat, t: nat, m': Memory, piece: seq<byte>, tile: Tile)
    requires Sent(out, before, m, pieces, tiles, screen, width, rect, bpp, t) && t < Count(rect)
    requires TileSent(piece, tile, CarryAfter(tiles), HeldAfter(tiles), m', screen, width, TileBox(rect, t), bpp)
    requires TileBox(rect, t).w > 0
    requires var b := TileBox(rect, t); (tile, m') == Choice(m, Part(screen, width, b), b.w, b.h, bpp)
    ensures Sent(out + piece, before, m', pieces + [piece], tiles + [tile], screen, width, rect, bpp, t + 1)
  {
    hide TileEncodes, TileBytes, TileBox, Count, FgKept, TakesFg, CarryAfter, HeldAfter, Specified, After, Choice, Choices, Part,
         Encodes, Flat, Pieces, Remembers;
    FlatEnd(pieces, piece);
    assert (before + Flat(pieces)) + piece == before + (Flat(pieces) + piece);
    FgKeptMore(tiles, tile);
    ChoicesMore(screen, width, rect, bpp, t);
    PiecesMore(tiles, tile, rect, bpp);
    EncodesMore(pieces, tiles, piece, tile, screen, width, rect, bpp);
  }

  lemma ChoicesMore(screen: seq<Pixel>, width: nat, rect: Box, bpp: nat, t: nat)
    requires t < Count(rect) && TileBox(rect, t).w > 0
    ensures var ((tiles, m), b) := (Choices(screen, width, rect, bpp, t), TileBox(rect, t));
            var (tile, m') := Choice(m, Part(screen, width, b), b.w, b.h, bpp);
            Choices(screen, width, rect, bpp, t + 1) == (tiles + [tile], m')
  {
    hide Choice, TileBox, Count, Part;
  }

  lemma PiecesMore(tiles: seq<Tile>, t: Tile, rect: Box, bpp: nat)
    requires |tiles| < Count(rect)
    ensures var b := TileBox(rect, |tiles|); Pieces(tiles + [t], rect, bpp) == Pieces(tiles, rect, bpp) + [TileBytes(t, b.w * b.h, bpp)]
  {
    hide TileBytes, TileBox, Count;
  }

  lemma EncodesMore(pieces: seq<seq<byte>>, tiles: seq<Tile>, piece: seq<byte>, tile: Tile, screen: seq<Pixel>, width: nat, rect: Box,
                    bpp: nat)
    requires Encodes(pieces, tiles, screen, width, rect, bpp) && |tiles| < Count(rect)
    requires TileEncodes(piece, tile, CarryAfter(tiles), screen, width, TileBox(rect, |tiles|), bpp)
    ensures Encodes(pieces + [piece], tiles + [tile], screen, width, rect, bpp)
  {
    hide TileEncodes, TileBox, Count, CarryAfter;
    assert (tiles + [tile])[..|tiles|] == tiles;
    forall u | 0 <= u < |tiles|
      ensures TileEncodes((pieces + [piece])[u], (tiles + [tile])[u], CarryAfter((tiles + [tile])[..u]), screen, width, TileBox(rect, u), bpp)
    {
      assert (tiles + [tile])[..u] == tiles[..u];
    }
  }

  lemma FgKeptMore(tiles: seq<Tile>, t: Tile)
    requires FgKept(tiles, |tiles|) && (TakesFg(t) ==> HeldAfter(tiles).fg == CarryAfter(tiles).fg)
    ensures FgKept(tiles + [t], |tiles| + 1)
    ensures CarryAfter(tiles + [t]) == Specified(t, CarryAfter(tiles)) && HeldAfter(tiles + [t]) == After(t, HeldAfter(tiles))
  {
    hide TakesFg, Specified, After;
    assert (tiles + [t])[..|tiles|] == tiles;
    forall u | 0 <= u < |tiles|
      ensures (tiles + [t])[..u] == tiles[..u]
    {
    }
  }

  lemma SentNothing(out: seq<byte>, m: Memory, screen: seq<Pixel>, width: nat, rect: Box, bpp: nat)
    requires m == Memory(false, seq(bpp, _ => 0), false, seq(bpp, _ => 0))
    ensures Sent(out, out, m, [], [], screen, width, rect, bpp, 0)
  {
  }

  /** The body of the loop nest: it makes room in the buffer and sends one tile. */
  method SendNext(cl: Updates, screen: seq<Pixel>, width: nat, height: nat, rect: Box, b: Box, bpp: nat, m: Memory,
                  ghost before: seq<byte>, ghost pieces: seq<seq<byte>>, ghost tiles: seq<Tile>, ghost t: nat)
      returns (ok: bool, m': Memory, ghost pieces': seq<seq<byte>>, ghost tiles': seq<Tile>)
    requires cl.Valid() && 0 < bpp <= 4 && CheckRect(rect, width, height) && t < Count(rect) && b == TileBox(rect, t)
    requires |screen| == height * width && AllPixels(screen, bpp)
    requires Sent(cl.Out(), before, m, pieces, tiles, screen, width, rect, bpp, t)
    modifies cl, cl.updateBuf
    ensures cl.Valid() && cl.sends <= old(cl.sends) && (!ok ==> cl.sends == 0)
    ensures ok ==> Sent(cl.Out(), before, m', pieces', tiles', screen, width, rect, bpp, t + 1)
  {
    hide Encodes, TileEncodes, CarryAfter, AllPixels, Flat, Count, TileBox, Choice, Choices, Part, Remembers;
    m', pieces', tiles' := m, pieces, tiles;
    ok := true;
    Partition(rect, t, 0, 0);
    if cl.ublen + 1 + (2 + 16 * 16) * bpp > UPDATE_BUF_SIZE {
      ok := cl.Send();
      if !ok {
        return;
      }
    }
    ghost var piece, tile;
    ghost var out := cl.Out();
    m', piece, tile := SendTile(cl, screen, width, height, b, bpp, m, CarryAfter(tiles), HeldAfter(tiles));
    SentMore(out, before, m, pieces, tiles, screen, width, rect, bpp, t, m', piece, tile);
    pieces', tiles' := pieces + [piece], tiles + [tile];
  }

  /** `sendHextiles`, for all three pixel sizes: unless the socket fails, the bytes of the chosen tiles go out.  They depict
      the rectangle of the screen by the rules of the comment and take over no foreground that the client has lost, and the
      buffer never overflows. */
  method SendHextiles(cl: Updates, screen: seq<Pixel>, width: nat, height: nat, rect: Box, bpp: nat)
      returns (ok: bool, ghost pieces: seq<seq<byte>>, ghost tiles: seq<Tile>)
    requires cl.Valid() && 0 < bpp <= 4 && CheckRect(rect, width, height)
    requires |screen| == height * width && AllPixels(screen, bpp)
    modifies cl, cl.updateBuf
    ensures cl.Valid() && cl.sends <= old(cl.sends) && (!ok ==> cl.sends == 0)
    ensures ok ==> cl.Out() == old(cl.Out()) + Flat(pieces)
    ensures ok ==> |tiles| == Count(rect) && Encodes(pieces, tiles, screen, width, rect, bpp) && FgKept(tiles, |tiles|)
    ensures ok ==> tiles == Choices(screen, width, rect, bpp, Count(rect)).0 && pieces == Pieces(tiles, rect, bpp)
  {
    hide Sent, Encodes, TileEncodes, Remembers, CarryAfter, AllPixels, Flat, CheckRect, Count, TileBox, Choices, Pieces;
    var m := Memory(false, seq(bpp, _ => 0), false, seq(bpp, _ => 0));
    pieces, tiles := [], [];
    ghost var before := cl.Out();
    SentNothing(before, m, screen, width, rect, bpp);
    var y := rect.y;
    ghost var j: nat := 0;
    ghost var a := Across(rect.w);
    while y < rect.y + rect.h
      invariant y == rect.y + 16 * j && cl.Valid() && cl.sends <= old(cl.sends) && j * a <= Count(rect)
      invariant Sent(cl.Out(), before, m, pieces, tiles, screen, width, rect, bpp, j * a)
    {
      var x := rect.x;
      ghost var i: nat, row: nat := 0, j * a;
      while x < rect.x + rect.w
        invariant x == rect.x + 16 * i && i <= a && cl.Valid() && cl.sends <= old(cl.sends) && row + i <= Count(rect)
        invariant Sent(cl.Out(), before, m, pieces, tiles, screen, width, rect, bpp, row + i)
      {
        var w, h := 16, 16;
        if rect.x + rect.w - x < 16 {
          w := rect.x + rect.w - x;
        }
        if rect.y + rect.h - y < 16 {
          h := rect.y + rect.h - y;
        }
        TileAt(rect, i, j);
        ok, m, pieces, tiles := SendNext(cl, screen, width, height, rect, Box(x, y, w, h), bpp, m, before, pieces, tiles, row + i);
        if !ok {
          return;
        }
        x := x + 16;
        i := i + 1;
      }
      RowDone(rect, i, j);
      y := y + 16;
      j := j + 1;
    }
    AllDone(rect, j);
    SentIs(cl.Out(), before, m, pieces, tiles, screen, width, rect, bpp, j * a);
    ok := true;
  }

  lemma SentIs(out: seq<byte>, before: seq<byte>, m: Memory, pieces: seq<seq<byte>>, tiles: seq<Tile>, screen: seq<Pixel>,
               width: nat, rect: Box, bpp: nat, t: nat)
    requires Sent(out, before, m, pieces, tiles, screen, width, rect, bpp, t)
    ensures t <= Count(rect) && out == before + Flat(pieces) && |tiles| == t && Encodes(pieces, tiles, screen, width, rect, bpp)
    ensures tiles == Choices(screen, width, rect, bpp, t).0 && pieces == Pieces(tiles, rect, bpp)
    ensures FgKept(tiles, |tiles|)
  {
  }
}
