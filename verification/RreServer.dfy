/** The server's RRE and CoRRE encoders. */
module RreServer {
  import opened Wrappers
  import opened Grid
  import opened Octets
  import opened Canvas
  import opened Subrects
  import opened Pictures
  import opened Connection
  import opened UpdateBuffer
  import opened Rre
  import opened Rectangles
  import opened Update
  import opened RawServer

  function Colour(p: Pixel, bpp: nat): (r: seq<byte>)
    ensures |r| == bpp
  {
    if |p| == bpp then p else seq(bpp, _ => 0)
  }

  /** The bytes of an RRE subrectangle. */
  function WideWire(s: Sub, bpp: nat): (r: seq<byte>)
    ensures |r| == bpp + 8
  {
    Colour(s.colour, bpp) + (Swapped(s.box.x, 2) + (Swapped(s.box.y, 2) + (Swapped(s.box.w, 2) + Swapped(s.box.h, 2))))
  }

  /** The bytes of a CoRRE subrectangle. */
  function SmallWire(s: Sub, bpp: nat): (r: seq<byte>)
    ensures |r| == bpp + 4
  {
    Colour(s.colour, bpp) + [Byte(s.box.x % 256), Byte(s.box.y % 256), Byte(s.box.w % 256), Byte(s.box.h % 256)]
  }

  function Wires(wire: Sub -> seq<byte>, subs: seq<Sub>): (r: seq<seq<byte>>)
    ensures |r| == |subs|
  {
    seq(|subs|, i requires 0 <= i < |subs| => wire(subs[i]))
  }

  lemma {:induction false} WiresFlat(wire: Sub -> seq<byte>, subs: seq<Sub>)
    ensures WireAll(wire, subs) == Flat(Wires(wire, subs))
  {
    if subs != [] {
      WiresFlat(wire, subs[1..]);
      assert Wires(wire, subs)[1..] == Wires(wire, subs[1..]);
    }
  }

  /** Whether each subrectangle lies below a bound, and has pixels of the right size. */
  ghost predicate AllWithin(subs: seq<Sub>, bound: nat, bpp: nat) {
    forall i :: 0 <= i < |subs| ==> SubWithin(subs[i], bound, bpp)
  }

  ghost predicate SubWithin(s: Sub, bound: nat, bpp: nat) {
    s.box.x < bound && s.box.y < bound && s.box.w < bound && s.box.h < bound && |s.colour| == bpp
  }

  lemma WideBack(s: Sub, bpp: nat)
    requires SubWithin(s, 0x1_0000, bpp)
    ensures Sub(WideBox(WideWire(s, bpp)[bpp..]), WideWire(s, bpp)[..bpp]) == s
  {
    assert Power256(2) == 256 * Power256(1) && Power256(1) == 256 * Power256(0);
    hide Big, Swapped, Power256;
    var (p, q, r, t) := (Swapped(s.box.x, 2), Swapped(s.box.y, 2), Swapped(s.box.w, 2), Swapped(s.box.h, 2));
    BigSwapped(s.box.x, 2);
    BigSwapped(s.box.y, 2);
    BigSwapped(s.box.w, 2);
    BigSwapped(s.box.h, 2);
    var all := WideWire(s, bpp)[bpp..];
    assert all == p + (q + (r + t));
    assert all[..2] == p && all[2..4] == q && all[4..6] == r && all[6..] == t;
  }

  lemma SmallBack(s: Sub, bpp: nat)
    requires SubWithin(s, 256, bpp)
    ensures Sub(SmallBox(SmallWire(s, bpp)[bpp..]), SmallWire(s, bpp)[..bpp]) == s
  {

  }

  /** The bytes of a rectangle: the number of subrectangles, the background, and the subrectangles. */
  function Stream(bg: Pixel, subs: seq<Sub>, wire: Sub -> seq<byte>): seq<byte> {
    Swapped(|subs|, 4) + (bg + WireAll(wire, subs))
  }

  /** One subrectangle on a background in CoRRE: the count in network byte order, the background, and then the colour before
      the rectangle, as section 7.7.3 of RFC 6143 has it for RRE. */
  lemma StreamBytes(wire: Sub -> seq<byte>)
    requires forall s :: wire(s) == SmallWire(s, 1)
    ensures Stream([9], [Sub(Box(1, 2, 3, 4), [5])], wire) == [0, 0, 0, 1, 9, 5, 1, 2, 3, 4]
  {
    hide Swapped, SmallWire;
    var s := Sub(Box(1, 2, 3, 4), [5]);
    OneInFour();
    OneWire();
    assert WireAll(wire, [s]) == wire(s) + WireAll(wire, [s][1..]);
  }

  lemma OneWire()
    ensures SmallWire(Sub(Box(1, 2, 3, 4), [5]), 1) == [5, 1, 2, 3, 4]
  {
  }

  lemma OneInFour()
    ensures Swapped(1, 4) == [0, 0, 0, 1]
  {
    assert Swapped(1, 1) == [1];
    assert Swapped(1, 2) == [0, 1];
    assert Swapped(1, 3) == [0, 0, 1];
  }

  lemma StreamParts(bg: Pixel, subs: seq<Sub>, wire: Sub -> seq<byte>, m: nat, rest: seq<byte>)
    requires |subs| < 0x1_0000_0000 && forall s :: |wire(s)| == m
    ensures var input := Stream(bg, subs, wire) + rest;
            && |input| >= 4 + |bg| && NSubrects(input) == |subs| && input[4..4 + |bg|] == bg
            && |subs| * m <= |input[4 + |bg|..]|
            && Chop(input[4 + |bg|..], m, |subs|) == Wires(wire, subs)
            && input[4 + |bg|..][|subs| * m..] == rest
  {
    hide Big, Swapped, Flat, Chop, WireAll;
    FourBytes(|subs|);
    WiresFlat(wire, subs);
    var pieces := Wires(wire, subs);
    FlatChop(pieces, m, rest);
    ThreeParts(Swapped(|subs|, 4), bg, Flat(pieces), rest);
    assert Stream(bg, subs, wire) + rest == Swapped(|subs|, 4) + bg + Flat(pieces) + rest;
  }

  lemma ThreeParts(a: seq<byte>, b: seq<byte>, c: seq<byte>, d: seq<byte>)
    ensures var s := a + b + c + d;
            s[..|a|] == a && s[|a|..|a| + |b|] == b && s[|a| + |b|..] == c + d
  {
  }

  /** The client reads back what the bytes were made of. */
  lemma RreBack(s: Screen, bg: Pixel, subs: seq<Sub>, rest: seq<byte>, width: nat, height: nat, rect: Box, bpp: nat)
    requires width > 0 && |bg| == bpp && |subs| < 0x1_0000_0000 && AllWithin(subs, 0x1_0000, bpp)
    requires s.input == Stream(bg, subs, x => WideWire(x, bpp)) + rest
    ensures DecodeRre(s, width, height, rect, bpp) == Some(Screen(rest, Painted(s.canvas, width, height, rect, bg, subs)))
  {
    hide Stream, WideWire, WideBox, Chop, NSubrects, Painted;
    var wire := x => WideWire(x, bpp);
    StreamParts(bg, subs, wire, bpp + 8, rest);
    var pieces := Wires(wire, subs);
    forall i | 0 <= i < |subs|
      ensures WideSubs(pieces, bpp)[i] == subs[i]
    {
      WideBack(subs[i], bpp);
    }
    assert WideSubs(pieces, bpp) == subs;
  }

  lemma CorreBack(s: Screen, bg: Pixel, subs: seq<Sub>, rest: seq<byte>, width: nat, height: nat, rect: Box, bpp: nat)
    requires width > 0 && |bg| == bpp && |subs| <= RFB_BUFFER_SIZE / (4 + bpp) && AllWithin(subs, 256, bpp)
    requires s.input == Stream(bg, subs, x => SmallWire(x, bpp)) + rest
    ensures DecodeCorre(s, width, height, rect, bpp) == Some(Screen(rest, Painted(s.canvas, width, height, rect, bg, subs)))
  {
    hide Stream, SmallWire, SmallBox, Chop, NSubrects, Painted;
    var wire := x => SmallWire(x, bpp);
    StreamParts(bg, subs, wire, bpp + 4, rest);
    var pieces := Wires(wire, subs);
    forall i | 0 <= i < |subs|
      ensures SmallSubs(pieces, bpp)[i] == subs[i]
    {
      SmallBack(subs[i], bpp);
    }
    assert SmallSubs(pieces, bpp) == subs;
  }

  /** How often each colour has been counted in the pixels before `j`. */
  ghost predicate Counted(counts: seq<int>, d: seq<Pixel>) {
    |counts| == 256 && forall b: byte :: counts[Int(b)] + Others(d, [b]) == |d|
  }

  lemma CountedMore(counts: seq<int>, d: seq<Pixel>, p: Pixel)
    requires Counted(counts, d) && |p| == 1
    ensures Counted(counts[Int(p[0]) := counts[Int(p[0])] + 1], d + [p])
  {
    hide Others;
    assert p == [p[0]];
    forall b: byte
      ensures counts[Int(p[0]) := counts[Int(p[0])] + 1][Int(b)] + Others(d + [p], [b]) == |d| + 1
    {
      OthersEnd(d, p, [b]);
    }
  }

  /** The colour that leads when the pixels have been counted: the last one takes the lead if it has got more pixels than the
      leader before it. */
  ghost function Leader(d: seq<Pixel>): Pixel {
    if d == [] then [0]
    else
      var (before, last) := (Leader(d[..|d| - 1]), d[|d| - 1]);
      if Others(d, last) < Others(d, before) then last else before
  }

  ghost function Background(d: seq<Pixel>, bpp: nat): Pixel {
    if bpp == 1 then Leader(d) else if d == [] then [] else d[0]
  }

  lemma LeaderNone(p: Pixel)
    ensures Leader([]) == [0] && Others([], p) == 0
  {
  }

  lemma LeaderNext(d: seq<Pixel>, p: Pixel)
    ensures Leader(d + [p]) == if Others(d + [p], p) < Others(d + [p], Leader(d)) then p else Leader(d)
  {
    hide Others;
    assert (d + [p])[..|d|] == d;
  }

  /** `getBgColour`: the first pixel, or with one byte per pixel one of the most frequent. */
  method GetBgColour(data: array<Pixel>, bpp: nat) returns (bg: Pixel)
    requires data.Length > 0 && AllPixels(data[..], bpp)
    ensures bg in data[..]
    ensures bpp == 1 ==> forall p :: |p| == 1 ==> Others(data[..], bg) <= Others(data[..], p)
    ensures bpp != 1 ==> bg == data[0]
    ensures bg == Background(data[..], bpp)
  {
    hide Others, Counted, Leader;
    if bpp != 1 {
      return data[0];
    }
    var counts := seq(256, _ => 0);
    var maxcount := 0;
    bg := [0];
    CountedStart();
    LeaderNone(bg);
    assert data[..0] == [];
    for j := 0 to data.Length
      invariant Counted(counts, data[..j])
      invariant forall i :: 0 <= i < |counts| ==> 0 <= counts[i] <= maxcount
      invariant |counts| == 256 && |bg| == 1
      invariant bg == Leader(data[..j])
      invariant if j == 0 then maxcount == 0 else bg in data[..j] && maxcount == counts[Int(bg[0])] > 0
    {
      var k := Int(data[j][0]);
      CountedMore(counts, data[..j], data[j]);
      assert data[..j + 1] == data[..j] + [data[j]];
      Leading(counts, data[..j], bg, data[j], maxcount);
      counts := counts[k := counts[k] + 1];
      if counts[k] > maxcount {
        maxcount := counts[k];
        bg := data[j];
      }
    }
    assert data[..] == data[..data.Length];
    MostCounted(counts, data[..], bg);
  }

  /** The last pixel takes the lead just when its new count exceeds the biggest one. */
  lemma Leading(counts: seq<int>, d: seq<Pixel>, bg: Pixel, p: Pixel, maxcount: nat)
    requires Counted(counts, d) && |p| == 1 && |bg| == 1 && bg == Leader(d)
    requires if d == [] then maxcount == 0 else maxcount == counts[Int(bg[0])]
    ensures Leader(d + [p]) == if counts[Int(p[0])] + 1 > maxcount then p else bg
  {
    hide Others, Leader;
    assert p == [p[0]] && bg == [bg[0]];
    LeaderNone(p);
    LeaderNone(bg);
    LeaderNext(d, p);
    OthersEnd(d, p, p);
    OthersEnd(d, p, bg);
  }

  lemma CountedStart()
    ensures Counted(seq(256, _ => 0), [])
  {
  }

  lemma MostCounted(counts: seq<int>, d: seq<Pixel>, bg: Pixel)
    requires Counted(counts, d) && |bg| == 1 && forall i :: 0 <= i < 256 ==> counts[i] <= counts[Int(bg[0])]
    ensures forall p :: |p| == 1 ==> Others(d, bg) <= Others(d, p)
  {
    hide Others;
    assert bg == [bg[0]];
    forall p: Pixel | |p| == 1
      ensures Others(d, bg) <= Others(d, p)
    {
      assert p == [p[0]];
    }
  }

  /** The loop that passes an encoded rectangle on through the buffer, in as many parts as it takes. */
  method SendBytes(cl: Updates, bytes: seq<byte>) returns (ok: bool)
    requires cl.Valid()
    modifies cl, cl.updateBuf
    ensures cl.Valid() && cl.sends <= old(cl.sends)
    ensures if ok then cl.Out() == old(cl.Out()) + bytes else cl.sends == 0
  {
    var i := 0;
    while i < |bytes|
      invariant i <= |bytes| && cl.Valid() && cl.sends <= old(cl.sends) && cl.Out() == old(cl.Out()) + bytes[..i]
      decreases |bytes| - i, cl.ublen
    {
      var bytesToCopy := UPDATE_BUF_SIZE - cl.ublen;
      if i + bytesToCopy > |bytes| {
        bytesToCopy := |bytes| - i;
      }
      assert bytes[..i + bytesToCopy] == bytes[..i] + bytes[i..i + bytesToCopy];
      cl.PutAll(bytes[i..i + bytesToCopy]);
      i := i + bytesToCopy;
      if cl.ublen == UPDATE_BUF_SIZE {
        ok := cl.Send();
        if !ok {
          return;
        }
      }
    }
    assert bytes[..i] == bytes;
    ok := true;
  }

  datatype Outcome = Encoded | TooLarge | SocketFailed

  /** What the two encoders have in common: the subrectangles of the part of the screen that a rectangle cuts out, unless
      they take more bytes than its pixels. `header` is the header of the rectangle. */
  method SendRects(cl: Updates, header: seq<byte>, screen: seq<Pixel>, width: nat, height: nat, rect: Box, bpp: nat,
                   wire: Sub -> seq<byte>, per: nat)
      returns (o: Outcome)
    requires cl.Valid() && |header| == 12 && bpp > 0 && rect.w > 0 && rect.h > 0 && CheckRect(rect, width, height)
    requires |screen| == height * width && AllPixels(screen, bpp) && forall s :: |wire(s)| == per
    modifies cl, cl.updateBuf
    ensures cl.Valid() && cl.sends <= old(cl.sends) && (o.SocketFailed? ==> cl.sends == 0) && (o.TooLarge? ==> cl.Out() == old(cl.Out()))
    ensures var d := Part(screen, width, rect);
            && (o.TooLarge? <==> TooLong(Listing(d, rect.w, rect.h, bpp), rect, bpp, per))
            && (o.Encoded? ==> cl.Out() == old(cl.Out()) + header + Stream(Background(d, bpp), Listing(d, rect.w, rect.h, bpp), wire))
  {
    hide Part, Greedy, WireAll, AllPixels, Swapped, Background;
    PartPixels(screen, width, height, rect, bpp);
    Positive(rect.w, rect.h, bpp);
    var data := Translate(screen, width, rect);
    var bg := GetBgColour(data, bpp);
    PixelIn(data[..], bg, bpp);
    var ok, out, numsubs := SubrectEncode(data, rect.w, rect.h, bg, wire, per, bpp, rect.w * rect.h * bpp);
    if !ok {
      return TooLarge;
    }
    ok := SendEncoded(cl, header, Swapped(numsubs, 4), bg + out);
    o := if ok then Encoded else SocketFailed;
  }

  /** The subrectangles that the encoders list for a picture. */
  ghost function Listing(d: seq<Pixel>, w: nat, h: nat, bpp: nat): seq<Sub>
    requires w > 0
  {
    Greedy(d, w, h, Background(d, bpp), 0)
  }

  /** Whether the background and the subrectangles take more bytes than the pixels of a rectangle. */
  predicate TooLong(subs: seq<Sub>, rect: Box, bpp: nat, per: nat) {
    bpp + per * |subs| > rect.w * rect.h * bpp
  }

  /** The bytes of a rectangle in one of the two encodings, or raw where that would take more bytes. */
  ghost function Bytes(screen: seq<Pixel>, width: nat, rect: Box, bpp: nat, encoding: nat, wire: Sub -> seq<byte>, per: nat): seq<byte>
    requires rect.w > 0
  {
    var d := Part(screen, width, rect);
    var subs := Listing(d, rect.w, rect.h, bpp);
    if TooLong(subs, rect, bpp, per) then RawBytes(screen, width, rect)
    else Header(rect, encoding) + Stream(Background(d, bpp), subs, wire)
  }

  ghost function RreBytes(screen: seq<Pixel>, width: nat, rect: Box, bpp: nat): seq<byte>
    requires rect.w > 0
  {
    Bytes(screen, width, rect, bpp, ENCODING_RRE, s => WideWire(s, bpp), bpp + 8)
  }

  ghost function SmallBytes(screen: seq<Pixel>, width: nat, rect: Box, bpp: nat): seq<byte>
    requires rect.w > 0
  {
    Bytes(screen, width, rect, bpp, ENCODING_CORRE, s => SmallWire(s, bpp), bpp + 4)
  }

  lemma Positive(w: nat, h: nat, bpp: nat)
    requires w > 0 && h > 0
    ensures h * w == w * h > 0 && bpp <= w * h * bpp
  {
    Scale(w, 1, h);
    Scale(bpp, 1, w * h);
  }

  lemma PixelIn(d: seq<Pixel>, p: Pixel, bpp: nat)
    requires AllPixels(d, bpp) && p in d
    ensures |p| == bpp
  {
  }

  /** Headers, and the encoded rectangle behind them. */
  method SendEncoded(cl: Updates, header: seq<byte>, hdr: seq<byte>, bytes: seq<byte>) returns (ok: bool)
    requires cl.Valid() && |header| == 12 && |hdr| == 4
    modifies cl, cl.updateBuf
    ensures cl.Valid() && cl.sends <= old(cl.sends)
    ensures if ok then cl.Out() == old(cl.Out()) + header + (hdr + bytes) else cl.sends == 0
  {
    if cl.ublen + 12 + 4 > UPDATE_BUF_SIZE {
      ok := cl.Send();
      if !ok {
        return;
      }
    }
    cl.PutAll(header);
    cl.PutAll(hdr);
    ok := SendBytes(cl, bytes);
  }

  /** The number of subrectangles fits four bytes, and the client's buffer holds those of a CoRRE rectangle. */
  lemma CountsFit(n: nat, w: nat, h: nat, bpp: nat, per: nat)
    requires 0 < bpp <= 4 && per == bpp + 4 && bpp + per * n <= w * h * bpp && w < 256 && h < 256
    ensures n <= RFB_BUFFER_SIZE / (4 + bpp)
  {
    Scale(w, h, 255);
    Scale(bpp, w * h, 65025);
    assert per * n <= 260100;
    if n > RFB_BUFFER_SIZE / per {
      Scale(per, RFB_BUFFER_SIZE / per + 1, n);
    }
  }

  lemma CountFitsFour(n: nat, w: nat, h: nat, bpp: nat)
    requires 0 < bpp <= 4 && bpp + (bpp + 8) * n <= w * h * bpp && w < 0x1_0000 && h < 0x1_0000
    ensures n < 0x1_0000_0000
  {
    Scale(w, h, 0xffff);
    Scale(w, 0, 1);
    Scale(bpp, w * h, 0xffff * 0xffff);
    Scale(9, n, n);
    assert (bpp + 8) * n >= 9 * n;
    assert w * h <= 0xffff * 0xffff;
    assert 9 * n <= 4 * 0xffff * 0xffff;
  }

  /** Subrectangles that depict a picture lie inside it, and have its colours. */
  lemma DepictsWithin(subs: seq<Sub>, picture: seq<Pixel>, w: nat, h: nat, bg: Pixel, bound: nat, bpp: nat)
    requires w > 0 && w < bound && h < bound && Depicts(subs, picture, w, h, bg) && AllPixels(picture, bpp)
    ensures AllWithin(subs, bound, bpp) && AllFit(subs, w, h)
  {
    hide Shade;
    forall i | 0 <= i < |subs|
      ensures SubWithin(subs[i], bound, bpp) && CheckRect(subs[i].box, w, h)
    {
      assert Proper(subs[i], picture, w, h, bg);
    }
  }

  /** A client that gets subrectangles which depict a part of the screen shows that part. */
  lemma RreConveys(bg: Pixel, subs: seq<Sub>, screen: seq<Pixel>, width: nat, height: nat, rect: Box, bpp: nat)
    requires Supported(bpp) && rect.w > 0 && rect.h > 0 && CheckRect(rect, width, height) && FitsHeader(rect)
    requires |screen| == height * width && AllPixels(screen, bpp) && |bg| == bpp
    requires Depicts(subs, Part(screen, width, rect), rect.w, rect.h, bg) && bpp + (bpp + 8) * |subs| <= rect.w * rect.h * bpp
    ensures Conveys(Header(rect, ENCODING_RRE) + Stream(bg, subs, s => WideWire(s, bpp)), 1, screen, width, height, [rect], bpp)
  {
    hide Part, Depicts, ShowsRect, DecodeRre, Painted, Stream, AllPixels, AllWithin, AllFit, Header, Conveys;
    var body := Stream(bg, subs, s => WideWire(s, bpp));
    CountFitsFour(|subs|, rect.w, rect.h, bpp);
    PartPixels(screen, width, height, rect, bpp);
    DepictsWithin(subs, Part(screen, width, rect), rect.w, rect.h, bg, 0x1_0000, bpp);
    forall s: Screen, garbage | body <= s.input && |s.canvas| == |screen|
      ensures BodyConveyed(s, DecodeBody(ENCODING_RRE, s, width, height, rect, bpp, garbage), |body|, screen, width, rect, bpp)
    {
      assert s.input == body + s.input[|body|..];
      RreBack(s, bg, subs, s.input[|body|..], width, height, rect, bpp);
      DepictsShows(s.canvas, subs, bg, screen, width, height, rect);
    }
    ConveysRect(ENCODING_RRE, body, screen, width, height, rect, bpp);
  }

  lemma CorreConveys(bg: Pixel, subs: seq<Sub>, screen: seq<Pixel>, width: nat, height: nat, rect: Box, bpp: nat)
    requires Supported(bpp) && 0 < rect.w < 256 && 0 < rect.h < 256 && CheckRect(rect, width, height) && FitsHeader(rect)
    requires |screen| == height * width && AllPixels(screen, bpp) && |bg| == bpp
    requires Depicts(subs, Part(screen, width, rect), rect.w, rect.h, bg) && bpp + (bpp + 4) * |subs| <= rect.w * rect.h * bpp
    ensures Conveys(Header(rect, ENCODING_CORRE) + Stream(bg, subs, s => SmallWire(s, bpp)), 1, screen, width, height, [rect], bpp)
  {
    hide Part, Depicts, ShowsRect, DecodeCorre, Painted, Stream, AllPixels, AllWithin, AllFit, Header, Conveys;
    var body := Stream(bg, subs, s => SmallWire(s, bpp));
    CountsFit(|subs|, rect.w, rect.h, bpp, bpp + 4);
    PartPixels(screen, width, height, rect, bpp);
    DepictsWithin(subs, Part(screen, width, rect), rect.w, rect.h, bg, 256, bpp);
    forall s: Screen, garbage | body <= s.input && |s.canvas| == |screen|
      ensures BodyConveyed(s, DecodeBody(ENCODING_CORRE, s, width, height, rect, bpp, garbage), |body|, screen, width, rect, bpp)
    {
      assert s.input == body + s.input[|body|..];
      CorreBack(s, bg, subs, s.input[|body|..], width, height, rect, bpp);
      DepictsShows(s.canvas, subs, bg, screen, width, height, rect);
    }
    ConveysRect(ENCODING_CORRE, body, screen, width, height, rect, bpp);
  }

  /** The background is a colour of the picture. */
  lemma {:induction false} BackgroundIn(d: seq<Pixel>, bpp: nat)
    requires d != [] && AllPixels(d, bpp)
    ensures Background(d, bpp) in d
  {
    if bpp == 1 && |d| > 1 {
      BackgroundIn(d[..|d| - 1], bpp);
    } else if bpp == 1 {
      assert d == [] + [d[0]];
      OthersEnd([], d[0], d[0]);
      OthersEnd([], d[0], [0]);
      LeaderNext([], d[0]);
    }
  }

  /** What the encoders list for a part of the screen depicts that part. */
  lemma ListingDepicts(screen: seq<Pixel>, width: nat, height: nat, rect: Box, bpp: nat)
    requires bpp > 0 && rect.w > 0 && rect.h > 0 && CheckRect(rect, width, height) && |screen| == height * width && AllPixels(screen, bpp)
    ensures var d := Part(screen, width, rect);
            |Background(d, bpp)| == bpp && Depicts(Listing(d, rect.w, rect.h, bpp), d, rect.w, rect.h, Background(d, bpp))
  {
    hide Part, Greedy, Depicts, AllPixels, Background;
    var d := Part(screen, width, rect);
    PartPixels(screen, width, height, rect, bpp);
    Positive(rect.w, rect.h, bpp);
    BackgroundIn(d, bpp);
    PixelIn(d, Background(d, bpp), bpp);
    GreedyDepicts(d, rect.w, rect.h, Background(d, bpp));
  }

  /** A client that gets the bytes of an RRE rectangle shows that part of the screen. */
  lemma RreShown(screen: seq<Pixel>, width: nat, height: nat, rect: Box, bpp: nat)
    requires Supported(bpp) && rect.w > 0 && rect.h > 0 && CheckRect(rect, width, height) && FitsHeader(rect)
    requires |screen| == height * width && AllPixels(screen, bpp)
    ensures Conveys(RreBytes(screen, width, rect, bpp), 1, screen, width, height, [rect], bpp)
  {
    hide Part, Depicts, Stream, AllPixels, Header, Conveys, Background, Listing;
    var d := Part(screen, width, rect);
    RawConveys(screen, width, height, rect, bpp);
    ListingDepicts(screen, width, height, rect, bpp);
    if !TooLong(Listing(d, rect.w, rect.h, bpp), rect, bpp, bpp + 8) {
      RreConveys(Background(d, bpp), Listing(d, rect.w, rect.h, bpp), screen, width, height, rect, bpp);
    }
  }

  /** And so does one that gets the bytes of a CoRRE rectangle. */
  lemma CorreShown(screen: seq<Pixel>, width: nat, height: nat, rect: Box, bpp: nat)
    requires Supported(bpp) && 0 < rect.w < 256 && 0 < rect.h < 256 && CheckRect(rect, width, height) && FitsHeader(rect)
    requires |screen| == height * width && AllPixels(screen, bpp)
    ensures Conveys(SmallBytes(screen, width, rect, bpp), 1, screen, width, height, [rect], bpp)
  {
    hide Part, Depicts, Stream, AllPixels, Header, Conveys, Background, Listing;
    var d := Part(screen, width, rect);
    RawConveys(screen, width, height, rect, bpp);
    ListingDepicts(screen, width, height, rect, bpp);
    if !TooLong(Listing(d, rect.w, rect.h, bpp), rect, bpp, bpp + 4) {
      CorreConveys(Background(d, bpp), Listing(d, rect.w, rect.h, bpp), screen, width, height, rect, bpp);
    }
  }

  lemma DepictsShows(c: seq<Pixel>, subs: seq<Sub>, bg: Pixel, screen: seq<Pixel>, width: nat, height: nat, b: Box)
    requires width > 0 && b.w > 0 && CheckRect(b, width, height) && |screen| == height * width == |c|
    requires Depicts(subs, Part(screen, width, b), b.w, b.h, bg)
    ensures ShowsRect(Painted(c, width, height, b, bg, subs), c, screen, b, width)
  {
    hide Shade, ShowsRect, Part;
    assert forall i :: 0 <= i < |subs| ==> Proper(subs[i], Part(screen, width, b), b.w, b.h, bg);
    PaintShows(c, subs, bg, screen, width, height, b);
  }

  /** `rfbSendRectEncodingRRE`: at other pixel sizes it fails and sends nothing.  Otherwise, unless the socket fails, or its
      raw pixels would be needed and a line of them is longer than the buffer, the client turns what goes out back into that
      part of the screen. */
  method SendRre(cl: Updates, screen: seq<Pixel>, width: nat, height: nat, rect: Box, bpp: nat)
      returns (ok: bool, ghost bytes: seq<byte>)
    requires cl.Valid() && 0 < bpp <= 4 && rect.w > 0 && rect.h > 0 && CheckRect(rect, width, height) && FitsHeader(rect)
    requires |screen| == height * width && AllPixels(screen, bpp)
    modifies cl, cl.updateBuf
    ensures cl.Valid() && cl.sends <= old(cl.sends)
    ensures if ok then
              && cl.Out() == old(cl.Out()) + bytes && bytes == RreBytes(screen, width, rect, bpp)
              && Conveys(bytes, 1, screen, width, height, [rect], bpp)
            else cl.sends == 0 || rect.w * bpp > UPDATE_BUF_SIZE || !Supported(bpp)
    ensures !Supported(bpp) ==> !ok && unchanged(cl, cl.updateBuf)
  {
    hide Part, Stream, AllPixels, Header, Conveys, WideWire, Background, Listing;
    if !Supported(bpp) {
      return false, [];
    }
    var o := SendRects(cl, Header(rect, ENCODING_RRE), screen, width, height, rect, bpp, s => WideWire(s, bpp), bpp + 8);
    bytes := RreBytes(screen, width, rect, bpp);
    RreShown(screen, width, height, rect, bpp);
    match o {
      case Encoded =>
        ok := true;
      case TooLarge =>
        ok, bytes := SendRaw(cl, screen, width, height, rect, bpp);
      case SocketFailed =>
        ok := false;
    }
  }

  /** `rfbSendSmallRectEncodingCoRRE`: at other pixel sizes it fails and sends nothing; all that it sends also fits the
      client's buffer. */
  method SendSmallCorre(cl: Updates, screen: seq<Pixel>, width: nat, height: nat, rect: Box, bpp: nat)
      returns (ok: bool, ghost bytes: seq<byte>)
    requires cl.Valid() && 0 < bpp <= 4 && 0 < rect.w < 256 && 0 < rect.h < 256 && CheckRect(rect, width, height) && FitsHeader(rect)
    requires |screen| == height * width && AllPixels(screen, bpp)
    modifies cl, cl.updateBuf
    ensures cl.Valid() && cl.sends <= old(cl.sends)
    ensures if ok then
              && cl.Out() == old(cl.Out()) + bytes && bytes == SmallBytes(screen, width, rect, bpp)
              && Conveys(bytes, 1, screen, width, height, [rect], bpp)
            else cl.sends == 0 || !Supported(bpp)
    ensures !Supported(bpp) ==> !ok && unchanged(cl, cl.updateBuf)
  {
    hide Part, Stream, AllPixels, Header, Conveys, SmallWire, Background, Listing;
    if !Supported(bpp) {
      return false, [];
    }
    var o := SendRects(cl, Header(rect, ENCODING_CORRE), screen, width, height, rect, bpp, s => SmallWire(s, bpp), bpp + 4);
    bytes := SmallBytes(screen, width, rect, bpp);
    CorreShown(screen, width, height, rect, bpp);
    match o {
      case Encoded =>
        ok := true;
      case TooLarge =>
        ok, bytes := SendRaw(cl, screen, width, height, rect, bpp);
        ShortLine(rect.w, bpp);
      case SocketFailed =>
        ok := false;
    }
  }

  lemma ShortLine(w: nat, bpp: nat)
    requires w < 256 && bpp <= 4
    ensures w * bpp <= UPDATE_BUF_SIZE
  {
    Scale(w, bpp, 4);
  }

  /** The rectangles into which `rfbSendRectEncodingCoRRE` splits a rectangle, for a client's largest height and width. */
  function Split(b: Box, maxWidth: nat, maxHeight: nat): seq<Box>
    requires maxWidth > 0 && maxHeight > 0
    decreases b.w + b.h
  {
    if b.h > maxHeight then
      Split(b.(h := maxHeight), maxWidth, maxHeight)
      + Split(b.(y := b.y + maxHeight, h := b.h - maxHeight), maxWidth, maxHeight)
    else if b.w > maxWidth then
      Split(b.(w := maxWidth), maxWidth, maxHeight)
      + Split(b.(x := b.x + maxWidth, w := b.w - maxWidth), maxWidth, maxHeight)
    else [b]
  }

  /** How many of some rectangles cover a place. */
  ghost function Covering(boxes: seq<Box>, x: int, y: int): nat {
    if boxes == [] then 0 else (if Covers(boxes[0], x, y) then 1 else 0) + Covering(boxes[1..], x, y)
  }

  lemma CoveringJoin(a: seq<Box>, b: seq<Box>, x: int, y: int)
    ensures Covering(a + b, x, y) == Covering(a, x, y) + Covering(b, x, y)
    decreases |a|
  {
    if a == [] {
      assert a + b == b;
    } else {
      assert (a + b)[1..] == a[1..] + b;
      CoveringJoin(a[1..], b, x, y);
    }
  }

  ghost predicate AllSmall(boxes: seq<Box>, maxWidth: nat, maxHeight: nat) {
    forall i :: 0 <= i < |boxes| ==> boxes[i].w <= maxWidth && boxes[i].h <= maxHeight
  }

  /** The parts are of the sizes that the client takes, and each place of the rectangle lies in just one of them. */
  lemma {:induction false} SplitCovers(b: Box, maxWidth: nat, maxHeight: nat, x: int, y: int)
    requires maxWidth > 0 && maxHeight > 0
    ensures Covering(Split(b, maxWidth, maxHeight), x, y) == if Covers(b, x, y) then 1 else 0
    ensures AllSmall(Split(b, maxWidth, maxHeight), maxWidth, maxHeight)
    decreases b.w + b.h
  {
    if b.h > maxHeight || b.w > maxWidth {
      var (c, d) := if b.h > maxHeight then (b.(h := maxHeight), b.(y := b.y + maxHeight, h := b.h - maxHeight))
                    else (b.(w := maxWidth), b.(x := b.x + maxWidth, w := b.w - maxWidth));
      assert Split(b, maxWidth, maxHeight) == Split(c, maxWidth, maxHeight) + Split(d, maxWidth, maxHeight);
      hide Split, Covering;
      SplitCovers(c, maxWidth, maxHeight, x, y);
      SplitCovers(d, maxWidth, maxHeight, x, y);
      CoveringJoin(Split(c, maxWidth, maxHeight), Split(d, maxWidth, maxHeight), x, y);
    }
  }

  /** The number of parts that the header of an update announces: `rectsPerRow * rows`. */
  function PartCount(b: Box, maxWidth: nat, maxHeight: nat): nat
    requires maxWidth > 0 && maxHeight > 0 && b.w > 0 && b.h > 0
  {
    (Quotient(b.w - 1, maxWidth) + 1) * (Quotient(b.h - 1, maxHeight) + 1)
  }

  lemma Fewer(a: nat, m: nat)
    requires m > 0
    ensures a > m ==> Quotient(a - 1, m) == Quotient(a - m - 1, m) + 1
    ensures 0 < a <= m ==> Quotient(a - 1, m) == 0
  {
    if a > m {
      var q := Quotient(a - m - 1, m);
      assert a - 1 == m * (q + 1) + (a - m - 1) % m;
      DivModUnique(m, q + 1, (a - m - 1) % m);
    } else if a > 0 {
      DivModUnique(m, 0, a - 1);
    }
  }

  /** It is the number of parts that the split yields. */
  lemma {:induction false} SplitCount(b: Box, maxWidth: nat, maxHeight: nat)
    requires maxWidth > 0 && maxHeight > 0 && b.w > 0 && b.h > 0
    ensures |Split(b, maxWidth, maxHeight)| == PartCount(b, maxWidth, maxHeight)
    decreases b.w + b.h
  {
    hide Quotient;
    Fewer(b.w, maxWidth);
    Fewer(b.h, maxHeight);
    Fewer(maxWidth, maxWidth);
    Fewer(maxHeight, maxHeight);
    var across, down := Quotient(b.w - 1, maxWidth) + 1, Quotient(b.h - 1, maxHeight) + 1;
    if b.h > maxHeight {
      SplitCount(b.(h := maxHeight), maxWidth, maxHeight);
      SplitCount(b.(y := b.y + maxHeight, h := b.h - maxHeight), maxWidth, maxHeight);
      OneRow(across, down - 1);
    } else if b.w > maxWidth {
      SplitCount(b.(w := maxWidth), maxWidth, maxHeight);
      SplitCount(b.(x := b.x + maxWidth, w := b.w - maxWidth), maxWidth, maxHeight);
    }
  }

  lemma OneRow(a: nat, b: nat)
    ensures a * 1 + a * b == a * (b + 1)
  {
  }

  /** Two rectangles, one above or beside the other, that make up a third. */
  predicate Halved(b: Box, c: Box, d: Box) {
    || (b.w == c.w == d.w && b.x == c.x == d.x && b.y == c.y && d.y == b.y + c.h && b.h == c.h + d.h)
    || (b.h == c.h == d.h && b.y == c.y == d.y && b.x == c.x && d.x == b.x + c.w && b.w == c.w + d.w)
  }

  /** The two parts of a split cover what the whole covers. */
  lemma Halves(b: Box, c: Box, d: Box)
    requires Halved(b, c, d)
    ensures forall x, y :: InBoxes([c] + [d], x, y) <==> InBoxes([b], x, y)
  {
    forall x, y
      ensures InBoxes([c] + [d], x, y) <==> InBoxes([b], x, y)
    {
      InEither([c], [d], x, y);
      InOne(b, x, y);
      InOne(c, x, y);
      InOne(d, x, y);
    }
  }

  lemma InOne(b: Box, x: int, y: int)
    ensures InBoxes([b], x, y) <==> Covers(b, x, y)
  {
    if Covers(b, x, y) {
      assert Covers([b][0], x, y);
    }
  }

  /** The bytes of some parts, one after the other. */
  ghost function CorreBytes(screen: seq<Pixel>, width: nat, parts: seq<Box>, bpp: nat): seq<byte> {
    if parts == [] then []
    else (if parts[0].w == 0 then [] else SmallBytes(screen, width, parts[0], bpp)) + CorreBytes(screen, width, parts[1..], bpp)
  }

  lemma {:induction false} CorreJoin(screen: seq<Pixel>, width: nat, a: seq<Box>, b: seq<Box>, bpp: nat)
    ensures CorreBytes(screen, width, a + b, bpp) == CorreBytes(screen, width, a, bpp) + CorreBytes(screen, width, b, bpp)
    decreases |a|
  {
    hide SmallBytes;
    if a == [] {
      assert a + b == b;
    } else {
      assert (a + b)[1..] == a[1..] + b;
      CorreJoin(screen, width, a[1..], b, bpp);
    }
  }

  lemma CorreOne(screen: seq<Pixel>, width: nat, rect: Box, bpp: nat)
    requires rect.w > 0
    ensures CorreBytes(screen, width, [rect], bpp) == SmallBytes(screen, width, rect, bpp)
  {
    hide SmallBytes;
    assert [rect][1..] == [];
    assert SmallBytes(screen, width, rect, bpp) + [] == SmallBytes(screen, width, rect, bpp);
  }

  /** `rfbSendRectEncodingCoRRE`: the split and its parts together. It always reports success, since it ignores what becomes
      of a part: at other pixel sizes although it sends nothing at all.  Otherwise, when the socket has not failed, what
      went out are as many rectangles as the split has parts, and the client, decoding one after the other, turns them back
      into the whole rectangle. */
  method SendCorre(cl: Updates, screen: seq<Pixel>, width: nat, height: nat, b: Box, bpp: nat, maxWidth: nat, maxHeight: nat)
      returns (r: bool, ghost whole: bool, ghost bytes: seq<byte>)
    requires cl.Valid() && 0 < bpp <= 4 && b.w > 0 && b.h > 0 && CheckRect(b, width, height) && width < 0x1_0000 && height < 0x1_0000
    requires 0 < maxWidth < 256 && 0 < maxHeight < 256 && |screen| == height * width && AllPixels(screen, bpp)
    modifies cl, cl.updateBuf
    ensures cl.Valid() && cl.sends <= old(cl.sends) && r
    ensures if whole then
              && cl.Out() == old(cl.Out()) + bytes && bytes == CorreBytes(screen, width, Split(b, maxWidth, maxHeight), bpp)
              && Conveys(bytes, |Split(b, maxWidth, maxHeight)|, screen, width, height, [b], bpp)
            else cl.sends == 0 || !Supported(bpp)
    ensures !Supported(bpp) ==> !whole && unchanged(cl, cl.updateBuf)
    decreases b.w + b.h
  {
    hide AllPixels, Conveys, InBoxes, SmallBytes, CorreBytes;
    if b.h > maxHeight {
      r, whole, bytes := SendHalves(cl, screen, width, height, b, b.(h := maxHeight), b.(y := b.y + maxHeight, h := b.h - maxHeight), bpp,
                                    maxWidth, maxHeight);
    } else if b.w > maxWidth {
      r, whole, bytes := SendHalves(cl, screen, width, height, b, b.(w := maxWidth), b.(x := b.x + maxWidth, w := b.w - maxWidth), bpp,
                                    maxWidth, maxHeight);
    } else {
      var ok;
      ok, bytes := SendSmallCorre(cl, screen, width, height, b, bpp);
      CorreOne(screen, width, b, bpp);
      r, whole := true, ok;
    }
  }

  /** The two calls for the parts of a split. */
  method SendHalves(cl: Updates, screen: seq<Pixel>, width: nat, height: nat, b: Box, c: Box, d: Box, bpp: nat, maxWidth: nat, maxHeight: nat)
      returns (r: bool, ghost whole: bool, ghost bytes: seq<byte>)
    requires cl.Valid() && 0 < bpp <= 4 && CheckRect(b, width, height) && width < 0x1_0000 && height < 0x1_0000
    requires 0 < maxWidth < 256 && 0 < maxHeight < 256 && |screen| == height * width && AllPixels(screen, bpp)
    requires c.w > 0 && c.h > 0 && d.w > 0 && d.h > 0
    requires Halved(b, c, d)
    requires Split(b, maxWidth, maxHeight) == Split(c, maxWidth, maxHeight) + Split(d, maxWidth, maxHeight)
    modifies cl, cl.updateBuf
    ensures cl.Valid() && cl.sends <= old(cl.sends) && r
    ensures if whole then
              && cl.Out() == old(cl.Out()) + bytes && bytes == CorreBytes(screen, width, Split(b, maxWidth, maxHeight), bpp)
              && Conveys(bytes, |Split(b, maxWidth, maxHeight)|, screen, width, height, [b], bpp)
            else cl.sends == 0 || !Supported(bpp)
    ensures !Supported(bpp) ==> !whole && unchanged(cl, cl.updateBuf)
    decreases b.w + b.h, 0
  {
    hide AllPixels, Conveys, InBoxes, Split, CorreBytes;
    bytes := [];
    ghost var first;
    r, whole, first := SendCorre(cl, screen, width, height, c, bpp, maxWidth, maxHeight);
    if r {
      ghost var both, second;
      r, both, second := SendCorre(cl, screen, width, height, d, bpp, maxWidth, maxHeight);
      if whole && both {
        bytes := first + second;
        CorreJoin(screen, width, Split(c, maxWidth, maxHeight), Split(d, maxWidth, maxHeight), bpp);
        ConveysBoth(first, |Split(c, maxWidth, maxHeight)|, second, |Split(d, maxWidth, maxHeight)|, screen, width, height, [c], [d], bpp);
        Halves(b, c, d);
        ConveysSame(bytes, |Split(b, maxWidth, maxHeight)|, screen, width, height, [c] + [d], [b], bpp);
      }
      whole := whole && both;
    }
  }
}
