/** The client's decoder of cursor shapes. */
module Cursor {
  import opened Grid
  import opened Octets
  import opened Connection
  import Canvas

  const MAX_CURSOR_SIZE: nat := 1024

  /** The bytes of a row of a bitmap. */
  function BytesPerRow(width: nat): (n: nat)
    ensures width <= 8 * n < width + 8
  {
    (width + 7) / 8
  }

  /** The bit of column `x` of a row: the most significant bit of a byte comes first. */
  function BitOf(b: byte, i: nat): byte
    requires i < 8
  {
    Byte(Int(b) / Pow2(i) % 2)
  }

  /** The byte that holds the bit of a column of a row. */
  function Spot(width: nat, x: nat, y: nat): nat { y * BytesPerRow(width) + x / 8 }

  /** Bit `q` of a bitmap whose rows are padded to whole bytes. */
  function BitAt(buf: seq<byte>, width: nat, height: nat, q: nat): byte
    requires width > 0 && |buf| == BytesPerRow(width) * height && q < height * width
  {
    BitPlace(width, height, q);
    BitOf(buf[Spot(width, Col(width, q), Row(width, q))], 7 - Col(width, q) % 8)
  }

  lemma BitPlace(width: nat, height: nat, q: nat)
    requires width > 0 && q < height * width
    ensures Spot(width, Col(width, q), Row(width, q)) < BytesPerRow(width) * height
  {
    hide Row, Col, BytesPerRow, Spot;
    RowCol(width, height, q);
    InBitmap(width, height, Col(width, q), Row(width, q));
  }

  lemma InBitmap(width: nat, height: nat, x: nat, y: nat)
    requires x < width && y < height
    ensures Spot(width, x, y) < BytesPerRow(width) * height
  {
    Scale(BytesPerRow(width), y + 1, height);
  }

  function Bits(buf: seq<byte>, width: nat, height: nat): (r: seq<byte>)
    requires width > 0 && |buf| == BytesPerRow(width) * height
    ensures |r| == height * width
  {
    seq(height * width, q requires 0 <= q < height * width => BitAt(buf, width, height, q))
  }

  /** The bytes of an array in which the first `p` bits lie at every `stride`th place. */
  ghost predicate Unpacked(now: seq<byte>, was: seq<byte>, bits: seq<byte>, stride: nat, p: nat)
    requires stride > 0 && p <= |bits|
  {
    && |now| == |was|
    && forall k :: 0 <= k < |now| ==>
         now[k] == if Col(stride, k) == 0 && Row(stride, k) < p then bits[Row(stride, k)] else was[k]
  }

  /** The same, with the pointer at the place of the next bit. */
  ghost predicate Stage(ptr: nat, now: seq<byte>, was: seq<byte>, bits: seq<byte>, stride: nat, p: nat) {
    stride > 0 && p <= |bits| && ptr == p * stride && Unpacked(now, was, bits, stride, p)
  }

  lemma StageNext(ptr: nat, now: seq<byte>, was: seq<byte>, bits: seq<byte>, stride: nat, p: nat)
    requires p < |bits| && |was| == |bits| * stride && Stage(ptr, now, was, bits, stride, p)
    ensures ptr < |now| && Stage(ptr + stride, now[ptr := bits[p]], was, bits, stride, p + 1)
  {
    At(stride, p, 0);
    Scale(stride, p + 1, |bits|);
    forall k | 0 <= k < |now| && k != p * stride && Col(stride, k) == 0
      ensures Row(stride, k) != p
    {
      RowCol(stride, |bits|, k);
    }
  }

  lemma StageStart(was: seq<byte>, bits: seq<byte>, stride: nat)
    requires stride > 0
    ensures Stage(0, was, was, bits, stride, 0)
  {
  }

  /** One bit of the bitmap, where the loops meet it. */
  lemma BitHere(buf: seq<byte>, width: nat, height: nat, x: nat, y: nat)
    requires x < width && y < height && |buf| == BytesPerRow(width) * height
    ensures 0 <= y * width + x < height * width && Spot(width, x, y) < |buf|
    ensures Bits(buf, width, height)[y * width + x] == BitOf(buf[Spot(width, x, y)], 7 - x % 8)
  {
    At(width, y, x);
    RowCol(width, height, y * width + x);
    InBitmap(width, height, x, y);
  }

  /** The loops that turn a bitmap into bytes, `stride` bytes apart. */
  method Unpack(buf: seq<byte>, width: nat, height: nat, stride: nat, dst: array<byte>)
    requires width > 0 && stride > 0 && |buf| == BytesPerRow(width) * height && dst.Length == height * width * stride
    modifies dst
    ensures Unpacked(dst[..], old(dst[..]), Bits(buf, width, height), stride, height * width)
  {
    hide Stage, Bits, BitOf;
    ghost var was, bits := dst[..], Bits(buf, width, height);
    var ptr: nat := 0;
    StageStart(was, bits, stride);
    for y := 0 to height
      invariant Stage(ptr, dst[..], was, bits, stride, y * width)
    {
      Ordered(width, y, height);
      for x := 0 to width / 8
        invariant Stage(ptr, dst[..], was, bits, stride, y * width + 8 * x)
      {
        ptr := UnpackByte(buf, width, height, stride, dst, ptr, x, y, 8, was, y * width + 8 * x);
      }
      ptr := UnpackByte(buf, width, height, stride, dst, ptr, width / 8, y, width % 8, was, y * width + 8 * (width / 8));
    }
    StageUnpacked(ptr, dst[..], was, bits, stride, height * width);
  }

  lemma StageUnpacked(ptr: nat, now: seq<byte>, was: seq<byte>, bits: seq<byte>, stride: nat, p: nat)
    requires Stage(ptr, now, was, bits, stride, p)
    ensures stride > 0 && p <= |bits| && Unpacked(now, was, bits, stride, p)
  {
  }

  lemma Ordered(width: nat, y: nat, height: nat)
    requires y < height
    ensures (y + 1) * width == y * width + width <= height * width
  {
    Scale(width, y + 1, height);
  }

  lemma BitNext(buf: seq<byte>, width: nat, height: nat, stride: nat, ptr: nat, now: seq<byte>, was: seq<byte>, x: nat, y: nat, c: nat, p: nat)
    requires width > 0 && |buf| == BytesPerRow(width) * height && |was| == height * width * stride
    requires y < height && c < 8 && 8 * x + c < width && p == y * width + 8 * x
    requires Stage(ptr, now, was, Bits(buf, width, height), stride, p + c)
    ensures ptr < |now| && 0 <= y * BytesPerRow(width) + x < |buf|
    ensures Stage(ptr + stride, now[ptr := BitOf(buf[y * BytesPerRow(width) + x], 7 - c)], was, Bits(buf, width, height), stride, p + c + 1)
  {
    hide Stage, Bits, BitOf, BytesPerRow;
    assert (8 * x + c) / 8 == x && (8 * x + c) % 8 == c;
    assert y * width + (8 * x + c) == p + c;
    BitHere(buf, width, height, 8 * x + c, y);
    StageNext(ptr, now, was, Bits(buf, width, height), stride, p + c);
  }

  /** The innermost loops: the first `count` bits of a byte. */
  method UnpackByte(buf: seq<byte>, width: nat, height: nat, stride: nat, dst: array<byte>, at: nat, x: nat, y: nat, count: nat,
                    ghost was: seq<byte>, ghost p: nat)
      returns (ptr: nat)
    requires width > 0 && |buf| == BytesPerRow(width) * height && dst.Length == height * width * stride == |was|
    requires y < height && count <= 8 && 8 * x + count <= width && p == y * width + 8 * x
    requires Stage(at, dst[..], was, Bits(buf, width, height), stride, p)
    modifies dst
    ensures Stage(ptr, dst[..], was, Bits(buf, width, height), stride, p + count)
  {
    hide Stage, Bits, BitOf, BytesPerRow;
    ptr := at;
    var b := 7;
    while b > 7 - count
      invariant 7 - count <= b <= 7
      invariant Stage(ptr, dst[..], was, Bits(buf, width, height), stride, p + (7 - b))
    {
      BitNext(buf, width, height, stride, ptr, dst[..], was, x, y, 7 - b, p);
      dst[ptr] := BitOf(buf[y * BytesPerRow(width) + x], b);
      ptr := ptr + stride;
      b := b - 1;
    }
  }

  /** How the client lays out a pixel. */
  datatype Format = Format(redMax: nat, greenMax: nat, blueMax: nat, redShift: nat, greenShift: nat, blueShift: nat)

  ghost predicate ValidFormat(f: Format) {
    && f.redMax < 0x1_0000 && f.greenMax < 0x1_0000 && f.blueMax < 0x1_0000
    && f.redShift < 32 && f.greenShift < 32 && f.blueShift < 32
  }

  function Component(v: byte, max: nat, shift: nat): bv32
    requires max < 0x1_0000 && shift < 32
  {
    Scale(max, Int(v), 255);
    (((Int(v) * max + 127) / 255) as bv32) << shift
  }

  function Together(r: bv32, g: bv32, b: bv32): bv32 { r | g | b }

  /** `RGB24_TO_PIXEL` */
  function RgbToPixel(f: Format, r: byte, g: byte, b: byte): bv32
    requires ValidFormat(f)
  {
    Together(Component(r, f.redMax, f.redShift), Component(g, f.greenMax, f.greenShift), Component(b, f.blueMax, f.blueShift))
  }

  /** `c` is the nearest to `v` 255ths of `max`. */
  predicate Nearest(c: nat, v: byte, max: nat) {
    c <= max && -127 <= 255 * c - Int(v) * max <= 127
  }

  /** A channel at its place in a pixel. */
  function Placed(c: nat, shift: nat): bv32
    requires c < 0x1_0000 && shift < 32
  {
    (c as bv32) << shift
  }

  lemma ComponentNearest(v: byte, max: nat, shift: nat) returns (c: nat)
    requires max < 0x1_0000 && shift < 32
    ensures c < 0x1_0000 && Nearest(c, v, max) && Component(v, max, shift) == Placed(c, shift)
  {
    var n := Int(v) * max;
    Scale(max, Int(v), 255);
    c := (n + 127) / 255;
    assert 255 * c <= n + 127 <= 255 * c + 254;
  }

  /** Each channel of a pixel is the nearest one to that of the colour, at its own place. */
  ghost predicate PixelOf(p: bv32, f: Format, r: byte, g: byte, b: byte)
    requires ValidFormat(f)
  {
    exists red: nat, green: nat, blue: nat ::
      && red < 0x1_0000 && green < 0x1_0000 && blue < 0x1_0000
      && Nearest(red, r, f.redMax) && Nearest(green, g, f.greenMax) && Nearest(blue, b, f.blueMax)
      && p == Together(Placed(red, f.redShift), Placed(green, f.greenShift), Placed(blue, f.blueShift))
  }

  lemma PixelNearest(f: Format, r: byte, g: byte, b: byte)
    requires ValidFormat(f)
    ensures PixelOf(RgbToPixel(f, r, g, b), f, r, g, b)
  {
    hide Component, Nearest, Placed, Together;
    var red := ComponentNearest(r, f.redMax, f.redShift);
    var green := ComponentNearest(g, f.greenMax, f.greenShift);
    var blue := ComponentNearest(b, f.blueMax, f.blueShift);
  }

  function ByteOf(v: bv32, i: nat): byte {
    if i < 4 then Byte((v >> (8 * i)) as nat % 256) else 0
  }

  /** The bytes of a pixel in memory, the least significant one first. */
  function PixelBytes(v: bv32, bpp: nat): (r: seq<byte>)
    ensures |r| == bpp
  {
    seq(bpp, i requires 0 <= i < bpp => ByteOf(v, i))
  }

  function Chosen(bit: byte, back: seq<byte>, fore: seq<byte>): seq<byte> { if bit == 0 then back else fore }

  /** An array in which the first `p` index bytes have grown to pixels. */
  ghost predicate Grown(now: seq<byte>, was: seq<byte>, bits: seq<byte>, back: seq<byte>, fore: seq<byte>, bpp: nat, p: nat)
    requires bpp > 0 && |back| == |fore| == bpp && p <= |bits|
  {
    && |now| == |was|
    && forall k :: 0 <= k < |now| ==>
         now[k] == if Row(bpp, k) < p then Chosen(bits[Row(bpp, k)], back, fore)[Col(bpp, k)] else was[k]
  }

  lemma GrownNext(now: seq<byte>, next: seq<byte>, was: seq<byte>, raw: seq<byte>, bits: seq<byte>, back: seq<byte>, fore: seq<byte>, bpp: nat, p: nat)
    requires bpp > 0 && |back| == |fore| == bpp && p < |bits| && |was| == |bits| * bpp == |next|
    requires Unpacked(was, raw, bits, bpp, |bits|) && Grown(now, was, bits, back, fore, bpp, p)
    ensures 0 <= p * bpp && p * bpp + bpp == (p + 1) * bpp <= |was| && now[p * bpp] == bits[p]
    ensures (forall k :: 0 <= k < |next| ==> next[k] == if p * bpp <= k < p * bpp + bpp then Chosen(bits[p], back, fore)[k - p * bpp] else now[k]) ==>
              Grown(next, was, bits, back, fore, bpp, p + 1)
  {
    Scale(bpp, p + 1, |bits|);
    At(bpp, p, 0);
    forall k | 0 <= k < |next|
      ensures p * bpp <= k < p * bpp + bpp <==> Row(bpp, k) == p
      ensures Row(bpp, k) == p ==> Col(bpp, k) == k - p * bpp
    {
      RowCol(bpp, |bits|, k);
      if p * bpp <= k < p * bpp + bpp {
        At(bpp, p, k - p * bpp);
      }
    }
  }

  /** The loops that turn indices into pixels, each over the place of its index. */
  method Widen(dst: array<byte>, n: nat, bpp: nat, back: seq<byte>, fore: seq<byte>, ghost raw: seq<byte>, ghost bits: seq<byte>)
    requires Canvas.Supported(bpp) && |back| == |fore| == bpp && |bits| == n && dst.Length == n * bpp
    requires Unpacked(dst[..], raw, bits, bpp, n)
    modifies dst
    ensures Grown(dst[..], old(dst[..]), bits, back, fore, bpp, n)
  {
    hide Unpacked, Grown;
    ghost var was := dst[..];
    assert Grown(dst[..], was, bits, back, fore, bpp, 0) by {
      GrownStart(was, bits, back, fore, bpp);
    }
    var at := 0;
    for x := 0 to n
      invariant at == x * bpp && Grown(dst[..], was, bits, back, fore, bpp, x)
    {
      ghost var now := dst[..];
      GrownNext(now, now, was, raw, bits, back, fore, bpp, x);
      var colour := Chosen(dst[at], back, fore);
      for k := 0 to bpp
        invariant forall j :: 0 <= j < dst.Length ==> dst[j] == if at <= j < at + k then colour[j - at] else now[j]
      {
        dst[at + k] := colour[k];
      }
      GrownNext(now, dst[..], was, raw, bits, back, fore, bpp, x);
      at := at + bpp;
    }
  }

  lemma GrownStart(was: seq<byte>, bits: seq<byte>, back: seq<byte>, fore: seq<byte>, bpp: nat)
    requires bpp > 0 && |back| == |fore| == bpp
    ensures Grown(was, was, bits, back, fore, bpp, 0)
  {
  }

  /** The pixels that an XCursor says: the colour that each bit of its bitmap selects. */
  function XPixels(bits: seq<byte>, back: seq<byte>, fore: seq<byte>, bpp: nat): (r: seq<byte>)
    requires bpp > 0 && |back| == |fore| == bpp
    ensures |r| == |bits| * bpp
  {
    seq(|bits| * bpp, k requires 0 <= k < |bits| * bpp =>
      RowCol(bpp, |bits|, k); Chosen(bits[Row(bpp, k)], back, fore)[Col(bpp, k)])
  }

  lemma GrownAll(now: seq<byte>, was: seq<byte>, bits: seq<byte>, back: seq<byte>, fore: seq<byte>, bpp: nat)
    requires bpp > 0 && |back| == |fore| == bpp && |was| == |bits| * bpp && Grown(now, was, bits, back, fore, bpp, |bits|)
    ensures now == XPixels(bits, back, fore, bpp)
  {
    forall k | 0 <= k < |now|
      ensures now[k] == XPixels(bits, back, fore, bpp)[k]
    {
      RowCol(bpp, |bits|, k);
    }
  }

  lemma XPixelByte(bits: seq<byte>, back: seq<byte>, fore: seq<byte>, bpp: nat, k: nat)
    requires bpp > 0 && |back| == |fore| == bpp && k < |bits| * bpp
    ensures Row(bpp, k) < |bits| && |Chosen(bits[Row(bpp, k)], back, fore)| == bpp
    ensures XPixels(bits, back, fore, bpp)[k] == Chosen(bits[Row(bpp, k)], back, fore)[Col(bpp, k)]
  {
    hide Row, Col;
    RowCol(bpp, |bits|, k);
  }

  lemma ChosenIs(bit: byte, back: seq<byte>, fore: seq<byte>)
    ensures Chosen(bit, back, fore) == if bit == 0 then back else fore
  {
  }

  /** Pixel `q` of an XCursor is the colour that bit `q` selects. */
  lemma XPixelAt(bits: seq<byte>, back: seq<byte>, fore: seq<byte>, bpp: nat, q: nat)
    requires bpp > 0 && |back| == |fore| == bpp && q < |bits|
    ensures 0 <= q * bpp && q * bpp + bpp <= |XPixels(bits, back, fore, bpp)|
    ensures XPixels(bits, back, fore, bpp)[q * bpp..q * bpp + bpp] == if bits[q] == 0 then back else fore
  {
    hide XPixels, Chosen, Row, Col;
    Scale(bpp, q + 1, |bits|);
    ChosenIs(bits[q], back, fore);
    forall i: nat | i < bpp
      ensures XPixels(bits, back, fore, bpp)[q * bpp + i] == Chosen(bits[q], back, fore)[i]
    {
      At(bpp, q, i);
      XPixelByte(bits, back, fore, bpp, q * bpp + i);
    }
    SliceIs(XPixels(bits, back, fore, bpp), q * bpp, Chosen(bits[q], back, fore));
  }

  lemma SliceIs(all: seq<byte>, at: nat, part: seq<byte>)
    requires at + |part| <= |all| && forall i: nat :: i < |part| ==> all[at + i] == part[i]
    ensures all[at..at + |part|] == part
  {
  }

  /** How many bytes stand before the mask. */
  function Front(width: nat, height: nat, bpp: nat, xcursor: bool): nat {
    if xcursor then 6 + BytesPerRow(width) * height else width * height * bpp
  }

  function Needed(width: nat, height: nat, bpp: nat, xcursor: bool): nat {
    Front(width, height, bpp, xcursor) + BytesPerRow(width) * height
  }

  /** The pixels of an XCursor: foreground and background colours, of three bytes each, and the bitmap. */
  function XShape(rgb: seq<byte>, buf: seq<byte>, width: nat, height: nat, bpp: nat, f: Format): seq<byte>
    requires ValidFormat(f) && bpp > 0 && width > 0 && |rgb| == 6 && |buf| == BytesPerRow(width) * height
  {
    XPixels(Bits(buf, width, height), PixelBytes(RgbToPixel(f, rgb[3], rgb[4], rgb[5]), bpp),
            PixelBytes(RgbToPixel(f, rgb[0], rgb[1], rgb[2]), bpp), bpp)
  }

  /** Pixel `q` of an XCursor: where its bit is set, the first of the two colours, the foreground, and else the second, the
      background, each channel as near as the format allows. */
  lemma ShownPixel(source: seq<byte>, rgb: seq<byte>, buf: seq<byte>, width: nat, height: nat, bpp: nat, f: Format, q: nat)
      returns (p: bv32, at: nat)
    requires ValidFormat(f) && Canvas.Supported(bpp) && width > 0 && |rgb| == 6 && |buf| == BytesPerRow(width) * height
    requires q < height * width && XSource(source, rgb, buf, width, height, bpp, f)
    ensures at == q * bpp && at + bpp <= |source| && source[at..at + bpp] == PixelBytes(p, bpp)
    ensures if BitAt(buf, width, height, q) == 0 then PixelOf(p, f, rgb[3], rgb[4], rgb[5]) else PixelOf(p, f, rgb[0], rgb[1], rgb[2])
  {
    hide BytesPerRow, PixelBytes, RgbToPixel, PixelOf, BitAt, XPixels;
    var bits := Bits(buf, width, height);
    PixelNearest(f, rgb[0], rgb[1], rgb[2]);
    PixelNearest(f, rgb[3], rgb[4], rgb[5]);
    var (fore, back) := (RgbToPixel(f, rgb[0], rgb[1], rgb[2]), RgbToPixel(f, rgb[3], rgb[4], rgb[5]));
    XPixelAt(bits, PixelBytes(back, bpp), PixelBytes(fore, bpp), bpp, q);
    p, at := if bits[q] == 0 then back else fore, q * bpp;
  }

  /** The least significant byte of a pixel comes first. */
  lemma LittleEndian()
    ensures PixelBytes(0x04030201, 4) == [1, 2, 3, 4]
  {
    var p: bv32 := 0x04030201;
    assert (p >> 0) as nat == 0x04030201 && (p >> 8) as nat == 0x040302 && (p >> 16) as nat == 0x0403 && (p >> 24) as nat == 0x04;
  }

  /** The first column of a row is the most significant bit of its byte, and the eighth the least significant one. */
  lemma BitsOf(b: byte)
    ensures BitOf(b, 7) == (if Int(b) >= 128 then 1 else 0) && Int(BitOf(b, 0)) == Int(b) % 2
  {
    assert Pow2(0) == 1 && Pow2(1) == 2 && Pow2(2) == 4 && Pow2(3) == 8;
    assert Pow2(4) == 16 && Pow2(5) == 32 && Pow2(6) == 64 && Pow2(7) == 128;
  }

  /** Index bytes `bpp` bytes apart; whatever the memory held lies between them. */
  ghost predicate Indices(source: seq<byte>, bits: seq<byte>, bpp: nat) {
    exists was: seq<byte> :: |was| == |bits| * bpp && bpp > 0 && Unpacked(source, was, bits, bpp, |bits|)
  }

  /** What an XCursor leaves in `rcSource`: its pixels at the sizes that the `switch` knows, and else the indices. */
  ghost predicate XSource(source: seq<byte>, rgb: seq<byte>, buf: seq<byte>, width: nat, height: nat, bpp: nat, f: Format)
    requires ValidFormat(f) && bpp > 0 && width > 0 && |rgb| == 6 && |buf| == BytesPerRow(width) * height
  {
    if Canvas.Supported(bpp) then source == XShape(rgb, buf, width, height, bpp, f)
    else Indices(source, Bits(buf, width, height), bpp)
  }

  ghost predicate SourceIs(source: seq<byte>, input: seq<byte>, width: nat, height: nat, bpp: nat, xcursor: bool, f: Format)
    requires ValidFormat(f) && bpp > 0 && width > 0 && |input| >= Front(width, height, bpp, xcursor)
  {
    if xcursor then XSource(source, input[..6], input[6..6 + BytesPerRow(width) * height], width, height, bpp, f)
    else source == input[..width * height * bpp]
  }

  /** Whatever an XCursor of this size of pixels leaves in memory, it is the colours that its bits select. */
  ghost predicate ColoursShown(bpp: nat)
    requires bpp > 0
  {
    forall source, rgb, buf, width: nat, height: nat, f |
      ValidFormat(f) && width > 0 && |rgb| == 6 && |buf| == BytesPerRow(width) * height
      && XSource(source, rgb, buf, width, height, bpp, f) ::
      source == XShape(rgb, buf, width, height, bpp, f)
  }

  lemma White(f: Format)
    requires f == Format(255, 255, 255, 0, 0, 0)
    ensures RgbToPixel(f, 255, 255, 255) == 255
  {
    var full: bv32 := 255;
    assert (255 * 255 + 127) / 255 == 255;
    assert full << 0 == full;
    assert full | full == full;
  }

  lemma WhiteByte(f: Format, bpp: nat)
    requires f == Format(255, 255, 255, 0, 0, 0) && bpp > 0
    ensures PixelBytes(RgbToPixel(f, 255, 255, 255), bpp)[0] == 255
  {
    hide RgbToPixel;
    White(f);
    var full: bv32 := 255;
    assert (full >> 0) as nat % 256 == 255;
  }

  lemma FirstBit()
    ensures BitOf(0, 7) == 0 == BitOf(0x7F, 7) && BitOf(0x80, 7) == 1 && Spot(1, 0, 0) == 0
  {
    hide BitOf;
    BitsOf(0);
    BitsOf(0x7F);
    BitsOf(0x80);
    assert 0 * BytesPerRow(1) == 0;
  }

  /** The leftmost pixel has the most significant bit, section 7.8.1 of RFC 6143. */
  lemma OneBit(buf: seq<byte>)
    requires buf == [0] || buf == [0x7F] || buf == [0x80]
    ensures |buf| == BytesPerRow(1) * 1 && Bits(buf, 1, 1) == [if buf == [0x80] then 1 else 0]
  {
    hide Bits, BitOf, Spot;
    FirstBit();
    BitHere(buf, 1, 1, 0, 0);
  }

  lemma OneIndex(source: seq<byte>, bpp: nat)
    requires bpp > 0 && source == seq(bpp, _ => 0)
    ensures Indices(source, [0], bpp)
  {
    forall k | 0 <= k < bpp
      ensures Row(bpp, k) == 0
    {
      At(bpp, 0, k);
    }
    assert Unpacked(source, source, [0], bpp, 1);
  }

  /** One white background pixel, at a size that the `switch` does not know: the index 0 stays in memory. */
  lemma WhitePixel(bpp: nat) returns (source: seq<byte>, rgb: seq<byte>, buf: seq<byte>, f: Format)
    requires bpp > 0 && !Canvas.Supported(bpp)
    ensures ValidFormat(f) && |rgb| == 6 && |buf| == BytesPerRow(1) * 1
    ensures XSource(source, rgb, buf, 1, 1, bpp, f) && source != XShape(rgb, buf, 1, 1, bpp, f)
    ensures rgb == [255, 255, 255, 255, 255, 255] && buf == [0] && source == seq(bpp, _ => 0)
  {
    hide Bits, Indices, XPixels, PixelBytes, RgbToPixel;
    rgb, buf, f := [255, 255, 255, 255, 255, 255], [0], Format(255, 255, 255, 0, 0, 0);
    source := seq(bpp, _ => 0);
    OneBit(buf);
    OneIndex(source, bpp);
    WhiteByte(f, bpp);
    var white := PixelBytes(RgbToPixel(f, 255, 255, 255), bpp);
    XPixelAt([0], white, white, bpp, 0);
    assert XShape(rgb, buf, 1, 1, bpp, f)[0..bpp][0] == 255;
  }

  /** XCursors are shown in their colours at pixels of one, two and four bytes, and at no other size. */
  lemma ColoursShownIff(bpp: nat)
    requires bpp > 0
    ensures ColoursShown(bpp) <==> Canvas.Supported(bpp)
  {
    if !Canvas.Supported(bpp) {
      var source, rgb, buf, f := WhitePixel(bpp);
    }
  }

  function ShapeMask(input: seq<byte>, width: nat, height: nat, bpp: nat, xcursor: bool): seq<byte>
    requires width > 0 && |input| >= Needed(width, height, bpp, xcursor)
  {
    Bits(input[Front(width, height, bpp, xcursor)..Needed(width, height, bpp, xcursor)], width, height)
  }

  /** Bitmap to indices to pixels, in one array. */
  method Shape(rgb: seq<byte>, buf: seq<byte>, width: nat, height: nat, bpp: nat, f: Format) returns (rcSource: array<byte>)
    requires ValidFormat(f) && bpp > 0 && width > 0 && |rgb| == 6 && |buf| == BytesPerRow(width) * height
    ensures fresh(rcSource) && XSource(rcSource[..], rgb, buf, width, height, bpp, f)
  {
    hide Unpacked, Grown, Bits, XPixels, RgbToPixel, PixelBytes;
    var fore := PixelBytes(RgbToPixel(f, rgb[0], rgb[1], rgb[2]), bpp);
    var back := PixelBytes(RgbToPixel(f, rgb[3], rgb[4], rgb[5]), bpp);
    rcSource := new byte[height * width * bpp];
    ghost var raw, bits := rcSource[..], Bits(buf, width, height);
    Unpack(buf, width, height, bpp, rcSource);
    ghost var was := rcSource[..];
    if Canvas.Supported(bpp) {
      Widen(rcSource, height * width, bpp, back, fore, raw, bits);
      GrownAll(rcSource[..], was, bits, back, fore, bpp);
    }
  }

  lemma MaskUnpacked(now: seq<byte>, was: seq<byte>, bits: seq<byte>)
    requires Unpacked(now, was, bits, 1, |bits|) && |was| == |bits|
    ensures now == bits
  {
    forall k | 0 <= k < |bits|
      ensures now[k] == bits[k]
    {
      At(1, k, 0);
    }
  }

  /** The pixels of a shape, decoded as its encoding asks for. */
  method ReadPixels(conn: Connection, width: nat, height: nat, bpp: nat, xcursor: bool, f: Format) returns (ok: bool, rcSource: array?<byte>)
    requires ValidFormat(f) && bpp > 0 && width > 0
    modifies conn
    ensures ok == (|old(conn.input)| >= Front(width, height, bpp, xcursor))
    ensures ok ==> rcSource != null && fresh(rcSource) && SourceIs(rcSource[..], old(conn.input), width, height, bpp, xcursor, f)
    ensures ok ==> conn.input == old(conn.input)[Front(width, height, bpp, xcursor)..]
  {
    hide XSource, BytesPerRow;
    ghost var input := conn.input;
    rcSource := null;
    var rgb, buf;
    if xcursor {
      ok, rgb := conn.Read(6);
      if !ok {
        return;
      }
      ok, buf := conn.Read(BytesPerRow(width) * height);
      if !ok {
        return;
      }
      assert buf == input[6..6 + BytesPerRow(width) * height];
      rcSource := Shape(rgb, buf, width, height, bpp, f);
    } else {
      ok, buf := conn.Read(width * height * bpp);
      if !ok {
        return;
      }
      rcSource := new byte[|buf|](k requires 0 <= k < |buf| => buf[k]);
    }
  }

  /** The mask of a shape. */
  method ReadMask(conn: Connection, width: nat, height: nat) returns (ok: bool, rcMask: array?<byte>)
    requires width > 0
    modifies conn
    ensures ok == (|old(conn.input)| >= BytesPerRow(width) * height)
    ensures ok ==> rcMask != null && fresh(rcMask)
                   && rcMask[..] == Bits(old(conn.input)[..BytesPerRow(width) * height], width, height)
    ensures ok ==> conn.input == old(conn.input)[BytesPerRow(width) * height..]
  {
    hide Unpacked, Bits, BytesPerRow;
    rcMask := null;
    var buf;
    ok, buf := conn.Read(BytesPerRow(width) * height);
    if ok {
      var mask := new byte[height * width];
      ghost var raw := mask[..];
      Unpack(buf, width, height, 1, mask);
      MaskUnpacked(mask[..], raw, Bits(buf, width, height));
      rcMask := mask;
    }
  }

  /** What a shape is, and what is left of the stream behind it. */
  ghost predicate ShapeIs(input: seq<byte>, rest: seq<byte>, source: seq<byte>, mask: seq<byte>, width: nat, height: nat, bpp: nat,
                          xcursor: bool, f: Format)
    requires ValidFormat(f) && bpp > 0 && width > 0
  {
    && |input| >= Needed(width, height, bpp, xcursor) && rest == input[Needed(width, height, bpp, xcursor)..]
    && SourceIs(source, input, width, height, bpp, xcursor, f)
    && mask == ShapeMask(input, width, height, bpp, xcursor)
  }

  lemma ShapeParts(input: seq<byte>, source: seq<byte>, width: nat, height: nat, bpp: nat, xcursor: bool, f: Format)
    requires ValidFormat(f) && bpp > 0 && width > 0 && |input| >= Needed(width, height, bpp, xcursor)
    requires SourceIs(source, input, width, height, bpp, xcursor, f)
    ensures var rest := input[Front(width, height, bpp, xcursor)..];
            ShapeIs(input, rest[BytesPerRow(width) * height..], source,
                    Bits(rest[..BytesPerRow(width) * height], width, height), width, height, bpp, xcursor, f)
  {
    hide SourceIs, Bits, Front, BytesPerRow;
    var front, size := Front(width, height, bpp, xcursor), BytesPerRow(width) * height;
    assert input[front..][..size] == input[front..front + size];
    assert input[front..][size..] == input[front + size..];
  }

  /** The stream suffices for the whole shape exactly when it does for the pixels and the rest of it for the mask. */
  lemma Enough(input: seq<byte>, width: nat, height: nat, bpp: nat, xcursor: bool)
    ensures |input| >= Needed(width, height, bpp, xcursor) <==>
            && |input| >= Front(width, height, bpp, xcursor)
            && |input[Front(width, height, bpp, xcursor)..]| >= BytesPerRow(width) * height
  {
    hide Front, BytesPerRow;
    assert BytesPerRow(width) * height >= 0;
  }

  class CursorClient {
    const format: Format
    var rcSource: array?<byte>
    var rcMask: array?<byte>

    constructor (format: Format)
      ensures this.format == format && rcSource == null && rcMask == null
    {
      this.format := format;
      rcSource, rcMask := null, null;
    }

    /** `HandleCursorShape`: an XCursor becomes the pixels that its bitmap selects from its two colours, if they have one, two
        or four bytes, a RichCursor brings its pixels, and both bring a mask of one bit per pixel. */
    method HandleCursorShape(conn: Connection, width: nat, height: nat, bpp: nat, xcursor: bool) returns (ok: bool)
      requires ValidFormat(format) && bpp > 0
      modifies this, conn
      ensures width * height == 0 ==> ok && rcSource == old(rcSource) && rcMask == old(rcMask) && conn.input == old(conn.input)
      ensures width * height > 0 ==>
          && ok == (width < MAX_CURSOR_SIZE && height < MAX_CURSOR_SIZE && |old(conn.input)| >= Needed(width, height, bpp, xcursor))
          && (!ok ==> rcMask == old(rcMask)
                      && rcSource == if width < MAX_CURSOR_SIZE && height < MAX_CURSOR_SIZE then null else old(rcSource))
          && (ok ==> rcSource != null && rcMask != null
                     && ShapeIs(old(conn.input), conn.input, rcSource[..], rcMask[..], width, height, bpp, xcursor, format))
    {
      if width * height == 0 {
        return true;
      }
      if width >= MAX_CURSOR_SIZE || height >= MAX_CURSOR_SIZE {
        return false;
      }
      hide SourceIs, ShapeIs, Bits, Front, BytesPerRow, Needed;
      ghost var input := conn.input;
      Enough(input, width, height, bpp, xcursor);
      rcSource := null;
      var mask;
      ok, rcSource := ReadPixels(conn, width, height, bpp, xcursor, format);
      if !ok {
        rcSource := null;
        return;
      }
      ok, mask := ReadMask(conn, width, height);
      if !ok {
        rcSource := null;
        return;
      }
      rcMask := mask;
      ShapeParts(input, rcSource[..], width, height, bpp, xcursor, format);
    }
  }
}
