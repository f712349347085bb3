/** The client's framebuffer, and what painting rectangles on it means. */
module Canvas {
  import opened Grid
  import opened Octets

  /** The bytes of one pixel, in the order in which they travel and lie in memory. */
  type Pixel = seq<byte>

  /** The pixel sizes, in bytes, that the switches over `bitsPerPixel` have a case for.  Server and client can agree on
      others: pixels of 24 bits are allowed in the default configuration. */
  predicate Supported(bpp: nat) { bpp == 1 || bpp == 2 || bpp == 4 }

  datatype Box = Box(x: nat, y: nat, w: nat, h: nat)

  datatype Sub = Sub(box: Box, colour: Pixel)

  predicate Covers(b: Box, x: int, y: int) {
    b.x <= x < b.x + b.w && b.y <= y < b.y + b.h
  }

  predicate CheckRect(b: Box, width: nat, height: nat) {
    b.x + b.w <= width && b.y + b.h <= height
  }

  /** Whether cell `k` of a framebuffer belongs to a rectangle that the framebuffer accepts. */
  predicate Hits(b: Box, width: nat, height: nat, k: nat)
    requires width > 0
  {
    CheckRect(b, width, height) && Covers(b, Col(width, k), Row(width, k))
  }

  function Fill(c: seq<Pixel>, width: nat, height: nat, b: Box, colour: Pixel): (r: seq<Pixel>)
    requires width > 0
    ensures |r| == |c|
  {
    seq(|c|, k requires 0 <= k < |c| => if Hits(b, width, height, k) then colour else c[k])
  }

  /** The place of cell `k` among the pixels of the rectangle that covers it. */
  function Within(b: Box, width: nat, k: nat): int
    requires width > 0
  {
    (Row(width, k) - b.y) * b.w + (Col(width, k) - b.x)
  }

  lemma WithinBounds(b: Box, width: nat, k: nat)
    requires width > 0 && Covers(b, Col(width, k), Row(width, k))
    ensures 0 <= Within(b, width, k) < b.w * b.h
  {
    var dy := Row(width, k) - b.y;
    Scale(b.w, dy + 1, b.h);
    assert b.w * (dy + 1) == dy * b.w + b.w;
    assert dy * b.w >= 0;
  }

  function Blit(c: seq<Pixel>, width: nat, height: nat, b: Box, pixels: seq<Pixel>): (r: seq<Pixel>)
    requires width > 0 && |pixels| == b.w * b.h
    ensures |r| == |c|
  {
    seq(|c|, k requires 0 <= k < |c| =>
      if Hits(b, width, height, k) then WithinBounds(b, width, k); pixels[Within(b, width, k)] else c[k])
  }

  /** The box moved by a rectangle's corner, as a subrectangle's place is relative to it. */
  function Moved(b: Box, x: nat, y: nat): Box { Box(x + b.x, y + b.y, b.w, b.h) }

  /** Subrectangles painted one over the other. */
  function Paint(c: seq<Pixel>, width: nat, height: nat, x: nat, y: nat, subs: seq<Sub>): (r: seq<Pixel>)
    requires width > 0
    ensures |r| == |c|
    decreases |subs|
  {
    if subs == [] then c
    else Paint(Fill(c, width, height, Moved(subs[0].box, x, y), subs[0].colour), width, height, x, y, subs[1..])
  }

  lemma {:induction false} PaintAppend(c: seq<Pixel>, width: nat, height: nat, x: nat, y: nat, subs: seq<Sub>, more: seq<Sub>)
    requires width > 0
    ensures Paint(c, width, height, x, y, subs + more) == Paint(Paint(c, width, height, x, y, subs), width, height, x, y, more)
    decreases |subs|
  {
    hide Fill;
    if subs == [] {
      assert subs + more == more;
    } else {
      assert (subs + more)[1..] == subs[1..] + more;
      PaintAppend(Fill(c, width, height, Moved(subs[0].box, x, y), subs[0].colour), width, height, x, y, subs[1..], more);
    }
  }

  lemma PaintNone(c: seq<Pixel>, width: nat, height: nat, x: nat, y: nat)
    requires width > 0
    ensures Paint(c, width, height, x, y, []) == c
  {
  }

  lemma PaintOne(c: seq<Pixel>, width: nat, height: nat, x: nat, y: nat, subs: seq<Sub>, i: nat)
    requires width > 0 && i < |subs|
    ensures Paint(c, width, height, x, y, subs[..i + 1])
         == Fill(Paint(c, width, height, x, y, subs[..i]), width, height, Moved(subs[i].box, x, y), subs[i].colour)
  {
    hide Fill;
    var before := Paint(c, width, height, x, y, subs[..i]);
    assert subs[..i + 1] == subs[..i] + [subs[i]];
    PaintAppend(c, width, height, x, y, subs[..i], [subs[i]]);
    assert Paint(before, width, height, x, y, [subs[i]]) == Fill(before, width, height, Moved(subs[i].box, x, y), subs[i].colour);
  }

  /** The colour of the last subrectangle that hits cell `k`, or else what lies under them all. */
  function Shade(subs: seq<Sub>, width: nat, height: nat, x: nat, y: nat, k: nat, under: Pixel): Pixel
    requires width > 0
  {
    if subs == [] then under
    else if Hits(Moved(subs[|subs| - 1].box, x, y), width, height, k) then subs[|subs| - 1].colour
    else Shade(subs[..|subs| - 1], width, height, x, y, k, under)
  }

  /** Painting one over the other shows, in each cell, the last one that hits it. */
  lemma {:induction false} PaintShade(c: seq<Pixel>, width: nat, height: nat, x: nat, y: nat, subs: seq<Sub>, k: nat)
    requires width > 0 && k < |c|
    ensures Paint(c, width, height, x, y, subs)[k] == Shade(subs, width, height, x, y, k, c[k])
    decreases |subs|
  {
    if subs != [] {
      PaintOne(c, width, height, x, y, subs, |subs| - 1);
      assert subs[..|subs| - 1 + 1] == subs;
      PaintShade(c, width, height, x, y, subs[..|subs| - 1], k);
    }
  }

  class FrameBuffer {
    const width: nat
    const height: nat
    const pixels: array<Pixel>

    ghost predicate Valid() {
      width > 0 && pixels.Length == height * width
    }

    constructor (width: nat, height: nat, pixel: Pixel)
      requires width > 0
      ensures Valid() && this.width == width && this.height == height && fresh(pixels)
      ensures forall k :: 0 <= k < pixels.Length ==> pixels[k] == pixel
    {
      this.width, this.height := width, height;
      pixels := new Pixel[height * width](_ => pixel);
    }

    /** The inner loop of `FILL_RECT`. */
    method FillPixels(j: nat, n: nat, colour: Pixel)
      requires j + n <= pixels.Length
      modifies pixels
      ensures forall k :: 0 <= k < pixels.Length ==> pixels[k] == if j <= k < j + n then colour else old(pixels[k])
    {
      for i := 0 to n
        invariant forall k :: 0 <= k < pixels.Length ==> pixels[k] == if j <= k < j + i then colour else old(pixels[k])
      {
        pixels[j + i] := colour;
      }
    }

    /** The client's default for `GotFillRect`. */
    method FillRectangle(b: Box, colour: Pixel, bpp: nat)
      requires Valid()
      modifies pixels
      ensures pixels[..] == if Supported(bpp) then Fill(old(pixels[..]), width, height, b, colour) else old(pixels[..])
    {
      hide Fill, Times;
      FillNone(pixels[..], width, height, b, colour);
      if !CheckRect(b, width, height) || !Supported(bpp) {
        return;
      }
      var j := b.y * width;
      ghost var y := b.y;
      TimesIs(y, width);
      TimesIs(b.y + b.h, width);
      while j < (b.y + b.h) * width
        invariant b.y <= y <= b.y + b.h && j == Times(y, width)
        invariant pixels[..] == Fill(old(pixels[..]), width, height, b.(h := y - b.y), colour)
      {
        TimesOrdered(y, b.y + b.h, width);
        TimesOrdered(y + 1, height, width);
        TimesIs(y, width);
        TimesIs(height, width);
        ghost var was := pixels[..];
        FillPixels(j + b.x, b.w, colour);
        FillRow(old(pixels[..]), width, height, b, y, Times(y, width), colour, was, pixels[..]);
        j := j + width;
        y := y + 1;
      }
      TimesOrdered(y, b.y + b.h, width);
    }

    /** `memcpy` of one row. */
    method CopyPixels(j: nat, buffer: seq<Pixel>, from: nat, n: nat)
      requires j + n <= pixels.Length && from + n <= |buffer|
      modifies pixels
      ensures forall k :: 0 <= k < pixels.Length ==> pixels[k] == if j <= k < j + n then buffer[from + k - j] else old(pixels[k])
    {
      for i := 0 to n
        invariant forall k :: 0 <= k < pixels.Length ==> pixels[k] == if j <= k < j + i then buffer[from + k - j] else old(pixels[k])
      {
        pixels[j + i] := buffer[from + i];
      }
    }

    /** The client's default for `GotBitmap`. */
    method CopyRectangle(buffer: seq<Pixel>, b: Box, bpp: nat)
      requires Valid() && |buffer| == b.w * b.h
      modifies pixels
      ensures pixels[..] == if Supported(bpp) then Blit(old(pixels[..]), width, height, b, buffer) else old(pixels[..])
    {
      hide Copied, Blit, Times;
      CopyStart(pixels[..], width, height, b, buffer);
      if !CheckRect(b, width, height) || !Supported(bpp) {
        return;
      }
      var j, from: nat := b.x + b.y * width, 0;
      ghost var y := b.y;
      while j < (b.y + b.h) * width
        invariant b.y <= y <= b.y + b.h && j == Times(y, width) + b.x && from == Times(y - b.y, b.w)
        invariant Copied(old(pixels[..]), width, height, b, buffer, y, pixels[..])
      {
        NextRow(b, width, height, y);
        ghost var was := pixels[..];
        CopyPixels(j, buffer, from, b.w);
        CopyRow(old(pixels[..]), width, height, b, y, buffer, was, pixels[..]);
        j, from := j + width, from + b.w;
        y := y + 1;
      }
      NextRow(b, width, height, y);
      CopyEnd(old(pixels[..]), width, height, b, buffer, y, pixels[..]);
    }
  }

  /** A row index below another one begins where the row still fits. */
  lemma Ordered(width: nat, y: nat, end: nat, height: nat)
    requires width > 0 && y <= end <= height
    ensures y * width < end * width <==> y < end
    ensures y < end ==> (y + 1) * width == y * width + width <= height * width
  {
    Scale(width, y + 1, end);
    Scale(width, y + 1, height);
  }

  lemma FillNone(c: seq<Pixel>, width: nat, height: nat, b: Box, colour: Pixel)
    requires width > 0
    ensures !CheckRect(b, width, height) ==> Fill(c, width, height, b, colour) == c
    ensures Fill(c, width, height, b.(h := 0), colour) == c
  {
  }

  lemma FillRow(c: seq<Pixel>, width: nat, height: nat, b: Box, y: nat, row: nat, colour: Pixel, was: seq<Pixel>, now: seq<Pixel>)
    requires width > 0 && |c| == |now| && CheckRect(b, width, height) && b.y <= y < b.y + b.h && row == Times(y, width)
    requires was == Fill(c, width, height, b.(h := y - b.y), colour)
    requires forall k :: 0 <= k < |c| ==> now[k] == if row + b.x <= k < row + b.x + b.w then colour else was[k]
    ensures now == Fill(c, width, height, b.(h := y + 1 - b.y), colour)
  {
    hide Times;
    TimesIs(y, width);
    forall k | 0 <= k < |c|
      ensures now[k] == Fill(c, width, height, b.(h := y + 1 - b.y), colour)[k]
    {
      InRow(width, height, y, b.x, b.w, k);
    }
  }

  /** The state when the rows of a picture that lie above `y` have been copied. */
  ghost predicate Copied(c: seq<Pixel>, width: nat, height: nat, b: Box, pixels: seq<Pixel>, y: nat, now: seq<Pixel>)
    requires width > 0 && |pixels| == b.w * b.h
  {
    && |now| == |c|
    && forall k :: 0 <= k < |c| ==> now[k] == if Row(width, k) < y then Blit(c, width, height, b, pixels)[k] else c[k]
  }

  lemma NextRow(b: Box, width: nat, height: nat, y: nat)
    requires width > 0 && CheckRect(b, width, height) && b.y <= y <= b.y + b.h
    ensures Times(y, width) + b.x < (b.y + b.h) * width ==> y < b.y + b.h
    ensures Times(y, width) + b.x >= (b.y + b.h) * width ==> y == b.y + b.h || b.w == 0
    ensures y < b.y + b.h ==>
        && Times(y + 1, width) == Times(y, width) + width <= height * width
        && Times(y + 1 - b.y, b.w) == Times(y - b.y, b.w) + b.w <= b.w * b.h
  {
    Ordered(width, y, b.y + b.h, height);
    Scale(b.w, y - b.y + 1, b.h);
    assert (y - b.y + 1) * b.w == (y - b.y) * b.w + b.w;
  }

  lemma CopyStart(c: seq<Pixel>, width: nat, height: nat, b: Box, pixels: seq<Pixel>)
    requires width > 0 && |pixels| == b.w * b.h
    ensures Copied(c, width, height, b, pixels, b.y, c)
    ensures !CheckRect(b, width, height) ==> c == Blit(c, width, height, b, pixels)
    ensures Times(b.y, width) == b.y * width && Times(0, b.w) == 0
  {
  }

  lemma CopyEnd(c: seq<Pixel>, width: nat, height: nat, b: Box, pixels: seq<Pixel>, y: nat, now: seq<Pixel>)
    requires width > 0 && |pixels| == b.w * b.h && (b.y + b.h <= y || b.w == 0) && Copied(c, width, height, b, pixels, y, now)
    ensures now == Blit(c, width, height, b, pixels)
  {
  }

  lemma CopyRow(c: seq<Pixel>, width: nat, height: nat, b: Box, y: nat, pixels: seq<Pixel>, was: seq<Pixel>, now: seq<Pixel>)
    requires width > 0 && |c| == height * width == |now| && CheckRect(b, width, height) && b.y <= y < b.y + b.h
    requires |pixels| == b.w * b.h && Times(y - b.y, b.w) + b.w <= |pixels|
    requires Copied(c, width, height, b, pixels, y, was)
    requires forall k :: 0 <= k < |c| ==>
               now[k] == if Times(y, width) + b.x <= k < Times(y, width) + b.x + b.w then pixels[Times(y - b.y, b.w) + k - (Times(y, width) + b.x)]
                         else was[k]
    ensures Copied(c, width, height, b, pixels, y + 1, now)
  {
    forall k | 0 <= k < |c|
      ensures now[k] == if Row(width, k) < y + 1 then Blit(c, width, height, b, pixels)[k] else c[k]
    {
      InRow(width, height, y, b.x, b.w, k);
      RowCol(width, height, k);
    }
  }

  lemma InRow(width: nat, height: nat, y: nat, x: nat, w: nat, k: nat)
    requires width > 0 && x + w <= width
    ensures y * width + x <= k < y * width + x + w <==> Row(width, k) == y && x <= Col(width, k) < x + w
  {
    RowCol(width, height, k);
    if y * width + x <= k < y * width + x + w {
      At(width, y, k - y * width);
    }
  }
}
