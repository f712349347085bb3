/** Pictures cut out of a screen and painted at their place on another. */
module Pictures {
  import opened Grid
  import opened Canvas
  import opened Subrects

  /** The framebuffer shows the rectangle of the screen, and is what it was elsewhere. */
  ghost predicate ShowsRect(now: seq<Pixel>, was: seq<Pixel>, screen: seq<Pixel>, rect: Box, width: nat)
    requires width > 0
  {
    && |now| == |was| == |screen|
    && forall k :: 0 <= k < |now| ==> now[k] == if Covers(rect, Col(width, k), Row(width, k)) then screen[k] else was[k]
  }

  lemma HitsMoved(s: Box, width: nat, height: nat, b: Box, k: nat)
    requires width > 0 && CheckRect(b, width, height) && CheckRect(s, b.w, b.h)
    ensures Covers(b, Col(width, k), Row(width, k)) ==>
              Within(b, width, k) >= 0
              && (Hits(Moved(s, b.x, b.y), width, height, k) <==> Hits(Moved(s, 0, 0), b.w, b.h, Within(b, width, k)))
    ensures !Covers(b, Col(width, k), Row(width, k)) ==> !Hits(Moved(s, b.x, b.y), width, height, k)
  {
    if Covers(b, Col(width, k), Row(width, k)) {
      WithinBounds(b, width, k);
      At(b.w, Row(width, k) - b.y, Col(width, k) - b.x);
    }
  }

  ghost predicate AllFit(subs: seq<Sub>, w: nat, h: nat) {
    forall i :: 0 <= i < |subs| ==> CheckRect(subs[i].box, w, h)
  }

  /** Subrectangles painted at a corner show what they show at the origin, and nothing outside. */
  lemma {:induction false} ShadeMoved(subs: seq<Sub>, width: nat, height: nat, b: Box, k: nat, under: Pixel)
    requires width > 0 && CheckRect(b, width, height) && AllFit(subs, b.w, b.h)
    ensures Covers(b, Col(width, k), Row(width, k)) ==>
              Within(b, width, k) >= 0
              && Shade(subs, width, height, b.x, b.y, k, under) == Shade(subs, b.w, b.h, 0, 0, Within(b, width, k), under)
    ensures !Covers(b, Col(width, k), Row(width, k)) ==> Shade(subs, width, height, b.x, b.y, k, under) == under
  {
    hide Within, Hits, Moved;
    if Covers(b, Col(width, k), Row(width, k)) {
      HitsMoved(Box(0, 0, 0, 0), width, height, b, k);
    }
    if subs != [] {
      HitsMoved(subs[|subs| - 1].box, width, height, b, k);
      ShadeMoved(subs[..|subs| - 1], width, height, b, k, under);
    }
  }

  /** The part of a picture that a rectangle cuts out. */
  function Part(screen: seq<Pixel>, width: nat, b: Box): (r: seq<Pixel>)
    requires b.w > 0
    ensures |r| == b.w * b.h
  {
    seq(b.w * b.h, k requires 0 <= k < b.w * b.h => Dot(screen, width, b.x + Col(b.w, k), b.y + Row(b.w, k)))
  }

  lemma PartAt(screen: seq<Pixel>, width: nat, height: nat, b: Box, k: nat)
    requires width > 0 && |screen| == height * width && k < |screen| && Covers(b, Col(width, k), Row(width, k))
    ensures 0 <= Within(b, width, k) < b.w * b.h && Part(screen, width, b)[Within(b, width, k)] == screen[k]
  {
    WithinBounds(b, width, k);
    At(b.w, Row(width, k) - b.y, Col(width, k) - b.x);
    DotAt(screen, width, height, k);
  }

  ghost predicate AllPixels(d: seq<Pixel>, bpp: nat) {
    forall k :: 0 <= k < |d| ==> |d[k]| == bpp
  }

  lemma PartPixels(screen: seq<Pixel>, width: nat, height: nat, b: Box, bpp: nat)
    requires b.w > 0 && CheckRect(b, width, height) && |screen| == height * width && AllPixels(screen, bpp)
    ensures AllPixels(Part(screen, width, b), bpp)
  {
    hide Dot;
    forall k | 0 <= k < b.w * b.h
      ensures |Part(screen, width, b)[k]| == bpp
    {
      RowCol(b.w, b.h, k);
      DotIn(screen, width, height, b.x + Col(b.w, k), b.y + Row(b.w, k), bpp);
    }
  }

  lemma DotIn(screen: seq<Pixel>, width: nat, height: nat, x: nat, y: nat, bpp: nat)
    requires x < width && y < height && |screen| == height * width && AllPixels(screen, bpp)
    ensures |Dot(screen, width, x, y)| == bpp
  {
    Ordered(width, y, height, height);
  }

  /** The pixels of a tile, translated for the client. */
  method Translate(screen: seq<Pixel>, width: nat, b: Box) returns (data: array<Pixel>)
    requires b.w > 0
    ensures fresh(data) && data[..] == Part(screen, width, b)
  {
    var part := Part(screen, width, b);
    data := new Pixel[|part|](k requires 0 <= k < |part| => part[k]);
  }

  /** Background and subrectangles that depict a part of the screen put just that part on the canvas. */
  lemma PaintShows(c: seq<Pixel>, subs: seq<Sub>, bg: Pixel, screen: seq<Pixel>, width: nat, height: nat, b: Box)
    requires width > 0 && b.w > 0 && CheckRect(b, width, height) && |screen| == height * width == |c| && AllFit(subs, b.w, b.h)
    requires forall k :: 0 <= k < b.w * b.h ==> Shade(subs, b.w, b.h, 0, 0, k, bg) == Part(screen, width, b)[k]
    ensures ShowsRect(Paint(Fill(c, width, height, b, bg), width, height, b.x, b.y, subs), c, screen, b, width)
  {
    hide Part, Shade, Within;
    var under := Fill(c, width, height, b, bg);
    forall k | 0 <= k < |screen|
      ensures Paint(under, width, height, b.x, b.y, subs)[k] == if Covers(b, Col(width, k), Row(width, k)) then screen[k] else c[k]
    {
      if Covers(b, Col(width, k), Row(width, k)) {
        PartAt(screen, width, height, b, k);
      }
      PaintShade(under, width, height, b.x, b.y, subs, k);
      ShadeMoved(subs, width, height, b, k, under[k]);
    }
  }
}
