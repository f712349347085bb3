/** `zywrleAnalyze` and `zywrleSynthesize`, and what they make of a tile. */
module ZywrleCodec {
  import opened Grid
  import opened ZywrleHarr
  import opened ZywrleFilter
  import opened ZywrleTransform
  import opened ZywrleColour
  import opened ZywrleTransfer
  import opened ZywrleWalk
  import opened ZywrleTile

  // ---------- The remaining loops ----------

  /** The inner loop that all row-by-row copies share: `cx` consecutive pixels and cells. */
  method MoveRow(dir: Direction, m: Mode, d: Depth, pBuf: array<Cell>, top: nat, data: array<Pixel>, start: nat, cx: nat,
                 ghost b0: seq<Cell>, ghost cs: seq<nat>, ghost t0: seq<Pixel>, ghost ps: seq<nat>, ghost k0: nat)
    requires k0 + cx <= |cs| == |ps| && cs[k0..k0 + cx] == Iota(top, cx) && ps[k0..k0 + cx] == Iota(start, cx)
    requires Moved(dir, m, d, b0, cs, t0, ps, k0, pBuf[..], data[..])
    modifies pBuf, data
    ensures Moved(dir, m, d, b0, cs, t0, ps, k0 + cx, pBuf[..], data[..])
  {
    hide Moved;
    var pTop, pData := top, start;
    var pLine := pData + cx;
    ghost var x: nat := 0;
    while pData < pLine
      invariant x <= cx && pTop == top + x && pData == start + x
      invariant Moved(dir, m, d, b0, cs, t0, ps, k0 + x, pBuf[..], data[..])
    {
      assert cs[k0 + x] == cs[k0..k0 + cx][x] && ps[k0 + x] == ps[k0..k0 + cx][x];
      Move(dir, m, d, pBuf, pTop, data, pData, b0, cs, t0, ps, k0 + x);
      pData, pTop, x := pData + 1, pTop + 1, x + 1;
    }
  }

  /** `zywrleRGBYUV` and `zywrleYUVRGB`: between the first `height * width` cells and the aligned part of the tile. */
  method ConvertTile(dir: Direction, d: Depth, pBuf: array<Cell>, data: array<Pixel>, width: nat, height: nat, scanline: nat)
    requires 0 < width <= scanline
    requires Plan(d, pBuf[..], Iota(0, height * width), data[..], RectSpots(scanline, 0, 0, height, width))
    modifies pBuf, data
    ensures Moved(dir, Converted, d, old(pBuf[..]), Iota(0, height * width),
                  old(data[..]), RectSpots(scanline, 0, 0, height, width), height * width, pBuf[..], data[..])
  {
    hide Moved, Plan, RectSpots;
    ghost var (b0, t0) := (pBuf[..], data[..]);
    ghost var (cs, ps) := (Iota(0, height * width), RectSpots(scanline, 0, 0, height, width));
    MovedStart(dir, Converted, d, b0, cs, t0, ps);
    var p, dp := 0, 0;
    var pEnd := height * width;
    ghost var y: nat := 0;
    while p < pEnd
      invariant y <= height && p == y * width && dp == y * scanline
      invariant Moved(dir, Converted, d, b0, cs, t0, ps, p, pBuf[..], data[..])
      decreases pEnd - p
    {
      assert y < height by { Scale(width, height, y); }
      RectRow(scanline, 0, 0, height, width, y);
      MoveRow(dir, Converted, d, pBuf, p, data, dp, width, b0, cs, t0, ps, p);
      p, dp := p + width, dp + width;
      dp := dp + scanline - width;
      NextLine(scanline, y);
      y := y + 1;
    }
    assert y == height by { Scale(width, y + 1, height); }
  }

  lemma NextLine(width: nat, y: nat)
    ensures (y + 1) * width == y * width + width
  {
  }

  /** One block of `ZYWRLE_LOAD_UNALIGN`: `cy` rows of `cx` pixels from `start` on, from place `k0` of the border on. */
  method MoveStrip(dir: Direction, d: Depth, pBuf: array<Cell>, data: array<Pixel>, start: nat, cy: nat, cx: nat,
                   scanline: nat, top: nat, ghost y0: nat, ghost x0: nat,
                   ghost b0: seq<Cell>, ghost cs: seq<nat>, ghost t0: seq<Pixel>, ghost ps: seq<nat>, ghost k0: nat)
    returns (pTop: nat, pData: nat)
    requires 0 < cx <= scanline && start == y0 * scanline + x0
    requires k0 + cy * cx <= |cs| == |ps| && ps[k0..k0 + cy * cx] == RectSpots(scanline, y0, x0, cy, cx)
    requires cs[k0..k0 + cy * cx] == Iota(top, cy * cx)
    requires Moved(dir, Whole, d, b0, cs, t0, ps, k0, pBuf[..], data[..])
    modifies pBuf, data
    ensures Moved(dir, Whole, d, b0, cs, t0, ps, k0 + cy * cx, pBuf[..], data[..])
    ensures pTop == top + cy * cx && pData == start + cy * scanline
  {
    hide Moved, RectSpots, Times, Iota;
    pTop, pData := top, start;
    var pEnd := pData + cy * scanline;
    TimesIs(cy, scanline);
    TimesIs(cy, cx);
    TimesIs(0, scanline);
    TimesIs(0, cx);
    ghost var y: nat := 0;
    while pData < pEnd
      invariant y <= cy && pData == start + Times(y, scanline) && pTop == top + Times(y, cx)
      invariant Moved(dir, Whole, d, b0, cs, t0, ps, k0 + Times(y, cx), pBuf[..], data[..])
      decreases pEnd - pData
    {
      TimesOrdered(y, cy, scanline);
      StripRow(cs, ps, k0, top, scanline, y0, x0, cy, cx, y);
      MoveRow(dir, Whole, d, pBuf, pTop, data, pData, cx, b0, cs, t0, ps, k0 + Times(y, cx));
      pData, pTop := pData + cx, pTop + cx;
      pData := pData + scanline - cx;
      TimesIs(y, scanline);
      y := y + 1;
    }
    TimesOrdered(y, cy, scanline);
  }

  lemma StripRow(cs: seq<nat>, ps: seq<nat>, k0: nat, top: nat, stride: nat, y0: nat, x0: nat, cy: nat, cx: nat, y: nat)
    requires cx > 0 && y < cy
    requires k0 + cy * cx <= |cs| == |ps| && ps[k0..k0 + cy * cx] == RectSpots(stride, y0, x0, cy, cx)
    requires cs[k0..k0 + cy * cx] == Iota(top, cy * cx)
    ensures Times(y + 1, cx) == Times(y, cx) + cx && k0 + Times(y, cx) + cx <= k0 + cy * cx
    ensures ps[k0 + Times(y, cx)..k0 + Times(y, cx) + cx] == Iota(y0 * stride + x0 + Times(y, stride), cx)
    ensures cs[k0 + Times(y, cx)..k0 + Times(y, cx) + cx] == Iota(top + Times(y, cx), cx)
  {
    hide RectSpots;
    RectRow(stride, y0, x0, cy, cx, y);
    var (a, b) := (y * cx, (y + 1) * cx);
    SliceOfSlice(ps, k0, cy * cx, a, b);
    SliceOfSlice(cs, k0, cy * cx, a, b);
    assert Iota(top, cy * cx)[a..b] == Iota(top + a, cx);
    assert (y0 + y) * stride == y0 * stride + y * stride;
  }

  /** `ZYWRLE_LOAD_UNALIGN`, in either direction.  Returns the value that it leaves in `pData`. */
  method MoveBorder(dir: Direction, f: Frame, pBuf: array<Cell>, data: array<Pixel>, scanline: nat, pData: nat)
    returns (pData': nat)
    requires f.Valid() && f.In(scanline, data[..]) && f.Pixels() <= pBuf.Length
    modifies pBuf, data
    ensures Moved(dir, Whole, f.d, old(pBuf[..]), f.Spare(), old(data[..]), f.Border(scanline), |f.Spare()|, pBuf[..], data[..])
    ensures if f.uw == 0 && f.uh == 0 then pData' == pData else pData' >= f.Pixels()
  {
    hide Moved, RectSpots, Plan, Iota;
    BorderPlan(f, scanline, pBuf[..], data[..]);
    BorderBlocks(f, scanline);
    MovedStart(dir, Whole, f.d, pBuf[..], f.Spare(), data[..], f.Border(scanline));
    pData' := MoveBlocks(dir, f.d, f.w, f.h, f.uw, f.uh, pBuf, data, scanline, pData,
                         pBuf[..], f.Spare(), data[..], f.Border(scanline));
    PixelsBelow(f, scanline);
  }

  lemma PixelsBelow(f: Frame, scanline: nat)
    requires f.w + f.uw <= scanline
    ensures (f.h + f.uh) * scanline >= f.Pixels()
  {
    Scale(f.h + f.uh, f.w + f.uw, scanline);
  }

  /** The three blocks, each under its guard. */
  method MoveBlocks(dir: Direction, d: Depth, w: nat, h: nat, uw: nat, uh: nat,
                    pBuf: array<Cell>, data: array<Pixel>, scanline: nat, pData: nat,
                    ghost b0: seq<Cell>, ghost cs: seq<nat>, ghost t0: seq<Pixel>, ghost ps: seq<nat>)
    returns (pData': nat)
    requires 0 < w && w + uw <= scanline
    requires Blocks(w, h, uw, uh, scanline, cs, ps)
    requires Moved(dir, Whole, d, b0, cs, t0, ps, 0, pBuf[..], data[..])
    modifies pBuf, data
    ensures Moved(dir, Whole, d, b0, cs, t0, ps, |cs|, pBuf[..], data[..])
    ensures if uw == 0 && uh == 0 then pData' == pData else pData' >= (h + uh) * scanline
  {
    hide Moved, RectSpots, Iota;
    pData' := pData;
    var pTop := h * w;
    ghost var a := h * uw;
    ghost var b := a + uh * w;
    NoArea(h, uh, w, uw);
    assert (h + uh) * scanline == h * scanline + uh * scanline;
    if uw > 0 {
      pTop, pData' := MoveStrip(dir, d, pBuf, data, w, h, uw, scanline, pTop, 0, w, b0, cs, t0, ps, 0);
    }
    if uh > 0 {
      pTop, pData' := MoveStrip(dir, d, pBuf, data, h * scanline, uh, w, scanline, pTop, h, 0, b0, cs, t0, ps, a);
    }
    if uw > 0 && uh > 0 {
      pTop, pData' := MoveStrip(dir, d, pBuf, data, w + h * scanline, uh, uw, scanline, pTop, h, w, b0, cs, t0, ps, b);
    }
  }

  lemma NoArea(h: nat, uh: nat, w: nat, uw: nat)
    ensures uw == 0 ==> h * uw == 0 && uh * uw == 0
    ensures uh == 0 ==> uh * w == 0 && uh * uw == 0
  {
  }

  /** The border list and the spare cells fall into the three blocks. */
  ghost predicate Blocks(w: nat, h: nat, uw: nat, uh: nat, stride: nat, cs: seq<nat>, ps: seq<nat>) {
    var (n, a, b) := (h * w, h * uw, h * uw + uh * w);
    && |cs| == |ps| == b + uh * uw
    && ps[0..0 + a] == RectSpots(stride, 0, w, h, uw) && cs[0..0 + a] == Iota(n, a)
    && ps[a..a + uh * w] == RectSpots(stride, h, 0, uh, w) && cs[a..a + uh * w] == Iota(n + a, uh * w)
    && ps[b..b + uh * uw] == RectSpots(stride, h, w, uh, uw) && cs[b..b + uh * uw] == Iota(n + b, uh * uw)
  }

  lemma BorderBlocks(f: Frame, stride: nat)
    ensures Blocks(f.w, f.h, f.uw, f.uh, stride, f.Spare(), f.Border(stride))
  {
    hide RectSpots;
    Area(f.h, f.uh, f.w, f.uw);
    BorderParts(f, stride);
    var (ps, a, b) := (f.Border(stride), f.h * f.uw, f.h * f.uw + f.uh * f.w);
    assert ps[0..0 + a] == ps[..a] && ps[b..b + f.uh * f.uw] == ps[b..];
  }

  /** `ZYWRLE_SAVE_UNALIGN`, in either direction: the cells from `first` to `n`, at the end of a stream of `n` pixels. */
  method MoveSpare(dir: Direction, d: Depth, pBuf: array<Cell>, data: array<Pixel>, ptr: nat, pData: nat,
                   first: nat, total: nat, rows: nat, scanline: nat, ghost stride: nat)
    returns (ptr': nat)
    requires 0 < total <= scanline && first <= rows * total
    requires Plan(d, pBuf[..], Iota(first, rows * total - first),
                  data[..], RectSpots(stride, 0, 0, rows, total)[first..])
    requires PointsAt(stride, scanline, total, rows * total, first, ptr, pData)
    modifies pBuf, data
    ensures Moved(dir, Whole, d, old(pBuf[..]), Iota(first, rows * total - first),
                  old(data[..]), RectSpots(stride, 0, 0, rows, total)[first..], rows * total - first, pBuf[..], data[..])
    ensures ptr' == rows * stride
  {
    hide Moved, RectSpots, PointsAt, Plan, IncPtr;
    var n := rows * total;
    ghost var (b0, t0) := (pBuf[..], data[..]);
    ghost var (cs, ps) := (Iota(first, n - first), RectSpots(stride, 0, 0, rows, total)[first..]);
    MovedStart(dir, Whole, d, b0, cs, t0, ps);
    var pTop, pd := first, pData;
    ptr' := ptr;
    while pTop < n
      invariant first <= pTop <= n
      invariant PointsAt(stride, scanline, total, n, pTop, ptr', pd)
      invariant Moved(dir, Whole, d, b0, cs, t0, ps, pTop - first, pBuf[..], data[..])
    {
      PointsAtSpot(stride, scanline, total, rows, pTop, ptr', pd);
      Move(dir, Whole, d, pBuf, pTop, data, ptr', b0, cs, t0, ps, pTop - first);
      PointsAtNext(stride, scanline, total, n, pTop, ptr', pd);
      ptr', pd := IncPtr(ptr', pd, total, scanline).0, IncPtr(ptr', pd, total, scanline).1;
      pTop := pTop + 1;
    }
    PointsAtEnd(stride, scanline, total, rows, ptr', pd);
  }

  lemma PointsAtEnd(stride: nat, scanline: nat, total: nat, rows: nat, data: nat, pData: nat)
    requires total > 0 && PointsAt(stride, scanline, total, rows * total, rows * total, data, pData)
    ensures data == rows * stride
  {
    At(total, rows, 0);
  }

  /** The sub-bands 3, 2, 1 of level `l`, and 0 if it is the last. */
  method MoveLevel(dir: Direction, d: Depth, pBuf: array<Cell>, data: array<Pixel>, ptr: nat, pData: nat,
                   w: nat, h: nat, level: nat, l: nat, total: nat, scanline: nat, ghost stride: nat, ghost rows: nat,
                   ghost b0: seq<Cell>, ghost cs: seq<nat>, ghost t0: seq<Pixel>, ghost ps: seq<nat>, ghost k: nat)
    returns (ptr': nat, pData': nat, ghost k': nat)
    requires 0 < total <= scanline && l < level && Splits(w, h, Pow2(l))
    requires k <= |cs| <= rows * total && ps == RectSpots(stride, 0, 0, rows, total)[..|cs|]
    requires cs[k..] == Walk(w, h, level, l)
    requires Moved(dir, Coefficient, d, b0, cs, t0, ps, k, pBuf[..], data[..])
    requires PointsAt(stride, scanline, total, rows * total, k, ptr, pData)
    modifies pBuf, data
    ensures k' <= |cs| && if l + 1 < level then cs[k'..] == Walk(w, h, level, l + 1) else k' == |cs|
    ensures Moved(dir, Coefficient, d, b0, cs, t0, ps, k', pBuf[..], data[..])
    ensures PointsAt(stride, scanline, total, rows * total, k', ptr', pData')
  {
    hide Moved, RectSpots, PointsAt, BandList, Splits, Pow2, Walk;
    SplitsPositive(w, h, Pow2(l));
    WalkParts(cs, k, w, h, level, l);
    ptr', pData' := TransferCoeff(dir, d, pBuf, data, ptr, pData, 3, w, h, total, scanline, l, stride, rows, b0, cs, t0, ps, k);
    k' := k + |BandList(w, h, Pow2(l), 3)|;
    ptr', pData' := TransferCoeff(dir, d, pBuf, data, ptr', pData', 2, w, h, total, scanline, l, stride, rows, b0, cs, t0, ps, k');
    k' := k' + |BandList(w, h, Pow2(l), 2)|;
    ptr', pData' := TransferCoeff(dir, d, pBuf, data, ptr', pData', 1, w, h, total, scanline, l, stride, rows, b0, cs, t0, ps, k');
    k' := k' + |BandList(w, h, Pow2(l), 1)|;
    if l == level - 1 {
      assert cs[k'..k' + |BandList(w, h, Pow2(l), 0)|] == cs[k'..];
      ptr', pData' := TransferCoeff(dir, d, pBuf, data, ptr', pData', 0, w, h, total, scanline, l, stride, rows, b0, cs, t0, ps, k');
      k' := k' + |BandList(w, h, Pow2(l), 0)|;
    }
  }

  /** The loop over levels of `zywrleAnalyze` and `zywrleSynthesize`. */
  method MoveWalk(dir: Direction, d: Depth, pBuf: array<Cell>, data: array<Pixel>, pData: nat,
                  w: nat, h: nat, level: nat, total: nat, rows: nat, scanline: nat, ghost stride: nat)
    returns (ptr: nat, pData': nat)
    requires 0 < total <= scanline && Aligned(w, h, level) && |Walk(w, h, level, 0)| <= rows * total
    requires Plan(d, pBuf[..], Walk(w, h, level, 0),
                  data[..], RectSpots(stride, 0, 0, rows, total)[..|Walk(w, h, level, 0)|])
    requires PointsAt(stride, scanline, total, rows * total, 0, 0, pData)
    modifies pBuf, data
    ensures var cs := Walk(w, h, level, 0);
            && Moved(dir, Coefficient, d, old(pBuf[..]), cs, old(data[..]), RectSpots(stride, 0, 0, rows, total)[..|cs|], |cs|,
                     pBuf[..], data[..])
            && PointsAt(stride, scanline, total, rows * total, |cs|, ptr, pData')
  {
    hide Moved, RectSpots, PointsAt, Plan, Splits, Pow2, Walk;
    ghost var (b0, t0, cs) := (pBuf[..], data[..], Walk(w, h, level, 0));
    ghost var ps := RectSpots(stride, 0, 0, rows, total)[..|cs|];
    MovedStart(dir, Coefficient, d, b0, cs, t0, ps);
    ptr, pData' := 0, pData;
    ghost var k: nat := 0;
    for l := 0 to level
      invariant k <= |cs| && if l < level then cs[k..] == Walk(w, h, level, l) else k == |cs|
      invariant Moved(dir, Coefficient, d, b0, cs, t0, ps, k, pBuf[..], data[..])
      invariant PointsAt(stride, scanline, total, rows * total, k, ptr, pData')
    {
      LevelSplits(w, h, level, l);
      ptr, pData', k := MoveLevel(dir, d, pBuf, data, ptr, pData', w, h, level, l, total, scanline, stride, rows,
                                  b0, cs, t0, ps, k);
    }
  }

  /** Where the sub-bands of level `l` lie in a list whose rest is the walk from that level on. */
  lemma WalkParts(cs: seq<nat>, k: nat, w: nat, h: nat, level: nat, l: nat)
    requires k <= |cs| && cs[k..] == Walk(w, h, level, l)
    ensures var (s3, s2, s1) := (BandList(w, h, Pow2(l), 3), BandList(w, h, Pow2(l), 2), BandList(w, h, Pow2(l), 1));
            && k + |s3| + |s2| + |s1| <= |cs|
            && cs[k..k + |s3|] == s3
            && cs[k + |s3|..k + |s3| + |s2|] == s2
            && cs[k + |s3| + |s2|..k + |s3| + |s2| + |s1|] == s1
            && cs[k + |s3| + |s2| + |s1|..] ==
               if l + 1 < level then Walk(w, h, level, l + 1) else BandList(w, h, Pow2(l), 0)
  {
    hide BandList;
    FourParts(cs, k, BandList(w, h, Pow2(l), 3), BandList(w, h, Pow2(l), 2), BandList(w, h, Pow2(l), 1),
              if l + 1 < level then Walk(w, h, level, l + 1) else BandList(w, h, Pow2(l), 0));
  }

  lemma FourParts(cs: seq<nat>, k: nat, s3: seq<nat>, s2: seq<nat>, s1: seq<nat>, rest: seq<nat>)
    requires k <= |cs| && cs[k..] == s3 + s2 + s1 + rest
    ensures k + |s3| + |s2| + |s1| <= |cs|
    ensures cs[k..k + |s3|] == s3
    ensures cs[k + |s3|..k + |s3| + |s2|] == s2
    ensures cs[k + |s3| + |s2|..k + |s3| + |s2| + |s1|] == s1
    ensures cs[k + |s3| + |s2| + |s1|..] == rest
  {
    var all := cs[k..];
    assert cs == cs[..k] + all;
  }

  // ---------- The codec ----------

  /** The row length with which the packed tile is written: `INC_PTR` ends rows only if the tile has no border,
      because `ZYWRLE_LOAD_UNALIGN` has moved `pData` away. */
  function OutStride(f: Frame, scanline: nat): nat {
    if f.uw == 0 && f.uh == 0 then scanline else f.Width()
  }

  lemma OutStrideIn(f: Frame, scanline: nat, t: seq<Pixel>)
    requires f.Valid() && f.In(scanline, t)
    ensures f.In(OutStride(f, scanline), t)
  {
    Scale(f.Height() - 1, f.Width(), scanline);
  }

  /** The work buffer of the encoder once the border has been saved and the transform has run. */
  ghost function Loaded(q: Quantiser, f: Frame, scanline: nat, b: seq<Cell>, t: seq<Pixel>): (c: seq<Cell>)
    requires f.Valid() && f.In(scanline, t) && f.Pixels() <= |b|
    ensures |c| == |b|
  {
    Forward(q, Unpacked(f, scanline, b, t), f.w, f.h, f.level, 0)
  }

  ghost function Unpacked(f: Frame, scanline: nat, b: seq<Cell>, t: seq<Pixel>): (c: seq<Cell>)
    requires f.Valid() && f.In(scanline, t) && f.Pixels() <= |b|
    ensures |c| == |b|
  {
    BorderPlan(f, scanline, b, t);
    var b1 := Gather(Whole, f.d, b, f.Spare(), t, f.Border(scanline), f.Pixels() - f.Cells());
    InnerPlan(f, scanline, b1, t);
    Gather(Converted, f.d, b1, Iota(0, f.Cells()), t, f.Inner(scanline), f.Cells())
  }

  /** The tile after `zywrleAnalyze`. */
  ghost function Analyzed(q: Quantiser, f: Frame, scanline: nat, b: seq<Cell>, t: seq<Pixel>): (u: seq<Pixel>)
    requires f.Valid() && f.In(scanline, t) && f.Pixels() <= |b|
    ensures |u| == |t| && AllOf(f.d, u)
  {
    Packed(f, scanline, Loaded(q, f, scanline, b, t), t)
  }

  /** The tile when the work buffer has been packed into it. */
  ghost function Packed(f: Frame, scanline: nat, c: seq<Cell>, t: seq<Pixel>): (u: seq<Pixel>)
    requires f.Valid() && f.In(scanline, t) && f.Pixels() <= |c|
    ensures |u| == |t| && AllOf(f.d, u)
  {
    var stride := OutStride(f, scanline);
    OutStrideIn(f, scanline, t);
    StreamPlans(f, stride, c, t);
    var t1 := Spread(Coefficient, f.d, c, Walk(f.w, f.h, f.level, 0), t, f.Stream(stride)[..f.Cells()], f.Cells());
    StreamPlans(f, stride, c, t1);
    Spread(Whole, f.d, c, f.Spare(), t1, f.Stream(stride)[f.Cells()..], f.Pixels() - f.Cells())
  }

  /** The work buffer of the decoder before and after the inverse transform. */
  ghost function Received(f: Frame, scanline: nat, b: seq<Cell>, t: seq<Pixel>): (c: seq<Cell>)
    requires f.Valid() && f.In(scanline, t) && f.Pixels() <= |b|
    ensures |c| == |b|
  {
    StreamPlans(f, scanline, b, t);
    var b1 := Gather(Coefficient, f.d, b, Walk(f.w, f.h, f.level, 0), t, f.Stream(scanline)[..f.Cells()], f.Cells());
    StreamPlans(f, scanline, b1, t);
    Gather(Whole, f.d, b1, f.Spare(), t, f.Stream(scanline)[f.Cells()..], f.Pixels() - f.Cells())
  }

  ghost function Decoded(f: Frame, scanline: nat, b: seq<Cell>, t: seq<Pixel>): (c: seq<Cell>)
    requires f.Valid() && f.In(scanline, t) && f.Pixels() <= |b|
    ensures |c| == |b|
  {
    Backward(Received(f, scanline, b, t), f.w, f.h, f.level, 0)
  }

  /** The tile after `zywrleSynthesize`. */
  ghost function Synthesized(f: Frame, scanline: nat, b: seq<Cell>, t: seq<Pixel>): (u: seq<Pixel>)
    requires f.Valid() && f.In(scanline, t) && f.Pixels() <= |b|
    ensures |u| == |t| && AllOf(f.d, u)
  {
    var c := Decoded(f, scanline, b, t);
    InnerPlan(f, scanline, c, t);
    var t1 := Spread(Converted, f.d, c, Iota(0, f.Cells()), t, f.Inner(scanline), f.Cells());
    BorderPlan(f, scanline, c, t1);
    Spread(Whole, f.d, c, f.Spare(), t1, f.Border(scanline), f.Pixels() - f.Cells())
  }

  /** The pointer that the codec returns, or `NULL`. */
  datatype Pointer = Null | Data(offset: nat)

  /** `zywrleCalcSize`: the part of the tile that is aligned to the grid of the last level. */
  function Framed(d: Depth, width: nat, height: nat, level: nat): (f: Frame)
    ensures f.Width() == width && f.Height() == height
    ensures 1 <= level <= 3 && f.w > 0 && f.h > 0 ==> f.Valid()
  {
    var (w, h) := (CalcSize(width, level), CalcSize(height, level));
    Frame(d, w, h, width - w, height - h, level)
  }

  function CalcSize(x: nat, level: nat): (a: nat)
    ensures a <= x && a % Pow2(level) == 0
  {
    DivModUnique(Pow2(level), Quotient(x, Pow2(level)), 0);
    QuotientBelow(Pow2(level), x);
    Pow2(level) * Quotient(x, Pow2(level))
  }

  /** `ZYWRLE_ANALYZE(data, data, width, height, scanline, level, pBuf)` */
  method Analyze(q: Quantiser, d: Depth, data: array<Pixel>, width: nat, height: nat, scanline: nat, level: nat,
                 pBuf: array<Cell>)
    returns (r: Pointer)
    requires 1 <= level <= 3 && Framed(d, width, height, level).In(scanline, data[..])
    requires width * height <= pBuf.Length
    modifies data, pBuf
    ensures var f := Framed(d, width, height, level);
            if f.w == 0 || f.h == 0 then r == Null && data[..] == old(data[..]) && pBuf[..] == old(pBuf[..])
            else
              && r == Data(f.Height() * OutStride(f, scanline))
              && data[..] == Analyzed(q, f, scanline, old(pBuf[..]), old(data[..]))
              && pBuf[..] == Loaded(q, f, scanline, old(pBuf[..]), old(data[..]))
  {
    hide Plan, PointsAt, Forward, RectSpots, Walk, Packed;
    var f := Framed(d, width, height, level);
    if f.w == 0 || f.h == 0 {
      return Null;
    }
    ghost var (b0, t0) := (pBuf[..], data[..]);
    OutStrideIn(f, scanline, t0);
    var pData := MoveBorder(ToBuffer, f, pBuf, data, scanline, 0);
    InnerPlan(f, scanline, pBuf[..], t0);
    ConvertTile(ToBuffer, d, pBuf, data, f.w, f.h, scanline);
    Wavelet(pBuf, f.w, f.h, level, q);
    PointsAtStart(f, scanline, pData);
    var ptr := PackTile(f, data, scanline, pData, pBuf);
    r := Data(ptr);
  }

  /** The packing: the coefficients in the order of the walk, and behind them the border. */
  method PackTile(f: Frame, data: array<Pixel>, scanline: nat, pData: nat, pBuf: array<Cell>) returns (ptr: nat)
    requires f.Valid() && f.In(scanline, data[..]) && f.Pixels() <= pBuf.Length
    requires PointsAt(OutStride(f, scanline), scanline, f.Width(), f.Pixels(), 0, 0, pData)
    modifies data, pBuf
    ensures data[..] == Packed(f, scanline, old(pBuf[..]), old(data[..])) && pBuf[..] == old(pBuf[..])
    ensures ptr == f.Height() * OutStride(f, scanline)
  {
    hide Plan, PointsAt, RectSpots, Walk;
    ghost var stride := OutStride(f, scanline);
    OutStrideIn(f, scanline, data[..]);
    StreamPlans(f, stride, pBuf[..], data[..]);
    WalkFits(f);
    var pd;
    ptr, pd := MoveWalk(ToTile, f.d, pBuf, data, pData, f.w, f.h, f.level, f.Width(), f.Height(), scanline, stride);
    StreamPlans(f, stride, pBuf[..], data[..]);
    ptr := MoveSpare(ToTile, f.d, pBuf, data, ptr, pd, f.Cells(), f.Width(), f.Height(), scanline, stride);
  }

  /** The value that `MoveBorder` leaves in `pData` sends `INC_PTR` along a stream with `OutStride` pixels to the row. */
  lemma PointsAtStart(f: Frame, scanline: nat, pData: nat)
    requires f.Valid()
    requires if f.uw == 0 && f.uh == 0 then pData == 0 else pData >= f.Pixels()
    ensures PointsAt(OutStride(f, scanline), scanline, f.Width(), f.Pixels(), 0, 0, pData)
  {
  }

  /** `ZYWRLE_SYNTHESIZE(data, data, width, height, scanline, level, pBuf)` */
  method Synthesize(d: Depth, data: array<Pixel>, width: nat, height: nat, scanline: nat, level: nat, pBuf: array<Cell>)
    returns (r: Pointer)
    requires 1 <= level <= 3 && Framed(d, width, height, level).In(scanline, data[..])
    requires width * height <= pBuf.Length
    modifies data, pBuf
    ensures var f := Framed(d, width, height, level);
            if f.w == 0 || f.h == 0 then r == Null && data[..] == old(data[..]) && pBuf[..] == old(pBuf[..])
            else
              && r == Data(f.Height() * scanline)
              && data[..] == Synthesized(f, scanline, old(pBuf[..]), old(data[..]))
              && pBuf[..] == Decoded(f, scanline, old(pBuf[..]), old(data[..]))
  {
    hide Plan, PointsAt, Backward, RectSpots, Walk;
    var f := Framed(d, width, height, level);
    if f.w == 0 || f.h == 0 {
      return Null;
    }
    ghost var t0 := data[..];
    StreamPlans(f, scanline, pBuf[..], t0);
    WalkFits(f);
    PointsAtRowStart(f, scanline);
    var ptr, pData := MoveWalk(ToBuffer, d, pBuf, data, 0, f.w, f.h, level, f.Width(), f.Height(), scanline, scanline);
    StreamPlans(f, scanline, pBuf[..], t0);
    ptr := MoveSpare(ToBuffer, d, pBuf, data, ptr, pData, f.Cells(), f.Width(), f.Height(), scanline, scanline);
    InvWavelet(pBuf, f.w, f.h, level);
    InnerPlan(f, scanline, pBuf[..], t0);
    ConvertTile(ToTile, d, pBuf, data, f.w, f.h, scanline);
    BorderPlan(f, scanline, pBuf[..], data[..]);
    pData := MoveBorder(ToTile, f, pBuf, data, scanline, 0);
    r := Data(ptr);
  }

  lemma PointsAtRowStart(f: Frame, scanline: nat)
    requires f.Valid()
    ensures PointsAt(scanline, scanline, f.Width(), f.Pixels(), 0, 0, 0)
  {
  }
}
