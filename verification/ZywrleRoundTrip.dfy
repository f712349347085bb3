/** What a decoder recovers of the tile that an encoder has packed. */
module ZywrleRoundTrip {
  import opened Grid
  import opened ZywrleHarr
  import opened ZywrleFilter
  import opened ZywrleWavelet
  import opened ZywrleTransform
  import opened ZywrleColour
  import opened ZywrleNear
  import opened ZywrleTransfer
  import opened ZywrleWalk
  import opened ZywrleTile
  import opened ZywrleCodec

  // ---------- The transform looks at coefficients of the image only ----------

  predicate SameCell(p: Cell, q: Cell) {
    p.c0 == q.c0 && p.c1 == q.c1 && p.c2 == q.c2
  }

  ghost predicate Same(b: seq<Cell>, c: seq<Cell>, n: nat) {
    n <= |b| && n <= |c| && forall i | 0 <= i < n :: SameCell(b[i], c[i])
  }

  lemma PassSame(axis: Axis, b: seq<Cell>, c: seq<Cell>, w: nat, h: nat, g: nat)
    requires w > 0 && g > 0 && Same(b, c, h * w)
    ensures Same(Pass(axis, b, w, h, g), Pass(axis, c, w, h, g), h * w)
    ensures Pass(axis, b, w, h, g)[h * w..] == b[h * w..]
  {
    hide Step, IsFirst, IsSecond, Distance;
  }

  lemma FilterSame(q: Quantiser, b: seq<Cell>, c: seq<Cell>, w: nat, h: nat, level: nat, l: nat)
    requires w > 0 && Same(b, c, h * w)
    ensures Same(Filter(q, b, w, h, level, l), Filter(q, c, w, h, level, l), h * w)
    ensures Filter(q, b, w, h, level, l)[h * w..] == b[h * w..]
  {
    hide Quantise, Band;
  }

  lemma {:induction false} ForwardSame(q: Quantiser, b: seq<Cell>, c: seq<Cell>, w: nat, h: nat, level: nat, l: nat)
    requires w > 0 && l <= level && h * w <= |b| && h * w <= |c| && Same(b, c, h * w)
    ensures Same(Forward(q, b, w, h, level, l), Forward(q, c, w, h, level, l), h * w)
    ensures Forward(q, b, w, h, level, l)[h * w..] == b[h * w..]
    decreases level - l
  {
    hide Pass, Filter, Pow2, Same;
    if l < level {
      var g := Pow2(l);
      PassSame(Across, b, c, w, h, g);
      PassSame(Down, Pass(Across, b, w, h, g), Pass(Across, c, w, h, g), w, h, g);
      var (b', c') := (Level(b, w, h, l), Level(c, w, h, l));
      FilterSame(q, b', c', w, h, level, l);
      ForwardSame(q, Filter(q, b', w, h, level, l), Filter(q, c', w, h, level, l), w, h, level, l + 1);
    }
  }

  lemma {:induction false} BackwardSame(b: seq<Cell>, c: seq<Cell>, w: nat, h: nat, level: nat, l: nat)
    requires w > 0 && l <= level && h * w <= |b| && h * w <= |c| && Same(b, c, h * w)
    ensures Same(Backward(b, w, h, level, l), Backward(c, w, h, level, l), h * w)
    ensures Backward(b, w, h, level, l)[h * w..] == b[h * w..]
    decreases level - l
  {
    hide Pass, Pow2, Same;
    if l < level {
      var g := Pow2(l);
      BackwardSame(b, c, w, h, level, l + 1);
      var (b', c') := (Backward(b, w, h, level, l + 1), Backward(c, w, h, level, l + 1));
      PassSame(Down, b', c', w, h, g);
      PassSame(Across, Pass(Down, b', w, h, g), Pass(Down, c', w, h, g), w, h, g);
    }
  }

  // ---------- The encoder ----------

  /** The aligned part of the tile, converted to YUV. */
  ghost function Image(f: Frame, stride: nat, t: seq<Pixel>): (b: seq<Cell>)
    requires f.Valid() && f.In(stride, t)
    ensures |b| == f.Cells()
  {
    InnerBelow(f, stride, t);
    seq(f.Cells(), i requires 0 <= i < f.Cells() =>
      SaveCoeff(Cell(0, 0, 0, 0), RgbYuv(f.d, LoadPixel(f.d, t[f.Inner(stride)[i]]))))
  }

  lemma InnerBelow(f: Frame, stride: nat, t: seq<Pixel>)
    requires f.Valid() && f.In(stride, t)
    ensures Below(f.Inner(stride), |t|)
  {
    hide RectSpots;
    RectBelow(stride, 0, 0, f.h, f.w, f.Height(), f.Width());
  }

  lemma ImageFine(f: Frame, stride: nat, t: seq<Pixel>)
    requires f.Valid() && f.In(stride, t)
    ensures AllFine(Image(f, stride, t), f.Cells(), f.d.MaskY(), f.d.MaskUV())
  {
    hide RgbYuv, LoadPixel, RectSpots, SaveCoeff, Fine;
    InnerBelow(f, stride, t);
    forall i | 0 <= i < f.Cells() ensures Fine(Image(f, stride, t)[i], f.d.MaskY(), f.d.MaskUV()) {
      var p := t[f.Inner(stride)[i]];
      LoadPixelRange(f.d, p);
      RgbYuvFine(f.d, LoadPixel(f.d, p), Cell(0, 0, 0, 0));
    }
  }

  lemma IotaDistinct(start: nat, n: nat)
    ensures Distinct(Iota(start, n))
  {
  }

  lemma BorderBelow(f: Frame, stride: nat, t: seq<Pixel>)
    requires f.Valid() && f.In(stride, t)
    ensures Below(f.Border(stride), |t|)
  {
    hide RectSpots;
    BorderPlan(f, stride, seq(f.Pixels(), _ => Cell(0, 0, 0, 0)), t);
  }

  lemma StreamBelow(f: Frame, stride: nat, t: seq<Pixel>)
    requires f.Valid() && f.In(stride, t)
    ensures Below(f.Stream(stride), |t|) && Distinct(f.Stream(stride))
  {
    hide RectSpots;
    RectBelow(stride, 0, 0, f.Height(), f.Width(), f.Height(), f.Width());
    RectSpotsDistinct(stride, 0, 0, f.Height(), f.Width());
  }

  /** The encoder's buffer: the image, and behind it the border. */
  lemma UnpackedAt(f: Frame, stride: nat, b: seq<Cell>, t: seq<Pixel>)
    requires f.Valid() && f.In(stride, t) && f.Pixels() <= |b|
    ensures Same(Unpacked(f, stride, b, t), Image(f, stride, t), f.Cells())
    ensures Below(f.Border(stride), |t|)
    ensures forall j | 0 <= j < f.Pixels() - f.Cells() ::
              FetchPixel(f.d, Unpacked(f, stride, b, t)[f.Cells() + j]) == t[f.Border(stride)[j]]
  {
    hide RgbYuv, LoadPixel, RectSpots, FetchPixel, StorePixel, SignedChar;
    var (n, m) := (f.Cells(), f.Pixels() - f.Cells());
    BorderPlan(f, stride, b, t);
    BorderBelow(f, stride, t);
    var b1 := Gather(Whole, f.d, b, f.Spare(), t, f.Border(stride), m);
    InnerPlan(f, stride, b1, t);
    InnerBelow(f, stride, t);
    IotaDistinct(0, n);
    IotaDistinct(n, m);
    forall i | 0 <= i < n ensures SameCell(Unpacked(f, stride, b, t)[i], Image(f, stride, t)[i]) {
      GatherAt(Converted, f.d, b1, Iota(0, n), t, f.Inner(stride), n, i);
    }
    forall j | 0 <= j < m ensures FetchPixel(f.d, Unpacked(f, stride, b, t)[n + j]) == t[f.Border(stride)[j]] {
      GatherElsewhere(Converted, f.d, b1, Iota(0, n), t, f.Inner(stride), n, n + j);
      GatherAt(Whole, f.d, b, f.Spare(), t, f.Border(stride), m, j);
      FetchStored(f.d, b[n + j], t[f.Border(stride)[j]]);
    }
  }

  lemma LoadedAt(q: Quantiser, f: Frame, stride: nat, b: seq<Cell>, t: seq<Pixel>)
    requires f.Valid() && f.In(stride, t) && f.Pixels() <= |b|
    ensures Same(Loaded(q, f, stride, b, t), Forward(q, Image(f, stride, t), f.w, f.h, f.level, 0), f.Cells())
    ensures Below(f.Border(stride), |t|)
    ensures forall j | 0 <= j < f.Pixels() - f.Cells() ::
              FetchPixel(f.d, Loaded(q, f, stride, b, t)[f.Cells() + j]) == t[f.Border(stride)[j]]
  {
    hide Forward, Unpacked, Image, FetchPixel, RectSpots, Same;
    UnpackedAt(f, stride, b, t);
    var c := Unpacked(f, stride, b, t);
    ForwardSame(q, c, Image(f, stride, t), f.w, f.h, f.level, 0);
    var c' := Loaded(q, f, stride, b, t);
    assert c'[f.Cells()..] == c[f.Cells()..];
    forall i | f.Cells() <= i < f.Pixels() ensures c'[i] == c[i] {
      assert c'[i] == c'[f.Cells()..][i - f.Cells()] && c[i] == c[f.Cells()..][i - f.Cells()];
    }
  }

  /** The packed tile: slot `k` of the stream holds the coefficients of the `k`th cell of the walk, and the slots behind
      them the border. */
  lemma AnalyzedAt(q: Quantiser, f: Frame, scanline: nat, b: seq<Cell>, t: seq<Pixel>)
    requires f.Valid() && f.In(scanline, t) && f.Pixels() <= |b|
    ensures var s := f.Stream(OutStride(f, scanline));
            && Below(s, |t|) && |Walk(f.w, f.h, f.level, 0)| == f.Cells() && Below(Walk(f.w, f.h, f.level, 0), f.Cells())
            && Below(f.Border(scanline), |t|)
            && (forall k | 0 <= k < f.Cells() ::
                  Analyzed(q, f, scanline, b, t)[s[k]] ==
                  SavePixel(f.d, t[s[k]], LoadCoeff(Loaded(q, f, scanline, b, t)[Walk(f.w, f.h, f.level, 0)[k]])))
            && (forall j | 0 <= j < f.Pixels() - f.Cells() ::
                  Analyzed(q, f, scanline, b, t)[s[f.Cells() + j]] == t[f.Border(scanline)[j]])
  {
    hide Loaded, RectSpots, FetchPixel, Walk, SavePixel, LoadCoeff, Analyzed;
    OutStrideIn(f, scanline, t);
    StreamBelow(f, OutStride(f, scanline), t);
    WalkFits(f);
    LoadedAt(q, f, scanline, b, t);
    forall k | 0 <= k < f.Cells()
      ensures var s := f.Stream(OutStride(f, scanline));
              Analyzed(q, f, scanline, b, t)[s[k]] ==
              SavePixel(f.d, t[s[k]], LoadCoeff(Loaded(q, f, scanline, b, t)[Walk(f.w, f.h, f.level, 0)[k]]))
    {
      AnalyzedCoefficient(q, f, scanline, b, t, k);
    }
    forall j | 0 <= j < f.Pixels() - f.Cells()
      ensures Analyzed(q, f, scanline, b, t)[f.Stream(OutStride(f, scanline))[f.Cells() + j]] == t[f.Border(scanline)[j]]
    {
      AnalyzedSpare(q, f, scanline, b, t, j);
    }
  }

  lemma AnalyzedCoefficient(q: Quantiser, f: Frame, scanline: nat, b: seq<Cell>, t: seq<Pixel>, k: nat)
    requires f.Valid() && f.In(scanline, t) && f.Pixels() <= |b| && k < f.Cells()
    requires Below(f.Stream(OutStride(f, scanline)), |t|) && Distinct(f.Stream(OutStride(f, scanline)))
    requires |Walk(f.w, f.h, f.level, 0)| == f.Cells() && Below(Walk(f.w, f.h, f.level, 0), f.Cells())
    ensures var s := f.Stream(OutStride(f, scanline));
            Analyzed(q, f, scanline, b, t)[s[k]] ==
            SavePixel(f.d, t[s[k]], LoadCoeff(Loaded(q, f, scanline, b, t)[Walk(f.w, f.h, f.level, 0)[k]]))
  {
    hide Loaded, RectSpots, FetchPixel, Walk, SavePixel, LoadCoeff;
    var (n, m, stride) := (f.Cells(), f.Pixels() - f.Cells(), OutStride(f, scanline));
    var (c, cs, s) := (Loaded(q, f, scanline, b, t), Walk(f.w, f.h, f.level, 0), f.Stream(stride));
    OutStrideIn(f, scanline, t);
    StreamPlans(f, stride, c, t);
    var t1 := Spread(Coefficient, f.d, c, cs, t, s[..n], n);
    StreamPlans(f, stride, c, t1);
    assert s[k] !in s[n..][..m];
    SpreadElsewhere(Whole, f.d, c, f.Spare(), t1, s[n..], m, s[k]);
    SpreadAt(Coefficient, f.d, c, cs, t, s[..n], n, k);
  }

  lemma AnalyzedSpare(q: Quantiser, f: Frame, scanline: nat, b: seq<Cell>, t: seq<Pixel>, j: nat)
    requires f.Valid() && f.In(scanline, t) && f.Pixels() <= |b| && j < f.Pixels() - f.Cells()
    requires Below(f.Stream(OutStride(f, scanline)), |t|) && Distinct(f.Stream(OutStride(f, scanline)))
    requires |Walk(f.w, f.h, f.level, 0)| == f.Cells() && Below(f.Border(scanline), |t|)
    requires FetchPixel(f.d, Loaded(q, f, scanline, b, t)[f.Cells() + j]) == t[f.Border(scanline)[j]]
    ensures Analyzed(q, f, scanline, b, t)[f.Stream(OutStride(f, scanline))[f.Cells() + j]] == t[f.Border(scanline)[j]]
  {
    hide Loaded, RectSpots, FetchPixel, Walk, SavePixel, LoadCoeff;
    var (n, m, stride) := (f.Cells(), f.Pixels() - f.Cells(), OutStride(f, scanline));
    var (c, cs, s) := (Loaded(q, f, scanline, b, t), Walk(f.w, f.h, f.level, 0), f.Stream(stride));
    OutStrideIn(f, scanline, t);
    StreamPlans(f, stride, c, t);
    var t1 := Spread(Coefficient, f.d, c, cs, t, s[..n], n);
    StreamPlans(f, stride, c, t1);
    SpreadAt(Whole, f.d, c, f.Spare(), t1, s[n..], m, j);
  }

  // ---------- The decoder ----------

  /** Tile `u` holds, at `stride1` pixels to the row, the stream that tile `t` holds at `stride0` pixels to the row. */
  ghost predicate Transported(f: Frame, stride0: nat, t: seq<Pixel>, stride1: nat, u: seq<Pixel>) {
    && Below(f.Stream(stride0), |t|) && Below(f.Stream(stride1), |u|)
    && forall k | 0 <= k < f.Pixels() :: u[f.Stream(stride1)[k]] == t[f.Stream(stride0)[k]]
  }

  lemma FineForward(q: Quantiser, f: Frame, scanline: nat, b: seq<Cell>, t: seq<Pixel>, i: nat)
    requires f.Valid() && f.In(scanline, t) && f.Pixels() <= |b| && i < f.Cells()
    ensures Fine(Loaded(q, f, scanline, b, t)[i], f.d.MaskY(), f.d.MaskUV())
    ensures SameCell(Loaded(q, f, scanline, b, t)[i], Forward(q, Image(f, scanline, t), f.w, f.h, f.level, 0)[i])
  {
    hide Forward, Image, Loaded;
    ImageFine(f, scanline, t);
    ForwardKeeps(q, Image(f, scanline, t), f.w, f.h, f.level, 0, f.d.MaskY(), f.d.MaskUV());
    LoadedAt(q, f, scanline, b, t);
    assert Fine(Forward(q, Image(f, scanline, t), f.w, f.h, f.level, 0)[i], f.d.MaskY(), f.d.MaskUV());
  }

  /** The decoder receives the encoder's coefficients and border. */
  lemma ReceivedAt(q: Quantiser, f: Frame, stride0: nat, b: seq<Cell>, t: seq<Pixel>,
                   stride1: nat, c: seq<Cell>, u: seq<Pixel>)
    requires f.Valid() && f.In(stride0, t) && f.Pixels() <= |b|
    requires f.In(stride1, u) && f.Pixels() <= |c|
    requires Transported(f, OutStride(f, stride0), Analyzed(q, f, stride0, b, t), stride1, u)
    ensures Same(Received(f, stride1, c, u), Forward(q, Image(f, stride0, t), f.w, f.h, f.level, 0), f.Cells())
    ensures Below(f.Border(stride0), |t|)
    ensures forall j | 0 <= j < f.Pixels() - f.Cells() ::
              FetchPixel(f.d, Received(f, stride1, c, u)[f.Cells() + j]) == t[f.Border(stride0)[j]]
  {
    hide Forward, Image, Loaded, Analyzed, Walk, Slot, SavePixel, LoadCoeff, SaveCoeff, LoadPixel, FetchPixel, StorePixel;
    hide RectSpots, Fine;
    var (n, m) := (f.Cells(), f.Pixels() - f.Cells());
    var (cs, s0, s1) := (Walk(f.w, f.h, f.level, 0), f.Stream(OutStride(f, stride0)), f.Stream(stride1));
    AnalyzedAt(q, f, stride0, b, t);
    StreamPlans(f, stride1, c, u);
    WalkFits(f);
    var c1 := Gather(Coefficient, f.d, c, cs, u, s1[..n], n);
    StreamPlans(f, stride1, c1, u);
    IotaDistinct(n, m);
    var r := Received(f, stride1, c, u);
    forall i: nat | i < n ensures SameCell(r[i], Forward(q, Image(f, stride0, t), f.w, f.h, f.level, 0)[i]) {
      ReceivedCoefficient(q, f, stride0, b, t, stride1, c, u, i);
    }
    forall j | 0 <= j < m ensures FetchPixel(f.d, r[n + j]) == t[f.Border(stride0)[j]] {
      GatherAt(Whole, f.d, c1, f.Spare(), u, s1[n..], m, j);
      FetchStored(f.d, c1[n + j], t[f.Border(stride0)[j]]);
    }
  }

  lemma ReceivedCoefficient(q: Quantiser, f: Frame, stride0: nat, b: seq<Cell>, t: seq<Pixel>,
                            stride1: nat, c: seq<Cell>, u: seq<Pixel>, i: nat)
    requires f.Valid() && f.In(stride0, t) && f.Pixels() <= |b| && f.In(stride1, u) && f.Pixels() <= |c| && i < f.Cells()
    requires Transported(f, OutStride(f, stride0), Analyzed(q, f, stride0, b, t), stride1, u)
    ensures SameCell(Received(f, stride1, c, u)[i], Forward(q, Image(f, stride0, t), f.w, f.h, f.level, 0)[i])
  {
    hide Forward, Image, Loaded, Analyzed, Walk, Slot, SavePixel, LoadCoeff, SaveCoeff, LoadPixel, FetchPixel, StorePixel;
    hide RectSpots, Fine;
    var (n, m) := (f.Cells(), f.Pixels() - f.Cells());
    var (cs, s0, s1) := (Walk(f.w, f.h, f.level, 0), f.Stream(OutStride(f, stride0)), f.Stream(stride1));
    AnalyzedAt(q, f, stride0, b, t);
    StreamPlans(f, stride1, c, u);
    WalkFits(f);
    var c1 := Gather(Coefficient, f.d, c, cs, u, s1[..n], n);
    StreamPlans(f, stride1, c1, u);
    IotaDistinct(n, m);
    var k := Slot(f.w, f.h, f.level, 0, i);
    WholeGrid(f.w, i);
    WalkCovers(f.w, f.h, f.level, 0, i);
    GatherElsewhere(Whole, f.d, c1, f.Spare(), u, s1[n..], m, i);
    GatherAt(Coefficient, f.d, c, cs, u, s1[..n], n, k);
    FineForward(q, f, stride0, b, t, i);
    OutStrideIn(f, stride0, t);
    PackingLossless(f.d, t[s0[k]], Loaded(q, f, stride0, b, t)[i], c[i]);
  }

  lemma WholeGrid(w: nat, i: nat)
    requires w > 0
    ensures Band(w, Pow2(0), i) < 4
  {
  }

  lemma DecodedAt(q: Quantiser, f: Frame, stride0: nat, b: seq<Cell>, t: seq<Pixel>,
                  stride1: nat, c: seq<Cell>, u: seq<Pixel>)
    requires f.Valid() && f.In(stride0, t) && f.Pixels() <= |b|
    requires f.In(stride1, u) && f.Pixels() <= |c|
    requires Transported(f, OutStride(f, stride0), Analyzed(q, f, stride0, b, t), stride1, u)
    ensures Same(Decoded(f, stride1, c, u), Restored(q, f, stride0, t), f.Cells())
    ensures Below(f.Border(stride0), |t|)
    ensures forall j | 0 <= j < f.Pixels() - f.Cells() ::
              FetchPixel(f.d, Decoded(f, stride1, c, u)[f.Cells() + j]) == t[f.Border(stride0)[j]]
  {
    hide Forward, Backward, Image, Received, Analyzed, FetchPixel, RectSpots, Same;
    ReceivedAt(q, f, stride0, b, t, stride1, c, u);
    var r := Received(f, stride1, c, u);
    BackwardSame(r, Forward(q, Image(f, stride0, t), f.w, f.h, f.level, 0), f.w, f.h, f.level, 0);
    var r' := Decoded(f, stride1, c, u);
    assert r'[f.Cells()..] == r[f.Cells()..];
    forall i | f.Cells() <= i < f.Pixels() ensures r'[i] == r[i] {
      assert r'[i] == r'[f.Cells()..][i - f.Cells()] && r[i] == r[f.Cells()..][i - f.Cells()];
    }
  }

  /** The image that the coefficients stand for: the inverse transform of the quantised transform. */
  ghost function Restored(q: Quantiser, f: Frame, stride: nat, t: seq<Pixel>): (b: seq<Cell>)
    requires f.Valid() && f.In(stride, t)
    ensures |b| == f.Cells()
  {
    Backward(Forward(q, Image(f, stride, t), f.w, f.h, f.level, 0), f.w, f.h, f.level, 0)
  }

  /** The place of border pixel `(y, x)` in the border list, for every row length. */
  function BorderIndex(f: Frame, y: nat, x: nat): nat
    requires y < f.Height() && x < f.Width() && !(y < f.h && x < f.w)
  {
    if y < f.h then Times(y, f.uw) + (x - f.w)
    else if x < f.w then Times(f.h, f.uw) + Times(y - f.h, f.w) + x
    else Times(f.h, f.uw) + Times(f.uh, f.w) + Times(y - f.h, f.uw) + (x - f.w)
  }

  lemma BorderAt(f: Frame, stride: nat, y: nat, x: nat)
    requires y < f.Height() && x < f.Width() && !(y < f.h && x < f.w)
    ensures var j := BorderIndex(f, y, x); j < f.Pixels() - f.Cells() && f.Border(stride)[j] == y * stride + x
  {
    hide RectSpots;
    Area(f.h, f.uh, f.w, f.uw);
    if y < f.h {
      BorderRight(f, stride, y, x);
    } else if x < f.w {
      BorderBottom(f, stride, y, x);
    } else {
      BorderCorner(f, stride, y, x);
    }
  }

  lemma BorderRight(f: Frame, stride: nat, y: nat, x: nat)
    requires y < f.h && f.w <= x < f.Width()
    ensures var j := y * f.uw + (x - f.w);
            j < f.h * f.uw && 0 <= j < |f.Border(stride)| && f.Border(stride)[j] == y * stride + x
  {
    hide RectSpots;
    BorderParts(f, stride);
    RectSpotOf(stride, 0, f.w, f.h, f.uw, y, x - f.w);
    InSlice(f.Border(stride), 0, f.h * f.uw, y * f.uw + (x - f.w));
  }

  lemma BorderBottom(f: Frame, stride: nat, y: nat, x: nat)
    requires f.h <= y < f.Height() && x < f.w
    ensures var k := (y - f.h) * f.w + x;
            k < f.uh * f.w && 0 <= f.h * f.uw + k < |f.Border(stride)| && f.Border(stride)[f.h * f.uw + k] == y * stride + x
  {
    hide RectSpots;
    BorderParts(f, stride);
    RectSpotOf(stride, f.h, 0, f.uh, f.w, y - f.h, x);
    InSlice(f.Border(stride), f.h * f.uw, f.h * f.uw + f.uh * f.w, (y - f.h) * f.w + x);
  }

  lemma BorderCorner(f: Frame, stride: nat, y: nat, x: nat)
    requires f.h <= y < f.Height() && f.w <= x < f.Width()
    ensures var k := (y - f.h) * f.uw + (x - f.w);
            && k < f.uh * f.uw && 0 <= f.h * f.uw + f.uh * f.w + k < |f.Border(stride)|
            && f.Border(stride)[f.h * f.uw + f.uh * f.w + k] == y * stride + x
  {
    hide RectSpots;
    BorderParts(f, stride);
    RectSpotOf(stride, f.h, f.w, f.uh, f.uw, y - f.h, x - f.w);
    InSlice(f.Border(stride), f.h * f.uw + f.uh * f.w, |f.Border(stride)|, (y - f.h) * f.uw + (x - f.w));
  }

  lemma InSlice<T>(s: seq<T>, a: nat, b: nat, k: nat)
    requires a <= b <= |s| && k < b - a
    ensures s[a..b][k] == s[a + k]
  {
  }

  lemma BorderOutside(f: Frame, stride: nat, t: seq<Pixel>)
    requires f.Valid() && f.In(stride, t)
    ensures Distinct(f.Border(stride))
    ensures forall p | p in f.Inner(stride) :: p !in f.Border(stride)
  {
    hide RectSpots, Row, Col;
    BorderParts(f, stride);
    var (s, a, b) := (f.Border(stride), f.h * f.uw, f.h * f.uw + f.uh * f.w);
    RectSpotsDistinct(stride, 0, f.w, f.h, f.uw);
    RectSpotsDistinct(stride, f.h, 0, f.uh, f.w);
    RectSpotsDistinct(stride, f.h, f.w, f.uh, f.uw);
    forall j: nat | j < |s|
      ensures j < a ==> Row(stride, s[j]) < f.h && Col(stride, s[j]) >= f.w
      ensures a <= j < b ==> Row(stride, s[j]) >= f.h && Col(stride, s[j]) < f.w
      ensures b <= j ==> Row(stride, s[j]) >= f.h && Col(stride, s[j]) >= f.w
    {
      if j < a {
        assert s[j] == s[..a][j];
        RectSpotAt(stride, 0, f.w, f.h, f.uw, j);
      } else if j < b {
        assert s[j] == s[a..b][j - a];
        RectSpotAt(stride, f.h, 0, f.uh, f.w, j - a);
      } else {
        assert s[j] == s[b..][j - b];
        RectSpotAt(stride, f.h, f.w, f.uh, f.uw, j - b);
      }
    }
    forall j, k | 0 <= j < k < |s| ensures s[j] != s[k] {
      if k < a {
        assert s[j] == s[..a][j] && s[k] == s[..a][k];
      } else if a <= j && k < b {
        assert s[j] == s[a..b][j - a] && s[k] == s[a..b][k - a];
      } else if b <= j {
        assert s[j] == s[b..][j - b] && s[k] == s[b..][k - b];
      }
    }
    forall i: nat | i < f.Cells() ensures Row(stride, f.Inner(stride)[i]) < f.h && Col(stride, f.Inner(stride)[i]) < f.w {
      RectSpotAt(stride, 0, 0, f.h, f.w, i);
    }
  }

  /** What the decoder writes, position by position. */
  lemma SynthesizedAt(f: Frame, stride: nat, c: seq<Cell>, u: seq<Pixel>)
    requires f.Valid() && f.In(stride, u) && f.Pixels() <= |c|
    ensures Below(f.Inner(stride), |u|) && Below(f.Border(stride), |u|)
    ensures forall i | 0 <= i < f.Cells() ::
              Synthesized(f, stride, c, u)[f.Inner(stride)[i]] ==
              SavePixel(f.d, u[f.Inner(stride)[i]], YuvRgb(LoadCoeff(Decoded(f, stride, c, u)[i])))
    ensures forall j | 0 <= j < f.Pixels() - f.Cells() ::
              Synthesized(f, stride, c, u)[f.Border(stride)[j]] == FetchPixel(f.d, Decoded(f, stride, c, u)[f.Cells() + j])
  {
    hide Decoded, RectSpots, FetchPixel, SavePixel, YuvRgb, LoadCoeff;
    var (n, m) := (f.Cells(), f.Pixels() - f.Cells());
    var (e, s, o) := (Decoded(f, stride, c, u), f.Inner(stride), f.Border(stride));
    InnerBelow(f, stride, u);
    BorderBelow(f, stride, u);
    BorderOutside(f, stride, u);
    RectSpotsDistinct(stride, 0, 0, f.h, f.w);
    InnerPlan(f, stride, e, u);
    var u1 := Spread(Converted, f.d, e, Iota(0, n), u, s, n);
    BorderPlan(f, stride, e, u1);
    var v := Synthesized(f, stride, c, u);
    assert s[..n] == s && o[..m] == o;
    forall i | 0 <= i < n ensures v[s[i]] == SavePixel(f.d, u[s[i]], YuvRgb(LoadCoeff(e[i]))) {
      SpreadElsewhere(Whole, f.d, e, f.Spare(), u1, o, m, s[i]);
      SpreadAt(Converted, f.d, e, Iota(0, n), u, s, n, i);
    }
    forall j | 0 <= j < m ensures v[o[j]] == FetchPixel(f.d, e[n + j]) {
      SpreadAt(Whole, f.d, e, f.Spare(), u1, o, m, j);
    }
  }

  /** The decoder writes nowhere else. */
  lemma SynthesizedElsewhere(f: Frame, stride: nat, c: seq<Cell>, u: seq<Pixel>, p: nat)
    requires f.Valid() && f.In(stride, u) && f.Pixels() <= |c|
    requires p < |u| && p !in f.Inner(stride) && p !in f.Border(stride)
    ensures Synthesized(f, stride, c, u)[p] == u[p]
  {
    hide Decoded, RectSpots, FetchPixel, SavePixel, YuvRgb, LoadCoeff;
    var (n, m) := (f.Cells(), f.Pixels() - f.Cells());
    var (e, s, o) := (Decoded(f, stride, c, u), f.Inner(stride), f.Border(stride));
    InnerPlan(f, stride, e, u);
    var u1 := Spread(Converted, f.d, e, Iota(0, n), u, s, n);
    BorderPlan(f, stride, e, u1);
    assert s[..n] == s && o[..m] == o;
    SpreadElsewhere(Whole, f.d, e, f.Spare(), u1, o, m, p);
    SpreadElsewhere(Converted, f.d, e, Iota(0, n), u, s, n, p);
  }

  /** The tile's pixels are those of its first rows and columns. */
  lemma InTile(f: Frame, stride: nat, t: seq<Pixel>, p: nat)
    requires f.Valid() && f.In(stride, t) && (p in f.Inner(stride) || p in f.Border(stride))
    ensures Row(stride, p) < f.Height() && Col(stride, p) < f.Width()
  {
    hide RectSpots, Row, Col;
    BorderParts(f, stride);
    var (s, o, a, b) := (f.Inner(stride), f.Border(stride), f.h * f.uw, f.h * f.uw + f.uh * f.w);
    if p in s {
      var i :| 0 <= i < |s| && s[i] == p;
      RectSpotAt(stride, 0, 0, f.h, f.w, i);
    } else {
      var j :| 0 <= j < |o| && o[j] == p;
      if j < a {
        assert o[j] == o[..a][j];
        RectSpotAt(stride, 0, f.w, f.h, f.uw, j);
      } else if j < b {
        assert o[j] == o[a..b][j - a];
        RectSpotAt(stride, f.h, 0, f.uh, f.w, j - a);
      } else {
        assert o[j] == o[b..][j - b];
        RectSpotAt(stride, f.h, f.w, f.uh, f.uw, j - b);
      }
    }
  }

  /** The decoder leaves the image around the tile as it was. */
  lemma AroundKept(f: Frame, stride: nat, c: seq<Cell>, u: seq<Pixel>, p: nat)
    requires f.Valid() && f.In(stride, u) && f.Pixels() <= |c|
    requires p < |u| && (Row(stride, p) >= f.Height() || Col(stride, p) >= f.Width())
    ensures Synthesized(f, stride, c, u)[p] == u[p]
  {
    hide Synthesized, Row, Col, RectSpots;
    if p in f.Inner(stride) || p in f.Border(stride) {
      InTile(f, stride, u, p);
    }
    SynthesizedElsewhere(f, stride, c, u, p);
  }

  // ---------- The theorems ----------

  /** Pixel `(y, x)` of the tile. */
  ghost function PixelAt(f: Frame, stride: nat, t: seq<Pixel>, y: nat, x: nat): (p: Pixel)
    requires f.In(stride, t) && y < f.Height() && x < f.Width()
    ensures p.Of(f.d)
  {
    TilePixel(f, stride, t, y, x);
    t[y * stride + x]
  }

  lemma TilePixel(f: Frame, stride: nat, t: seq<Pixel>, y: nat, x: nat)
    requires f.In(stride, t) && y < f.Height() && x < f.Width()
    ensures y * stride + x < |t|
  {
    Scale(stride, y, f.Height() - 1);
  }

  /** The coefficients of pixel `(y, x)` of the image that a decoder should show. */
  ghost function RestoredAt(q: Quantiser, f: Frame, stride: nat, t: seq<Pixel>, y: nat, x: nat): Colour
    requires f.Valid() && f.In(stride, t) && y < f.h && x < f.w
  {
    RowCol(f.w, f.h, y * f.w + x);
    At(f.w, y, x);
    LoadCoeff(Restored(q, f, stride, t)[y * f.w + x])
  }

  lemma SynthesizedIn(f: Frame, stride: nat, c: seq<Cell>, u: seq<Pixel>)
    requires f.Valid() && f.In(stride, u) && f.Pixels() <= |c|
    ensures f.In(stride, Synthesized(f, stride, c, u))
  {
    hide Synthesized;
  }

  /** For every tile, level, pixel format and quantiser, and for every row length of the encoder's and the decoder's
      image: the decoder reproduces the border exactly, and shows in the aligned part the inverse transform of the
      quantised transform of the encoder's image. */
  lemma RoundTrip(q: Quantiser, f: Frame, stride0: nat, b: seq<Cell>, t: seq<Pixel>,
                  stride1: nat, c: seq<Cell>, u: seq<Pixel>, y: nat, x: nat)
    requires f.Valid() && f.In(stride0, t) && f.Pixels() <= |b|
    requires f.In(stride1, u) && f.Pixels() <= |c|
    requires Transported(f, OutStride(f, stride0), Analyzed(q, f, stride0, b, t), stride1, u)
    requires y < f.Height() && x < f.Width()
    ensures f.In(stride1, Synthesized(f, stride1, c, u))
    ensures PixelAt(f, stride1, Synthesized(f, stride1, c, u), y, x) ==
            if y < f.h && x < f.w
            then SavePixel(f.d, PixelAt(f, stride1, u, y, x), YuvRgb(RestoredAt(q, f, stride0, t, y, x)))
            else PixelAt(f, stride0, t, y, x)
  {
    hide Analyzed, Synthesized, Restored, Decoded, RectSpots, FetchPixel, SavePixel, YuvRgb;
    SynthesizedIn(f, stride1, c, u);
    DecodedAt(q, f, stride0, b, t, stride1, c, u);
    SynthesizedAt(f, stride1, c, u);
    if y < f.h && x < f.w {
      RectSpotOf(stride1, 0, 0, f.h, f.w, y, x);
    } else {
      BorderAt(f, stride0, y, x);
      BorderAt(f, stride1, y, x);
    }
  }

  /** Without quantisation, at every depth, a tile comes back within the depth's tolerance in every colour channel. */
  lemma NearLossless(f: Frame, stride0: nat, b: seq<Cell>, t: seq<Pixel>,
                     stride1: nat, c: seq<Cell>, u: seq<Pixel>, y: nat, x: nat)
    requires f.Valid() && f.In(stride0, t) && f.Pixels() <= |b|
    requires f.In(stride1, u) && f.Pixels() <= |c|
    requires Transported(f, OutStride(f, stride0), Analyzed(Identity, f, stride0, b, t), stride1, u)
    requires y < f.Height() && x < f.Width()
    ensures f.In(stride1, Synthesized(f, stride1, c, u))
    ensures Near(LoadPixel(f.d, PixelAt(f, stride1, Synthesized(f, stride1, c, u), y, x)),
                 LoadPixel(f.d, PixelAt(f, stride0, t, y, x)), Tolerance(f.d))
  {
    hide Analyzed, Synthesized, PixelAt, RestoredAt, YuvRgb, RgbYuv, LoadPixel, SavePixel;
    RoundTrip(Identity, f, stride0, b, t, stride1, c, u, y, x);
    if y < f.h && x < f.w {
      RestoredPixel(f, stride0, t, y, x);
      PixelNear(f.d, PixelAt(f, stride1, u, y, x), PixelAt(f, stride0, t, y, x));
    }
  }

  lemma RestoredPixel(f: Frame, stride: nat, t: seq<Pixel>, y: nat, x: nat)
    requires f.Valid() && f.In(stride, t) && y < f.h && x < f.w
    ensures RestoredAt(Identity, f, stride, t, y, x) == RgbYuv(f.d, LoadPixel(f.d, PixelAt(f, stride, t, y, x)))
  {
    hide Restored, RgbYuv, RectSpots, SaveCoeff, LoadPixel;
    RestoredIdentity(f, stride, t);
    InnerBelow(f, stride, t);
    RectSpotOf(stride, 0, 0, f.h, f.w, y, x);
    LoadPixelRange(f.d, PixelAt(f, stride, t, y, x));
    RgbYuvFine(f.d, LoadPixel(f.d, PixelAt(f, stride, t, y, x)), Cell(0, 0, 0, 0));
  }

  lemma RestoredIdentity(f: Frame, stride: nat, t: seq<Pixel>)
    requires f.Valid() && f.In(stride, t)
    ensures Restored(Identity, f, stride, t) == Image(f, stride, t)
  {
    hide Image, Forward, Backward, Fine;
    ImageFine(f, stride, t);
    FineEnough(Image(f, stride, t), f.Cells(), f.d.MaskY(), f.d.MaskUV());
    BackwardForward(Image(f, stride, t), f.w, f.h, f.level, 0);
  }

  lemma FineEnough(b: seq<Cell>, n: nat, my: int, muv: int)
    requires my > 0 && muv > 0 && AllFine(b, n, my, muv)
    ensures AllFine(b, n, 1, 1)
  {
    forall i | 0 <= i < n
      ensures Fine(b[i], 1, 1)
    {
      assert Fine(b[i], my, muv);
    }
  }
}
