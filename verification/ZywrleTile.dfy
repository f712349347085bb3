/** The loops of `zywrleAnalyze` and `zywrleSynthesize` over one tile, in place as both call sites use them. */
module ZywrleTile {
  import opened Grid
  import opened ZywrleHarr
  import opened ZywrleFilter
  import opened ZywrleTransform
  import opened ZywrleColour
  import opened ZywrleTransfer
  import opened ZywrleWalk

  // ---------- Positions ----------

  /** The pixels of a rectangle of `cy` rows of `cx`, in an image with `stride` pixels to the row. */
  function RectSpots(stride: nat, y0: nat, x0: nat, cy: nat, cx: nat): (s: seq<nat>)
    ensures |s| == cy * cx
  {
    seq(cy * cx, k requires 0 <= k < cy * cx => if cx == 0 then 0 else (y0 + Row(cx, k)) * stride + x0 + Col(cx, k))
  }

  function Iota(start: nat, n: nat): (s: seq<nat>)
    ensures |s| == n
  {
    seq(n, k requires 0 <= k < n => start + k)
  }

  lemma RectSpotAt(stride: nat, y0: nat, x0: nat, cy: nat, cx: nat, k: nat)
    requires x0 + cx <= stride && k < cy * cx
    ensures cx > 0 && Row(cx, k) < cy
    ensures var p := RectSpots(stride, y0, x0, cy, cx)[k];
            Row(stride, p) == y0 + Row(cx, k) && Col(stride, p) == x0 + Col(cx, k)
  {
    PositiveFactor(cy, cx, k);
    RowCol(cx, cy, k);
    At(stride, y0 + Row(cx, k), x0 + Col(cx, k));
  }

  lemma RectSpotOf(stride: nat, y0: nat, x0: nat, cy: nat, cx: nat, y: nat, x: nat)
    requires y < cy && x < cx
    ensures var k := y * cx + x;
            k < cy * cx && Row(cx, k) == y && Col(cx, k) == x
            && RectSpots(stride, y0, x0, cy, cx)[k] == (y0 + y) * stride + x0 + x
  {
    At(cx, y, x);
    RowCol(cx, cy, y * cx + x);
  }

  lemma SliceOfSlice<T>(s: seq<T>, k: nat, n: nat, a: nat, b: nat)
    requires a <= b <= n && k + n <= |s|
    ensures s[k..k + n][a..b] == s[k + a..k + b]
  {
    var (u, v) := (s[k..k + n][a..b], s[k + a..k + b]);
    assert forall i | 0 <= i < b - a :: u[i] == s[k + (a + i)] == v[i];
  }

  /** A row of a rectangle is a run of consecutive positions. */
  lemma RectRow(stride: nat, y0: nat, x0: nat, cy: nat, cx: nat, y: nat)
    requires y < cy && cx > 0
    ensures (y + 1) * cx <= cy * cx && (y + 1) * cx == y * cx + cx
    ensures RectSpots(stride, y0, x0, cy, cx)[y * cx..(y + 1) * cx] == Iota((y0 + y) * stride + x0, cx)
  {
    hide RectSpots;
    Scale(cx, y + 1, cy);
    var row := RectSpots(stride, y0, x0, cy, cx)[y * cx..(y + 1) * cx];
    forall x: nat | x < cx ensures row[x] == (y0 + y) * stride + x0 + x {
      RectSpotOf(stride, y0, x0, cy, cx, y, x);
    }
  }

  lemma RectSpotsDistinct(stride: nat, y0: nat, x0: nat, cy: nat, cx: nat)
    requires x0 + cx <= stride
    ensures Distinct(RectSpots(stride, y0, x0, cy, cx))
  {
    hide Row, Col, RectSpots;
    forall j, k | 0 <= j < k < cy * cx
      ensures RectSpots(stride, y0, x0, cy, cx)[j] != RectSpots(stride, y0, x0, cy, cx)[k]
    {
      RectSpotAt(stride, y0, x0, cy, cx, j);
      RectSpotAt(stride, y0, x0, cy, cx, k);
      RowCol(cx, cy, j);
      RowCol(cx, cy, k);
    }
  }

  lemma Area(h: nat, uh: nat, w: nat, uw: nat)
    ensures (h + uh) * (w + uw) == h * w + h * uw + uh * w + uh * uw
    ensures uw == 0 ==> h * uw == 0 && uh * uw == 0
    ensures uh == 0 ==> uh * w == 0 && uh * uw == 0
  {
  }

  /** A tile of `w + uw` by `h + uh` pixels, of which `w` by `h` is the part aligned to the grid of the last level. */
  datatype Frame = Frame(d: Depth, w: nat, h: nat, uw: nat, uh: nat, level: nat) {
    ghost predicate Valid() {
      Aligned(w, h, level)
    }

    function Width(): nat { w + uw }

    function Height(): nat { h + uh }

    function Cells(): nat { h * w }

    function Pixels(): (n: nat)
      ensures n >= Cells()
    {
      Area(h, uh, w, uw);
      Height() * Width()
    }

    /** The tile lies in an image with `stride` pixels to the row, from its first pixel on. */
    ghost predicate In(stride: nat, t: seq<Pixel>) {
      stride >= Width() && (Height() - 1) * stride + Width() <= |t| && AllOf(d, t)
    }

    /** The order in which the packed tile is written and read: row by row. */
    function Stream(stride: nat): (s: seq<nat>)
      ensures |s| == Pixels()
    {
      RectSpots(stride, 0, 0, Height(), Width())
    }

    function Inner(stride: nat): (s: seq<nat>)
      ensures |s| == Cells()
    {
      RectSpots(stride, 0, 0, h, w)
    }

    /** The pixels outside the aligned part: right of it, below it, and the corner. */
    function Border(stride: nat): (s: seq<nat>)
      ensures |s| == Pixels() - Cells()
    {
      Area(h, uh, w, uw);
      RectSpots(stride, 0, w, h, uw) + RectSpots(stride, h, 0, uh, w) + RectSpots(stride, h, w, uh, uw)
    }

    /** The cells that receive the border. */
    function Spare(): (s: seq<nat>)
      ensures |s| == Pixels() - Cells()
    {
      Iota(Cells(), Pixels() - Cells())
    }
  }

  lemma InBounds(stride: nat, rows: nat, cols: nat, p: nat)
    requires stride >= cols > 0 && Row(stride, p) < rows && Col(stride, p) < cols
    ensures p < (rows - 1) * stride + cols
  {
    RowCol(stride, rows, p);
    var y := Row(stride, p);
    assert (rows - 1) * stride >= y * stride by { Scale(stride, y, rows - 1); }
  }

  lemma RectBelow(stride: nat, y0: nat, x0: nat, cy: nat, cx: nat, rows: nat, cols: nat)
    requires x0 + cx <= cols <= stride && y0 + cy <= rows
    requires rows > 0
    ensures Below(RectSpots(stride, y0, x0, cy, cx), (rows - 1) * stride + cols)
  {
    hide Row, Col, RectSpots;
    forall k | 0 <= k < cy * cx ensures RectSpots(stride, y0, x0, cy, cx)[k] < (rows - 1) * stride + cols {
      RectSpotAt(stride, y0, x0, cy, cx, k);
      InBounds(stride, rows, cols, RectSpots(stride, y0, x0, cy, cx)[k]);
    }
  }

  /** The three stretches of the border list. */
  lemma BorderParts(f: Frame, stride: nat)
    ensures var (s, a, b) := (f.Border(stride), f.h * f.uw, f.h * f.uw + f.uh * f.w);
            && a <= b <= |s|
            && s[..a] == RectSpots(stride, 0, f.w, f.h, f.uw)
            && s[a..b] == RectSpots(stride, f.h, 0, f.uh, f.w)
            && s[b..] == RectSpots(stride, f.h, f.w, f.uh, f.uw)
  {
    hide RectSpots;
  }

  /** The plans by which the codec moves data are well formed. */
  lemma StreamPlans(f: Frame, stride: nat, b: seq<Cell>, t: seq<Pixel>)
    requires f.Valid() && f.In(stride, t) && f.Pixels() <= |b|
    ensures Plan(f.d, b, Walk(f.w, f.h, f.level, 0), t, f.Stream(stride)[..f.Cells()])
    ensures Plan(f.d, b, f.Spare(), t, f.Stream(stride)[f.Cells()..])
  {
    hide RectSpots, Walk;
    RectBelow(stride, 0, 0, f.Height(), f.Width(), f.Height(), f.Width());
    WalkFits(f);
  }

  lemma InnerPlan(f: Frame, stride: nat, b: seq<Cell>, t: seq<Pixel>)
    requires f.Valid() && f.In(stride, t) && f.Pixels() <= |b|
    ensures Plan(f.d, b, Iota(0, f.Cells()), t, f.Inner(stride))
  {
    hide RectSpots;
    RectBelow(stride, 0, 0, f.h, f.w, f.Height(), f.Width());
  }

  lemma BorderPlan(f: Frame, stride: nat, b: seq<Cell>, t: seq<Pixel>)
    requires f.Valid() && f.In(stride, t) && f.Pixels() <= |b|
    ensures Plan(f.d, b, f.Spare(), t, f.Border(stride))
  {
    hide RectSpots;
    var (rows, cols) := (f.Height(), f.Width());
    RectBelow(stride, 0, f.w, f.h, f.uw, rows, cols);
    RectBelow(stride, f.h, 0, f.uh, f.w, rows, cols);
    RectBelow(stride, f.h, f.w, f.uh, f.uw, rows, cols);
  }

  lemma WalkFits(f: Frame)
    requires f.Valid()
    ensures |Walk(f.w, f.h, f.level, 0)| == f.Cells() && Below(Walk(f.w, f.h, f.level, 0), f.Cells())
    ensures Distinct(Walk(f.w, f.h, f.level, 0))
  {
    hide Walk, Slot;
    WalkLength(f.w, f.h, f.level, 0);
    forall k | 0 <= k < |Walk(f.w, f.h, f.level, 0)|
      ensures Walk(f.w, f.h, f.level, 0)[k] < f.Cells()
      ensures Slot(f.w, f.h, f.level, 0, Walk(f.w, f.h, f.level, 0)[k]) == k
    {
      WalkOnce(f.w, f.h, f.level, 0, k);
    }
  }

  // ---------- The pointer into the packed tile ----------

  /** `INC_PTR` */
  function IncPtr(data: nat, pData: nat, total: nat, scanline: nat): (nat, nat)
    requires scanline >= total
  {
    if data + 1 - pData >= total then (data + 1 + scanline - total, data + 1 + scanline - total) else (data + 1, pData)
  }

  /** After `k` increments `data` is at the `k`th position of a stream with `stride` pixels to the row.  Either `pData`
      follows the rows, or it lies so far ahead that `INC_PTR` never ends a row. */
  ghost predicate PointsAt(stride: nat, scanline: nat, total: nat, n: nat, k: nat, data: nat, pData: nat)
    requires total > 0
  {
    || (stride == scanline && pData == Row(total, k) * scanline && data == pData + Col(total, k))
    || (stride == total && data == k && n < pData + total)
  }

  lemma PointsAtNext(stride: nat, scanline: nat, total: nat, n: nat, k: nat, data: nat, pData: nat)
    requires 0 < total <= scanline && k < n && PointsAt(stride, scanline, total, n, k, data, pData)
    ensures var (data', pData') := IncPtr(data, pData, total, scanline);
            PointsAt(stride, scanline, total, n, k + 1, data', pData')
  {
    var (y, x) := (Row(total, k), Col(total, k));
    RowCol(total, 0, k);
    if x + 1 < total {
      At(total, y, x + 1);
    } else {
      assert (y + 1) * total == y * total + total && (y + 1) * scanline == y * scanline + scanline;
      At(total, y + 1, 0);
    }
  }

  lemma PointsAtSpot(stride: nat, scanline: nat, total: nat, rows: nat, k: nat, data: nat, pData: nat)
    requires 0 < total && k < rows * total && PointsAt(stride, scanline, total, rows * total, k, data, pData)
    ensures data == RectSpots(stride, 0, 0, rows, total)[k]
  {
    RowCol(total, rows, k);
  }

  // ---------- The loops ----------

  /** One turn of the innermost loop: a pixel or a coefficient, and `INC_PTR`. */
  method TransferOne(dir: Direction, d: Depth, pBuf: array<Cell>, pH: nat, data: array<Pixel>, ptr: nat, pData: nat, total: nat, scanline: nat,
                     ghost stride: nat, ghost rows: nat,
                     ghost b0: seq<Cell>, ghost cs: seq<nat>, ghost t0: seq<Pixel>, ghost ps: seq<nat>, ghost k: nat)
    returns (ptr': nat, pData': nat)
    requires 0 < total <= scanline && k < |cs| <= rows * total && ps == RectSpots(stride, 0, 0, rows, total)[..|cs|] && cs[k] == pH
    requires Moved(dir, Coefficient, d, b0, cs, t0, ps, k, pBuf[..], data[..])
    requires PointsAt(stride, scanline, total, rows * total, k, ptr, pData)
    modifies pBuf, data
    ensures Moved(dir, Coefficient, d, b0, cs, t0, ps, k + 1, pBuf[..], data[..])
    ensures PointsAt(stride, scanline, total, rows * total, k + 1, ptr', pData')
  {
    hide Moved, PointsAt, RectSpots, IncPtr;
    PointsAtSpot(stride, scanline, total, rows, k, ptr, pData);
    Move(dir, Coefficient, d, pBuf, pH, data, ptr, b0, cs, t0, ps, k);
    PointsAtNext(stride, scanline, total, rows * total, k, ptr, pData);
    ptr', pData' := IncPtr(ptr, pData, total, scanline).0, IncPtr(ptr, pData, total, scanline).1;
  }

  /** The place of a sub-band's cell in the walk. */
  lemma BandInWalk(cs: seq<nat>, k0: nat, w: nat, h: nat, g: nat, r: nat, y: nat, x: nat)
    requires g > 0 && k0 + |BandList(w, h, g, r)| <= |cs| && cs[k0..k0 + |BandList(w, h, g, r)|] == BandList(w, h, g, r)
    requires y < Quotient(h, 2 * g) && x < Quotient(w, 2 * g)
    ensures var k := k0 + Times(y, Quotient(w, 2 * g)) + x; k < |cs| && cs[k] == BandCell(w, g, r, y, x)
  {
    hide BandCell, BandList, Quotient;
    BandListElement(w, h, g, r, y, x);
    assert cs[k0..k0 + |BandList(w, h, g, r)|][y * Quotient(w, 2 * g) + x] == BandCell(w, g, r, y, x);
  }

  /** `ZYWRLE_TRANSFER_COEFF`: sub-band `r` of level `l`, from place `k0` of the walk on. */
  method TransferCoeff(dir: Direction, d: Depth, pBuf: array<Cell>, data: array<Pixel>, ptr: nat, pData: nat,
                       r: nat, w: nat, h: nat, total: nat, scanline: nat, l: nat,
                       ghost stride: nat, ghost rows: nat,
                       ghost b0: seq<Cell>, ghost cs: seq<nat>, ghost t0: seq<Pixel>, ghost ps: seq<nat>, ghost k0: nat)
    returns (ptr': nat, pData': nat)
    requires r < 4 && 0 < total <= scanline && Splits(w, h, Pow2(l))
    requires |cs| <= rows * total && ps == RectSpots(stride, 0, 0, rows, total)[..|cs|]
    requires k0 + |BandList(w, h, Pow2(l), r)| <= |cs|
    requires cs[k0..k0 + |BandList(w, h, Pow2(l), r)|] == BandList(w, h, Pow2(l), r)
    requires Moved(dir, Coefficient, d, b0, cs, t0, ps, k0, pBuf[..], data[..])
    requires PointsAt(stride, scanline, total, rows * total, k0, ptr, pData)
    modifies pBuf, data
    ensures Moved(dir, Coefficient, d, b0, cs, t0, ps, k0 + |BandList(w, h, Pow2(l), r)|, pBuf[..], data[..])
    ensures PointsAt(stride, scanline, total, rows * total, k0 + |BandList(w, h, Pow2(l), r)|, ptr', pData')
  {
    hide Moved, PointsAt, BandCell, BandList, IncPtr, RectSpots, Quotient, Splits, Times;
    ptr', pData' := ptr, pData;
    SplitsPositive(w, h, Pow2(l));
    var s := 2 * Pow2(l);
    var pH := 0;
    if r % 2 == 1 {
      pH := pH + Pow2(l);
    }
    if r / 2 % 2 == 1 {
      pH := pH + Pow2(l) * w;
    }
    var pEnd := pH + h * w;
    ghost var (g, ny, nx) := (Pow2(l), Quotient(h, s), Quotient(w, s));
    ghost var (y: nat, k: nat) := (0, k0);
    FirstCell(w, g, r);
    BandListLength(w, h, g, r);
    TimesIs(0, nx);
    BandRowStart(w, h, g, r, 0);
    while pH < pEnd
      invariant y <= ny && pH == BandCell(w, g, r, y, 0) && (y < ny <==> pH < pEnd) && k == k0 + Times(y, nx)
      invariant Moved(dir, Coefficient, d, b0, cs, t0, ps, k, pBuf[..], data[..])
      invariant PointsAt(stride, scanline, total, rows * total, k, ptr', pData')
      decreases ny - y
    {
      var pLine := pH + w;
      ghost var x: nat := 0;
      BandRowEnd(w, h, g, r, y, 0);
      while pH < pLine
        invariant x <= nx && pH == BandCell(w, g, r, y, x) && (x < nx <==> pH < pLine) && k == k0 + Times(y, nx) + x
        invariant pLine == BandCell(w, g, r, y, 0) + w
        invariant Moved(dir, Coefficient, d, b0, cs, t0, ps, k, pBuf[..], data[..])
        invariant PointsAt(stride, scanline, total, rows * total, k, ptr', pData')
        decreases nx - x
      {
        BandInWalk(cs, k0, w, h, g, r, y, x);
        ptr', pData' := TransferOne(dir, d, pBuf, pH, data, ptr', pData', total, scanline, stride, rows, b0, cs, t0, ps, k);
        NextInRow(w, g, r, y, x);
        pH := pH + s;
        x, k := x + 1, k + 1;
        BandRowEnd(w, h, g, r, y, x);
      }
      NextRow(w, h, g, r, y);
      pH := pH + (s - 1) * w;
      TimesIs(y, nx);
      y := y + 1;
      BandRowStart(w, h, g, r, y);
    }
  }

  lemma BandListLength(w: nat, h: nat, g: nat, r: nat)
    requires g > 0
    ensures |BandList(w, h, g, r)| == Times(Quotient(h, 2 * g), Quotient(w, 2 * g))
  {
  }

  lemma BandListElement(w: nat, h: nat, g: nat, r: nat, y: nat, x: nat)
    requires g > 0 && y < Quotient(h, 2 * g) && x < Quotient(w, 2 * g)
    ensures var k := y * Quotient(w, 2 * g) + x;
            k < |BandList(w, h, g, r)| && BandList(w, h, g, r)[k] == BandCell(w, g, r, y, x)
  {
    hide BandCell, Quotient;
    var nx := Quotient(w, 2 * g);
    At(nx, y, x);
    RowCol(nx, Quotient(h, 2 * g), y * nx + x);
  }

  /** The row loop ends when the rows of the sub-band do. */
  lemma BandRowStart(w: nat, h: nat, g: nat, r: nat, y: nat)
    requires Splits(w, h, g)
    ensures 0 < Quotient(h, 2 * g)
    ensures y < Quotient(h, 2 * g) <==> BandCell(w, g, r, y, 0) < BandCell(w, g, r, 0, 0) + h * w
  {
    BelowQuotient(y, 2 * g, h);
    BelowQuotient(0, 2 * g, h);
    RowBefore(2 * g * y, OffsetY(g, r), h, w);
  }

  lemma RowBefore(c: nat, o: nat, h: nat, w: nat)
    requires w > 0
    ensures (c + o) * w < o * w + h * w <==> c < h
  {
    assert (c + o) * w == w * c + o * w;
    Scale(w, c + 1, h);
    Scale(w, h, c);
  }

  /** The column loop ends when the columns of the sub-band do. */
  lemma BandRowEnd(w: nat, h: nat, g: nat, r: nat, y: nat, x: nat)
    requires Splits(w, h, g)
    ensures 0 < Quotient(w, 2 * g)
    ensures x < Quotient(w, 2 * g) <==> BandCell(w, g, r, y, x) < BandCell(w, g, r, y, 0) + w
  {
    BelowQuotient(x, 2 * g, w);
    BelowQuotient(0, 2 * g, w);
  }
}
