/** The encoder's row length for tiles with a border, and what a decoder shows of tiles that are packed with another one than
    the image's. */
module ZywrleLayout {
  import opened Grid
  import opened ZywrleHarr
  import opened ZywrleTransform
  import opened ZywrleColour
  import opened ZywrleFilter
  import opened ZywrleWalk
  import opened ZywrleTransfer
  import opened ZywrleTile
  import opened ZywrleCodec
  import opened ZywrleRoundTrip

  predicate HasBorder(f: Frame) { f.uw > 0 || f.uh > 0 }

  /** The encoder writes the packed tile in the rows of the image, which is where its caller reads it, if and only if the
      tile has no border or the image is as wide as the tile. */
  lemma LayoutAgrees(f: Frame, scanline: nat)
    requires f.Valid() && scanline >= f.Width()
    ensures f.Stream(OutStride(f, scanline)) == f.Stream(scanline) <==>
            (f.uw == 0 && f.uh == 0) || scanline == f.Width()
  {
    hide RectSpots;
    if !(f.uw == 0 && f.uh == 0) && scanline != f.Width() {
      assert f.Height() >= 2 by { PowersOfTwo(); }
      RectSpotOf(scanline, 0, 0, f.Height(), f.Width(), 1, 0);
      RectSpotOf(f.Width(), 0, 0, f.Height(), f.Width(), 1, 0);
    }
  }

  /** The decoder puts into border pixel `j` what it finds at the end of the stream. */
  lemma BorderReceived(f: Frame, stride: nat, c: seq<Cell>, u: seq<Pixel>, j: nat)
    requires f.Valid() && f.In(stride, u) && f.Pixels() <= |c| && j < f.Pixels() - f.Cells()
    ensures f.Border(stride)[j] < |u| && f.Stream(stride)[f.Cells() + j] < |u|
    ensures Synthesized(f, stride, c, u)[f.Border(stride)[j]] == u[f.Stream(stride)[f.Cells() + j]]
  {
    hide Decoded, Backward, Walk, RectSpots, FetchPixel, StorePixel, SavePixel, YuvRgb, LoadCoeff, SaveCoeff, LoadPixel, Same;
    var (n, m, s) := (f.Cells(), f.Pixels() - f.Cells(), f.Stream(stride));
    SynthesizedAt(f, stride, c, u);
    StreamBelow(f, stride, u);
    DecodedTail(f, stride, c, u, n + j);
    StreamPlans(f, stride, c, u);
    var c1 := Gather(Coefficient, f.d, c, Walk(f.w, f.h, f.level, 0), u, s[..n], n);
    StreamPlans(f, stride, c1, u);
    IotaDistinct(n, m);
    GatherAt(Whole, f.d, c1, f.Spare(), u, s[n..], m, j);
    assert u[s[n..][j]] == u[s[n + j]];
    FetchStored(f.d, c1[n + j], u[s[n + j]]);
  }

  /** The inverse transform leaves the border in the work buffer alone. */
  lemma DecodedTail(f: Frame, stride: nat, c: seq<Cell>, u: seq<Pixel>, i: nat)
    requires f.Valid() && f.In(stride, u) && f.Pixels() <= |c| && f.Cells() <= i < f.Pixels()
    ensures Decoded(f, stride, c, u)[i] == Received(f, stride, c, u)[i]
  {
    hide Received, Backward;
    var r := Received(f, stride, c, u);
    BackwardSame(r, r, f.w, f.h, f.level, 0);
    assert Decoded(f, stride, c, u)[i] == Decoded(f, stride, c, u)[f.Cells()..][i - f.Cells()];
    assert r[i] == r[f.Cells()..][i - f.Cells()];
  }

  /** The encoder writes nowhere but in its stream. */
  lemma AnalyzedElsewhere(q: Quantiser, f: Frame, scanline: nat, b: seq<Cell>, t: seq<Pixel>, p: nat)
    requires f.Valid() && f.In(scanline, t) && f.Pixels() <= |b| && p < |t| && p !in f.Stream(OutStride(f, scanline))
    ensures Analyzed(q, f, scanline, b, t)[p] == t[p]
  {
    hide Loaded, RectSpots, FetchPixel, Walk, SavePixel, LoadCoeff;
    var (n, m, stride) := (f.Cells(), f.Pixels() - f.Cells(), OutStride(f, scanline));
    var (c, cs, s) := (Loaded(q, f, scanline, b, t), Walk(f.w, f.h, f.level, 0), f.Stream(stride));
    OutStrideIn(f, scanline, t);
    StreamPlans(f, stride, c, t);
    var t1 := Spread(Coefficient, f.d, c, cs, t, s[..n], n);
    StreamPlans(f, stride, c, t1);
    assert s[n..][..m] == s[n..] && s[..n][..n] == s[..n];
    assert forall x :: x in s[n..] || x in s[..n] ==> x in s;
    SpreadElsewhere(Whole, f.d, c, f.Spare(), t1, s[n..], m, p);
    SpreadElsewhere(Coefficient, f.d, c, cs, t, s[..n], n, p);
  }

  /** The pixel of the image that a packed tile with a border holds at a place behind its coefficients. */
  function Source(f: Frame, scanline: nat, k: nat): nat
    requires f.Cells() <= k
  {
    if k < f.Pixels() then f.Border(scanline)[k - f.Cells()] else k
  }

  /** The pixel that takes the place of border pixel `j` when a tile is packed in a wider image and unpacked with that image's
      row length. */
  function Displaced(f: Frame, scanline: nat, j: nat): nat
    requires f.Width() > 0 && scanline >= f.Width() && j < f.Pixels() - f.Cells()
  {
    StreamAhead(f, scanline, f.Cells() + j);
    Source(f, scanline, f.Stream(scanline)[f.Cells() + j])
  }

  /** In a wider image, slots behind the first row lie further on. */
  lemma StreamAhead(f: Frame, scanline: nat, i: nat)
    requires f.Width() > 0 && scanline >= f.Width() && i < f.Pixels()
    ensures f.Stream(scanline)[i] >= i && (scanline > f.Width() && i >= f.Width() ==> f.Stream(scanline)[i] > i)
  {
    hide Row, Col, RectSpots;
    var w := f.Width();
    RowCol(w, f.Height(), i);
    var (y, x) := (Row(w, i), Col(w, i));
    RectSpotOf(scanline, 0, 0, f.Height(), w, y, x);
    FurtherOn(i, w, scanline, y, x);
  }

  lemma FurtherOn(i: nat, w: nat, scanline: nat, y: nat, x: nat)
    requires i == y * w + x && x < w <= scanline
    ensures (0 + y) * scanline + 0 + x >= i && (scanline > w && i >= w ==> (0 + y) * scanline + 0 + x > i)
  {
    Scale(y, w, scanline);
    if scanline > w && i >= w {
      assert y >= 1;
      Scale(y, w + 1, scanline);
      assert y * (w + 1) == y * w + y;
    }
  }

  /** What the packed tile holds at a place behind its coefficients. */
  lemma FoundThere(q: Quantiser, f: Frame, scanline: nat, b: seq<Cell>, t: seq<Pixel>, k: nat)
    requires f.Valid() && HasBorder(f) && f.In(scanline, t) && f.Pixels() <= |b| && f.Cells() <= k < |t|
    ensures Source(f, scanline, k) < |t| && Analyzed(q, f, scanline, b, t)[k] == t[Source(f, scanline, k)]
  {
    hide Analyzed, RectSpots;
    if k < f.Pixels() {
      AnalyzedAt(q, f, scanline, b, t);
      Contiguous(f, k);
      assert f.Stream(f.Width())[f.Cells() + (k - f.Cells())] == k;
    } else {
      forall i | 0 <= i < f.Pixels()
        ensures f.Stream(f.Width())[i] != k
      {
        Contiguous(f, i);
      }
      AnalyzedElsewhere(q, f, scanline, b, t, k);
    }
  }

  lemma Contiguous(f: Frame, k: nat)
    requires f.Width() > 0 && k < f.Pixels()
    ensures f.Stream(f.Width())[k] == k
  {
    RowCol(f.Width(), f.Height(), k);
    RectSpotOf(f.Width(), 0, 0, f.Height(), f.Width(), Row(f.Width(), k), Col(f.Width(), k));
  }

  /** What a decoder shows in each place of the border. */
  lemma BorderShown(q: Quantiser, f: Frame, scanline: nat, b: seq<Cell>, t: seq<Pixel>, c: seq<Cell>, j: nat)
    requires f.Valid() && HasBorder(f) && f.In(scanline, t) && f.Pixels() <= |b| && f.Pixels() <= |c|
    requires j < f.Pixels() - f.Cells()
    ensures f.In(scanline, Analyzed(q, f, scanline, b, t)) && Displaced(f, scanline, j) < |t| && f.Border(scanline)[j] < |t|
    ensures Synthesized(f, scanline, c, Analyzed(q, f, scanline, b, t))[f.Border(scanline)[j]] == t[Displaced(f, scanline, j)]
  {
    hide Analyzed, Synthesized, RectSpots;
    StreamAhead(f, scanline, f.Cells() + j);
    BorderReceived(f, scanline, c, Analyzed(q, f, scanline, b, t), j);
    StreamBelow(f, scanline, t);
    FoundThere(q, f, scanline, b, t, f.Stream(scanline)[f.Cells() + j]);
  }

  /** A border pixel of a tile in a wider image keeps its place if and only if it is looked for where it lies in the image,
      and the packed tile ends before that. */
  lemma KeepsPlace(f: Frame, scanline: nat, t: seq<Pixel>, j: nat)
    requires f.Valid() && f.In(scanline, t) && scanline > f.Width() && f.Width() <= f.Cells() && j < f.Pixels() - f.Cells()
    ensures Displaced(f, scanline, j) == f.Border(scanline)[j]
       <==> f.Pixels() <= f.Border(scanline)[j] == f.Stream(scanline)[f.Cells() + j]
  {
    hide RectSpots;
    StreamAhead(f, scanline, f.Cells() + j);
    BorderOutside(f, scanline, t);
  }

  lemma OneRowFits(f: Frame)
    requires f.Valid() && f.uw < f.w
    ensures f.h >= 2 && f.Width() < f.Cells()
  {
    PowersOfTwo();
    Scale(f.w, 2, f.h);
  }

  /** With a right border, the first border pixel never comes back: the tile does only if it happens to hold equal pixels
      at both places. */
  lemma BorderDisplaced(q: Quantiser, f: Frame, scanline: nat, b: seq<Cell>, t: seq<Pixel>, c: seq<Cell>)
    requires f.Valid() && 0 < f.uw < f.w && scanline > f.Width() && f.In(scanline, t) && f.Pixels() <= |b| && f.Pixels() <= |c|
    ensures f.In(scanline, Analyzed(q, f, scanline, b, t)) && f.Pixels() > f.Cells()
    ensures Displaced(f, scanline, 0) < |t| && Displaced(f, scanline, 0) != f.w < |t|
    ensures Synthesized(f, scanline, c, Analyzed(q, f, scanline, b, t))[f.w] == t[Displaced(f, scanline, 0)]
  {
    hide Analyzed, Synthesized, RectSpots, Displaced;
    OneRowFits(f);
    FirstBorder(f, scanline);
    BorderShown(q, f, scanline, b, t, c, 0);
    KeepsPlace(f, scanline, t, 0);
    StreamAhead(f, scanline, f.Cells());
  }

  lemma FirstBorder(f: Frame, scanline: nat)
    requires f.h > 0 && f.uw > 0
    ensures f.Pixels() > f.Cells() && f.Border(scanline)[0] == f.w
  {
    hide RectSpots;
    Area(f.h, f.uh, f.w, f.uw);
    BorderRight(f, scanline, 0, f.w);
    assert 0 * scanline + f.w == f.w && 0 * f.uw + (f.w - f.w) == 0;
  }

  /** With a bottom border alone, exactly the border pixels that lie behind the packed tile come back; each of the others is
      replaced by another one. */
  lemma BottomDisplaced(q: Quantiser, f: Frame, scanline: nat, b: seq<Cell>, t: seq<Pixel>, c: seq<Cell>, j: nat)
    requires f.Valid() && f.uw == 0 && scanline > f.Width() && f.In(scanline, t) && f.Pixels() <= |b| && f.Pixels() <= |c|
    requires j < f.Pixels() - f.Cells()
    ensures f.In(scanline, Analyzed(q, f, scanline, b, t)) && Displaced(f, scanline, j) < |t| && f.Border(scanline)[j] < |t|
    ensures Synthesized(f, scanline, c, Analyzed(q, f, scanline, b, t))[f.Border(scanline)[j]] == t[Displaced(f, scanline, j)]
    ensures Displaced(f, scanline, j) == f.Border(scanline)[j] <==> f.Pixels() <= f.Border(scanline)[j]
  {
    hide Analyzed, Synthesized, RectSpots, Displaced;
    OneRowFits(f);
    Area(f.h, f.uh, f.w, f.uw);
    BottomPlace(f, scanline, j);
    BorderShown(q, f, scanline, b, t, c, j);
    KeepsPlace(f, scanline, t, j);
  }

  /** A bottom border pixel is looked for where it lies in the image. */
  lemma BottomPlace(f: Frame, scanline: nat, j: nat)
    requires f.w > 0 && f.uw == 0 && j < f.Pixels() - f.Cells()
    ensures f.Border(scanline)[j] == f.Stream(scanline)[f.Cells() + j]
  {
    hide RectSpots, Row, Col;
    Area(f.h, f.uh, f.w, f.uw);
    RowCol(f.w, f.uh, j);
    var (y, x) := (f.h + Row(f.w, j), Col(f.w, j));
    BorderBottom(f, scanline, y, x);
    RectSpotOf(scanline, 0, 0, f.Height(), f.Width(), y, x);
    assert y * f.w + x == f.Cells() + j;
  }

  /** The decoder takes the coefficient of one slot of the walk for that of another: with a border in a wider image, slot
      `k` behind the first row gets the one of the later slot that lies at its place. */
  lemma CoefficientDisplaced(q: Quantiser, f: Frame, scanline: nat, b: seq<Cell>, t: seq<Pixel>, c: seq<Cell>, k: nat)
    requires f.Valid() && HasBorder(f) && scanline > f.Width() && f.In(scanline, t) && f.Pixels() <= |b| && f.Pixels() <= |c|
    requires k < f.Cells() && f.Stream(scanline)[k] < f.Cells()
    ensures k >= f.Width() ==> f.Stream(scanline)[k] > k
    ensures f.In(scanline, Analyzed(q, f, scanline, b, t))
    ensures |Walk(f.w, f.h, f.level, 0)| == f.Cells() && Below(Walk(f.w, f.h, f.level, 0), f.Cells())
    ensures SameCell(Received(f, scanline, c, Analyzed(q, f, scanline, b, t))[Walk(f.w, f.h, f.level, 0)[k]],
                     Forward(q, Image(f, scanline, t), f.w, f.h, f.level, 0)[Walk(f.w, f.h, f.level, 0)[f.Stream(scanline)[k]]])
  {
    hide Forward, Image, Loaded, Analyzed, Walk, Slot, SavePixel, LoadCoeff, SaveCoeff, LoadPixel, FetchPixel, StorePixel, RectSpots, Fine;
    var (n, m, p, u) := (f.Cells(), f.Pixels() - f.Cells(), f.Stream(scanline)[k], Analyzed(q, f, scanline, b, t));
    var (cs, s) := (Walk(f.w, f.h, f.level, 0), f.Stream(scanline));
    StreamAhead(f, scanline, k);
    AnalyzedAt(q, f, scanline, b, t);
    Contiguous(f, p);
    StreamPlans(f, scanline, c, u);
    WalkFits(f);
    var c1 := Gather(Coefficient, f.d, c, cs, u, s[..n], n);
    StreamPlans(f, scanline, c1, u);
    IotaDistinct(n, m);
    GatherElsewhere(Whole, f.d, c1, f.Spare(), u, s[n..], m, cs[k]);
    GatherAt(Coefficient, f.d, c, cs, u, s[..n], n, k);
    FineForward(q, f, scanline, b, t, cs[p]);
    PackingLossless(f.d, t[p], Loaded(q, f, scanline, b, t)[cs[p]], c[cs[k]]);
  }

  /** A tile of three columns, in an image of four: its third pixel comes back as the third pixel of the row below,
      and one of its coefficients is packed beside the tile. */
  lemma LayoutFailure(q: Quantiser, f: Frame, b: seq<Cell>, t: seq<Pixel>, c: seq<Cell>)
    requires f == Frame(D32, 2, 2, 1, 0, 1) && f.In(4, t) && 6 <= |b| && 6 <= |c|
    ensures f.Valid() && f.Pixels() == 6 && |t| >= 7 && f.Stream(OutStride(f, 4)) != f.Stream(4)
    ensures f.Stream(OutStride(f, 4))[3] == 3 && Col(4, 3) >= f.Width()
    ensures f.In(4, Analyzed(q, f, 4, b, t))
    ensures Synthesized(f, 4, c, Analyzed(q, f, 4, b, t))[2] == t[6]
  {
    hide Analyzed, Synthesized, RectSpots, Displaced;
    PowersOfTwo();
    LayoutAgrees(f, 4);
    BorderDisplaced(q, f, 4, b, t, c);
    ThreeColumns();
    Contiguous(f, 3);
    At(4, 0, 3);
  }

  lemma ThreeColumns()
    ensures var f := Frame(D32, 2, 2, 1, 0, 1); f.Pixels() == 6 && f.Cells() == 4 && Displaced(f, 4, 0) == 6
  {
    hide RectSpots;
    var f := Frame(D32, 2, 2, 1, 0, 1);
    RectSpotOf(4, 0, 0, 2, 3, 1, 1);
    BorderRight(f, 4, 1, 2);
  }
}
