/** What the coefficients of the transform are: each level leaves the coarse picture on a wider grid, and the detail beside it. */
module ZywrleDetail {
  import opened Grid
  import opened ZywrleHarr
  import opened ZywrleFilter
  import opened ZywrleWavelet
  import opened ZywrleTransform
  import opened ZywrleFilterLast

  // ---------- One block of a level ----------

  lemma FirstPass(axis: Axis, b: seq<Cell>, w: nat, h: nat, g: nat, i: nat)
    requires Splits(w, h, g) && h * w <= |b| && i < h * w && IsFirst(axis, w, g, i)
    ensures var (c, j) := (Pass(axis, b, w, h, g), i + Distance(axis, w, g));
            j < h * w && c[i] == Low(b[i], b[j]) && c[j] == High(b[i], b[j])
  {
    hide Low, High, Distance, LineOf, Along;
    PartnerOfFirst(axis, w, h, g, i);
    DistancePositive(axis, w, g);
    NotBoth(axis, w, g, i + Distance(axis, w, g));
  }

  lemma NotBoth(axis: Axis, w: nat, g: nat, i: nat)
    requires w > 0 && g > 0
    ensures !(IsFirst(axis, w, g, i) && IsSecond(axis, w, g, i))
  {
  }

  /** The places of a block of four cells, from its upper left one on. */
  lemma BlockPlaces(w: nat, h: nat, g: nat, i: nat)
    requires Splits(w, h, g) && i < h * w && Band(w, g, i) == 0
    ensures i + g * w + g < h * w
    ensures IsFirst(Across, w, g, i) && IsFirst(Across, w, g, i + g * w)
    ensures IsFirst(Down, w, g, i) && IsFirst(Down, w, g, i + g)
  {
    hide Row, Col;
    var (y, x) := (Row(w, i), Col(w, i));
    RowCol(w, h, i);
    MultipleGap(2 * g, y, h);
    MultipleGap(2 * g, x, w);
    At(w, y, x + g);
    At(w, y + g, x);
    At(w, y + g, x + g);
    assert (y + g) * w == y * w + g * w;
    RowCol(w, h, (y + g) * w + (x + g));
    AddHalf(x, g);
    AddHalf(y, g);
    OnGridHalf(g, x + g);
    OnGridHalf(g, y + g);
  }

  /** A level turns each block of four cells into the coarse cell, and the detail between columns, between rows, and across. */
  lemma LevelBlock(b: seq<Cell>, w: nat, h: nat, l: nat, i: nat)
    requires Splits(w, h, Pow2(l)) && h * w <= |b| && i < h * w && Band(w, Pow2(l), i) == 0
    ensures var (g, c) := (Pow2(l), Level(b, w, h, l));
            var (right, below, across) := (i + g, i + g * w, i + g * w + g);
            && across < h * w
            && c[i] == Low(Low(b[i], b[right]), Low(b[below], b[across]))
            && c[right] == Low(High(b[i], b[right]), High(b[below], b[across]))
            && c[below] == High(Low(b[i], b[right]), Low(b[below], b[across]))
            && c[across] == High(High(b[i], b[right]), High(b[below], b[across]))
  {
    hide Low, High, Pass, IsFirst, IsSecond, Band, Pow2;
    var g := Pow2(l);
    BlockPlaces(w, h, g, i);
    FirstPass(Across, b, w, h, g, i);
    FirstPass(Across, b, w, h, g, i + g * w);
    var a := Pass(Across, b, w, h, g);
    FirstPass(Down, a, w, h, g, i);
    FirstPass(Down, a, w, h, g, i + g);
  }

  /** A level leaves the cells off its grid alone. */
  lemma LevelElsewhere(b: seq<Cell>, w: nat, h: nat, l: nat, i: nat)
    requires w > 0 && h * w <= |b| && i < |b| && (i < h * w ==> Band(w, Pow2(l), i) == 4)
    ensures Level(b, w, h, l)[i] == b[i]
  {
    hide Low, High, Distance, LineOf, Along, Pow2, Band;
    var g := Pow2(l);
    forall axis: Axis | i < h * w
      ensures !IsFirst(axis, w, g, i) && !IsSecond(axis, w, g, i)
    {
      if IsFirst(axis, w, g, i) || IsSecond(axis, w, g, i) {
        PairsOnGrid(axis, w, g, i);
      }
    }
  }

  // ---------- A picture of one colour ----------

  /** The three coefficients of a cell. */
  function Coeffs(p: Cell): Cell { p.(c3 := 0) }

  const NOTHING := Cell(0, 0, 0, 0)

  lemma EqualCells(p: Cell, q: Cell)
    requires p.Ranged() && Coeffs(q) == Coeffs(p)
    ensures Coeffs(Low(p, q)) == Coeffs(p) && Coeffs(High(p, q)) == NOTHING
  {
    hide Step;
    PiecewiseLinear(p.c0, q.c0);
    PiecewiseLinear(p.c1, q.c1);
    PiecewiseLinear(p.c2, q.c2);
  }

  /** On the grid of step `g` all cells have the coefficients of `p`, and between its points there is no detail. */
  ghost predicate Flat(b: seq<Cell>, w: nat, h: nat, g: nat, p: Cell)
    requires w > 0 && g > 0
  {
    h * w <= |b| && forall i: nat :: i < h * w ==> Coeffs(b[i]) == if Band(w, g, i) < 4 then Coeffs(p) else NOTHING
  }

  lemma FlatCells(p: Cell, a: Cell, b: Cell, c: Cell, d: Cell)
    requires p.Ranged() && Coeffs(a) == Coeffs(b) == Coeffs(c) == Coeffs(d) == Coeffs(p)
    ensures Coeffs(Low(Low(a, b), Low(c, d))) == Coeffs(p) && Coeffs(Low(High(a, b), High(c, d))) == NOTHING
    ensures Coeffs(High(Low(a, b), Low(c, d))) == NOTHING && Coeffs(High(High(a, b), High(c, d))) == NOTHING
  {
    hide Low, High;
    EqualCells(a, b);
    EqualCells(c, d);
    EqualCells(Low(a, b), Low(c, d));
    EqualCells(High(a, b), High(c, d));
  }

  /** The block in which a cell of the grid lies. */
  lemma BlockOf(w: nat, h: nat, g: nat, i: nat) returns (j: nat)
    requires Splits(w, h, g) && i < h * w && Band(w, g, i) < 4
    ensures j < h * w && Band(w, g, j) == 0
    ensures match Band(w, g, i) case 0 => i == j case 1 => i == j + g case 2 => i == j + g * w case _ => i == j + g * w + g
  {
    hide Band, BandCell, Quotient, Ordinal;
    var (r, y, x) := (Band(w, g, i), Quotient(Row(w, i), 2 * g), Quotient(Col(w, i), 2 * g));
    BandCellOf(w, g, i);
    RowCol(w, h, i);
    BelowQuotient(y, 2 * g, h);
    BelowQuotient(x, 2 * g, w);
    QuotientBelow(2 * g, Row(w, i));
    QuotientBelow(2 * g, Col(w, i));
    BandWalk(w, h, g, 0, y, x);
    j := BandCell(w, g, 0, y, x);
    BlockOffset(w, g, r, y, x);
  }

  lemma BlockOffset(w: nat, g: nat, r: nat, y: nat, x: nat)
    ensures BandCell(w, g, r, y, x) == BandCell(w, g, 0, y, x) + OffsetY(g, r) * w + OffsetX(g, r)
  {
    assert (2 * g * y + OffsetY(g, r)) * w == 2 * g * y * w + OffsetY(g, r) * w;
  }

  /** The points of the next grid are the upper left cells of the blocks. */
  lemma NextGrid(w: nat, g: nat, i: nat)
    requires w > 0 && g > 0
    ensures Band(w, 2 * g, i) < 4 <==> Band(w, g, i) == 0
  {
    hide Row, Col;
    if Row(w, i) % (2 * g) == 0 {
      MultipleOfMultiple(Row(w, i), 2 * g, g) by { DivModUnique(g, 2, 0); }
    }
    if Col(w, i) % (2 * g) == 0 {
      MultipleOfMultiple(Col(w, i), 2 * g, g) by { DivModUnique(g, 2, 0); }
    }
  }

  lemma QuantiseNothing(q: Quantiser, level: nat, l: nat, p: Cell)
    requires Coeffs(p) == NOTHING
    ensures Coeffs(QuantiseCell(q, level, l, p)) == NOTHING
  {
  }

  lemma FlatLevel(q: Quantiser, b: seq<Cell>, w: nat, h: nat, level: nat, l: nat, p: Cell)
    requires p.Ranged() && Splits(w, h, Pow2(l)) && Flat(b, w, h, Pow2(l), p)
    ensures Flat(Filter(q, Level(b, w, h, l), w, h, level, l), w, h, 2 * Pow2(l), p)
  {
    hide Level, Pow2, Band, Coeffs, QuantiseCell, Low, High;
    var g := Pow2(l);
    var c := Level(b, w, h, l);
    var d := Filter(q, c, w, h, level, l);
    forall i: nat | i < h * w
      ensures Coeffs(d[i]) == if Band(w, 2 * g, i) < 4 then Coeffs(p) else NOTHING
    {
      NextGrid(w, g, i);
      if Band(w, g, i) == 4 {
        LevelElsewhere(b, w, h, l, i);
      } else {
        var j := BlockOf(w, h, g, i);
        FlatBlock(b, w, h, l, p, j);
        QuantiseNothing(q, level, l, c[j + g]) by { assert Coeffs(c[j + g]) == NOTHING; }
        QuantiseNothing(q, level, l, c[j + g * w]);
        QuantiseNothing(q, level, l, c[j + g * w + g]);
      }
    }
  }

  lemma FlatBlock(b: seq<Cell>, w: nat, h: nat, l: nat, p: Cell, j: nat)
    requires p.Ranged() && Splits(w, h, Pow2(l)) && Flat(b, w, h, Pow2(l), p) && j < h * w && Band(w, Pow2(l), j) == 0
    ensures var (g, c) := (Pow2(l), Level(b, w, h, l));
            && j + g * w + g < h * w && Coeffs(c[j]) == Coeffs(p)
            && Coeffs(c[j + g]) == Coeffs(c[j + g * w]) == Coeffs(c[j + g * w + g]) == NOTHING
  {
    hide Level, Pow2, Band, Coeffs, Low, High;
    var g := Pow2(l);
    LevelBlock(b, w, h, l, j);
    BlockBands(w, h, g, j);
    FlatCells(p, b[j], b[j + g], b[j + g * w], b[j + g * w + g]);
  }

  lemma BlockBands(w: nat, h: nat, g: nat, j: nat)
    requires Splits(w, h, g) && j < h * w && Band(w, g, j) == 0
    ensures Band(w, g, j + g) < 4 && Band(w, g, j + g * w) < 4 && Band(w, g, j + g * w + g) < 4
  {
    hide Band, IsFirst, IsSecond, LineOf, Along;
    BlockPlaces(w, h, g, j);
    PartnerOfFirst(Across, w, h, g, j);
    PartnerOfFirst(Down, w, h, g, j);
    PartnerOfFirst(Across, w, h, g, j + g * w);
    PairsOnGrid(Across, w, g, j + g);
    PairsOnGrid(Down, w, g, j + g * w);
    PairsOnGrid(Across, w, g, j + g * w + g);
  }

  /** A picture of one colour has no detail at any level: what is left of it are equal cells on the coarsest grid. */
  lemma {:induction false} FlatForward(q: Quantiser, b: seq<Cell>, w: nat, h: nat, level: nat, l: nat, p: Cell)
    requires Aligned(w, h, level) && h * w <= |b| && l <= level && p.Ranged() && Flat(b, w, h, Pow2(l), p)
    ensures Flat(Forward(q, b, w, h, level, l), w, h, Pow2(level), p)
    decreases level - l
  {
    hide Level, Filter, Flat, Pow2;
    if l < level {
      LevelSplits(w, h, level, l);
      FlatLevel(q, b, w, h, level, l, p);
      FlatForward(q, Filter(q, Level(b, w, h, l), w, h, level, l), w, h, level, l + 1, p);
    }
  }

  lemma OneColour(b: seq<Cell>, w: nat, h: nat, p: Cell)
    requires w > 0 && h * w <= |b| && forall i :: 0 <= i < h * w ==> Coeffs(b[i]) == Coeffs(p)
    ensures Flat(b, w, h, Pow2(0), p)
  {
    forall i: nat | i < h * w
      ensures Band(w, 1, i) < 4
    {
    }
  }
}
