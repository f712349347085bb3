/** The sub-bands of the interleaved transform, and the quantising filter that runs over them. */
module ZywrleFilter {
  import opened Grid
  import opened ZywrleHarr

  // ---------- Sub-bands ----------

  /** The sub-band of cell `i` on the grid of step `g`: bit 0 says that its column is an odd multiple of `g`,
      bit 1 that its row is.  4 is for the cells that are not on the grid. */
  function Band(w: nat, g: nat, i: nat): (r: nat)
    requires w > 0 && g > 0
    ensures r <= 4
  {
    if Row(w, i) % g != 0 || Col(w, i) % g != 0 then 4
    else (if Row(w, i) % (2 * g) == 0 then 0 else 2) + (if Col(w, i) % (2 * g) == 0 then 0 else 1)
  }

  function OffsetX(g: nat, r: nat): nat { if r % 2 == 1 then g else 0 }

  function OffsetY(g: nat, r: nat): nat { if r / 2 % 2 == 1 then g else 0 }

  /** The cell in row `y` and column `x` of sub-band `r`. */
  function BandCell(w: nat, g: nat, r: nat, y: nat, x: nat): nat {
    (2 * g * y + OffsetY(g, r)) * w + (2 * g * x + OffsetX(g, r))
  }

  lemma HalfStep(g: nat, q: nat)
    requires g > 0
    ensures (2 * g * q) % (2 * g) == 0 && (2 * g * q) % g == 0 && Quotient(2 * g * q, 2 * g) == q
    ensures (2 * g * q + g) % (2 * g) == g && (2 * g * q + g) % g == 0 && Quotient(2 * g * q + g, 2 * g) == q
  {
    DivModUnique(2 * g, q, 0);
    DivModUnique(2 * g, q, g);
    assert 2 * g * q == g * (2 * q) && 2 * g * q + g == g * (2 * q + 1);
    DivModUnique(g, 2 * q, 0);
    DivModUnique(g, 2 * q + 1, 0);
  }

  lemma QuotientBelow(m: nat, x: nat)
    requires m > 0
    ensures m * Quotient(x, m) <= x
  {
  }

  lemma OnGrid(g: nat, x: nat)
    requires g > 0 && x % g == 0
    ensures var q := Quotient(x, 2 * g); x == 2 * g * q + (if x % (2 * g) == 0 then 0 else g)
  {
    var k := x / g;
    assert x == g * k;
    if k % 2 == 0 {
      assert x == 2 * g * (k / 2);
      HalfStep(g, k / 2);
    } else {
      assert k == 2 * (k / 2) + 1;
      assert x == 2 * g * (k / 2) + g;
      HalfStep(g, k / 2);
    }
  }

  lemma BandCellIn(w: nat, h: nat, g: nat, r: nat, y: nat, x: nat)
    requires w > 0 && g > 0 && r < 4 && 2 * g * x + 2 * g <= w && 2 * g * y + 2 * g <= h
    ensures var i := BandCell(w, g, r, y, x);
            i < h * w && Band(w, g, i) == r && Quotient(Row(w, i), 2 * g) == y && Quotient(Col(w, i), 2 * g) == x
  {
    HalfStep(g, x);
    HalfStep(g, y);
    At(w, 2 * g * y + OffsetY(g, r), 2 * g * x + OffsetX(g, r));
    RowCol(w, h, BandCell(w, g, r, y, x));
  }

  lemma BandCellOf(w: nat, g: nat, i: nat)
    requires w > 0 && g > 0 && Band(w, g, i) < 4
    ensures i == BandCell(w, g, Band(w, g, i), Quotient(Row(w, i), 2 * g), Quotient(Col(w, i), 2 * g))
  {
    RowCol(w, 0, i);
    OnGrid(g, Row(w, i));
    OnGrid(g, Col(w, i));
  }

  /** The place of cell `i` in the order in which the loops visit its sub-band. */
  function Ordinal(w: nat, g: nat, i: nat): nat
    requires w > 0 && g > 0
  {
    Quotient(Row(w, i), 2 * g) * Quotient(w, 2 * g) + Quotient(Col(w, i), 2 * g)
  }

  /** The loop over a sub-band meets each of its cells once: `(y, x)` gives the cell with ordinal `y * nx + x`. */
  lemma BandWalk(w: nat, h: nat, g: nat, r: nat, y: nat, x: nat)
    requires Splits(w, h, g) && r < 4 && y < Quotient(h, 2 * g) && x < Quotient(w, 2 * g)
    ensures var i := BandCell(w, g, r, y, x);
            i < h * w && Band(w, g, i) == r && Ordinal(w, g, i) == y * Quotient(w, 2 * g) + x
  {
    hide Band, BandCell, Row, Col, Quotient;
    BelowQuotient(x, 2 * g, w);
    BelowQuotient(y, 2 * g, h);
    BandCellIn(w, h, g, r, y, x);
  }

  lemma BandWalkCovers(w: nat, h: nat, g: nat, i: nat)
    requires Splits(w, h, g) && i < h * w && Band(w, g, i) < 4
    ensures var (nx, k) := (Quotient(w, 2 * g), Ordinal(w, g, i));
            && nx > 0 && k < Quotient(h, 2 * g) * nx
            && i == BandCell(w, g, Band(w, g, i), Row(nx, k), Col(nx, k))
  {
    hide Band, BandCell, Row, Col, Quotient;
    var (nx, y, x) := (Quotient(w, 2 * g), Quotient(Row(w, i), 2 * g), Quotient(Col(w, i), 2 * g));
    RowCol(w, h, i);
    BelowQuotient(x, 2 * g, w);
    BelowQuotient(y, 2 * g, h);
    QuotientBelow(2 * g, Col(w, i));
    QuotientBelow(2 * g, Row(w, i));
    At(nx, y, x);
    RowCol(nx, Quotient(h, 2 * g), y * nx + x);
    BandCellOf(w, g, i);
  }

  // ---------- Quantisation ----------

  type uint8 = x: int | 0 <= x < 256

  /** The four tables `zywrleConv`, indexed by the coefficient as an unsigned byte, run by run. */
  function Conv0(u: uint8): int8 {
    0
  }

  function Conv1(u: uint8): int8 {
    if u < 23 then 0 else if u < 40 then 32 else if u < 51 then 48 else if u < 60 then 56 else
    if u < 68 then 64 else if u < 76 then 72 else if u < 82 then 80 else if u < 94 then 88 else
    if u < 99 then 96 else if u < 109 then 104 else if u < 118 then 112 else if u < 128 then 120 else
    if u < 129 then 0 else if u < 139 then -120 else if u < 148 then -112 else if u < 158 then -104 else
    if u < 163 then -96 else if u < 175 then -88 else if u < 181 then -80 else if u < 189 then -72 else
    if u < 197 then -64 else if u < 206 then -56 else if u < 217 then -48 else if u < 234 then -32 else 0
  }

  function Conv2(u: uint8): int8 {
    if u < 32 then 0 else if u < 56 then 48 else if u < 72 then 64 else if u < 85 then 80 else
    if u < 96 then 88 else if u < 107 then 104 else if u < 116 then 112 else if u < 128 then 120 else
    if u < 129 then 0 else if u < 141 then -120 else if u < 150 then -112 else if u < 161 then -104 else
    if u < 172 then -88 else if u < 185 then -80 else if u < 201 then -64 else if u < 225 then -48 else 0
  }

  function Conv3(u: uint8): int8 {
    if u < 64 then 0 else if u < 128 then 88 else if u < 129 then 0 else if u < 193 then -88 else 0
  }

  function Conv(t: nat, u: uint8): int8 {
    match t case 0 => Conv0(u) case 1 => Conv1(u) case 2 => Conv2(u) case _ => Conv3(u)
  }

  /** The table that `zywrleParam[level-1][l][c]` names. */
  function Param(level: nat, l: nat, c: nat): nat {
    match (level, l)
    case (1, 0) => if c == 1 then 2 else 0
    case (2, 0) => if c == 1 then 3 else 0
    case (2, 1) => 1
    case (3, 0) => if c == 1 then 3 else 0
    case (3, 1) => 2
    case (3, 2) => 1
    case _ => 0
  }

  /** The tables the codec ships with, or tables that change nothing. */
  datatype Quantiser = Shipped | Identity

  function Quantise(q: Quantiser, level: nat, l: nat, c: nat, v: int8): int8 {
    if q == Identity then v else Conv(Param(level, l, c), v % 256)
  }

  /** Every table value is an odd-range multiple of 8, negative arguments mirror positive ones, and quantising twice
      is quantising once: a client that quantises what it decodes would change nothing. */
  lemma QuantiseFacts(level: nat, l: nat, c: nat, v: int8)
    ensures var r := Quantise(Shipped, level, l, c, v);
            && -120 <= r <= 120 && r % 8 == 0
            && Quantise(Shipped, level, l, c, r) == r
            && (v != -128 ==> Quantise(Shipped, level, l, c, -v) == -r)
            && (r == 0 || (r > 0 <==> v > 0))
  {
    var t := Param(level, l, c);
    ConvFacts(t, v);
  }

  lemma ConvFacts(t: nat, v: int8)
    ensures var r := Conv(t, v % 256);
            && -120 <= r <= 120 && r % 8 == 0
            && Conv(t, r % 256) == r
            && (v != -128 ==> Conv(t, -v % 256) == -r)
            && (r == 0 || (r > 0 <==> v > 0))
  {
    assert v % 256 == (if v < 0 then v + 256 else v);
  }

  /** The effective output levels of a detail coefficient, 2^(bo-1): none for the colour of the finest level, few for its
      luminance, and more the coarser the level is. */
  function Levels(level: nat, l: nat, c: nat): nat {
    if l == 0 then (if c != 1 then 0 else if level == 1 then 8 else 2)
    else if l + 1 == level then 16 else 8
  }

  /** The square of a magnitude below 128 as one of `n` levels, rounded to the nearest. */
  function Squared(v: nat, n: nat): int
    requires n > 0
  {
    var y := (v * v * n + 0x2000) / 0x4000;
    if y < n then y else n - 1
  }

  /** `k` is the nearest sixteenth to the square root of level `y` of `n`, or the last one. */
  predicate RootOf(k: int, y: int, n: nat) {
    && 0 <= k < 16
    && (k > 0 ==> (2 * k - 1) * (2 * k - 1) * n <= 1024 * y)
    && (k < 15 ==> 1024 * y < (2 * k + 1) * (2 * k + 1) * n)
  }

  /** Quantising with exponent 2 and dequantising again, as the comment on the filter describes it, with five bits of input. */
  predicate Requantised(v: int8, r: int8, n: nat) {
    if n == 0 || v == -128 then r == 0
    else r % 8 == 0 && RootOf(Abs(r) / 8, Squared(Abs(v), n), n) && (r == 0 || (r > 0 <==> v > 0))
  }

  /** The tables are that quantiser. */
  lemma QuantiserIs(level: nat, l: nat, c: nat, v: int8)
    requires 1 <= level <= 3 && l < level && c < 3
    ensures Requantised(v, Quantise(Shipped, level, l, c, v), Levels(level, l, c))
  {
    hide Conv, Requantised;
    assert v % 256 == (if v < 0 then v + 256 else v);
    var t := Param(level, l, c);
    assert t < 4 && Levels(level, l, c) == if t == 0 then 0 else if t == 1 then 16 else if t == 2 then 8 else 2;
    if t == 1 {
      Table1Is(v);
    } else if t == 2 {
      Table2Is(v);
    } else if t == 3 {
      Table3Is(v);
    } else {
      Table0Is(v);
    }
  }

  lemma Table0Is(v: int8)
    ensures Requantised(v, Conv(0, v % 256), 0)
  {
  }

  lemma Table1Is(v: int8)
    ensures Requantised(v, Conv(1, v % 256), 16)
  {
    MagnitudeOf(1, v);
    if v != -128 {
      Magnitude1(Abs(v));
    }
  }

  lemma Table2Is(v: int8)
    ensures Requantised(v, Conv(2, v % 256), 8)
  {
    MagnitudeOf(2, v);
    if v != -128 {
      Magnitude2(Abs(v));
    }
  }

  lemma Table3Is(v: int8)
    ensures Requantised(v, Conv(3, v % 256), 2)
  {
    MagnitudeOf(3, v);
    if v != -128 {
      Magnitude3(Abs(v));
    }
  }

  /** A table value has the magnitude of that of the positive argument. */
  lemma MagnitudeOf(t: nat, v: int8)
    ensures v == -128 && t < 4 ==> Conv(t, v % 256) == 0
    ensures v != -128 ==> var r := Conv(t, v % 256); Abs(r) == Conv(t, Abs(v)) && r % 8 == 0 && (r == 0 || (r > 0 <==> v > 0))
  {
    ConvFacts(t, v);
    ConvFacts(t, if v < 0 && v != -128 then -v else 0);
    assert v % 256 == (if v < 0 then v + 256 else v);
  }

  /** A run of equal table entries is a run of nearest roots if its ends are. */
  lemma InRun(v: nat, first: nat, last: nat, k: nat, n: nat)
    requires first <= v <= last < 128 && n > 0 && k < 16
    requires RootOf(k, Squared(first, n), n) && RootOf(k, Squared(last, n), n)
    ensures RootOf(k, Squared(v, n), n)
  {
    hide Squared;
    SquaredOrder(first, v, n);
    SquaredOrder(v, last, n);
  }

  lemma SquaredOrder(v: nat, w: nat, n: nat)
    requires v <= w && n > 0
    ensures Squared(v, n) <= Squared(w, n)
  {
    Scale(v, v, w);
    Scale(w, v, w);
    Scale(n, v * v, w * w);
  }

  /** The ends of the runs of table 1. */
  lemma Ends1Below()
    ensures RootOf(0, Squared(0, 16), 16) && RootOf(0, Squared(22, 16), 16) && RootOf(4, Squared(23, 16), 16) && RootOf(4, Squared(39, 16), 16)
    ensures RootOf(6, Squared(40, 16), 16) && RootOf(6, Squared(50, 16), 16) && RootOf(7, Squared(51, 16), 16) && RootOf(7, Squared(59, 16), 16)
    ensures RootOf(8, Squared(60, 16), 16) && RootOf(8, Squared(67, 16), 16) && RootOf(9, Squared(68, 16), 16) && RootOf(9, Squared(75, 16), 16)
  {
  }

  lemma Ends1Above()
    ensures RootOf(10, Squared(76, 16), 16) && RootOf(10, Squared(81, 16), 16) && RootOf(11, Squared(82, 16), 16) && RootOf(11, Squared(93, 16), 16)
    ensures RootOf(12, Squared(94, 16), 16) && RootOf(12, Squared(98, 16), 16) && RootOf(13, Squared(99, 16), 16) && RootOf(13, Squared(108, 16), 16)
    ensures RootOf(14, Squared(109, 16), 16) && RootOf(14, Squared(117, 16), 16) && RootOf(15, Squared(118, 16), 16) && RootOf(15, Squared(127, 16), 16)
  {
  }

  lemma Magnitude1(v: nat)
    requires v < 128
    ensures RootOf(Conv1(v) / 8, Squared(v, 16), 16)
  {
    hide RootOf, Squared;
    Ends1Below();
    Ends1Above();
    if v < 23 {
      InRun(v, 0, 22, 0, 16);
    } else if v < 40 {
      InRun(v, 23, 39, 4, 16);
    } else if v < 51 {
      InRun(v, 40, 50, 6, 16);
    } else if v < 60 {
      InRun(v, 51, 59, 7, 16);
    } else if v < 68 {
      InRun(v, 60, 67, 8, 16);
    } else if v < 76 {
      InRun(v, 68, 75, 9, 16);
    } else if v < 82 {
      InRun(v, 76, 81, 10, 16);
    } else if v < 94 {
      InRun(v, 82, 93, 11, 16);
    } else if v < 99 {
      InRun(v, 94, 98, 12, 16);
    } else if v < 109 {
      InRun(v, 99, 108, 13, 16);
    } else if v < 118 {
      InRun(v, 109, 117, 14, 16);
    } else {
      InRun(v, 118, 127, 15, 16);
    }
  }

  /** The ends of the runs of table 2. */
  lemma Ends2Below()
    ensures RootOf(0, Squared(0, 8), 8) && RootOf(0, Squared(31, 8), 8) && RootOf(6, Squared(32, 8), 8) && RootOf(6, Squared(55, 8), 8)
    ensures RootOf(8, Squared(56, 8), 8) && RootOf(8, Squared(71, 8), 8) && RootOf(10, Squared(72, 8), 8) && RootOf(10, Squared(84, 8), 8)
  {
  }

  lemma Ends2Above()
    ensures RootOf(11, Squared(85, 8), 8) && RootOf(11, Squared(95, 8), 8) && RootOf(13, Squared(96, 8), 8) && RootOf(13, Squared(106, 8), 8)
    ensures RootOf(14, Squared(107, 8), 8) && RootOf(14, Squared(115, 8), 8) && RootOf(15, Squared(116, 8), 8) && RootOf(15, Squared(127, 8), 8)
  {
  }

  lemma Magnitude2(v: nat)
    requires v < 128
    ensures RootOf(Conv2(v) / 8, Squared(v, 8), 8)
  {
    hide RootOf, Squared;
    Ends2Below();
    Ends2Above();
    if v < 32 {
      InRun(v, 0, 31, 0, 8);
    } else if v < 56 {
      InRun(v, 32, 55, 6, 8);
    } else if v < 72 {
      InRun(v, 56, 71, 8, 8);
    } else if v < 85 {
      InRun(v, 72, 84, 10, 8);
    } else if v < 96 {
      InRun(v, 85, 95, 11, 8);
    } else if v < 107 {
      InRun(v, 96, 106, 13, 8);
    } else if v < 116 {
      InRun(v, 107, 115, 14, 8);
    } else {
      InRun(v, 116, 127, 15, 8);
    }
  }

  /** The ends of the runs of table 3. */
  lemma Ends3()
    ensures RootOf(0, Squared(0, 2), 2) && RootOf(0, Squared(63, 2), 2) && RootOf(11, Squared(64, 2), 2) && RootOf(11, Squared(127, 2), 2)
  {
  }

  lemma Magnitude3(v: nat)
    requires v < 128
    ensures RootOf(Conv3(v) / 8, Squared(v, 2), 2)
  {
    hide RootOf, Squared;
    Ends3();
    if v < 64 {
      InRun(v, 0, 63, 0, 2);
    } else {
      InRun(v, 64, 127, 11, 2);
    }
  }

  function QuantiseCell(q: Quantiser, level: nat, l: nat, p: Cell): Cell {
    Cell(Quantise(q, level, l, 0, p.c0), Quantise(q, level, l, 1, p.c1), Quantise(q, level, l, 2, p.c2), p.c3)
  }

  // ---------- The filter loops ----------

  function Filter(q: Quantiser, b: seq<Cell>, w: nat, h: nat, level: nat, l: nat): (c: seq<Cell>)
    requires w > 0 && h * w <= |b|
    ensures |c| == |b|
  {
    seq(|b|, i requires 0 <= i < |b| =>
      if i < h * w && 1 <= Band(w, Pow2(l), i) < 4 then QuantiseCell(q, level, l, b[i]) else b[i])
  }

  /** The loops have finished the sub-bands before `r`, and the first `k` cells of sub-band `r`. */
  predicate Reached(w: nat, g: nat, r: nat, k: nat, i: nat)
    requires w > 0 && g > 0
  {
    1 <= Band(w, g, i) < r || (Band(w, g, i) == r && Ordinal(w, g, i) < k)
  }

  ghost predicate FilterUpTo(q: Quantiser, b: seq<Cell>, c: seq<Cell>, w: nat, h: nat, level: nat, l: nat, r: nat, k: nat)
    requires w > 0 && h * w <= |b|
  {
    |c| == |b| &&
    forall i: nat | i < |b| ::
      c[i] == if i < h * w && Reached(w, Pow2(l), r, k, i) then QuantiseCell(q, level, l, b[i]) else b[i]
  }

  lemma FilterStep(q: Quantiser, b: seq<Cell>, c: seq<Cell>, c': seq<Cell>, w: nat, h: nat, level: nat, l: nat,
                   r: nat, y: nat, x: nat)
    requires Splits(w, h, Pow2(l)) && h * w <= |b|
    requires 1 <= r < 4 && y < Quotient(h, 2 * Pow2(l)) && x < Quotient(w, 2 * Pow2(l))
    requires FilterUpTo(q, b, c, w, h, level, l, r, y * Quotient(w, 2 * Pow2(l)) + x)
    requires var i := BandCell(w, Pow2(l), r, y, x);
             i < |b| ==> c' == c[i := QuantiseCell(q, level, l, c[i])]
    ensures BandCell(w, Pow2(l), r, y, x) < |b|
    ensures FilterUpTo(q, b, c', w, h, level, l, r, y * Quotient(w, 2 * Pow2(l)) + x + 1)
  {
    hide Band, Ordinal, BandCell, QuantiseCell, Pow2;
    var (g, nx) := (Pow2(l), Quotient(w, 2 * Pow2(l)));
    var k := y * nx + x;
    BandWalk(w, h, g, r, y, x);
    forall i: nat | i < |b|
      ensures c'[i] == if i < h * w && Reached(w, g, r, k + 1, i) then QuantiseCell(q, level, l, b[i]) else b[i]
    {
      if i < h * w && Band(w, g, i) == r && Ordinal(w, g, i) == k {
        BandWalkCovers(w, h, g, i);
        At(nx, y, x);
      }
    }
  }

  lemma FilterBandDone(q: Quantiser, b: seq<Cell>, c: seq<Cell>, w: nat, h: nat, level: nat, l: nat, r: nat)
    requires Splits(w, h, Pow2(l)) && h * w <= |b| && 1 <= r < 4
    requires FilterUpTo(q, b, c, w, h, level, l, r, Quotient(h, 2 * Pow2(l)) * Quotient(w, 2 * Pow2(l)))
    ensures FilterUpTo(q, b, c, w, h, level, l, r + 1, 0)
  {
    hide Band, Ordinal, BandCell, QuantiseCell, Pow2;
    forall i: nat | i < h * w && Band(w, Pow2(l), i) == r
      ensures Ordinal(w, Pow2(l), i) < Quotient(h, 2 * Pow2(l)) * Quotient(w, 2 * Pow2(l))
    {
      BandWalkCovers(w, h, Pow2(l), i);
    }
  }

  lemma NextInRow(w: nat, g: nat, r: nat, y: nat, x: nat)
    ensures BandCell(w, g, r, y, x + 1) == BandCell(w, g, r, y, x) + 2 * g
  {
    assert 2 * g * (x + 1) == 2 * g * x + 2 * g;
  }

  lemma NextRow(w: nat, h: nat, g: nat, r: nat, y: nat)
    requires Splits(w, h, g)
    ensures BandCell(w, g, r, y + 1, 0) == BandCell(w, g, r, y, Quotient(w, 2 * g)) + (2 * g - 1) * w
  {
    var rows := 2 * g * y + OffsetY(g, r);
    assert 2 * g * Quotient(w, 2 * g) == w;
    assert 2 * g * (y + 1) + OffsetY(g, r) == rows + 2 * g by { assert 2 * g * (y + 1) == 2 * g * y + 2 * g; }
    assert (rows + 2 * g) * w == rows * w + w + (2 * g - 1) * w;
  }

  method FilterWaveletSquare(a: array<Cell>, width: nat, height: nat, level: nat, l: nat, q: Quantiser)
    requires Splits(width, height, Pow2(l)) && height * width <= a.Length
    modifies a
    ensures a[..] == Filter(q, old(a[..]), width, height, level, l)
  {
    hide BandCell, FilterUpTo, Filter, Quotient, Splits, QuantiseCell;
    ghost var b := a[..];
    SplitsPositive(width, height, Pow2(l));
    var s := 2 * Pow2(l);
    var (nx, ny) := (Quotient(width, s), Quotient(height, s));
    FilterStart(q, b, width, height, level, l);
    for r := 1 to 4
      invariant FilterUpTo(q, b, a[..], width, height, level, l, r, 0)
    {
      var pH := 0;
      if r % 2 == 1 {
        pH := pH + Pow2(l);
      }
      if r / 2 % 2 == 1 {
        pH := pH + Pow2(l) * width;
      }
      assert pH == BandCell(width, Pow2(l), r, 0, 0) by { FirstCell(width, Pow2(l), r); }
      for y := 0 to ny
        invariant pH == BandCell(width, Pow2(l), r, y, 0)
        invariant FilterUpTo(q, b, a[..], width, height, level, l, r, y * nx)
      {
        for x := 0 to nx
          invariant pH == BandCell(width, Pow2(l), r, y, x)
          invariant FilterUpTo(q, b, a[..], width, height, level, l, r, y * nx + x)
        {
          BandWalk(width, height, Pow2(l), r, y, x);
          ghost var c := a[..];
          a[pH] := QuantiseCell(q, level, l, a[pH]);
          FilterStep(q, b, c, a[..], width, height, level, l, r, y, x);
          NextInRow(width, Pow2(l), r, y, x);
          pH := pH + s;
        }
        NextRow(width, height, Pow2(l), r, y);
        pH := pH + (s - 1) * width;
        assert (y + 1) * nx == y * nx + nx;
      }
      FilterBandDone(q, b, a[..], width, height, level, l, r);
    }
    FilterEnd(q, b, a[..], width, height, level, l);
  }

  lemma FirstCell(w: nat, g: nat, r: nat)
    ensures BandCell(w, g, r, 0, 0) == (if r % 2 == 1 then g else 0) + (if r / 2 % 2 == 1 then g * w else 0)
  {
  }

  lemma SplitsPositive(w: nat, h: nat, g: nat)
    requires Splits(w, h, g)
    ensures w > 0 && h > 0 && g > 0
  {
  }

  lemma FilterStart(q: Quantiser, b: seq<Cell>, w: nat, h: nat, level: nat, l: nat)
    requires w > 0 && h * w <= |b|
    ensures FilterUpTo(q, b, b, w, h, level, l, 1, 0)
  {
  }

  lemma FilterEnd(q: Quantiser, b: seq<Cell>, c: seq<Cell>, w: nat, h: nat, level: nat, l: nat)
    requires w > 0 && h * w <= |b| && FilterUpTo(q, b, c, w, h, level, l, 4, 0)
    ensures c == Filter(q, b, w, h, level, l)
  {
    hide Band, QuantiseCell;
  }
}
