/** The order in which the coefficients of a tile are packed: it meets every cell of the image exactly once. */
module ZywrleWalk {
  import opened Grid
  import opened ZywrleFilter
  import opened ZywrleTransform
  import opened ZywrleFilterLast

  /** The cells of sub-band `r`, row by row. */
  function BandList(w: nat, h: nat, g: nat, r: nat): (s: seq<nat>)
    requires g > 0
    ensures |s| == Quotient(h, 2 * g) * Quotient(w, 2 * g)
  {
    var (ny, nx) := (Quotient(h, 2 * g), Quotient(w, 2 * g));
    seq(ny * nx, k requires 0 <= k < ny * nx => if nx == 0 then 0 else BandCell(w, g, r, Row(nx, k), Col(nx, k)))
  }

  /** The sub-bands 3, 2 and 1 of levels `l` and up, and sub-band 0 of the last level. */
  function Walk(w: nat, h: nat, level: nat, l: nat): seq<nat>
    decreases level - l
  {
    var g := Pow2(l);
    BandList(w, h, g, 3) + BandList(w, h, g, 2) + BandList(w, h, g, 1) +
    if l + 1 < level then Walk(w, h, level, l + 1) else BandList(w, h, g, 0)
  }

  lemma PositiveFactor(a: nat, b: nat, k: nat)
    requires k < a * b
    ensures a > 0 && b > 0
  {
  }

  lemma BandListAt(w: nat, h: nat, g: nat, r: nat, k: nat)
    requires Splits(w, h, g) && r < 4 && k < |BandList(w, h, g, r)|
    ensures var i := BandList(w, h, g, r)[k]; i < h * w && Band(w, g, i) == r && Ordinal(w, g, i) == k
  {
    hide Band, Ordinal, BandCell;
    var (ny, nx) := (Quotient(h, 2 * g), Quotient(w, 2 * g));
    PositiveFactor(ny, nx, k);
    RowCol(nx, ny, k);
    BandWalk(w, h, g, r, Row(nx, k), Col(nx, k));
  }

  lemma BandListCovers(w: nat, h: nat, g: nat, i: nat)
    requires Splits(w, h, g) && i < h * w && Band(w, g, i) < 4
    ensures var (s, k) := (BandList(w, h, g, Band(w, g, i)), Ordinal(w, g, i)); k < |s| && s[k] == i
  {
    hide Band, Ordinal, BandCell;
    BandWalkCovers(w, h, g, i);
  }

  /** The place of cell `i` in the walk. */
  function Slot(w: nat, h: nat, level: nat, l: nat, i: nat): nat
    requires w > 0
    decreases level - l
  {
    var (r, n) := (Band(w, Pow2(l), i), Quotient(h, 2 * Pow2(l)) * Quotient(w, 2 * Pow2(l)));
    if r == 3 then Ordinal(w, Pow2(l), i)
    else if r == 2 then n + Ordinal(w, Pow2(l), i)
    else if r == 1 then 2 * n + Ordinal(w, Pow2(l), i)
    else 3 * n + if l + 1 < level then Slot(w, h, level, l + 1, i) else Ordinal(w, Pow2(l), i)
  }

  /** A cell in sub-band 0 is on the grid of the next level. */
  lemma BandZeroIsCoarser(w: nat, l: nat, i: nat)
    requires w > 0
    ensures Band(w, Pow2(l), i) == 0 <==> Band(w, Pow2(l + 1), i) < 4
  {
    hide Row, Col;
    var g := Pow2(l);
    if Band(w, 2 * g, i) < 4 {
      MultipleOfMultiple(2 * g, 2 * g, 2 * g) by { DivModUnique(2 * g, 1, 0); }
      CoarseIsBandZero(w, g, 2 * g, i);
    }
  }

  /** Every cell of the grid is visited, at its slot. */
  lemma {:induction false} WalkCovers(w: nat, h: nat, level: nat, l: nat, i: nat)
    requires Aligned(w, h, level) && l < level && i < h * w && Band(w, Pow2(l), i) < 4
    ensures var k := Slot(w, h, level, l, i); k < |Walk(w, h, level, l)| && Walk(w, h, level, l)[k] == i
    decreases level - l
  {
    hide Band, Ordinal, BandList, Pow2, Quotient, Splits, Slot;
    LevelSplits(w, h, level, l);
    SlotIs(w, h, level, l, i);
    var (g, r, k) := (Pow2(l), Band(w, Pow2(l), i), Ordinal(w, Pow2(l), i));
    BandListCovers(w, h, g, i);
    var rest := if l + 1 < level then Walk(w, h, level, l + 1) else BandList(w, h, g, 0);
    if r == 0 {
      if l + 1 < level {
        BandZeroIsCoarser(w, l, i);
        WalkCovers(w, h, level, l + 1, i);
      }
      InFourth(BandList(w, h, g, 3), BandList(w, h, g, 2), BandList(w, h, g, 1), rest,
               if l + 1 < level then Slot(w, h, level, l + 1, i) else k);
    } else {
      InThree(BandList(w, h, g, 3), BandList(w, h, g, 2), BandList(w, h, g, 1), rest, 3 - r, k);
    }
  }

  lemma SlotIs(w: nat, h: nat, level: nat, l: nat, i: nat)
    requires w > 0
    ensures var (r, n, k) := (Band(w, Pow2(l), i), |BandList(w, h, Pow2(l), 3)|, Ordinal(w, Pow2(l), i));
            && |BandList(w, h, Pow2(l), 2)| == |BandList(w, h, Pow2(l), 1)| == n
            && Slot(w, h, level, l, i) ==
               if 1 <= r <= 3 then (3 - r) * n + k else 3 * n + if l + 1 < level then Slot(w, h, level, l + 1, i) else k
  {
    hide Band, Ordinal, BandList, Pow2, Quotient;
  }

  lemma InThree(a: seq<nat>, b: seq<nat>, c: seq<nat>, d: seq<nat>, part: nat, k: nat)
    requires part < 3 && |a| == |b| == |c| && k < |a|
    ensures part * |a| + k < |a + b + c + d|
    ensures (a + b + c + d)[part * |a| + k] == (if part == 0 then a else if part == 1 then b else c)[k]
  {
  }

  lemma InFourth(a: seq<nat>, b: seq<nat>, c: seq<nat>, d: seq<nat>, k: nat)
    requires |a| == |b| == |c| && k < |d|
    ensures 3 * |a| + k < |a + b + c + d| && (a + b + c + d)[3 * |a| + k] == d[k]
  {
  }

  /** No cell is visited twice: a cell determines the slot at which it is visited. */
  lemma {:induction false} WalkOnce(w: nat, h: nat, level: nat, l: nat, k: nat)
    requires Aligned(w, h, level) && l < level && k < |Walk(w, h, level, l)|
    ensures var i := Walk(w, h, level, l)[k]; i < h * w && Band(w, Pow2(l), i) < 4 && Slot(w, h, level, l, i) == k
    decreases level - l
  {
    hide Band, Ordinal, BandList, Pow2, Quotient, Splits;
    LevelSplits(w, h, level, l);
    var n := |BandList(w, h, Pow2(l), 3)|;
    if k < n {
      BandListAt(w, h, Pow2(l), 3, k);
    } else if k < 2 * n {
      BandListAt(w, h, Pow2(l), 2, k - n);
    } else if k < 3 * n {
      BandListAt(w, h, Pow2(l), 1, k - 2 * n);
    } else if l + 1 < level {
      WalkOnce(w, h, level, l + 1, k - 3 * n);
      BandZeroIsCoarser(w, l, Walk(w, h, level, l + 1)[k - 3 * n]);
    } else {
      BandListAt(w, h, Pow2(l), 0, k - 3 * n);
    }
  }

  /** The walk of a tile of four by four cells at level 2: the odd columns of the odd rows come first, and the corner last. */
  lemma WalkOrder()
    ensures Walk(4, 4, 2, 0) == [5, 7, 13, 15, 4, 6, 12, 14, 1, 3, 9, 11] + [10, 8, 2, 0]
  {
    hide Walk, BandList;
    assert Pow2(1) == 2;
    LastBands(3, 10);
    LastBands(2, 8);
    LastBands(1, 2);
    LastBands(0, 0);
    FirstBands(3, 5, 4);
    FirstBands(2, 4, 4);
    FirstBands(1, 1, 4);
    WalkIs(4, 4, 2, 0);
    WalkIs(4, 4, 2, 1);
  }

  lemma WalkIs(w: nat, h: nat, level: nat, l: nat)
    ensures var g := Pow2(l);
            Walk(w, h, level, l) == BandList(w, h, g, 3) + BandList(w, h, g, 2) + BandList(w, h, g, 1)
                                  + if l + 1 < level then Walk(w, h, level, l + 1) else BandList(w, h, g, 0)
  {
    hide BandList;
  }

  lemma LastBands(r: nat, i: nat)
    requires r < 4 && i == (if r / 2 == 1 then 8 else 0) + (if r % 2 == 1 then 2 else 0)
    ensures BandList(4, 4, 2, r) == [i]
  {
    assert Quotient(4, 4) == 1 && Row(1, 0) == 0 && Col(1, 0) == 0;
  }

  lemma FirstBands(r: nat, i: nat, w: nat)
    requires r < 4 && w == 4 && i == (if r / 2 == 1 then 4 else 0) + (if r % 2 == 1 then 1 else 0)
    ensures BandList(w, 4, 1, r) == [i, i + 2, i + 8, i + 10]
  {
    assert Quotient(4, 2) == 2 && Row(2, 0) == 0 && Col(2, 0) == 0 && Row(2, 1) == 0 && Col(2, 1) == 1;
    assert Row(2, 2) == 1 && Col(2, 2) == 0 && Row(2, 3) == 1 && Col(2, 3) == 1;
  }

  /** The walk has as many slots as its grid has cells. */
  lemma {:induction false} WalkLength(w: nat, h: nat, level: nat, l: nat)
    requires Aligned(w, h, level) && l < level
    ensures |Walk(w, h, level, l)| == Quotient(h, Pow2(l)) * Quotient(w, Pow2(l))
    decreases level - l
  {
    hide BandList, Pow2, Quotient;
    LevelSplits(w, h, level, l);
    var (ny, nx) := (Quotient(h, 2 * Pow2(l)), Quotient(w, 2 * Pow2(l)));
    HalfQuotient(w, Pow2(l));
    HalfQuotient(h, Pow2(l));
    assert 2 * ny * (2 * nx) == 4 * (ny * nx);
    if l + 1 < level {
      WalkLength(w, h, level, l + 1);
    }
  }

  lemma HalfQuotient(x: nat, g: nat)
    requires g > 0 && x % (2 * g) == 0
    ensures Quotient(x, g) == 2 * Quotient(x, 2 * g)
  {
    var q := Quotient(x, 2 * g);
    assert x == g * (2 * q);
    DivModUnique(g, 2 * q, 0);
  }
}
