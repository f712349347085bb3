/** The in-place interleaved wavelet transform of the ZYWRLE codec, without quantisation. */
module ZywrleWavelet {
  import opened Grid
  import opened ZywrleHarr

  // ---------- One line ----------

  /** The first cell of the `k`th pair of a line that starts at `data`; its partner is `d` cells further. */
  function PairAt(data: nat, d: nat, k: nat): nat {
    if k == 0 then data else PairAt(data, d, k - 1) + 2 * d
  }

  lemma PairClosed(data: nat, d: nat, k: nat)
    ensures PairAt(data, d, k) == data + k * (2 * d)
  {
  }

  lemma PairNext(data: nat, d: nat, k: nat)
    ensures PairAt(data, d, k + 1) == PairAt(data, d, k) + 2 * d
  {
  }

  lemma PairsInOrder(data: nat, d: nat, j: nat, k: nat)
    requires j < k
    ensures PairAt(data, d, j) + 2 * d <= PairAt(data, d, k)
  {
    if j + 1 < k {
      PairsInOrder(data, d, j, k - 1);
    }
  }

  /** Cell `i` belongs to none of the first `n` pairs. */
  ghost predicate Unpaired(data: nat, d: nat, n: nat, i: int) {
    forall k: nat | k < n :: i != PairAt(data, d, k) && i != PairAt(data, d, k) + d
  }

  ghost predicate PairDone(b: seq<Cell>, c: seq<Cell>, d: nat, p: nat) {
    p + d < |b| == |c| && c[p] == Low(b[p], b[p + d]) && c[p + d] == High(b[p], b[p + d])
  }

  /** `c` is `b` after the first `n` pairs have gone through `Harr`. */
  ghost predicate LineDone(b: seq<Cell>, c: seq<Cell>, data: nat, d: nat, n: nat) {
    && |c| == |b|
    && (forall k: nat | k < n :: PairDone(b, c, d, PairAt(data, d, k)))
    && (forall i {:trigger Unpaired(data, d, n, i)} | 0 <= i < |b| && Unpaired(data, d, n, i) :: c[i] == b[i])
  }

  lemma LineStart(b: seq<Cell>, data: nat, d: nat, n: nat)
    ensures LineDone(b, b, data, d, 0)
    ensures PairAt(data, d, 0) == data && PairAt(data, d, n) == data + n * (2 * d)
  {
    PairClosed(data, d, n);
  }

  lemma LineStep(b: seq<Cell>, c: seq<Cell>, c': seq<Cell>, data: nat, d: nat, n: nat)
    requires d > 0 && LineDone(b, c, data, d, n)
    requires PairAt(data, d, n) + d < |b|
    requires var p := PairAt(data, d, n); c' == c[p := Low(c[p], c[p + d])][p + d := High(c[p], c[p + d])]
    ensures LineDone(b, c', data, d, n + 1)
  {
    hide PairAt, Low, High, Unpaired, PairDone;
    NextUnpaired(data, d, n);
    PairStays(b, c, c', data, d, n);
    forall i | 0 <= i < |b| && Unpaired(data, d, n + 1, i) ensures c'[i] == b[i] {
      UnpairedLess(data, d, n, i);
    }
  }

  lemma NextUnpaired(data: nat, d: nat, n: nat)
    requires d > 0
    ensures Unpaired(data, d, n, PairAt(data, d, n)) && Unpaired(data, d, n, PairAt(data, d, n) + d)
  {
    hide PairAt;
    forall k: nat | k < n ensures PairAt(data, d, k) + 2 * d <= PairAt(data, d, n) { PairsInOrder(data, d, k, n); }
  }

  lemma UnpairedLess(data: nat, d: nat, n: nat, i: int)
    requires Unpaired(data, d, n + 1, i)
    ensures Unpaired(data, d, n, i) && i != PairAt(data, d, n) && i != PairAt(data, d, n) + d
  {
    hide PairAt;
  }

  lemma PairStays(b: seq<Cell>, c: seq<Cell>, c': seq<Cell>, data: nat, d: nat, n: nat)
    requires d > 0 && LineDone(b, c, data, d, n)
    requires PairAt(data, d, n) + d < |b|
    requires c[PairAt(data, d, n)] == b[PairAt(data, d, n)] && c[PairAt(data, d, n) + d] == b[PairAt(data, d, n) + d]
    requires var p := PairAt(data, d, n); c' == c[p := Low(c[p], c[p + d])][p + d := High(c[p], c[p + d])]
    ensures forall k: nat | k < n + 1 :: PairDone(b, c', d, PairAt(data, d, k))
  {
    hide PairAt, Low, High, Unpaired;
    forall k: nat | k < n + 1 ensures PairDone(b, c', d, PairAt(data, d, k)) {
      if k < n {
        PairsInOrder(data, d, k, n);
        assert PairDone(b, c, d, PairAt(data, d, k));
      }
    }
  }

  /** `ofs`, in cells: the distance between the two cells of a pair. */
  function Offset(l: nat, skip: nat): (d: nat)
    requires skip > 0
    ensures d > 0
  {
    assert Pow2(l) * skip >= 1 * skip;
    Pow2(l) * skip
  }

  /** `size >> (l + 1)` */
  function Pairs(size: nat, l: nat): nat {
    Quotient(size, Pow2(l + 1))
  }

  /** `WaveletLevel` on the cells from `data`: each pair of the line goes through `Harr`, all else stays. */
  method WaveletLevel(a: array<Cell>, data: nat, size: nat, l: nat, skip: nat)
    requires skip > 0
    requires PairAt(data, Offset(l, skip), Pairs(size, l)) < a.Length + Offset(l, skip)
    modifies a
    ensures LineDone(old(a[..]), a[..], data, Offset(l, skip), Pairs(size, l))
  {
    hide PairAt, LineDone, Offset, Pairs;
    ghost var n := Pairs(size, l);
    var ofs := Offset(l, skip);
    var s := 2 * ofs;
    var px0 := data;
    var end := px0 + Pairs(size, l) * s;
    ghost var k: nat := 0;
    LineStart(a[..], data, ofs, n);
    while px0 < end
      invariant k <= n && px0 == PairAt(data, ofs, k) && end == PairAt(data, ofs, n)
      invariant LineDone(old(a[..]), a[..], data, ofs, k)
      decreases end - px0
    {
      if k == n { assert false; }
      PairsInOrder(data, ofs, k, n);
      PairNext(data, ofs, k);
      ghost var c := a[..];
      HarrCell(a, px0, px0 + ofs);
      LineStep(old(a[..]), c, a[..], data, ofs, k);
      px0 := px0 + s;
      k := k + 1;
    }
    if k < n { PairsInOrder(data, ofs, k, n); }
  }

  // ---------- One pass over the image, along its rows or along its columns ----------

  datatype Axis = Across | Down

  /** The row or the column on which cell `i` lies, and where on it. */
  function LineOf(axis: Axis, w: nat, i: nat): nat
    requires w > 0
  {
    if axis == Across then Row(w, i) else Col(w, i)
  }

  function Along(axis: Axis, w: nat, i: nat): nat
    requires w > 0
  {
    if axis == Across then Col(w, i) else Row(w, i)
  }

  function Position(axis: Axis, w: nat, line: nat, along: nat): nat {
    if axis == Across then line * w + along else along * w + line
  }

  /** The distance between the cells of a pair, for pixels that lie `g` apart. */
  function Distance(axis: Axis, w: nat, g: nat): nat {
    if axis == Across then g else g * w
  }

  predicate IsFirst(axis: Axis, w: nat, g: nat, i: nat)
    requires w > 0 && g > 0
  {
    LineOf(axis, w, i) % g == 0 && Along(axis, w, i) % (2 * g) == 0
  }

  predicate IsSecond(axis: Axis, w: nat, g: nat, i: nat)
    requires w > 0 && g > 0
  {
    LineOf(axis, w, i) % g == 0 && Along(axis, w, i) % (2 * g) == g
  }

  /** Cell `i` after the pass: a function of the cell and of its partner, if it has one. */
  function PassCell(axis: Axis, b: seq<Cell>, w: nat, h: nat, g: nat, i: nat): Cell
    requires w > 0 && g > 0 && h * w <= |b| && i < |b|
  {
    var d := Distance(axis, w, g);
    if i < h * w && IsFirst(axis, w, g, i) && i + d < h * w then Low(b[i], b[i + d])
    else if i < h * w && IsSecond(axis, w, g, i) && d <= i then High(b[i - d], b[i])
    else b[i]
  }

  function Pass(axis: Axis, b: seq<Cell>, w: nat, h: nat, g: nat): (c: seq<Cell>)
    requires w > 0 && g > 0 && h * w <= |b|
    ensures |c| == |b|
  {
    seq(|b|, i requires 0 <= i < |b| => PassCell(axis, b, w, h, g, i))
  }

  lemma PositionInverse(axis: Axis, w: nat, h: nat, line: nat, along: nat)
    requires w > 0
    requires if axis == Across then line < h && along < w else line < w && along < h
    ensures var i := Position(axis, w, line, along);
            LineOf(axis, w, i) == line && Along(axis, w, i) == along && i < h * w
  {
    var (y, x) := if axis == Across then (line, along) else (along, line);
    At(w, y, x);
    RowCol(w, h, y * w + x);
  }

  lemma PositionOf(axis: Axis, w: nat, h: nat, i: nat)
    requires w > 0 && i < h * w
    ensures i == Position(axis, w, LineOf(axis, w, i), Along(axis, w, i))
    ensures LineOf(axis, w, i) < (if axis == Across then h else w) && Along(axis, w, i) < (if axis == Across then w else h)
  {
    RowCol(w, h, i);
  }

  lemma DistancePositive(axis: Axis, w: nat, g: nat)
    requires w > 0 && g > 0
    ensures Distance(axis, w, g) > 0
  {
    assert g * w >= 1 * w;
  }

  lemma Shift(axis: Axis, w: nat, line: nat, along: nat, g: nat)
    ensures Position(axis, w, line, along + g) == Position(axis, w, line, along) + Distance(axis, w, g)
  {
    assert (along + g) * w == along * w + g * w;
  }

  /** The partner of a first cell is a second cell on the same line. */
  lemma PartnerOfFirst(axis: Axis, w: nat, h: nat, g: nat, i: nat)
    requires Splits(w, h, g) && i < h * w && IsFirst(axis, w, g, i)
    ensures var p := i + Distance(axis, w, g);
            p < h * w && IsSecond(axis, w, g, p) && LineOf(axis, w, p) == LineOf(axis, w, i)
  {
    hide Position, Distance, LineOf, Along;
    var (line, along) := (LineOf(axis, w, i), Along(axis, w, i));
    PositionOf(axis, w, h, i);
    MultipleGap(2 * g, along, if axis == Across then w else h);
    PositionInverse(axis, w, h, line, along + g);
    Shift(axis, w, line, along, g);
    AddHalf(along, g);
  }

  /** The partner of a second cell is a first cell on the same line. */
  lemma PartnerOfSecond(axis: Axis, w: nat, h: nat, g: nat, i: nat)
    requires Splits(w, h, g) && i < h * w && IsSecond(axis, w, g, i)
    ensures var p := i - Distance(axis, w, g);
            0 <= p && IsFirst(axis, w, g, p) && LineOf(axis, w, p) == LineOf(axis, w, i)
  {
    hide Position, Distance, LineOf, Along;
    var (line, along) := (LineOf(axis, w, i), Along(axis, w, i));
    PositionOf(axis, w, h, i);
    SubHalf(along, g);
    PositionInverse(axis, w, h, line, along - g);
    Shift(axis, w, line, along - g, g);
  }

  lemma AddHalf(x: nat, g: nat)
    requires g > 0 && x % (2 * g) == 0
    ensures (x + g) % (2 * g) == g
  {
    DivModUnique(2 * g, x / (2 * g), g);
  }

  lemma SubHalf(x: nat, g: nat)
    requires g > 0 && x % (2 * g) == g
    ensures x >= g && (x - g) % (2 * g) == 0
  {
    var q := x / (2 * g);
    assert x == 2 * g * q + g;
    DivModUnique(2 * g, q, 0);
  }

  /** The first `n` cells are fine. */
  ghost predicate AllFine(b: seq<Cell>, n: nat, my: int, muv: int)
    requires my > 0 && muv > 0
  {
    n <= |b| && forall i | 0 <= i < n :: Fine(b[i], my, muv)
  }

  /** A pass undoes itself on coefficients in the odd range, and keeps range and granularity. */
  lemma PassSelfInverse(axis: Axis, b: seq<Cell>, w: nat, h: nat, g: nat)
    requires Splits(w, h, g) && AllFine(b, h * w, 1, 1)
    ensures Pass(axis, Pass(axis, b, w, h, g), w, h, g) == b
  {
    hide Low, High, LineOf, Along, Distance;
    var c := Pass(axis, b, w, h, g);
    var d := Distance(axis, w, g);
    forall i: nat | i < |b| ensures PassCell(axis, c, w, h, g, i) == b[i] {
      if i < h * w {
        if IsFirst(axis, w, g, i) {
          PartnerOfFirst(axis, w, h, g, i);
          assert Fine(b[i], 1, 1) && Fine(b[i + d], 1, 1);
          CellsSelfInverse(b[i], b[i + d]);
        } else if IsSecond(axis, w, g, i) {
          PartnerOfSecond(axis, w, h, g, i);
          assert Fine(b[i - d], 1, 1) && Fine(b[i], 1, 1);
          CellsSelfInverse(b[i - d], b[i]);
        }
      }
    }
  }

  lemma PassKeeps(axis: Axis, b: seq<Cell>, w: nat, h: nat, g: nat, my: int, muv: int)
    requires w > 0 && g > 0 && IsGranularity(my) && IsGranularity(muv) && AllFine(b, h * w, my, muv)
    ensures AllFine(Pass(axis, b, w, h, g), h * w, my, muv)
  {
    hide Low, High, IsFirst, IsSecond, Distance, Fine;
    var c := Pass(axis, b, w, h, g);
    var d := Distance(axis, w, g);
    forall i: nat | i < h * w ensures Fine(c[i], my, muv) {
      if IsFirst(axis, w, g, i) && i + d < h * w {
        CellsKeep(b[i], b[i + d], my, muv);
      } else if IsSecond(axis, w, g, i) && d <= i {
        CellsKeep(b[i - d], b[i], my, muv);
      }
    }
  }

  // ---------- The loops that run a pass line by line ----------

  /** The length of a line, and the number of lines. */
  function Size(axis: Axis, w: nat, h: nat): nat {
    if axis == Across then w else h
  }

  function Lines(axis: Axis, w: nat, h: nat): nat {
    if axis == Across then h else w
  }

  /** The pass has reached line `line`: the cells before it have their new value. */
  ghost predicate PassUpTo(axis: Axis, b: seq<Cell>, c: seq<Cell>, w: nat, h: nat, g: nat, line: nat)
    requires w > 0 && g > 0 && h * w <= |b|
  {
    |c| == |b| &&
    forall i: nat | i < |b| :: c[i] == if i < h * w && LineOf(axis, w, i) < line then PassCell(axis, b, w, h, g, i) else b[i]
  }

  /** Where the `k`th pair of a line lies. */
  lemma LinePairs(axis: Axis, w: nat, h: nat, g: nat, line: nat, k: nat)
    requires Splits(w, h, g) && line < Lines(axis, w, h) && line % g == 0
    requires k < Quotient(Size(axis, w, h), 2 * g)
    ensures var d := Distance(axis, w, g);
            var p := PairAt(Position(axis, w, line, 0), d, k);
            && p + d < h * w
            && IsFirst(axis, w, g, p) && IsSecond(axis, w, g, p + d)
            && LineOf(axis, w, p) == line && LineOf(axis, w, p + d) == line
            && p == Position(axis, w, line, 2 * g * k)
  {
    hide LineOf, Along, PairAt, Quotient;
    var along := 2 * g * k;
    PairClosed(Position(axis, w, line, 0), Distance(axis, w, g), k);
    Commute(k, g, w);
    BelowQuotient(k, 2 * g, Size(axis, w, h));
    PositionInverse(axis, w, h, line, along);
    PartnerOfFirst(axis, w, h, g, Position(axis, w, line, along));
  }

  lemma Commute(k: nat, g: nat, w: nat)
    ensures k * (2 * (g * w)) == 2 * g * k * w && k * (2 * g) == 2 * g * k
  {
  }

  /** A first cell on the line is the first cell of a pair. */
  lemma PairOfFirst(axis: Axis, w: nat, h: nat, g: nat, i: nat)
    requires Splits(w, h, g) && i < h * w && IsFirst(axis, w, g, i)
    ensures var k := Quotient(Along(axis, w, i), 2 * g);
            && k < Quotient(Size(axis, w, h), 2 * g)
            && LineOf(axis, w, i) < Lines(axis, w, h)
            && i == PairAt(Position(axis, w, LineOf(axis, w, i), 0), Distance(axis, w, g), k)
  {
    hide LineOf, Along, Position, PairAt, Distance;
    var along := Along(axis, w, i);
    var k := Quotient(along, 2 * g);
    PositionOf(axis, w, h, i);
    assert along == 2 * g * k;
    BelowQuotient(k, 2 * g, Size(axis, w, h));
    LinePairs(axis, w, h, g, LineOf(axis, w, i), k);
  }

  /** Running `WaveletLevel` on one line takes the pass to the next line of the grid. */
  lemma PassLine(axis: Axis, b0: seq<Cell>, b: seq<Cell>, c: seq<Cell>, w: nat, h: nat, g: nat, line: nat)
    requires Splits(w, h, g) && h * w <= |b0| && line < Lines(axis, w, h) && line % g == 0
    requires PassUpTo(axis, b0, b, w, h, g, line)
    requires LineDone(b, c, Position(axis, w, line, 0), Distance(axis, w, g), Quotient(Size(axis, w, h), 2 * g))
    ensures PassUpTo(axis, b0, c, w, h, g, line + g)
  {
    hide Low, High, LineOf, Along, Distance, Position, PairAt, Size, Quotient, Lines, Unpaired;
    var (start, d, n) := (Position(axis, w, line, 0), Distance(axis, w, g), Quotient(Size(axis, w, h), 2 * g));
    forall i: nat | i < |b0|
      ensures c[i] == if i < h * w && LineOf(axis, w, i) < line + g then PassCell(axis, b0, w, h, g, i) else b0[i]
    {
      if i < h * w && LineOf(axis, w, i) == line && IsFirst(axis, w, g, i) {
        PairOfFirst(axis, w, h, g, i);
        PartnerOfFirst(axis, w, h, g, i);
        assert PairDone(b, c, d, i);
      } else if i < h * w && LineOf(axis, w, i) == line && IsSecond(axis, w, g, i) {
        PartnerOfSecond(axis, w, h, g, i);
        PairOfFirst(axis, w, h, g, i - d);
        assert PairDone(b, c, d, i - d);
      } else {
        NotOnLine(axis, w, h, g, line, i);
        if i < h * w && line < LineOf(axis, w, i) < line + g && LineOf(axis, w, i) % g == 0 {
          MultipleGap(g, line, LineOf(axis, w, i));
        }
      }
    }
  }

  /** A cell that no pair of a line holds. */
  lemma NotOnLine(axis: Axis, w: nat, h: nat, g: nat, line: nat, i: nat)
    requires Splits(w, h, g) && line < Lines(axis, w, h) && line % g == 0
    requires !(i < h * w && LineOf(axis, w, i) == line && (IsFirst(axis, w, g, i) || IsSecond(axis, w, g, i)))
    ensures Unpaired(Position(axis, w, line, 0), Distance(axis, w, g), Quotient(Size(axis, w, h), 2 * g), i)
  {
    hide LineOf, Along, Distance, Position, PairAt, Size, Quotient, Lines;
    var (start, d, n) := (Position(axis, w, line, 0), Distance(axis, w, g), Quotient(Size(axis, w, h), 2 * g));
    forall k: nat | k < n ensures i != PairAt(start, d, k) && i != PairAt(start, d, k) + d {
      LinePairs(axis, w, h, g, line, k);
    }
  }

  lemma PassComplete(axis: Axis, b: seq<Cell>, c: seq<Cell>, w: nat, h: nat, g: nat, line: nat)
    requires Splits(w, h, g) && h * w <= |b| && PassUpTo(axis, b, c, w, h, g, line) && line >= Lines(axis, w, h)
    ensures c == Pass(axis, b, w, h, g)
  {
    hide Low, High, LineOf, Along;
    forall i: nat | i < |b| ensures c[i] == Pass(axis, b, w, h, g)[i] {
      if i < h * w {
        PositionOf(axis, w, h, i);
      }
    }
  }
}
