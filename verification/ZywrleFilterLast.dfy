/** Filtering inside the level loop of `Wavelet` gives what filtering every sub-band after the last level would. */
module ZywrleFilterLast {
  import opened Grid
  import opened ZywrleHarr
  import opened ZywrleFilter
  import opened ZywrleWavelet
  import opened ZywrleTransform

  /** Filters the sub-bands of levels `l` and up of an image whose transform is complete. */
  function FilterEach(q: Quantiser, b: seq<Cell>, w: nat, h: nat, level: nat, l: nat): (c: seq<Cell>)
    requires w > 0 && h * w <= |b| && l <= level
    ensures |c| == |b|
    decreases level - l
  {
    if l == level then b else Filter(q, FilterEach(q, b, w, h, level, l + 1), w, h, level, l)
  }

  lemma CoarserGrid(l: nat, m: nat)
    requires l < m < 3
    ensures Pow2(m) % (2 * Pow2(l)) == 0
  {
    hide Pow2;
    PowersOfTwo();
  }

  lemma MultipleOfMultiple(x: nat, n: nat, m: nat)
    requires m > 0 && n > 0 && n % m == 0 && x % n == 0
    ensures x % m == 0
  {
    var (k, j) := (Quotient(n, m), Quotient(x, n));
    assert n == m * k && x == n * j;
    assert x == m * (k * j);
    DivModUnique(m, k * j, 0);
  }

  /** The cells on the grid of step `g'` are in sub-band 0 of every finer grid. */
  lemma CoarseIsBandZero(w: nat, g: nat, g': nat, i: nat)
    requires w > 0 && g > 0 && g' > 0 && g' % (2 * g) == 0 && Band(w, g', i) < 4
    ensures Band(w, g, i) == 0
  {
    hide Row, Col;
    MultipleOfMultiple(Row(w, i), g', 2 * g);
    MultipleOfMultiple(Col(w, i), g', 2 * g);
    MultipleOfMultiple(Row(w, i), 2 * g, g) by { DivModUnique(g, 2, 0); }
    MultipleOfMultiple(Col(w, i), 2 * g, g) by { DivModUnique(g, 2, 0); }
  }

  /** The cells of the pairs of a pass are on its grid. */
  lemma PairsOnGrid(axis: Axis, w: nat, g: nat, i: nat)
    requires w > 0 && g > 0 && (IsFirst(axis, w, g, i) || IsSecond(axis, w, g, i))
    ensures Band(w, g, i) < 4
  {
    hide Row, Col;
    OnGridHalf(g, Along(axis, w, i));
  }

  lemma OnGridHalf(g: nat, x: nat)
    requires g > 0 && (x % (2 * g) == 0 || x % (2 * g) == g)
    ensures x % g == 0
  {
    HalfStep(g, Quotient(x, 2 * g));
    assert x == 2 * g * Quotient(x, 2 * g) + x % (2 * g);
  }

  lemma PassFilter(axis: Axis, q: Quantiser, b: seq<Cell>, w: nat, h: nat, level: nat, l: nat, m: nat)
    requires Splits(w, h, Pow2(m)) && h * w <= |b| && l < m < 3
    ensures Pass(axis, Filter(q, b, w, h, level, l), w, h, Pow2(m)) == Filter(q, Pass(axis, b, w, h, Pow2(m)), w, h, level, l)
  {
    hide Band, IsFirst, IsSecond, Distance, Low, High, QuantiseCell, Pow2, Splits;
    var (g, g') := (Pow2(l), Pow2(m));
    SplitsPositive(w, h, g');
    var d := Distance(axis, w, g');
    var c := Filter(q, b, w, h, level, l);
    CoarserGrid(l, m);
    forall i: nat | i < |b|
      ensures Pass(axis, c, w, h, g')[i] == Filter(q, Pass(axis, b, w, h, g'), w, h, level, l)[i]
    {
      if i < h * w && IsFirst(axis, w, g', i) {
        PartnerOfFirst(axis, w, h, g', i);
        PairsOnGrid(axis, w, g', i);
        CoarseIsBandZero(w, g, g', i);
        PairsOnGrid(axis, w, g', i + d);
        CoarseIsBandZero(w, g, g', i + d);
      } else if i < h * w && IsSecond(axis, w, g', i) {
        PartnerOfSecond(axis, w, h, g', i);
        PairsOnGrid(axis, w, g', i);
        CoarseIsBandZero(w, g, g', i);
        PairsOnGrid(axis, w, g', i - d);
        CoarseIsBandZero(w, g, g', i - d);
      }
    }
  }

  lemma FilterFilter(q: Quantiser, b: seq<Cell>, w: nat, h: nat, level: nat, l: nat, m: nat)
    requires w > 0 && h * w <= |b| && l < m < 3
    ensures Filter(q, Filter(q, b, w, h, level, l), w, h, level, m) == Filter(q, Filter(q, b, w, h, level, m), w, h, level, l)
  {
    hide Band, QuantiseCell, Pow2;
    CoarserGrid(l, m);
    forall i: nat | i < h * w && Band(w, Pow2(m), i) < 4 ensures Band(w, Pow2(l), i) == 0 {
      CoarseIsBandZero(w, Pow2(l), Pow2(m), i);
    }
  }

  /** A filter of a finer level moves past levels `m` and up. */
  lemma {:induction false} ForwardFilter(q: Quantiser, b: seq<Cell>, w: nat, h: nat, level: nat, l: nat, m: nat)
    requires Aligned(w, h, level) && h * w <= |b| && l < m <= level
    ensures Forward(q, Filter(q, b, w, h, level, l), w, h, level, m) == Filter(q, Forward(q, b, w, h, level, m), w, h, level, l)
    decreases level - m
  {
    hide Pass, Filter, Pow2, Splits;
    if m < level {
      LevelSplits(w, h, level, m);
      PassFilter(Across, q, b, w, h, level, l, m);
      PassFilter(Down, q, Pass(Across, b, w, h, Pow2(m)), w, h, level, l, m);
      var c := Level(b, w, h, m);
      FilterFilter(q, c, w, h, level, l, m);
      ForwardFilter(q, Filter(q, c, w, h, level, m), w, h, level, l, m + 1);
    }
  }

  /** The interleaved filter of the encoder equals one filter run after the complete transform. */
  lemma {:induction false} FilterLast(q: Quantiser, b: seq<Cell>, w: nat, h: nat, level: nat, l: nat)
    requires Aligned(w, h, level) && h * w <= |b| && l <= level
    ensures Forward(q, b, w, h, level, l) == FilterEach(q, Forward(Identity, b, w, h, level, l), w, h, level, l)
    decreases level - l
  {
    hide Level, Filter;
    if l < level {
      var c := Level(b, w, h, l);
      ForwardFilter(q, c, w, h, level, l, l + 1);
      FilterLast(q, c, w, h, level, l + 1);
      IdentityFilterAll(c, w, h, level, l);
    }
  }
}
