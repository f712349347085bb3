/** `Wavelet` and `InvWavelet`: all levels of the transform, with the quantising filter between them. */
module ZywrleTransform {
  import opened Grid
  import opened ZywrleHarr
  import opened ZywrleFilter
  import opened ZywrleWavelet

  /** What `zywrleCalcSize` establishes for the levels that the parameter table has. */
  predicate Aligned(w: nat, h: nat, level: nat) {
    w > 0 && h > 0 && 1 <= level <= 3 && w % Pow2(level) == 0 && h % Pow2(level) == 0
  }

  lemma LevelSplits(w: nat, h: nat, level: nat, l: nat)
    requires Aligned(w, h, level) && l < level
    ensures Splits(w, h, Pow2(l)) && Pow2(l + 1) == 2 * Pow2(l)
  {
    hide Pow2;
    PowersOfTwo();
    Halves(w);
    Halves(h);
  }

  lemma Halves(x: nat)
    ensures (x % 8 == 0 ==> x % 4 == 0) && (x % 4 == 0 ==> x % 2 == 0)
  {
    if x % 8 == 0 {
      DivModUnique(4, 2 * (x / 8), 0);
    }
    if x % 4 == 0 {
      DivModUnique(2, 2 * (x / 4), 0);
    }
  }

  lemma PowersOfTwo()
    ensures Pow2(0) == 1 && Pow2(1) == 2 && Pow2(2) == 4 && Pow2(3) == 8
  {
  }

  /** One level of the transform, before filtering. */
  function Level(b: seq<Cell>, w: nat, h: nat, l: nat): (c: seq<Cell>)
    requires w > 0 && h * w <= |b|
    ensures |c| == |b|
  {
    Pass(Down, Pass(Across, b, w, h, Pow2(l)), w, h, Pow2(l))
  }

  function InvLevel(b: seq<Cell>, w: nat, h: nat, l: nat): (c: seq<Cell>)
    requires w > 0 && h * w <= |b|
    ensures |c| == |b|
  {
    Pass(Across, Pass(Down, b, w, h, Pow2(l)), w, h, Pow2(l))
  }

  /** Levels `l` and up. */
  function Forward(q: Quantiser, b: seq<Cell>, w: nat, h: nat, level: nat, l: nat): (c: seq<Cell>)
    requires w > 0 && h * w <= |b| && l <= level
    ensures |c| == |b|
    decreases level - l
  {
    if l == level then b else Forward(q, Filter(q, Level(b, w, h, l), w, h, level, l), w, h, level, l + 1)
  }

  /** Undoes levels `l` and up. */
  function Backward(b: seq<Cell>, w: nat, h: nat, level: nat, l: nat): (c: seq<Cell>)
    requires w > 0 && h * w <= |b| && l <= level
    ensures |c| == |b|
    decreases level - l
  {
    if l == level then b else InvLevel(Backward(b, w, h, level, l + 1), w, h, l)
  }

  // ---------- The loops ----------

  /** The loop over rows: `WaveletLevel(pTop, width, l, 1)` on every `1<<l`th row. */
  method RowPass(a: array<Cell>, width: nat, height: nat, l: nat)
    requires Splits(width, height, Pow2(l)) && Pow2(l + 1) == 2 * Pow2(l) && height * width <= a.Length
    modifies a
    ensures a[..] == Pass(Across, old(a[..]), width, height, Pow2(l))
  {
    hide Low, High, PassUpTo, Pass, LineDone, PairAt, Pow2, Distance, Position, Offset, Pairs, Splits;
    ghost var (b, g) := (a[..], Pow2(l));
    SplitsPositive(width, height, g);
    var pTop := 0;
    var pEnd := height * width;
    var s := width * Pow2(l);
    ghost var y: nat := 0;
    PassStart(Across, b, width, height, g);
    while pTop < pEnd
      invariant pTop == y * width && y % g == 0 && PassUpTo(Across, b, a[..], width, height, g, y)
      decreases pEnd - pTop
    {
      assert y < height by { Scale(width, height, y); }
      LineFacts(Across, width, height, l, y);
      ghost var c := a[..];
      WaveletLevel(a, pTop, width, l, 1);
      PassLine(Across, b, c, a[..], width, height, g, y);
      pTop := pTop + s;
      assert (y + g) * width == y * width + width * g;
      NextMultiple(g, y);
      y := y + g;
    }
    assert y >= height by { Scale(width, y + 1, height); }
    PassComplete(Across, b, a[..], width, height, g, y);
  }

  /** The loop over columns: `WaveletLevel(pTop, height, l, width)` on every `1<<l`th column. */
  method ColumnPass(a: array<Cell>, width: nat, height: nat, l: nat)
    requires Splits(width, height, Pow2(l)) && Pow2(l + 1) == 2 * Pow2(l) && height * width <= a.Length
    modifies a
    ensures a[..] == Pass(Down, old(a[..]), width, height, Pow2(l))
  {
    hide Low, High, PassUpTo, Pass, LineDone, PairAt, Pow2, Distance, Position, Offset, Pairs, Splits;
    ghost var (b, g) := (a[..], Pow2(l));
    SplitsPositive(width, height, g);
    var pTop := 0;
    var pEnd := width;
    var s := Pow2(l);
    PassStart(Down, b, width, height, g);
    while pTop < pEnd
      invariant pTop % g == 0 && PassUpTo(Down, b, a[..], width, height, g, pTop)
    {
      LineFacts(Down, width, height, l, pTop);
      ghost var c := a[..];
      WaveletLevel(a, pTop, height, l, width);
      PassLine(Down, b, c, a[..], width, height, g, pTop);
      NextMultiple(g, pTop);
      pTop := pTop + s;
    }
    PassComplete(Down, b, a[..], width, height, g, pTop);
  }

  lemma PassStart(axis: Axis, b: seq<Cell>, w: nat, h: nat, g: nat)
    requires w > 0 && g > 0 && h * w <= |b|
    ensures PassUpTo(axis, b, b, w, h, g, 0)
  {
  }

  lemma NextMultiple(g: nat, y: nat)
    requires g > 0 && y % g == 0
    ensures (y + g) % g == 0
  {
    var q := y / g;
    assert y == g * q;
    assert g * (q + 1) == g * q + g;
    DivModUnique(g, q + 1, 0);
  }

  /** The arguments of `WaveletLevel` in the two loops describe the line, and the line is in the buffer. */
  lemma LineFacts(axis: Axis, w: nat, h: nat, l: nat, line: nat)
    requires Splits(w, h, Pow2(l)) && Pow2(l + 1) == 2 * Pow2(l)
    requires line < Lines(axis, w, h) && line % Pow2(l) == 0
    ensures var (g, skip) := (Pow2(l), if axis == Across then 1 else w);
            && Offset(l, skip) == Distance(axis, w, g)
            && Pairs(Size(axis, w, h), l) == Quotient(Size(axis, w, h), 2 * g)
            && Position(axis, w, line, 0) == (if axis == Across then line * w else line)
            && PairAt(Position(axis, w, line, 0), Offset(l, skip), Pairs(Size(axis, w, h), l)) < h * w + Offset(l, skip)
  {
    hide LineOf, Along, PairAt, Pow2;
    var (g, d, n) := (Pow2(l), Distance(axis, w, Pow2(l)), Quotient(Size(axis, w, h), 2 * Pow2(l)));
    DistancePositive(axis, w, g);
    assert n > 0;
    LinePairs(axis, w, h, g, line, n - 1);
    PairNext(Position(axis, w, line, 0), d, n - 1);
  }

  method Wavelet(a: array<Cell>, width: nat, height: nat, level: nat, q: Quantiser)
    requires Aligned(width, height, level) && height * width <= a.Length
    modifies a
    ensures a[..] == Forward(q, old(a[..]), width, height, level, 0)
  {
    for l := 0 to level
      invariant Forward(q, a[..], width, height, level, l) == Forward(q, old(a[..]), width, height, level, 0)
    {
      hide Pass, Filter, Pow2, Splits;
      LevelSplits(width, height, level, l);
      RowPass(a, width, height, l);
      ColumnPass(a, width, height, l);
      FilterWaveletSquare(a, width, height, level, l, q);
    }
  }

  method InvWavelet(a: array<Cell>, width: nat, height: nat, level: nat)
    requires Aligned(width, height, level) && height * width <= a.Length
    modifies a
    ensures a[..] == Backward(old(a[..]), width, height, level, 0)
  {
    var l := level;
    while l > 0
      invariant 0 <= l <= level && a[..] == Backward(old(a[..]), width, height, level, l)
    {
      hide Pass, Pow2, Splits;
      l := l - 1;
      LevelSplits(width, height, level, l);
      ColumnPass(a, width, height, l);
      RowPass(a, width, height, l);
    }
  }

  // ---------- Range and granularity ----------

  lemma FilterKeeps(q: Quantiser, b: seq<Cell>, w: nat, h: nat, level: nat, l: nat, my: int, muv: int)
    requires w > 0 && IsGranularity(my) && IsGranularity(muv) && AllFine(b, h * w, my, muv)
    ensures AllFine(Filter(q, b, w, h, level, l), h * w, my, muv)
  {
    hide Band;
    forall i: nat | i < h * w ensures Fine(Filter(q, b, w, h, level, l)[i], my, muv) {
      QuantiseKeeps(q, level, l, b[i], my, muv);
    }
  }

  lemma QuantiseKeeps(q: Quantiser, level: nat, l: nat, p: Cell, my: int, muv: int)
    requires IsGranularity(my) && IsGranularity(muv) && Fine(p, my, muv)
    ensures Fine(QuantiseCell(q, level, l, p), my, muv)
  {
    hide Quantise, IsGranularity;
    if q == Identity {
      assert QuantiseCell(q, level, l, p) == p by { IdentityFilter(level, l, p); }
    } else {
      QuantiseFacts(level, l, 0, p.c0);
      QuantiseFacts(level, l, 1, p.c1);
      QuantiseFacts(level, l, 2, p.c2);
      DividesEight(Quantise(q, level, l, 0, p.c0), muv);
      DividesEight(Quantise(q, level, l, 1, p.c1), my);
      DividesEight(Quantise(q, level, l, 2, p.c2), muv);
    }
  }

  lemma DividesEight(x: int, m: int)
    requires IsGranularity(m) && x % 8 == 0
    ensures m > 0 && x % m == 0
  {
    By4(x, 2 * (x / 8));
  }

  lemma IdentityFilter(level: nat, l: nat, p: Cell)
    ensures QuantiseCell(Identity, level, l, p) == p
  {
  }

  /** Every stage keeps each coefficient in the odd range and a multiple of the granularity of the pixel format. */
  lemma {:induction false} ForwardKeeps(q: Quantiser, b: seq<Cell>, w: nat, h: nat, level: nat, l: nat, my: int, muv: int)
    requires w > 0 && l <= level && IsGranularity(my) && IsGranularity(muv) && h * w <= |b| && AllFine(b, h * w, my, muv)
    ensures AllFine(Forward(q, b, w, h, level, l), h * w, my, muv)
    decreases level - l
  {
    hide Pass, Filter, AllFine, Pow2;
    if l < level {
      var c := Pass(Across, b, w, h, Pow2(l));
      PassKeeps(Across, b, w, h, Pow2(l), my, muv);
      PassKeeps(Down, c, w, h, Pow2(l), my, muv);
      FilterKeeps(q, Level(b, w, h, l), w, h, level, l, my, muv);
      ForwardKeeps(q, Filter(q, Level(b, w, h, l), w, h, level, l), w, h, level, l + 1, my, muv);
    }
  }

  lemma {:induction false} BackwardKeeps(b: seq<Cell>, w: nat, h: nat, level: nat, l: nat, my: int, muv: int)
    requires w > 0 && l <= level && IsGranularity(my) && IsGranularity(muv) && h * w <= |b| && AllFine(b, h * w, my, muv)
    ensures AllFine(Backward(b, w, h, level, l), h * w, my, muv)
    decreases level - l
  {
    hide Pass, AllFine, Pow2;
    if l < level {
      BackwardKeeps(b, w, h, level, l + 1, my, muv);
      var c := Backward(b, w, h, level, l + 1);
      PassKeeps(Down, c, w, h, Pow2(l), my, muv);
      PassKeeps(Across, Pass(Down, c, w, h, Pow2(l)), w, h, Pow2(l), my, muv);
    }
  }

  // ---------- The transform is a bijection ----------

  lemma IdentityFilterAll(b: seq<Cell>, w: nat, h: nat, level: nat, l: nat)
    requires w > 0 && h * w <= |b|
    ensures Filter(Identity, b, w, h, level, l) == b
  {
    hide Band;
    forall i: nat | i < |b| ensures Filter(Identity, b, w, h, level, l)[i] == b[i] {
      IdentityFilter(level, l, b[i]);
    }
  }

  lemma LevelInverses(b: seq<Cell>, w: nat, h: nat, l: nat)
    requires Splits(w, h, Pow2(l)) && h * w <= |b| && AllFine(b, h * w, 1, 1)
    ensures InvLevel(Level(b, w, h, l), w, h, l) == b && Level(InvLevel(b, w, h, l), w, h, l) == b
    ensures AllFine(Level(b, w, h, l), h * w, 1, 1)
  {
    hide Pass, AllFine, Pow2;
    var g := Pow2(l);
    SplitsPositive(w, h, g);
    PassSelfInverse(Across, b, w, h, g);
    PassKeeps(Across, b, w, h, g, 1, 1);
    PassSelfInverse(Down, Pass(Across, b, w, h, g), w, h, g);
    PassKeeps(Down, Pass(Across, b, w, h, g), w, h, g, 1, 1);
    PassSelfInverse(Down, b, w, h, g);
    PassKeeps(Down, b, w, h, g, 1, 1);
    PassSelfInverse(Across, Pass(Down, b, w, h, g), w, h, g);
  }

  lemma {:induction false} BackwardForward(b: seq<Cell>, w: nat, h: nat, level: nat, l: nat)
    requires Aligned(w, h, level) && l <= level && h * w <= |b| && AllFine(b, h * w, 1, 1)
    ensures Backward(Forward(Identity, b, w, h, level, l), w, h, level, l) == b
    decreases level - l
  {
    hide Level, InvLevel, Filter, AllFine, Pow2, Splits;
    if l < level {
      var c := Level(b, w, h, l);
      LevelSplits(w, h, level, l);
      LevelInverses(b, w, h, l);
      IdentityFilterAll(c, w, h, level, l);
      BackwardForward(c, w, h, level, l + 1);
    }
  }

  lemma {:induction false} ForwardBackward(b: seq<Cell>, w: nat, h: nat, level: nat, l: nat)
    requires Aligned(w, h, level) && l <= level && h * w <= |b| && AllFine(b, h * w, 1, 1)
    ensures Forward(Identity, Backward(b, w, h, level, l), w, h, level, l) == b
    decreases level - l
  {
    hide Level, InvLevel, Filter, AllFine, Pow2, Splits;
    if l < level {
      var c := Backward(b, w, h, level, l + 1);
      LevelSplits(w, h, level, l);
      BackwardKeeps(b, w, h, level, l + 1, 1, 1);
      LevelInverses(c, w, h, l);
      IdentityFilterAll(c, w, h, level, l);
      ForwardBackward(b, w, h, level, l + 1);
    }
  }
}
