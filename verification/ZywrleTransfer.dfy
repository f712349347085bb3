/** Moving data between the pixels of a tile and the cells of the work buffer, along two lists of positions. */
module ZywrleTransfer {
  import opened ZywrleHarr
  import opened ZywrleFilter
  import opened ZywrleColour

  /** What is moved: a packed coefficient, the pixel itself, or the pixel's colour converted to YUV. */
  datatype Mode = Coefficient | Whole | Converted

  datatype Direction = ToBuffer | ToTile

  /** `*(PIXEL_T*)pTop=*pData` */
  function StorePixel(c: Cell, p: Pixel): Cell {
    match p
    case Pixel16(b0, b1) => c.(c0 := SignedChar(b0), c1 := SignedChar(b1))
    case Pixel32(b0, b1, b2, b3) => Cell(SignedChar(b0), SignedChar(b1), SignedChar(b2), SignedChar(b3))
  }

  /** `*pData=*(PIXEL_T*)pTop` */
  function FetchPixel(d: Depth, c: Cell): (p: Pixel)
    ensures p.Of(d)
  {
    if d.D32? then Pixel32(c.c0 % 256, c.c1 % 256, c.c2 % 256, c.c3 % 256) else Pixel16(c.c0 % 256, c.c1 % 256)
  }

  lemma FetchStored(d: Depth, c: Cell, p: Pixel)
    requires p.Of(d)
    ensures FetchPixel(d, StorePixel(c, p)) == p
  {
    assert forall b: uint8 :: SignedChar(b) == if b < 128 then b else b - 256;
  }

  function ToCell(m: Mode, d: Depth, c: Cell, p: Pixel): Cell
    requires p.Of(d)
  {
    match m
    case Coefficient => SaveCoeff(c, LoadPixel(d, p))
    case Whole => StorePixel(c, p)
    case Converted => SaveCoeff(c, RgbYuv(d, LoadPixel(d, p)))
  }

  function ToPixel(m: Mode, d: Depth, p: Pixel, c: Cell): (p': Pixel)
    requires p.Of(d)
    ensures p'.Of(d)
  {
    match m
    case Coefficient => SavePixel(d, p, LoadCoeff(c))
    case Whole => FetchPixel(d, c)
    case Converted => SavePixel(d, p, YuvRgb(LoadCoeff(c)))
  }

  ghost predicate AllOf(d: Depth, t: seq<Pixel>) {
    forall i | 0 <= i < |t| :: t[i].Of(d)
  }

  ghost predicate Below(s: seq<nat>, n: nat) {
    forall k | 0 <= k < |s| :: s[k] < n
  }

  ghost predicate Distinct(s: seq<nat>) {
    forall j, k | 0 <= j < k < |s| :: s[j] != s[k]
  }

  /** `cs` and `ps` pair cells of a buffer with pixels of a tile. */
  ghost predicate Plan(d: Depth, b: seq<Cell>, cs: seq<nat>, t: seq<Pixel>, ps: seq<nat>) {
    |cs| == |ps| && Below(cs, |b|) && Below(ps, |t|) && AllOf(d, t)
  }

  /** The buffer after the first `k` moves into it. */
  ghost function Gather(m: Mode, d: Depth, b: seq<Cell>, cs: seq<nat>, t: seq<Pixel>, ps: seq<nat>, k: nat): (b': seq<Cell>)
    requires Plan(d, b, cs, t, ps) && k <= |cs|
    ensures |b'| == |b|
  {
    if k == 0 then b
    else
      var c := Gather(m, d, b, cs, t, ps, k - 1);
      c[cs[k - 1] := ToCell(m, d, c[cs[k - 1]], t[ps[k - 1]])]
  }

  /** The tile after the first `k` moves into it. */
  ghost function Spread(m: Mode, d: Depth, b: seq<Cell>, cs: seq<nat>, t: seq<Pixel>, ps: seq<nat>, k: nat): (t': seq<Pixel>)
    requires Plan(d, b, cs, t, ps) && k <= |cs|
    ensures |t'| == |t| && AllOf(d, t')
  {
    if k == 0 then t
    else
      var u := Spread(m, d, b, cs, t, ps, k - 1);
      u[ps[k - 1] := ToPixel(m, d, u[ps[k - 1]], b[cs[k - 1]])]
  }

  lemma {:induction false} GatherAt(m: Mode, d: Depth, b: seq<Cell>, cs: seq<nat>, t: seq<Pixel>, ps: seq<nat>, k: nat, j: nat)
    requires Plan(d, b, cs, t, ps) && Distinct(cs) && j < k <= |cs|
    ensures Gather(m, d, b, cs, t, ps, k)[cs[j]] == ToCell(m, d, b[cs[j]], t[ps[j]])
  {
    hide ToCell;
    if j < k - 1 {
      GatherAt(m, d, b, cs, t, ps, k - 1, j);
    } else {
      GatherElsewhere(m, d, b, cs, t, ps, k - 1, cs[j]);
    }
  }

  lemma {:induction false} GatherElsewhere(m: Mode, d: Depth, b: seq<Cell>, cs: seq<nat>, t: seq<Pixel>, ps: seq<nat>, k: nat, i: nat)
    requires Plan(d, b, cs, t, ps) && k <= |cs| && i < |b| && i !in cs[..k]
    ensures Gather(m, d, b, cs, t, ps, k)[i] == b[i]
  {
    hide ToCell;
    if k > 0 {
      assert cs[..k] == cs[..k - 1] + [cs[k - 1]];
      GatherElsewhere(m, d, b, cs, t, ps, k - 1, i);
    }
  }

  lemma {:induction false} SpreadAt(m: Mode, d: Depth, b: seq<Cell>, cs: seq<nat>, t: seq<Pixel>, ps: seq<nat>, k: nat, j: nat)
    requires Plan(d, b, cs, t, ps) && Distinct(ps) && j < k <= |cs|
    ensures Spread(m, d, b, cs, t, ps, k)[ps[j]] == ToPixel(m, d, t[ps[j]], b[cs[j]])
  {
    hide ToPixel;
    if j < k - 1 {
      SpreadAt(m, d, b, cs, t, ps, k - 1, j);
    } else {
      SpreadElsewhere(m, d, b, cs, t, ps, k - 1, ps[j]);
    }
  }

  lemma {:induction false} SpreadElsewhere(m: Mode, d: Depth, b: seq<Cell>, cs: seq<nat>, t: seq<Pixel>, ps: seq<nat>, k: nat, i: nat)
    requires Plan(d, b, cs, t, ps) && k <= |cs| && i < |t| && i !in ps[..k]
    ensures Spread(m, d, b, cs, t, ps, k)[i] == t[i]
  {
    hide ToPixel;
    if k > 0 {
      assert ps[..k] == ps[..k - 1] + [ps[k - 1]];
      SpreadElsewhere(m, d, b, cs, t, ps, k - 1, i);
    }
  }

  /** `b` and `t` are what the first `k` moves of a plan have made of `b0` and `t0`. */
  ghost predicate Moved(dir: Direction, m: Mode, d: Depth, b0: seq<Cell>, cs: seq<nat>, t0: seq<Pixel>, ps: seq<nat>,
                        k: nat, b: seq<Cell>, t: seq<Pixel>)
  {
    Plan(d, b0, cs, t0, ps) && k <= |cs| &&
    match dir
    case ToBuffer => t == t0 && b == Gather(m, d, b0, cs, t0, ps, k)
    case ToTile => b == b0 && t == Spread(m, d, b0, cs, t0, ps, k)
  }

  lemma MovedStart(dir: Direction, m: Mode, d: Depth, b: seq<Cell>, cs: seq<nat>, t: seq<Pixel>, ps: seq<nat>)
    requires Plan(d, b, cs, t, ps)
    ensures Moved(dir, m, d, b, cs, t, ps, 0, b, t)
  {
  }

  /** The `TRANS` of the macros: one move between cell `c` and pixel `p`. */
  method Move(dir: Direction, m: Mode, d: Depth, pBuf: array<Cell>, c: nat, data: array<Pixel>, p: nat,
              ghost b0: seq<Cell>, ghost cs: seq<nat>, ghost t0: seq<Pixel>, ghost ps: seq<nat>, ghost k: nat)
    requires k < |cs| && Moved(dir, m, d, b0, cs, t0, ps, k, pBuf[..], data[..])
    requires c == cs[k] && p == ps[k]
    modifies pBuf, data
    ensures Moved(dir, m, d, b0, cs, t0, ps, k + 1, pBuf[..], data[..])
  {
    hide ToCell, ToPixel;
    ghost var (b, t) := (pBuf[..], data[..]);
    assert c < |pBuf[..]| && p < |data[..]| && data[..][p].Of(d);
    match dir {
      case ToBuffer =>
        pBuf[c] := ToCell(m, d, pBuf[c], data[p]);
        assert pBuf[..] == b[c := ToCell(m, d, b[c], t[p])];
      case ToTile =>
        data[p] := ToPixel(m, d, data[p], pBuf[c]);
        assert data[..] == t[p := ToPixel(m, d, t[p], b[c])];
    }
  }
}
