/** How near a pixel comes back when it is converted to YUV and back, at each depth. */
module ZywrleNear {
  import opened ZywrleHarr
  import opened ZywrleColour

  /** No channel differs by more than `n`. */
  predicate Near(a: Colour, b: Colour, n: int) {
    Abs(a.r - b.r) <= n && Abs(a.g - b.g) <= n && Abs(a.b - b.b) <= n
  }

  lemma RoundNear(x: int, c: int)
    requires 0 <= c < 256 && -1 <= x - c <= 1
    ensures Abs(Round(x) - c) <= 1
  {
  }

  /** The quotients of the two conversions, with the two divisions that round down written as inequalities. */
  lemma QuotientsNear(c: Colour, y: int, u: int, v: int, q: int)
    requires InGamut(c)
    requires 4 * y <= c.r + 2 * c.g + c.b <= 4 * y + 3 || (y == 1 && c.r + 2 * c.g + c.b <= 3)
    requires 2 * u <= c.b - c.g <= 2 * u + 1 || (u == -127 && c.b - c.g <= -255)
    requires 2 * v <= c.r - c.g <= 2 * v + 1 || (v == -127 && c.r - c.g <= -255)
    requires 4 * q <= 2 * u + 2 * v <= 4 * q + 3
    ensures -1 <= 2 * v + (y - q) - c.r <= 1 && -1 <= y - q - c.g <= 1 && -1 <= 2 * u + (y - q) - c.b <= 1
  {
  }

  lemma RgbYuvIs(c: Colour)
    requires InGamut(c)
    ensures var (p, s) := (RgbYuv(D32, c), c.r + 2 * c.g + c.b);
            && (4 * (p.g + 128) <= s <= 4 * (p.g + 128) + 3 || (p.g + 128 == 1 && s <= 3))
            && (2 * p.b <= c.b - c.g <= 2 * p.b + 1 || (p.b == -127 && c.b - c.g <= -255))
            && (2 * p.r <= c.r - c.g <= 2 * p.r + 1 || (p.r == -127 && c.r - c.g <= -255))
  {
    var y, u, v := (c.r + 2 * c.g + c.b) / 4, (c.b - c.g) / 2, (c.r - c.g) / 2;
    assert 4 * y <= c.r + 2 * c.g + c.b <= 4 * y + 3 && 2 * u <= c.b - c.g <= 2 * u + 1 && 2 * v <= c.r - c.g <= 2 * v + 1;
    assert RgbYuv(D32, c) == Colour(Correct(v, 1), Correct(y - 128, 1), Correct(u, 1));
  }

  /** At 32 bits, converting there and back moves no channel by more than one. */
  lemma ColourNear(c: Colour)
    requires InGamut(c)
    ensures Near(YuvRgb(RgbYuv(D32, c)), c, 1)
  {
    hide Round, RgbYuv, YuvRgb, InGamut;
    var p := RgbYuv(D32, c);
    var (y, u, v) := (p.g + 128, p.b, p.r);
    var q := YuvRgbIs(p);
    RgbYuvIs(c);
    QuotientsNear(c, y, u, v, q);
    ChannelsNear(c, 2 * v + (y - q), y - q, 2 * u + (y - q));
  }

  /** The channels before they are cut to the range of a byte, with the quotient as inequalities. */
  lemma YuvRgbIs(p: Colour) returns (q: int)
    ensures 4 * q <= 2 * p.b + 2 * p.r <= 4 * q + 3
    ensures var y := p.g + 128; YuvRgb(p) == Colour(Round(2 * p.r + (y - q)), Round(y - q), Round(2 * p.b + (y - q)))
  {
    hide Round;
    q := (p.b * 2 + p.r * 2) / 4;
  }

  lemma ChannelsNear(c: Colour, r: int, g: int, b: int)
    requires InGamut(c) && -1 <= r - c.r <= 1 && -1 <= g - c.g <= 1 && -1 <= b - c.b <= 1
    ensures Near(Colour(Round(r), Round(g), Round(b)), c, 1)
  {
    hide Round;
    RoundNear(r, c.r);
    RoundNear(g, c.g);
    RoundNear(b, c.b);
  }

  // ---------- Pixels of two bytes ----------

  /** A colour in gamut, as it is stored and loaded again: each channel is cut to its field. */
  lemma StoredColour(d: Depth, under: Pixel, c: Colour)
    requires under.Of(d) && InGamut(c)
    ensures LoadPixel(d, SavePixel(d, under, c)) == Colour(Floor(c.r, d.MaskUV()), Floor(c.g, d.MaskY()), Floor(c.b, d.MaskUV()))
  {
    hide Floor, Low15, High15, Low16, High16;
    assert Top(c.r, 8) == Floor(c.r, 8) && Top(c.b, 8) == Floor(c.b, 8) && Top(c.g, 8) == Floor(c.g, 8) && Top(c.g, 4) == Floor(c.g, 4);
    assert Floor(c.r, 1) == c.r && Floor(c.g, 1) == c.g && Floor(c.b, 1) == c.b by {
      FloorOne(c.r);
      FloorOne(c.g);
      FloorOne(c.b);
    }
    hide Top;
    match d
    case D15 => Bytes15(Top(c.r, 8), Top(c.g, 8), Top(c.b, 8));
    case D16 => Bytes16(Top(c.r, 8), Top(c.g, 4), Top(c.b, 8));
    case D32 =>
  }

  lemma FloorOne(x: int)
    ensures Floor(x, 1) == x
  {
  }

  lemma FloorIs(x: int, m: int, q: int)
    requires IsGranularity(m) && m * q <= x < m * q + m
    ensures Floor(x, m) == m * q
  {
  }

  /** The conversion at any depth, with its quotients given by inequalities. */
  lemma RgbYuvParts(d: Depth, c: Colour, s: int, u: int, v: int)
    requires 4 * s <= c.r + 2 * c.g + c.b <= 4 * s + 3 && 2 * u <= c.b - c.g <= 2 * u + 1 && 2 * v <= c.r - c.g <= 2 * v + 1
    ensures RgbYuv(d, c)
         == Colour(Correct(Floor(v, d.MaskUV()), d.MaskUV()), Correct(Floor(s - 128, d.MaskY()), d.MaskY()), Correct(Floor(u, d.MaskUV()), d.MaskUV()))
  {
    hide Floor, Correct;
    assert s == (c.r + 2 * c.g + c.b) / 4 && u == (c.b - c.g) / 2 && v == (c.r - c.g) / 2;
  }

  /** A channel that is cut to a field and corrected. */
  lemma CorrectIs(x: int, m: int, q: int)
    requires IsGranularity(m) && m * q <= x < m * q + m
    ensures Correct(Floor(x, m), m) == if m * q == -128 then m * (q + 1) else m * q
  {
    hide Floor;
    FloorIs(x, m, q);
  }

  lemma Quarter(x: int) returns (q: int)
    ensures 4 * q <= x <= 4 * q + 3
  {
    q := x / 4;
  }

  lemma Half(x: int) returns (q: int)
    ensures 2 * q <= x <= 2 * q + 1
  {
    q := x / 2;
  }

  /** The conversion of a 15-bit pixel, in units of eight. */
  lemma Yuv15(r: int, g: int, b: int) returns (y: int, u: int, v: int)
    requires 0 <= r < 32 && 0 <= g < 32 && 0 <= b < 32
    ensures RgbYuv(D15, Colour(8 * r, 8 * g, 8 * b)) == Colour(8 * v, 8 * y - 128, 8 * u)
    ensures 4 * y <= r + 2 * g + b <= 4 * y + 3 || (y == 1 && r + 2 * g + b <= 3)
    ensures 2 * u <= b - g <= 2 * u + 1 || (u == -15 && b - g <= -31)
    ensures 2 * v <= r - g <= 2 * v + 1 || (v == -15 && r - g <= -31)
  {
    hide RgbYuv, Floor, Correct;
    var y0 := Quarter(r + 2 * g + b);
    var u0 := Half(b - g);
    var v0 := Half(r - g);
    RgbYuvParts(D15, Colour(8 * r, 8 * g, 8 * b), 2 * (r + 2 * g + b), 4 * (b - g), 4 * (r - g));
    CorrectIs(2 * (r + 2 * g + b) - 128, 8, y0 - 16);
    CorrectIs(4 * (b - g), 8, u0);
    CorrectIs(4 * (r - g), 8, v0);
    y, u, v := if y0 == 0 then 1 else y0, if u0 == -16 then -15 else u0, if v0 == -16 then -15 else v0;
  }

  /** The conversion of a 16-bit pixel. */
  lemma Yuv16(r: int, g: int, b: int) returns (y: int, u: int, v: int)
    requires 0 <= r < 32 && 0 <= g < 64 && 0 <= b < 32
    ensures RgbYuv(D16, Colour(8 * r, 4 * g, 8 * b)) == Colour(8 * v, 4 * y - 128, 8 * u)
    ensures 2 * y <= r + g + b <= 2 * y + 1 || (y == 1 && r + g + b <= 1)
    ensures 4 * u <= 2 * b - g <= 4 * u + 3 || (u == -15 && 2 * b - g <= -61)
    ensures 4 * v <= 2 * r - g <= 4 * v + 3 || (v == -15 && 2 * r - g <= -61)
  {
    hide RgbYuv, Floor, Correct;
    var y0 := Half(r + g + b);
    var u0 := Quarter(2 * b - g);
    var v0 := Quarter(2 * r - g);
    RgbYuvParts(D16, Colour(8 * r, 4 * g, 8 * b), 2 * (r + g + b), 4 * b - 2 * g, 4 * r - 2 * g);
    CorrectIs(2 * (r + g + b) - 128, 4, y0 - 32);
    CorrectIs(4 * b - 2 * g, 8, u0);
    CorrectIs(4 * r - 2 * g, 8, v0);
    y, u, v := if y0 == 0 then 1 else y0, if u0 == -16 then -15 else u0, if v0 == -16 then -15 else v0;
  }

  /** A channel that is rounded and cut to its field. */
  lemma CutNear(x: int, q: int, m: int)
    requires (m == 4 || m == 8) && 0 <= m * q < 256 && -16 <= x - m * q <= 16
    ensures Abs(Floor(Round(x), m) - m * q) <= 16
  {
    hide Floor;
    var k := Round(x);
    assert Floor(k, m) <= k < Floor(k, m) + m && Floor(k, m) % m == 0;
    if m == 4 {
      var t := Floor(k, m) / 4;
      assert Floor(k, m) == 4 * t;
    } else {
      var t := Floor(k, m) / 8;
      assert Floor(k, m) == 8 * t;
    }
  }

  lemma Back15(r: int, g: int, b: int, y: int, u: int, v: int)
    requires 0 <= r < 32 && 0 <= g < 32 && 0 <= b < 32
    requires 4 * y <= r + 2 * g + b <= 4 * y + 3 || (y == 1 && r + 2 * g + b <= 3)
    requires 2 * u <= b - g <= 2 * u + 1 || (u == -15 && b - g <= -31)
    requires 2 * v <= r - g <= 2 * v + 1 || (v == -15 && r - g <= -31)
    ensures var k := 8 * y - 4 * (u + v);
            -16 <= 16 * v + k - 8 * r <= 16 && -16 <= k - 8 * g <= 16 && -16 <= 16 * u + k - 8 * b <= 16
  {
  }

  lemma Back16(r: int, g: int, b: int, y: int, u: int, v: int)
    requires 0 <= r < 32 && 0 <= g < 64 && 0 <= b < 32
    requires 2 * y <= r + g + b <= 2 * y + 1 || (y == 1 && r + g + b <= 1)
    requires 4 * u <= 2 * b - g <= 4 * u + 3 || (u == -15 && 2 * b - g <= -61)
    requires 4 * v <= 2 * r - g <= 4 * v + 3 || (v == -15 && 2 * r - g <= -61)
    ensures var k := 4 * y - 4 * (u + v);
            -16 <= 16 * v + k - 8 * r <= 16 && -16 <= k - 4 * g <= 16 && -16 <= 16 * u + k - 8 * b <= 16
  {
  }

  /** The largest difference in a channel. */
  function Tolerance(d: Depth): int { if d.D32? then 1 else 16 }

  /** What is shown of a pixel that is converted to YUV and back, and stored. */
  function Shown(d: Depth, under: Pixel, p: Pixel): Colour
    requires under.Of(d) && p.Of(d)
  {
    LoadPixel(d, SavePixel(d, under, YuvRgb(RgbYuv(d, LoadPixel(d, p)))))
  }

  /** The fields of a pixel of two bytes. */
  lemma Units(d: Depth, p: Pixel) returns (r: int, g: int, b: int)
    requires !d.D32? && p.Of(d)
    ensures LoadPixel(d, p) == Colour(8 * r, d.MaskY() * g, 8 * b)
    ensures 0 <= r < 32 && 0 <= g && d.MaskY() * g < 256 && 0 <= b < 32
  {
    hide Top;
    var c := LoadPixel(d, p);
    r, g, b := Unit(c.r, 8), Unit(c.g, d.MaskY()), Unit(c.b, 8);
  }

  function Unit(x: int, m: int): (q: int)
    requires IsGranularity(m) && m > 1 && 0 <= x <= 256 - m && x % m == 0
    ensures m * q == x && 0 <= q < 64 && (m == 8 ==> q < 32)
  {
    if m == 4 then x / 4 else x / 8
  }

  lemma Shown15(under: Pixel, p: Pixel)
    requires under.Of(D15) && p.Of(D15)
    ensures Near(Shown(D15, under, p), LoadPixel(D15, p), 16)
  {
    hide RgbYuv, YuvRgb, Round, Floor, LoadPixel, SavePixel, Shown, Near;
    var r, g, b := Units(D15, p);
    var y, u, v := Yuv15(r, g, b);
    var q := YuvRgbIs(RgbYuv(D15, LoadPixel(D15, p)));
    assert q == 4 * (u + v);
    Back15(r, g, b, y, u, v);
    ShownCut(D15, under, p, r, g, b, 16 * v + 8 * y - q, 8 * y - q, 16 * u + 8 * y - q);
  }

  lemma Shown16(under: Pixel, p: Pixel)
    requires under.Of(D16) && p.Of(D16)
    ensures Near(Shown(D16, under, p), LoadPixel(D16, p), 16)
  {
    hide RgbYuv, YuvRgb, Round, Floor, LoadPixel, SavePixel, Shown, Near;
    var r, g, b := Units(D16, p);
    var y, u, v := Yuv16(r, g, b);
    var q := YuvRgbIs(RgbYuv(D16, LoadPixel(D16, p)));
    assert q == 4 * (u + v);
    Back16(r, g, b, y, u, v);
    ShownCut(D16, under, p, r, g, b, 16 * v + 4 * y - q, 4 * y - q, 16 * u + 4 * y - q);
  }

  lemma ShownCut(d: Depth, under: Pixel, p: Pixel, r0: int, g0: int, b0: int, r: int, g: int, b: int)
    requires !d.D32? && under.Of(d) && p.Of(d) && LoadPixel(d, p) == Colour(8 * r0, d.MaskY() * g0, 8 * b0)
    requires 0 <= r0 < 32 && 0 <= g0 && d.MaskY() * g0 < 256 && 0 <= b0 < 32
    requires YuvRgb(RgbYuv(d, LoadPixel(d, p))) == Colour(Round(r), Round(g), Round(b))
    requires -16 <= r - 8 * r0 <= 16 && -16 <= g - d.MaskY() * g0 <= 16 && -16 <= b - 8 * b0 <= 16
    ensures Near(Shown(d, under, p), LoadPixel(d, p), 16)
  {
    hide RgbYuv, YuvRgb, Round, Floor, LoadPixel, SavePixel;
    RoundNearest(r, 0);
    RoundNearest(g, 0);
    RoundNearest(b, 0);
    StoredColour(d, under, Colour(Round(r), Round(g), Round(b)));
    CutNear(r, r0, 8);
    CutNear(g, g0, d.MaskY());
    CutNear(b, b0, 8);
  }

  /** At every depth, a pixel is shown near to itself: within one at 32 bits, and within two steps of a five-bit field at 15
      and 16 bits. */
  lemma PixelNear(d: Depth, under: Pixel, p: Pixel)
    requires under.Of(d) && p.Of(d)
    ensures Near(Shown(d, under, p), LoadPixel(d, p), Tolerance(d))
  {
    hide RgbYuv, YuvRgb, LoadPixel, SavePixel;
    match d
    case D15 => Shown15(under, p);
    case D16 => Shown16(under, p);
    case D32 =>
      LoadPixelRange(d, p);
      var c := LoadPixel(d, p);
      ColourNear(c);
      YuvRgbGamut(RgbYuv(D32, c));
      StoredColour(d, under, YuvRgb(RgbYuv(D32, c)));
      FloorOne(YuvRgb(RgbYuv(D32, c)).r);
      FloorOne(YuvRgb(RgbYuv(D32, c)).g);
      FloorOne(YuvRgb(RgbYuv(D32, c)).b);
  }

  lemma YuvRgbGamut(c: Colour)
    ensures InGamut(YuvRgb(c))
  {
  }
}
