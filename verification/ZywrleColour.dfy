/** Pixels, their packing, and the colour conversion of the ZYWRLE codec. */
module ZywrleColour {
  import opened ZywrleHarr
  import opened ZywrleFilter

  /** The pixel formats for which the template is instantiated. */
  datatype Depth = D15 | D16 | D32 {
    /** The granularities that `ZYWRLE_YMASK` and `ZYWRLE_UVMASK` leave. */
    function MaskY(): (m: int)
      ensures IsGranularity(m)
    {
      match this case D15 => 8 case D16 => 4 case D32 => 1
    }

    function MaskUV(): (m: int)
      ensures IsGranularity(m)
    {
      if D32? then 1 else 8
    }
  }

  /** `PIXEL_T`, as its bytes in memory (little endian). */
  datatype Pixel = Pixel16(b0: uint8, b1: uint8) | Pixel32(b0: uint8, b1: uint8, b2: uint8, b3: uint8) {
    predicate Of(d: Depth) {
      Pixel32? <==> d.D32?
    }
  }

  datatype Colour = Colour(r: int, g: int, b: int)

  /** `x & mask`, for the masks that clear the bits below `m`. */
  function Floor(x: int, m: int): (r: int)
    requires IsGranularity(m)
    ensures r <= x < r + m && r % m == 0
  {
    By4(x / 4 * 4, x / 4);
    By8(x / 8 * 8, x / 8);
    if m == 4 then x / 4 * 4 else if m == 8 then x / 8 * 8 else x
  }

  /** `x & 0xF8` and `x & 0xFC`: the low byte of `x`, floored. */
  function Top(x: int, m: int): (r: int)
    requires IsGranularity(m)
    ensures 0 <= r <= 256 - m && r % m == 0
  {
    Floor(x % 256, m)
  }

  /** The two bytes of a 15-bit and of a 16-bit pixel. */
  function Low15(g: int, b: int): (v: int)
    requires 0 <= g <= 248 && 0 <= b <= 248 && g % 8 == 0
    ensures 0 <= v < 256
  {
    assert g * 4 % 256 <= 224 by { assert g == 8 * (g / 8); }
    b / 8 + g * 4 % 256
  }

  function High15(r: int, g: int): (v: int)
    requires 0 <= r <= 248 && 0 <= g <= 248
    ensures 0 <= v < 256
  {
    r / 2 + g / 64
  }

  function Low16(g: int, b: int): (v: int)
    requires 0 <= g <= 252 && 0 <= b <= 248 && g % 4 == 0
    ensures 0 <= v < 256
  {
    assert g * 8 % 256 <= 224 by { assert g == 4 * (g / 4); }
    b / 8 + g * 8 % 256
  }

  function High16(r: int, g: int): (v: int)
    requires 0 <= r <= 248 && r % 8 == 0 && 0 <= g <= 252
    ensures 0 <= v < 256
  {
    r + g / 32
  }

  /** `ZYWRLE_LOAD_PIXEL` */
  function LoadPixel(d: Depth, p: Pixel): (c: Colour)
    requires p.Of(d)
  {
    match d
    case D15 => Colour(Top(p.b1 * 2, 8), Top(p.b1 * 64 + p.b0 / 4, 8), Top(p.b0 * 8, 8))
    case D16 => Colour(Top(p.b1, 8), Top(p.b1 * 32 + p.b0 / 8, 4), Top(p.b0 * 8, 8))
    case D32 => Colour(p.b2, p.b1, p.b0)
  }

  /** The channels are the fields of the pixel as a little-endian number: five bits each, or six for green, or eight. */
  lemma PixelFields(d: Depth, p: Pixel)
    requires p.Of(d)
    ensures var c := LoadPixel(d, p);
            match d
            case D15 => var n := p.b0 + 256 * p.b1; c == Colour(8 * (n / 1024 % 32), 8 * (n / 32 % 32), 8 * (n % 32))
            case D16 => var n := p.b0 + 256 * p.b1; c == Colour(8 * (n / 2048), 4 * (n / 32 % 64), 8 * (n % 32))
            case D32 => var n := p.b0 + 256 * p.b1 + 0x1_0000 * p.b2 + 0x100_0000 * p.b3;
                        c == Colour(n / 0x1_0000 % 256, n / 256 % 256, n % 256)
  {
    match d
    case D15 => Fields15(p.b0, p.b1);
    case D16 => Fields16(p.b0, p.b1);
    case D32 => Fields32(p.b0, p.b1, p.b2, p.b3);
  }

  lemma Fields15(lo: uint8, hi: uint8)
    ensures var n := lo + 256 * hi;
            Top(hi * 2, 8) == 8 * (n / 1024 % 32) && Top(hi * 64 + lo / 4, 8) == 8 * (n / 32 % 32) && Top(lo * 8, 8) == 8 * (n % 32)
  {
    hide Top;
    var (a, b, x, y) := (lo / 32, lo % 32, hi / 4, hi % 4);
    var n := lo + 256 * hi;
    Fields(n, 32, 8 * hi + a, b);
    Fields(8 * hi + a, 32, x, 8 * y + a);
    assert n / 1024 == x;
    assert x == 32 * (x / 32) + x % 32 && lo / 4 == 8 * a + lo / 4 % 8;
    TopIs(hi * 2, x / 32, 8 * (x % 32), 2 * y, 8);
    TopIs(hi * 64 + lo / 4, x, 8 * (8 * y + a), lo / 4 % 8, 8);
    TopIs(lo * 8, a, 8 * b, 0, 8);
  }

  lemma Fields16(lo: uint8, hi: uint8)
    ensures var n := lo + 256 * hi;
            Top(hi, 8) == 8 * (n / 2048) && Top(hi * 32 + lo / 8, 4) == 4 * (n / 32 % 64) && Top(lo * 8, 8) == 8 * (n % 32)
  {
    hide Top;
    var (a, b, x, y) := (lo / 32, lo % 32, hi / 8, hi % 8);
    var n := lo + 256 * hi;
    Fields(n, 32, 8 * hi + a, b);
    Fields(8 * hi + a, 64, x, 8 * y + a);
    assert n / 2048 == x;
    assert lo / 8 == 4 * a + lo / 8 % 4;
    TopIs(hi, 0, 8 * x, y, 8);
    TopIs(hi * 32 + lo / 8, x, 4 * (8 * y + a), lo / 8 % 4, 4);
    TopIs(lo * 8, a, 8 * b, 0, 8);
  }

  lemma Fields32(b0: uint8, b1: uint8, b2: uint8, b3: uint8)
    ensures var n := b0 + 256 * b1 + 0x1_0000 * b2 + 0x100_0000 * b3; b2 == n / 0x1_0000 % 256 && b1 == n / 256 % 256 && b0 == n % 256
  {
    var n := b0 + 256 * b1 + 0x1_0000 * b2 + 0x100_0000 * b3;
    Fields(n, 256, b1 + 256 * b2 + 0x1_0000 * b3, b0);
    Fields(b1 + 256 * b2 + 0x1_0000 * b3, 256, b2 + 256 * b3, b1);
    Fields(b2 + 256 * b3, 256, b3, b2);
    assert n / 0x1_0000 == b2 + 256 * b3;
  }

  lemma Fields(n: int, m: int, q: int, r: int)
    requires m == 32 || m == 64 || m == 256
    requires n == m * q + r && 0 <= r < m
    ensures n / m == q && n % m == r
  {
  }

  lemma LoadPixelRange(d: Depth, p: Pixel)
    requires p.Of(d)
    ensures var c := LoadPixel(d, p); 0 <= c.r < 256 && 0 <= c.g < 256 && 0 <= c.b < 256
  {
    hide Top;
  }

  /** `ZYWRLE_SAVE_PIXEL` over pixel `p`; at 32 bits the fourth byte stays. */
  function SavePixel(d: Depth, p: Pixel, c: Colour): (p': Pixel)
    requires p.Of(d)
    ensures p'.Of(d)
  {
    match d
    case D15 =>
      var (r, g, b) := (Top(c.r, 8), Top(c.g, 8), Top(c.b, 8));
      Pixel16(Low15(g, b), High15(r, g))
    case D16 =>
      var (r, g, b) := (Top(c.r, 8), Top(c.g, 4), Top(c.b, 8));
      Pixel16(Low16(g, b), High16(r, g))
    case D32 =>
      p.(b0 := c.b % 256, b1 := c.g % 256, b2 := c.r % 256)
  }

  /** `ZYWRLE_LOAD_COEFF` and `ZYWRLE_SAVE_COEFF`. */
  function LoadCoeff(p: Cell): Colour {
    Colour(p.c2, p.c1, p.c0)
  }

  function SaveCoeff(p: Cell, c: Colour): Cell {
    p.(c2 := SignedChar(c.r), c1 := SignedChar(c.g), c0 := SignedChar(c.b))
  }

  lemma Mod256(x: int, q: int, r: int)
    requires x == 256 * q + r && 0 <= r < 256
    ensures x % 256 == r
  {
  }

  lemma Bytes15Are(x: int, y1: int, y0: int, z1: int, z0: int)
    requires 0 <= x < 32 && 0 <= y1 < 4 && 0 <= y0 < 8 && 0 <= z1 < 8 && 0 <= z0 < 4
    ensures High15(8 * x, 64 * y1 + 8 * y0) == 4 * x + y1
    ensures Low15(64 * y1 + 8 * y0, 32 * z1 + 8 * z0) == 4 * z1 + z0 + 32 * y0
  {
    Mod256((64 * y1 + 8 * y0) * 4, y1, 32 * y0);
  }

  lemma Bytes16Are(x: int, y1: int, y0: int, z1: int, z0: int)
    requires 0 <= x < 32 && 0 <= y1 < 8 && 0 <= y0 < 8 && 0 <= z1 < 4 && 0 <= z0 < 8
    ensures High16(8 * x, 32 * y1 + 4 * y0) == 8 * x + y1
    ensures Low16(32 * y1 + 4 * y0, 64 * z1 + 8 * z0) == 8 * z1 + z0 + 32 * y0
  {
    Mod256((32 * y1 + 4 * y0) * 8, y1, 32 * y0);
  }

  lemma Bytes15(r: int, g: int, b: int)
    requires 0 <= r <= 248 && 0 <= g <= 248 && 0 <= b <= 248 && r % 8 == 0 && g % 8 == 0 && b % 8 == 0
    ensures var (lo, hi) := (Low15(g, b), High15(r, g));
            Top(hi * 2, 8) == r && Top(hi * 64 + lo / 4, 8) == g && Top(lo * 8, 8) == b
  {
    hide Top, Low15, High15;
    var (x, y, z) := (r / 8, g / 8, b / 8);
    var (y1, y0, z1, z0) := (y / 8, y % 8, z / 4, z % 4);
    var (lo, hi) := (Low15(g, b), High15(r, g));
    assert r == 8 * x && g == 64 * y1 + 8 * y0 && b == 32 * z1 + 8 * z0;
    Bytes15Are(x, y1, y0, z1, z0);
    TopIs(hi * 2, 0, r, 2 * y1, 8);
    TopIs(hi * 64 + lo / 4, x, g, z1, 8);
    TopIs(lo * 8, y0, b, 0, 8);
  }

  lemma Bytes16(r: int, g: int, b: int)
    requires 0 <= r <= 248 && 0 <= g <= 252 && 0 <= b <= 248 && r % 8 == 0 && g % 4 == 0 && b % 8 == 0
    ensures var (lo, hi) := (Low16(g, b), High16(r, g));
            Top(hi, 8) == r && Top(hi * 32 + lo / 8, 4) == g && Top(lo * 8, 8) == b
  {
    hide Top, Low16, High16;
    var (x, y, z) := (r / 8, g / 4, b / 8);
    var (y1, y0, z1, z0) := (y / 8, y % 8, z / 8, z % 8);
    var (lo, hi) := (Low16(g, b), High16(r, g));
    assert r == 8 * x && g == 32 * y1 + 4 * y0 && b == 64 * z1 + 8 * z0;
    Bytes16Are(x, y1, y0, z1, z0);
    TopIs(hi, 0, r, y1, 8);
    TopIs(hi * 32 + lo / 8, x, g, z1, 4);
    TopIs(lo * 8, y0, b, 0, 8);
  }

  /** `Top` keeps the low byte but for its last bits. */
  lemma TopIs(x: int, high: int, kept: int, low: int, m: int)
    requires IsGranularity(m) && 0 <= kept < 256 && kept % m == 0 && 0 <= low < m
    requires x == 256 * high + kept + low
    ensures Top(x, m) == kept
  {
    if m == 4 {
      assert kept == 4 * (kept / 4);
    } else if m == 8 {
      assert kept == 8 * (kept / 8);
    }
    Mod256(x, high, kept + low);
  }

  /** A fine coefficient survives the mask of `ZYWRLE_SAVE_PIXEL` and the sign conversion of `ZYWRLE_SAVE_COEFF`. */
  lemma CoefficientTop(v: int8, m: int)
    requires IsGranularity(m) && v % m == 0
    ensures Top(v, m) == v % 256 && SignedChar(Top(v, m)) == v
  {
    assert v % 256 == if v < 0 then v + 256 else v;
  }

  /** Packing a fine cell into a pixel and unpacking it again loses nothing. */
  lemma PackingLossless(d: Depth, under: Pixel, p: Cell, p': Cell)
    requires under.Of(d) && Fine(p, d.MaskY(), d.MaskUV())
    ensures SaveCoeff(p', LoadPixel(d, SavePixel(d, under, LoadCoeff(p)))) == p.(c3 := p'.c3)
  {
    hide Top, SignedChar, Low15, High15, Low16, High16;
    CoefficientTop(p.c0, d.MaskUV());
    CoefficientTop(p.c1, d.MaskY());
    CoefficientTop(p.c2, d.MaskUV());
    match d
    case D15 => Bytes15(Top(p.c2, 8), Top(p.c1, 8), Top(p.c0, 8));
    case D16 => Bytes16(Top(p.c2, 8), Top(p.c1, 4), Top(p.c0, 8));
    case D32 =>
  }

  // ---------- RGB <=> YUV ----------

  /** `Y == -128` is moved to the odd range, by the granularity of the mask. */
  function Correct(x: int, m: int): int {
    if x == -128 then x + m else x
  }

  /** `ZYWRLE_RGBYUV1`, as the triple that is stored with `ZYWRLE_SAVE_COEFF(pBuf,V,Y,U)`. */
  function RgbYuv(d: Depth, c: Colour): Colour {
    var y := Correct(Floor((c.r + 2 * c.g + c.b) / 4 - 128, d.MaskY()), d.MaskY());
    var u := Correct(Floor((c.b - c.g) / 2, d.MaskUV()), d.MaskUV());
    var v := Correct(Floor((c.r - c.g) / 2, d.MaskUV()), d.MaskUV());
    Colour(v, y, u)
  }

  function Round(x: int): int {
    if x < 0 then 0 else if x > 255 then 255 else x
  }

  /** It is the byte nearest to `x`. */
  lemma RoundNearest(x: int, k: int)
    requires 0 <= k < 256
    ensures 0 <= Round(x) < 256 && Abs(x - Round(x)) <= Abs(x - k)
  {
  }

  /** `ZYWRLE_YUVRGB1` of the triple that `ZYWRLE_LOAD_COEFF(pBuf,V,Y,U)` loads. */
  function YuvRgb(c: Colour): Colour {
    var (y, u, v) := (c.g + 128, c.b * 2, c.r * 2);
    var g := y - (u + v) / 4;
    Colour(Round(v + g), Round(g), Round(u + g))
  }

  predicate InGamut(c: Colour) {
    0 <= c.r < 256 && 0 <= c.g < 256 && 0 <= c.b < 256
  }

  /** What lies in the three bytes of a cell at 32 bits: the halved differences of blue and of red from green around the
      luminance, all but the values that the odd range leaves out. */
  lemma StoredChannels(c: Colour, p: Cell)
    requires InGamut(c) && c.r + 2 * c.g + c.b > 3 && c.b - c.g > -255 && c.r - c.g > -255
    ensures var q := SaveCoeff(p, RgbYuv(D32, c));
            && 4 * (q.c1 + 128) <= c.r + 2 * c.g + c.b < 4 * (q.c1 + 128) + 4
            && 2 * q.c0 <= c.b - c.g < 2 * q.c0 + 2 && 2 * q.c2 <= c.r - c.g < 2 * q.c2 + 2
  {
  }

  lemma CorrectFine(x: int, m: int)
    requires -128 <= x < 128 && IsGranularity(m)
    ensures var r := Correct(Floor(x, m), m); InRange(r) && r % m == 0
  {
  }

  /** The conversion yields fine coefficients. */
  lemma RgbYuvFine(d: Depth, c: Colour, p: Cell)
    requires InGamut(c)
    ensures Fine(SaveCoeff(p, RgbYuv(d, c)), d.MaskY(), d.MaskUV())
    ensures LoadCoeff(SaveCoeff(p, RgbYuv(d, c))) == RgbYuv(d, c)
  {
    hide Correct, Floor;
    CorrectFine((c.r + 2 * c.g + c.b) / 4 - 128, d.MaskY());
    CorrectFine((c.b - c.g) / 2, d.MaskUV());
    CorrectFine((c.r - c.g) / 2, d.MaskUV());
  }
}
