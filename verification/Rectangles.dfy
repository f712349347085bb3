/** The rectangles of a framebuffer update, with their headers, as the client takes them. */
module Rectangles {
  import opened Wrappers
  import opened Grid
  import opened Octets
  import opened Canvas
  import opened Connection
  import opened Rre

  const ENCODING_RAW: nat := 0
  const ENCODING_RRE: nat := 2
  const ENCODING_CORRE: nat := 4
  const ENCODING_HEXTILE: nat := 5
  const ENCODING_LAST_RECT: nat := 0xFFFF_FF20

  /** `rfbFramebufferUpdateRectHeader` */
  function Header(b: Box, encoding: nat): (r: seq<byte>)
    ensures |r| == 12
  {
    Swapped(b.x, 2) + (Swapped(b.y, 2) + (Swapped(b.w, 2) + (Swapped(b.h, 2) + Swapped(encoding, 4))))
  }

  /** Position, size and encoding, in network byte order, sections 7.6.1 and 7.7.3 of RFC 6143. */
  lemma HeaderBytes()
    ensures Header(Box(0x102, 0x304, 0x506, 0x708), 0x90A0B0C) == [1, 2, 3, 4, 5, 6, 7, 8, 9, 0xA, 0xB, 0xC]
    ensures WideBox([1, 2, 3, 4, 5, 6, 7, 8]) == Box(0x102, 0x304, 0x506, 0x708) && SmallBox([1, 2, 3, 4]) == Box(1, 2, 3, 4)
  {
    hide Big, Swapped;
    SwappedTwo(0x102);
    SwappedTwo(0x304);
    SwappedTwo(0x506);
    SwappedTwo(0x708);
    SwappedTwo(0x90A);
    assert Swapped(0x90A0B0C, 4) == [9, 0xA, 0xB, 0xC] by { SwappedFour(); }
    BigTwo(1, 2);
    BigTwo(3, 4);
    BigTwo(5, 6);
    BigTwo(7, 8);
    var c: seq<byte> := [1, 2, 3, 4, 5, 6, 7, 8];
    assert c[..2] == [1, 2] && c[2..4] == [3, 4] && c[4..6] == [5, 6] && c[6..] == [7, 8];
  }

  lemma SwappedFour()
    ensures Swapped(0x90A0B0C, 4) == [9, 0xA, 0xB, 0xC]
  {
    assert Swapped(0x90A, 2) == [9, 0xA] by { SwappedTwo(0x90A); }
    assert Swapped(0x90A0B, 3) == [9, 0xA, 0xB];
  }

  predicate FitsHeader(b: Box) { b.x < 0x1_0000 && b.y < 0x1_0000 && b.w < 0x1_0000 && b.h < 0x1_0000 }

  /** Two bytes hold a number but for what 16 bits cannot. */
  lemma TwoBytes(n: nat)
    ensures Big(Swapped(n, 2)) == n % 0x1_0000
  {
    hide Byte, Int, Big, Swapped;
    SwappedTwo(n);
    BigTwo(Byte(n / 256 % 256), Byte(n % 256));
    ByteBack(n / 256);
    ByteBack(n);
    LowBytes(n);
  }

  lemma SwappedTwo(n: nat)
    ensures Swapped(n, 2) == [Byte(n / 256 % 256), Byte(n % 256)]
  {
    hide Byte;
    assert Swapped(n / 256 / 256, 0) == [];
    assert Swapped(n / 256, 1) == [Byte(n / 256 % 256)];
  }

  lemma BigTwo(a: byte, b: byte)
    ensures Big([a, b]) == Int(a) * 256 + Int(b)
  {
    hide Int;
    assert [a, b] == [] + [a] + [b];
    BigEnd([] + [a], b);
    BigEnd([], a);
  }

  lemma LowBytes(n: nat)
    ensures n / 256 % 256 * 256 + n % 256 == n % 0x1_0000
  {
    DivModUnique(0x1_0000, n / 256 / 256, n / 256 % 256 * 256 + n % 256);
  }

  lemma ByteBack(n: nat)
    ensures Int(Byte(n % 256)) == n % 256
  {
  }

  lemma FourBytes(n: nat)
    requires n < 0x1_0000_0000
    ensures Big(Swapped(n, 4)) == n
  {
    assert Power256(4) == 256 * Power256(3) && Power256(3) == 256 * Power256(2) && Power256(2) == 256 * Power256(1) && Power256(1) == 256 * Power256(0);
    BigSwapped(n, 4);
  }

  /** The client finds in a header what it was made of. */
  lemma HeaderBack(b: Box, encoding: nat)
    requires FitsHeader(b) && encoding < 0x1_0000_0000
    ensures WideBox(Header(b, encoding)[..8]) == b && Big(Header(b, encoding)[8..]) == encoding
  {
    hide Big, Swapped;
    TwoBytes(b.x);
    TwoBytes(b.y);
    TwoBytes(b.w);
    TwoBytes(b.h);
    FourBytes(encoding);
    HeaderParts(Swapped(b.x, 2), Swapped(b.y, 2), Swapped(b.w, 2), Swapped(b.h, 2), Swapped(encoding, 4));
  }

  lemma HeaderParts(p: seq<byte>, q: seq<byte>, r: seq<byte>, t: seq<byte>, u: seq<byte>)
    requires |p| == |q| == |r| == |t| == 2 && |u| == 4
    ensures var all := p + (q + (r + (t + u)));
            && |all| == 12 && all[8..] == u
            && all[..8][..2] == p && all[..8][2..4] == q && all[..8][4..6] == r && all[..8][6..] == t
  {
  }

  // ---------- Raw pixels ----------

  function DecodeRaw(s: Screen, width: nat, height: nat, rect: Box, bpp: nat): Option<Screen>
    requires width > 0
  {
    if |s.input| < rect.w * rect.h * bpp then None
    else
      Some(Screen(s.input[rect.w * rect.h * bpp..],
                  if Supported(bpp) then Blit(s.canvas, width, height, rect, Chop(s.input, bpp, rect.w * rect.h)) else s.canvas))
  }

  /** The state when the first `done` lines of a rectangle of raw pixels have been read. */
  ghost predicate LinesRead(now: Screen, was: Screen, width: nat, height: nat, rect: Box, bpp: nat, done: nat)
    requires width > 0
  {
    done <= rect.h && DecodeRaw(was, width, height, rect.(h := done), bpp) == Some(now)
  }

  lemma NoLinesRead(was: Screen, width: nat, height: nat, rect: Box, bpp: nat)
    requires width > 0
    ensures LinesRead(was, was, width, height, rect, bpp, 0)
  {
    NoLines(rect.w, bpp);
    assert was.input[0..] == was.input;
    assert Blit(was.canvas, width, height, rect.(h := 0), []) == was.canvas;
  }

  lemma NoLines(w: nat, bpp: nat)
    ensures w * 0 == 0 && w * 0 * bpp == 0
  {
  }

  /** One more strip of lines. */
  lemma StripRead(now: Screen, next: Screen, was: Screen, width: nat, height: nat, rect: Box, bpp: nat, done: nat, n: nat)
    requires width > 0 && CheckRect(rect, width, height) && done + n <= rect.h && LinesRead(now, was, width, height, rect, bpp, done)
    requires DecodeRaw(now, width, height, Box(rect.x, rect.y + done, rect.w, n), bpp) == Some(next)
    ensures LinesRead(next, was, width, height, rect, bpp, done + n)
  {
    hide Chop, Blit;
    var (a, m) := (rect.w * done, rect.w * n);
    Sums(rect.w, done, n, bpp);
    ChopStrip(was.input, bpp, a, m);
    BlitStrip(was.canvas, width, height, rect, done, n, Chop(was.input, bpp, a + m));
    DropTwice(was.input, a * bpp, m * bpp);
  }

  /** What is left over when a strip does not arrive. */
  lemma StripMissing(now: Screen, was: Screen, width: nat, height: nat, rect: Box, bpp: nat, done: nat, n: nat)
    requires width > 0 && done + n <= rect.h && LinesRead(now, was, width, height, rect, bpp, done)
    requires |now.input| < rect.w * n * bpp
    ensures DecodeRaw(was, width, height, rect, bpp).None?
  {
    hide Chop, Blit;
    Sums(rect.w, done, n, bpp);
    MoreLines(rect.w, done + n, rect.h, bpp);
  }

  lemma Sums(w: nat, done: nat, n: nat, bpp: nat)
    ensures w * (done + n) == w * done + w * n && w * (done + n) * bpp == w * done * bpp + w * n * bpp
    ensures w * done * bpp >= 0 && w * n * bpp >= 0
  {
  }

  lemma MoreLines(w: nat, a: nat, b: nat, bpp: nat)
    requires a <= b
    ensures w * a * bpp <= w * b * bpp
  {
    Scale(w, a, b);
    Scale(bpp, w * a, w * b);
  }

  lemma DropTwice(s: seq<byte>, p: nat, q: nat)
    requires p + q <= |s|
    ensures s[p..][q..] == s[p + q..]
  {
  }

  lemma ChopStrip(s: seq<byte>, bpp: nat, a: nat, m: nat)
    requires (a + m) * bpp <= |s|
    ensures 0 <= a * bpp <= |s| && m * bpp <= |s[a * bpp..]|
    ensures Chop(s, bpp, a) == Chop(s, bpp, a + m)[..a] && Chop(s[a * bpp..], bpp, m) == Chop(s, bpp, a + m)[a..]
  {
    hide Chop;
    assert (a + m) * bpp == a * bpp + m * bpp;
    forall i: nat | i < a
      ensures Chop(s, bpp, a)[i] == Chop(s, bpp, a + m)[i]
    {
      ChopAt(s, bpp, a + m, i);
      ChopAt(s, bpp, a, i);
    }
    forall i: nat | i < m
      ensures Chop(s[a * bpp..], bpp, m)[i] == Chop(s, bpp, a + m)[a + i]
    {
      ChopLater(s, bpp, a, m, i);
    }
  }

  lemma ChopLater(s: seq<byte>, bpp: nat, a: nat, m: nat, i: nat)
    requires (a + m) * bpp <= |s| && i < m && 0 <= a * bpp <= |s| && m * bpp <= |s[a * bpp..]|
    ensures Chop(s[a * bpp..], bpp, m)[i] == Chop(s, bpp, a + m)[a + i]
  {
    hide Chop;
    ChopAt(s, bpp, a + m, a + i);
    ChopAt(s[a * bpp..], bpp, m, i);
    assert (a + i) * bpp == a * bpp + i * bpp;
  }

  /** A picture copied in two strips is the picture. */
  lemma BlitStrip(c: seq<Pixel>, width: nat, height: nat, rect: Box, done: nat, n: nat, pixels: seq<Pixel>)
    requires width > 0 && CheckRect(rect, width, height) && done + n <= rect.h && |pixels| == rect.w * (done + n)
    ensures 0 <= rect.w * done <= |pixels| && |pixels[rect.w * done..]| == rect.w * n
    ensures Blit(Blit(c, width, height, rect.(h := done), pixels[..rect.w * done]), width, height,
                 Box(rect.x, rect.y + done, rect.w, n), pixels[rect.w * done..])
         == Blit(c, width, height, rect.(h := done + n), pixels)
  {
    hide Within, Blit;
    var a := rect.w * done;
    assert rect.w * (done + n) == a + rect.w * n;
    var (upper, lower) := (pixels[..a], pixels[a..]);
    var both := Blit(Blit(c, width, height, rect.(h := done), upper), width, height, Box(rect.x, rect.y + done, rect.w, n), lower);
    var whole := Blit(c, width, height, rect.(h := done + n), pixels);
    forall k: nat | k < |c|
      ensures both[k] == whole[k]
    {
      BlitStripAt(c, width, height, rect, done, n, upper, lower, pixels, k);
    }
  }

  lemma BlitAt(c: seq<Pixel>, width: nat, height: nat, b: Box, pixels: seq<Pixel>, k: nat)
    requires width > 0 && |pixels| == b.w * b.h && k < |c| && CheckRect(b, width, height)
    ensures Covers(b, Col(width, k), Row(width, k)) ==>
              0 <= Within(b, width, k) < |pixels| && Blit(c, width, height, b, pixels)[k] == pixels[Within(b, width, k)]
    ensures !Covers(b, Col(width, k), Row(width, k)) ==> Blit(c, width, height, b, pixels)[k] == c[k]
  {
    hide Within;
    if Covers(b, Col(width, k), Row(width, k)) {
      WithinBounds(b, width, k);
    }
  }

  lemma BlitStripAt(c: seq<Pixel>, width: nat, height: nat, rect: Box, done: nat, n: nat, upper: seq<Pixel>, lower: seq<Pixel>,
                    pixels: seq<Pixel>, k: nat)
    requires width > 0 && CheckRect(rect, width, height) && done + n <= rect.h && |pixels| == rect.w * (done + n)
    requires pixels == upper + lower && |upper| == rect.w * done && |lower| == rect.w * n && k < |c|
    ensures Blit(Blit(c, width, height, rect.(h := done), upper), width, height,
                 Box(rect.x, rect.y + done, rect.w, n), lower)[k]
         == Blit(c, width, height, rect.(h := done + n), pixels)[k]
  {
    hide Within, Blit;
    var (b0, b1, b) := (rect.(h := done), Box(rect.x, rect.y + done, rect.w, n), rect.(h := done + n));
    BlitAt(c, width, height, b0, upper, k);
    BlitAt(Blit(c, width, height, b0, upper), width, height, b1, lower, k);
    BlitAt(c, width, height, b, pixels, k);
    if Covers(b, Col(width, k), Row(width, k)) {
      WithinStrip(rect, done, n, width, k);
    }
  }

  lemma WithinStrip(rect: Box, done: nat, n: nat, width: nat, k: nat)
    requires width > 0 && Covers(rect.(h := done + n), Col(width, k), Row(width, k))
    ensures var all := Within(rect.(h := done + n), width, k);
            && 0 <= all < rect.w * (done + n)
            && (if Row(width, k) < rect.y + done then all == Within(rect.(h := done), width, k) && all < rect.w * done
                else all == rect.w * done + Within(Box(rect.x, rect.y + done, rect.w, n), width, k))
  {
    WithinBounds(rect.(h := done + n), width, k);
    if Row(width, k) < rect.y + done {
      WithinBounds(rect.(h := done), width, k);
    } else {
      var (r, w) := (Row(width, k) - rect.y - done, rect.w);
      assert (done + r) * w == w * done + r * w;
    }
  }

  /** One turn of the loop over strips of raw lines. */
  method HandleStrip(conn: Connection, fb: FrameBuffer, rect: Box, bpp: nat, done: nat, n: nat, ghost was: Screen) returns (ok: bool)
    requires fb.Valid() && CheckRect(rect, fb.width, fb.height) && done + n <= rect.h && n * (rect.w * bpp) <= RFB_BUFFER_SIZE
    requires LinesRead(Screen(conn.input, fb.pixels[..]), was, fb.width, fb.height, rect, bpp, done)
    modifies conn, fb.pixels
    ensures if ok then LinesRead(Screen(conn.input, fb.pixels[..]), was, fb.width, fb.height, rect, bpp, done + n)
            else DecodeRaw(was, fb.width, fb.height, rect, bpp).None?
    ensures !Supported(bpp) ==> fb.pixels[..] == old(fb.pixels[..])
  {
    hide Chop, Blit, LinesRead;
    ghost var now := Screen(conn.input, fb.pixels[..]);
    Regroup(rect.w, n, bpp);
    var bytes;
    ok, bytes := conn.ReadBuffer(rect.w * n * bpp);
    if !ok {
      StripMissing(now, was, fb.width, fb.height, rect, bpp, done, n);
      return;
    }
    ChopPrefix(now.input, bpp, rect.w * n);
    fb.CopyRectangle(Chop(bytes, bpp, rect.w * n), Box(rect.x, rect.y + done, rect.w, n), bpp);
    StripRead(now, Screen(conn.input, fb.pixels[..]), was, fb.width, fb.height, rect, bpp, done, n);
  }

  lemma Regroup(w: nat, h: nat, bpp: nat)
    ensures w * h * bpp == h * (w * bpp)
  {
  }

  /** The client's loop over strips of raw lines that its buffer holds.  At other pixel sizes it reads them and shows
      nothing. */
  method HandleRaw(conn: Connection, fb: FrameBuffer, rect: Box, bpp: nat) returns (ok: bool)
    requires fb.Valid() && 0 < bpp <= 4 && FitsHeader(rect) && CheckRect(rect, fb.width, fb.height)
    modifies conn, fb.pixels
    ensures var d := DecodeRaw(Screen(old(conn.input), old(fb.pixels[..])), fb.width, fb.height, rect, bpp);
            ok == d.Some? && (ok ==> d.value == Screen(conn.input, fb.pixels[..]))
    ensures !Supported(bpp) ==> fb.pixels[..] == old(fb.pixels[..])
  {
    hide LinesRead, DecodeRaw, CheckRect;
    ghost var was := Screen(conn.input, fb.pixels[..]);
    NoLinesRead(was, fb.width, fb.height, rect, bpp);
    var bytesPerLine := rect.w * bpp;
    var linesToRead := if bytesPerLine != 0 then Quotient(RFB_BUFFER_SIZE, bytesPerLine) else 0;
    Lines(rect, bpp, linesToRead);
    var y, h := rect.y, rect.h;
    while linesToRead > 0 && h > 0
      invariant 0 <= h <= rect.h && y == rect.y + (rect.h - h)
      invariant linesToRead * bytesPerLine <= RFB_BUFFER_SIZE && (rect.w > 0 <==> linesToRead > 0)
      invariant LinesRead(Screen(conn.input, fb.pixels[..]), was, fb.width, fb.height, rect, bpp, rect.h - h)
      invariant !Supported(bpp) ==> fb.pixels[..] == was.canvas
    {
      if linesToRead > h {
        Scale(bytesPerLine, h, linesToRead);
        linesToRead := h;
      }
      ok := HandleStrip(conn, fb, rect, bpp, y - rect.y, linesToRead, was);
      if !ok {
        return;
      }
      h := h - linesToRead;
      y := y + linesToRead;
    }
    AllRead(Screen(conn.input, fb.pixels[..]), was, fb.width, fb.height, rect, bpp, rect.h - h);
    ok := true;
  }

  lemma Lines(rect: Box, bpp: nat, n: nat)
    requires FitsHeader(rect) && 0 < bpp <= 4
    requires n == if rect.w * bpp != 0 then Quotient(RFB_BUFFER_SIZE, rect.w * bpp) else 0
    ensures n * (rect.w * bpp) <= RFB_BUFFER_SIZE && (rect.w > 0 <==> n > 0)
  {
    Scale(rect.w, bpp, 4);
    var line := rect.w * bpp;
    if line != 0 {
      assert RFB_BUFFER_SIZE == line * n + RFB_BUFFER_SIZE % line;
    }
  }

  lemma AllRead(now: Screen, was: Screen, width: nat, height: nat, rect: Box, bpp: nat, done: nat)
    requires width > 0 && LinesRead(now, was, width, height, rect, bpp, done) && (done == rect.h || rect.w == 0)
    ensures DecodeRaw(was, width, height, rect, bpp) == Some(now)
  {
    if done != rect.h {
      NoColumns(done, bpp);
      NoColumns(rect.h, bpp);
      assert Blit(was.canvas, width, height, rect.(h := done), []) == was.canvas == Blit(was.canvas, width, height, rect, []);
    }
  }

  lemma NoColumns(h: nat, bpp: nat)
    ensures 0 * h == 0 && 0 * h * bpp == 0
  {
  }
}
