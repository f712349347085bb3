/** The example server that rotates and flips its screen. */
module Rotate {
  import opened Grid
  import opened Canvas

  datatype Turn = Clockwise | CounterClockwise | FlipHorizontally | FlipVertically | HalfTurn

  /** Where `FUNC` puts the pixel of column `i` and row `j`. */
  function Func(t: Turn, w: nat, h: nat, i: nat, j: nat): int {
    match t
    case Clockwise => h - 1 - j + i * h
    case CounterClockwise => j + (w - 1 - i) * h
    case FlipHorizontally => (w - 1 - i) + j * w
    case FlipVertically => i + (h - 1 - j) * w
    case HalfTurn => (w - 1 - i) + (h - 1 - j) * w
  }

  predicate SwapsDimensions(t: Turn) { t.Clockwise? || t.CounterClockwise? }

  function Size(w: nat, h: nat): nat { h * w }

  function Spot(w: nat, x: nat, y: nat): nat { y * w + x }

  lemma SpotIn(w: nat, h: nat, x: nat, y: nat)
    requires x < w && y < h
    ensures Spot(w, x, y) < Size(w, h) && Row(w, Spot(w, x, y)) == y && Col(w, Spot(w, x, y)) == x
  {
    Ordered(w, y, h, h);
    At(w, y, x);
  }

  lemma SpotOf(w: nat, h: nat, k: nat)
    requires k < Size(w, h)
    ensures w > 0 && Row(w, k) < h && k == Spot(w, Col(w, k), Row(w, k))
  {
    assert w == 0 ==> Size(w, h) == 0;
    RowCol(w, h, k);
  }

  lemma SizeSwaps(w: nat, h: nat)
    ensures Size(w, h) == Size(h, w)
  {
  }

  datatype Picture = Picture(w: nat, h: nat, pixels: seq<Pixel>) {
    ghost predicate Valid() { |pixels| == Size(w, h) }
  }

  function Dot(p: Picture, x: nat, y: nat): Pixel
    requires p.Valid() && x < p.w && y < p.h
  {
    SpotIn(p.w, p.h, x, y);
    p.pixels[Spot(p.w, x, y)]
  }

  /** The column and row that a turn brings to column `x` and row `y`, as one sees it on the screen. */
  function Origin(t: Turn, w: nat, h: nat, x: nat, y: nat): (o: (nat, nat))
    requires if SwapsDimensions(t) then x < h && y < w else x < w && y < h
    ensures o.0 < w && o.1 < h
  {
    match t
    case Clockwise => (y, h - 1 - x)
    case CounterClockwise => (w - 1 - y, x)
    case FlipHorizontally => (w - 1 - x, y)
    case FlipVertically => (x, h - 1 - y)
    case HalfTurn => (w - 1 - x, h - 1 - y)
  }

  /** The width and the height of the turned screen. */
  function Across(t: Turn, w: nat, h: nat): nat { if SwapsDimensions(t) then h else w }

  function Down(t: Turn, w: nat, h: nat): nat { if SwapsDimensions(t) then w else h }

  /** The picture turned. */
  function Turned(t: Turn, p: Picture): (r: Picture)
    requires p.Valid()
    ensures r.Valid() && r.w == Across(t, p.w, p.h) && r.h == Down(t, p.w, p.h)
  {
    SizeSwaps(p.w, p.h);
    Picture(Across(t, p.w, p.h), Down(t, p.w, p.h), seq(Size(p.w, p.h), k requires 0 <= k < Size(p.w, p.h) => TurnedDot(t, p, k)))
  }

  function TurnedDot(t: Turn, p: Picture, k: nat): Pixel
    requires p.Valid() && k < Size(p.w, p.h)
  {
    SizeSwaps(p.w, p.h);
    SpotOf(Across(t, p.w, p.h), Down(t, p.w, p.h), k);
    var o := Origin(t, p.w, p.h, Col(Across(t, p.w, p.h), k), Row(Across(t, p.w, p.h), k));
    Dot(p, o.0, o.1)
  }

  lemma TurnedAt(t: Turn, p: Picture, x: nat, y: nat)
    requires p.Valid() && x < Turned(t, p).w && y < Turned(t, p).h
    ensures var o := Origin(t, p.w, p.h, x, y);
            Dot(Turned(t, p), x, y) == Dot(p, o.0, o.1)
  {
    hide Size, Spot;
    SizeSwaps(p.w, p.h);
    var k := Spot(Across(t, p.w, p.h), x, y);
    SpotIn(Turned(t, p).w, Turned(t, p).h, x, y);
    assert Turned(t, p).pixels[k] == TurnedDot(t, p, k);
  }

  /** Where the first row goes: a clockwise turn makes it the last column, and a counterclockwise one the first, upwards. */
  lemma FirstRow(t: Turn, p: Picture, x: nat)
    requires p.Valid() && p.h > 0 && x < p.w
    ensures var r := Turned(t, p);
            Dot(p, x, 0) ==
            match t
            case Clockwise => Dot(r, r.w - 1, x)
            case CounterClockwise => Dot(r, 0, r.h - 1 - x)
            case FlipHorizontally => Dot(r, r.w - 1 - x, 0)
            case FlipVertically => Dot(r, x, r.h - 1)
            case HalfTurn => Dot(r, r.w - 1 - x, r.h - 1)
  {
    hide Dot, Turned;
    match t
    case Clockwise => TurnedAt(t, p, p.h - 1, x);
    case CounterClockwise => TurnedAt(t, p, 0, p.w - 1 - x);
    case FlipHorizontally => TurnedAt(t, p, p.w - 1 - x, 0);
    case FlipVertically => TurnedAt(t, p, x, p.h - 1);
    case HalfTurn => TurnedAt(t, p, p.w - 1 - x, p.h - 1);
  }

  lemma SamePicture(p: Picture, q: Picture)
    requires p.Valid() && q.Valid() && p.w == q.w && p.h == q.h
    requires forall x: nat, y: nat :: x < p.w && y < p.h ==> Dot(p, x, y) == Dot(q, x, y)
    ensures p == q
  {
    hide Size, Spot;
    forall k | 0 <= k < |p.pixels|
      ensures p.pixels[k] == q.pixels[k]
    {
      SpotOf(p.w, p.h, k);
      assert Dot(p, Col(p.w, k), Row(p.w, k)) == Dot(q, Col(p.w, k), Row(p.w, k));
    }
  }

  /** A turn each way is none, and so are two equal flips or two half turns. */
  lemma Undone(t: Turn, p: Picture)
    requires p.Valid()
    ensures Turned(match t case Clockwise => CounterClockwise case CounterClockwise => Clockwise case _ => t, Turned(t, p)) == p
  {
    hide Turned, Dot;
    var u := match t case Clockwise => CounterClockwise case CounterClockwise => Clockwise case _ => t;
    var q := Turned(t, p);
    forall x: nat, y: nat | x < p.w && y < p.h
      ensures Dot(Turned(u, q), x, y) == Dot(p, x, y)
    {
      TurnedAt(u, q, x, y);
      var o := Origin(u, q.w, q.h, x, y);
      TurnedAt(t, p, o.0, o.1);
    }
    SamePicture(Turned(u, q), p);
  }

  lemma Compose(t: Turn, u: Turn, p: Picture)
    requires p.Valid()
    requires (t == u && SwapsDimensions(t)) || (t.FlipHorizontally? && u.FlipVertically?) || (t.FlipVertically? && u.FlipHorizontally?)
    ensures Turned(t, Turned(u, p)) == Turned(HalfTurn, p)
  {
    hide Turned, Dot;
    var q := Turned(u, p);
    forall x: nat, y: nat | x < p.w && y < p.h
      ensures Dot(Turned(t, q), x, y) == Dot(Turned(HalfTurn, p), x, y)
    {
      TurnedAt(t, q, x, y);
      var o := Origin(t, q.w, q.h, x, y);
      TurnedAt(u, p, o.0, o.1);
      TurnedAt(HalfTurn, p, x, y);
    }
    SamePicture(Turned(t, q), Turned(HalfTurn, p));
  }

  /** Two turns either way are a half turn, and so are both flips in either order. */
  lemma HalfTurns(p: Picture)
    requires p.Valid()
    ensures Turned(Clockwise, Turned(Clockwise, p)) == Turned(HalfTurn, p) == Turned(CounterClockwise, Turned(CounterClockwise, p))
    ensures Turned(FlipHorizontally, Turned(FlipVertically, p)) == Turned(HalfTurn, p) == Turned(FlipVertically, Turned(FlipHorizontally, p))
  {
    Compose(Clockwise, Clockwise, p);
    Compose(CounterClockwise, CounterClockwise, p);
    Compose(FlipHorizontally, FlipVertically, p);
    Compose(FlipVertically, FlipHorizontally, p);
  }

  /** Four turns the same way are none. */
  lemma FourTurns(t: Turn, p: Picture)
    requires p.Valid() && SwapsDimensions(t)
    ensures Turned(t, Turned(t, Turned(t, Turned(t, p)))) == p
  {
    hide Turned;
    HalfTurns(p);
    HalfTurns(Turned(HalfTurn, p));
    Undone(HalfTurn, p);
  }

  /** The place in the new buffer, as column and row, of a pixel of the old one. */
  function Target(t: Turn, w: nat, h: nat, i: nat, j: nat): (o: (nat, nat))
    requires i < w && j < h
    ensures if SwapsDimensions(t) then o.0 < h && o.1 < w else o.0 < w && o.1 < h
    ensures Origin(t, w, h, o.0, o.1) == (i, j)
  {
    match t
    case Clockwise => (h - 1 - j, i)
    case CounterClockwise => (j, w - 1 - i)
    case FlipHorizontally => (w - 1 - i, j)
    case FlipVertically => (i, h - 1 - j)
    case HalfTurn => (w - 1 - i, h - 1 - j)
  }

  lemma FuncTarget(t: Turn, w: nat, h: nat, i: nat, j: nat)
    requires i < w && j < h
    ensures var o := Target(t, w, h, i, j);
            Func(t, w, h, i, j) == Spot(Across(t, w, h), o.0, o.1)
  {
  }

  /** `FUNC` maps the pixels of the screen one to one onto the places of the turned one: each place has just one pixel
      that goes there, its origin. */
  lemma Bijective(t: Turn, w: nat, h: nat, k: nat)
    requires k < Size(w, h)
    ensures Across(t, w, h) > 0 && (if SwapsDimensions(t) then Col(h, k) < h && Row(h, k) < w else Col(w, k) < w && Row(w, k) < h)
    ensures forall i: nat, j: nat :: i < w && j < h ==>
              (Func(t, w, h, i, j) == k <==> Origin(t, w, h, Col(Across(t, w, h), k), Row(Across(t, w, h), k)) == (i, j))
  {
    hide Size, Spot, Func;
    SizeSwaps(w, h);
    var w', h' := Across(t, w, h), Down(t, w, h);
    SpotOf(w', h', k);
    forall i: nat, j: nat | i < w && j < h
      ensures Func(t, w, h, i, j) == k <==> Origin(t, w, h, Col(w', k), Row(w', k)) == (i, j)
    {
      FuncTarget(t, w, h, i, j);
      var o := Target(t, w, h, i, j);
      SpotIn(w', h', o.0, o.1);
    }
  }

  lemma FuncIn(t: Turn, w: nat, h: nat, i: nat, j: nat)
    requires i < w && j < h
    ensures 0 <= Func(t, w, h, i, j) < Size(w, h)
  {
    hide Size, Spot, Func;
    SizeSwaps(w, h);
    FuncTarget(t, w, h, i, j);
    var o := Target(t, w, h, i, j);
    SpotIn(Across(t, w, h), Down(t, w, h), o.0, o.1);
  }

  /** The new buffer when the pixels before column `i` of row `j` have been put into it. */
  ghost predicate Put(now: seq<Pixel>, p: Picture, t: Turn, i: nat, j: nat)
    requires p.Valid()
  {
    && |now| == |p.pixels|
    && forall x: nat, y: nat {:trigger Func(t, p.w, p.h, x, y)} :: x < p.w && y < p.h && (y < j || (y == j && x < i)) ==>
         0 <= Func(t, p.w, p.h, x, y) < |now| && now[Func(t, p.w, p.h, x, y)] == Dot(p, x, y)
  }

  lemma PutNext(now: seq<Pixel>, p: Picture, t: Turn, i: nat, j: nat)
    requires p.Valid() && i < p.w && j < p.h && Put(now, p, t, i, j)
    ensures 0 <= Func(t, p.w, p.h, i, j) < |now|
    ensures Put(now[Func(t, p.w, p.h, i, j) := Dot(p, i, j)], p, t, i + 1, j)
  {
    hide Func, Size, Spot, Dot, Origin;
    FuncIn(t, p.w, p.h, i, j);
    Bijective(t, p.w, p.h, Func(t, p.w, p.h, i, j));
  }

  lemma PutRow(now: seq<Pixel>, p: Picture, t: Turn, j: nat)
    requires p.Valid()
    ensures Put(now, p, t, p.w, j) ==> Put(now, p, t, 0, j + 1)
    ensures |now| == |p.pixels| ==> Put(now, p, t, 0, 0)
  {
  }

  lemma PutAll(now: seq<Pixel>, p: Picture, t: Turn)
    requires p.Valid() && Put(now, p, t, 0, p.h)
    ensures now == Turned(t, p).pixels
  {
    hide Size, Spot, Func, Dot;
    SizeSwaps(p.w, p.h);
    var w, h := Across(t, p.w, p.h), Down(t, p.w, p.h);
    forall k | 0 <= k < |now|
      ensures now[k] == Turned(t, p).pixels[k]
    {
      Bijective(t, p.w, p.h, k);
      var o := Origin(t, p.w, p.h, Col(w, k), Row(w, k));
      assert Func(t, p.w, p.h, o.0, o.1) == k;
      assert Turned(t, p).pixels[k] == TurnedDot(t, p, k);
    }
  }

  class Screen {
    var width: nat
    var height: nat
    var paddedWidthInBytes: nat
    const outBits: nat
    const frameBuffer: array<Pixel>

    /** Rows follow each other without padding. */
    ghost predicate Valid()
      reads this
    {
      frameBuffer.Length == Size(width, height) && paddedWidthInBytes == width * outBits / 8
    }

    ghost function Shown(): Picture
      reads this, frameBuffer
    {
      Picture(width, height, frameBuffer[..])
    }

    constructor (width: nat, height: nat, outBits: nat, pixel: Pixel)
      ensures Valid() && this.width == width && this.height == height
    {
      this.width, this.height, this.outBits, paddedWidthInBytes := width, height, outBits, width * outBits / 8;
      frameBuffer := new Pixel[Size(width, height)](_ => pixel);
    }

    /** The permuting copy. */
    method Permute(t: Turn) returns (newBuffer: array<Pixel>)
      requires Valid()
      ensures fresh(newBuffer) && newBuffer[..] == Turned(t, Shown()).pixels
    {
      hide Turned, Func, Put, Size;
      ghost var p := Shown();
      var w, h := width, height;
      newBuffer := new Pixel[Size(w, h)](_ => []);
      PutRow(newBuffer[..], p, t, 0);
      for j := 0 to h
        invariant Put(newBuffer[..], p, t, 0, j)
      {
        for i := 0 to w
          invariant Put(newBuffer[..], p, t, i, j)
        {
          SpotIn(w, h, i, j);
          PutNext(newBuffer[..], p, t, i, j);
          newBuffer[Func(t, w, h, i, j)] := frameBuffer[i + j * w];
        }
        PutRow(newBuffer[..], p, t, j);
      }
      PutAll(newBuffer[..], p, t);
    }

    /** The copy back, and the swap of the dimensions. */
    method Apply(t: Turn)
      requires Valid()
      modifies this, frameBuffer
      ensures Valid() && Shown() == Turned(t, old(Shown()))
    {
      hide Turned, Size;
      var w, h := width, height;
      SizeSwaps(w, h);
      var newBuffer := Permute(t);
      forall k | 0 <= k < frameBuffer.Length {
        frameBuffer[k] := newBuffer[k];
      }
      assert frameBuffer[..] == newBuffer[..];
      if SwapsDimensions(t) {
        width := h;
        paddedWidthInBytes := h * outBits / 8;
        height := w;
      }
    }
  }
}
