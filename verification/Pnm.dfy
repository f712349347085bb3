/** The examples that show a picture file: they make room in the framebuffer for wider pixels and rows, in place. */
module Pnm {
  import opened Grid

  /** The next multiple of four. */
  function Padded(width: nat): (p: nat)
    ensures width <= p < width + 4 && p % 4 == 0
  {
    if width % 4 != 0 then width + 4 - width % 4 else width
  }

  /** Byte `n` when each pixel of three bytes has become one of four, and each row has been padded with zeros. The fourth
      byte of a pixel is left as it was. */
  function Expanded(old_: seq<bv8>, width: nat, padded: nat, height: nat, n: nat): bv8
    requires width <= padded && 0 < padded && |old_| == 4 * padded * height && n < |old_|
  {
    var (j, c) := (Row(4 * padded, n), Col(4 * padded, n));
    if c >= 4 * width then 0
    else if c % 4 == 3 then old_[n]
    else SourceBelow(old_, width, padded, height, n); old_[Source(width, padded, n)]
  }

  /** Where the byte stands in the file. */
  function Source(width: nat, padded: nat, n: nat): nat
    requires padded > 0
  {
    var (j, c) := (Row(4 * padded, n), Col(4 * padded, n));
    (j * width + c / 4) * 3 + c % 4
  }

  lemma SourceBelow(old_: seq<bv8>, width: nat, padded: nat, height: nat, n: nat)
    requires width <= padded && 0 < padded
    ensures Source(width, padded, n) <= n
  {
    var (j, c) := (Row(4 * padded, n), Col(4 * padded, n));
    RowCol(4 * padded, height, n);
    Scale(j, width, padded);
    assert j * (4 * padded) == 4 * (j * padded);
  }

  /** The framebuffer when the bytes from `lo` to `hi` and those from `end` on are as they shall be, and the others as
      they were. */
  ghost predicate Midway(now: seq<bv8>, old_: seq<bv8>, width: nat, padded: nat, height: nat, lo: nat, hi: nat, end: nat)
    requires width <= padded && 0 < padded && |old_| == 4 * padded * height
  {
    && |now| == |old_|
    && forall n :: 0 <= n < |now| ==>
         now[n] == if lo <= n < hi || end <= n then Expanded(old_, width, padded, height, n) else old_[n]
  }

  /** Byte `c` of row `j`, in the framebuffer and in the file. */
  lemma Place(width: nat, padded: nat, height: nat, j: nat, c: nat)
    requires width <= padded && 0 < padded && j < height && c < 4 * padded
    ensures var n := j * padded * 4 + c;
            && n < 4 * padded * height && Row(4 * padded, n) == j && Col(4 * padded, n) == c
            && Source(width, padded, n) == (j * width + c / 4) * 3 + c % 4 <= n
  {
    var r, n := 4 * padded, j * padded * 4 + c;
    FourTimes(j, padded, height);
    At(r, j, c);
    Ordered(r, j, height);
    SourceBelow([], width, padded, height, n);
  }

  lemma FourTimes(j: nat, padded: nat, height: nat)
    ensures j * padded * 4 == j * (4 * padded) && height * (4 * padded) == 4 * padded * height
  {
  }

  lemma Ordered(r: nat, j: nat, height: nat)
    requires j < height
    ensures j * r + r <= height * r
  {
    Scale(r, j + 1, height);
    assert r * (j + 1) == j * r + r;
  }

  lemma ExpandedIs(old_: seq<bv8>, width: nat, padded: nat, height: nat, j: nat, c: nat)
    requires width <= padded && 0 < padded && |old_| == 4 * padded * height && j < height && c < 4 * padded
    ensures 0 <= j * padded * 4 + c < |old_| && 0 <= (j * width + c / 4) * 3 + c % 4 < |old_|
    ensures Expanded(old_, width, padded, height, j * padded * 4 + c)
         == if c >= 4 * width then 0 else if c % 4 == 3 then old_[j * padded * 4 + c] else old_[(j * width + c / 4) * 3 + c % 4]
  {
    Place(width, padded, height, j, c);
  }

  lemma PixelByte(now: seq<bv8>, old_: seq<bv8>, width: nat, padded: nat, height: nat, hi: nat, end: nat, j: nat, i: nat, k: nat)
    requires width <= padded && 0 < padded && |old_| == 4 * padded * height && j < height && i < width && k < 3
    requires j * padded * 4 + 4 * i + k < hi <= end && Midway(now, old_, width, padded, height, j * padded * 4 + 4 * i + k + 1, hi, end)
    ensures 0 <= j * padded * 4 + 4 * i + k < |now| && 0 <= (j * width + i) * 3 + k < |now|
    ensures var next := now[j * padded * 4 + 4 * i + k := now[(j * width + i) * 3 + k]];
            Midway(next, old_, width, padded, height, j * padded * 4 + 4 * i + k, hi, end)
  {
    hide Expanded;
    ExpandedIs(old_, width, padded, height, j, 4 * i + k);
    Quarter(i, k);
    Place(width, padded, height, j, 4 * i + k);
  }

  lemma Quarter(i: nat, k: nat)
    requires k < 4
    ensures (4 * i + k) / 4 == i && (4 * i + k) % 4 == k
  {
  }

  /** The fourth byte of a pixel stays. */
  lemma SpareByte(now: seq<bv8>, old_: seq<bv8>, width: nat, padded: nat, height: nat, hi: nat, end: nat, j: nat, i: nat)
    requires width <= padded && 0 < padded && |old_| == 4 * padded * height && j < height && i < width
    requires j * padded * 4 + 4 * i + 4 <= hi <= end && Midway(now, old_, width, padded, height, j * padded * 4 + 4 * i + 4, hi, end)
    ensures Midway(now, old_, width, padded, height, j * padded * 4 + 4 * i + 3, hi, end)
  {
    hide Expanded;
    ExpandedIs(old_, width, padded, height, j, 4 * i + 3);
    Quarter(i, 3);
  }

  lemma PaddingByte(now: seq<bv8>, old_: seq<bv8>, width: nat, padded: nat, height: nat, end: nat, j: nat, c: nat)
    requires width <= padded && 0 < padded && |old_| == 4 * padded * height && j < height && 4 * width <= c < 4 * padded
    requires j * padded * 4 + c < end && Midway(now, old_, width, padded, height, j * padded * 4, j * padded * 4 + c, end)
    ensures 0 <= j * padded * 4 + c < |now|
    ensures Midway(now[j * padded * 4 + c := 0], old_, width, padded, height, j * padded * 4, j * padded * 4 + c + 1, end)
  {
    hide Expanded;
    ExpandedIs(old_, width, padded, height, j, c);
  }

  lemma MidwaySame(now: seq<bv8>, old_: seq<bv8>, width: nat, padded: nat, height: nat)
    requires width <= padded && 0 < padded && |old_| == 4 * padded * height
    ensures Midway(old_, old_, width, padded, height, 0, 0, height * padded * 4)
    ensures forall lo: nat, end: nat {:trigger Midway(now, old_, width, padded, height, lo, end, end)} ::
              lo <= end && Midway(now, old_, width, padded, height, lo, end, end) ==> Midway(now, old_, width, padded, height, 0, 0, lo)
    ensures forall hi: nat, end: nat {:trigger Midway(now, old_, width, padded, height, hi, hi, end)} ::
              Midway(now, old_, width, padded, height, 0, 0, end) ==> Midway(now, old_, width, padded, height, hi, hi, end)
    ensures Midway(now, old_, width, padded, height, 0, 0, 0) ==>
              forall n :: 0 <= n < |now| ==> now[n] == Expanded(old_, width, padded, height, n)
  {
    assert height * padded * 4 == 4 * padded * height;
  }

  /** The in-place loops of `pnmshow` for a true-colour picture. */
  method Expand(frameBuffer: array<bv8>, width: nat, height: nat)
    requires width > 0 && frameBuffer.Length == 4 * Padded(width) * height
    modifies frameBuffer
    ensures forall n :: 0 <= n < frameBuffer.Length ==>
              frameBuffer[n] == Expanded(old(frameBuffer[..]), width, Padded(width), height, n)
  {
    hide Midway, Expanded;
    var paddedWidth := Padded(width);
    ghost var was := frameBuffer[..];
    MidwaySame(was, was, width, paddedWidth, height);
    var j := height;
    while j > 0
      invariant 0 <= j <= height
      invariant Midway(frameBuffer[..], was, width, paddedWidth, height, 0, 0, j * paddedWidth * 4)
    {
      j := j - 1;
      ExpandRow(frameBuffer, width, paddedWidth, height, j, was);
    }
    MidwaySame(frameBuffer[..], was, width, paddedWidth, height);
  }

  method ExpandRow(frameBuffer: array<bv8>, width: nat, paddedWidth: nat, height: nat, j: nat, ghost was: seq<bv8>)
    requires 0 < width <= paddedWidth && |was| == 4 * paddedWidth * height && j < height
    requires Midway(frameBuffer[..], was, width, paddedWidth, height, 0, 0, (j + 1) * paddedWidth * 4)
    modifies frameBuffer
    ensures Midway(frameBuffer[..], was, width, paddedWidth, height, 0, 0, j * paddedWidth * 4)
  {
    hide Midway;
    ghost var end := (j + 1) * paddedWidth * 4;
    ghost var row := j * paddedWidth * 4;
    assert end == row + 4 * paddedWidth && (j * paddedWidth + width) * 4 == row + 4 * width;
    MidwaySame(frameBuffer[..], was, width, paddedWidth, height);
    assert Midway(frameBuffer[..], was, width, paddedWidth, height, row + 4 * width, row + 4 * width, end);
    var i := width;
    while i > 0
      invariant 0 <= i <= width
      invariant Midway(frameBuffer[..], was, width, paddedWidth, height, row + 4 * i, row + 4 * width, end)
    {
      i := i - 1;
      SpareByte(frameBuffer[..], was, width, paddedWidth, height, row + 4 * width, end, j, i);
      var k := 3;
      while k > 0
        invariant 0 <= k <= 3
        invariant Midway(frameBuffer[..], was, width, paddedWidth, height, row + 4 * i + k, row + 4 * width, end)
      {
        k := k - 1;
        PixelByte(frameBuffer[..], was, width, paddedWidth, height, row + 4 * width, end, j, i, k);
        assert (j * paddedWidth + i) * 4 + k == row + 4 * i + k;
        frameBuffer[(j * paddedWidth + i) * 4 + k] := frameBuffer[(j * width + i) * 3 + k];
      }
    }
    for c := width * 4 to paddedWidth * 4
      invariant Midway(frameBuffer[..], was, width, paddedWidth, height, row, row + c, end)
    {
      PaddingByte(frameBuffer[..], was, width, paddedWidth, height, end, j, c);
      frameBuffer[j * paddedWidth * 4 + c] := 0;
    }
    MidwaySame(frameBuffer[..], was, width, paddedWidth, height);
  }

  /** Byte `n` when rows of pixels of three bytes have been padded with zeros. */
  function PaddedByte(old_: seq<bv8>, width: nat, padded: nat, height: nat, n: nat): bv8
    requires width <= padded && 0 < padded && |old_| == 3 * padded * height && n < |old_|
  {
    var (j, c) := (Row(3 * padded, n), Col(3 * padded, n));
    if c >= 3 * width then 0 else RowBelow(width, padded, height, n); old_[3 * width * j + c]
  }

  lemma RowBelow(width: nat, padded: nat, height: nat, n: nat)
    requires width <= padded && 0 < padded
    ensures 3 * width * Row(3 * padded, n) + Col(3 * padded, n) <= n
  {
    RowCol(3 * padded, height, n);
    var j := Row(3 * padded, n);
    Scale(j, 3 * width, 3 * padded);
  }

  function PaddedRows(old_: seq<bv8>, width: nat, padded: nat, height: nat): (r: seq<bv8>)
    requires width <= padded && 0 < padded && |old_| == 3 * padded * height
    ensures |r| == |old_|
  {
    seq(|old_|, n requires 0 <= n < |old_| => PaddedByte(old_, width, padded, height, n))
  }

  /** The framebuffer when the bytes from `end` on are as they shall be. */
  ghost predicate MovedFrom(now: seq<bv8>, old_: seq<bv8>, goal: seq<bv8>, end: nat) {
    |now| == |old_| == |goal| && forall n :: 0 <= n < |now| ==> now[n] == if end <= n then goal[n] else old_[n]
  }

  lemma RowFits(width: nat, padded: nat, height: nat, j: nat)
    requires width <= padded && j < height
    ensures 3 * padded * (j + 1) == 3 * padded * j + 3 * padded <= 3 * padded * height && 0 <= 3 * width * j <= 3 * padded * j
  {
    Scale(3 * padded, j + 1, height);
    Scale(j, 3 * width, 3 * padded);
  }

  lemma RowBytes(old_: seq<bv8>, width: nat, padded: nat, height: nat, j: nat, row: nat, from: nat)
    requires width <= padded && 0 < padded && |old_| == 3 * padded * height && j < height
    requires row == 3 * padded * j && from == 3 * width * j && row + 3 * padded <= |old_| && from <= row
    ensures forall n :: row <= n < row + 3 * padded ==>
              PaddedRows(old_, width, padded, height)[n] == if n < row + 3 * width then old_[from + (n - row)] else 0
  {
    forall n | row <= n < row + 3 * padded
      ensures PaddedByte(old_, width, padded, height, n) == if n < row + 3 * width then old_[from + (n - row)] else 0
    {
      RowSpan(3 * padded, j, n);
    }
  }

  /** Moving one row of `size` bytes keeps the state. */
  lemma MovedRow(now: seq<bv8>, next: seq<bv8>, old_: seq<bv8>, goal: seq<bv8>, row: nat, from: nat, size: nat, end: nat)
    requires MovedFrom(now, old_, goal, end) && |next| == |now| && from <= row && row + size <= end <= |now|
    requires forall n :: row <= n < end ==> goal[n] == if n < row + size then old_[from + (n - row)] else 0
    requires forall n {:trigger next[n]} :: 0 <= n < |next| ==>
               next[n] == if row <= n < row + size then now[from + (n - row)] else if row + size <= n < end then 0 else now[n]
    ensures MovedFrom(next, old_, goal, row)
  {
    forall n | 0 <= n < |next|
      ensures next[n] == if row <= n then goal[n] else old_[n]
    {
      if row <= n < row + size {
        var m := from + (n - row);
        assert now[m] == old_[m];
      }
    }
  }

  lemma RowSpan(r: nat, j: nat, n: nat)
    requires r > 0 && r * j <= n < r * j + r
    ensures Row(r, n) == j && Col(r, n) == n - r * j
  {
    assert r * j == j * r;
    At(r, j, n - r * j);
  }

  /** `memmove`, also between overlapping places. */
  method MoveBytes(a: array<bv8>, to: nat, from: nat, n: nat)
    requires from <= to && to + n <= a.Length
    modifies a
    ensures forall k :: 0 <= k < a.Length ==> a[k] == old(if to <= k < to + n then a[from + (k - to)] else a[k])
  {
    var i := n;
    while i > 0
      invariant 0 <= i <= n
      invariant forall k :: 0 <= k < a.Length ==> a[k] == old(if to + i <= k < to + n then a[from + (k - to)] else a[k])
    {
      i := i - 1;
      a[to + i] := a[from + i];
    }
  }

  method Clear(a: array<bv8>, from: nat, n: nat)
    requires from + n <= a.Length
    modifies a
    ensures forall k :: 0 <= k < a.Length ==> a[k] == if from <= k < from + n then 0 else old(a[k])
  {
    for i := 0 to n
      invariant forall k :: 0 <= k < a.Length ==> a[k] == if from <= k < from + i then 0 else old(a[k])
    {
      a[from + i] := 0;
    }
  }

  /** The in-place loop of `pnmshow24`. */
  method PadRows(frameBuffer: array<bv8>, width: nat, height: nat)
    requires width > 0 && frameBuffer.Length == 3 * Padded(width) * height
    modifies frameBuffer
    ensures frameBuffer[..] == PaddedRows(old(frameBuffer[..]), width, Padded(width), height)
  {
    hide PaddedRows, MovedFrom;
    var paddedWidth := Padded(width);
    ghost var was := frameBuffer[..];
    ghost var goal := PaddedRows(was, width, paddedWidth, height);
    if width != paddedWidth {
      var padCount := 3 * (paddedWidth - width);
      var j := height;
      MovedNone(was, goal, 3 * paddedWidth * j);
      while j > 0
        invariant 0 <= j <= height
        invariant MovedFrom(frameBuffer[..], was, goal, 3 * paddedWidth * j)
      {
        j := j - 1;
        RowFits(width, paddedWidth, height, j);
        RowBytes(was, width, paddedWidth, height, j, 3 * paddedWidth * j, 3 * width * j);
        PadRow(frameBuffer, 3 * paddedWidth * j, 3 * width * j, 3 * width, padCount, was, goal);
      }
      MovedAll(frameBuffer[..], was, goal);
    } else {
      PaddedSame(was, width, height);
    }
  }

  /** One row: `memmove` and `memset`. */
  method PadRow(frameBuffer: array<bv8>, to: nat, from: nat, size: nat, padCount: nat, ghost was: seq<bv8>, ghost goal: seq<bv8>)
    requires from <= to && to + size + padCount <= frameBuffer.Length
    requires MovedFrom(frameBuffer[..], was, goal, to + size + padCount)
    requires forall n :: to <= n < to + size + padCount ==> goal[n] == if n < to + size then was[from + (n - to)] else 0
    modifies frameBuffer
    ensures MovedFrom(frameBuffer[..], was, goal, to)
  {
    ghost var now := frameBuffer[..];
    MoveBytes(frameBuffer, to, from, size);
    Clear(frameBuffer, to + size, padCount);
    MovedRow(now, frameBuffer[..], was, goal, to, from, size, to + size + padCount);
  }

  lemma MovedNone(old_: seq<bv8>, goal: seq<bv8>, end: nat)
    requires |goal| == |old_| <= end
    ensures MovedFrom(old_, old_, goal, end)
  {
  }

  lemma MovedAll(now: seq<bv8>, old_: seq<bv8>, goal: seq<bv8>)
    requires MovedFrom(now, old_, goal, 0)
    ensures now == goal
  {
  }

  lemma PaddedSame(old_: seq<bv8>, width: nat, height: nat)
    requires 0 < width && |old_| == 3 * width * height
    ensures PaddedRows(old_, width, width, height) == old_
  {
    forall n | 0 <= n < |old_|
      ensures PaddedByte(old_, width, width, height, n) == old_[n]
    {
      RowCol(3 * width, height, n);
    }
  }

  /** Every pixel of the file is where its column and row say. */
  lemma ExpandedPixel(old_: seq<bv8>, width: nat, height: nat, j: nat, i: nat, k: nat)
    requires 0 < width && |old_| == 4 * Padded(width) * height && j < height && i < width && k < 3
    ensures 0 <= (j * Padded(width) + i) * 4 + k < |old_| && 0 <= (j * width + i) * 3 + k < |old_|
    ensures Expanded(old_, width, Padded(width), height, (j * Padded(width) + i) * 4 + k) == old_[(j * width + i) * 3 + k]
  {
    hide Expanded, Padded;
    ExpandedIs(old_, width, Padded(width), height, j, 4 * i + k);
    Quarter(i, k);
    assert (j * Padded(width) + i) * 4 + k == j * Padded(width) * 4 + (4 * i + k);
  }

  /** Every byte of a row of the file is where its row says. */
  lemma PaddedRowByte(old_: seq<bv8>, width: nat, height: nat, j: nat, c: nat)
    requires 0 < width && |old_| == 3 * Padded(width) * height && j < height && c < 3 * Padded(width)
    ensures 0 <= 3 * Padded(width) * j + c < |old_| && (c < 3 * width ==> 0 <= 3 * width * j + c < |old_|)
    ensures PaddedRows(old_, width, Padded(width), height)[3 * Padded(width) * j + c] == if c < 3 * width then old_[3 * width * j + c] else 0
  {
    RowFits(width, Padded(width), height, j);
    RowBytes(old_, width, Padded(width), height, j, 3 * Padded(width) * j, 3 * width * j);
  }
}
