/** The search for subrectangles that the server's RRE, CoRRE and hextile encoders share. */
module Subrects {
  import opened Octets
  import opened Grid
  import opened Canvas

  /** The cell of a picture of `w` columns in column `x` of row `y`. */
  function Dot(d: seq<Pixel>, w: nat, x: nat, y: nat): Pixel {
    if y * w + x < |d| then d[y * w + x] else []
  }

  /** How many cells from `x` on in row `y` have one colour. */
  function Run(d: seq<Pixel>, w: nat, x: nat, y: nat, colour: Pixel): (n: nat)
    ensures x <= w ==> n <= w - x
    decreases w - x
  {
    if x < w && Dot(d, w, x, y) == colour then 1 + Run(d, w, x + 1, y, colour) else 0
  }

  /** How many rows from `y` on have a colour in column `x`. */
  function Depth(d: seq<Pixel>, w: nat, h: nat, x: nat, y: nat, colour: Pixel): (n: nat)
    ensures y <= h ==> n <= h - y
    decreases h - y
  {
    if y < h && Dot(d, w, x, y) == colour then 1 + Depth(d, w, h, x, y + 1, colour) else 0
  }

  ghost predicate PlainRow(d: seq<Pixel>, w: nat, x: nat, n: nat, y: nat, colour: Pixel) {
    forall i :: x <= i < x + n ==> Dot(d, w, i, y) == colour
  }

  /** Whether a rectangle of the picture has one colour. */
  ghost predicate Plain(d: seq<Pixel>, w: nat, b: Box, colour: Pixel) {
    forall j :: b.y <= j < b.y + b.h ==> PlainRow(d, w, b.x, b.w, j, colour)
  }

  lemma {:induction false} RunPlain(d: seq<Pixel>, w: nat, x: nat, n: nat, y: nat, colour: Pixel)
    requires x + n <= w
    ensures PlainRow(d, w, x, n, y, colour) <==> n <= Run(d, w, x, y, colour)
    decreases n
  {
    hide Dot;
    if n > 0 {
      assert Run(d, w, x, y, colour) == if Dot(d, w, x, y) == colour then 1 + Run(d, w, x + 1, y, colour) else 0;
      RunPlain(d, w, x + 1, n - 1, y, colour);
    }
  }

  /** What the search knows after the rows from `y` to `j`. */
  ghost predicate Searched(d: seq<Pixel>, w: nat, x: nat, y: nat, colour: Pixel, j: nat, hx: int, hy: int, vx: int, flag: bool) {
    && y < j && hx - x + 1 == Run(d, w, x, y, colour)
    && y <= hy < j && x <= vx <= hx
    && (forall r :: y <= r < j ==> vx - x + 1 <= Run(d, w, x, r, colour))
    && (exists r :: y <= r < j && vx - x + 1 == Run(d, w, x, r, colour))
    && (forall r :: y <= r <= hy ==> hx - x + 1 <= Run(d, w, x, r, colour))
    && (if flag then hy == j - 1 else hy + 1 < j && Run(d, w, x, hy + 1, colour) < hx - x + 1)
  }

  /** A one-coloured rectangle at the corner of another that is as wide as the row's run, or as high as the column's. */
  ghost predicate Candidate(d: seq<Pixel>, w: nat, h: nat, x: nat, y: nat, colour: Pixel, tw: nat, th: nat) {
    && CheckRect(Box(x, y, tw, th), w, h) && Plain(d, w, Box(x, y, tw, th), colour)
    && (tw == Run(d, w, x, y, colour) || th == Depth(d, w, h, x, y, colour))
  }

  function Area(w: nat, h: nat): nat { w * h }

  /** The biggest of the candidates. */
  ghost predicate Biggest(d: seq<Pixel>, w: nat, h: nat, b: Box, colour: Pixel) {
    && Candidate(d, w, h, b.x, b.y, colour, b.w, b.h)
    && forall tw: nat, th: nat :: Candidate(d, w, h, b.x, b.y, colour, tw, th) ==> Area(tw, th) <= Area(b.w, b.h)
  }

  function Least(a: nat, b: nat): nat { if a < b then a else b }

  /** The narrowest run of `n` rows from `y` on. */
  function Narrowest(d: seq<Pixel>, w: nat, x: nat, y: nat, n: nat, colour: Pixel): nat {
    if n == 0 then 0
    else if n == 1 then Run(d, w, x, y, colour)
    else Least(Narrowest(d, w, x, y, n - 1, colour), Run(d, w, x, y + n - 1, colour))
  }

  /** How many rows from `y` on have a run of at least `n` cells. */
  function FullRows(d: seq<Pixel>, w: nat, h: nat, x: nat, y: nat, n: nat, colour: Pixel): nat
    decreases h - y
  {
    if y < h && n <= Run(d, w, x, y, colour) then 1 + FullRows(d, w, h, x, y + 1, n, colour) else 0
  }

  /** The wide candidate if it is bigger, and else the high one. */
  function Found(d: seq<Pixel>, w: nat, h: nat, x: nat, y: nat): Box {
    var c := Dot(d, w, x, y);
    var (hw, vh) := (Run(d, w, x, y, c), Depth(d, w, h, x, y, c));
    var (hh, vw) := (FullRows(d, w, h, x, y, hw, c), Narrowest(d, w, x, y, vh, c));
    if Area(hw, hh) > Area(vw, vh) then Box(x, y, hw, hh) else Box(x, y, vw, vh)
  }

  lemma {:induction false} NarrowestIs(d: seq<Pixel>, w: nat, x: nat, y: nat, n: nat, colour: Pixel, v: nat)
    requires n > 0 && (forall r :: y <= r < y + n ==> v <= Run(d, w, x, r, colour))
    requires exists r :: y <= r < y + n && v == Run(d, w, x, r, colour)
    ensures Narrowest(d, w, x, y, n, colour) == v
  {
    hide Run;
    NarrowestBelow(d, w, x, y, n, colour);
    var r :| y <= r < y + n && v == Run(d, w, x, r, colour);
    NarrowestAt(d, w, x, y, n, colour, v);
  }

  lemma {:induction false} NarrowestBelow(d: seq<Pixel>, w: nat, x: nat, y: nat, n: nat, colour: Pixel)
    ensures forall r :: y <= r < y + n ==> Narrowest(d, w, x, y, n, colour) <= Run(d, w, x, r, colour)
  {
    hide Run;
    if n > 1 {
      NarrowestBelow(d, w, x, y, n - 1, colour);
    }
  }

  lemma {:induction false} NarrowestAt(d: seq<Pixel>, w: nat, x: nat, y: nat, n: nat, colour: Pixel, v: nat)
    requires n > 0 && forall r :: y <= r < y + n ==> v <= Run(d, w, x, r, colour)
    ensures v <= Narrowest(d, w, x, y, n, colour)
  {
    hide Run;
    if n > 1 {
      NarrowestAt(d, w, x, y, n - 1, colour, v);
    }
  }

  lemma {:induction false} FullRowsIs(d: seq<Pixel>, w: nat, h: nat, x: nat, y: nat, n: nat, colour: Pixel, k: nat)
    requires y + k <= h && (forall r :: y <= r < y + k ==> n <= Run(d, w, x, r, colour))
    requires y + k < h ==> Run(d, w, x, y + k, colour) < n
    ensures FullRows(d, w, h, x, y, n, colour) == k
    decreases k
  {
    hide Run;
    if k > 0 {
      FullRowsIs(d, w, h, x, y + 1, n, colour, k - 1);
    }
  }

  method FindSubrect(data: array<Pixel>, w: nat, h: nat, x: nat, y: nat) returns (b: Box)
    requires data.Length == h * w && x < w && y < h
    ensures b.x == x && b.y == y && b.w > 0 && b.h > 0
    ensures CheckRect(b, w, h) && Plain(data[..], w, b, Dot(data[..], w, x, y))
    ensures Biggest(data[..], w, h, b, Dot(data[..], w, x, y)) && b == Found(data[..], w, h, x, y)
  {
    hide Dot, Searched, Biggest, Plain, Found;
    ghost var d := data[..];
    var cl := GetDot(data, w, h, x, y);
    var hx: int, vx: int, hy: int, hyflag := 0, 0, y - 1, true;
    var j := y;
    while j < h
      invariant y <= j <= h
      invariant Depth(d, w, h, x, y, cl) == j - y + Depth(d, w, h, x, j, cl)
      invariant if j == y then hy == y - 1 && hyflag else Searched(d, w, x, y, cl, j, hx, hy, vx, hyflag)
    {
      var seg := GetDot(data, w, h, x, j);
      if seg != cl {
        break;
      }
      var i := LastOfRun(data, w, h, x, j, cl);
      SearchedOn(d, w, x, y, cl, j, hx, hy, vx, hyflag, i);
      if j == y {
        vx, hx := i, i;
      }
      if i < vx {
        vx := i;
      }
      if hyflag && i >= hx {
        hy := hy + 1;
      } else {
        hyflag := false;
      }
      j := j + 1;
    }
    FoundIs(d, w, h, x, y, cl, j, hx, hy, vx, hyflag);
    var vy := j - 1;
    var hw, hh, vw, vh := hx - x + 1, hy - y + 1, vx - x + 1, vy - y + 1;
    b := if Area(hw, hh) > Area(vw, vh) then Box(x, y, hw, hh) else Box(x, y, vw, vh);
  }

  method GetDot(data: array<Pixel>, w: nat, h: nat, x: nat, y: nat) returns (p: Pixel)
    requires data.Length == h * w && x < w && y < h
    ensures p == Dot(data[..], w, x, y)
  {
    Ordered(w, y, h, h);
    p := data[y * w + x];
  }

  /** The last column of the run from `x` on. */
  method LastOfRun(data: array<Pixel>, w: nat, h: nat, x: nat, y: nat, colour: Pixel) returns (i: int)
    requires data.Length == h * w && x < w && y < h
    ensures i - x + 1 == Run(data[..], w, x, y, colour)
  {
    hide Dot;
    i := x;
    while i < w
      invariant x <= i <= w
      invariant Run(data[..], w, x, y, colour) == i - x + Run(data[..], w, i, y, colour)
    {
      var p := GetDot(data, w, h, i, y);
      if p != colour {
        break;
      }
      i := i + 1;
    }
    i := i - 1;
  }

  lemma SearchedOn(d: seq<Pixel>, w: nat, x: nat, y: nat, colour: Pixel, j: nat, hx: int, hy: int, vx: int, flag: bool, i: int)
    requires x < w && i - x + 1 == Run(d, w, x, j, colour) > 0
    requires if j == y then hy == y - 1 && flag else Searched(d, w, x, y, colour, j, hx, hy, vx, flag)
    ensures var hx' := if j == y then i else hx;
            var vx' := if j == y || i < vx then i else vx;
            var on := flag && i >= hx';
            Searched(d, w, x, y, colour, j + 1, hx', if on then hy + 1 else hy, vx', on)
  {
    hide Run;
  }

  lemma FoundIs(d: seq<Pixel>, w: nat, h: nat, x: nat, y: nat, colour: Pixel, j: nat, hx: int, hy: int, vx: int, flag: bool)
    requires x < w && y < j <= h && Searched(d, w, x, y, colour, j, hx, hy, vx, flag)
    requires j < h ==> Run(d, w, x, j, colour) == 0
    requires Depth(d, w, h, x, y, colour) == j - y && colour == Dot(d, w, x, y)
    ensures hx - x + 1 > 0 && hy - y + 1 > 0 && vx - x + 1 > 0
    ensures var b := if Area(hx - x + 1, hy - y + 1) > Area(vx - x + 1, j - y) then Box(x, y, hx - x + 1, hy - y + 1)
                     else Box(x, y, vx - x + 1, j - y);
            CheckRect(b, w, h) && Plain(d, w, b, colour) && Biggest(d, w, h, b, colour) && b == Found(d, w, h, x, y)
  {
    hide Dot, Depth, Area, Run, Plain, Searched, Candidate;
    SearchedIs(d, w, h, x, y, colour, j, hx, hy, vx, flag);
    BothPlain(d, w, h, x, y, colour, j, hx, hy, vx, flag);
    forall tw: nat, th: nat | Candidate(d, w, h, x, y, colour, tw, th)
      ensures Area(tw, th) <= Area(hx - x + 1, hy - y + 1) || Area(tw, th) <= Area(vx - x + 1, j - y)
    {
      CandidateBounds(d, w, h, x, y, colour, j, hx, hy, vx, flag, tw, th);
      if th == j - y {
        SmallerArea(tw, th, vx - x + 1, j - y);
      } else {
        SmallerArea(tw, th, hx - x + 1, hy - y + 1);
      }
    }
  }

  lemma SearchedIs(d: seq<Pixel>, w: nat, h: nat, x: nat, y: nat, colour: Pixel, j: nat, hx: int, hy: int, vx: int, flag: bool)
    requires x < w && y < j <= h && Searched(d, w, x, y, colour, j, hx, hy, vx, flag) && (j < h ==> Run(d, w, x, j, colour) == 0)
    ensures hx - x + 1 == Run(d, w, x, y, colour) && x <= vx <= hx < w && y <= hy < j
    ensures FullRows(d, w, h, x, y, hx - x + 1, colour) == hy - y + 1 && Narrowest(d, w, x, y, j - y, colour) == vx - x + 1
  {
    hide Dot, Run, FullRows, Narrowest;
    assert Run(d, w, x, y, colour) <= w - x;
    FullRowsIs(d, w, h, x, y, hx - x + 1, colour, hy - y + 1);
    NarrowestIs(d, w, x, y, j - y, colour, vx - x + 1);
  }

  lemma BothPlain(d: seq<Pixel>, w: nat, h: nat, x: nat, y: nat, colour: Pixel, j: nat, hx: int, hy: int, vx: int, flag: bool)
    requires x < w && y < j <= h && Searched(d, w, x, y, colour, j, hx, hy, vx, flag)
    requires Depth(d, w, h, x, y, colour) == j - y && x <= vx <= hx < w && y <= hy < j
    ensures Plain(d, w, Box(x, y, hx - x + 1, hy - y + 1), colour) && Plain(d, w, Box(x, y, vx - x + 1, j - y), colour)
    ensures Candidate(d, w, h, x, y, colour, hx - x + 1, hy - y + 1) && Candidate(d, w, h, x, y, colour, vx - x + 1, j - y)
  {
    hide Dot, Run, Depth, PlainRow;
    var (hw, hh, vw) := (hx - x + 1, hy - y + 1, vx - x + 1);
    forall r | y <= r < y + hh
      ensures PlainRow(d, w, x, hw, r, colour)
    {
      RunPlain(d, w, x, hw, r, colour);
    }
    forall r | y <= r < j
      ensures PlainRow(d, w, x, vw, r, colour)
    {
      RunPlain(d, w, x, vw, r, colour);
    }
  }

  lemma SmallerArea(w: nat, h: nat, w': nat, h': nat)
    requires w <= w' && h <= h'
    ensures Area(w, h) <= Area(w', h')
  {
    Scale(h, w, w');
    Scale(w', h, h');
  }

  lemma CandidateBounds(d: seq<Pixel>, w: nat, h: nat, x: nat, y: nat, colour: Pixel, j: nat, hx: int, hy: int, vx: int, flag: bool, tw: nat, th: nat)
    requires x < w && y < j <= h && Searched(d, w, x, y, colour, j, hx, hy, vx, flag)
    requires j < h ==> Run(d, w, x, j, colour) == 0
    requires Depth(d, w, h, x, y, colour) == j - y && Candidate(d, w, h, x, y, colour, tw, th)
    ensures th == j - y ==> tw <= vx - x + 1
    ensures th != j - y ==> tw == hx - x + 1 && th <= hy - y + 1
  {
    hide Dot, Run, Depth, PlainRow;
    forall r | y <= r < y + th
      ensures tw <= Run(d, w, x, r, colour)
    {
      RunPlain(d, w, x, tw, r, colour);
    }
  }

  /** The loops that give the cells of a subrectangle the background, once it is listed. */
  method Mark(data: array<Pixel>, w: nat, h: nat, b: Box, bg: Pixel)
    requires w > 0 && data.Length == h * w && CheckRect(b, w, h)
    modifies data
    ensures data[..] == Fill(old(data[..]), w, h, b, bg)
  {
    hide Fill, Times;
    FillNone(data[..], w, h, b, bg);
    for j := b.y to b.y + b.h
      invariant data[..] == Fill(old(data[..]), w, h, b.(h := j - b.y), bg)
    {
      TimesOrdered(j, h, w);
      TimesIs(h, w);
      TimesIs(j, w);
      ghost var was := data[..];
      MarkRow(data, w, b.x, b.w, j, bg);
      FillRow(old(data[..]), w, h, b, j, Times(j, w), bg, was, data[..]);
    }
  }

  method MarkRow(data: array<Pixel>, w: nat, x: nat, n: nat, j: nat, bg: Pixel)
    requires 0 <= j * w && j * w + x + n <= data.Length
    modifies data
    ensures forall k :: 0 <= k < data.Length ==> data[k] == if j * w + x <= k < j * w + x + n then bg else old(data[k])
  {
    for i := x to x + n
      invariant forall k :: 0 <= k < data.Length ==> data[k] == if j * w + x <= k < j * w + i then bg else old(data[k])
    {
      data[j * w + i] := bg;
    }
  }

  /** How many cells are not of the background. */
  ghost function Others(d: seq<Pixel>, bg: Pixel): nat {
    if d == [] then 0 else (if d[0] == bg then 0 else 1) + Others(d[1..], bg)
  }

  /** A cell that is still to be encoded is as it was; one that is done shows its first colour where the
      subrectangles are painted. */
  ghost predicate Cell(orig: Pixel, now: Pixel, subs: seq<Sub>, w: nat, h: nat, bg: Pixel, k: nat)
    requires w > 0
  {
    if now == bg then Shade(subs, w, h, 0, 0, k, bg) == orig else now == orig
  }

  ghost predicate Progress(orig: seq<Pixel>, now: seq<Pixel>, subs: seq<Sub>, w: nat, h: nat, bg: Pixel)
    requires w > 0
  {
    |now| == |orig| && forall k {:trigger now[k]} :: 0 <= k < |orig| ==> Cell(orig[k], now[k], subs, w, h, bg, k)
  }

  ghost predicate Proper(s: Sub, orig: seq<Pixel>, w: nat, h: nat, bg: Pixel) {
    s.box.w > 0 && s.box.h > 0 && CheckRect(s.box, w, h) && s.colour in orig && s.colour != bg
  }

  ghost predicate AllProper(subs: seq<Sub>, orig: seq<Pixel>, w: nat, h: nat, bg: Pixel) {
    forall i :: 0 <= i < |subs| ==> Proper(subs[i], orig, w, h, bg)
  }

  function WireAll(wire: Sub -> seq<byte>, subs: seq<Sub>): seq<byte> {
    if subs == [] then [] else wire(subs[0]) + WireAll(wire, subs[1..])
  }

  /** Painted on the background in their order, the subrectangles are the picture. */
  ghost predicate Depicts(subs: seq<Sub>, orig: seq<Pixel>, w: nat, h: nat, bg: Pixel)
    requires w > 0
  {
    AllProper(subs, orig, w, h, bg) && forall k :: 0 <= k < |orig| ==> Shade(subs, w, h, 0, 0, k, bg) == orig[k]
  }

  // ---------- The list of subrectangles ----------

  /** The subrectangles that are listed from cell `k` on: the one found at the next cell that is not of the background, and
      those of the picture without it. */
  function Greedy(d: seq<Pixel>, w: nat, h: nat, bg: Pixel, k: nat): seq<Sub>
    requires w > 0
    decreases |d| - k
  {
    if k >= |d| then []
    else if d[k] == bg then Greedy(d, w, h, bg, k + 1)
    else
      var b := Found(d, w, h, Col(w, k), Row(w, k));
      [Sub(b, d[k])] + Greedy(Fill(d, w, h, b, bg), w, h, bg, k + 1)
  }

  ghost predicate Done(d: seq<Pixel>, n: nat, bg: Pixel) {
    forall k :: 0 <= k < n && k < |d| ==> d[k] == bg
  }

  /** The listed subrectangles, and what is still to be listed. */
  ghost predicate Listed(orig: seq<Pixel>, now: seq<Pixel>, subs: seq<Sub>, w: nat, h: nat, bg: Pixel)
    requires w > 0
  {
    Progress(orig, now, subs, w, h, bg) && AllProper(subs, orig, w, h, bg) && |subs| + Others(now, bg) <= Others(orig, bg)
  }

  /** What is found at a cell is a rectangle of its colour at that corner, and the biggest there. */
  lemma FoundAt(d: seq<Pixel>, w: nat, h: nat, k: nat)
    requires w > 0 && |d| == h * w && k < |d|
    ensures var b := Found(d, w, h, Col(w, k), Row(w, k));
            && b.x == Col(w, k) && b.y == Row(w, k) && b.w > 0 && b.h > 0
            && CheckRect(b, w, h) && Plain(d, w, b, d[k]) && Biggest(d, w, h, b, d[k])
  {
    hide Found, Biggest, Plain, Row, Col;
    DotAt(d, w, h, k);
    Search(d, w, h, Col(w, k), Row(w, k));
  }

  /** The search, on values. */
  lemma Search(d: seq<Pixel>, w: nat, h: nat, x: nat, y: nat)
    requires |d| == h * w && x < w && y < h
    ensures var (b, colour) := (Found(d, w, h, x, y), Dot(d, w, x, y));
            && b.x == x && b.y == y && b.w > 0 && b.h > 0
            && CheckRect(b, w, h) && Plain(d, w, b, colour) && Biggest(d, w, h, b, colour)
  {
    hide Dot, Searched, Biggest, Plain, Found;
    var cl := Dot(d, w, x, y);
    var hx: int, vx: int, hy: int, flag := 0, 0, y - 1, true;
    var j := y;
    while j < h && Dot(d, w, x, j) == cl
      invariant y <= j <= h
      invariant Depth(d, w, h, x, y, cl) == j - y + Depth(d, w, h, x, j, cl)
      invariant if j == y then hy == y - 1 && flag else Searched(d, w, x, y, cl, j, hx, hy, vx, flag)
    {
      var i := x + Run(d, w, x, j, cl) - 1;
      SearchedOn(d, w, x, y, cl, j, hx, hy, vx, flag, i);
      var hx' := if j == y then i else hx;
      flag := flag && i >= hx';
      hx, vx, hy := hx', if j == y || i < vx then i else vx, if flag then hy + 1 else hy;
      j := j + 1;
    }
    FoundIs(d, w, h, x, y, cl, j, hx, hy, vx, flag);
  }

  /** The list depicts the picture, and is no longer than it has cells that are not of the background. */
  lemma GreedyDepicts(d: seq<Pixel>, w: nat, h: nat, bg: Pixel)
    requires w > 0 && |d| == h * w
    ensures Depicts(Greedy(d, w, h, bg, 0), d, w, h, bg) && |Greedy(d, w, h, bg, 0)| <= Others(d, bg)
  {
    hide Greedy, Depicts;
    GreedyRest(d, d, [], w, h, bg, 0);
    assert [] + Greedy(d, w, h, bg, 0) == Greedy(d, w, h, bg, 0);
  }

  lemma {:induction false} GreedyRest(orig: seq<Pixel>, now: seq<Pixel>, subs: seq<Sub>, w: nat, h: nat, bg: Pixel, k: nat)
    requires w > 0 && |now| == h * w && Listed(orig, now, subs, w, h, bg) && Done(now, k, bg)
    ensures Depicts(subs + Greedy(now, w, h, bg, k), orig, w, h, bg)
    ensures |subs + Greedy(now, w, h, bg, k)| <= Others(orig, bg)
    decreases |now| - k
  {
    hide Depicts, Listed, Found, Fill, Others, Row, Col, Biggest, Plain, Greedy;
    GreedyIs(now, w, h, bg, k);
    if k >= |now| {
      Finished(orig, now, subs, w, h, bg, k);
      assert subs + [] == subs;
    } else if now[k] == bg {
      GreedyRest(orig, now, subs, w, h, bg, k + 1);
    } else {
      var b := Found(now, w, h, Col(w, k), Row(w, k));
      FoundAt(now, w, h, k);
      Marked(orig, now, subs, w, h, bg, b, k);
      var next := Fill(now, w, h, b, bg);
      GreedyRest(orig, next, subs + [Sub(b, now[k])], w, h, bg, k + 1);
      assert subs + Greedy(now, w, h, bg, k) == subs + [Sub(b, now[k])] + Greedy(next, w, h, bg, k + 1);
    }
  }

  lemma GreedyIs(d: seq<Pixel>, w: nat, h: nat, bg: Pixel, k: nat)
    requires w > 0
    ensures Greedy(d, w, h, bg, k)
         == if k >= |d| then [] else if d[k] == bg then Greedy(d, w, h, bg, k + 1)
            else
              var b := Found(d, w, h, Col(w, k), Row(w, k)); [Sub(b, d[k])] + Greedy(Fill(d, w, h, b, bg), w, h, bg, k + 1)
  {
  }

  lemma Finished(orig: seq<Pixel>, now: seq<Pixel>, subs: seq<Sub>, w: nat, h: nat, bg: Pixel, n: nat)
    requires w > 0 && |now| == h * w && Listed(orig, now, subs, w, h, bg) && Done(now, n, bg) && n >= |now|
    ensures Depicts(subs, orig, w, h, bg) && |subs| <= Others(orig, bg)
  {
    hide Others;
    forall k | 0 <= k < |orig|
      ensures Shade(subs, w, h, 0, 0, k, bg) == orig[k]
    {
      assert Cell(orig[k], now[k], subs, w, h, bg, k);
    }
  }

  // ---------- The loops that list them ----------

  /** What the loops hold at cell `k`: `all` is the whole list. */
  ghost predicate Encoding(all: seq<Sub>, now: seq<Pixel>, subs: seq<Sub>, w: nat, h: nat, bg: Pixel, k: nat,
                           wire: Sub -> seq<byte>, per: nat, out: seq<byte>, numsubs: nat)
    requires w > 0
  {
    && all == subs + Greedy(now, w, h, bg, k)
    && numsubs == |subs| && out == WireAll(wire, subs) && |out| == per * numsubs
  }

  lemma EncodingSkips(all: seq<Sub>, now: seq<Pixel>, subs: seq<Sub>, w: nat, h: nat, bg: Pixel, k: nat,
                      wire: Sub -> seq<byte>, per: nat, out: seq<byte>, numsubs: nat)
    requires w > 0 && k < |now| && now[k] == bg && Encoding(all, now, subs, w, h, bg, k, wire, per, out, numsubs)
    ensures Encoding(all, now, subs, w, h, bg, k + 1, wire, per, out, numsubs)
  {
  }

  lemma EncodingLists(all: seq<Sub>, now: seq<Pixel>, subs: seq<Sub>, w: nat, h: nat, bg: Pixel, k: nat,
                      wire: Sub -> seq<byte>, per: nat, out: seq<byte>, numsubs: nat, b: Box)
    requires w > 0 && k < |now| && now[k] != bg && Encoding(all, now, subs, w, h, bg, k, wire, per, out, numsubs)
    requires b == Found(now, w, h, Col(w, k), Row(w, k)) && |wire(Sub(b, now[k]))| == per
    ensures |all| > numsubs
    ensures Encoding(all, Fill(now, w, h, b, bg), subs + [Sub(b, now[k])], w, h, bg, k + 1, wire, per,
                     out + wire(Sub(b, now[k])), numsubs + 1)
  {
    hide Found, Fill, WireAll;
    WireAppend(wire, subs, Sub(b, now[k]));
    var rest := Greedy(Fill(now, w, h, b, bg), w, h, bg, k + 1);
    assert subs + ([Sub(b, now[k])] + rest) == subs + [Sub(b, now[k])] + rest;
  }

  lemma EncodingEnds(all: seq<Sub>, now: seq<Pixel>, subs: seq<Sub>, w: nat, h: nat, bg: Pixel, k: nat,
                     wire: Sub -> seq<byte>, per: nat, out: seq<byte>, numsubs: nat)
    requires w > 0 && k >= |now| && Encoding(all, now, subs, w, h, bg, k, wire, per, out, numsubs)
    ensures subs == all && numsubs == |all| && out == WireAll(wire, all) && |out| == per * numsubs
  {
    hide WireAll;
  }

  lemma EncodingStarts(d: seq<Pixel>, w: nat, h: nat, bg: Pixel, wire: Sub -> seq<byte>, per: nat)
    requires w > 0
    ensures Encoding(Greedy(d, w, h, bg, 0), d, [], w, h, bg, 0, wire, per, [], 0)
  {
    hide Greedy;
  }

  /** What `subrectEncode` does at one cell. */
  method EncodeAt(data: array<Pixel>, w: nat, h: nat, x: nat, y: nat, bg: Pixel, wire: Sub -> seq<byte>, per: nat, head: nat,
                  limit: nat, out: seq<byte>, numsubs: nat, ghost subs: seq<Sub>, ghost all: seq<Sub>)
      returns (ok: bool, out': seq<byte>, numsubs': nat, ghost subs': seq<Sub>)
    requires data.Length == h * w && x < w && y < h && head + |out| <= limit && forall s :: |wire(s)| == per
    requires Encoding(all, data[..], subs, w, h, bg, Times(y, w) + x, wire, per, out, numsubs)
    modifies data
    ensures ok ==> Encoding(all, data[..], subs', w, h, bg, Times(y, w) + x + 1, wire, per, out', numsubs')
    ensures head + |out'| <= limit && (!ok ==> limit < head + per * |all|)
  {
    hide Dot, Fill, Encoding, Biggest, Found, Plain, WireAll, Greedy;
    ok, out', numsubs', subs' := true, out, numsubs, subs;
    ghost var k := Times(y, w) + x;
    CellAt(data[..], w, h, x, y);
    var cl := GetDot(data, w, h, x, y);
    if cl != bg {
      ghost var now := data[..];
      var b := FindSubrect(data, w, h, x, y);
      OutSize(all, now, subs, w, h, bg, k, wire, per, out, numsubs);
      EncodingLists(all, now, subs, w, h, bg, k, wire, per, out, numsubs, b);
      if head + |out| + per > limit {
        Scale(per, numsubs + 1, |all|);
        ok := false;
        return;
      }
      out' := out + wire(Sub(b, cl));
      numsubs' := numsubs + 1;
      subs' := subs + [Sub(b, cl)];
      Mark(data, w, h, b, bg);
    } else {
      EncodingSkips(all, data[..], subs, w, h, bg, k, wire, per, out, numsubs);
    }
  }

  lemma OutSize(all: seq<Sub>, now: seq<Pixel>, subs: seq<Sub>, w: nat, h: nat, bg: Pixel, k: nat,
                wire: Sub -> seq<byte>, per: nat, out: seq<byte>, numsubs: nat)
    requires w > 0 && Encoding(all, now, subs, w, h, bg, k, wire, per, out, numsubs)
    ensures |out| + per == per * (numsubs + 1)
  {
    hide Greedy, WireAll;
  }

  lemma CellAt(d: seq<Pixel>, w: nat, h: nat, x: nat, y: nat)
    requires |d| == h * w && x < w && y < h
    ensures var k := Times(y, w) + x;
            k < |d| && Row(w, k) == y && Col(w, k) == x && d[k] == Dot(d, w, x, y)
  {
    Ordered(w, y, h, h);
    At(w, y, x);
  }

  /** `subrectEncode`, of which the encoders differ in the bytes of a subrectangle, in what comes before them and in the
      limit: it gives up just when the whole list would exceed the limit. */
  method SubrectEncode(data: array<Pixel>, w: nat, h: nat, bg: Pixel, wire: Sub -> seq<byte>, per: nat, head: nat, limit: nat)
      returns (ok: bool, out: seq<byte>, numsubs: nat)
    requires w > 0 && data.Length == h * w && head <= limit
    requires forall s :: |wire(s)| == per
    modifies data
    ensures var subs := Greedy(old(data[..]), w, h, bg, 0);
            && ok == (head + per * |subs| <= limit)
            && (ok ==> numsubs == |subs| && out == WireAll(wire, subs) && |out| == per * numsubs)
    ensures head + |out| <= limit
  {
    hide Dot, Encoding, Greedy, WireAll, Times;
    ghost var all, subs: seq<Sub> := Greedy(data[..], w, h, bg, 0), [];
    out, numsubs := [], 0;
    EncodingStarts(data[..], w, h, bg, wire, per);
    TimesIs(0, w);
    for y := 0 to h
      invariant Encoding(all, data[..], subs, w, h, bg, Times(y, w), wire, per, out, numsubs) && head + |out| <= limit
    {
      for x := 0 to w
        invariant Encoding(all, data[..], subs, w, h, bg, Times(y, w) + x, wire, per, out, numsubs) && head + |out| <= limit
      {
        ok, out, numsubs, subs := EncodeAt(data, w, h, x, y, bg, wire, per, head, limit, out, numsubs, subs, all);
        if !ok {
          return;
        }
      }
      TimesIs(y, w);
    }
    ok := true;
    TimesIs(h, w);
    EncodingEnds(all, data[..], subs, w, h, bg, Times(h, w), wire, per, out, numsubs);
  }

  lemma {:induction false} WireAppend(wire: Sub -> seq<byte>, subs: seq<Sub>, s: Sub)
    ensures WireAll(wire, subs + [s]) == WireAll(wire, subs) + wire(s)
  {
    if subs == [] {
      assert subs + [s] == [s];
    } else {
      assert (subs + [s])[1..] == subs[1..] + [s];
      WireAppend(wire, subs[1..], s);
    }
  }

  /** Where a picture turns into background, its other cells become fewer. */
  lemma {:induction false} FewerOthers(d: seq<Pixel>, e: seq<Pixel>, bg: Pixel)
    requires |e| == |d| && forall k :: 0 <= k < |d| ==> e[k] == bg || e[k] == d[k]
    ensures Others(e, bg) <= Others(d, bg)
    ensures (exists k :: 0 <= k < |d| && d[k] != bg && e[k] == bg) ==> Others(e, bg) < Others(d, bg)
  {
    if d != [] {
      FewerOthers(d[1..], e[1..], bg);
      if k :| 0 <= k < |d| && d[k] != bg && e[k] == bg {
        assert k > 0 ==> d[1..][k - 1] != bg && e[1..][k - 1] == bg;
      }
    }
  }

  lemma DotAt(d: seq<Pixel>, w: nat, h: nat, k: nat)
    requires w > 0 && |d| == h * w && k < |d|
    ensures d[k] == Dot(d, w, Col(w, k), Row(w, k)) && Row(w, k) < h
  {
    RowCol(w, h, k);
  }

  /** Listing the rectangle at a cell, and marking it as done, keeps the list right. */
  lemma Marked(orig: seq<Pixel>, now: seq<Pixel>, subs: seq<Sub>, w: nat, h: nat, bg: Pixel, b: Box, k: nat)
    requires w > 0 && |now| == h * w && k < |now| && b.x == Col(w, k) && b.y == Row(w, k) && b.w > 0 && b.h > 0
    requires CheckRect(b, w, h) && Plain(now, w, b, now[k]) && now[k] != bg
    requires Listed(orig, now, subs, w, h, bg) && Done(now, k, bg)
    ensures Listed(orig, Fill(now, w, h, b, bg), subs + [Sub(b, now[k])], w, h, bg) && Done(Fill(now, w, h, b, bg), k + 1, bg)
  {
    hide Dot, Others, Row, Col;
    MarkedCells(orig, now, subs, w, h, bg, b, now[k]);
    DotAt(now, w, h, k);
    DotAt(Fill(now, w, h, b, bg), w, h, k);
  }

  lemma MarkedCells(orig: seq<Pixel>, now: seq<Pixel>, subs: seq<Sub>, w: nat, h: nat, bg: Pixel, b: Box, cl: Pixel)
    requires w > 0 && |now| == h * w && b.w > 0 && b.h > 0 && CheckRect(b, w, h) && Plain(now, w, b, cl) && cl != bg
    requires Progress(orig, now, subs, w, h, bg)
    ensures Progress(orig, Fill(now, w, h, b, bg), subs + [Sub(b, cl)], w, h, bg) && cl in orig
    ensures Others(Fill(now, w, h, b, bg), bg) < Others(now, bg)
    ensures Dot(Fill(now, w, h, b, bg), w, b.x, b.y) == bg
  {
    hide Dot, Others;
    var next, all := Fill(now, w, h, b, bg), subs + [Sub(b, cl)];
    assert all[..|subs|] == subs;
    forall k | 0 <= k < |now|
      ensures Cell(orig[k], next[k], all, w, h, bg, k)
      ensures Hits(b, w, h, k) ==> now[k] == cl == orig[k]
    {
      DotAt(now, w, h, k);
      assert Cell(orig[k], now[k], subs, w, h, bg, k);
      assert Moved(b, 0, 0) == b;
      if Hits(b, w, h, k) {
        assert PlainRow(now, w, b.x, b.w, Row(w, k), cl);
      }
    }
    Ordered(w, b.y, h, h);
    var k := b.y * w + b.x;
    At(w, b.y, b.x);
    assert Hits(b, w, h, k) && next[k] == bg;
    DotAt(next, w, h, k);
    FewerOthers(now, next, bg);
  }

  lemma OthersEnd(d: seq<Pixel>, p: Pixel, c: Pixel)
    ensures Others(d + [p], c) == Others(d, c) + if p == c then 0 else 1
    decreases |d|
  {
    if d == [] {
      assert d + [p] == [p];
    } else {
      assert (d + [p])[1..] == d[1..] + [p];
      OthersEnd(d[1..], p, c);
    }
  }
}
