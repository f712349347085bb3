/** The piecewise-linear Haar step of the ZYWRLE codec, on the byte coefficients of the codec's work buffer. */
module ZywrleHarr {

  /** The C `signed char`. */
  type int8 = x: int | -128 <= x < 128

  /** Bit 0x80 of the two's complement representation of a C `int`. */
  function Bit7(x: int): (r: int)
    ensures 0 <= x < 128 ==> r == 0
    ensures -128 <= x < 0 ==> r == 1
  {
    x / 128 % 2
  }

  /** The conversion `(signed char)x`. */
  function SignedChar(x: int): (r: int8)
    ensures -128 <= x < 128 ==> r == x
    ensures 128 <= x < 384 ==> r == x - 256
  {
    if x % 256 < 128 then x % 256 else x % 256 - 256
  }

  /** The values that `Harr` stores to `*pX0` and `*pX1`. */
  function Step(x0: int8, x1: int8): (int8, int8)
  {
    if Bit7(x0) != Bit7(x1) then
      var y1 := x1 + x0;
      var y0 := if Bit7(y1) == Bit7(x1) then x0 - y1 else x0;
      (SignedChar(y1), SignedChar(y0))
    else
      var y0 := x0 - x1;
      var y1 := if Bit7(y0) == Bit7(x0) then x1 + y0 else x1;
      (SignedChar(y1), SignedChar(y0))
  }

  /** The odd range to which the encoder confines every coefficient. */
  predicate InRange(x: int) {
    -127 <= x <= 127
  }

  /** The step undoes itself exactly when it is not given -128 as second byte after a non-negative first one. */
  lemma SelfInverse(x0: int8, x1: int8)
    ensures Step(Step(x0, x1).0, Step(x0, x1).1) == (x0, x1) <==> !(x1 == -128 && x0 >= 0)
  {
    hide Step;
    if (x0 < 0) == (x1 < 0) {
      SelfInverseSame(x0, x1);
    } else {
      SelfInverseOpposite(x0, x1);
    }
  }

  lemma SelfInverseSame(x0: int8, x1: int8)
    requires (x0 < 0) == (x1 < 0)
    ensures Step(Step(x0, x1).0, Step(x0, x1).1) == (x0, x1)
  {
    var (a, b) := Step(x0, x1);
    assert b == x0 - x1;
  }

  lemma SelfInverseOpposite(x0: int8, x1: int8)
    requires (x0 < 0) != (x1 < 0)
    ensures Step(Step(x0, x1).0, Step(x0, x1).1) == (x0, x1) <==> !(x1 == -128 && x0 >= 0)
  {
    var (a, b) := Step(x0, x1);
    assert a == x0 + x1;
    if x1 == -128 {
      assert b == -128;
    }
  }

  lemma SelfInverseFailure()
    ensures Step(Step(0, -128).0, Step(0, -128).1) == (-128, 0)
  {
    assert Step(0, -128) == (-128, -128);
  }

  /** Inside the odd range nothing wraps: each result is the sum, the difference or one (negated) coefficient. */
  lemma StepExact(x0: int8, x1: int8)
    requires InRange(x0) && InRange(x1)
    ensures InRange(Step(x0, x1).0) && InRange(Step(x0, x1).1)
    ensures Step(x0, x1).0 == x0 + x1 || Step(x0, x1).0 == x0 || Step(x0, x1).0 == x1
    ensures Step(x0, x1).1 == x0 - x1 || Step(x0, x1).1 == x0 || Step(x0, x1).1 == -x1
  {
  }

  function Abs(x: int): nat { if x < 0 then -x else x }

  function Max(x: int, y: int): int { if x < y then y else x }

  /** What the step is: of two values of opposite sign it gives the sum and the larger magnitude, with the sign of the first
      value; of two values of one sign the larger magnitude, with that sign, and the difference. */
  lemma PiecewiseLinear(x0: int8, x1: int8)
    requires InRange(x0) && InRange(x1)
    ensures var (l, h) := Step(x0, x1);
            if (x0 < 0) != (x1 < 0) then
              l == x0 + x1 && Abs(h) == Max(Abs(x0), Abs(x1)) && (h != 0 ==> (h < 0 <==> x0 < 0))
            else
              h == x0 - x1 && Abs(l) == Max(Abs(x0), Abs(x1)) && (l != 0 ==> (l < 0 <==> x0 < 0))
  {
  }

  /** Hence the step keeps the odd range, and keeps the granularity that the two coefficients have in common. */
  lemma StepKeeps(x0: int8, x1: int8, m: int)
    requires InRange(x0) && InRange(x1)
    requires IsGranularity(m)
    requires x0 % m == 0 && x1 % m == 0
    ensures InRange(Step(x0, x1).0) && InRange(Step(x0, x1).1)
    ensures Step(x0, x1).0 % m == 0 && Step(x0, x1).1 % m == 0
  {
    StepExact(x0, x1);
    Multiples(x0, x1, m);
  }

  lemma Multiples(x: int, y: int, m: int)
    requires IsGranularity(m)
    requires x % m == 0 && y % m == 0
    ensures (x + y) % m == 0 && (x - y) % m == 0 && -y % m == 0
  {
    if m == 4 {
      By4(x + y, x / 4 + y / 4);
      By4(x - y, x / 4 - y / 4);
      By4(-y, -(y / 4));
    } else if m == 8 {
      By8(x + y, x / 8 + y / 8);
      By8(x - y, x / 8 - y / 8);
      By8(-y, -(y / 8));
    }
  }

  lemma By4(x: int, t: int)
    ensures x == 4 * t ==> x % 4 == 0
  {
  }

  lemma By8(x: int, t: int)
    ensures x == 8 * t ==> x % 8 == 0
  {
  }

  /** One C `int` of the work buffer, as its four bytes.  Byte 3 is never a coefficient. */
  datatype Cell = Cell(c0: int8, c1: int8, c2: int8, c3: int8) {
    predicate Ranged() {
      InRange(c0) && InRange(c1) && InRange(c2)
    }

    /** The coefficient of channel `c`, `((signed char*)p)[c]`. */
    function Get(c: nat): int8
      requires c < 3
    {
      match c case 0 => c0 case 1 => c1 case 2 => c2
    }

    function Set(c: nat, v: int8): Cell
      requires c < 3
    {
      match c case 0 => this.(c0 := v) case 1 => this.(c1 := v) case 2 => this.(c2 := v)
    }
  }

  /** The coefficients are in the odd range, and multiples of `my` (channel 1) and `muv` (channels 0 and 2). */
  predicate Fine(p: Cell, my: int, muv: int)
    requires my > 0 && muv > 0
  {
    p.Ranged() && p.c1 % my == 0 && p.c0 % muv == 0 && p.c2 % muv == 0
  }

  predicate IsGranularity(m: int) {
    m == 1 || m == 4 || m == 8
  }

  function Low(p: Cell, q: Cell): Cell {
    Cell(Step(p.c0, q.c0).0, Step(p.c1, q.c1).0, Step(p.c2, q.c2).0, p.c3)
  }

  function High(p: Cell, q: Cell): Cell {
    Cell(Step(p.c0, q.c0).1, Step(p.c1, q.c1).1, Step(p.c2, q.c2).1, q.c3)
  }

  lemma CellsKeep(p: Cell, q: Cell, my: int, muv: int)
    requires IsGranularity(my) && IsGranularity(muv)
    requires Fine(p, my, muv) && Fine(q, my, muv)
    ensures Fine(Low(p, q), my, muv) && Fine(High(p, q), my, muv)
  {
    hide Step;
    StepKeeps(p.c0, q.c0, muv);
    StepKeeps(p.c1, q.c1, my);
    StepKeeps(p.c2, q.c2, muv);
  }

  lemma CellsSelfInverse(p: Cell, q: Cell)
    requires p.Ranged() && q.Ranged()
    ensures Low(Low(p, q), High(p, q)) == p && High(Low(p, q), High(p, q)) == q
  {
    hide Step;
    SelfInverse(p.c0, q.c0);
    SelfInverse(p.c1, q.c1);
    SelfInverse(p.c2, q.c2);
  }

  /** `Harr(pX0, pX1)`, with the pointers given as a cell index and a common channel. */
  method Harr(a: array<Cell>, p: nat, q: nat, c: nat)
    requires p < a.Length && q < a.Length && p != q && c < 3
    modifies a
    ensures a[..] == old(a[..])[p := old(a[p]).Set(c, Step(old(a[p]).Get(c), old(a[q]).Get(c)).0)]
                               [q := old(a[q]).Set(c, Step(old(a[p]).Get(c), old(a[q]).Get(c)).1)]
  {
    var x0: int, x1: int := a[p].Get(c), a[q].Get(c);
    var orgX0, orgX1 := x0, x1;
    if Bit7(x0) != Bit7(x1) {
      x1 := x1 + x0;
      if Bit7(x1) == Bit7(orgX1) {
        x0 := x0 - x1;
      }
    } else {
      x0 := x0 - x1;
      if Bit7(x0) == Bit7(orgX0) {
        x1 := x1 + x0;
      }
    }
    a[p] := a[p].Set(c, SignedChar(x1));
    a[q] := a[q].Set(c, SignedChar(x0));
  }

  /** The three `Harr` calls of one turn of the `WaveletLevel` loop. */
  method HarrCell(a: array<Cell>, p: nat, q: nat)
    requires p < a.Length && q < a.Length && p != q
    modifies a
    ensures a[..] == old(a[..])[p := Low(old(a[p]), old(a[q]))][q := High(old(a[p]), old(a[q]))]
  {
    ghost var (x, y) := (a[p], a[q]);
    Harr(a, p, q, 0);
    Harr(a, p, q, 1);
    Harr(a, p, q, 2);
    assert a[p] == Low(x, y) && a[q] == High(x, y);
  }
}
