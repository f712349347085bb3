/** Row-major indexing, and the arithmetic of steps that are powers of two. */
module Grid {

  /** `1 << l`. */
  function Pow2(l: nat): (g: nat)
    ensures g > 0
  {
    if l == 0 then 1 else 2 * Pow2(l - 1)
  }

  /** `a / b` on operands that C divides without truncating towards zero from below. */
  function Quotient(a: nat, b: nat): nat
    requires b > 0
  {
    a / b
  }

  /** The image of `h` rows of `w` cells splits into whole 2x2 blocks of the grid of step `g`. */
  predicate Splits(w: nat, h: nat, g: nat) {
    w > 0 && h > 0 && g > 0 && w % (2 * g) == 0 && h % (2 * g) == 0
  }

  function Row(w: nat, i: nat): nat
    requires w > 0
  {
    i / w
  }

  function Col(w: nat, i: nat): (x: nat)
    requires w > 0
    ensures x < w
  {
    i % w
  }

  lemma At(w: nat, y: nat, x: nat)
    requires x < w
    ensures Row(w, y * w + x) == y && Col(w, y * w + x) == x
  {
    assert 0 <= x < w && y * w + x == w * y + x;
    DivModUnique(w, y, x);
  }

  lemma Scale(m: nat, a: nat, b: nat)
    ensures a <= b ==> m * a <= m * b
  {
    if a < b {
      assert m * b == m * a + m * (b - a);
    }
  }

  /** A product that proofs take as a whole. */
  function Times(a: nat, b: nat): nat { a * b }

  lemma TimesIs(a: nat, b: nat)
    ensures Times(a, b) == a * b && Times(0, b) == 0 && Times(a + 1, b) == Times(a, b) + b
  {
  }

  lemma TimesOrdered(a: nat, b: nat, c: nat)
    ensures a <= b ==> Times(a, c) <= Times(b, c)
    ensures a < b ==> Times(a, c) + c <= Times(b, c)
  {
    Scale(c, a, b);
    Scale(c, a + 1, b);
    assert c * (a + 1) == c * a + c;
  }

  lemma DivModUnique(w: nat, y: nat, x: nat)
    requires x < w
    ensures (w * y + x) / w == y && (w * y + x) % w == x
  {
    var (q, r) := ((w * y + x) / w, (w * y + x) % w);
    assert w * y + x == w * q + r;
    Scale(w, q + 1, y);
    Scale(w, y + 1, q);
  }

  /** Every index is the index of its row and column, and rows bound indices. */
  lemma RowCol(w: nat, h: nat, i: nat)
    requires w > 0
    ensures i == Row(w, i) * w + Col(w, i)
    ensures i < h * w <==> Row(w, i) < h
  {
    var y, x := Row(w, i), Col(w, i);
    assert i == w * y + x;
    assert w * y == y * w && h * w == w * h;
    Scale(w, y + 1, h);
    Scale(w, h, y);
    assert w * (y + 1) == w * y + w;
  }

  /** Two multiples of `m` in order differ by at least `m`. */
  lemma MultipleGap(m: nat, a: nat, b: nat)
    requires m > 0 && a % m == 0 && b % m == 0 && a < b
    ensures a + m <= b
  {
    var (j, k) := (a / m, b / m);
    assert a == m * j && b == m * k;
    Scale(m, k, j);
    Scale(m, j + 1, k);
  }

  lemma BelowQuotient(k: nat, m: nat, size: nat)
    requires m > 0 && size % m == 0
    ensures k < Quotient(size, m) <==> m * k < size
    ensures k < Quotient(size, m) ==> m * k + m <= size
    ensures m * k % m == 0
  {
    var q := Quotient(size, m);
    assert size == m * q;
    Scale(m, k + 1, q);
    Scale(m, q, k);
    assert m * (k + 1) == m * k + m;
    DivModUnique(m, k, 0);
  }
}
