/** Bytes as numbers, and runs of bytes as pieces of one size. */
module Octets {

  newtype byte = n: int | 0 <= n < 0x100

  function Int(b: byte): (n: nat)
    ensures n < 256
  {
    b as nat
  }

  function Byte(n: nat): byte
    requires n < 256
  {
    n as byte
  }

  /** One bit of a byte. */
  type Flag = f: byte | f == 1 || f == 2 || f == 4 || f == 8 || f == 16 witness 1

  /** `b & flag` */
  predicate Has(b: byte, flag: Flag) { b / flag % 2 == 1 }

  /** `b | flag` */
  function With(b: byte, flag: Flag): (r: byte)
    ensures Has(r, flag)
  {
    WithFits(b, flag);
    if Has(b, flag) then b else b + flag
  }

  lemma WithFits(b: byte, flag: Flag)
    ensures !Has(b, flag) ==> b as int + flag as int < 256 && (b as int + flag as int) / flag as int % 2 == 1
  {
    var (x, f) := (b as int, flag as int);
    var q := x / f;
    assert x == f * q + x % f;
    if !Has(b, flag) {
      assert q % 2 == 0;
      if f == 1 {
      } else if f == 2 {
      } else if f == 4 {
      } else if f == 8 {
      } else {
      }
    }
  }

  /** `n` pieces of `m` bytes. */
  function Chop(bytes: seq<byte>, m: nat, n: nat): (r: seq<seq<byte>>)
    requires n * m <= |bytes|
    ensures |r| == n && forall i :: 0 <= i < n ==> |r[i]| == m
    decreases n
  {
    if n == 0 then [] else Peel(n, m); [bytes[..m]] + Chop(bytes[m..], m, n - 1)
  }

  lemma Peel(n: nat, m: nat)
    requires n > 0
    ensures n * m == m + (n - 1) * m && (n - 1) * m >= 0
  {
  }

  function Flat(pieces: seq<seq<byte>>): seq<byte> {
    if pieces == [] then [] else pieces[0] + Flat(pieces[1..])
  }

  lemma {:induction false} ChopAt(bytes: seq<byte>, m: nat, n: nat, i: nat)
    requires n * m <= |bytes| && i < n
    ensures 0 <= i * m && i * m + m <= n * m
    ensures Chop(bytes, m, n)[i] == bytes[i * m..i * m + m]
    decreases i
  {
    Peel(n, m);
    if i > 0 {
      Peel(i, m);
      ChopAt(bytes[m..], m, n - 1, i - 1);
    }
  }

  lemma {:induction false} ChopPrefix(bytes: seq<byte>, m: nat, n: nat)
    requires n * m <= |bytes|
    ensures Chop(bytes[..n * m], m, n) == Chop(bytes, m, n)
    decreases n
  {
    if n > 0 {
      Peel(n, m);
      assert bytes[..n * m][..m] == bytes[..m];
      assert bytes[..n * m][m..] == bytes[m..][..(n - 1) * m];
      ChopPrefix(bytes[m..], m, n - 1);
    }
  }

  lemma {:induction false} ChopFlat(bytes: seq<byte>, m: nat, n: nat)
    requires n * m <= |bytes|
    ensures bytes == Flat(Chop(bytes, m, n)) + bytes[n * m..]
    decreases n
  {
    if n > 0 {
      Peel(n, m);
      ChopFlat(bytes[m..], m, n - 1);
      assert Chop(bytes, m, n)[1..] == Chop(bytes[m..], m, n - 1);
      assert bytes[m..][(n - 1) * m..] == bytes[n * m..];
    }
  }

  lemma {:induction false} FlatChop(pieces: seq<seq<byte>>, m: nat, rest: seq<byte>)
    requires forall i :: 0 <= i < |pieces| ==> |pieces[i]| == m
    ensures |Flat(pieces)| == |pieces| * m
    ensures Chop(Flat(pieces) + rest, m, |pieces|) == pieces
    ensures (Flat(pieces) + rest)[|pieces| * m..] == rest
    decreases |pieces|
  {
    if pieces != [] {
      Peel(|pieces|, m);
      FlatChop(pieces[1..], m, rest);
      var tail := Flat(pieces[1..]) + rest;
      assert Flat(pieces) + rest == pieces[0] + tail;
      DropFirst(pieces[0], tail, (|pieces| - 1) * m);
      ChopFirst(pieces[0], tail, m, |pieces|);
    }
  }

  lemma DropFirst(a: seq<byte>, b: seq<byte>, q: nat)
    requires q <= |b|
    ensures (a + b)[|a| + q..] == b[q..] && (a + b)[|a|..] == b && (a + b)[..|a|] == a
  {
  }

  lemma ChopFirst(a: seq<byte>, b: seq<byte>, m: nat, n: nat)
    requires n > 0 && |a| == m && 0 <= (n - 1) * m <= |b|
    ensures n * m <= |a + b| && Chop(a + b, m, n) == [a] + Chop(b, m, n - 1)
  {
    Peel(n, m);
    DropFirst(a, b, 0);
  }

  lemma {:induction false} FlatEnd(pieces: seq<seq<byte>>, piece: seq<byte>)
    ensures Flat(pieces + [piece]) == Flat(pieces) + piece
  {
    if pieces == [] {
      assert pieces + [piece] == [piece];
    } else {
      assert (pieces + [piece])[1..] == pieces[1..] + [piece];
      FlatEnd(pieces[1..], piece);
    }
  }

  /** A number in network byte order. */
  function Big(s: seq<byte>): nat {
    if s == [] then 0 else Big(s[..|s| - 1]) * 256 + Int(s[|s| - 1])
  }

  function Swapped(n: nat, k: nat): (s: seq<byte>)
    ensures |s| == k
  {
    if k == 0 then [] else Swapped(n / 256, k - 1) + [Byte(n % 256)]
  }

  function Power256(k: nat): (l: nat)
    ensures l > 0
  {
    if k == 0 then 1 else 256 * Power256(k - 1)
  }

  lemma {:induction false} BigSwapped(n: nat, k: nat)
    requires n < Power256(k)
    ensures Big(Swapped(n, k)) == n
  {

    if k > 0 {
      Quotient256(n, Power256(k - 1));
      BigSwapped(n / 256, k - 1);
      BigEnd(Swapped(n / 256, k - 1), Byte(n % 256));
    }
  }

  lemma Quotient256(n: nat, l: nat)
    requires n < 256 * l
    ensures n / 256 < l && n == n / 256 * 256 + n % 256
  {
  }

  lemma BigEnd(s: seq<byte>, b: byte)
    ensures Big(s + [b]) == Big(s) * 256 + Int(b)
  {
    hide Int;
    assert (s + [b])[..|s|] == s;
  }

  /** One more byte of a copy into the middle of a buffer. */
  lemma Spliced<T>(was: seq<T>, s: seq<T>, at: nat, k: nat)
    requires at + |s| <= |was| && k < |s|
    ensures (was[..at] + s[..k] + was[at + k..])[at + k := s[k]] == was[..at] + s[..k + 1] + was[at + k + 1..]
  {
  }
}
