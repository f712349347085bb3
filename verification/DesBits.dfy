/** Words as the bits of the standard, and its initial permutation. */
module DesBits {
  import opened D3Des
  import Fips = Fips463

  // ---------- Words as bits ----------

  /** Bit `k` of a word, the least significant one being bit 0. */
  predicate Bit(w: bv32, k: bv5) { (w >> (k as bv32)) & 1 == 1 }

  /** The bit that the standard calls bit `i + 1` of a half. */
  function K(i: nat): bv5 {
    if i == 0 then 31 else K(i - 1) - 1
  }

  function WordBits(w: bv32): (b: Fips.Bits)
    ensures |b| == 32
  {
    seq(32, i requires 0 <= i < 32 => Bit(w, K(i)))
  }

  /** Bit `q` of two words. */
  predicate PairBit(x: bv32, y: bv32, q: bv6) {
    if High(q) then Bit(x, Low(q)) else Bit(y, Low(q))
  }

  predicate High(q: bv6) { q >= 32 }

  function Low(q: bv6): bv5 { (q & 31) as bv5 }

  /** The same for the 64 bits of a block. */
  function Q(i: nat): bv6 {
    if i == 0 then 63 else Q(i - 1) - 1
  }

  function PairBits(x: bv32, y: bv32): (b: Fips.Bits)
    ensures |b| == 64
  {
    seq(64, i requires 0 <= i < 64 => PairBit(x, y, Q(i)))
  }

  lemma Ks()
    ensures K(0) == 31 && K(1) == 30 && K(2) == 29 && K(3) == 28 && K(4) == 27 && K(5) == 26 && K(6) == 25 && K(7) == 24
    ensures K(8) == 23 && K(9) == 22 && K(10) == 21 && K(11) == 20 && K(12) == 19 && K(13) == 18 && K(14) == 17
    ensures K(15) == 16
    ensures K(16) == 15 && K(17) == 14 && K(18) == 13 && K(19) == 12 && K(20) == 11 && K(21) == 10 && K(22) == 9
    ensures K(23) == 8
    ensures K(24) == 7 && K(25) == 6 && K(26) == 5 && K(27) == 4 && K(28) == 3 && K(29) == 2 && K(30) == 1 && K(31) == 0
  {
    assert K(8) == 23;
    assert K(16) == 15;
    assert K(24) == 7;
  }

  lemma Qs()
    ensures Q(0) == 63 && Q(1) == 62 && Q(2) == 61 && Q(3) == 60 && Q(4) == 59 && Q(5) == 58 && Q(6) == 57 && Q(7) == 56
    ensures Q(8) == 55 && Q(9) == 54 && Q(10) == 53 && Q(11) == 52 && Q(12) == 51 && Q(13) == 50 && Q(14) == 49
    ensures Q(15) == 48
    ensures Q(16) == 47 && Q(17) == 46 && Q(18) == 45 && Q(19) == 44 && Q(20) == 43 && Q(21) == 42 && Q(22) == 41
    ensures Q(23) == 40
    ensures Q(24) == 39 && Q(25) == 38 && Q(26) == 37 && Q(27) == 36 && Q(28) == 35 && Q(29) == 34 && Q(30) == 33
    ensures Q(31) == 32
    ensures Q(32) == 31 && Q(33) == 30 && Q(34) == 29 && Q(35) == 28 && Q(36) == 27 && Q(37) == 26 && Q(38) == 25
    ensures Q(39) == 24
    ensures Q(40) == 23 && Q(41) == 22 && Q(42) == 21 && Q(43) == 20 && Q(44) == 19 && Q(45) == 18 && Q(46) == 17
    ensures Q(47) == 16
    ensures Q(48) == 15 && Q(49) == 14 && Q(50) == 13 && Q(51) == 12 && Q(52) == 11 && Q(53) == 10 && Q(54) == 9
    ensures Q(55) == 8
    ensures Q(56) == 7 && Q(57) == 6 && Q(58) == 5 && Q(59) == 4 && Q(60) == 3 && Q(61) == 2 && Q(62) == 1 && Q(63) == 0
  {
    assert Q(8) == 55;
    assert Q(16) == 47;
    assert Q(24) == 39;
    assert Q(32) == 31;
    assert Q(40) == 23;
    assert Q(48) == 15;
    assert Q(56) == 7;
  }

  /** The bits of the first and of the second word. */
  lemma Places(i: nat)
    requires i < 32
    ensures High(Q(i)) && Low(Q(i)) == K(i) && !High(Q(i + 32)) && Low(Q(i + 32)) == K(i)
  {
    Ks();
    Qs();
    hide K, Q;
    assert || i == 0 || i == 1 || i == 2 || i == 3 || i == 4 || i == 5 || i == 6 || i == 7 || i == 8 || i == 9
           || i == 10 || i == 11 || i == 12 || i == 13 || i == 14 || i == 15 || i == 16 || i == 17 || i == 18 || i == 19
           || i == 20 || i == 21 || i == 22 || i == 23 || i == 24 || i == 25 || i == 26 || i == 27 || i == 28 || i == 29
           || i == 30 || i == 31;
  }

  // ---------- Rotations and exclusive or ----------

  lemma OnMix(x: bv32, y: bv32, k: bv5)
    ensures Bit(Mix(x, y), k) == (Bit(x, k) != Bit(y, k))
  {
    assert ((x ^ y) >> (k as bv32)) & 1 == ((x >> (k as bv32)) & 1) ^ ((y >> (k as bv32)) & 1);
  }

  lemma OnRor(w: bv32, k: bv5)
    ensures Bit(Ror(w), k) == Bit(w, k + 1)
  {
  }

  lemma OnOr(x: bv32, y: bv32, k: bv5)
    ensures Bit(Or(x, y), k) == (Bit(x, k) || Bit(y, k))
  {
  }

  lemma MixBits(x: bv32, y: bv32)
    ensures WordBits(Mix(x, y)) == Fips.XorBits(WordBits(x), WordBits(y))
  {
    hide Bit, Mix, K;
    forall i: nat | i < 32
      ensures Bit(Mix(x, y), K(i)) == (Bit(x, K(i)) != Bit(y, K(i)))
    {
      OnMix(x, y, K(i));
    }
  }

  lemma RorMix(x: bv32, y: bv32)
    ensures Ror(Mix(x, y)) == Mix(Ror(x), Ror(y))
  {
  }

  // ---------- The initial permutation ----------

  function Shr(x: bv32, n: bv32): bv32
    requires n < 32
  {
    x >> n
  }

  function And(x: bv32, m: bv32): bv32 { x & m }

  lemma OnAnd(x: bv32, m: bv32, k: bv5)
    ensures Bit(And(x, m), k) == (Bit(x, k) && Bit(m, k))
  {
    assert ((x & m) >> (k as bv32)) & 1 == ((x >> (k as bv32)) & 1) & ((m >> (k as bv32)) & 1);
  }

  lemma WorkIs(x: bv32, y: bv32, n: bv32, mask: bv32)
    requires n < 32
    ensures Work(x, y, n, mask) == And(Mix(Shr(x, n), y), mask)
  {
  }

  /** The distances over which the steps exchange bits between the words. */
  type Step = n: bv5 | n == 2 || n == 4 || n == 8 || n == 16 witness 2

  function Mask(n: Step): bv32 {
    if n == 2 then 0x33333333 else if n == 4 then 0x0f0f0f0f else if n == 8 then 0x00ff00ff else 0x0000ffff
  }

  /** The places that a step leaves in the lower of two exchanged words. */
  predicate Lower(n: bv5, k: bv5) { k & n == 0 }

  function Wide(n: bv5): bv32 { n as bv32 }

  lemma OnShl(w: bv32, n: Step, k: bv5)
    ensures Bit(Shl(w, Wide(n)), k) == (k >= n && Bit(w, k - n))
  {
    if n == 2 {
      assert Wide(n) == 2;
    } else if n == 4 {
      assert Wide(n) == 4;
    } else if n == 8 {
      assert Wide(n) == 8;
    } else {
      assert Wide(n) == 16;
    }
  }

  lemma OnShr(w: bv32, n: Step, k: bv5)
    ensures Bit(Shr(w, Wide(n)), k) == (k <= 31 - n && Bit(w, k + n))
  {
    if n == 2 {
      assert Wide(n) == 2;
    } else if n == 4 {
      assert Wide(n) == 4;
    } else if n == 8 {
      assert Wide(n) == 8;
    } else {
      assert Wide(n) == 16;
    }
  }

  lemma OnMask(n: Step, k: bv5)
    ensures Bit(Mask(n), k) == Lower(n, k)
    ensures Lower(n, k) ==> k <= 31 - n
    ensures k >= n && Lower(n, k - n) <==> !Lower(n, k)
    ensures k - n + n == k && (k >= n ==> k - n <= 31 - n)
  {
    if n == 2 {
    } else if n == 4 {
    } else if n == 8 {
    } else {
    }
  }

  lemma OnWork(x: bv32, y: bv32, n: Step, k: bv5)
    ensures Bit(Work(x, y, Wide(n), Mask(n)), k) == (Lower(n, k) && Bit(x, k + n) != Bit(y, k))
  {
    hide Bit, Mix, Work, Shr, And, Lower, Mask, Wide;
    WideFits(n);
    WorkIs(x, y, Wide(n), Mask(n));
    OnMask(n, k);
    OnShr(x, n, k);
    OnMix(Shr(x, Wide(n)), y, k);
    OnAnd(Mix(Shr(x, Wide(n)), y), Mask(n), k);
  }

  lemma WideFits(n: bv5)
    ensures Wide(n) < 32
  {
  }

  lemma OnSwap(x: bv32, y: bv32, n: Step, k: bv5)
    ensures Wide(n) < 32
    ensures Bit(Swap(x, y, Wide(n), Mask(n)).1, k) == if Lower(n, k) then Bit(x, k + n) else Bit(y, k)
    ensures Bit(Swap(x, y, Wide(n), Mask(n)).0, k) == if Lower(n, k) then Bit(x, k) else Bit(y, k - n)
  {
    hide Bit, Mix, Work, Shl, Lower, Mask, Wide;
    WideFits(n);
    var w := Work(x, y, Wide(n), Mask(n));
    OnMask(n, k);
    OnWork(x, y, n, k);
    OnWork(x, y, n, k - n);
    OnShl(w, n, k);
    OnMix(y, w, k);
    OnMix(x, Shl(w, Wide(n)), k);
  }

  lemma OnMask0(k: bv5)
    ensures Bit(0xaaaaaaaa, k) == !Lower(1, k)
  {
  }

  lemma NoShift(w: bv32)
    ensures Shl(w, 0) == w && Shr(w, 0) == w
  {
  }

  lemma OnSwap0(x: bv32, y: bv32, k: bv5)
    ensures Bit(Swap(x, y, 0, 0xaaaaaaaa).1, k) == if Lower(1, k) then Bit(y, k) else Bit(x, k)
    ensures Bit(Swap(x, y, 0, 0xaaaaaaaa).0, k) == if Lower(1, k) then Bit(x, k) else Bit(y, k)
  {
    hide Bit, Mix, Work, Shl, Shr, And, Lower;
    var w := Work(x, y, 0, 0xaaaaaaaa);
    WorkIs(x, y, 0, 0xaaaaaaaa);
    NoShift(x);
    NoShift(w);
    OnMask0(k);
    OnAnd(Mix(x, y), 0xaaaaaaaa, k);
    OnMix(x, y, k);
    OnMix(y, w, k);
    OnMix(x, w, k);
  }

  lemma OnRol(w: bv32, k: bv5)
    ensures Bit(Rol(w), k) == Bit(w, k - 1)
  {
  }

  /** Where bit `q` of a pair comes from when a step exchanges bits: the index bits for 32 and for `n` are exchanged. */
  function Source(n: bv5, q: bv6): bv6 { if High(q) == Lower(n, Low(q)) then q else q ^ 0x20 ^ (n as bv6) }

  lemma SourceIs(n: bv5, q: bv6)
    requires n == 1 || n == 2 || n == 4 || n == 8 || n == 16
    ensures Lower(n, Low(q)) ==> if High(q) then Source(n, q) == q else High(Source(n, q)) && Low(Source(n, q)) == Low(q) + n
    ensures !Lower(n, Low(q)) ==> if High(q) then !High(Source(n, q)) && Low(Source(n, q)) == Low(q) - n else Source(n, q) == q
  {
  }

  lemma PairSwap(x: bv32, y: bv32, n: Step, q: bv6)
    ensures Wide(n) < 32
    ensures var s := Swap(x, y, Wide(n), Mask(n)); PairBit(s.0, s.1, q) == PairBit(x, y, Source(n, q))
  {
    hide Bit, Swap, Lower, High, Low, Source, Mask, Wide;
    SourceIs(n, q);
    OnSwap(x, y, n, Low(q));
  }

  /** The last step, on a word that is rotated, rotates the other one. */
  lemma PairSwap1(x: bv32, y: bv32, q: bv6)
    ensures var s := Swap(x, Rol(y), 0, 0xaaaaaaaa); PairBit(s.0, Ror(s.1), q) == PairBit(x, y, Source(1, q))
  {
    hide Bit, Swap, Lower, High, Low, Source, Rol, Ror;
    SourceIs(1, q);
    Next(Low(q));
    var s := Swap(x, Rol(y), 0, 0xaaaaaaaa);
    OnRor(s.1, Low(q));
    OnSwap0(x, Rol(y), Low(q));
    OnSwap0(x, Rol(y), Low(q) + 1);
    OnRol(y, Low(q));
    OnRol(y, Low(q) + 1);
  }

  lemma Next(k: bv5)
    ensures Lower(1, k + 1) == !Lower(1, k) && k + 1 - 1 == k
  {
  }

  function Other(q: bv6): bv6 { q ^ 0x20 }

  lemma PairOther(x: bv32, y: bv32, q: bv6)
    ensures PairBit(x, y, q) == PairBit(y, x, Other(q))
  {
    hide Bit;
  }

  /** Where the code's initial permutation takes bit `q` from. */
  function IpSource(q: bv6): bv6 { Source(4, Source(16, Other(Source(2, Source(8, Other(Source(1, q))))))) }

  lemma InitialBit(a: bv32, b: bv32, q: bv6)
    ensures var (l, r) := Initial(a, b); PairBit(Ror(l), Ror(r), q) == PairBit(a, b, IpSource(q))
  {
    hide PairBit, Swap, Source, Other, Rol, Ror;
    var (l1, r1) := Swap(a, b, 4, 0x0f0f0f0f);
    var (l2, r2) := Swap(l1, r1, 16, 0x0000ffff);
    var (r3, l3) := Swap(r2, l2, 2, 0x33333333);
    var (r4, l4) := Swap(r3, l3, 8, 0x00ff00ff);
    var (l5, r5) := Swap(l4, Rol(r4), 0, 0xaaaaaaaa);
    RolRor(l5);
    var q1 := Source(1, q);
    var q8 := Source(8, Other(q1));
    var q2 := Source(2, q8);
    PairSwap1(l4, r4, q);
    PairOther(l4, r4, q1);
    PairSwap(r3, l3, 8, Other(q1));
    PairSwap(r2, l2, 2, q8);
    PairOther(r2, l2, q2);
    PairSwap(l1, r1, 16, Other(q2));
    PairSwap(a, b, 4, Source(16, Other(q2)));
  }

  lemma TableSizes()
    ensures |Fips.IP| == |Fips.IP_INVERSE| == 64 && |Fips.E| == |Fips.PC2| == 48 && |Fips.P| == 32 && |Fips.PC1| == 56
  {
    Fips.Sizes();
  }

  /** In one step: the bits of the index are exchanged, and some of them inverted. */
  function IpIndex(q: bv6): bv6 { (((q ^ 7) & 7) << 3) | ((q >> 2) & 6) | (((q >> 5) & 1) ^ 1) }

  lemma IpSourceIs(q: bv6)
    ensures IpSource(q) == IpIndex(q)
  {
  }

  function IpPlace(i: nat): nat {
    TableSizes();
    if i < 64 then Fips.IP[i] as int - 1 else 0
  }

  /** The rows of the table count upwards in twos, from the last byte of the block to the first. */
  lemma IpPlaceIs(r: nat, c: nat)
    requires r < 8 && c < 8
    ensures IpPlace(8 * r + c) == 56 - 8 * c + (if r < 4 then 2 * r + 1 else 2 * r - 8)
  {
    assert c == 0 || c == 1 || c == 2 || c == 3 || c == 4 || c == 5 || c == 6 || c == 7;
    assert r == 0 || r == 1 || r == 2 || r == 3 || r == 4 || r == 5 || r == 6 || r == 7;
  }

  /** Three bits of an index. */
  function Three(n: nat): bv6 {
    if n == 0 then 0 else if n == 1 then 1 else if n == 2 then 2 else if n == 3 then 3
    else if n == 4 then 4 else if n == 5 then 5 else if n == 6 then 6 else 7
  }

  lemma QIs(r: nat, c: nat)
    requires r < 8 && c < 8
    ensures Q(8 * r + c) == 63 - ((Three(r) << 3) | Three(c))
  {
    Qs();
    hide Q;
    assert c == 0 || c == 1 || c == 2 || c == 3 || c == 4 || c == 5 || c == 6 || c == 7;
    assert r == 0 || r == 1 || r == 2 || r == 3 || r == 4 || r == 5 || r == 6 || r == 7;
  }

  lemma IpTable(r: nat, c: nat)
    requires r < 8 && c < 8
    ensures IpPlace(8 * r + c) < 64 && IpSource(Q(8 * r + c)) == Q(IpPlace(8 * r + c))
  {
    hide Q, IpPlace, IpSource;
    IpPlaceIs(r, c);
    IpSourceIs(Q(8 * r + c));
    QIs(r, c);
    QIs(7 - c, if r < 4 then 2 * r + 1 else 2 * r - 8);
    assert c == 0 || c == 1 || c == 2 || c == 3 || c == 4 || c == 5 || c == 6 || c == 7;
    assert r == 0 || r == 1 || r == 2 || r == 3 || r == 4 || r == 5 || r == 6 || r == 7;
  }

  function InversePlace(i: nat): nat {
    TableSizes();
    if i < 64 then Fips.IP_INVERSE[i] as int - 1 else 0
  }

  lemma InversePlaceIs(r: nat, c: nat)
    requires r < 8 && c < 8
    ensures InversePlace(8 * r + c) == 8 * (if c % 2 == 0 then 4 + c / 2 else c / 2) + (7 - r)
  {
    assert c == 0 || c == 1 || c == 2 || c == 3 || c == 4 || c == 5 || c == 6 || c == 7;
    assert r == 0 || r == 1 || r == 2 || r == 3 || r == 4 || r == 5 || r == 6 || r == 7;
  }

  /** The second table undoes the first. */
  lemma TablesInverse(i: nat)
    requires i < 64
    ensures InversePlace(i) < 64 && IpPlace(InversePlace(i)) == i
  {
    hide InversePlace, IpPlace;
    var (r, c) := (i / 8, i % 8);
    InversePlaceIs(r, c);
    IpPlaceIs(if c % 2 == 0 then 4 + c / 2 else c / 2, 7 - r);
  }

  /** The first part of `desfunc` is the initial permutation, but for a rotation of both halves. */
  lemma InitialBits(a: bv32, b: bv32)
    ensures var (l, r) := Initial(a, b);
            |Fips.IP| == 64 && WordBits(Ror(l)) + WordBits(Ror(r)) == Fips.Choose(PairBits(a, b), Fips.IP)
  {
    hide PairBit, IpSource, Q, K, Initial, Ror, Bit, High, Low;
    TableSizes();
    var (l, r) := Initial(a, b);
    var bits := WordBits(Ror(l)) + WordBits(Ror(r));
    forall i: nat | i < 64
      ensures bits[i] == PairBits(a, b)[Fips.IP[i] as int - 1]
    {
      InitialBit(a, b, Q(i));
      IpTable(i / 8, i % 8);
      HalfBits(Ror(l), Ror(r), i);
    }
  }

  lemma HalfBits(x: bv32, y: bv32, i: nat)
    requires i < 64
    ensures (WordBits(x) + WordBits(y))[i] == PairBit(x, y, Q(i))
  {
    hide Q, K, Bit, High, Low;
    Places(i % 32);
  }

  lemma PairIs(x: bv32, y: bv32)
    ensures PairBits(x, y) == WordBits(x) + WordBits(y)
  {
    hide PairBit, Q, K, Bit;
    forall i: nat | i < 64
      ensures PairBits(x, y)[i] == (WordBits(x) + WordBits(y))[i]
    {
      HalfBits(x, y, i);
    }
  }

  /** The last part is the inverse initial permutation, of the halves exchanged. */
  lemma FinalBits(l: bv32, r: bv32)
    ensures var (x, y) := Final(l, r);
            |Fips.IP_INVERSE| == 64 && PairBits(x, y) == Fips.Choose(WordBits(Ror(r)) + WordBits(Ror(l)), Fips.IP_INVERSE)
  {
    hide PairBit, PairBits, Q, Initial, Final, WordBits, Ror, Fips.Choose;
    TableSizes();
    var (x, y) := Final(l, r);
    InitialFinal(l, r);
    InitialBits(x, y);
    ChosenBack(PairBits(x, y), WordBits(Ror(r)) + WordBits(Ror(l)));
  }

  /** What the first table chooses, the second chooses back. */
  lemma ChosenBack(b: Fips.Bits, c: Fips.Bits)
    requires |b| == |c| == 64 && |Fips.IP| == |Fips.IP_INVERSE| == 64 && c == Fips.Choose(b, Fips.IP)
    ensures b == Fips.Choose(c, Fips.IP_INVERSE)
  {
    hide Fips.IP, Fips.IP_INVERSE;
    forall i: nat | i < 64
      ensures b[i] == c[Fips.IP_INVERSE[i] as int - 1]
    {
      TablesInverse(i);
    }
  }
}
