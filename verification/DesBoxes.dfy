/** The cipher function of the standard. */
module DesBoxes {
  import opened DesTables
  import opened D3Des
  import opened DesBits
  import Fips = Fips463

  // ---------- The selection E and the round keys ----------

  function Six(v: bv6): (b: Fips.Bits)
    ensures |b| == 6
  {
    seq(6, t requires 0 <= t < 6 => SixBit(v, t))
  }

  predicate SixBit(v: bv6, t: nat) {
    if t == 0 then On6(v, 32) else if t == 1 then On6(v, 16) else if t == 2 then On6(v, 8)
    else if t == 3 then On6(v, 4) else if t == 4 then On6(v, 2) else On6(v, 1)
  }

  /** The six bits of a field, the most significant one first. */
  lemma FieldBit(w: bv32, n: bv5, t: nat)
    requires n <= 24 && t < 6
    ensures Wide(n) < 32 && SixBit(Field(w, Wide(n)), t) == Bit(w, n + 5 - Behind(t))
  {
    if t == 0 {
    } else if t == 1 {
    } else if t == 2 {
    } else if t == 3 {
    } else if t == 4 {
    } else {
    }
  }

  function Behind(t: nat): bv5 {
    if t == 0 then 0 else if t == 1 then 1 else if t == 2 then 2 else if t == 3 then 3 else if t == 4 then 4 else 5
  }

  lemma OnRor4(w: bv32, k: bv5)
    ensures Bit(Ror4(w), k) == Bit(w, k + 4)
  {
  }

  /** What the code looks up in the table of box `g`. */
  function Group(even: bv32, odd: bv32, g: nat): bv6
    requires g < 8
  {
    if g == 0 then Field(even, 24) else if g == 1 then Field(odd, 24) else if g == 2 then Field(even, 16) else if g == 3 then Field(odd, 16)
    else if g == 4 then Field(even, 8) else if g == 5 then Field(odd, 8) else if g == 6 then Field(even, 0) else Field(odd, 0)
  }

  function EPlace(i: nat): nat {
    TableSizes();
    if i < 48 then Fips.E[i] as int - 1 else 0
  }

  lemma EPlaceIs(g: nat, t: nat)
    requires g < 8 && t < 6
    ensures EPlace(6 * g + t) == (4 * g + t + 31) % 32
  {
    assert t == 0 || t == 1 || t == 2 || t == 3 || t == 4 || t == 5;
    assert g == 0 || g == 1 || g == 2 || g == 3 || g == 4 || g == 5 || g == 6 || g == 7;
  }

  /** The first bit of a group. */
  function First(g: nat): bv5 {
    if g == 0 then 0 else if g == 1 then 28 else if g == 2 then 24 else if g == 3 then 20
    else if g == 4 then 16 else if g == 5 then 12 else if g == 6 then 8 else 4
  }

  lemma EPlaceBit(g: nat, t: nat)
    requires g < 8 && t < 6
    ensures EPlace(6 * g + t) < 32 && K(EPlace(6 * g + t)) == First(g) - Behind(t)
  {
    hide K, EPlace;
    Ks();
    EPlaceIs(g, t);
    assert t == 0 || t == 1 || t == 2 || t == 3 || t == 4 || t == 5;
    assert g == 0 || g == 1 || g == 2 || g == 3 || g == 4 || g == 5 || g == 6 || g == 7;
  }

  lemma GroupAt(w: bv32, g: nat, t: nat)
    requires g < 8 && t < 6
    ensures SixBit(Group(Ror4(Rol(w)), Rol(w), g), t) == Bit(w, First(g) - Behind(t))
  {
    hide SixBit, Field, Bit, Ror4, Rol, Behind;
    assert g == 0 || g == 1 || g == 2 || g == 3 || g == 4 || g == 5 || g == 6 || g == 7;
    var n: bv5 := if g < 2 then 24 else if g < 4 then 16 else if g < 6 then 8 else 0;
    var k := n + 5 - Behind(t);
    FieldBit(Ror4(Rol(w)), n, t);
    FieldBit(Rol(w), n, t);
    OnRor4(Rol(w), k);
    OnRol(w, k + 4);
    OnRol(w, k);
  }

  lemma GroupBit(w: bv32, g: nat, t: nat)
    requires g < 8 && t < 6
    ensures EPlace(6 * g + t) < 32 && SixBit(Group(Ror4(Rol(w)), Rol(w), g), t) == Bit(w, K(EPlace(6 * g + t)))
  {
    hide SixBit, Group, Bit, Ror4, Rol, K, EPlace, First, Behind;
    EPlaceBit(g, t);
    GroupAt(w, g, t);
  }

  lemma SixMix(x: bv32, k: bv32, n: bv32)
    requires n == 0 || n == 8 || n == 16 || n == 24
    ensures Field(Mix(x, k), n) == Xor6(Field(x, n), Field(k, n))
  {
    if n == 0 {
    } else if n == 8 {
    } else if n == 16 {
    } else {
    }
  }

  function Xor6(u: bv6, v: bv6): bv6 { u ^ v }

  predicate On6(v: bv6, m: bv6) { v & m != 0 }

  lemma OnXor6(u: bv6, v: bv6, m: bv6)
    requires m == 32 || m == 16 || m == 8 || m == 4 || m == 2 || m == 1
    ensures On6(Xor6(u, v), m) == (On6(u, m) != On6(v, m))
  {
    assert (u ^ v) & m == (u & m) ^ (v & m);
  }

  lemma SixXor(u: bv6, v: bv6, t: nat)
    ensures SixBit(Xor6(u, v), t) == (SixBit(u, t) != SixBit(v, t))
  {
    hide On6, Xor6;
    OnXor6(u, v, if t == 0 then 32 else if t == 1 then 16 else if t == 2 then 8 else if t == 3 then 4 else if t == 4 then 2 else 1);
  }

  lemma GroupMix(x: bv32, k0: bv32, y: bv32, k1: bv32, g: nat)
    requires g < 8
    ensures Group(Mix(x, k0), Mix(y, k1), g) == Xor6(Group(x, y, g), Group(k0, k1, g))
  {
    hide Field, Mix, Xor6;
    if g == 0 {
      SixMix(x, k0, 24);
    } else if g == 1 {
      SixMix(y, k1, 24);
    } else if g == 2 {
      SixMix(x, k0, 16);
    } else if g == 3 {
      SixMix(y, k1, 16);
    } else if g == 4 {
      SixMix(x, k0, 8);
    } else if g == 5 {
      SixMix(y, k1, 8);
    } else if g == 6 {
      SixMix(x, k0, 0);
    } else {
      SixMix(y, k1, 0);
    }
  }

  /** The six bits that enter box `g`. */
  lemma BoxInput(w: bv32, k0: bv32, k1: bv32, key: Fips.Bits, g: nat)
    requires |key| == 48 && g < 8 && key[6 * g..6 * g + 6] == Six(Group(k0, k1, g))
    ensures |Fips.E| == 48
    ensures Fips.XorBits(Fips.Choose(WordBits(w), Fips.E), key)[6 * g..6 * g + 6]
         == Six(Group(Mix(Ror4(Rol(w)), k0), Mix(Rol(w), k1), g))
  {
    hide SixBit, Group, Bit, Ror4, Rol, K, Mix, Xor6, Fips.E;
    TableSizes();
    var (x, y) := (Ror4(Rol(w)), Rol(w));
    var input := Fips.XorBits(Fips.Choose(WordBits(w), Fips.E), key);
    GroupMix(x, k0, y, k1, g);
    forall t: nat | t < 6
      ensures input[6 * g + t] == SixBit(Group(Mix(x, k0), Mix(y, k1), g), t)
    {
      SixXor(Group(x, y, g), Group(k0, k1, g), t);
      GroupBit(w, g, t);
      assert key[6 * g + t] == key[6 * g..6 * g + 6][t];
    }
  }

  // ---------- The substitution boxes and the permutation P ----------

  function Pick(b: bool, m: bv32): bv32 { if b then m else 0 }

  lemma OnPick(b: bool, m: bv32, k: bv5)
    ensures Bit(Pick(b, m), k) == (b && Bit(m, k))
  {
  }

  /** Where the tables of the code put bit `t` of an entry of box `g`: they hold P, and a rotation. */
  function Spot(g: nat, t: nat): bv5 {
    if g == 0 then (if t == 0 then 24 else if t == 1 then 16 else if t == 2 then 10 else 2)
    else if g == 1 then (if t == 0 then 20 else if t == 1 then 5 else if t == 2 then 31 else 15)
    else if g == 2 then (if t == 0 then 9 else if t == 1 then 17 else if t == 2 then 3 else 27)
    else if g == 3 then (if t == 0 then 7 else if t == 1 then 13 else if t == 2 then 23 else 0)
    else if g == 4 then (if t == 0 then 25 else if t == 1 then 19 else if t == 2 then 8 else 30)
    else if g == 5 then (if t == 0 then 29 else if t == 1 then 4 else if t == 2 then 22 else 14)
    else if g == 6 then (if t == 0 then 1 else if t == 1 then 21 else if t == 2 then 11 else 26)
    else (if t == 0 then 28 else if t == 1 then 6 else if t == 2 then 18 else 12)
  }

  /** The same as a word. */
  function SpotMask(g: nat, t: nat): bv32 {
    if g == 0 then (if t == 0 then 0x01000000 else if t == 1 then 0x00010000 else if t == 2 then 0x00000400 else 0x00000004)
    else if g == 1 then (if t == 0 then 0x00100000 else if t == 1 then 0x00000020 else if t == 2 then 0x80000000 else 0x00008000)
    else if g == 2 then (if t == 0 then 0x00000200 else if t == 1 then 0x00020000 else if t == 2 then 0x00000008 else 0x08000000)
    else if g == 3 then (if t == 0 then 0x00000080 else if t == 1 then 0x00002000 else if t == 2 then 0x00800000 else 0x00000001)
    else if g == 4 then (if t == 0 then 0x02000000 else if t == 1 then 0x00080000 else if t == 2 then 0x00000100 else 0x40000000)
    else if g == 5 then (if t == 0 then 0x20000000 else if t == 1 then 0x00000010 else if t == 2 then 0x00400000 else 0x00004000)
    else if g == 6 then (if t == 0 then 0x00000002 else if t == 1 then 0x00200000 else if t == 2 then 0x00000800 else 0x04000000)
    else (if t == 0 then 0x10000000 else if t == 1 then 0x00000040 else if t == 2 then 0x00040000 else 0x00001000)
  }

  /** An entry of a box, its four bits at their spots. */
  function Spread(g: nat, n: Fips.Nibble): bv32 {
    Or(Or(Pick(Fips.NibbleBit(n, 0), SpotMask(g, 0)), Pick(Fips.NibbleBit(n, 1), SpotMask(g, 1))),
       Or(Pick(Fips.NibbleBit(n, 2), SpotMask(g, 2)), Pick(Fips.NibbleBit(n, 3), SpotMask(g, 3))))
  }

  // Each agreement of a table is evaluated half a box at a time: one evaluation for all boxes is too large for the solver.

  lemma Spreads1()
    ensures Spread(0, 0) == 0x00000000 && Spread(0, 1) == 0x00000004 && Spread(0, 2) == 0x00000400
    ensures Spread(0, 3) == 0x00000404
    ensures Spread(0, 4) == 0x00010000 && Spread(0, 5) == 0x00010004 && Spread(0, 6) == 0x00010400
    ensures Spread(0, 7) == 0x00010404
    ensures Spread(0, 8) == 0x01000000 && Spread(0, 9) == 0x01000004 && Spread(0, 10) == 0x01000400
    ensures Spread(0, 11) == 0x01000404
    ensures Spread(0, 12) == 0x01010000 && Spread(0, 13) == 0x01010004 && Spread(0, 14) == 0x01010400
    ensures Spread(0, 15) == 0x01010404
  {
  }

  lemma Box1Upper(row: nat, col: nat)
    requires row < 2 && col < 16
    ensures |SP1| == |Fips.S1| == 64 && SP1[32 * (row / 2) + 2 * col + row % 2] == Spread(0, Fips.S1[16 * row + col])
  {
    hide Spread;
    Spreads1();
    assert || col == 0 || col == 1 || col == 2 || col == 3 || col == 4 || col == 5 || col == 6 || col == 7 || col == 8 || col == 9
           || col == 10 || col == 11 || col == 12 || col == 13 || col == 14 || col == 15;
    assert row == 0 || row == 1;
  }

  lemma Box1Lower(row: nat, col: nat)
    requires 2 <= row < 4 && col < 16
    ensures |SP1| == |Fips.S1| == 64 && SP1[32 * (row / 2) + 2 * col + row % 2] == Spread(0, Fips.S1[16 * row + col])
  {
    hide Spread;
    Spreads1();
    assert || col == 0 || col == 1 || col == 2 || col == 3 || col == 4 || col == 5 || col == 6 || col == 7 || col == 8 || col == 9
           || col == 10 || col == 11 || col == 12 || col == 13 || col == 14 || col == 15;
    assert row == 2 || row == 3;
  }

  lemma Spreads2()
    ensures Spread(1, 0) == 0x00000000 && Spread(1, 1) == 0x00008000 && Spread(1, 2) == 0x80000000
    ensures Spread(1, 3) == 0x80008000
    ensures Spread(1, 4) == 0x00000020 && Spread(1, 5) == 0x00008020 && Spread(1, 6) == 0x80000020
    ensures Spread(1, 7) == 0x80008020
    ensures Spread(1, 8) == 0x00100000 && Spread(1, 9) == 0x00108000 && Spread(1, 10) == 0x80100000
    ensures Spread(1, 11) == 0x80108000
    ensures Spread(1, 12) == 0x00100020 && Spread(1, 13) == 0x00108020 && Spread(1, 14) == 0x80100020
    ensures Spread(1, 15) == 0x80108020
  {
  }

  lemma Box2Upper(row: nat, col: nat)
    requires row < 2 && col < 16
    ensures |SP2| == |Fips.S2| == 64 && SP2[32 * (row / 2) + 2 * col + row % 2] == Spread(1, Fips.S2[16 * row + col])
  {
    hide Spread;
    Spreads2();
    assert || col == 0 || col == 1 || col == 2 || col == 3 || col == 4 || col == 5 || col == 6 || col == 7 || col == 8 || col == 9
           || col == 10 || col == 11 || col == 12 || col == 13 || col == 14 || col == 15;
    assert row == 0 || row == 1;
  }

  lemma Box2Lower(row: nat, col: nat)
    requires 2 <= row < 4 && col < 16
    ensures |SP2| == |Fips.S2| == 64 && SP2[32 * (row / 2) + 2 * col + row % 2] == Spread(1, Fips.S2[16 * row + col])
  {
    hide Spread;
    Spreads2();
    assert || col == 0 || col == 1 || col == 2 || col == 3 || col == 4 || col == 5 || col == 6 || col == 7 || col == 8 || col == 9
           || col == 10 || col == 11 || col == 12 || col == 13 || col == 14 || col == 15;
    assert row == 2 || row == 3;
  }

  lemma Spreads3()
    ensures Spread(2, 0) == 0x00000000 && Spread(2, 1) == 0x08000000 && Spread(2, 2) == 0x00000008
    ensures Spread(2, 3) == 0x08000008
    ensures Spread(2, 4) == 0x00020000 && Spread(2, 5) == 0x08020000 && Spread(2, 6) == 0x00020008
    ensures Spread(2, 7) == 0x08020008
    ensures Spread(2, 8) == 0x00000200 && Spread(2, 9) == 0x08000200 && Spread(2, 10) == 0x00000208
    ensures Spread(2, 11) == 0x08000208
    ensures Spread(2, 12) == 0x00020200 && Spread(2, 13) == 0x08020200 && Spread(2, 14) == 0x00020208
    ensures Spread(2, 15) == 0x08020208
  {
  }

  lemma Box3Upper(row: nat, col: nat)
    requires row < 2 && col < 16
    ensures |SP3| == |Fips.S3| == 64 && SP3[32 * (row / 2) + 2 * col + row % 2] == Spread(2, Fips.S3[16 * row + col])
  {
    hide Spread;
    Spreads3();
    assert || col == 0 || col == 1 || col == 2 || col == 3 || col == 4 || col == 5 || col == 6 || col == 7 || col == 8 || col == 9
           || col == 10 || col == 11 || col == 12 || col == 13 || col == 14 || col == 15;
    assert row == 0 || row == 1;
  }

  lemma Box3Lower(row: nat, col: nat)
    requires 2 <= row < 4 && col < 16
    ensures |SP3| == |Fips.S3| == 64 && SP3[32 * (row / 2) + 2 * col + row % 2] == Spread(2, Fips.S3[16 * row + col])
  {
    hide Spread;
    Spreads3();
    assert || col == 0 || col == 1 || col == 2 || col == 3 || col == 4 || col == 5 || col == 6 || col == 7 || col == 8 || col == 9
           || col == 10 || col == 11 || col == 12 || col == 13 || col == 14 || col == 15;
    assert row == 2 || row == 3;
  }

  lemma Spreads4()
    ensures Spread(3, 0) == 0x00000000 && Spread(3, 1) == 0x00000001 && Spread(3, 2) == 0x00800000
    ensures Spread(3, 3) == 0x00800001
    ensures Spread(3, 4) == 0x00002000 && Spread(3, 5) == 0x00002001 && Spread(3, 6) == 0x00802000
    ensures Spread(3, 7) == 0x00802001
    ensures Spread(3, 8) == 0x00000080 && Spread(3, 9) == 0x00000081 && Spread(3, 10) == 0x00800080
    ensures Spread(3, 11) == 0x00800081
    ensures Spread(3, 12) == 0x00002080 && Spread(3, 13) == 0x00002081 && Spread(3, 14) == 0x00802080
    ensures Spread(3, 15) == 0x00802081
  {
  }

  lemma Box4Upper(row: nat, col: nat)
    requires row < 2 && col < 16
    ensures |SP4| == |Fips.S4| == 64 && SP4[32 * (row / 2) + 2 * col + row % 2] == Spread(3, Fips.S4[16 * row + col])
  {
    hide Spread;
    Spreads4();
    assert || col == 0 || col == 1 || col == 2 || col == 3 || col == 4 || col == 5 || col == 6 || col == 7 || col == 8 || col == 9
           || col == 10 || col == 11 || col == 12 || col == 13 || col == 14 || col == 15;
    assert row == 0 || row == 1;
  }

  lemma Box4Lower(row: nat, col: nat)
    requires 2 <= row < 4 && col < 16
    ensures |SP4| == |Fips.S4| == 64 && SP4[32 * (row / 2) + 2 * col + row % 2] == Spread(3, Fips.S4[16 * row + col])
  {
    hide Spread;
    Spreads4();
    assert || col == 0 || col == 1 || col == 2 || col == 3 || col == 4 || col == 5 || col == 6 || col == 7 || col == 8 || col == 9
           || col == 10 || col == 11 || col == 12 || col == 13 || col == 14 || col == 15;
    assert row == 2 || row == 3;
  }

  lemma Spreads5()
    ensures Spread(4, 0) == 0x00000000 && Spread(4, 1) == 0x40000000 && Spread(4, 2) == 0x00000100
    ensures Spread(4, 3) == 0x40000100
    ensures Spread(4, 4) == 0x00080000 && Spread(4, 5) == 0x40080000 && Spread(4, 6) == 0x00080100
    ensures Spread(4, 7) == 0x40080100
    ensures Spread(4, 8) == 0x02000000 && Spread(4, 9) == 0x42000000 && Spread(4, 10) == 0x02000100
    ensures Spread(4, 11) == 0x42000100
    ensures Spread(4, 12) == 0x02080000 && Spread(4, 13) == 0x42080000 && Spread(4, 14) == 0x02080100
    ensures Spread(4, 15) == 0x42080100
  {
  }

  lemma Box5Upper(row: nat, col: nat)
    requires row < 2 && col < 16
    ensures |SP5| == |Fips.S5| == 64 && SP5[32 * (row / 2) + 2 * col + row % 2] == Spread(4, Fips.S5[16 * row + col])
  {
    hide Spread;
    Spreads5();
    assert || col == 0 || col == 1 || col == 2 || col == 3 || col == 4 || col == 5 || col == 6 || col == 7 || col == 8 || col == 9
           || col == 10 || col == 11 || col == 12 || col == 13 || col == 14 || col == 15;
    assert row == 0 || row == 1;
  }

  lemma Box5Lower(row: nat, col: nat)
    requires 2 <= row < 4 && col < 16
    ensures |SP5| == |Fips.S5| == 64 && SP5[32 * (row / 2) + 2 * col + row % 2] == Spread(4, Fips.S5[16 * row + col])
  {
    hide Spread;
    Spreads5();
    assert || col == 0 || col == 1 || col == 2 || col == 3 || col == 4 || col == 5 || col == 6 || col == 7 || col == 8 || col == 9
           || col == 10 || col == 11 || col == 12 || col == 13 || col == 14 || col == 15;
    assert row == 2 || row == 3;
  }

  lemma Spreads6()
    ensures Spread(5, 0) == 0x00000000 && Spread(5, 1) == 0x00004000 && Spread(5, 2) == 0x00400000
    ensures Spread(5, 3) == 0x00404000
    ensures Spread(5, 4) == 0x00000010 && Spread(5, 5) == 0x00004010 && Spread(5, 6) == 0x00400010
    ensures Spread(5, 7) == 0x00404010
    ensures Spread(5, 8) == 0x20000000 && Spread(5, 9) == 0x20004000 && Spread(5, 10) == 0x20400000
    ensures Spread(5, 11) == 0x20404000
    ensures Spread(5, 12) == 0x20000010 && Spread(5, 13) == 0x20004010 && Spread(5, 14) == 0x20400010
    ensures Spread(5, 15) == 0x20404010
  {
  }

  lemma Box6Upper(row: nat, col: nat)
    requires row < 2 && col < 16
    ensures |SP6| == |Fips.S6| == 64 && SP6[32 * (row / 2) + 2 * col + row % 2] == Spread(5, Fips.S6[16 * row + col])
  {
    hide Spread;
    Spreads6();
    assert || col == 0 || col == 1 || col == 2 || col == 3 || col == 4 || col == 5 || col == 6 || col == 7 || col == 8 || col == 9
           || col == 10 || col == 11 || col == 12 || col == 13 || col == 14 || col == 15;
    assert row == 0 || row == 1;
  }

  lemma Box6Lower(row: nat, col: nat)
    requires 2 <= row < 4 && col < 16
    ensures |SP6| == |Fips.S6| == 64 && SP6[32 * (row / 2) + 2 * col + row % 2] == Spread(5, Fips.S6[16 * row + col])
  {
    hide Spread;
    Spreads6();
    assert || col == 0 || col == 1 || col == 2 || col == 3 || col == 4 || col == 5 || col == 6 || col == 7 || col == 8 || col == 9
           || col == 10 || col == 11 || col == 12 || col == 13 || col == 14 || col == 15;
    assert row == 2 || row == 3;
  }

  lemma Spreads7()
    ensures Spread(6, 0) == 0x00000000 && Spread(6, 1) == 0x04000000 && Spread(6, 2) == 0x00000800
    ensures Spread(6, 3) == 0x04000800
    ensures Spread(6, 4) == 0x00200000 && Spread(6, 5) == 0x04200000 && Spread(6, 6) == 0x00200800
    ensures Spread(6, 7) == 0x04200800
    ensures Spread(6, 8) == 0x00000002 && Spread(6, 9) == 0x04000002 && Spread(6, 10) == 0x00000802
    ensures Spread(6, 11) == 0x04000802
    ensures Spread(6, 12) == 0x00200002 && Spread(6, 13) == 0x04200002 && Spread(6, 14) == 0x00200802
    ensures Spread(6, 15) == 0x04200802
  {
  }

  lemma Box7Upper(row: nat, col: nat)
    requires row < 2 && col < 16
    ensures |SP7| == |Fips.S7| == 64 && SP7[32 * (row / 2) + 2 * col + row % 2] == Spread(6, Fips.S7[16 * row + col])
  {
    hide Spread;
    Spreads7();
    assert || col == 0 || col == 1 || col == 2 || col == 3 || col == 4 || col == 5 || col == 6 || col == 7 || col == 8 || col == 9
           || col == 10 || col == 11 || col == 12 || col == 13 || col == 14 || col == 15;
    assert row == 0 || row == 1;
  }

  lemma Box7Lower(row: nat, col: nat)
    requires 2 <= row < 4 && col < 16
    ensures |SP7| == |Fips.S7| == 64 && SP7[32 * (row / 2) + 2 * col + row % 2] == Spread(6, Fips.S7[16 * row + col])
  {
    hide Spread;
    Spreads7();
    assert || col == 0 || col == 1 || col == 2 || col == 3 || col == 4 || col == 5 || col == 6 || col == 7 || col == 8 || col == 9
           || col == 10 || col == 11 || col == 12 || col == 13 || col == 14 || col == 15;
    assert row == 2 || row == 3;
  }

  lemma Spreads8()
    ensures Spread(7, 0) == 0x00000000 && Spread(7, 1) == 0x00001000 && Spread(7, 2) == 0x00040000
    ensures Spread(7, 3) == 0x00041000
    ensures Spread(7, 4) == 0x00000040 && Spread(7, 5) == 0x00001040 && Spread(7, 6) == 0x00040040
    ensures Spread(7, 7) == 0x00041040
    ensures Spread(7, 8) == 0x10000000 && Spread(7, 9) == 0x10001000 && Spread(7, 10) == 0x10040000
    ensures Spread(7, 11) == 0x10041000
    ensures Spread(7, 12) == 0x10000040 && Spread(7, 13) == 0x10001040 && Spread(7, 14) == 0x10040040
    ensures Spread(7, 15) == 0x10041040
  {
  }

  lemma Box8Upper(row: nat, col: nat)
    requires row < 2 && col < 16
    ensures |SP8| == |Fips.S8| == 64 && SP8[32 * (row / 2) + 2 * col + row % 2] == Spread(7, Fips.S8[16 * row + col])
  {
    hide Spread;
    Spreads8();
    assert || col == 0 || col == 1 || col == 2 || col == 3 || col == 4 || col == 5 || col == 6 || col == 7 || col == 8 || col == 9
           || col == 10 || col == 11 || col == 12 || col == 13 || col == 14 || col == 15;
    assert row == 0 || row == 1;
  }

  lemma Box8Lower(row: nat, col: nat)
    requires 2 <= row < 4 && col < 16
    ensures |SP8| == |Fips.S8| == 64 && SP8[32 * (row / 2) + 2 * col + row % 2] == Spread(7, Fips.S8[16 * row + col])
  {
    hide Spread;
    Spreads8();
    assert || col == 0 || col == 1 || col == 2 || col == 3 || col == 4 || col == 5 || col == 6 || col == 7 || col == 8 || col == 9
           || col == 10 || col == 11 || col == 12 || col == 13 || col == 14 || col == 15;
    assert row == 2 || row == 3;
  }

  function Table(g: nat): (t: seq<bv32>)
    requires g < 8
  {
    if g == 0 then SP1 else if g == 1 then SP2 else if g == 2 then SP3 else if g == 3 then SP4
    else if g == 4 then SP5 else if g == 5 then SP6 else if g == 6 then SP7 else SP8
  }

  function D(v: bv6, t: nat): nat { Fips.Digit(SixBit(v, t)) }

  lemma SixValue(v: bv6)
    ensures v as int == 32 * D(v, 0) + 16 * D(v, 1) + 8 * D(v, 2) + 4 * D(v, 3) + 2 * D(v, 4) + D(v, 5)
  {
  }

  /** A lookup yields the entry that the standard selects. */
  lemma LookupIs(g: nat, v: bv6)
    requires g < 8
    ensures |Table(g)| == 64 && Lookup(Table(g), v) == Spread(g, Fips.Box(g)[Fips.Entry(Six(v))])
  {
    hide Spread, Table, Fips.Box, Fips.Entry, Six, D;
    SixValue(v);
    EntryIs(v);
    var (row, col) := (2 * D(v, 0) + D(v, 5), 8 * D(v, 1) + 4 * D(v, 2) + 2 * D(v, 3) + D(v, 4));
    Halves(v);
    BoxIs(g, row, col);
  }

  lemma EntryIs(v: bv6)
    ensures Fips.Entry(Six(v)) == 16 * (2 * D(v, 0) + D(v, 5)) + (8 * D(v, 1) + 4 * D(v, 2) + 2 * D(v, 3) + D(v, 4))
  {
    hide SixBit;
  }

  lemma Halves(v: bv6)
    ensures (2 * D(v, 0) + D(v, 5)) / 2 == D(v, 0) < 2 && (2 * D(v, 0) + D(v, 5)) % 2 == D(v, 5) < 2
    ensures D(v, 1) < 2 && D(v, 2) < 2 && D(v, 3) < 2 && D(v, 4) < 2
  {
    hide SixBit;
  }

  lemma BoxIs(g: nat, row: nat, col: nat)
    requires g < 8 && row < 4 && col < 16
    ensures |Table(g)| == 64 && Table(g)[32 * (row / 2) + 2 * col + row % 2] == Spread(g, Fips.Box(g)[16 * row + col])
  {
    hide Spread;
    if g == 0 {
      if row < 2 {
        Box1Upper(row, col);
      } else {
        Box1Lower(row, col);
      }
    } else if g == 1 {
      if row < 2 {
        Box2Upper(row, col);
      } else {
        Box2Lower(row, col);
      }
    } else if g == 2 {
      if row < 2 {
        Box3Upper(row, col);
      } else {
        Box3Lower(row, col);
      }
    } else if g == 3 {
      if row < 2 {
        Box4Upper(row, col);
      } else {
        Box4Lower(row, col);
      }
    } else if g == 4 {
      if row < 2 {
        Box5Upper(row, col);
      } else {
        Box5Lower(row, col);
      }
    } else if g == 5 {
      if row < 2 {
        Box6Upper(row, col);
      } else {
        Box6Lower(row, col);
      }
    } else if g == 6 {
      if row < 2 {
        Box7Upper(row, col);
      } else {
        Box7Lower(row, col);
      }
    } else {
      if row < 2 {
        Box8Upper(row, col);
      } else {
        Box8Lower(row, col);
      }
    }
  }

  predicate AtSpot(g: nat, n: Fips.Nibble, k: bv5) {
    || (Fips.NibbleBit(n, 0) && k == Spot(g, 0)) || (Fips.NibbleBit(n, 1) && k == Spot(g, 1))
    || (Fips.NibbleBit(n, 2) && k == Spot(g, 2)) || (Fips.NibbleBit(n, 3) && k == Spot(g, 3))
  }

  lemma SpotMasks(g: nat, t: nat, k: bv5)
    requires g < 8 && t < 4
    ensures Bit(SpotMask(g, t), k) == (k == Spot(g, t))
  {
    assert g == 0 || g == 1 || g == 2 || g == 3 || g == 4 || g == 5 || g == 6 || g == 7;
    assert t == 0 || t == 1 || t == 2 || t == 3;
  }

  lemma SpreadBit(g: nat, n: Fips.Nibble, k: bv5)
    requires g < 8
    ensures Bit(Spread(g, n), k) == AtSpot(g, n, k)
  {
    hide Bit, Or, Pick, SpotMask, Spot, Fips.NibbleBit;
    var (p0, p1) := (Pick(Fips.NibbleBit(n, 0), SpotMask(g, 0)), Pick(Fips.NibbleBit(n, 1), SpotMask(g, 1)));
    var (p2, p3) := (Pick(Fips.NibbleBit(n, 2), SpotMask(g, 2)), Pick(Fips.NibbleBit(n, 3), SpotMask(g, 3)));
    SpotMasks(g, 0, k);
    SpotMasks(g, 1, k);
    SpotMasks(g, 2, k);
    SpotMasks(g, 3, k);
    OnPick(Fips.NibbleBit(n, 0), SpotMask(g, 0), k);
    OnPick(Fips.NibbleBit(n, 1), SpotMask(g, 1), k);
    OnPick(Fips.NibbleBit(n, 2), SpotMask(g, 2), k);
    OnPick(Fips.NibbleBit(n, 3), SpotMask(g, 3), k);
    OnOr(p0, p1, k);
    OnOr(p2, p3, k);
    OnOr(Or(p0, p1), Or(p2, p3), k);
  }

  function PPlace(i: nat): nat {
    TableSizes();
    if i < 32 then Fips.P[i] as int - 1 else 0
  }

  /** Each bit of the result comes from one bit of one box, the one that P names. */
  lemma SpotOf(r: nat, c: nat)
    requires r < 8 && c < 4
    ensures PPlace(4 * r + c) < 32 && Spot(PPlace(4 * r + c) / 4, PPlace(4 * r + c) % 4) == K(4 * r + c) + 1
  {
    Ks();
    hide K;
    assert c == 0 || c == 1 || c == 2 || c == 3;
    assert r == 0 || r == 1 || r == 2 || r == 3 || r == 4 || r == 5 || r == 6 || r == 7;
  }

  lemma SpotsDiffer(g: nat, t: nat, g': nat, t': nat)
    requires g < 8 && t < 4 && g' < 8 && t' < 4
    ensures Spot(g, t) == Spot(g', t') ==> g == g' && t == t'
  {
  }

  /** What box `g` yields. */
  function Output(r: bv32, k0: bv32, k1: bv32, g: nat): Fips.Nibble
    requires g < 8
  {
    Fips.Box(g)[Fips.Entry(Six(Group(Mix(Ror4(r), k0), Mix(r, k1), g)))]
  }

  lemma FBit(r: bv32, k0: bv32, k1: bv32, k: bv5)
    ensures Bit(F(r, k0, k1), k) <==>
            || AtSpot(0, Output(r, k0, k1, 0), k) || AtSpot(1, Output(r, k0, k1, 1), k)
            || AtSpot(2, Output(r, k0, k1, 2), k) || AtSpot(3, Output(r, k0, k1, 3), k)
            || AtSpot(4, Output(r, k0, k1, 4), k) || AtSpot(5, Output(r, k0, k1, 5), k)
            || AtSpot(6, Output(r, k0, k1, 6), k) || AtSpot(7, Output(r, k0, k1, 7), k)
  {
    hide Bit, Or, AtSpot, Output, Lookup, Field, Mix, Ror4;
    var (a, b) := (Mix(Ror4(r), k0), Mix(r, k1));
    TableBit(r, k0, k1, 0, k);
    TableBit(r, k0, k1, 1, k);
    TableBit(r, k0, k1, 2, k);
    TableBit(r, k0, k1, 3, k);
    TableBit(r, k0, k1, 4, k);
    TableBit(r, k0, k1, 5, k);
    TableBit(r, k0, k1, 6, k);
    TableBit(r, k0, k1, 7, k);
    var (l7, l5, l3, l1) := (Lookup(SP7, Field(a, 0)), Lookup(SP5, Field(a, 8)), Lookup(SP3, Field(a, 16)), Lookup(SP1, Field(a, 24)));
    var (l8, l6, l4, l2) := (Lookup(SP8, Field(b, 0)), Lookup(SP6, Field(b, 8)), Lookup(SP4, Field(b, 16)), Lookup(SP2, Field(b, 24)));
    OnOr(l7, l5, k);
    OnOr(l3, l1, k);
    OnOr(Or(l7, l5), Or(l3, l1), k);
    OnOr(l8, l6, k);
    OnOr(l4, l2, k);
    OnOr(Or(l8, l6), Or(l4, l2), k);
    OnOr(Or(Or(l7, l5), Or(l3, l1)), Or(Or(l8, l6), Or(l4, l2)), k);
  }

  lemma TableBit(r: bv32, k0: bv32, k1: bv32, g: nat, k: bv5)
    requires g < 8
    ensures |Table(g)| == 64
    ensures Bit(Lookup(Table(g), Group(Mix(Ror4(r), k0), Mix(r, k1), g)), k) == AtSpot(g, Output(r, k0, k1, g), k)
  {
    hide Bit, AtSpot, Lookup, Group, Mix, Ror4, Table, Spread, Fips.Box, Fips.Entry, Six;
    LookupIs(g, Group(Mix(Ror4(r), k0), Mix(r, k1), g));
    SpreadBit(g, Output(r, k0, k1, g), k);
  }

  lemma AtSpotIs(g: nat, n: Fips.Nibble, g0: nat, t0: nat)
    requires g < 8 && g0 < 8 && t0 < 4
    ensures AtSpot(g, n, Spot(g0, t0)) == (g == g0 && Fips.NibbleBit(n, t0))
  {
    hide Spot, Fips.NibbleBit;
    SpotsDiffer(g, 0, g0, t0);
    SpotsDiffer(g, 1, g0, t0);
    SpotsDiffer(g, 2, g0, t0);
    SpotsDiffer(g, 3, g0, t0);
  }

  lemma FSpot(r: bv32, k0: bv32, k1: bv32, g: nat, t: nat)
    requires g < 8 && t < 4
    ensures Bit(F(r, k0, k1), Spot(g, t)) == Fips.NibbleBit(Output(r, k0, k1, g), t)
  {
    hide Bit, F, AtSpot, Output, Spot, Fips.NibbleBit;
    FBit(r, k0, k1, Spot(g, t));
    AtSpotIs(0, Output(r, k0, k1, 0), g, t);
    AtSpotIs(1, Output(r, k0, k1, 1), g, t);
    AtSpotIs(2, Output(r, k0, k1, 2), g, t);
    AtSpotIs(3, Output(r, k0, k1, 3), g, t);
    AtSpotIs(4, Output(r, k0, k1, 4), g, t);
    AtSpotIs(5, Output(r, k0, k1, 5), g, t);
    AtSpotIs(6, Output(r, k0, k1, 6), g, t);
    AtSpotIs(7, Output(r, k0, k1, 7), g, t);
    assert g == 0 || g == 1 || g == 2 || g == 3 || g == 4 || g == 5 || g == 6 || g == 7;
  }

  /** The words of a round key hold its groups of six bits. */
  ghost predicate HoldsKey(k0: bv32, k1: bv32, key: Fips.Bits) {
    |key| == 48 && forall g :: 0 <= g < 8 ==> key[6 * g..6 * g + 6] == Six(Group(k0, k1, g))
  }

  /** `fval` is the cipher function of the standard, but for a rotation of the half and of the result. */
  lemma FIsStandard(w: bv32, k0: bv32, k1: bv32, key: Fips.Bits)
    requires HoldsKey(k0, k1, key)
    ensures WordBits(Ror(F(Rol(w), k0, k1))) == Fips.F(WordBits(w), key)
  {
    hide Bit, F, Rol, Ror, K, Spot, Fips.NibbleBit, Fips.Box, Fips.Entry, Six, Group, Mix, Ror4, Fips.E, Fips.P;
    TableSizes();
    var input := Fips.XorBits(Fips.Choose(WordBits(w), Fips.E), key);
    forall i: nat | i < 32
      ensures Bit(Ror(F(Rol(w), k0, k1)), K(i)) == Fips.F(WordBits(w), key)[i]
    {
      var q := PPlace(i);
      SpotOf(i / 4, i % 4);
      OnRor(F(Rol(w), k0, k1), K(i));
      FSpot(Rol(w), k0, k1, q / 4, q % 4);
      BoxInput(w, k0, k1, key, q / 4);
      assert Fips.F(WordBits(w), key)[i] == Fips.Substitute(input)[q];
    }
  }
}
