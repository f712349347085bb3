/** The published digest of "abc", appendix A.1 of FIPS 180-2: it fixes the constants, the rotations and the order of words in
    the specification. */
module Sha1Vector {
  import opened Grid
  import opened Integers
  import opened Sha1Spec

  /** Word `t` of the message schedule. */
  function W(t: nat): bv32 {
    if t < 8 then W0(t)
    else if t < 16 then W1(t)
    else if t < 24 then W2(t)
    else if t < 32 then W3(t)
    else if t < 40 then W4(t)
    else if t < 48 then W5(t)
    else if t < 56 then W6(t)
    else if t < 64 then W7(t)
    else if t < 72 then W8(t)
    else W9(t)
  }

  function W0(t: nat): bv32 {
    if t == 0 then 0x61626380 else if t == 1 then 0x00000000 else if t == 2 then 0x00000000 else if t == 3 then 0x00000000 else
    if t == 4 then 0x00000000 else if t == 5 then 0x00000000 else if t == 6 then 0x00000000 else 0x00000000
  }

  function W1(t: nat): bv32 {
    if t == 8 then 0x00000000 else if t == 9 then 0x00000000 else if t == 10 then 0x00000000 else if t == 11 then 0x00000000 else
    if t == 12 then 0x00000000 else if t == 13 then 0x00000000 else if t == 14 then 0x00000000 else 0x00000018
  }

  function W2(t: nat): bv32 {
    if t == 16 then 0xc2c4c700 else if t == 17 then 0x00000000 else if t == 18 then 0x00000030 else if t == 19 then 0x85898e01 else
    if t == 20 then 0x00000000 else if t == 21 then 0x00000060 else if t == 22 then 0x0b131c03 else 0x00000030
  }

  function W3(t: nat): bv32 {
    if t == 24 then 0x85898ec1 else if t == 25 then 0x16263806 else if t == 26 then 0x00000000 else if t == 27 then 0x00000180 else
    if t == 28 then 0x2c4c700c else if t == 29 then 0x000000f0 else if t == 30 then 0x93afb507 else 0x5898e048
  }

  function W4(t: nat): bv32 {
    if t == 32 then 0x8e9a9202 else if t == 33 then 0x00000600 else if t == 34 then 0xb131c0f0 else if t == 35 then 0x16263bc6 else
    if t == 36 then 0x4ebed41e else if t == 37 then 0x626380a1 else if t == 38 then 0x16263806 else 0x000018c0
  }

  function W5(t: nat): bv32 {
    if t == 40 then 0xd2e138c4 else if t == 41 then 0x00000f00 else if t == 42 then 0x3afb5079 else if t == 43 then 0x898e04e5 else
    if t == 44 then 0xe2ba3c2b else if t == 45 then 0x000060c0 else if t == 46 then 0x053a37cd else 0x74458547
  }

  function W6(t: nat): bv32 {
    if t == 48 then 0xda9415ed else if t == 49 then 0x26380a16 else if t == 50 then 0x626383a1 else if t == 51 then 0x4ebf54de else
    if t == 52 then 0x3835b44b else if t == 53 then 0x0000f600 else if t == 54 then 0x1e84c7a3 else 0x98e04d98
  }

  function W7(t: nat): bv32 {
    if t == 56 then 0x651d16a0 else if t == 57 then 0x62658ca1 else if t == 58 then 0x458544d6 else if t == 59 then 0x44584cb7 else
    if t == 60 then 0x7ba06619 else if t == 61 then 0x6380aea2 else if t == 62 then 0x0ae55269 else 0x627b49a1
  }

  function W8(t: nat): bv32 {
    if t == 64 then 0x7cd45c9d else if t == 65 then 0x000f0000 else if t == 66 then 0xfb50753a else if t == 67 then 0xec6765e8 else
    if t == 68 then 0xba3c2be2 else if t == 69 then 0x0060c000 else if t == 70 then 0x3a37cd05 else 0x458546f4
  }

  function W9(t: nat): bv32 {
    if t == 72 then 0xb8599dd6 else if t == 73 then 0x380a1a26 else if t == 74 then 0x01e02203 else if t == 75 then 0xe7cc3456 else
    if t == 76 then 0xe6e60b69 else if t == 77 then 0x00f60a00 else if t == 78 then 0x5795ef4f else 0x822e0879
  }

  /** The first working variable: entry `n + 4` after `n` rounds, and before it what the others begin with. */
  function A(n: nat): bv32 {
    if n < 8 then A0(n)
    else if n < 16 then A1(n)
    else if n < 24 then A2(n)
    else if n < 32 then A3(n)
    else if n < 40 then A4(n)
    else if n < 48 then A5(n)
    else if n < 56 then A6(n)
    else if n < 64 then A7(n)
    else if n < 72 then A8(n)
    else if n < 80 then A9(n)
    else A10(n)
  }

  function A0(n: nat): bv32 {
    if n == 0 then 0x0f4b87c3 else if n == 1 then 0x40c951d8 else if n == 2 then 0x62eb73fa else if n == 3 then 0xefcdab89 else
    if n == 4 then 0x67452301 else if n == 5 then 0x0116fc33 else if n == 6 then 0x8990536d else 0xa1390f08
  }

  function A1(n: nat): bv32 {
    if n == 8 then 0xcdd8e11b else if n == 9 then 0xcfd499de else if n == 10 then 0x3fc7ca40 else if n == 11 then 0x993e30c1 else
    if n == 12 then 0x9e8c07d4 else if n == 13 then 0x4b6ae328 else if n == 14 then 0x8351f929 else 0xfbda9e89
  }

  function A2(n: nat): bv32 {
    if n == 16 then 0x63188fe4 else if n == 17 then 0x4607b664 else if n == 18 then 0x9128f695 else if n == 19 then 0x196bee77 else
    if n == 20 then 0x20bdd62f else if n == 21 then 0x4e925823 else if n == 22 then 0x82aa6728 else 0xdc64901d
  }

  function A3(n: nat): bv32 {
    if n == 24 then 0xfd9e1d7d else if n == 25 then 0x1a37b0ca else if n == 26 then 0x33a23bfc else if n == 27 then 0x21283486 else
    if n == 28 then 0xd541f12d else if n == 29 then 0xc7567dc6 else if n == 30 then 0x48413ba4 else 0xbe35fbd5
  }

  function A4(n: nat): bv32 {
    if n == 32 then 0x4aa84d97 else if n == 33 then 0x8370b52e else if n == 34 then 0xc5fbaf5d else if n == 35 then 0x1267b407 else
    if n == 36 then 0x3b845d33 else if n == 37 then 0x046faa0a else if n == 38 then 0x2c0ebc11 else 0x21796ad4
  }

  function A5(n: nat): bv32 {
    if n == 40 then 0xdcbbb0cb else if n == 41 then 0x0f511fd8 else if n == 42 then 0xdc63973f else if n == 43 then 0x4c986405 else
    if n == 44 then 0x32de1cba else if n == 45 then 0xfc87dedf else if n == 46 then 0x970a0d5c else 0x7f193dc5
  }

  function A6(n: nat): bv32 {
    if n == 48 then 0xee1b1aaf else if n == 49 then 0x40f28e09 else if n == 50 then 0x1c51e1f2 else if n == 51 then 0xa01b846c else
    if n == 52 then 0xbead02ca else if n == 53 then 0xbaf39337 else if n == 54 then 0x120731c5 else 0x641db2ce
  }

  function A7(n: nat): bv32 {
    if n == 56 then 0x3847ad66 else if n == 57 then 0xe490436d else if n == 58 then 0x27e9f1d8 else if n == 59 then 0x7b71f76d else
    if n == 60 then 0x5e6456af else if n == 61 then 0xc846093f else if n == 62 then 0xd262ff50 else 0x09d785fd
  }

  function A8(n: nat): bv32 {
    if n == 64 then 0x3f52de5a else if n == 65 then 0xd756c147 else if n == 66 then 0x548c9cb2 else if n == 67 then 0xb66c020b else
    if n == 68 then 0x6b61c9e1 else if n == 69 then 0x19dfa7ac else if n == 70 then 0x101655f9 else 0x0c3df2b4
  }

  function A9(n: nat): bv32 {
    if n == 72 then 0x78dd4d2b else if n == 73 then 0x497093c0 else if n == 74 then 0x3f2588c2 else if n == 75 then 0xc199f8c7 else
    if n == 76 then 0x39859de7 else if n == 77 then 0xedb42de4 else if n == 78 then 0x11793f6f else 0x5ee76897
  }

  function A10(n: nat): bv32 {
    if n == 80 then 0x63f7dab7 else if n == 81 then 0xa079b7d9 else if n == 82 then 0x860d21cc else if n == 83 then 0x5738d5e1 else
    0x42541b35
  }

  function Left1(x: bv32): bv32 { (x << 1) | (x >> 31) }

  function Left5(x: bv32): bv32 { (x << 5) | (x >> 27) }

  function Left30(x: bv32): bv32 { (x << 30) | (x >> 2) }

  function NextWord(a: bv32, b: bv32, c: bv32, d: bv32): bv32 { Left1(a ^ b ^ c ^ d) }

  function Sum(a: bv32, f: bv32, e: bv32, w: bv32, k: bv32): bv32 { PlusAll(Left5(a), f, e, w, k) }

  /** The specification's rotations, by numbers that do not vary. */
  lemma Left(x: bv32)
    ensures Rotl(x, 1) == Left1(x) && Rotl(x, 5) == Left5(x) && Rotl(x, 30) == Left30(x)
  {
  }

  /** All five working variables after `n` rounds. */
  function State(n: nat): Hash { Hash(A(n + 4), A(n + 3), Left30(A(n + 2)), Left30(A(n + 1)), Left30(A(n))) }

  // ---------- The schedule ----------

  predicate WordHolds(t: nat) {
    t >= 16 && W(t) == NextWord(W(t - 3), W(t - 8), W(t - 14), W(t - 16))
  }

  lemma Words16()
    ensures WordHolds(16) && WordHolds(17) && WordHolds(18) && WordHolds(19)
    ensures WordHolds(20) && WordHolds(21) && WordHolds(22) && WordHolds(23)
  {
  }

  lemma Words24()
    ensures WordHolds(24) && WordHolds(25) && WordHolds(26) && WordHolds(27)
    ensures WordHolds(28) && WordHolds(29) && WordHolds(30) && WordHolds(31)
  {
  }

  lemma Words32()
    ensures WordHolds(32) && WordHolds(33) && WordHolds(34) && WordHolds(35)
    ensures WordHolds(36) && WordHolds(37) && WordHolds(38) && WordHolds(39)
  {
  }

  lemma Words40()
    ensures WordHolds(40) && WordHolds(41) && WordHolds(42) && WordHolds(43)
    ensures WordHolds(44) && WordHolds(45) && WordHolds(46) && WordHolds(47)
  {
  }

  lemma Words48()
    ensures WordHolds(48) && WordHolds(49) && WordHolds(50) && WordHolds(51)
    ensures WordHolds(52) && WordHolds(53) && WordHolds(54) && WordHolds(55)
  {
  }

  lemma Words56()
    ensures WordHolds(56) && WordHolds(57) && WordHolds(58) && WordHolds(59)
    ensures WordHolds(60) && WordHolds(61) && WordHolds(62) && WordHolds(63)
  {
  }

  lemma Words64()
    ensures WordHolds(64) && WordHolds(65) && WordHolds(66) && WordHolds(67)
    ensures WordHolds(68) && WordHolds(69) && WordHolds(70) && WordHolds(71)
  {
  }

  lemma Words72()
    ensures WordHolds(72) && WordHolds(73) && WordHolds(74) && WordHolds(75)
    ensures WordHolds(76) && WordHolds(77) && WordHolds(78) && WordHolds(79)
  {
  }

  lemma EveryWord(t: nat)
    requires 16 <= t < 80
    ensures WordHolds(t)
  {
    hide WordHolds;
    Words16();
    Words24();
    Words32();
    Words40();
    Words48();
    Words56();
    Words64();
    Words72();
    assert || t == 16 || t == 17 || t == 18 || t == 19 || t == 20 || t == 21 || t == 22 || t == 23 || t == 24 || t == 25
           || t == 26 || t == 27 || t == 28 || t == 29 || t == 30 || t == 31 || t == 32 || t == 33 || t == 34 || t == 35
           || t == 36 || t == 37 || t == 38 || t == 39 || t == 40 || t == 41 || t == 42 || t == 43 || t == 44 || t == 45
           || t == 46 || t == 47 || t == 48 || t == 49 || t == 50 || t == 51 || t == 52 || t == 53 || t == 54 || t == 55
           || t == 56 || t == 57 || t == 58 || t == 59 || t == 60 || t == 61 || t == 62 || t == 63 || t == 64 || t == 65
           || t == 66 || t == 67 || t == 68 || t == 69 || t == 70 || t == 71 || t == 72 || t == 73 || t == 74 || t == 75
           || t == 76 || t == 77 || t == 78 || t == 79;
  }

  // ---------- The rounds ----------

  predicate RoundHolds(n: nat) {
    A(n + 5) == Sum(A(n + 4), Mixed(n, A(n + 3), Left30(A(n + 2)), Left30(A(n + 1))), Left30(A(n)), W(n), Constant(n))
  }

  lemma Rounds0()
    ensures RoundHolds(0) && RoundHolds(1) && RoundHolds(2) && RoundHolds(3)
  {
  }

  lemma Rounds4()
    ensures RoundHolds(4) && RoundHolds(5) && RoundHolds(6) && RoundHolds(7)
  {
  }

  lemma Rounds8()
    ensures RoundHolds(8) && RoundHolds(9) && RoundHolds(10) && RoundHolds(11)
  {
  }

  lemma Rounds12()
    ensures RoundHolds(12) && RoundHolds(13) && RoundHolds(14) && RoundHolds(15)
  {
  }

  lemma Rounds16()
    ensures RoundHolds(16) && RoundHolds(17) && RoundHolds(18) && RoundHolds(19)
  {
  }

  lemma Rounds20()
    ensures RoundHolds(20) && RoundHolds(21) && RoundHolds(22) && RoundHolds(23)
  {
  }

  lemma Rounds24()
    ensures RoundHolds(24) && RoundHolds(25) && RoundHolds(26) && RoundHolds(27)
  {
  }

  lemma Rounds28()
    ensures RoundHolds(28) && RoundHolds(29) && RoundHolds(30) && RoundHolds(31)
  {
  }

  lemma Rounds32()
    ensures RoundHolds(32) && RoundHolds(33) && RoundHolds(34) && RoundHolds(35)
  {
  }

  lemma Rounds36()
    ensures RoundHolds(36) && RoundHolds(37) && RoundHolds(38) && RoundHolds(39)
  {
  }

  lemma Rounds40()
    ensures RoundHolds(40) && RoundHolds(41) && RoundHolds(42) && RoundHolds(43)
  {
  }

  lemma Rounds44()
    ensures RoundHolds(44) && RoundHolds(45) && RoundHolds(46) && RoundHolds(47)
  {
  }

  lemma Rounds48()
    ensures RoundHolds(48) && RoundHolds(49) && RoundHolds(50) && RoundHolds(51)
  {
  }

  lemma Rounds52()
    ensures RoundHolds(52) && RoundHolds(53) && RoundHolds(54) && RoundHolds(55)
  {
  }

  lemma Rounds56()
    ensures RoundHolds(56) && RoundHolds(57) && RoundHolds(58) && RoundHolds(59)
  {
  }

  lemma Rounds60()
    ensures RoundHolds(60) && RoundHolds(61) && RoundHolds(62) && RoundHolds(63)
  {
  }

  lemma Rounds64()
    ensures RoundHolds(64) && RoundHolds(65) && RoundHolds(66) && RoundHolds(67)
  {
  }

  lemma Rounds68()
    ensures RoundHolds(68) && RoundHolds(69) && RoundHolds(70) && RoundHolds(71)
  {
  }

  lemma Rounds72()
    ensures RoundHolds(72) && RoundHolds(73) && RoundHolds(74) && RoundHolds(75)
  {
  }

  lemma Rounds76()
    ensures RoundHolds(76) && RoundHolds(77) && RoundHolds(78) && RoundHolds(79)
  {
  }

  lemma From0(n: nat)
    requires 0 <= n < 20
    ensures RoundHolds(n)
  {
    hide RoundHolds;
    Rounds0();
    Rounds4();
    Rounds8();
    Rounds12();
    Rounds16();
    assert || n == 0 || n == 1 || n == 2 || n == 3 || n == 4 || n == 5 || n == 6 || n == 7 || n == 8 || n == 9
           || n == 10 || n == 11 || n == 12 || n == 13 || n == 14 || n == 15 || n == 16 || n == 17 || n == 18 || n == 19;
  }

  lemma From20(n: nat)
    requires 20 <= n < 40
    ensures RoundHolds(n)
  {
    hide RoundHolds;
    Rounds20();
    Rounds24();
    Rounds28();
    Rounds32();
    Rounds36();
    assert || n == 20 || n == 21 || n == 22 || n == 23 || n == 24 || n == 25 || n == 26 || n == 27 || n == 28 || n == 29
           || n == 30 || n == 31 || n == 32 || n == 33 || n == 34 || n == 35 || n == 36 || n == 37 || n == 38 || n == 39;
  }

  lemma From40(n: nat)
    requires 40 <= n < 60
    ensures RoundHolds(n)
  {
    hide RoundHolds;
    Rounds40();
    Rounds44();
    Rounds48();
    Rounds52();
    Rounds56();
    assert || n == 40 || n == 41 || n == 42 || n == 43 || n == 44 || n == 45 || n == 46 || n == 47 || n == 48 || n == 49
           || n == 50 || n == 51 || n == 52 || n == 53 || n == 54 || n == 55 || n == 56 || n == 57 || n == 58 || n == 59;
  }

  lemma From60(n: nat)
    requires 60 <= n < 80
    ensures RoundHolds(n)
  {
    hide RoundHolds;
    Rounds60();
    Rounds64();
    Rounds68();
    Rounds72();
    Rounds76();
    assert || n == 60 || n == 61 || n == 62 || n == 63 || n == 64 || n == 65 || n == 66 || n == 67 || n == 68 || n == 69
           || n == 70 || n == 71 || n == 72 || n == 73 || n == 74 || n == 75 || n == 76 || n == 77 || n == 78 || n == 79;
  }

  lemma EveryRound(n: nat)
    requires n < 80
    ensures RoundHolds(n)
  {
    hide RoundHolds;
    if n < 20 {
      From0(n);
    } else if n < 40 {
      From20(n);
    } else if n < 60 {
      From40(n);
    } else {
      From60(n);
    }
  }

  // ---------- The digest ----------

  const ABC: seq<bv8> := [97, 98, 99]

  /** The one block of the padded message. */
  lemma Block(i: nat)
    requires i < 64
    ensures var p := Padded(ABC, 0x80, 0);
            && |p| == 64
            && p[i] == if i == 0 then 97 else if i == 1 then 98 else if i == 2 then 99 else if i == 3 then 0x80 else if i == 63 then 24 else 0
  {
    hide Zeros;
    assert Zeros(3) == 52 by { ZerosAre(0, 3); }
    Length24();
  }

  lemma Length24()
    ensures Length64(24) == [0, 0, 0, 0, 0, 0, 0, 24]
  {
    hide ByteOf;
    HighByteIs(0x1_00000000_000000);
    HighByteIs(0x1_00000000_0000);
    HighByteIs(0x1_00000000_00);
    HighByteIs(0x1_00000000);
    HighByteIs(0x1_000000);
    HighByteIs(0x1_0000);
    HighByteIs(0x1_00);
    assert ByteOf(24, 1) == 24 by { LowByteIs(); }
  }

  lemma HighByteIs(unit: nat)
    requires unit > 24
    ensures ByteOf(24, unit) == 0
  {
    DivModUnique(unit, 0, 24);
  }

  lemma LowByteIs()
    ensures ByteOf(24, 1) == 24
  {
  }

  lemma FirstWords(m: Block, t: nat)
    requires m == Padded(ABC, 0x80, 0) && t < 16
    ensures Word(m[4 * t], m[4 * t + 1], m[4 * t + 2], m[4 * t + 3]) == W(t)
  {
    hide W, Padded;
    Block(4 * t);
    Block(4 * t + 1);
    Block(4 * t + 2);
    Block(4 * t + 3);
    FirstTable(t);
  }

  lemma FirstTable(t: nat)
    requires t < 16
    ensures W(t) == if t == 0 then Word(97, 98, 99, 0x80) else if t == 15 then Word(0, 0, 0, 24) else Word(0, 0, 0, 0)
  {
  }

  lemma NextIs(a: bv32, b: bv32, c: bv32, d: bv32)
    ensures Next(a, b, c, d) == NextWord(a, b, c, d)
  {
    hide Rotl, Left1;
    Left(a ^ b ^ c ^ d);
  }

  lemma {:induction false} ScheduleIs(m: Block, n: nat)
    requires m == Padded(ABC, 0x80, 0) && n <= 80
    ensures forall t :: 0 <= t < n ==> Schedule(m, n)[t] == W(t)
  {
    hide W, Word, Next, NextWord, Padded;
    if n > 0 {
      ScheduleIs(m, n - 1);
      if n <= 16 {
        FirstWords(m, n - 1);
      } else {
        EveryWord(n - 1);
        NextIs(W(n - 4), W(n - 9), W(n - 15), W(n - 17));
      }
    }
  }

  lemma StateNext(n: nat)
    requires n < 80
    ensures State(n + 1) == Round(n, State(n), W(n))
  {
    hide W, A, Mixed, Constant, Rotl, Left30, Temp, Sum;
    EveryRound(n);
    Left(A(n + 3));
    TempIs(A(n + 4), Mixed(n, A(n + 3), Left30(A(n + 2)), Left30(A(n + 1))), Left30(A(n)), W(n), Constant(n));
  }

  lemma TempIs(a: bv32, f: bv32, e: bv32, w: bv32, k: bv32)
    ensures Temp(a, f, e, w, k) == Sum(a, f, e, w, k)
  {
    hide Rotl, Left5, PlusAll;
    Left(a);
  }

  lemma {:induction false} RoundsAre(w: seq<bv32>, n: nat)
    requires n <= 80 == |w| && forall t :: 0 <= t < 80 ==> w[t] == W(t)
    ensures Rounds(INITIAL, w, n) == State(n)
  {
    hide W, A, Round, State, INITIAL;
    if n == 0 {
      Initially();
    } else {
      RoundsAre(w, n - 1);
      StateNext(n - 1);
    }
  }

  lemma Initially()
    ensures State(0) == INITIAL
  {
  }

  lemma Finally()
    ensures Digest(Add(INITIAL, State(80))) ==
            [0xa9, 0x99, 0x3e, 0x36, 0x47, 0x06, 0x81, 0x6a, 0xba, 0x3e,
             0x25, 0x71, 0x78, 0x50, 0xc2, 0x6c, 0x9c, 0xd0, 0xd8, 0x9d]
  {
  }

  /** The digest of "abc". */
  lemma Abc()
    ensures Sha1(ABC) ==
            [0xa9, 0x99, 0x3e, 0x36, 0x47, 0x06, 0x81, 0x6a, 0xba, 0x3e,
             0x25, 0x71, 0x78, 0x50, 0xc2, 0x6c, 0x9c, 0xd0, 0xd8, 0x9d]
  {
    hide Padded, Schedule, Rounds, State, Digest, Add, INITIAL;
    var m := Padded(ABC, 0x80, 0);
    Block(0);
    ScheduleIs(m, 80);
    RoundsAre(Schedule(m, 80), 80);
    assert m[64 * 0..64 * 1] == m;
    assert Fold(m, 0) == INITIAL;
    assert Fold(m, 1) == Compress(INITIAL, m);
    Finally();
  }
}
