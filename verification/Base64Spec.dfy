/** Base64 encoding as section 4 of RFC 4648 describes it, and its inverse. */
module Base64Spec {
  import opened Wrappers

  const PAD: bv8 := 61

  /** The character for a value below 64: A-Z, a-z, 0-9, + and /. */
  function Symbol(v: bv8): bv8
    requires v < 64
  {
    if v < 26 then v + 65 else if v < 52 then v + 71 else if v < 62 then v - 4 else if v == 62 then 43 else 47
  }

  /** The character is that of table 1 of RFC 4648. */
  lemma SymbolIs(v: bv8)
    requires v < 64
    ensures v < 26 ==> Symbol(v) as int == 'A' as int + v as int
    ensures 26 <= v < 52 ==> Symbol(v) as int == 'a' as int + (v as int - 26)
    ensures 52 <= v < 62 ==> Symbol(v) as int == '0' as int + (v as int - 52)
    ensures v == 62 ==> Symbol(v) as int == '+' as int
    ensures v == 63 ==> Symbol(v) as int == '/' as int
  {
  }

  predicate IsSymbol(c: bv8) {
    65 <= c <= 90 || 97 <= c <= 122 || 48 <= c <= 57 || c == 43 || c == 47
  }

  /** The place of a character in the alphabet. */
  function Value(c: bv8): (v: bv8)
    requires IsSymbol(c)
    ensures v < 64
  {
    if 65 <= c <= 90 then c - 65 else if 97 <= c <= 122 then c - 71 else if 48 <= c <= 57 then c + 4
    else if c == 43 then 62 else 63
  }

  lemma SymbolValue(c: bv8)
    requires IsSymbol(c)
    ensures Symbol(Value(c)) == c
  {
  }

  lemma ValueSymbol(v: bv8)
    requires v < 64
    ensures IsSymbol(Symbol(v)) && Value(Symbol(v)) == v
  {
  }

  // ---------- Three bytes and four values ----------

  function Out0(a: bv8): (v: bv8) ensures v < 64 { a >> 2 }

  function Out1(a: bv8, b: bv8): (v: bv8) ensures v < 64 { ((a & 0x03) << 4) + (b >> 4) }

  function Out2(b: bv8, c: bv8): (v: bv8) ensures v < 64 { ((b & 0x0f) << 2) + (c >> 6) }

  function Out3(c: bv8): (v: bv8) ensures v < 64 { c & 0x3f }

  /** The byte, and the bits left over for the next byte, that a value completes. */
  function In0(v: bv8): bv8 { v << 2 }

  function Byte0(spare: bv8, v: bv8): bv8 { spare | (v >> 4) }

  function Spare1(v: bv8): bv8 { (v & 0x0f) << 4 }

  function Byte1(spare: bv8, v: bv8): bv8 { spare | (v >> 2) }

  function Spare2(v: bv8): bv8 { (v & 0x03) << 6 }

  function Byte2(spare: bv8, v: bv8): bv8 { spare | v }

  lemma OutIn(a: bv8, b: bv8, c: bv8)
    ensures Byte0(In0(Out0(a)), Out1(a, b)) == a
    ensures Byte1(Spare1(Out1(a, b)), Out2(b, c)) == b
    ensures Byte2(Spare2(Out2(b, c)), Out3(c)) == c
    ensures Spare1(Out1(a, 0)) == 0 && Spare2(Out2(b, 0)) == 0
  {
  }

  lemma InOut(v0: bv8, v1: bv8, v2: bv8, v3: bv8)
    requires v0 < 64 && v1 < 64 && v2 < 64 && v3 < 64
    ensures var (a, b, c) := (Byte0(In0(v0), v1), Byte1(Spare1(v1), v2), Byte2(Spare2(v2), v3));
            && Out0(a) == v0 && Out1(a, b) == v1 && Out2(b, c) == v2 && Out3(c) == v3
            && (Spare1(v1) == 0 ==> Out1(a, 0) == v1) && (Spare2(v2) == 0 ==> Out2(b, 0) == v2)
  {
  }

  function Quantum(a: bv8, b: bv8, c: bv8): (s: seq<bv8>)
    ensures |s| == 4
  {
    [Symbol(Out0(a)), Symbol(Out1(a, b)), Symbol(Out2(b, c)), Symbol(Out3(c))]
  }

  /** The encoding of a byte string. */
  function Encode(b: seq<bv8>): (s: seq<bv8>)
    ensures |s| == (|b| + 2) / 3 * 4
  {
    if |b| == 0 then []
    else if |b| == 1 then [Symbol(Out0(b[0])), Symbol(Out1(b[0], 0)), PAD, PAD]
    else if |b| == 2 then [Symbol(Out0(b[0])), Symbol(Out1(b[0], b[1])), Symbol(Out2(b[1], 0)), PAD]
    else Quantum(b[0], b[1], b[2]) + Encode(b[3..])
  }

  /** The test vectors of section 10 of RFC 4648. */
  lemma TestVectors()
    ensures Encode([102]) == [90, 103, 61, 61] && Encode([102, 111]) == [90, 109, 56, 61]
    ensures Encode([102, 111, 111, 98, 97, 114]) == [90, 109, 57, 118, 89, 109, 70, 121]
  {
    var s: seq<bv8> := [102, 111, 111, 98, 97, 114];
    assert s[3..] == [98, 97, 114] && [98 as bv8, 97, 114][3..] == [];
    assert Encode([98, 97, 114]) == Quantum(98, 97, 114) + Encode([]);
  }

  predicate Symbols(s: seq<bv8>) {
    forall i | 0 <= i < |s| :: IsSymbol(s[i])
  }

  function Triple(s: seq<bv8>): (b: seq<bv8>)
    requires |s| == 4 && Symbols(s)
    ensures |b| == 3
  {
    [Byte0(In0(Value(s[0])), Value(s[1])), Byte1(Spare1(Value(s[1])), Value(s[2])), Byte2(Spare2(Value(s[2])), Value(s[3]))]
  }

  /** The byte string that a text encodes, if any. */
  function Decode(t: seq<bv8>): Option<seq<bv8>> {
    if t == [] then Some([])
    else if |t| < 4 || !IsSymbol(t[0]) || !IsSymbol(t[1]) then None
    else if IsSymbol(t[2]) && IsSymbol(t[3]) then
      match Decode(t[4..]) case Some(b) => Some(Triple(t[..4]) + b) case None => None
    else if |t| != 4 || t[3] != PAD then None
    else if IsSymbol(t[2]) then
      if Spare2(Value(t[2])) == 0
      then Some([Byte0(In0(Value(t[0])), Value(t[1])), Byte1(Spare1(Value(t[1])), Value(t[2]))]) else None
    else if t[2] == PAD && Spare1(Value(t[1])) == 0 then Some([Byte0(In0(Value(t[0])), Value(t[1]))])
    else None
  }

  lemma QuantumDecoded(a: bv8, b: bv8, c: bv8)
    ensures Symbols(Quantum(a, b, c)) && Triple(Quantum(a, b, c)) == [a, b, c]
  {
    hide Symbol, Value, Out0, Out1, Out2, Out3, Byte0, Byte1, Byte2, In0, Spare1, Spare2, IsSymbol;
    OutIn(a, b, c);
    ValueSymbol(Out0(a));
    ValueSymbol(Out1(a, b));
    ValueSymbol(Out2(b, c));
    ValueSymbol(Out3(c));
  }

  lemma TripleEncoded(s: seq<bv8>)
    requires |s| == 4 && Symbols(s)
    ensures var b := Triple(s); Quantum(b[0], b[1], b[2]) == s
  {
    hide Symbol, Value, Out0, Out1, Out2, Out3, Byte0, Byte1, Byte2, In0, Spare1, Spare2, IsSymbol;
    InOut(Value(s[0]), Value(s[1]), Value(s[2]), Value(s[3]));
    SymbolValue(s[0]);
    SymbolValue(s[1]);
    SymbolValue(s[2]);
    SymbolValue(s[3]);
  }

  /** A block of four symbols decodes to three bytes before the rest. */
  lemma DecodeQuantum(q: seq<bv8>, rest: seq<bv8>)
    requires |q| == 4 && Symbols(q)
    ensures Decode(q + rest) == match Decode(rest) case Some(b) => Some(Triple(q) + b) case None => None
  {
    hide Triple, IsSymbol;
    assert (q + rest)[..4] == q && (q + rest)[4..] == rest;
  }

  lemma DecodeNothing()
    ensures Decode([]) == Some([])
  {
  }

  lemma DecodeOne(x: bv8)
    ensures Decode([Symbol(Out0(x)), Symbol(Out1(x, 0)), PAD, PAD]) == Some([x])
  {
    hide Symbol, Value, Out0, Out1, Byte0, In0, Spare1;
    OutIn(x, 0, 0);
    ValueSymbol(Out0(x));
    ValueSymbol(Out1(x, 0));
  }

  lemma DecodeTwo(x: bv8, y: bv8)
    ensures Decode([Symbol(Out0(x)), Symbol(Out1(x, y)), Symbol(Out2(y, 0)), PAD]) == Some([x, y])
  {
    hide Symbol, Value, Out0, Out1, Out2, Byte0, Byte1, In0, Spare1, Spare2;
    OutIn(x, y, 0);
    ValueSymbol(Out0(x));
    ValueSymbol(Out1(x, y));
    ValueSymbol(Out2(y, 0));
  }

  /** Decoding recovers what was encoded. */
  lemma {:induction false} DecodeEncode(b: seq<bv8>)
    ensures Decode(Encode(b)) == Some(b)
  {
    hide Decode, Quantum, Triple, Symbols;
    if |b| == 0 {
      DecodeNothing();
    } else if |b| == 1 {
      DecodeOne(b[0]);
      assert [b[0]] == b;
    } else if |b| == 2 {
      DecodeTwo(b[0], b[1]);
      assert [b[0], b[1]] == b;
    } else {
      DecodeEncode(b[3..]);
      QuantumDecoded(b[0], b[1], b[2]);
      DecodeQuantum(Quantum(b[0], b[1], b[2]), Encode(b[3..]));
      assert [b[0], b[1], b[2]] + b[3..] == b;
    }
  }

  lemma EncodeDecodePadded(t: seq<bv8>)
    requires Decode(t).Some? && |t| == 4 && !(IsSymbol(t[2]) && IsSymbol(t[3]))
    ensures Encode(Decode(t).value) == t
  {
    hide Symbol, Value, Out0, Out1, Out2, Out3, Byte0, Byte1, Byte2, In0, Spare1, Spare2;
    SymbolValue(t[0]);
    SymbolValue(t[1]);
    if IsSymbol(t[2]) {
      SymbolValue(t[2]);
      InOut(Value(t[0]), Value(t[1]), Value(t[2]), 0);
    } else {
      InOut(Value(t[0]), Value(t[1]), 0, 0);
    }
  }

  /** Only encodings are decoded. */
  lemma {:induction false} EncodeDecode(t: seq<bv8>)
    requires Decode(t).Some?
    ensures Encode(Decode(t).value) == t
  {
    hide IsSymbol, Triple, Quantum, Value, Byte0, Byte1, Byte2;
    if t != [] {
      if IsSymbol(t[2]) && IsSymbol(t[3]) {
        EncodeDecode(t[4..]);
        TripleEncoded(t[..4]);
        var (q, rest) := (Triple(t[..4]), Decode(t[4..]).value);
        assert (q + rest)[3..] == rest;
        assert t[..4] + t[4..] == t;
      } else {
        EncodeDecodePadded(t);
      }
    }
  }

  /** The texts that decode are the encodings, and each decodes to the one byte string that it encodes. */
  lemma DecodesIff(t: seq<bv8>, b: seq<bv8>)
    ensures Decode(t) == Some(b) <==> Encode(b) == t
  {
    hide Decode, Encode;
    DecodeEncode(b);
    if Decode(t) == Some(b) {
      EncodeDecode(t);
    }
  }
}
