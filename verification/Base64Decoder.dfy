/** The decoder `__b64_pton`. */
module Base64Decoder {
  import opened Wrappers
  import opened Integers
  import opened Base64Spec
  import opened Base64Machine

  /** `isspace` in the C locale. */
  predicate IsSpace(c: bv8)
    ensures IsSpace(c) <==> c == 9 || c == 10 || c == 11 || c == 12 || c == 13 || c == 32
  {
    c == 32 || 9 <= c <= 13
  }

  /** The text without its white space. */
  function Strip(s: seq<bv8>): seq<bv8> {
    if s == [] then [] else (if IsSpace(s[0]) then [] else [s[0]]) + Strip(s[1..])
  }

  /** The text from place `k` on, without white space. */
  function From(s: seq<bv8>, k: nat): seq<bv8> {
    if k < |s| then Strip(s[k..]) else []
  }

  /** The character at place `k` of a C string given without its terminator. */
  function Char(s: seq<bv8>, k: nat): bv8 {
    if k < |s| then s[k] else 0
  }

  lemma FromNext(s: seq<bv8>, k: nat)
    requires 0 !in s
    ensures Char(s, k) == 0 <==> k >= |s|
    ensures Char(s, k) == 0 ==> From(s, k) == []
    ensures Char(s, k) != 0 && IsSpace(Char(s, k)) ==> From(s, k) == From(s, k + 1)
    ensures Char(s, k) != 0 && !IsSpace(Char(s, k)) ==>
              From(s, k) == [Char(s, k)] + From(s, k + 1) && |From(s, k)| > 0 && From(s, k)[0] == Char(s, k)
  {
    if k < |s| {
      assert s[k..][1..] == s[k + 1..];
      assert s[k] in s;
    }
  }

  /** The target holds what the machine holds, as far as it fits. */
  ghost predicate Stored(h: Held, state: nat, t: seq<bv8>, tarindex: nat, targsize: nat) {
    && tarindex == |h.bytes| <= targsize <= |t| && t[..tarindex] == h.bytes
    && (state != 0 && tarindex < targsize ==> t[tarindex] == h.spare)
    && (state >= 2 && tarindex == targsize ==> h.spare == 0)
  }

  /** The `switch` of the main loop.  It fails if the byte under way, or the bits left over for the next, do not fit. */
  method Step(state: nat, v: bv8, target: array<bv8>, tarindex: nat, targsize: nat, ghost h: Held)
    returns (ok: bool, tarindex': nat)
    requires state < 4 && targsize <= target.Length && Stored(h, state, target[..], tarindex, targsize)
    modifies target
    ensures target[targsize..] == old(target[targsize..])
    ensures ok ==> Stored(Next(h, state, v), (state + 1) % 4, target[..], tarindex', targsize)
    ensures !ok ==> |h.bytes| == targsize
                    || (|h.bytes| + 1 == targsize && (state == 1 || state == 2) && Next(h, state, v).spare != 0)
  {
    hide In0, Byte0, Byte1, Byte2, Spare1, Spare2;
    ok, tarindex' := true, tarindex;
    if tarindex >= targsize {
      return false, tarindex;
    }
    ghost var t := target[..];
    match state {
      case 0 =>
        target[tarindex] := In0(v);
      case 1 =>
        target[tarindex] := Byte0(target[tarindex], v);
        var nextbyte := Spare1(v);
        if tarindex + 1 < targsize {
          target[tarindex + 1] := nextbyte;
        } else if nextbyte != 0 {
          return false, tarindex;
        }
        tarindex' := tarindex + 1;
      case 2 =>
        target[tarindex] := Byte1(target[tarindex], v);
        var nextbyte := Spare2(v);
        if tarindex + 1 < targsize {
          target[tarindex + 1] := nextbyte;
        } else if nextbyte != 0 {
          return false, tarindex;
        }
        tarindex' := tarindex + 1;
      case _ =>
        target[tarindex] := Byte2(target[tarindex], v);
        tarindex' := tarindex + 1;
    }
    assert target[..tarindex] == t[..tarindex];
    assert tarindex' == tarindex + 1 ==> target[..tarindex'] == t[..tarindex] + [target[tarindex]];
  }

  /** The decoding of a text into at most `n` bytes. */
  function Fitting(d: Option<seq<bv8>>, n: nat): Option<seq<bv8>> {
    if d.Some? && |d.value| <= n then d else None
  }

  /** Why a failed step means that the text does not decode into the target. */
  lemma StepFailed(p: seq<bv8>, c: bv8, u: seq<bv8>, targsize: nat)
    requires Symbols(p) && IsSymbol(c)
    requires var h := Run(p);
             |h.bytes| == targsize
             || (|h.bytes| + 1 == targsize && (|p| % 4 == 1 || |p| % 4 == 2) && Next(h, |p| % 4, Value(c)).spare != 0)
    ensures Fitting(Decode(p + ([c] + u)), targsize) == None
  {
    hide Decode, Value, IsSymbol, Run, In0, Byte0, Byte1, Byte2, Spare1, Spare2;
    if |Run(p).bytes| == targsize {
      DecodeAfter(p, [c] + u);
      assert ([c] + u)[0] == c;
    } else {
      RunEnd(p, c);
      DecodeAfter(p + [c], u);
      assert p + [c] + u == p + ([c] + u);
      SpareFails(p + [c], u, Run(p + [c]), Decode(p + [c] + u));
    }
  }

  /** Bits that are left over are an error, unless more symbols follow. */
  lemma SpareFails(p: seq<bv8>, u: seq<bv8>, h: Held, d: Option<seq<bv8>>)
    requires Outcome(p, u, h, d) && h.spare != 0 && |p| % 4 != 0
    ensures d.Some? ==> |d.value| > |h.bytes|
  {
  }

  lemma PadOutcome(p: seq<bv8>, v: seq<bv8>)
    requires Symbols(p)
    ensures Decode(p + ([PAD] + v)) ==
            if ((|p| % 4 == 2 && v == [PAD]) || (|p| % 4 == 3 && v == [])) && Run(p).spare == 0 then Some(Run(p).bytes) else None
  {
    hide Decode, Run;
    DecodeAfter(p, [PAD] + v);
    assert [PAD] + v == [PAD, PAD] <==> v == [PAD] by {
      if [PAD] + v == [PAD, PAD] { assert v == ([PAD] + v)[1..] == [PAD, PAD][1..]; }
    }
  }

  lemma EndOutcome(p: seq<bv8>, u: seq<bv8>)
    requires Symbols(p) && (u == [] || (!IsSymbol(u[0]) && u[0] != PAD))
    ensures Decode(p + u) == if u == [] && |p| % 4 == 0 then Some(Run(p).bytes) else None
  {
    hide Decode, Run, IsSymbol;
    DecodeAfter(p, u);
  }

  /** `__b64_pton` with a target: -1, or the number of bytes that the text stands for, which are then in the target. */
  method Pton(src: seq<bv8>, target: array<bv8>, targsize: nat) returns (r: int)
    requires 0 !in src && targsize <= target.Length && targsize <= INT_MAX
    modifies target
    ensures target[targsize..] == old(target[targsize..])
    ensures match Fitting(Decode(Strip(src)), targsize)
            case Some(b) => r == |b| && target[..r] == b
            case None => r == -1
  {
    hide Decode, Run, Next, Stored, IsSymbol, IsSpace, From, Value, Strip;
    var state, tarindex := 0, 0;
    var k := 0;
    var ch := Char(src, k);
    ghost var p: seq<bv8> := [];
    RunNothing();
    Start(src, target[..], targsize);
    while ch != 0 && ch != PAD
      invariant k <= |src| && ch == Char(src, k) && Symbols(p) && Strip(src) == p + From(src, k)
      invariant state == |p| % 4 && Stored(Run(p), state, target[..], tarindex, targsize)
      invariant target[targsize..] == old(target[targsize..])
      decreases |src| - k
    {
      FromNext(src, k);
      if !IsSpace(ch) {
        if !IsSymbol(ch) {
          EndOutcome(p, From(src, k));
          return -1;
        }
        var ok;
        ok, tarindex := Step(state, Value(ch), target, tarindex, targsize, Run(p));
        if !ok {
          StepFailed(p, ch, From(src, k + 1), targsize);
          return -1;
        }
        RunEnd(p, ch);
        p := p + [ch];
        state := if state == 3 then 0 else state + 1;
      }
      k := k + 1;
      ch := Char(src, k);
    }
    FromNext(src, k);
    PadIsNoSpace();
    StoredBytes(Run(p), state, target[..], tarindex, targsize);
    if ch == PAD {
      PadOutcome(p, From(src, k + 1));
      r := Padding(src, k + 1, state, target, tarindex, targsize, Run(p));
    } else {
      EndOutcome(p, []);
      r := if state != 0 then -1 else tarindex;
    }
  }

  lemma PadIsNoSpace()
    ensures !IsSpace(PAD)
  {
  }

  lemma Start(src: seq<bv8>, t: seq<bv8>, targsize: nat)
    requires targsize <= |t|
    ensures From(src, 0) == Strip(src) && Stored(Held([], 0), 0, t, 0, targsize)
  {
    assert src[0..] == src;
  }

  lemma StoredBytes(h: Held, state: nat, t: seq<bv8>, tarindex: nat, targsize: nat)
    requires Stored(h, state, t, tarindex, targsize)
    ensures tarindex == |h.bytes| <= targsize <= |t| && t[..tarindex] == h.bytes
  {
  }

  /** What follows the first padding character, at place `k` and later. */
  method Padding(src: seq<bv8>, k0: nat, state: nat, target: array<bv8>, tarindex: nat, targsize: nat, ghost h: Held)
    returns (r: int)
    requires 0 !in src && k0 <= |src| && state < 4 && Stored(h, state, target[..], tarindex, targsize)
    ensures r == if ((state == 2 && From(src, k0) == [PAD]) || (state == 3 && From(src, k0) == [])) && h.spare == 0
                 then tarindex else -1
  {
    hide From, IsSpace;
    var k := k0;
    var ch := Char(src, k);
    if state == 0 || state == 1 {
      return -1;
    }
    if state == 2 {
      while ch != 0 && IsSpace(ch)
        invariant k <= |src| && ch == Char(src, k) && From(src, k) == From(src, k0)
        decreases |src| - k
      {
        FromNext(src, k);
        k := k + 1;
        ch := Char(src, k);
      }
      FromNext(src, k);
      if ch != PAD {
        return -1;
      }
      k := k + 1;
      ch := Char(src, k);
    }
    ghost var k1 := k;
    while ch != 0
      invariant k <= |src| && ch == Char(src, k) && From(src, k) == From(src, k1)
      decreases |src| - k
    {
      FromNext(src, k);
      if !IsSpace(ch) {
        return -1;
      }
      k := k + 1;
      ch := Char(src, k);
    }
    FromNext(src, k);
    if tarindex < targsize && target[tarindex] != 0 {
      return -1;
    }
    return tarindex;
  }

  /** The decoder accepts exactly the texts that, without white space, are the encoding of a byte string that fits, and
      stores that byte string. */
  lemma AcceptsIff(src: seq<bv8>, targsize: nat, b: seq<bv8>)
    ensures Fitting(Decode(Strip(src)), targsize) == Some(b) <==> Encode(b) == Strip(src) && |b| <= targsize
  {
    hide Decode, Encode;
    DecodesIff(Strip(src), b);
  }

  /** A text without white space is its own strip: what the encoder writes decodes to what it was given. */
  lemma {:induction false} StripNothing(s: seq<bv8>)
    requires forall i | 0 <= i < |s| :: !IsSpace(s[i])
    ensures Strip(s) == s
  {
    if s != [] {
      StripNothing(s[1..]);
    }
  }

  lemma {:induction false} EncodeHasNoSpace(b: seq<bv8>)
    ensures forall i | 0 <= i < |Encode(b)| :: !IsSpace(Encode(b)[i]) && Encode(b)[i] != 0
  {
    hide Out0, Out1, Out2, Out3;
    if |b| >= 3 {
      EncodeHasNoSpace(b[3..]);
    }
  }

  lemma RoundTrip(b: seq<bv8>, targsize: nat)
    requires |b| <= targsize
    ensures Fitting(Decode(Strip(Encode(b))), targsize) == Some(b)
  {
    hide Decode, Encode, IsSpace;
    EncodeHasNoSpace(b);
    StripNothing(Encode(b));
    DecodeEncode(b);
  }

  // ---------- Without a target ----------

  /** The symbols that a text begins with. */
  function Leading(t: seq<bv8>): seq<bv8> {
    if t == [] || !IsSymbol(t[0]) then [] else [t[0]] + Leading(t[1..])
  }

  lemma {:induction false} LeadingIs(p: seq<bv8>, u: seq<bv8>)
    requires Symbols(p) && (u == [] || !IsSymbol(u[0]))
    ensures Leading(p + u) == p
  {
    hide IsSymbol;
    if p == [] {
      assert p + u == u;
    } else {
      assert (p + u)[1..] == p[1..] + u;
      LeadingIs(p[1..], u);
    }
  }

  lemma {:induction false} LeadingSymbols(t: seq<bv8>)
    ensures Symbols(Leading(t)) && Leading(t) <= t
    ensures Leading(t) != t ==> !IsSymbol(t[|Leading(t)|])
  {
    hide IsSymbol;
    if t != [] && IsSymbol(t[0]) {
      LeadingSymbols(t[1..]);
      assert t == [t[0]] + t[1..];
    }
  }

  /** How many bytes a text is made for: whole blocks of symbols, the last of which can be padded. */
  function Measured(t: seq<bv8>): Option<nat> {
    Length(|Leading(t)|, if |Leading(t)| <= |t| then t[|Leading(t)|..] else [])
  }

  function Length(symbols: nat, rest: seq<bv8>): Option<nat> {
    if symbols % 4 == 0 && rest == [] then Some(symbols / 4 * 3)
    else if symbols % 4 == 2 && rest == [PAD, PAD] then Some(symbols / 4 * 3 + 1)
    else if symbols % 4 == 3 && rest == [PAD] then Some(symbols / 4 * 3 + 2)
    else None
  }

  lemma MeasuredIs(p: seq<bv8>, u: seq<bv8>)
    requires Symbols(p) && (u == [] || !IsSymbol(u[0]))
    ensures Measured(p + u) == Length(|p|, u)
  {
    hide IsSymbol;
    LeadingIs(p, u);
    assert (p + u)[|p|..] == u;
  }

  /** `__b64_pton` without a target: it only measures the text. */
  method Measure(src: seq<bv8>) returns (r: int)
    requires 0 !in src && |src| <= INT_MAX
    ensures match Measured(Strip(src)) case Some(n) => r == n case None => r == -1
  {
    hide IsSymbol, IsSpace, From, Strip, Length;
    var state, tarindex := 0, 0;
    var k := 0;
    var ch := Char(src, k);
    ghost var p: seq<bv8> := [];
    Start(src, [], 0);
    LengthIs();
    while ch != 0 && ch != PAD
      invariant k <= |src| && ch == Char(src, k) && Symbols(p) && Strip(src) == p + From(src, k)
      invariant state == |p| % 4 && tarindex == |p| / 4 * 3 + (if state == 0 then 0 else state - 1)
      decreases |src| - k
    {
      FromNext(src, k);
      if !IsSpace(ch) {
        if !IsSymbol(ch) {
          MeasuredIs(p, From(src, k));
          return -1;
        }
        tarindex := if state == 0 then tarindex else tarindex + 1;
        p := p + [ch];
        state := if state == 3 then 0 else state + 1;
      }
      k := k + 1;
      ch := Char(src, k);
    }
    FromNext(src, k);
    PadIsNoSpace();
    MeasuredIs(p, From(src, k));
    if ch == PAD {
      r := MeasurePadding(src, k + 1, state, tarindex);
    } else {
      r := if state != 0 then -1 else tarindex;
    }
  }

  lemma LengthIs()
    ensures forall n: nat :: Length(n, []) == if n % 4 == 0 then Some(n / 4 * 3) else None
    ensures forall n: nat, u: seq<bv8> :: u != [] && u[0] != PAD ==> Length(n, u) == None
    ensures forall n: nat, u: seq<bv8> :: Length(n, [PAD] + u) ==
              if n % 4 == 2 && u == [PAD] then Some(n / 4 * 3 + 1) else if n % 4 == 3 && u == [] then Some(n / 4 * 3 + 2) else None
    ensures !IsSymbol(PAD)
  {
    assert forall u: seq<bv8> :: [PAD] + u == [PAD, PAD] ==> ([PAD] + u)[1..] == u;
  }

  method MeasurePadding(src: seq<bv8>, k0: nat, state: nat, tarindex: nat) returns (r: int)
    requires 0 !in src && k0 <= |src| && state < 4
    ensures r == if (state == 2 && From(src, k0) == [PAD]) || (state == 3 && From(src, k0) == []) then tarindex else -1
  {
    if state == 0 || state == 1 {
      return -1;
    }
    var target := new bv8[0];
    r := Padding(src, k0, state, target, 0, 0, Held([], 0));
    if r == 0 {
      r := tarindex;
    }
  }

  /** A text that decodes is measured by its bytes; one that is measured decodes if and only if no bits are left over. */
  lemma MeasuredDecodes(t: seq<bv8>)
    ensures Symbols(Leading(t))
    ensures Decode(t).Some? <==> Measured(t).Some? && Run(Leading(t)).spare == 0
    ensures Decode(t).Some? ==> Measured(t) == Some(|Decode(t).value|)
  {
    hide Decode, Leading, Measured;
    LeadingSymbols(t);
    var (p, u) := (Leading(t), t[|Leading(t)|..]);
    assert t == p + u;
    DecodesMeasured(p, u);
  }

  lemma DecodesMeasured(p: seq<bv8>, u: seq<bv8>)
    requires Symbols(p) && (u == [] || !IsSymbol(u[0]))
    ensures Decode(p + u).Some? <==> Measured(p + u).Some? && Run(p).spare == 0
    ensures Decode(p + u).Some? ==> Measured(p + u) == Some(|Decode(p + u).value|)
  {
    hide Decode, IsSymbol, Run, Length, Measured, Symbols;
    MeasuredIs(p, u);
    RunLength(p);
    LengthIs();
    if u != [] && u[0] == PAD {
      assert u == [PAD] + u[1..];
      PadOutcome(p, u[1..]);
    } else {
      EndOutcome(p, u);
    }
  }

  /** "QR==": measured as one byte, but not the encoding of any. */
  lemma LeftOver()
    ensures Measured([81, 82, PAD, PAD]) == Some(1) && Decode([81, 82, PAD, PAD]) == None
  {
    MeasuredIs([81, 82], [PAD, PAD]);
    assert [81, 82] + [PAD, PAD] == [81, 82, PAD, PAD];
  }
}
