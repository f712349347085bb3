/** The four-state machine of the Base64 decoder, and what its states say about the text. */
module Base64Machine {
  import opened Wrappers
  import opened Base64Spec

  /** What the machine holds after some symbols: the complete bytes, and the bits of the byte under way. */
  datatype Held = Held(bytes: seq<bv8>, spare: bv8)

  /** One symbol, in state `state`. */
  function Next(h: Held, state: nat, v: bv8): Held {
    match state
    case 0 => Held(h.bytes, In0(v))
    case 1 => Held(h.bytes + [Byte0(h.spare, v)], Spare1(v))
    case 2 => Held(h.bytes + [Byte1(h.spare, v)], Spare2(v))
    case _ => Held(h.bytes + [Byte2(h.spare, v)], 0)
  }

  function Run(p: seq<bv8>): Held
    requires Symbols(p)
  {
    if p == [] then Held([], 0) else
    Next(Run(p[..|p| - 1]), (|p| - 1) % 4, Value(p[|p| - 1]))
  }

  /** How many bytes are complete; whole blocks leave no bits over. */
  lemma {:induction false} RunLength(p: seq<bv8>)
    requires Symbols(p)
    ensures |Run(p).bytes| == |p| / 4 * 3 + (if |p| % 4 == 0 then 0 else |p| % 4 - 1)
    ensures |p| % 4 == 0 ==> Run(p).spare == 0
  {
    hide In0, Byte0, Byte1, Byte2, Spare1, Spare2, Value, IsSymbol;
    if p != [] {
      RunLength(p[..|p| - 1]);
    }
  }

  /** A block of four symbols in front contributes its three bytes, and leaves the state as it is. */
  lemma {:induction false} RunQuantum(q: seq<bv8>, p: seq<bv8>)
    requires |q| == 4 && Symbols(q) && Symbols(p)
    ensures Symbols(q + p)
    ensures Run(q + p) == Held(Triple(q) + Run(p).bytes, if p == [] then 0 else Run(p).spare)
  {
    hide In0, Byte0, Byte1, Byte2, Spare1, Spare2, Value, IsSymbol;
    if p == [] {
      assert q + p == q;
      RunFour(q);
    } else {
      var k := p[..|p| - 1];
      RunQuantum(q, k);
      assert (q + p)[..|q + p| - 1] == q + k;
      RunStep(q, p);
    }
  }

  lemma RunStep(q: seq<bv8>, p: seq<bv8>)
    requires |q| == 4 && Symbols(q) && Symbols(p) && p != []
    ensures (|q + p| - 1) % 4 == (|p| - 1) % 4 && (q + p)[|q + p| - 1] == p[|p| - 1]
    ensures |p| == 1 ==> (|p| - 1) % 4 == 0
  {
  }

  lemma RunFour(q: seq<bv8>)
    requires |q| == 4 && Symbols(q)
    ensures Run(q) == Held(Triple(q), 0)
  {
    hide In0, Byte0, Byte1, Byte2, Spare1, Spare2, Value, IsSymbol;
    RunThree(q[..3]);
    assert q[..3][..0] == [];
  }

  lemma RunThree(q: seq<bv8>)
    requires |q| == 3 && Symbols(q)
    ensures Run(q[..1]) == Held([], In0(Value(q[0])))
    ensures Run(q[..2]) == Held([Byte0(In0(Value(q[0])), Value(q[1]))], Spare1(Value(q[1])))
    ensures Run(q) == Held([Byte0(In0(Value(q[0])), Value(q[1])), Byte1(Spare1(Value(q[1])), Value(q[2]))], Spare2(Value(q[2])))
  {
    hide In0, Byte0, Byte1, Byte2, Spare1, Spare2, Value, IsSymbol, Run, Next;
    RunFirst(q, 0);
    RunFirst(q, 1);
    RunFirst(q, 2);
    assert q[..3] == q;
    NextFirst(Value(q[0]));
    NextSecond(In0(Value(q[0])), Value(q[1]));
    NextThird(Byte0(In0(Value(q[0])), Value(q[1])), Spare1(Value(q[1])), Value(q[2]));
  }

  lemma NextFirst(v: bv8)
    ensures Next(Held([], 0), 0, v) == Held([], In0(v))
  {
  }

  lemma NextSecond(spare: bv8, v: bv8)
    ensures Next(Held([], spare), 1, v) == Held([Byte0(spare, v)], Spare1(v))
  {
  }

  lemma NextThird(b: bv8, spare: bv8, v: bv8)
    ensures Next(Held([b], spare), 2, v) == Held([b, Byte1(spare, v)], Spare2(v))
  {
  }

  lemma RunFirst(q: seq<bv8>, k: nat)
    requires Symbols(q) && k < |q| && k < 4
    ensures Run(q[..k + 1]) == Next(if k == 0 then Held([], 0) else Run(q[..k]), k, Value(q[k]))
  {
    hide Value, IsSymbol, Next;
    RunEnd(q[..k], q[k]);
    assert q[..k + 1] == q[..k] + [q[k]];
    assert k == 0 ==> q[..k] == [];
  }

  lemma RunEnd(p: seq<bv8>, c: bv8)
    requires Symbols(p) && IsSymbol(c)
    ensures Symbols(p + [c]) && Run(p + [c]) == Next(Run(p), |p| % 4, Value(c))
    ensures Run([]) == Held([], 0)
  {
    hide Value, IsSymbol, Next;
    assert (p + [c])[..|p|] == p;
  }

  /** What the text that is left can still make of the text read so far: the exact outcome if the text ends or a padding
      character follows, failure if anything else but a symbol follows, and more bytes if a symbol does. */
  ghost predicate Outcome(p: seq<bv8>, u: seq<bv8>, h: Held, d: Option<seq<bv8>>) {
    var state := |p| % 4;
    if u == [] then d == (if state == 0 then Some(h.bytes) else None)
    else if IsSymbol(u[0]) then d.Some? ==> |d.value| > |h.bytes|
    else d == (if ((state == 2 && u == [PAD, PAD]) || (state == 3 && u == [PAD])) && h.spare == 0 then Some(h.bytes) else None)
  }

  lemma {:induction false} DecodeAfter(p: seq<bv8>, u: seq<bv8>)
    requires Symbols(p)
    ensures Outcome(p, u, Run(p), Decode(p + u))
    decreases |p|
  {
    hide Decode, Run, IsSymbol, Triple;
    if |p| >= 4 {
      var (q, k) := (p[..4], p[4..]);
      DecodeAfter(k, u);
      RunQuantum(q, k);
      assert q + k == p;
      assert p + u == q + (k + u);
      DecodeQuantum(q, k + u);
      RunNothing();
    } else {
      DecodeAfterFew(p, u);
    }
  }

  lemma RunNothing()
    ensures Run([]) == Held([], 0)
  {
  }

  lemma DecodeAfterFew(p: seq<bv8>, u: seq<bv8>)
    requires Symbols(p) && |p| < 4
    ensures Outcome(p, u, Run(p), Decode(p + u))
  {
    hide Decode, Run, Outcome;
    if |p| == 0 {
      assert p + u == u;
      AfterNone(u);
    } else if |p| == 1 {
      AfterOne(p, u);
    } else if |p| == 2 {
      AfterTwo(p, u);
    } else {
      AfterThree(p, u);
    }
  }

  lemma AfterNone(u: seq<bv8>)
    ensures Outcome([], u, Run([]), Decode(u))
  {
    hide In0, Byte0, Byte1, Byte2, Spare1, Spare2, Value;
  }

  lemma AfterOne(p: seq<bv8>, u: seq<bv8>)
    requires Symbols(p) && |p| == 1
    ensures Outcome(p, u, Run(p), Decode(p + u))
  {
    hide In0, Byte0, Byte1, Byte2, Spare1, Spare2, Value;
    RunThree(p + p + p);
    assert (p + p + p)[..1] == p;
  }

  lemma AfterTwo(p: seq<bv8>, u: seq<bv8>)
    requires Symbols(p) && |p| == 2
    ensures Outcome(p, u, Run(p), Decode(p + u))
  {
    hide In0, Byte0, Byte1, Byte2, Spare1, Spare2, Value, Run;
    RunThree(p + [p[0]]);
    assert (p + [p[0]])[..2] == p;
  }

  lemma AfterThree(p: seq<bv8>, u: seq<bv8>)
    requires Symbols(p) && |p| == 3
    ensures Outcome(p, u, Run(p), Decode(p + u))
  {
    hide In0, Byte0, Byte1, Byte2, Spare1, Spare2, Value, Run;
    RunThree(p);
  }
}
