/** The encoder `__b64_ntop` and the decoder `__b64_pton`. */
module Base64 {
  import opened Integers
  import opened Base64Spec

  // ---------- The encoder ----------

  lemma {:induction false} EncodeAppend(b: seq<bv8>, c: seq<bv8>)
    requires |b| % 3 == 0
    ensures Encode(b + c) == Encode(b) + Encode(c)
  {
    hide Quantum;
    if b == [] {
      assert b + c == c;
    } else {
      assert (b + c)[3..] == b[3..] + c;
      EncodeAppend(b[3..], c);
    }
  }

  lemma EncodeThree(b: seq<bv8>)
    requires |b| == 3
    ensures Encode(b) == Quantum(b[0], b[1], b[2])
  {
    hide Quantum;
    assert Encode(b[3..]) == [];
  }

  lemma Rejoined(b: seq<bv8>, at: nat)
    requires at <= |b|
    ensures b[..at] + b[at..] == b && |b[..at]| == at
  {
  }

  lemma EncodeSplit(b: seq<bv8>, at: nat)
    requires at <= |b| && at % 3 == 0
    ensures Encode(b) == Encode(b[..at]) + Encode(b[at..])
  {
    Rejoined(b, at);
    EncodeAppend(b[..at], b[at..]);
  }

  /** One turn of the loop: three more bytes are four more characters. */
  lemma EncodeNext(b: seq<bv8>, at: nat)
    requires at + 3 <= |b| && at % 3 == 0
    ensures Encode(b[..at + 3])
         == Encode(b[..at])
          + [Symbol(Out0(b[at])), Symbol(Out1(b[at], b[at + 1])), Symbol(Out2(b[at + 1], b[at + 2])), Symbol(Out3(b[at + 2]))]
  {
    hide Encode, Quantum, Symbol, Out0, Out1, Out2, Out3;
    EncodeAppend(b[..at], b[at..at + 3]);
    EncodeThree(b[at..at + 3]);
    assert b[..at] + b[at..at + 3] == b[..at + 3];
    QuantumIs(b[at], b[at + 1], b[at + 2]);
  }

  /** `__b64_ntop`: -1 if the encoding and its terminator do not fit, and else the length of the encoding. */
  method Ntop(src: seq<bv8>, target: array<bv8>, targsize: nat) returns (r: int)
    requires targsize <= target.Length && targsize <= INT_MAX + 1
    modifies target
    ensures r == (if targsize <= |Encode(src)| then -1 else |Encode(src)|)
    ensures r >= 0 ==> target[..r] == Encode(src) && target[r] == 0
    ensures target[targsize..] == old(target[targsize..])
    ensures r >= 0 ==> target[r + 1..] == old(target[r + 1..])
  {
    hide Encode, Quantum, Symbol, Out0, Out1, Out2, Out3, Wrote;
    var datalength := 0;
    var at := 0;
    EncodeNothing();
    ghost var out: seq<bv8> := [];
    WroteNothing(target[..]);
    while 2 < |src| - at
      invariant at <= |src| && at % 3 == 0 && datalength <= targsize
      invariant out == Encode(src[..at]) && datalength == |out|
      invariant Wrote(target[..], old(target[..]), out)
    {
      var input0, input1, input2 := src[at], src[at + 1], src[at + 2];
      at := at + 3;
      EncodeNext(src, at - 3);
      if datalength + 4 > targsize {
        EncodeLonger(src, at);
        Written(target[..], old(target[..]), out, targsize);
        return -1;
      }
      ghost var was := target[..];
      Put4(target, datalength, Symbol(Out0(input0)), Symbol(Out1(input0, input1)),
           Symbol(Out2(input1, input2)), Symbol(Out3(input2)));
      WroteMore(target[..], was, old(target[..]), out, Encode(src[..at]));
      datalength := datalength + 4;
      out := Encode(src[..at]);
    }
    EncodeSplit(src, at);
    ghost var was := target[..];
    Written(was, old(target[..]), out, targsize);
    r := Finish(src[at..], target, datalength, targsize);
    if r >= 0 {
      Written(was, old(target[..]), out, r + 1);
    }
  }

  /** The first part of `now` is `out`, and behind it nothing of `was` has changed. */
  ghost predicate Wrote(now: seq<bv8>, was: seq<bv8>, out: seq<bv8>) {
    |out| <= |now| == |was| && now[..|out|] == out && now[|out|..] == was[|out|..]
  }

  lemma WroteNothing(s: seq<bv8>)
    ensures Wrote(s, s, [])
  {
  }

  lemma WroteMore(now: seq<bv8>, mid: seq<bv8>, was: seq<bv8>, out: seq<bv8>, more: seq<bv8>)
    requires Wrote(mid, was, out) && |out| <= |more| <= |now| == |mid|
    requires now[..|more|] == mid[..|out|] + more[|out|..] && out == more[..|out|]
    requires now[|more|..] == mid[|more|..]
    ensures Wrote(now, was, more)
  {
    SameTail(mid, was, |out|, |more|);
  }

  lemma Written(now: seq<bv8>, was: seq<bv8>, out: seq<bv8>, at: nat)
    requires Wrote(now, was, out) && |out| <= at <= |now|
    ensures now[..|out|] == out && now[at..] == was[at..]
  {
    SameTail(now, was, |out|, at);
  }

  lemma SameTail(a: seq<bv8>, b: seq<bv8>, i: nat, j: nat)
    requires i <= j <= |a| == |b| && a[i..] == b[i..]
    ensures a[j..] == b[j..]
  {
    assert a[j..] == a[i..][j - i..] && b[j..] == b[i..][j - i..];
  }

  /** The padding and the terminator, after `datalength` characters. */
  method Finish(rest: seq<bv8>, target: array<bv8>, datalength: nat, targsize: nat) returns (r: int)
    requires |rest| < 3 && datalength <= targsize <= target.Length
    modifies target
    ensures r == (if targsize <= datalength + |Encode(rest)| then -1 else datalength + |Encode(rest)|)
    ensures r >= 0 ==> target[..r] == old(target[..datalength]) + Encode(rest) && target[r] == 0
    ensures target[targsize..] == old(target[targsize..])
    ensures r >= 0 ==> target[r + 1..] == old(target[r + 1..])
  {
    hide Encode, Symbol, Out0, Out1, Out2;
    EncodeNothing();
    r := datalength;
    if 0 != |rest| {
      var z: bv8 := 0;
      var input0 := rest[0];
      var input1 := if 1 < |rest| then rest[1] else z;
      EncodeRest(rest);
      if r + 4 > targsize {
        return -1;
      }
      Put4(target, r, Symbol(Out0(input0)), Symbol(Out1(input0, input1)),
           if |rest| == 1 then PAD else Symbol(Out2(input1, 0)), PAD);
      r := r + 4;
    }
    if r >= targsize {
      return -1;
    }
    target[r] := 0;
  }

  lemma EncodeNothing()
    ensures Encode([]) == []
  {
  }

  lemma QuantumIs(a: bv8, b: bv8, c: bv8)
    ensures Quantum(a, b, c) == [Symbol(Out0(a)), Symbol(Out1(a, b)), Symbol(Out2(b, c)), Symbol(Out3(c))]
  {
  }

  lemma EncodeRest(b: seq<bv8>)
    requires |b| == 1 || |b| == 2
    ensures |b| == 1 ==> Encode(b) == [Symbol(Out0(b[0])), Symbol(Out1(b[0], 0)), PAD, PAD]
    ensures |b| == 2 ==> Encode(b) == [Symbol(Out0(b[0])), Symbol(Out1(b[0], b[1])), Symbol(Out2(b[1], 0)), PAD]
  {
  }

  lemma EncodeLonger(b: seq<bv8>, at: nat)
    requires at <= |b| && at % 3 == 0
    ensures |Encode(b[..at])| <= |Encode(b)|
  {
    EncodeSplit(b, at);
  }

  method Put4(target: array<bv8>, at: nat, c0: bv8, c1: bv8, c2: bv8, c3: bv8)
    requires at + 4 <= target.Length
    modifies target
    ensures target[..at + 4] == old(target[..at]) + [c0, c1, c2, c3]
    ensures target[at + 4..] == old(target[at + 4..])
  {
    target[at] := c0;
    target[at + 1] := c1;
    target[at + 2] := c2;
    target[at + 3] := c3;
  }
}
