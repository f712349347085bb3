/** Streams of RRE and CoRRE rectangles, and what the decoders make of them. */
module RreStreams {
  import opened Wrappers
  import opened Octets
  import opened Canvas
  import opened Rre

  /** Each pixel shows the last subrectangle that covers it, or else the background, or what was outside the rectangle. */
  lemma RrePixels(s: Screen, width: nat, height: nat, rect: Box, bpp: nat, k: nat)
    requires width > 0 && k < |s.canvas| && DecodeRre(s, width, height, rect, bpp).Some?
    ensures |DecodeRre(s, width, height, rect, bpp).value.canvas| == |s.canvas|
    ensures var n, bg, body := NSubrects(s.input), s.input[4..4 + bpp], s.input[4 + bpp..];
            && n * (bpp + 8) <= |body|
            && DecodeRre(s, width, height, rect, bpp).value.canvas[k]
            == Shade(WideSubs(Chop(body, bpp + 8, n), bpp), width, height, rect.x, rect.y, k,
                     if Hits(rect, width, height, k) then bg else s.canvas[k])
  {
    hide Chop, Big;
    var n, bg, body := NSubrects(s.input), s.input[4..4 + bpp], s.input[4 + bpp..];
    PaintShade(Fill(s.canvas, width, height, rect, bg), width, height, rect.x, rect.y, WideSubs(Chop(body, bpp + 8, n), bpp), k);
  }

  function Wide(b: byte): (r: seq<byte>)
    ensures |r| == 2
  {
    [0, b]
  }

  /** A CoRRE subrectangle with its four bytes widened to numbers of two bytes. */
  function Widened(c: seq<byte>, bpp: nat): (r: seq<byte>)
    requires |c| == bpp + 4
    ensures |r| == bpp + 8
  {
    c[..bpp] + (Wide(c[bpp]) + (Wide(c[bpp + 1]) + (Wide(c[bpp + 2]) + Wide(c[bpp + 3]))))
  }

  function WidenedAll(chunks: seq<seq<byte>>, bpp: nat): (r: seq<seq<byte>>)
    requires forall i :: 0 <= i < |chunks| ==> |chunks[i]| == bpp + 4
    ensures |r| == |chunks| && forall i :: 0 <= i < |r| ==> |r[i]| == bpp + 8
  {
    seq(|chunks|, i requires 0 <= i < |chunks| => Widened(chunks[i], bpp))
  }

  lemma BigWide(b: byte)
    ensures Big(Wide(b)) == Int(b)
  {
    assert Wide(b)[..1] == [0] && [0 as byte][..0] == [];
    assert Big([0 as byte]) == Big([]) * 256 + Int(0);
  }

  lemma WidenedSub(c: seq<byte>, bpp: nat)
    requires |c| == bpp + 4
    ensures WideBox(Widened(c, bpp)[bpp..]) == SmallBox(c[bpp..]) && Widened(c, bpp)[..bpp] == c[..bpp]
  {
    hide Big, Int;
    var (p, q, r, s) := (Wide(c[bpp]), Wide(c[bpp + 1]), Wide(c[bpp + 2]), Wide(c[bpp + 3]));
    BigWide(c[bpp]);
    BigWide(c[bpp + 1]);
    BigWide(c[bpp + 2]);
    BigWide(c[bpp + 3]);
    var all := Widened(c, bpp)[bpp..];
    assert all == p + (q + (r + s));
    assert all[..2] == p && all[2..4] == q && all[4..6] == r && all[6..] == s;
  }

  lemma WidenedSubs(chunks: seq<seq<byte>>, bpp: nat)
    requires forall i :: 0 <= i < |chunks| ==> |chunks[i]| == bpp + 4
    ensures WideSubs(WidenedAll(chunks, bpp), bpp) == SmallSubs(chunks, bpp)
  {
    hide WideBox, SmallBox, Widened;
    forall i | 0 <= i < |chunks|
      ensures WideSubs(WidenedAll(chunks, bpp), bpp)[i] == SmallSubs(chunks, bpp)[i]
    {
      WidenedSub(chunks[i], bpp);
    }
  }

  /** The RRE stream that says what a CoRRE stream says. */
  function Widen(input: seq<byte>, bpp: nat): seq<byte>
    requires |input| >= 4 + bpp && NSubrects(input) * (bpp + 4) <= |input[4 + bpp..]|
  {
    input[..4 + bpp] + Flat(WidenedAll(Chop(input[4 + bpp..], bpp + 4, NSubrects(input)), bpp))
  }

  /** CoRRE decoding is RRE decoding of the widened stream. */
  lemma CorreIsRre(s: Screen, width: nat, height: nat, rect: Box, bpp: nat)
    requires width > 0 && DecodeCorre(s, width, height, rect, bpp).Some?
    ensures var d := DecodeCorre(s, width, height, rect, bpp).value;
            NSubrects(s.input) * (bpp + 4) <= |s.input[4 + bpp..]|
            && DecodeRre(Screen(Widen(s.input, bpp) + d.input, s.canvas), width, height, rect, bpp) == Some(d)
  {
    hide Chop, Big, WidenedAll, WideSubs, SmallSubs, Flat, Painted;
    var n, body := NSubrects(s.input), s.input[4 + bpp..];
    var d := DecodeCorre(s, width, height, rect, bpp).value;
    var chunks := Chop(body, bpp + 4, n);
    var pieces := WidenedAll(chunks, bpp);
    var wide := Widen(s.input, bpp) + d.input;
    WidenedSubs(chunks, bpp);
    FlatChop(pieces, bpp + 8, d.input);
    assert wide == s.input[..4 + bpp] + (Flat(pieces) + d.input);
    assert wide[..4] == s.input[..4] && wide[4..4 + bpp] == s.input[4..4 + bpp];
    assert wide[4 + bpp..] == Flat(pieces) + d.input;
  }
}
