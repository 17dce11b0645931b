/** The bridge's ITU-T G.711 mu-law codec: mulawDecodeByte, mulawEncodeSample
    and the two sequence maps built on them (mulawDecode, mulawEncode).

    The JavaScript bit operations are written arithmetically on the
    non-negative values they apply to: `~u & 255` is `255 - u`, `x << e` is
    `x * Pow2(e)`, `x >> k` and `x >>> k` are `x / Pow2(k)`, `x & 15` is
    `x % 16`, a test `(s & m) === 0` of the single bit m is `(s / m) % 2 == 0`,
    and an `|` of fields occupying disjoint bits is their sum. */
module MuLaw {
  import opened Pcm

  /** MULAW_BIAS. */
  const Bias := 132
  /** The magnitude ceiling of mulawEncodeSample. */
  const Clip := 32767

  // ---------------------------------------------------------------------
  // Arithmetic helpers
  // ---------------------------------------------------------------------

  function Pow2(n: nat): (p: nat)
    ensures p >= 1
  {
    if n == 0 then 1 else 2 * Pow2(n - 1)
  }

  lemma {:induction false} Pow2Monotone(a: nat, b: nat)
    requires a <= b
    ensures Pow2(a) <= Pow2(b)
  {
    if a < b {
      Pow2Monotone(a, b - 1);
    }
  }

  lemma {:induction false} Pow2Add(a: nat, b: nat)
    ensures Pow2(a + b) == Pow2(a) * Pow2(b)
  {
    if b > 0 {
      Pow2Add(a, b - 1);
      assert Pow2(a + b) == 2 * Pow2(a + b - 1);
    }
  }

  /** Multiplication by a positive step keeps the order of factors. */
  lemma MulMonotone(a: int, b: int, p: nat)
    requires a <= b
    ensures a * p <= b * p
  {
  }

  /** The quotient of x by p is q exactly when qp <= x < (q+1)p. */
  lemma QuotientIs(x: nat, p: nat, q: nat)
    requires p > 0 && q * p <= x < q * p + p
    ensures x / p == q
  {
    var r := x / p;
    assert x == r * p + x % p;
    if r < q {
      MulMonotone(r + 1, q, p);
    } else if r > q {
      MulMonotone(q + 1, r, p);
    }
  }

  /** If the bit of weight p is clear in x < 2p, then x < p. */
  lemma BitClear(x: nat, p: nat)
    requires p > 0 && x < 2 * p && (x / p) % 2 == 0
    ensures x < p
  {
    if x >= p {
      QuotientIs(x, p, 1);
    }
  }

  /** If the bit of weight p is set in x, then x >= p. */
  lemma BitSet(x: nat, p: nat)
    requires p > 0 && (x / p) % 2 == 1
    ensures x >= p
  {
    if x < p {
      QuotientIs(x, p, 0);
    }
  }

  function Abs(x: int): nat
  {
    if x < 0 then -x else x
  }

  /** Math.max(-32768, Math.min(32767, x)). */
  function Clamp16(x: int): Sample
  {
    if x < -32768 then -32768 else if x > 32767 then 32767 else x
  }

  // ---------------------------------------------------------------------
  // Decoding
  // ---------------------------------------------------------------------

  /** ((m | 16) << 3) << e, that is m + 16 shifted left by e + 3: the
      reconstructed magnitude, before the bias. */
  function Expand(m: nat, e: nat): int
  {
    (m + 16) * Pow2(e + 3)
  }

  /** mulawDecodeByte before its clamp: invert, split into sign, exponent
      and mantissa, expand, subtract the bias and apply the sign. */
  function DecodeUnclamped(b: Byte): int
  {
    var u := 255 - b;
    var s := if u >= 128 then -1 else 1;
    var e := (u / 16) % 8;
    var m := u % 16;
    (Expand(m, e) - Bias) * s
  }

  /** Pow2 at the offsets the codec uses, relative to the segment step. */
  lemma Pow2Steps(e: nat)
    ensures Pow2(e + 3) == 8 * Pow2(e)
    ensures Pow2(e + 7) == 16 * Pow2(e + 3)
    ensures Pow2(e + 8) == 32 * Pow2(e + 3)
  {
    Pow2Add(e, 3);
    Pow2Add(e + 3, 4);
    Pow2Add(e + 3, 5);
  }

  /** The expanded magnitude of (m, e) is m + 16 whole segment steps. */
  lemma ExpandWindow(m: nat, e: nat)
    requires m < 16 && e <= 7
    ensures Pow2(e + 3) <= 1024
    ensures 16 * Pow2(e + 3) <= Expand(m, e) <= 31 * Pow2(e + 3)
    ensures Expand(m, e) / Pow2(e + 3) == m + 16
  {
    var p := Pow2(e + 3);
    Pow2Monotone(e + 3, 10);
    var x := Expand(m, e);
    MulMonotone(16, m + 16, p);
    MulMonotone(m + 16, 31, p);
    QuotientIs(x, p, m + 16);
  }

  /** The range of an expanded magnitude and its segment. */
  lemma ExpandFacts(m: nat, e: nat)
    requires m < 16 && e <= 7
    ensures Pow2(e + 3) <= 1024
    ensures 16 * Pow2(e + 3) <= Expand(m, e) < 32 * Pow2(e + 3)
    ensures Expand(m, e) / Pow2(e + 3) == m + 16
    ensures 128 <= Expand(m, e) <= 31744
    ensures (e > 0 || m > 0) ==> Expand(m, e) >= 136
    ensures Segment(Expand(m, e)) == e
  {
    ExpandWindow(m, e);
    var p := Pow2(e + 3);
    var x := Expand(m, e);
    MulMonotone(p, 1024, 31);
    Pow2Monotone(3, e + 3);
    if e > 0 {
      Pow2Monotone(4, e + 3);
    }
    Pow2Steps(e);
    SegmentUnique(x, e);
  }

  /** Encoding an expanded magnitude recovers its mantissa. */
  lemma MantissaOfExpand(m: nat, e: nat)
    requires m < 16 && e <= 7 && Expand(m, e) >= Bias
    ensures Expand(m, e) <= Clip && Mantissa(Expand(m, e)) == m
  {
    ExpandFacts(m, e);
    var x := Expand(m, e);
    assert Segment(x) == e;
    assert Mantissa(x) == (m + 16) % 16;
  }

  /** mulawDecodeByte. The clamp never applies: the decoded value lies in
      [-31612, 31612]; a byte with its top bit set decodes to at least -4,
      one with it clear to at most 4. */
  function DecodeByte(b: Byte): (r: Sample)
    ensures -31612 <= r <= 31612
    ensures r == DecodeUnclamped(b)
    ensures b >= 128 ==> r >= -4
    ensures b < 128 ==> r <= 4
  {
    var u := 255 - b;
    ExpandFacts(u % 16, (u / 16) % 8);
    Clamp16(DecodeUnclamped(b))
  }

  // ---------------------------------------------------------------------
  // Encoding
  // ---------------------------------------------------------------------

  /** The exponent G.711 gives a biased magnitude x: the segment whose
      upper end (256, 512, ..., 16384, then the 15-bit ceiling) first
      exceeds x. */
  function Segment(x: nat): (e: nat)
    ensures e <= 7
  {
    if x < 256 then 0
    else if x < 512 then 1
    else if x < 1024 then 2
    else if x < 2048 then 3
    else if x < 4096 then 4
    else if x < 8192 then 5
    else if x < 16384 then 6
    else 7
  }

  lemma Pow2Table()
    ensures Pow2(7) == 128 && Pow2(8) == 256 && Pow2(9) == 512 && Pow2(10) == 1024
    ensures Pow2(11) == 2048 && Pow2(12) == 4096 && Pow2(13) == 8192
    ensures Pow2(14) == 16384 && Pow2(15) == 32768
  {
  }

  /** A segment is the bit position of the leading one minus 7: below 15
      bits, x < 2^(e+8), and x >= 2^(e+7) above segment 0. */
  lemma SegmentWindow(x: nat)
    requires x < 32768
    ensures x < Pow2(Segment(x) + 8)
    ensures Segment(x) > 0 ==> Pow2(Segment(x) + 7) <= x
  {
    Pow2Table();
  }

  /** The segment window determines the segment. */
  lemma SegmentUnique(x: nat, e: nat)
    requires x < 32768 && e <= 7
    requires x < Pow2(e + 8)
    requires e > 0 ==> Pow2(e + 7) <= x
    ensures Segment(x) == e
  {
    SegmentWindow(x);
    var e' := Segment(x);
    if e < e' {
      Pow2Monotone(e + 8, e' + 7);
    } else if e' < e {
      Pow2Monotone(e' + 8, e + 7);
    }
  }

  /** The magnitude mulawEncodeSample compands: |s| + bias, capped. */
  function Biased(s: int): (x: nat)
    ensures Bias <= x <= Clip
  {
    if Abs(s) + Bias > Clip then Clip else Abs(s) + Bias
  }

  /** (x >>> (e + 3)) & 15 with e the segment of x: the four bits below
      the leading one (below bit 7 in segment 0). */
  function Mantissa(x: nat): (man: nat)
    requires Bias <= x <= Clip
    ensures man < 16
  {
    (x / Pow2(Segment(x) + 3)) % 16
  }

  /** ~(sign | (e << 4) | man) & 255. The decoder's field extraction
      (inversion, bit 7, bits 4..6, bits 0..3) reads the three fields back. */
  function Pack(sign: nat, e: nat, man: nat): (b: Byte)
    requires sign == 0 || sign == 128
    requires e <= 7 && man < 16
    ensures 255 - b == sign + 16 * e + man
    ensures var u := 255 - b;
            (u >= 128 <==> sign == 128) && (u / 16) % 8 == e && u % 16 == man
  {
    255 - (sign + 16 * e + man)
  }

  /** What mulawEncodeSample returns: sign, exponent and mantissa of the
      biased, capped magnitude, packed and inverted. The top bit of the
      byte is set exactly for non-negative samples. */
  function Compand(s: int): (r: Byte)
    ensures r >= 128 <==> s >= 0
  {
    var x := Biased(s);
    Pack(if s < 0 then 128 else 0, Segment(x), Mantissa(x))
  }

  /** A value between 16p and 32p has a quotient by p of 16..31, and
      loses less than p when truncated to a multiple of p. */
  lemma QuotientWindow(x: nat, p: nat)
    requires p > 0 && 16 * p <= x < 32 * p
    ensures 16 <= x / p < 32
    ensures (x / p) * p <= x < (x / p) * p + p
  {
  }

  /** The mantissa is the biased magnitude truncated to its segment step. */
  lemma MantissaWindow(x: nat)
    requires Bias <= x <= Clip
    ensures var e := Segment(x);
            Mantissa(x) + 16 == x / Pow2(e + 3)
            && Expand(Mantissa(x), e) <= x < Expand(Mantissa(x), e) + Pow2(e + 3)
  {
    var e := Segment(x);
    var p := Pow2(e + 3);
    SegmentWindow(x);
    Pow2Steps(e);
    if e == 0 {
      assert p == 8;
    }
    QuotientWindow(x, p);
    var q := x / p;
    assert q % 16 == q - 16;
    assert Mantissa(x) == q - 16;
    ExpandWindow(Mantissa(x), e);
  }

  /** The layout of an encoded byte: after inversion, bit 7 is the sign
      (set for negative samples) and bits 4..6 hold the segment of the
      biased magnitude. */
  lemma EncodedLayout(s: int)
    ensures (255 - Compand(s)) / 16 == (if s < 0 then 8 else 0) + Segment(Biased(s))
  {
    var x := Biased(s);
    PackHigh(if s < 0 then 128 else 0, Segment(x), Mantissa(x));
  }

  /** The inverted packed byte, shifted right by four, is the sign bit
      (as 8) plus the exponent. */
  lemma PackHigh(sign: nat, e: nat, man: nat)
    requires sign == 0 || sign == 128
    requires e <= 7 && man < 16
    ensures (255 - Pack(sign, e, man)) / 16 == sign / 16 + e
  {
    QuotientIs(255 - Pack(sign, e, man), 16, sign / 16 + e);
  }

  /** Encode after decode gives the byte back, except for the two
      zero-magnitude codes 0x7F and 0xFF, which decode to 4 and -4. */
  lemma EncodeAfterDecode(b: Byte)
    requires b != 0x7F && b != 0xFF
    ensures Compand(DecodeByte(b)) == b
  {
    var u := 255 - b;
    var e, m := (u / 16) % 8, u % 16;
    var sign := if u >= 128 then 128 else 0;
    assert u == sign + 16 * e + m;
    ExpandFacts(m, e);
    var x := Expand(m, e);
    assert x >= 136;
    var v := DecodeByte(b);
    assert v == DecodeUnclamped(b);
    assert v == (if u >= 128 then Bias - x else x - Bias);
    assert Biased(v) == x;
    MantissaOfExpand(m, e);
    assert Compand(v) == Pack(sign, e, m);
  }

  /** The two codes that encode-after-decode does not return. */
  lemma ZeroCodes()
    ensures DecodeByte(0x7F) == 4 && Compand(4) == 0xFE
    ensures DecodeByte(0xFF) == -4 && Compand(-4) == 0x7E
  {
    assert Pow2(3) == 8;
    assert Expand(0, 0) == 128;
    DecodeFields(0x7F, 128, 0, 0);
    DecodeFields(0xFF, 0, 0, 0);
    assert Biased(4) == 136 && Biased(-4) == 136;
    assert 136 / Pow2(3) == 17;
    assert Segment(136) == 0 && Mantissa(136) == 1;
  }

  /** Samples -3..3 bias to 132..135, which truncates to 128, so they
      encode to the two codes that decode to -4 and 4: non-negative ones
      come back as -4 and negative ones as +4. */
  lemma NearZero(s: int)
    requires -3 <= s <= 3
    ensures Compand(s) == (if s >= 0 then 0xFF else 0x7F)
    ensures DecodeByte(Compand(s)) == (if s >= 0 then -4 else 4)
  {
    assert Pow2(3) == 8;
    assert Segment(Biased(s)) == 0 && Biased(s) / 8 == 16;
    assert Expand(0, 0) == 128;
    DecodeFields(0x7F, 128, 0, 0);
    DecodeFields(0xFF, 0, 0, 0);
  }

  /** The decoder reads back the sign, exponent and mantissa fields. */
  lemma DecodeFields(b: Byte, sign: nat, e: nat, man: nat)
    requires sign == 0 || sign == 128
    requires e <= 7 && man < 16 && 255 - b == sign + 16 * e + man
    ensures DecodeByte(b) == if sign == 128 then Bias - Expand(man, e) else Expand(man, e) - Bias
  {
    var u := 255 - b;
    assert (u / 16) % 8 == e && u % 16 == man && (u >= 128 <==> sign == 128);
    assert DecodeByte(b) == DecodeUnclamped(b);
  }

  /** Decoding a companded sample gives the biased magnitude truncated to
      its segment step, unbiased, with the sample's sign. */
  lemma DecodeOfCompand(s: int)
    ensures var x := Biased(s);
            var y := Expand(Mantissa(x), Segment(x));
            && DecodeByte(Compand(s)) == (if s < 0 then Bias - y else y - Bias)
            && y <= x < y + Pow2(Segment(x) + 3)
            && Pow2(Segment(x) + 3) <= 1024 && y <= 31744
  {
    var x := Biased(s);
    var e, man := Segment(x), Mantissa(x);
    var sign := if s < 0 then 128 else 0;
    var b := Compand(s);
    assert b == Pack(sign, e, man);
    DecodeFields(b, sign, e, man);
    MantissaWindow(x);
    ExpandFacts(man, e);
  }

  /** The error arithmetic of decode after encode, on plain integers: x is
      the biased magnitude, y its truncation, p the segment step. */
  lemma TruncationError(s: Sample, x: int, y: int, p: int, d: int)
    requires x == (if Abs(s) + Bias > Clip then Clip else Abs(s) + Bias)
    requires d == (if s < 0 then Bias - y else y - Bias)
    requires y <= x < y + p && p <= 1024 && y <= 31744
    ensures s >= 0 ==> d <= s
    ensures s < 0 ==> d >= s
    ensures Abs(s) + Bias <= Clip ==> Abs(s - d) < p
    ensures Abs(s) + Bias > Clip ==> Abs(s - d) <= 1156
  {
  }

  /** Decode after encode never exceeds s for s >= 0 and never falls
      below it for s < 0: the biased magnitude is truncated to its segment
      step, so the error is less than that step (at most 1024) while
      |s| + 132 fits in 15 bits, and at most 1156 once the magnitude is
      capped. For |s| <= 3 the result crosses zero (see NearZero). */
  lemma DecodeAfterEncode(s: Sample)
    ensures var d := DecodeByte(Compand(s));
            && (s >= 0 ==> d <= s)
            && (s < 0 ==> d >= s)
            && (Abs(s) + Bias <= Clip ==> Abs(s - d) < Pow2(Segment(Abs(s) + Bias) + 3) <= 1024)
            && (Abs(s) + Bias > Clip ==> Abs(s - d) <= 1156)
  {
    var x := Biased(s);
    var e := Segment(x);
    var y := Expand(Mantissa(x), e);
    var p := Pow2(e + 3);
    var d := DecodeByte(Compand(s));
    DecodeOfCompand(s);
    assert d == (if s < 0 then Bias - y else y - Bias);
    assert y <= x < y + p && p <= 1024 && y <= 31744;
    TruncationError(s, x, y, p, d);
  }

  /** Where the downward exponent search stops (at e = 0, or at the first
      set bit of weight 2^(e+7) below the bits already seen clear), the
      packed fields are those of Compand. */
  lemma SearchStop(s: int, x: nat, e: nat, mask: nat)
    requires x == Biased(s)
    requires e <= 7 && mask == Pow2(e + 7) && x < Pow2(e + 8)
    requires e == 0 || (x / mask) % 2 == 1
    ensures e == Segment(x)
    ensures 255 - ((if s < 0 then 128 else 0) + 16 * e + (x / Pow2(e + 3)) % 16) == Compand(s)
  {
    if e > 0 {
      BitSet(x, mask);
    }
    SegmentUnique(x, e);
    assert (x / Pow2(e + 3)) % 16 == Mantissa(x);
  }

  /** mulawEncodeSample: bias and cap the magnitude, then search the
      exponent downward from 7 with a shifting one-bit mask. */
  method MulawEncodeSample(s: int) returns (b: Byte)
    ensures b == Compand(s)
  {
    var sign := if s < 0 then 128 else 0;
    var x := Abs(s) + Bias;
    if x > Clip {
      x := Clip;
    }
    assert x == Biased(s);
    var e := 7;
    var mask := 16384;
    Pow2Table();
    while e > 0 && (x / mask) % 2 == 0
      invariant 0 <= e <= 7 && mask == Pow2(e + 7)
      invariant x < Pow2(e + 8)
      decreases e
    {
      BitClear(x, mask);
      e, mask := e - 1, mask / 2;
    }
    SearchStop(s, x, e, mask);
    var man := (x / Pow2(e + 3)) % 16;
    b := 255 - (sign + 16 * e + man);
  }

  // ---------------------------------------------------------------------
  // Sequence maps
  // ---------------------------------------------------------------------

  /** Every byte decoded, in order. */
  function DecodeAll(ul: seq<Byte>): seq<Sample>
  {
    seq(|ul|, i requires 0 <= i < |ul| => DecodeByte(ul[i]))
  }

  /** Every sample companded, in order. */
  function CompandAll(i16: seq<Sample>): seq<Byte>
  {
    seq(|i16|, i requires 0 <= i < |i16| => Compand(i16[i]))
  }

  /** mulawDecode after its base64 step: one sample per byte. */
  method MulawDecode(ul: seq<Byte>) returns (pcm: seq<Sample>)
    ensures pcm == DecodeAll(ul)
  {
    var out := new Sample[|ul|](_ => 0);
    for i := 0 to |ul|
      invariant forall j :: 0 <= j < i ==> out[j] == DecodeByte(ul[j])
    {
      out[i] := DecodeByte(ul[i]);
    }
    pcm := out[..];
  }

  /** mulawEncode: one companded byte per sample. */
  method MulawEncode(i16: seq<Sample>) returns (out: seq<Byte>)
    ensures out == CompandAll(i16)
  {
    var buf := new Byte[|i16|](_ => 0);
    for i := 0 to |i16|
      invariant forall j :: 0 <= j < i ==> buf[j] == Compand(i16[j])
    {
      buf[i] := MulawEncodeSample(i16[i]);
    }
    out := buf[..];
  }
}
