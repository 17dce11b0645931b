/** Linear PCM samples as the bridge holds them: the byte and int16 types,
    concatenation of sample chunks (catI16) and little-endian int16
    serialisation (i16ToB64 / b64ToI16, with the base64 text represented by
    the bytes it encodes). */
module Pcm {

  /** One octet of a Node Buffer. */
  type Byte = x: int | 0 <= x < 256

  /** One element of an Int16Array: a signed 16-bit linear sample. */
  type Sample = x: int | -32768 <= x < 32768

  // ---------------------------------------------------------------------
  // Concatenation of sample chunks
  // ---------------------------------------------------------------------

  /** The chunks laid end to end, in order. */
  function Flatten(chs: seq<seq<Sample>>): seq<Sample>
  {
    if chs == [] then [] else Flatten(chs[..|chs| - 1]) + chs[|chs| - 1]
  }

  /** The sum of the chunk lengths (the first loop of catI16). */
  function TotalLength(chs: seq<seq<Sample>>): nat
  {
    if chs == [] then 0 else TotalLength(chs[..|chs| - 1]) + |chs[|chs| - 1]|
  }

  /** Concatenation keeps the exact sample count. */
  lemma {:induction false} FlattenLength(chs: seq<seq<Sample>>)
    ensures |Flatten(chs)| == TotalLength(chs)
  {
    if chs != [] {
      FlattenLength(chs[..|chs| - 1]);
    }
  }

  /** Concatenating two runs of chunks is concatenating their concatenations. */
  lemma {:induction false} FlattenAppend(a: seq<seq<Sample>>, b: seq<seq<Sample>>)
    ensures Flatten(a + b) == Flatten(a) + Flatten(b)
  {
    if b == [] {
      assert a + b == a;
    } else {
      var b' := b[..|b| - 1];
      assert (a + b)[..|a + b| - 1] == a + b';
      FlattenAppend(a, b');
    }
  }

  /** A single chunk concatenates to itself. */
  lemma FlattenOne(c: seq<Sample>)
    ensures Flatten([c]) == c
  {
    assert [c][..0] == [];
  }

  /** Appending a chunk appends its samples. */
  lemma FlattenPush(chs: seq<seq<Sample>>, c: seq<Sample>)
    ensures Flatten(chs + [c]) == Flatten(chs) + c
  {
    assert (chs + [c])[..|chs|] == chs;
  }

  /** Chunk i sits in the concatenation right after the chunks before it. */
  lemma ChunkAt(chs: seq<seq<Sample>>, i: nat)
    requires i < |chs|
    ensures TotalLength(chs[..i]) + |chs[i]| <= |Flatten(chs)|
    ensures Flatten(chs)[TotalLength(chs[..i]) .. TotalLength(chs[..i]) + |chs[i]|] == chs[i]
  {
    var before, rest := chs[..i], chs[i + 1..];
    assert chs == before + [chs[i]] + rest;
    FlattenAppend(before + [chs[i]], rest);
    FlattenAppend(before, [chs[i]]);
    assert [chs[i]][..0] == chs[..0];
    assert Flatten([chs[i]]) == chs[i];
    FlattenLength(before);
  }

  /** One more chunk extends the concatenation of a prefix, within the whole. */
  lemma PrefixStep(chs: seq<seq<Sample>>, i: nat)
    requires i < |chs|
    ensures Flatten(chs[..i + 1]) == Flatten(chs[..i]) + chs[i]
    ensures |Flatten(chs[..i + 1])| <= |Flatten(chs)|
  {
    assert chs[..i + 1][..i] == chs[..i];
    assert chs == chs[..i + 1] + chs[i + 1..];
    FlattenAppend(chs[..i + 1], chs[i + 1..]);
  }

  /** catI16: sums the lengths, allocates the output and copies each chunk
      at its running offset. */
  method CatI16(chs: seq<seq<Sample>>) returns (r: seq<Sample>)
    ensures r == Flatten(chs)
  {
    var n := 0;
    for i := 0 to |chs|
      invariant n == TotalLength(chs[..i])
    {
      assert chs[..i + 1][..i] == chs[..i];
      n := n + |chs[i]|;
    }
    assert chs[..|chs|] == chs;
    FlattenLength(chs);
    var out := new Sample[n](_ => 0);
    var o := 0;
    for i := 0 to |chs|
      invariant o == |Flatten(chs[..i])| <= n
      invariant out[..o] == Flatten(chs[..i])
    {
      var c := chs[i];
      PrefixStep(chs, i);
      ghost var done := out[..o];
      forall k | 0 <= k < |c| {
        out[o + k] := c[k];
      }
      assert out[..o] == done;
      assert out[..o + |c|] == done + c;
      o := o + |c|;
    }
    r := out[..o];
  }

  // ---------------------------------------------------------------------
  // Little-endian int16 framing
  // ---------------------------------------------------------------------

  /** Low byte of the two's-complement form of v (writeInt16LE, offset 0). */
  function Lo(v: Sample): Byte
  {
    (v % 65536) % 256
  }

  /** High byte of the two's-complement form of v (writeInt16LE, offset 1). */
  function Hi(v: Sample): Byte
  {
    (v % 65536) / 256
  }

  /** readInt16LE: the signed value of a low byte and a high byte. */
  function FromPair(lo: Byte, hi: Byte): Sample
  {
    var u := lo + 256 * hi;
    if u >= 32768 then u - 65536 else u
  }

  /** The byte image that i16ToB64 writes before base64: sample i at bytes
      2i (low) and 2i+1 (high). */
  function ToLE(s: seq<Sample>): seq<Byte>
  {
    seq(2 * |s|, k requires 0 <= k < 2 * |s| => if k % 2 == 0 then Lo(s[k / 2]) else Hi(s[k / 2]))
  }

  /** The samples that b64ToI16 reads from a decoded byte buffer: one per
      complete byte pair, a trailing odd byte ignored. */
  function FromLE(b: seq<Byte>): seq<Sample>
  {
    seq(|b| / 2, i requires 0 <= i < |b| / 2 => FromPair(b[2 * i], b[2 * i + 1]))
  }

  lemma PairRoundTrip(v: Sample)
    ensures FromPair(Lo(v), Hi(v)) == v
  {
  }

  lemma BytesRoundTrip(lo: Byte, hi: Byte)
    ensures Lo(FromPair(lo, hi)) == lo && Hi(FromPair(lo, hi)) == hi
  {
  }

  /** int16 -> LE bytes -> int16 is the identity. */
  lemma SamplesRoundTrip(s: seq<Sample>)
    ensures FromLE(ToLE(s)) == s
  {
    var t := ToLE(s);
    assert |FromLE(t)| == |s|;
    forall i | 0 <= i < |s|
      ensures FromLE(t)[i] == s[i]
    {
      assert (2 * i) % 2 == 0 && (2 * i) / 2 == i && (2 * i + 1) / 2 == i;
      assert t[2 * i] == Lo(s[i]) && t[2 * i + 1] == Hi(s[i]);
      assert FromLE(t)[i] == FromPair(t[2 * i], t[2 * i + 1]);
      PairRoundTrip(s[i]);
    }
  }

  /** Even-length bytes -> int16 -> LE bytes is the identity. */
  lemma BytesRoundTripAll(b: seq<Byte>)
    requires |b| % 2 == 0
    ensures ToLE(FromLE(b)) == b
  {
    var s := FromLE(b);
    forall k | 0 <= k < |b|
      ensures ToLE(s)[k] == b[k]
    {
      var i := k / 2;
      assert s[i] == FromPair(b[2 * i], b[2 * i + 1]);
      BytesRoundTrip(b[2 * i], b[2 * i + 1]);
    }
  }

  /** i16ToB64 without its base64 step: Buffer.alloc(2n) filled by
      writeInt16LE at offsets 0, 2, 4, ... */
  method I16ToB64(i16: seq<Sample>) returns (bytes: seq<Byte>)
    ensures bytes == ToLE(i16)
  {
    var buf := new Byte[2 * |i16|](_ => 0);
    for i := 0 to |i16|
      invariant forall k :: 0 <= k < 2 * i ==> buf[k] == ToLE(i16)[k]
    {
      buf[2 * i] := Lo(i16[i]);
      buf[2 * i + 1] := Hi(i16[i]);
    }
    bytes := buf[..];
  }

  /** b64ToI16 after its base64 step: an Int16Array of floor(|bytes| / 2)
      elements filled by readInt16LE at offsets 0, 2, 4, ... */
  method B64ToI16(bytes: seq<Byte>) returns (i16: seq<Sample>)
    ensures i16 == FromLE(bytes)
  {
    var out := new Sample[|bytes| / 2](_ => 0);
    for i := 0 to out.Length
      invariant forall j :: 0 <= j < i ==> out[j] == FromPair(bytes[2 * j], bytes[2 * j + 1])
    {
      out[i] := FromPair(bytes[2 * i], bytes[2 * i + 1]);
    }
    i16 := out[..];
  }
}
