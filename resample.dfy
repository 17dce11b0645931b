/** The naive 8 kHz <-> 16 kHz resampler of the bridge: up8to16 (doubling
    with pairwise floor averages) and down16to8 (even-index decimation). */
module Resample {
  import opened Pcm

  /** `(a + b) >> 1` on two int16 values: the floor of their mean (the
      shift floors, and so does Dafny's division by a positive divisor). */
  function FloorMean(a: Sample, b: Sample): (m: Sample)
    ensures a <= b ==> a <= m <= b
    ensures b <= a ==> b <= m <= a
  {
    (a + b) / 2
  }

  /** What up8to16 computes, pair by pair: each sample followed by the
      floor mean with its successor; the last sample s yields [0, s],
      because the code writes only the final slot of the output (the slot
      before it keeps the 0 of a fresh Int16Array). */
  function Upsample(s: seq<Sample>): (r: seq<Sample>)
    ensures |r| == 2 * |s|
  {
    if |s| == 0 then []
    else if |s| == 1 then [0, s[0]]
    else [s[0], FloorMean(s[0], s[1])] + Upsample(s[1..])
  }

  /** The value up8to16 leaves in output slot k. */
  function UpSlot(s: seq<Sample>, k: nat): Sample
    requires k < 2 * |s|
  {
    if k == 2 * |s| - 1 then s[|s| - 1]
    else if k == 2 * |s| - 2 then 0
    else if k % 2 == 0 then s[k / 2]
    else FloorMean(s[k / 2], s[k / 2 + 1])
  }

  /** Slot 2i holds s[i] and slot 2i+1 the floor mean of s[i] and s[i+1],
      for i < n-1; slot 2n-2 is 0 and slot 2n-1 holds s[n-1]. */
  lemma {:induction false} UpsampleAt(s: seq<Sample>, k: nat)
    requires k < 2 * |s|
    ensures Upsample(s)[k] == UpSlot(s, k)
  {
    if |s| >= 2 {
      var t := s[1..];
      assert Upsample(s) == [s[0], FloorMean(s[0], s[1])] + Upsample(t);
      if k >= 2 {
        UpsampleAt(t, k - 2);
        assert Upsample(s)[k] == Upsample(t)[k - 2];
        assert (k - 2) / 2 + 1 == k / 2 && (k - 2) % 2 == k % 2;
      }
    }
  }

  /** What down16to8 computes: every even-index sample, a trailing odd
      sample dropped. */
  function Downsample(s: seq<Sample>): (r: seq<Sample>)
    ensures |r| == |s| / 2
  {
    if |s| < 2 then [] else [s[0]] + Downsample(s[2..])
  }

  /** Output sample j of down16to8 is input sample 2j. */
  lemma {:induction false} DownsampleAt(s: seq<Sample>, j: nat)
    requires j < |s| / 2
    ensures Downsample(s)[j] == s[2 * j]
  {
    if j > 0 {
      DownsampleAt(s[2..], j - 1);
    }
  }

  /** Decimating a concatenation whose first part has even length
      decimates each part. */
  lemma {:induction false} DownsampleAppend(a: seq<Sample>, b: seq<Sample>)
    requires |a| % 2 == 0
    ensures Downsample(a + b) == Downsample(a) + Downsample(b)
  {
    if a == [] {
      assert a + b == b;
    } else {
      assert (a + b)[2..] == a[2..] + b;
      DownsampleAppend(a[2..], b);
    }
  }

  /** down16to8(up8to16(s)) is s with its last sample replaced by 0. */
  lemma {:induction false} DownUp(s: seq<Sample>)
    ensures Downsample(Upsample(s)) == if s == [] then [] else s[..|s| - 1] + [0]
  {
    if |s| >= 2 {
      var u := Upsample(s);
      assert u[2..] == Upsample(s[1..]);
      DownUp(s[1..]);
      assert s[..|s| - 1] == [s[0]] + s[1..][..|s| - 2];
    }
  }

  /** up8to16: an Int16Array of 2n zeros, the pair loop over i < n-1, then
      the last slot set to s[n-1] (a write to index -1 of an empty typed
      array is ignored, hence the guard). */
  method Up8To16(i8: seq<Sample>) returns (r: seq<Sample>)
    ensures r == Upsample(i8)
  {
    var n := |i8|;
    var out := new Sample[2 * n](_ => 0);
    var i := 0;
    while i < n - 1
      invariant 0 <= i <= if n == 0 then 0 else n - 1
      invariant forall k :: 0 <= k < 2 * i ==> out[k] == UpSlot(i8, k)
      invariant forall k :: 2 * i <= k < 2 * n ==> out[k] == 0
    {
      var a, b := i8[i], i8[i + 1];
      out[2 * i] := a;
      out[2 * i + 1] := FloorMean(a, b);
      i := i + 1;
    }
    if out.Length > 0 {
      out[out.Length - 1] := i8[n - 1];
    }
    forall k | 0 <= k < 2 * n
      ensures out[k] == Upsample(i8)[k]
    {
      UpsampleAt(i8, k);
    }
    r := out[..];
  }

  /** down16to8: an Int16Array of floor(m/2) elements, out[j] = i16[2j]. */
  method Down16To8(i16: seq<Sample>) returns (r: seq<Sample>)
    ensures r == Downsample(i16)
  {
    var out := new Sample[|i16| / 2](_ => 0);
    var i, j := 0, 0;
    while j < out.Length
      invariant 0 <= j <= out.Length && i == 2 * j
      invariant forall t :: 0 <= t < j ==> out[t] == i16[2 * t]
    {
      out[j] := i16[i];
      i, j := i + 2, j + 1;
    }
    forall t | 0 <= t < out.Length
      ensures out[t] == Downsample(i16)[t]
    {
      DownsampleAt(i16, t);
    }
    r := out[..];
  }
}
