/** Per-pixel decoding of the bit-plane frames (`binaryEncode`) and the
    projector-column estimate built from the decoded bits
    (`calculateProjectorX`), both in 02-structured-light-with-pbrt/src/main.cpp. */
module Decoder {
  import opened Pixels
  import opened Reductions
  import opened Binary

  /** The value that marks a pixel without a usable projector column. */
  const Sentinel: real := -1000.0

  /** Luminance of a pixel: a third (0.333) of each of the first three
      channels, each normalised by 255. */
  function Gray(p: Rgb): (g: real)
    ensures 0.0 <= g <= 0.999
  {
    0.333 * (p.r as real) / 255.0 + 0.333 * (p.g as real) / 255.0 + 0.333 * (p.b as real) / 255.0
  }

  /** The luminance of every frame of a pixel's stack. */
  function Grays(s: seq<Rgb>): (v: seq<real>)
    ensures |v| == |s| && forall k :: 0 <= k < |s| ==> v[k] == Gray(s[k])
  {
    seq(|s|, k requires 0 <= k < |s| => Gray(s[k]))
  }

  /** `minValue`: the reduction from 1.0 over frames 0..6 is the darkest of
      those frames. */
  function MinGray(s: seq<Rgb>): (m: real)
    requires |s| >= Frames
    ensures forall k :: 0 <= k < Frames ==> m <= Gray(s[k])
    ensures exists k :: 0 <= k < Frames && m == Gray(s[k])
  {
    RunningMinAttained(1.0, Grays(s), Frames);
    RunningMin(1.0, Grays(s), Frames)
  }

  /** `maxValue`: the reduction from 0.0 over frames 0..6 is the brightest
      of those frames. */
  function MaxGray(s: seq<Rgb>): (m: real)
    requires |s| >= Frames
    ensures forall k :: 0 <= k < Frames ==> m >= Gray(s[k])
    ensures exists k :: 0 <= k < Frames && m == Gray(s[k])
  {
    RunningMaxAttained(0.0, Grays(s), Frames);
    RunningMax(0.0, Grays(s), Frames)
  }

  /** The per-pixel decision level: the midpoint of the darkest and the
      brightest of frames 0..6. */
  function Threshold(s: seq<Rgb>): (t: real)
    requires |s| >= Frames
    ensures MinGray(s) <= t <= MaxGray(s)
  {
    (MaxGray(s) + MinGray(s)) / 2.0
  }

  /** `pixelValue`: frame `i` decodes to 1.0 exactly when its luminance is
      strictly above the pixel's decision level, and to 0.0 otherwise. */
  function Decode(s: seq<Rgb>): (bits: seq<real>)
    requires |s| >= Frames
    ensures |bits| == |s| && IsBinary(bits)
    ensures forall i :: 0 <= i < |s| ==> (bits[i] == 1.0 <==> Gray(s[i]) > Threshold(s))
  {
    seq(|s|, i requires 0 <= i < |s| => if Gray(s[i]) > Threshold(s) then 1.0 else 0.0)
  }

  /** A pixel whose luminance is the same in every frame carries no
      information: the strict comparison decodes every frame to 0. */
  lemma ConstantPixelDecodesToZero(s: seq<Rgb>)
    requires |s| >= Frames
    requires forall k :: 0 <= k < |s| ==> Gray(s[k]) == Gray(s[0])
    ensures forall i :: 0 <= i < |s| ==> Decode(s)[i] == 0.0
  {
    assert Threshold(s) == Gray(s[0]);
  }

  /** A pixel whose luminance varies over frames 0..6 decodes its brightest
      of those frames to 1 and its darkest to 0. */
  lemma VaryingPixelDecodesBothValues(s: seq<Rgb>)
    requires |s| >= Frames
    requires MinGray(s) < MaxGray(s)
    ensures exists i :: 0 <= i < Frames && Decode(s)[i] == 1.0
    ensures exists i :: 0 <= i < Frames && Decode(s)[i] == 0.0
  {
    var lo :| 0 <= lo < Frames && MinGray(s) == Gray(s[lo]);
    var hi :| 0 <= hi < Frames && MaxGray(s) == Gray(s[hi]);
    assert Decode(s)[hi] == 1.0;
    assert Decode(s)[lo] == 0.0;
  }

  /** `accumulated` after folding frames 0..n-1: the sum of bit i weighted
      by 2^(7 - i - 1). For 0/1 bits it is never negative and stays below
      the full weight 2^7 by at least the weight of the frames still to come,
      so after all seven frames it is at most 127. */
  function Accumulated(bits: seq<real>, n: nat): (acc: real)
    requires n <= Frames && n <= |bits|
    ensures IsBinary(bits[..n]) ==> 0.0 <= acc && acc + Pow2(Frames - n) as real <= 128.0
  {
    if n == 0 then 0.0
    else
      var previous := Accumulated(bits, n - 1);
      var weight := Pow2(Frames - (n - 1) - 1) as real;
      assert IsBinary(bits[..n]) ==> IsBinary(bits[..n - 1]) && (bits[n - 1] == 0.0 || bits[n - 1] == 1.0) by {
        assert forall k :: 0 <= k < n - 1 ==> bits[..n - 1][k] == bits[..n][k];
        assert bits[..n][n - 1] == bits[n - 1];
      }
      assert Pow2(Frames - (n - 1)) as real == 2.0 * weight;
      WeightedBitBounds(previous, bits[n - 1], weight);
      previous + bits[n - 1] * weight
  }

  /** Adding a 0/1 bit at weight w to a sum that leaves room for 2w below
      128 leaves room for w. */
  lemma WeightedBitBounds(previous: real, b: real, w: real)
    ensures (b == 0.0 || b == 1.0) && 0.0 <= w && 0.0 <= previous && previous + 2.0 * w <= 128.0 ==>
      0.0 <= previous + b * w && previous + b * w + w <= 128.0
  {
  }

  /** For 0/1 bits the weighted sum is the MSB-first integer of the bits
      folded so far, shifted left by the bits still to come; after all
      seven frames it is exactly that integer, a whole number in 0..127. */
  lemma {:induction false} AccumulatedIsCode(bits: seq<real>, n: nat)
    requires n <= Frames && n <= |bits| && IsBinary(bits[..n])
    ensures Accumulated(bits, n) == (Code(bits[..n]) * Pow2(Frames - n)) as real
  {
    if n > 0 {
      var prefix := bits[..n - 1];
      assert bits[..n][..n - 1] == prefix;
      assert IsBinary(prefix);
      AccumulatedIsCode(bits, n - 1);
      var p := Pow2(Frames - n);
      AccumulatedStep(bits, n);
      assert bits[..n][n - 1] == bits[n - 1];
      ShiftStep(Accumulated(bits, n - 1), bits[n - 1], Code(prefix), p, Code(bits[..n]));
    }
  }

  /** Folding one more frame adds its bit at the weight of that frame. */
  lemma AccumulatedStep(bits: seq<real>, n: nat)
    requires 0 < n <= Frames && n <= |bits|
    ensures Pow2(Frames - (n - 1)) == 2 * Pow2(Frames - n)
    ensures Accumulated(bits, n) == Accumulated(bits, n - 1) + bits[n - 1] * (Pow2(Frames - n) as real)
  {
  }

  /** One step of the fold: a sum equal to c shifted by one more place,
      plus bit b at weight p, is the code 2c + b shifted by p. */
  lemma ShiftStep(acc: real, b: real, c: int, p: int, code: int)
    requires acc == (c * (2 * p)) as real
    requires b == 0.0 || b == 1.0
    requires code == 2 * c + BitValue(b)
    ensures acc + b * (p as real) == (code * p) as real
  {
    assert c * (2 * p) == (2 * c) * p;
    assert (2 * c + 1) * p == (2 * c) * p + p;
  }

  /** `projectorNormalizedX` exactly as written: the sentinel when the
      accumulated code is 0 or when it is at least 1, and the code mapped
      onto [-1, 1] otherwise. Only a sum that is neither 0 nor at least 1
      escapes the sentinel, and the column it gives is below -125/127. */
  function ProjectorX(bits: seq<real>): (x: real)
    requires |bits| >= Frames
    ensures x == Sentinel ||
      (Accumulated(bits, Frames) != 0.0 && Accumulated(bits, Frames) < 1.0 && x < 2.0 / 127.0 - 1.0)
  {
    var acc := Accumulated(bits, Frames);
    var actualValueX := 2.0 * acc / 127.0 - 1.0;
    if acc == 0.0 then Sentinel
    else if acc >= 1.0 then Sentinel
    else actualValueX
  }

  /** The second guard compares the accumulated code with 1 instead of
      with the top code 127, and every 0/1 code is a whole number: as
      written, every code yields the sentinel. */
  lemma ProjectorXAlwaysSentinel(bits: seq<real>)
    requires |bits| >= Frames && IsBinary(bits[..Frames])
    ensures ProjectorX(bits) == Sentinel
  {
    AccumulatedIsCode(bits, Frames);
  }

  /** In particular every pixel's decoded stack gives the sentinel. */
  lemma DecodedProjectorXIsSentinel(s: seq<Rgb>)
    requires |s| >= Frames
    ensures ProjectorX(Decode(s)) == Sentinel
  {
    var bits := Decode(s);
    assert IsBinary(bits[..Frames]);
    ProjectorXAlwaysSentinel(bits);
  }

  /** The estimator with its second guard at the top code 127, the code
      that `2 * acc / 127 - 1` maps onto 1: the sentinel only for the
      all-zero code and the top code; for any other 0/1 code k, the
      projector column 2k/127 - 1, strictly inside (-1, 1). */
  function ProjectorXIntended(bits: seq<real>): (x: real)
    requires |bits| >= Frames
    ensures IsBinary(bits[..Frames]) ==>
      var k := Code(bits[..Frames]);
      && (x == Sentinel <==> k == 0 || k == 127)
      && (x != Sentinel ==> -1.0 < x < 1.0 && x == 2.0 * (k as real) / 127.0 - 1.0)
  {
    FinalSumIsCode(bits);
    var acc := Accumulated(bits, Frames);
    var actualValueX := 2.0 * acc / 127.0 - 1.0;
    if acc == 0.0 then Sentinel else if acc >= 127.0 then Sentinel else actualValueX
  }

  /** After all seven frames, the sum of 0/1 bits is their code. */
  lemma FinalSumIsCode(bits: seq<real>)
    requires |bits| >= Frames
    ensures IsBinary(bits[..Frames]) ==> Accumulated(bits, Frames) == Code(bits[..Frames]) as real
  {
    if IsBinary(bits[..Frames]) {
      AccumulatedIsCode(bits, Frames);
    }
  }

  /** The (corrected) projector column of a pixel's frame stack: the
      sentinel exactly when the decoded code is 0 or 127, and otherwise a
      column strictly inside (-1, 1). */
  function PixelProjectorX(s: seq<Rgb>): (x: real)
    requires |s| >= Frames
    ensures var k := Code(Decode(s)[..Frames]);
            && (x == Sentinel <==> k == 0 || k == 127)
            && (x != Sentinel ==> -1.0 < x < 1.0)
  {
    var bits := Decode(s);
    assert IsBinary(bits[..Frames]);
    ProjectorXIntended(bits)
  }

  /** Column round trip: the seven bits that spell k give back 2k/127 - 1
      for every k in 1..126, and the sentinel for 0 and 127. */
  lemma IntendedColumnOfCode(k: nat)
    requires k < Pow2(Frames)
    ensures ProjectorXIntended(Encode(k, Frames)) ==
      if k == 0 || k == 127 then Sentinel else 2.0 * (k as real) / 127.0 - 1.0
  {
    var bits := Encode(k, Frames);
    assert bits[..Frames] == bits;
    CodeOfEncode(k, Frames);
  }
}
