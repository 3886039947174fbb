/** Per-pixel colour estimate (`calculateColor` in
    02-structured-light-with-pbrt/src/main.cpp): for each channel, the
    midpoint of the darkest and brightest normalised sample over frames 0..6. */
module Color {
  import opened Pixels
  import opened Reductions

  /** Channel `c` of every frame of a pixel's stack, divided by 255. */
  function Samples(s: seq<Rgb>, c: nat): (v: seq<real>)
    requires c < 3
    ensures |v| == |s|
    ensures forall k :: 0 <= k < |s| ==> v[k] == (Sample(s[k], c) as real) / 255.0
  {
    seq(|s|, k requires 0 <= k < |s| => (Sample(s[k], c) as real) / 255.0)
  }

  /** `minColor`: the reduction from 1.0 is the smallest of frames 0..6. */
  function MinColor(s: seq<Rgb>, c: nat): (m: real)
    requires |s| >= Frames && c < 3
    ensures forall k :: 0 <= k < Frames ==> m <= Samples(s, c)[k]
    ensures exists k :: 0 <= k < Frames && m == Samples(s, c)[k]
  {
    RunningMinAttained(1.0, Samples(s, c), Frames);
    RunningMin(1.0, Samples(s, c), Frames)
  }

  /** `maxColor`: the reduction from 0.0 is the largest of frames 0..6. */
  function MaxColor(s: seq<Rgb>, c: nat): (m: real)
    requires |s| >= Frames && c < 3
    ensures forall k :: 0 <= k < Frames ==> m >= Samples(s, c)[k]
    ensures exists k :: 0 <= k < Frames && m == Samples(s, c)[k]
  {
    RunningMaxAttained(0.0, Samples(s, c), Frames);
    RunningMax(0.0, Samples(s, c), Frames)
  }

  /** `color`: half the sum of the channel's minimum and maximum. It lies
      between them, hence in [0, 1]. */
  function ColorOf(s: seq<Rgb>, c: nat): (v: real)
    requires |s| >= Frames && c < 3
    ensures MinColor(s, c) <= v <= MaxColor(s, c)
    ensures 0.0 <= v <= 1.0
  {
    0.5 * (MinColor(s, c) + MaxColor(s, c))
  }

  /** The estimate of all three channels, as red, green and blue. */
  function PixelColor(s: seq<Rgb>): (rgb: (real, real, real))
    requires |s| >= Frames
    ensures 0.0 <= rgb.0 <= 1.0 && 0.0 <= rgb.1 <= 1.0 && 0.0 <= rgb.2 <= 1.0
  {
    (ColorOf(s, 0), ColorOf(s, 1), ColorOf(s, 2))
  }

  /** Frames `lo` and `hi` hold the smallest and the largest sample of
      channel `c` among frames 0..6, and the estimate is their midpoint. */
  predicate IsMidpointOfExtremes(s: seq<Rgb>, c: nat, lo: int, hi: int)
    requires |s| >= Frames && c < 3
  {
    && 0 <= lo < Frames && 0 <= hi < Frames
    && (forall k :: 0 <= k < Frames ==> Sample(s[lo], c) <= Sample(s[k], c) <= Sample(s[hi], c))
    && ColorOf(s, c) == ((Sample(s[lo], c) + Sample(s[hi], c)) as real) / 510.0
  }

  /** The estimate depends on the stack only through its extremes: it is
      the midpoint of two of frames 0..6, one no brighter and one no darker
      than every other of those frames, whatever the frames in between. */
  lemma ColorIsMidpointOfExtremes(s: seq<Rgb>, c: nat)
    requires |s| >= Frames && c < 3
    ensures exists lo, hi :: IsMidpointOfExtremes(s, c, lo, hi)
  {
    var v := Samples(s, c);
    var lo :| 0 <= lo < Frames && MinColor(s, c) == v[lo];
    var hi :| 0 <= hi < Frames && MaxColor(s, c) == v[hi];
    forall k | 0 <= k < Frames
      ensures Sample(s[lo], c) <= Sample(s[k], c) <= Sample(s[hi], c)
    {
      assert MinColor(s, c) <= v[k] <= MaxColor(s, c);
    }
    assert IsMidpointOfExtremes(s, c, lo, hi);
  }
}
