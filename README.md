# Structured-light reconstruction, modelled in Dafny

This project models the per-pixel arithmetic of the structured-light
scanner in `02-structured-light-with-pbrt/src/main.cpp` and the stripe rule
of the pattern generator
`01-structured-light-with-blender-and-halide/scripts/create_patterns.py`.
It proves properties of that model.

The scanner works in stages:

- A camera films a scene lit by seven binary stripe patterns.
- Each pixel's seven frames are thresholded into seven bits (`binaryEncode`).
- The bits are read as a most-significant-bit-first code. The code becomes
  a normalised projector column, or the sentinel -1000 (`calculateProjectorX`).
- Each pixel gets a camera ray and a projector ray (`findCameraLine`,
  `findProjectorLine`, the two unproject lambdas). The rays are intersected
  in the x-z plane (`intersect`).
- The intersection and a colour estimate (`calculateColor`) fill six output
  channels. A row-major loop keeps the points whose coordinates all lie in
  [-10, 10].

Modules, one concept each:

| file | module | models |
|---|---|---|
| `pixels.dfy` | `Pixels` | an RGB sample of one frame; the frame count 7 |
| `options.dfy` | `Options` | `Option`, where `None` stands for a non-finite float result |
| `vectors.dfy` | `Vectors` | homogeneous 4-vectors and 4x4 matrices over the reals |
| `reductions.dfy` | `Reductions` | Halide min/max reductions over `RDom(0, 7)`, as left folds from their initial values |
| `binary.dfy` | `Binary` | MSB-first codes: `Code` reads bits, `Encode` writes them |
| `decoder.dfy` | `Decoder` | `binaryEncode` and `calculateProjectorX` |
| `color.dfy` | `Color` | `calculateColor` |
| `rays.dfy` | `Rays` | NDC mapping, unprojection, camera and projector lines |
| `triangulation.dfy` | `Triangulation` | `intersect` |
| `pipeline.dfy` | `Pipeline` | the per-pixel composition into the six-channel result |
| `assembly.dfy` | `Assembly` | the volume filter and point-list loop over the realised buffer (a method over `array3<real>`) |
| `patterns.dfy` | `Patterns` | the stripe rule and the filling of the pattern array (a method over `array3<real>`) |

Floats are modelled as reals. A division by zero (w = 0 in a dehomogenisation,
or parallel rays in `intersect`) yields `None` where the source would produce
infinities or NaN.

The column estimator at `main.cpp:97` guards with `accumulated >= 1.0`. As
written, this sends every 0/1 code to the sentinel. The estimator's own
arithmetic points to a different bound. `2 * accumulated / 127 - 1` at
`main.cpp:92` maps the codes 0..127 onto [-1, 1]: 127 is the top of the
7-bit range. The first guard, `accumulated == 0` at `main.cpp:95`, singles
out the all-zero code, the bottom of that range. The second guard is
therefore read as a test for the top code 127. `Decoder.ProjectorX` models
the code as written, and a lemma shows the consequence.
`Decoder.ProjectorXIntended` puts the second guard at 127. `Pipeline.PixelOutput`
takes the column as a parameter, so it covers both estimators. See
"## Findings".

## Model

| member | source | states |
|---|---|---|
| `Reductions.RunningMin` | 02-structured-light-with-pbrt/src/main.cpp:75-78 | the min reduction from its initial value is at most the initial value and every folded value, and equals one of them |
| `Reductions.RunningMax` | 02-structured-light-with-pbrt/src/main.cpp:76-79 | the max reduction is at least the initial value and every folded value, and equals one of them |
| `Reductions.RunningMinAttained` | 02-structured-light-with-pbrt/src/main.cpp:75-78 | when no value exceeds the initial 1.0, the minimum is one of the seven values; the initial value never shows through |
| `Reductions.RunningMaxAttained` | 02-structured-light-with-pbrt/src/main.cpp:76-79 | when no value is below the initial 0.0, the maximum is one of the seven values |
| `Binary.Code` | 02-structured-light-with-pbrt/src/main.cpp:87-91 | an MSB-first code of n bits is below 2^n |
| `Binary.Encode` | 02-structured-light-with-pbrt/src/main.cpp:87-91 | spelling an integer in n bits gives n entries, each 0 or 1 |
| `Binary.CodeOfEncode` | 02-structured-light-with-pbrt/src/main.cpp:87-91 | reading back the n-bit spelling of any k < 2^n gives k |
| `Binary.EncodeOfCode` | 02-structured-light-with-pbrt/src/main.cpp:87-91 | spelling the code of any 0/1 sequence gives the sequence back |
| `Binary.Pow2Add` | 01-structured-light-with-blender-and-halide/scripts/create_patterns.py:7-8 | helper lemma: powers of two multiply by adding exponents, which the stripe contracts use to show that rows / divisions is a power of two |
| `Binary.CodeInjective` | 02-structured-light-with-pbrt/src/main.cpp:87-91 | distinct 0/1 sequences of one length have distinct codes |
| `Decoder.Gray` | 02-structured-light-with-pbrt/src/main.cpp:77 | luminance, 0.333 times each of R, G, B over 255, lies in [0, 0.999] |
| `Decoder.MinGray` | 02-structured-light-with-pbrt/src/main.cpp:75-78 | `minValue` is at most every frame's luminance over frames 0..6 and is one of them |
| `Decoder.MaxGray` | 02-structured-light-with-pbrt/src/main.cpp:76-79 | `maxValue` is at least every frame's luminance over frames 0..6 and is one of them |
| `Decoder.Threshold` | 02-structured-light-with-pbrt/src/main.cpp:80 | the decision level lies between `minValue` and `maxValue` |
| `Decoder.Decode` | 02-structured-light-with-pbrt/src/main.cpp:68-82 | each frame decodes to 0 or 1, and to 1 exactly when its luminance is strictly above the midpoint |
| `Decoder.ConstantPixelDecodesToZero` | 02-structured-light-with-pbrt/src/main.cpp:74-80 | a pixel of constant luminance decodes to 0 in every frame, because the comparison is strict |
| `Decoder.VaryingPixelDecodesBothValues` | 02-structured-light-with-pbrt/src/main.cpp:74-80 | a pixel whose luminance varies over frames 0..6 decodes some frame to 1 and some frame to 0 |
| `Decoder.Accumulated` | 02-structured-light-with-pbrt/src/main.cpp:86-91 | for 0/1 bits the running weighted sum is never negative and leaves room below 128 for the weight of the frame still to come; after seven frames it is at most 127 |
| `Decoder.AccumulatedIsCode` | 02-structured-light-with-pbrt/src/main.cpp:86-91 | for 0/1 bits the weighted sum with weights 2^(7-i-1) is the MSB-first integer of the bits; after seven frames it is that integer in 0..127 |
| `Decoder.ProjectorXAlwaysSentinel` | 02-structured-light-with-pbrt/src/main.cpp:92-100 | as written, the estimator returns -1000 for every 0/1 code |
| `Decoder.DecodedProjectorXIsSentinel` | 02-structured-light-with-pbrt/src/main.cpp:68-102 | as written, every pixel's decoded stack yields the sentinel |
| `Decoder.ProjectorX` | 02-structured-light-with-pbrt/src/main.cpp:92-100 | as written: the sentinel unless the sum is neither 0 nor at least 1, and then a column below -125/127 |
| `Decoder.ProjectorXIntended` | 02-structured-light-with-pbrt/src/main.cpp:92-100 | corrected estimator: the sentinel exactly for codes 0 and 127; otherwise 2k/127 - 1, strictly inside (-1, 1) |
| `Decoder.PixelProjectorX` | 02-structured-light-with-pbrt/src/main.cpp:84-102 | the corrected column of a pixel's frame stack: the sentinel exactly when its decoded code is 0 or 127, otherwise strictly inside (-1, 1) |
| `Decoder.IntendedColumnOfCode` | 02-structured-light-with-pbrt/src/main.cpp:84-102 | round trip: the 7-bit spelling of k gives 2k/127 - 1 for k in 1..126 and the sentinel for 0 and 127 |
| `Color.MinColor` | 02-structured-light-with-pbrt/src/main.cpp:140-141 | `minColor` is at most every frame's sample over frames 0..6 and is one of them |
| `Color.MaxColor` | 02-structured-light-with-pbrt/src/main.cpp:143-144 | `maxColor` is at least every frame's sample over frames 0..6 and is one of them |
| `Color.ColorOf` | 02-structured-light-with-pbrt/src/main.cpp:147 | the estimate lies between `minColor` and `maxColor`, hence in [0, 1] |
| `Color.PixelColor` | 02-structured-light-with-pbrt/src/main.cpp:146-148 | all three channel estimates lie in [0, 1] |
| `Color.ColorIsMidpointOfExtremes` | 02-structured-light-with-pbrt/src/main.cpp:140-147 | the estimate is the midpoint of the darkest and the brightest of frames 0..6, whatever the frames between |
| `Vectors.Sub` | 02-structured-light-with-pbrt/src/main.cpp:196 | the difference of two points, added back to the second, gives the first |
| `Rays.NdcX` | 02-structured-light-with-pbrt/src/main.cpp:189 | the column's device x lies in [-1, 1), and mapping it back recovers the column |
| `Rays.NdcY` | 02-structured-light-with-pbrt/src/main.cpp:190 | the flipped row's device y lies in (-1, 1], and mapping it back recovers the row |
| `Rays.Dehomogenize` | 02-structured-light-with-pbrt/src/main.cpp:259 | a point exists exactly when w is non-zero; it has w = 1 and scales back to the input |
| `Rays.UnprojectCamera` | 02-structured-light-with-pbrt/src/main.cpp:257-263 | defined exactly when the back-projected w is non-zero; then the rotated and translated image of the w = 1 point on that back-projected point's line |
| `Rays.UnprojectProjector` | 02-structured-light-with-pbrt/src/main.cpp:265-269 | defined exactly when the back-projected w is non-zero; then a w = 1 point that scales back to it |
| `Rays.CameraNdc` | 02-structured-light-with-pbrt/src/main.cpp:189-192 | the device point of a pixel has x in [-1, 1), y in (-1, 1], the given depth and w = 1 |
| `Rays.CameraNdcInjective` | 02-structured-light-with-pbrt/src/main.cpp:189-192 | distinct pixels give distinct device points at every depth |
| `Rays.CameraLine` | 02-structured-light-with-pbrt/src/main.cpp:186-198 | defined exactly when both depth points unproject; starts at the near point and reaches the far point after one unit of its direction |
| `Rays.ProjectorLine` | 02-structured-light-with-pbrt/src/main.cpp:200-208 | defined exactly when the far-depth projector point unprojects; then it has w = 1 and scaled by the back-projected w gives back the back-projection of (projectorX, 0, 0.7, 1) |
| `Triangulation.Cross2D` | 02-structured-light-with-pbrt/src/main.cpp:218-220 | against a vector non-zero in x-z, the 2-D cross product vanishes exactly when the other vector is a multiple of it there |
| `Triangulation.CrossAlongLine` | 02-structured-light-with-pbrt/src/main.cpp:218-227 | moving along the camera line by t changes the cross product with r by -t times cross2D(r, s), that is t times cross2D(s, r) |
| `Triangulation.Intersect` | 02-structured-light-with-pbrt/src/main.cpp:210-228 | defined exactly when the rays are not parallel in x-z; the point is on the camera line and on the projector ray through the origin |
| `Triangulation.IntersectIsUniqueCommonPoint` | 02-structured-light-with-pbrt/src/main.cpp:210-228 | for non-parallel rays, a camera-line point is on the projector ray if and only if it is the returned point |
| `Triangulation.IntersectIgnoresProjectorY` | 02-structured-light-with-pbrt/src/main.cpp:218-220 | the projector point's y never enters the result |
| `Triangulation.IntersectIgnoresY` | 02-structured-light-with-pbrt/src/main.cpp:218-220 | the camera line's y components affect only the result's y, not whether it exists or its x and z |
| `Pipeline.PixelIntersection` | 02-structured-light-with-pbrt/src/main.cpp:271-274 | a pixel's point exists exactly when both rays exist and are not parallel in x-z; it lies on the camera line and on the projector ray |
| `Pipeline.PixelOutput` | 02-structured-light-with-pbrt/src/main.cpp:277-285 | for any projector column: channels 0-2 are the intersection's x, y, z; channels 3-5 are the colour estimates, in [0, 1]; nothing exactly when there is no intersection |
| `Pipeline.AsWrittenProjectorRayIsShared` | 02-structured-light-with-pbrt/src/main.cpp:250-272 | with the estimator as written, every pixel gets the same projector ray, the one of column -1000 |
| `Pipeline.AsWrittenOutputUsesSentinel` | 02-structured-light-with-pbrt/src/main.cpp:250-285 | with the estimator as written, every pixel's output is its output at column -1000 |
| `Assembly.InVolume` | 02-structured-light-with-pbrt/src/main.cpp:304 | a pixel passes exactly when none of the six comparisons of the skip test holds |
| `Assembly.PointAt` | 02-structured-light-with-pbrt/src/main.cpp:297-307 | a passing pixel's point lies within [-10, 10] on all three axes |
| `Assembly.RowPixels` | 02-structured-light-with-pbrt/src/main.cpp:296-308 | the kept pixels of one row are in the buffer and in the volume, in increasing column order |
| `Assembly.KeptPixels` | 02-structured-light-with-pbrt/src/main.cpp:295-309 | the kept pixels are in the volume and strictly row-major ordered; there are at most rows times width of them |
| `Assembly.RowPixelsComplete` | 02-structured-light-with-pbrt/src/main.cpp:304-307 | every pixel of a row whose coordinates are in [-10, 10] is kept |
| `Assembly.KeptPixelsComplete` | 02-structured-light-with-pbrt/src/main.cpp:295-309 | every pixel in the volume is kept: with `KeptPixels`, the filter keeps exactly the in-volume pixels, bounds included |
| `Assembly.PointsOf` | 02-structured-light-with-pbrt/src/main.cpp:297-307 | one point per kept pixel, in order, carrying its six channels unchanged |
| `Assembly.ScanRow` | 02-structured-light-with-pbrt/src/main.cpp:296-308 | the inner loop appends exactly the points of the row's kept pixels, in column order |
| `Assembly.AssemblePoints` | 02-structured-light-with-pbrt/src/main.cpp:293-309 | the loop yields the points of the kept pixels in row-major order; each lies within [-10, 10] on all axes; at most width times height of them |
| `Patterns.Divisions` | 01-structured-light-with-blender-and-halide/scripts/create_patterns.py:7 | the number of stripes is even, and for each pattern it divides the 1024 columns, with quotient 2^(9-i) |
| `Patterns.Step` | 01-structured-light-with-blender-and-halide/scripts/create_patterns.py:8 | the stripe width is at least 8 and `divisions` stripes of it span the 1024 columns exactly |
| `Patterns.Period` | 01-structured-light-with-blender-and-halide/scripts/create_patterns.py:9 | the period is at least 16 and 2^i whole periods span the 1024 columns |
| `Patterns.StepValue` | 01-structured-light-with-blender-and-halide/scripts/create_patterns.py:7-8 | the stripe widths are 512, 256, ..., 8 |
| `Patterns.StepExact` | 01-structured-light-with-blender-and-halide/scripts/create_patterns.py:3-8 | rows / divisions is exact, equals the stripe width, and is at least 8 |
| `Patterns.Cell` | 01-structured-light-with-blender-and-halide/scripts/create_patterns.py:10 | every cell is 0 or 1, so the saved image is black or white |
| `Patterns.CellPeriodic` | 01-structured-light-with-blender-and-halide/scripts/create_patterns.py:10 | a cell repeats with the pattern's period along the row |
| `Patterns.CellInPeriod` | 01-structured-light-with-blender-and-halide/scripts/create_patterns.py:9-10 | within any period, an offset is lit if and only if it is strictly above the stripe width |
| `Patterns.LitCount` | 01-structured-light-with-blender-and-halide/scripts/create_patterns.py:10 | the number of lit columns in a range is at most its length |
| `Patterns.LitCountShift` | 01-structured-light-with-blender-and-halide/scripts/create_patterns.py:10 | counting lit columns from the start of any period gives the same as counting from column 0 |
| `Patterns.LitCountPrefix` | 01-structured-light-with-blender-and-halide/scripts/create_patterns.py:10 | the first n columns of a period hold max(0, n - step - 1) lit columns |
| `Patterns.LitPerPeriod` | 01-structured-light-with-blender-and-halide/scripts/create_patterns.py:7-10 | every full period has exactly step - 1 lit columns |
| `Patterns.ColumnBits` | 01-structured-light-with-blender-and-halide/scripts/create_patterns.py:6-10 | the seven patterns' values at one column form a 0/1 code |
| `Patterns.EncodeBit` | 01-structured-light-with-blender-and-halide/scripts/create_patterns.py:6-10 | helper lemma for `Patterns.ColumnCode`: entry i of an n-bit spelling of k is the lowest bit of k / 2^(n-1-i) |
| `Patterns.CellIsBit` | 01-structured-light-with-blender-and-halide/scripts/create_patterns.py:10 | away from multiples of 16, pattern i lights column c exactly when bit 6 - i of (c - 1) / 8 is set |
| `Patterns.ColumnCode` | 01-structured-light-with-blender-and-halide/scripts/create_patterns.py:6-10 | away from multiples of 16, the seven patterns spell (c - 1) / 8 in plain binary, MSB in pattern 0 |
| `Patterns.PatternColumnDecodes` | 01-structured-light-with-blender-and-halide/scripts/create_patterns.py:6-10 | away from multiples of 16, the corrected estimator maps the patterns' bits at column c in 9..1016 back to 2((c - 1)/8)/127 - 1 |
| `Patterns.CreatePatterns` | 01-structured-light-with-blender-and-halide/scripts/create_patterns.py:3-10 | a fresh 7 x 1024 x 1024 array; slice i holds pattern i in every row |

## Left out

- Image input and output are not modelled: `loadImages`, `saveImage`, `saveImages`, the PNG writes at the end of `create_patterns.py`, and the `out.xyz` writer. Pixel data enters as a parameter, and the result is a value.
- The error that `loadImages` raises for an empty file list is not modelled, because it belongs to the image loader.
- The clamp and cast to `uint8` that feed the intermediate images are not modelled; they only serve the image writers.
- Halide scheduling, JIT compilation, `realize` and `copy_to_host` are not modelled. The per-pixel maths is written as ordinary functions of the pixel's frame stack. `AssemblePoints` takes the realised buffer as an `array3<real>` of width x height x 6.
- The matrix constructors (`createInverseTranslation`, `createInverseRotation`, `createInverseProjection`) and the Eigen/glm adapters are not modelled. Their trigonometry runs in a foreign library, so the three matrices are arbitrary real parameters (`Rays.Calibration`).
- IEEE-754 behaviour is not modelled: rounding, the inexact 0.333 coefficient, and NaN or infinity. A division by zero gives `None` instead. NaN compares false against every bound, so the C++ filter would keep a NaN point; the model has no NaN, so it cannot show this.
- Rays.UnprojectCamera: the source multiplies `inverseTranslation * inverseRotation` first and then applies the product. The model applies the rotation and then the translation. The two are equal over the reals by associativity, which the model does not prove.
- Pipeline.PixelOutput: the column is a parameter, not computed from the frames; `Decoder.ProjectorX` and `Decoder.PixelProjectorX` supply it for the estimator as written and the corrected one. The colour channels of the model are the estimates of the first three input channels; input channels beyond the third are never read by the core and are not represented.
- `Patterns.Step` computes the stripe width as 2^(9-i). The script computes it as the float `rows / divisions`; `Patterns.StepExact` proves that this division is exact and gives the same value, so integer arithmetic is used throughout.
- The pipeline does not drop sentinel pixels before intersecting them; neither does the source. A sentinel pixel is removed only when its intersection falls outside the volume or does not exist, and the model states no more than that.

## Findings

| source | as written | input that shows it | evidently intended | confidence | as-written member | corrected member |
|---|---|---|---|---|---|---|
| 02-structured-light-with-pbrt/src/main.cpp:97 | `accumulated >= 1.0f` marks the code as invalid | decoded bits 1,0,0,0,0,0,0 (code 64) give -1000 instead of 2·64/127 - 1 ≈ 0.008; every code from 1 to 127 does the same | `accumulated >= 127.0f`: the sentinel only for the all-zero and the saturated code | high, not executed | `Decoder.ProjectorX`, `Decoder.ProjectorXAlwaysSentinel` | `Decoder.ProjectorXIntended`, `Decoder.IntendedColumnOfCode` |
