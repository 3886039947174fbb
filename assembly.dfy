/** The volume filter and point assembly at the end of `main` in
    02-structured-light-with-pbrt/src/main.cpp: a row-major scan of the
    realized six-channel output buffer (x, y, z, red, green, blue per
    pixel) that appends a point for every pixel whose position lies within
    [-10, 10] on all three axes. */
module Assembly {

  /** Half the side of the accepted cube. */
  const Bound: real := 10.0

  /** One record of the output point list. */
  datatype Point = Point(x: real, y: real, z: real, red: real, green: real, blue: real)

  /** A pixel position in the output buffer: column `i`, row `j`. */
  datatype Pixel = Pixel(i: nat, j: nat)

  /** Row-major scan order: earlier row, or same row and earlier column. */
  predicate Before(a: Pixel, b: Pixel)
  {
    a.j < b.j || (a.j == b.j && a.i < b.i)
  }

  predicate IsOutputBuffer(output: array3<real>)
  {
    output.Length2 == 6
  }

  predicate InBuffer(output: array3<real>, p: Pixel)
  {
    p.i < output.Length0 && p.j < output.Length1
  }

  /** The pixel's position channels all lie within [-Bound, Bound]: it
      passes exactly when none of the six comparisons of the skip test is
      true. */
  function InVolume(output: array3<real>, p: Pixel): (kept: bool)
    reads output
    requires IsOutputBuffer(output) && InBuffer(output, p)
    ensures var x, y, z := output[p.i, p.j, 0], output[p.i, p.j, 1], output[p.i, p.j, 2];
            kept <==> !(x < -10.0 || x > 10.0 || y < -10.0 || y > 10.0 || z < -10.0 || z > 10.0)
  {
    && -Bound <= output[p.i, p.j, 0] <= Bound
    && -Bound <= output[p.i, p.j, 1] <= Bound
    && -Bound <= output[p.i, p.j, 2] <= Bound
  }

  /** The point a pixel contributes: its six channels, unchanged; the
      point of a pixel that passes the filter lies in the cube. */
  function PointAt(output: array3<real>, p: Pixel): (pt: Point)
    reads output
    requires IsOutputBuffer(output) && InBuffer(output, p)
    ensures InVolume(output, p) ==>
      -Bound <= pt.x <= Bound && -Bound <= pt.y <= Bound && -Bound <= pt.z <= Bound
  {
    Point(output[p.i, p.j, 0], output[p.i, p.j, 1], output[p.i, p.j, 2],
          output[p.i, p.j, 3], output[p.i, p.j, 4], output[p.i, p.j, 5])
  }

  /** The pixels of columns 0..n-1 of row `j` that pass the filter, in
      column order. */
  function RowPixels(output: array3<real>, j: nat, n: nat): (px: seq<Pixel>)
    reads output
    requires IsOutputBuffer(output) && j < output.Length1 && n <= output.Length0
    ensures |px| <= n
    ensures forall k :: 0 <= k < |px| ==>
      px[k].j == j && px[k].i < n && InBuffer(output, px[k]) && InVolume(output, px[k])
    ensures forall k1, k2 :: 0 <= k1 < k2 < |px| ==> px[k1].i < px[k2].i
  {
    if n == 0 then []
    else
      var p := Pixel(n - 1, j);
      RowPixels(output, j, n - 1) + (if InVolume(output, p) then [p] else [])
  }

  /** The pixels of rows 0..m-1 that pass the filter, in row-major order:
      each is in the buffer and in the volume, they are strictly ordered,
      and there are at most m times the width of them. */
  function KeptPixels(output: array3<real>, m: nat): (px: seq<Pixel>)
    reads output
    requires IsOutputBuffer(output) && m <= output.Length1
    ensures |px| <= m * output.Length0
    ensures forall k :: 0 <= k < |px| ==>
      px[k].j < m && InBuffer(output, px[k]) && InVolume(output, px[k])
    ensures forall k1, k2 :: 0 <= k1 < k2 < |px| ==> Before(px[k1], px[k2])
  {
    if m == 0 then []
    else
      var previous := KeptPixels(output, m - 1);
      var row := RowPixels(output, m - 1, output.Length0);
      assert (m - 1) * output.Length0 + output.Length0 == m * output.Length0;
      assert forall k1, k2 :: 0 <= k1 < |previous| <= k2 < |previous| + |row| ==>
        Before((previous + row)[k1], (previous + row)[k2]);
      previous + row
  }

  /** Every pixel of columns 0..n-1 of row j that passes the filter is kept. */
  lemma {:induction false} RowPixelsComplete(output: array3<real>, j: nat, n: nat, i: nat)
    requires IsOutputBuffer(output) && j < output.Length1 && i < n <= output.Length0
    requires InVolume(output, Pixel(i, j))
    ensures Pixel(i, j) in RowPixels(output, j, n)
  {
    if i < n - 1 {
      RowPixelsComplete(output, j, n - 1, i);
    }
  }

  /** Every pixel of rows 0..m-1 that passes the filter is kept: with the
      ensures of `KeptPixels`, the filter keeps exactly the pixels whose
      three coordinates are in [-10, 10], bounds included. */
  lemma {:induction false} KeptPixelsComplete(output: array3<real>, m: nat, p: Pixel)
    requires IsOutputBuffer(output) && m <= output.Length1
    requires p.j < m && InBuffer(output, p) && InVolume(output, p)
    ensures p in KeptPixels(output, m)
  {
    if p.j < m - 1 {
      KeptPixelsComplete(output, m - 1, p);
    } else {
      RowPixelsComplete(output, p.j, output.Length0, p.i);
    }
  }

  /** The points of a list of pixels, in the same order. */
  function PointsOf(output: array3<real>, px: seq<Pixel>): (points: seq<Point>)
    reads output
    requires IsOutputBuffer(output)
    requires forall k :: 0 <= k < |px| ==> InBuffer(output, px[k])
    ensures |points| == |px|
    ensures forall k :: 0 <= k < |px| ==> points[k] == PointAt(output, px[k])
  {
    if px == [] then []
    else PointsOf(output, px[..|px| - 1]) + [PointAt(output, px[|px| - 1])]
  }

  /** The points of two pixel lists, one after the other. */
  lemma PointsOfAppend(output: array3<real>, a: seq<Pixel>, b: seq<Pixel>)
    requires IsOutputBuffer(output)
    requires forall k :: 0 <= k < |a| ==> InBuffer(output, a[k])
    requires forall k :: 0 <= k < |b| ==> InBuffer(output, b[k])
    ensures PointsOf(output, a + b) == PointsOf(output, a) + PointsOf(output, b)
  {
    assert forall k :: 0 <= k < |a + b| ==> InBuffer(output, (a + b)[k]);
  }

  /** Scanning one more column of row `j` keeps its pixel exactly when it
      passes the filter. */
  lemma RowPixelsStep(output: array3<real>, j: nat, i: nat)
    requires IsOutputBuffer(output) && j < output.Length1 && i < output.Length0
    ensures RowPixels(output, j, i + 1) ==
      RowPixels(output, j, i) + (if InVolume(output, Pixel(i, j)) then [Pixel(i, j)] else [])
  {
  }

  /** One more kept pixel contributes one more point, at the end. */
  lemma PointsOfSnoc(output: array3<real>, px: seq<Pixel>, p: Pixel)
    requires IsOutputBuffer(output) && InBuffer(output, p)
    requires forall k :: 0 <= k < |px| ==> InBuffer(output, px[k])
    ensures PointsOf(output, px + [p]) == PointsOf(output, px) + [PointAt(output, p)]
  {
    assert (px + [p])[..|px|] == px;
  }

  /** Scanning a column of row `j` whose pixel passes the filter adds that
      pixel's point after the points gathered so far. */
  lemma RowPointsKeep(output: array3<real>, j: nat, i: nat, points: seq<Point>)
    requires IsOutputBuffer(output) && j < output.Length1 && i < output.Length0
    requires InVolume(output, Pixel(i, j))
    ensures points + PointsOf(output, RowPixels(output, j, i + 1)) ==
      (points + PointsOf(output, RowPixels(output, j, i))) + [PointAt(output, Pixel(i, j))]
  {
    var row := RowPixels(output, j, i);
    RowPixelsStep(output, j, i);
    PointsOfSnoc(output, row, Pixel(i, j));
  }

  /** Scanning a column whose pixel fails the filter adds nothing. */
  lemma RowPointsSkip(output: array3<real>, j: nat, i: nat)
    requires IsOutputBuffer(output) && j < output.Length1 && i < output.Length0
    requires !InVolume(output, Pixel(i, j))
    ensures RowPixels(output, j, i + 1) == RowPixels(output, j, i)
  {
    RowPixelsStep(output, j, i);
  }

  /** The inner loop of the assembly for row `j`: appends to `points` the
      points of the row's pixels that pass the filter, in column order. */
  method ScanRow(output: array3<real>, j: nat, points: seq<Point>) returns (extended: seq<Point>)
    requires IsOutputBuffer(output) && j < output.Length1
    ensures extended == points + PointsOf(output, RowPixels(output, j, output.Length0))
  {
    extended := points;
    for i := 0 to output.Length0
      invariant extended == points + PointsOf(output, RowPixels(output, j, i))
    {
      var x := output[i, j, 0];
      var y := output[i, j, 1];
      var z := output[i, j, 2];
      var red := output[i, j, 3];
      var green := output[i, j, 4];
      var blue := output[i, j, 5];
      if x < -10.0 || x > 10.0 || y < -10.0 || y > 10.0 || z < -10.0 || z > 10.0 {
        RowPointsSkip(output, j, i);
        continue;
      }
      RowPointsKeep(output, j, i, points);
      var point := Point(x, y, z, red, green, blue);
      assert point == PointAt(output, Pixel(i, j));
      extended := extended + [point];
    }
  }

  /** The assembly loop: rows outer, columns inner, skipping a pixel when
      any coordinate is below -10 or above 10. The result is the points of
      the kept pixels in row-major order; each lies in the volume, and
      there are at most width * height of them. */
  method AssemblePoints(output: array3<real>) returns (points: seq<Point>)
    requires IsOutputBuffer(output)
    ensures points == PointsOf(output, KeptPixels(output, output.Length1))
    ensures |points| <= output.Length0 * output.Length1
    ensures forall k :: 0 <= k < |points| ==>
      && -Bound <= points[k].x <= Bound
      && -Bound <= points[k].y <= Bound
      && -Bound <= points[k].z <= Bound
  {
    points := [];
    for j := 0 to output.Length1
      invariant points == PointsOf(output, KeptPixels(output, j))
    {
      PointsOfAppend(output, KeptPixels(output, j), RowPixels(output, j, output.Length0));
      points := ScanRow(output, j, points);
    }
    ghost var all := KeptPixels(output, output.Length1);
    assert output.Length1 * output.Length0 == output.Length0 * output.Length1;
    forall k | 0 <= k < |points|
      ensures -Bound <= points[k].x <= Bound && -Bound <= points[k].y <= Bound && -Bound <= points[k].z <= Bound
    {
      assert InVolume(output, all[k]);
    }
  }
}
