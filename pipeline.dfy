/** The per-pixel composition in `main` of
    02-structured-light-with-pbrt/src/main.cpp: decode the pixel's frames,
    estimate its projector column, build both rays, intersect them, and put
    the intersection next to the colour estimate in the six output channels.
    The column estimate is a parameter of the composition; the last two
    lemmas show what the estimate as written does to the rays and to the
    output. */
module Pipeline {
  import opened Vectors
  import opened Options
  import opened Pixels
  import opened Decoder
  import opened Color
  import opened Rays
  import opened Triangulation

  /** The triangulated point of pixel (x, y) given its projector column:
      it exists exactly when both rays exist and are not parallel in the
      x-z plane, and is then on the camera line and, in the x-z plane, on
      the projector ray through the origin. */
  function PixelIntersection(cal: Calibration, projectorX: real, x: nat, y: nat, width: nat, height: nat): (i: Option<Vec4>)
    requires x < width && y < height
    ensures var camera := CameraLine(cal, x, y, width, height);
            var projector := ProjectorLine(cal, projectorX);
            && (i.Some? <==>
                  camera.Some? && projector.Some? &&
                  Cross2D(Sub(projector.value, ProjectorOrigin), camera.value.1) != 0.0)
            && (i.Some? ==>
                  && OnCameraLine(i.value, camera.value.0, camera.value.1)
                  && Cross2D(i.value, Sub(projector.value, ProjectorOrigin)) == 0.0)
  {
    match CameraLine(cal, x, y, width, height)
    case None => None
    case Some((cameraPosition1, cameraLine)) =>
      match ProjectorLine(cal, projectorX)
      case None => None
      case Some(projectorLine) => Intersect(cameraPosition1, cameraLine, projectorLine)
  }

  /** `result(x, y, c)`: channels 0-2 the intersection's x, y and z for the
      pixel's projector column `projectorX`, channels 3-5 the colour
      estimate of its red, green and blue channels, each in [0, 1]; nothing
      when the intersection does not exist. The column is a parameter:
      `ProjectorX(Decode(s))` gives the estimate as written and
      `PixelProjectorX(s)` the corrected one. */
  function PixelOutput(cal: Calibration, projectorX: real, s: seq<Rgb>, x: nat, y: nat, width: nat, height: nat): (o: Option<seq<real>>)
    requires |s| >= Frames && x < width && y < height
    ensures var i := PixelIntersection(cal, projectorX, x, y, width, height);
            && (o.Some? <==> i.Some?)
            && (o.Some? ==>
                && |o.value| == 6
                && o.value[0] == i.value.x && o.value[1] == i.value.y && o.value[2] == i.value.z
                && o.value[3] == ColorOf(s, 0) && o.value[4] == ColorOf(s, 1) && o.value[5] == ColorOf(s, 2)
                && 0.0 <= o.value[3] <= 1.0 && 0.0 <= o.value[4] <= 1.0 && 0.0 <= o.value[5] <= 1.0)
  {
    var i := PixelIntersection(cal, projectorX, x, y, width, height);
    if i.None? then None
    else
      var color := PixelColor(s);
      Some([i.value.x, i.value.y, i.value.z, color.0, color.1, color.2])
  }

  /** With the column estimate as written, every pixel gets the projector
      ray of the sentinel column: all pixels share one projector ray. */
  lemma AsWrittenProjectorRayIsShared(cal: Calibration, s: seq<Rgb>)
    requires |s| >= Frames
    ensures ProjectorLine(cal, ProjectorX(Decode(s))) == ProjectorLine(cal, Sentinel)
  {
    DecodedProjectorXIsSentinel(s);
  }

  /** With the column estimate as written, the output of every pixel is
      the output it would have at the sentinel column: its position
      channels do not depend on its frames. */
  lemma AsWrittenOutputUsesSentinel(cal: Calibration, s: seq<Rgb>, x: nat, y: nat, width: nat, height: nat)
    requires |s| >= Frames && x < width && y < height
    ensures PixelOutput(cal, ProjectorX(Decode(s)), s, x, y, width, height) ==
            PixelOutput(cal, Sentinel, s, x, y, width, height)
  {
    DecodedProjectorXIsSentinel(s);
  }
}
