/** Camera and projector rays (`findCameraLine`, `findProjectorLine` and the
    `unprojectCamera` / `unprojectProjector` lambdas of `main` in
    02-structured-light-with-pbrt/src/main.cpp). The three inverse matrices
    are parameters: the model holds for any real 4x4 matrices. */
module Rays {
  import opened Vectors
  import opened Options

  /** The fixed geometry: inverse projection, inverse projector-to-camera
      rotation and inverse translation. */
  datatype Calibration = Calibration(
    inverseProjection: Mat4,
    inverseRotation: Mat4,
    inverseTranslation: Mat4)

  /** The two normalised-device depths that give two points on a camera
      ray; the projector ray uses the second. */
  const NearDepth: real := 0.1
  const FarDepth: real := 0.7

  /** Horizontal normalised device coordinate of pixel column `x`: in
      [-1, 1), and mapping it back recovers the column. */
  function NdcX(x: nat, width: nat): (nx: real)
    requires x < width
    ensures -1.0 <= nx < 1.0
    ensures (nx + 1.0) * (width as real) / 2.0 == x as real
  {
    2.0 * (x as real) / (width as real) - 1.0
  }

  /** Vertical normalised device coordinate of pixel row `y`, flipped so
      that row 0 is at the top: in (-1, 1], and mapping it back recovers
      the row. */
  function NdcY(y: nat, height: nat): (ny: real)
    requires y < height
    ensures -1.0 < ny <= 1.0
    ensures (1.0 - (ny + 1.0) / 2.0) * (height as real) == y as real
  {
    2.0 * (1.0 - (y as real) / (height as real)) - 1.0
  }

  /** Division of a homogeneous point by its w component; no point when w
      is zero. */
  function Dehomogenize(v: Vec4): (r: Option<Vec4>)
    ensures r.Some? <==> v.w != 0.0
    ensures r.Some? ==> r.value.w == 1.0 && Scale(r.value, v.w) == v
  {
    if v.w == 0.0 then None else Some(Scale(v, 1.0 / v.w))
  }

  /** `unprojectCamera`: the inverse projection, the divide by w, then
      inverseTranslation * inverseRotation (over the reals the product is
      applied as the rotation first and the translation second). The
      result exists exactly when the projected point's w is non-zero, and
      is then the rotated and translated image of the camera-space point
      with w = 1 on that projected point's line through the origin. */
  function UnprojectCamera(cal: Calibration, nCam: Vec4): (r: Option<Vec4>)
    ensures r.Some? <==> MulVec(cal.inverseProjection, nCam).w != 0.0
    ensures r.Some? ==>
      var projected := MulVec(cal.inverseProjection, nCam);
      exists pCam: Vec4 :: && pCam.w == 1.0 && Scale(pCam, projected.w) == projected
                     && r.value == MulVec(cal.inverseTranslation, MulVec(cal.inverseRotation, pCam))
  {
    match Dehomogenize(MulVec(cal.inverseProjection, nCam))
    case None => None
    case Some(pCam) => Some(MulVec(cal.inverseTranslation, MulVec(cal.inverseRotation, pCam)))
  }

  /** `unprojectProjector`: the inverse projection and the divide by w. The
      result has w = 1 and is the projected point scaled down by its w. */
  function UnprojectProjector(cal: Calibration, nPro: Vec4): (r: Option<Vec4>)
    ensures r.Some? <==> MulVec(cal.inverseProjection, nPro).w != 0.0
    ensures r.Some? ==>
      var pPro := MulVec(cal.inverseProjection, nPro);
      r.value.w == 1.0 && Scale(r.value, pPro.w) == pPro
  {
    Dehomogenize(MulVec(cal.inverseProjection, nPro))
  }

  /** The device-space point of pixel (x, y) at normalised depth `depth`:
      x in [-1, 1), y in (-1, 1] with row 0 at the top, the given depth and
      w = 1. */
  function CameraNdc(x: nat, y: nat, width: nat, height: nat, depth: real): (v: Vec4)
    requires x < width && y < height
    ensures -1.0 <= v.x < 1.0 && -1.0 < v.y <= 1.0 && v.z == depth && v.w == 1.0
  {
    Vec4(NdcX(x, width), NdcY(y, height), depth, 1.0)
  }

  /** Distinct pixels get distinct device points at every depth. */
  lemma CameraNdcInjective(x1: nat, y1: nat, x2: nat, y2: nat, width: nat, height: nat, depth: real)
    requires x1 < width && y1 < height && x2 < width && y2 < height
    ensures CameraNdc(x1, y1, width, height, depth) == CameraNdc(x2, y2, width, height, depth) ==>
      x1 == x2 && y1 == y2
  {
  }

  /** `findCameraLine`: the camera point at the near depth and the
      direction to the camera point at the far depth. The line exists
      exactly when both points do, starts at the near point and reaches
      the far point after one unit of its direction. */
  function CameraLine(cal: Calibration, x: nat, y: nat, width: nat, height: nat): (r: Option<(Vec4, Vec4)>)
    requires x < width && y < height
    ensures var near := UnprojectCamera(cal, CameraNdc(x, y, width, height, NearDepth));
            var far := UnprojectCamera(cal, CameraNdc(x, y, width, height, FarDepth));
            && (r.Some? <==> near.Some? && far.Some?)
            && (r.Some? ==> near == Some(r.value.0) && far == Some(Add(r.value.0, r.value.1)))
  {
    var pCam1 := UnprojectCamera(cal, CameraNdc(x, y, width, height, NearDepth));
    var pCam2 := UnprojectCamera(cal, CameraNdc(x, y, width, height, FarDepth));
    if pCam1.None? || pCam2.None? then None
    else Some((pCam1.value, Sub(pCam2.value, pCam1.value)))
  }

  /** `findProjectorLine`: the projector point at column `projectorX`, row
      0 and the far depth. It exists exactly when that device point's
      inverse projection has a non-zero w, and is then that inverse
      projection scaled down to w = 1. */
  function ProjectorLine(cal: Calibration, projectorX: real): (r: Option<Vec4>)
    ensures r.Some? <==> MulVec(cal.inverseProjection, Vec4(projectorX, 0.0, FarDepth, 1.0)).w != 0.0
    ensures r.Some? ==>
      var pPro := MulVec(cal.inverseProjection, Vec4(projectorX, 0.0, FarDepth, 1.0));
      r.value.w == 1.0 && Scale(r.value, pPro.w) == pPro
  {
    UnprojectProjector(cal, Vec4(projectorX, 0.0, FarDepth, 1.0))
  }
}
