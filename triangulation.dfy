/** Ray-ray intersection in the x-z plane (`intersect` in
    02-structured-light-with-pbrt/src/main.cpp). The projector ray runs from
    the origin p through the projector point, direction r; the camera line
    is q + u*s. The source divides by cross2D(r, s); here a zero divisor,
    which the source turns into non-finite coordinates, gives `None`. */
module Triangulation {
  import opened Vectors
  import opened Options

  /** The projector's centre, the anchor `p` of the projector ray. */
  const ProjectorOrigin: Vec4 := Vec4(0.0, 0.0, 0.0, 1.0)

  /** In the x-z plane, `a` is `k` times `b`. */
  predicate ScaledXZ(a: Vec4, b: Vec4, k: real)
  {
    a.x == k * b.x && a.z == k * b.z
  }

  /** The 2-D cross product of the x and z components; y and w do not
      enter. Against a `b` that is non-zero in that plane it vanishes
      exactly when `a` is a multiple of `b` there, that is, when the two
      directions are parallel. */
  function Cross2D(a: Vec4, b: Vec4): (c: real)
    ensures (b.x != 0.0 || b.z != 0.0) ==> (c == 0.0 <==> exists k :: ScaledXZ(a, b, k))
  {
    ZeroCrossIffParallel(a, b);
    a.x * b.z - b.x * a.z
  }

  /** The characterisation behind `Cross2D`'s contract, stated on the
      product itself. */
  lemma ZeroCrossIffParallel(a: Vec4, b: Vec4)
    ensures (b.x != 0.0 || b.z != 0.0) ==>
      (a.x * b.z - b.x * a.z == 0.0 <==> exists k :: ScaledXZ(a, b, k))
  {
    if (b.x != 0.0 || b.z != 0.0) && a.x * b.z - b.x * a.z == 0.0 {
      ParallelOfZeroCross(a, b);
    }
    forall k | ScaledXZ(a, b, k) {
      ZeroCrossOfParallel(a, b, k);
    }
  }

  /** A vanishing cross product against a `b` that is non-zero in the x-z
      plane makes `a` a multiple of `b` there. */
  lemma ParallelOfZeroCross(a: Vec4, b: Vec4)
    requires b.x != 0.0 || b.z != 0.0
    requires a.x * b.z - b.x * a.z == 0.0
    ensures ScaledXZ(a, b, if b.x != 0.0 then a.x / b.x else a.z / b.z)
  {
    if b.x != 0.0 {
      assert (a.x / b.x) * b.z == (a.x * b.z) / b.x;
    } else {
      assert (a.z / b.z) * b.x == (b.x * a.z) / b.z;
    }
  }

  /** A multiple of `b` has a vanishing cross product with `b`. */
  lemma ZeroCrossOfParallel(a: Vec4, b: Vec4, k: real)
    requires ScaledXZ(a, b, k)
    ensures a.x * b.z - b.x * a.z == 0.0
  {
    assert a.x * b.z == k * b.x * b.z;
    assert b.x * a.z == b.x * k * b.z;
  }

  /** Moving along the camera line by t changes the cross product with r
      by t times cross2D(s, r). */
  lemma CrossAlongLine(q: Vec4, s: Vec4, r: Vec4, t: real)
    ensures Cross2D(Add(q, Scale(s, t)), r) == Cross2D(q, r) - t * Cross2D(r, s)
  {
    var v := Add(q, Scale(s, t));
    assert Cross2D(v, r) == (q.x + s.x * t) * r.z - r.x * (q.z + s.z * t);
    assert (q.x + s.x * t) * r.z - r.x * (q.z + s.z * t)
        == (q.x * r.z - r.x * q.z) - t * (r.x * s.z - s.x * r.z);
  }

  /** `v` is q + t*s for some t. */
  ghost predicate OnCameraLine(v: Vec4, q: Vec4, s: Vec4)
  {
    exists t :: v == Add(q, Scale(s, t))
  }

  /** `intersect`: a point exists exactly when the rays are not parallel in
      the x-z plane; it is then on the camera line and on the projector ray
      through the origin (zero cross product with r). */
  function Intersect(cameraPosition1: Vec4, cameraLine: Vec4, projectorLine: Vec4): (i: Option<Vec4>)
    ensures i.Some? <==> Cross2D(Sub(projectorLine, ProjectorOrigin), cameraLine) != 0.0
    ensures i.Some? ==> OnCameraLine(i.value, cameraPosition1, cameraLine)
    ensures i.Some? ==> Cross2D(i.value, Sub(projectorLine, ProjectorOrigin)) == 0.0
  {
    var p := ProjectorOrigin;
    var r := Sub(projectorLine, p);
    var q := cameraPosition1;
    var s := cameraLine;
    var pxr := Cross2D(p, r);
    var qxr := Cross2D(q, r);
    var qmpxr := qxr - pxr;
    var rxs := Cross2D(r, s);
    if rxs == 0.0 then None
    else
      var uCam := qmpxr / rxs;
      CrossAlongLine(q, s, r, uCam);
      assert OnCameraLine(Add(q, Scale(s, uCam)), q, s);
      Some(Add(q, Scale(s, uCam)))
  }

  /** When the rays are not parallel, a point q + t*s of the camera line is
      on the projector ray exactly when it is the point `Intersect`
      returns: the intersection is the unique common point. */
  lemma IntersectIsUniqueCommonPoint(q: Vec4, s: Vec4, projectorLine: Vec4, t: real)
    requires Cross2D(Sub(projectorLine, ProjectorOrigin), s) != 0.0
    ensures Cross2D(Add(q, Scale(s, t)), Sub(projectorLine, ProjectorOrigin)) == 0.0
        <==> Intersect(q, s, projectorLine) == Some(Add(q, Scale(s, t)))
  {
    var r := Sub(projectorLine, ProjectorOrigin);
    var rxs := Cross2D(r, s);
    CrossAlongLine(q, s, r, t);
    if Cross2D(Add(q, Scale(s, t)), r) == 0.0 {
      assert Cross2D(ProjectorOrigin, r) == 0.0;
      assert t * rxs == Cross2D(q, r);
      assert t == (Cross2D(q, r) - Cross2D(ProjectorOrigin, r)) / rxs;
    }
  }

  /** The y component of the projector point never enters the solution:
      changing it leaves the result unchanged. */
  lemma IntersectIgnoresProjectorY(q: Vec4, s: Vec4, projectorLine: Vec4, ly: real)
    ensures Intersect(q, s, projectorLine.(y := ly)) == Intersect(q, s, projectorLine)
  {
    var r := Sub(projectorLine, ProjectorOrigin);
    var r' := Sub(projectorLine.(y := ly), ProjectorOrigin);
    Cross2DOnlyXZ(r', s, r, s);
    Cross2DOnlyXZ(q, r', q, r);
    Cross2DOnlyXZ(ProjectorOrigin, r', ProjectorOrigin, r);
  }

  /** The y components of the camera line never enter the solution either:
      changing them changes only the result's y. */
  lemma IntersectIgnoresY(q: Vec4, s: Vec4, projectorLine: Vec4, qy: real, sy: real)
    ensures var a := Intersect(q, s, projectorLine);
            var b := Intersect(q.(y := qy), s.(y := sy), projectorLine);
            && (a.Some? <==> b.Some?)
            && (a.Some? ==> a.value.(y := 0.0) == b.value.(y := 0.0))
  {
    var r := Sub(projectorLine, ProjectorOrigin);
    var q', s' := q.(y := qy), s.(y := sy);
    Cross2DOnlyXZ(r, s', r, s);
    Cross2DOnlyXZ(q', r, q, r);
    IntersectValue(q, s, projectorLine);
    IntersectValue(q', s', projectorLine);
    if Cross2D(r, s) != 0.0 {
      var u := (Cross2D(q, r) - Cross2D(ProjectorOrigin, r)) / Cross2D(r, s);
      LinePointIgnoresY(q, s, u, qy, sy);
    }
  }

  /** The point q + u*s off its y component does not depend on the y
      components of q and s. */
  lemma LinePointIgnoresY(q: Vec4, s: Vec4, u: real, qy: real, sy: real)
    ensures Add(q, Scale(s, u)).(y := 0.0) == Add(q.(y := qy), Scale(s.(y := sy), u)).(y := 0.0)
  {
  }

  /** The value `Intersect` computes, with the parameter along the camera
      line written out. */
  lemma IntersectValue(q: Vec4, s: Vec4, projectorLine: Vec4)
    ensures var r := Sub(projectorLine, ProjectorOrigin);
            Intersect(q, s, projectorLine) ==
              if Cross2D(r, s) == 0.0 then None
              else Some(Add(q, Scale(s, (Cross2D(q, r) - Cross2D(ProjectorOrigin, r)) / Cross2D(r, s))))
  {
  }

  /** Vectors that agree in x and z have the same cross products. */
  lemma Cross2DOnlyXZ(a: Vec4, b: Vec4, a': Vec4, b': Vec4)
    requires a.x == a'.x && a.z == a'.z && b.x == b'.x && b.z == b'.z
    ensures Cross2D(a, b) == Cross2D(a', b')
  {
    assert Cross2D(a, b) == a.x * b.z - b.x * a.z;
    assert Cross2D(a', b') == a'.x * b'.z - b'.x * a'.z;
  }
}
