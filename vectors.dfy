/** Homogeneous 4-vectors and 4x4 matrices over the reals, standing in for the
    fixed-size Eigen types the reconstruction evaluates per pixel. */
module Vectors {

  /** A homogeneous point or direction (x, y, z, w). */
  datatype Vec4 = Vec4(x: real, y: real, z: real, w: real)

  /** A 4x4 matrix, stored row by row. */
  datatype Mat4 = Mat4(r0: Vec4, r1: Vec4, r2: Vec4, r3: Vec4)

  function Add(a: Vec4, b: Vec4): Vec4
  {
    Vec4(a.x + b.x, a.y + b.y, a.z + b.z, a.w + b.w)
  }

  /** Component-wise difference; adding `b` back gives `a`. */
  function Sub(a: Vec4, b: Vec4): (d: Vec4)
    ensures Add(b, d) == a
  {
    Vec4(a.x - b.x, a.y - b.y, a.z - b.z, a.w - b.w)
  }

  function Scale(a: Vec4, k: real): Vec4
  {
    Vec4(a.x * k, a.y * k, a.z * k, a.w * k)
  }

  function Dot(a: Vec4, b: Vec4): real
  {
    a.x * b.x + a.y * b.y + a.z * b.z + a.w * b.w
  }

  /** Matrix times column vector. */
  function MulVec(m: Mat4, v: Vec4): Vec4
  {
    Vec4(Dot(m.r0, v), Dot(m.r1, v), Dot(m.r2, v), Dot(m.r3, v))
  }
}
