/**
 * Three-dimensional vectors and quaternions over exact reals: the value types
 * `vec3` and `quaternion` that the skeleton code combines with `+`, unary `-`,
 * scalar `*`, the Hamilton product, `conjugated` and the rotation `q * v`.
 * A quaternion stores its vector part first and its scalar part `w` last, in
 * the order of its `x()`, `y()`, `z()`, `w()` accessors.
 */
module Algebra {

  datatype Vec3 = Vec3(x: real, y: real, z: real)

  datatype Quat = Quat(x: real, y: real, z: real, w: real)

  const Zero: Vec3 := Vec3(0.0, 0.0, 0.0)

  /** The identity rotation 1 + 0i + 0j + 0k. */
  const Identity: Quat := Quat(0.0, 0.0, 0.0, 1.0)

  function Add(a: Vec3, b: Vec3): Vec3 {
    Vec3(a.x + b.x, a.y + b.y, a.z + b.z)
  }

  function Neg(a: Vec3): Vec3 {
    Vec3(-a.x, -a.y, -a.z)
  }

  function Sub(a: Vec3, b: Vec3): Vec3 {
    Vec3(a.x - b.x, a.y - b.y, a.z - b.z)
  }

  function Scale(s: real, a: Vec3): Vec3 {
    Vec3(s * a.x, s * a.y, s * a.z)
  }

  /** The squared Euclidean length of a vector. */
  function Length2(a: Vec3): real {
    a.x * a.x + a.y * a.y + a.z * a.z
  }

  /** The Hamilton product p q. */
  function Mul(p: Quat, q: Quat): Quat {
    Quat(p.w * q.x + p.x * q.w + p.y * q.z - p.z * q.y,
         p.w * q.y - p.x * q.z + p.y * q.w + p.z * q.x,
         p.w * q.z + p.x * q.y - p.y * q.x + p.z * q.w,
         p.w * q.w - p.x * q.x - p.y * q.y - p.z * q.z)
  }

  function Conj(q: Quat): Quat {
    Quat(-q.x, -q.y, -q.z, q.w)
  }

  /** The squared norm; a unit quaternion has squared norm one. */
  function Norm2(q: Quat): real {
    q.x * q.x + q.y * q.y + q.z * q.z + q.w * q.w
  }

  predicate IsUnit(q: Quat) {
    Norm2(q) == 1.0
  }

  /** The pure quaternion (v, 0). */
  function Pure(v: Vec3): Quat {
    Quat(v.x, v.y, v.z, 0.0)
  }

  function VectorPart(q: Quat): Vec3 {
    Vec3(q.x, q.y, q.z)
  }

  /** The rotation q * v of a vector by a quaternion: the vector part of q (v, 0) conj(q). */
  function Rotate(q: Quat, v: Vec3): Vec3 {
    VectorPart(Mul(Mul(q, Pure(v)), Conj(q)))
  }

  // Each component of (p q) r and of p (q r) expanded into monomials.  The
  // solver proves one such expansion at a time reliably, and the equality of
  // two products then follows without further nonlinear reasoning.

  lemma ProductLeftX(p: Quat, q: Quat, r: Quat)
    ensures Mul(Mul(p, q), r).x ==
            p.w * q.w * r.x + p.w * q.x * r.w + p.w * q.y * r.z - p.w * q.z * r.y + p.x * q.w * r.w
            - p.x * q.x * r.x - p.x * q.y * r.y - p.x * q.z * r.z + p.y * q.w * r.z
            + p.y * q.x * r.y - p.y * q.y * r.x + p.y * q.z * r.w - p.z * q.w * r.y
            + p.z * q.x * r.z - p.z * q.y * r.w - p.z * q.z * r.x
  {
  }

  lemma ProductLeftY(p: Quat, q: Quat, r: Quat)
    ensures Mul(Mul(p, q), r).y ==
            p.w * q.w * r.y - p.w * q.x * r.z + p.w * q.y * r.w + p.w * q.z * r.x - p.x * q.w * r.z
            - p.x * q.x * r.y + p.x * q.y * r.x - p.x * q.z * r.w + p.y * q.w * r.w
            - p.y * q.x * r.x - p.y * q.y * r.y - p.y * q.z * r.z + p.z * q.w * r.x
            + p.z * q.x * r.w + p.z * q.y * r.z - p.z * q.z * r.y
  {
  }

  lemma ProductLeftZ(p: Quat, q: Quat, r: Quat)
    ensures Mul(Mul(p, q), r).z ==
            p.w * q.w * r.z + p.w * q.x * r.y - p.w * q.y * r.x + p.w * q.z * r.w + p.x * q.w * r.y
            - p.x * q.x * r.z + p.x * q.y * r.w + p.x * q.z * r.x - p.y * q.w * r.x
            - p.y * q.x * r.w - p.y * q.y * r.z + p.y * q.z * r.y + p.z * q.w * r.w
            - p.z * q.x * r.x - p.z * q.y * r.y - p.z * q.z * r.z
  {
  }

  lemma ProductLeftW(p: Quat, q: Quat, r: Quat)
    ensures Mul(Mul(p, q), r).w ==
            p.w * q.w * r.w - p.w * q.x * r.x - p.w * q.y * r.y - p.w * q.z * r.z - p.x * q.w * r.x
            - p.x * q.x * r.w - p.x * q.y * r.z + p.x * q.z * r.y - p.y * q.w * r.y
            + p.y * q.x * r.z - p.y * q.y * r.w - p.y * q.z * r.x - p.z * q.w * r.z
            - p.z * q.x * r.y + p.z * q.y * r.x - p.z * q.z * r.w
  {
  }

  lemma ProductRightX(p: Quat, q: Quat, r: Quat)
    ensures Mul(p, Mul(q, r)).x ==
            p.w * q.w * r.x + p.w * q.x * r.w + p.w * q.y * r.z - p.w * q.z * r.y + p.x * q.w * r.w
            - p.x * q.x * r.x - p.x * q.y * r.y - p.x * q.z * r.z + p.y * q.w * r.z
            + p.y * q.x * r.y - p.y * q.y * r.x + p.y * q.z * r.w - p.z * q.w * r.y
            + p.z * q.x * r.z - p.z * q.y * r.w - p.z * q.z * r.x
  {
  }

  lemma ProductRightY(p: Quat, q: Quat, r: Quat)
    ensures Mul(p, Mul(q, r)).y ==
            p.w * q.w * r.y - p.w * q.x * r.z + p.w * q.y * r.w + p.w * q.z * r.x - p.x * q.w * r.z
            - p.x * q.x * r.y + p.x * q.y * r.x - p.x * q.z * r.w + p.y * q.w * r.w
            - p.y * q.x * r.x - p.y * q.y * r.y - p.y * q.z * r.z + p.z * q.w * r.x
            + p.z * q.x * r.w + p.z * q.y * r.z - p.z * q.z * r.y
  {
  }

  lemma ProductRightZ(p: Quat, q: Quat, r: Quat)
    ensures Mul(p, Mul(q, r)).z ==
            p.w * q.w * r.z + p.w * q.x * r.y - p.w * q.y * r.x + p.w * q.z * r.w + p.x * q.w * r.y
            - p.x * q.x * r.z + p.x * q.y * r.w + p.x * q.z * r.x - p.y * q.w * r.x
            - p.y * q.x * r.w - p.y * q.y * r.z + p.y * q.z * r.y + p.z * q.w * r.w
            - p.z * q.x * r.x - p.z * q.y * r.y - p.z * q.z * r.z
  {
  }

  lemma ProductRightW(p: Quat, q: Quat, r: Quat)
    ensures Mul(p, Mul(q, r)).w ==
            p.w * q.w * r.w - p.w * q.x * r.x - p.w * q.y * r.y - p.w * q.z * r.z - p.x * q.w * r.x
            - p.x * q.x * r.w - p.x * q.y * r.z + p.x * q.z * r.y - p.y * q.w * r.y
            + p.y * q.x * r.z - p.y * q.y * r.w - p.y * q.z * r.x - p.z * q.w * r.z
            - p.z * q.x * r.y + p.z * q.y * r.x - p.z * q.z * r.w
  {
  }

  /** The Hamilton product is associative. */
  lemma MulAssoc(p: Quat, q: Quat, r: Quat)
    ensures Mul(Mul(p, q), r) == Mul(p, Mul(q, r))
  {
    ProductLeftX(p, q, r); ProductRightX(p, q, r);
    ProductLeftY(p, q, r); ProductRightY(p, q, r);
    ProductLeftZ(p, q, r); ProductRightZ(p, q, r);
    ProductLeftW(p, q, r); ProductRightW(p, q, r);
  }

  lemma MulIdentity(q: Quat)
    ensures Mul(Identity, q) == q && Mul(q, Identity) == q
  {
  }

  lemma NormOfProduct(p: Quat, q: Quat)
    ensures Norm2(Mul(p, q)) ==
            p.w * p.w * q.w * q.w + p.w * p.w * q.x * q.x + p.w * p.w * q.y * q.y + p.w * p.w * q.z * q.z
            + p.x * p.x * q.w * q.w + p.x * p.x * q.x * q.x + p.x * p.x * q.y * q.y
            + p.x * p.x * q.z * q.z + p.y * p.y * q.w * q.w + p.y * p.y * q.x * q.x
            + p.y * p.y * q.y * q.y + p.y * p.y * q.z * q.z + p.z * p.z * q.w * q.w
            + p.z * p.z * q.x * q.x + p.z * p.z * q.y * q.y + p.z * p.z * q.z * q.z
  {
  }

  lemma ProductOfNorms(p: Quat, q: Quat)
    ensures Norm2(p) * Norm2(q) ==
            p.w * p.w * q.w * q.w + p.w * p.w * q.x * q.x + p.w * p.w * q.y * q.y + p.w * p.w * q.z * q.z
            + p.x * p.x * q.w * q.w + p.x * p.x * q.x * q.x + p.x * p.x * q.y * q.y
            + p.x * p.x * q.z * q.z + p.y * p.y * q.w * q.w + p.y * p.y * q.x * q.x
            + p.y * p.y * q.y * q.y + p.y * p.y * q.z * q.z + p.z * p.z * q.w * q.w
            + p.z * p.z * q.x * q.x + p.z * p.z * q.y * q.y + p.z * p.z * q.z * q.z
  {
  }

  /** The norm is multiplicative (Euler's four-square identity). */
  lemma NormMul(p: Quat, q: Quat)
    ensures Norm2(Mul(p, q)) == Norm2(p) * Norm2(q)
  {
    NormOfProduct(p, q);
    ProductOfNorms(p, q);
  }

  lemma ConjMulX(p: Quat, q: Quat)
    ensures Conj(Mul(p, q)).x == Mul(Conj(q), Conj(p)).x
  {
  }

  lemma ConjMulY(p: Quat, q: Quat)
    ensures Conj(Mul(p, q)).y == Mul(Conj(q), Conj(p)).y
  {
  }

  lemma ConjMulZ(p: Quat, q: Quat)
    ensures Conj(Mul(p, q)).z == Mul(Conj(q), Conj(p)).z
  {
  }

  lemma ConjMulW(p: Quat, q: Quat)
    ensures Conj(Mul(p, q)).w == Mul(Conj(q), Conj(p)).w
  {
  }

  /** Conjugation reverses a product. */
  lemma ConjMul(p: Quat, q: Quat)
    ensures Conj(Mul(p, q)) == Mul(Conj(q), Conj(p))
  {
    ConjMulX(p, q); ConjMulY(p, q); ConjMulZ(p, q); ConjMulW(p, q);
  }

  lemma MulConj(q: Quat)
    ensures Mul(q, Conj(q)) == Quat(0.0, 0.0, 0.0, Norm2(q))
    ensures Mul(Conj(q), q) == Quat(0.0, 0.0, 0.0, Norm2(q))
  {
  }

  /** q (v, 0) conj(q) is again a pure quaternion. */
  lemma RotationIsPure(q: Quat, v: Vec3)
    ensures Pure(Rotate(q, v)) == Mul(Mul(q, Pure(v)), Conj(q))
  {
  }

  lemma RotateAdd(q: Quat, a: Vec3, b: Vec3)
    ensures Rotate(q, Add(a, b)) == Add(Rotate(q, a), Rotate(q, b))
  {
  }

  lemma RotateNeg(q: Quat, a: Vec3)
    ensures Rotate(q, Neg(a)) == Neg(Rotate(q, a))
  {
  }

  /** Rotating by a product is rotating by each factor in turn, right factor first. */
  lemma RotateMul(p: Quat, q: Quat, v: Vec3)
    ensures Rotate(Mul(p, q), v) == Rotate(p, Rotate(q, v))
  {
    var pv := Pure(v);
    RotationIsPure(q, v);
    calc {
      Mul(Mul(p, Pure(Rotate(q, v))), Conj(p));
      Mul(Mul(p, Mul(Mul(q, pv), Conj(q))), Conj(p));
      { MulAssoc(p, Mul(q, pv), Conj(q)); }
      Mul(Mul(Mul(p, Mul(q, pv)), Conj(q)), Conj(p));
      { MulAssoc(p, q, pv); }
      Mul(Mul(Mul(Mul(p, q), pv), Conj(q)), Conj(p));
      { MulAssoc(Mul(Mul(p, q), pv), Conj(q), Conj(p)); }
      Mul(Mul(Mul(p, q), pv), Mul(Conj(q), Conj(p)));
      { ConjMul(p, q); }
      Mul(Mul(Mul(p, q), pv), Conj(Mul(p, q)));
    }
  }

  /** A unit quaternion and its conjugate undo each other's rotation. */
  lemma RotateInverse(q: Quat, v: Vec3)
    requires IsUnit(q)
    ensures Rotate(q, Rotate(Conj(q), v)) == v
    ensures Rotate(Conj(q), Rotate(q, v)) == v
  {
    MulConj(q);
    RotateMul(q, Conj(q), v);
    RotateMul(Conj(q), q, v);
    assert Rotate(Identity, v) == v;
  }

  /** A unit quaternion rotates without changing lengths. */
  lemma RotateLength(q: Quat, v: Vec3)
    requires IsUnit(q)
    ensures Length2(Rotate(q, v)) == Length2(v)
  {
    RotationIsPure(q, v);
    NormMul(Mul(q, Pure(v)), Conj(q));
    NormMul(q, Pure(v));
    assert Norm2(Conj(q)) == 1.0;
    assert Norm2(Pure(Rotate(q, v))) == Length2(Rotate(q, v));
  }

  lemma UnitMul(p: Quat, q: Quat)
    requires IsUnit(p) && IsUnit(q)
    ensures IsUnit(Mul(p, q))
  {
    NormMul(p, q);
  }
}
