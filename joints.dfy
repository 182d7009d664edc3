/**
 * A skeleton joint: a rigid transform made of a position (translation) and an
 * orientation (rotation quaternion), and the per-joint formulas that the pose
 * algorithms of skeleton_geometry.cpp apply at every index.
 */
module Joints {
  import opened Algebra

  datatype Joint = Joint(position: Vec3, orientation: Quat)

  /** The joint whose transform changes nothing. */
  const IdentityJoint: Joint := Joint(Zero, Identity)

  /** A joint whose orientation is a unit quaternion, that is, a proper rigid transform. */
  predicate IsRigid(j: Joint) {
    IsUnit(j.orientation)
  }

  /**
   * The transform `a` followed, inside its frame, by `b`: translation
   * t_a + q_a * t_b and rotation q_a q_b.  This is the combination that
   * `multiply` applies index by index and that `local_to_global` applies to a
   * parent's global joint and a child's local joint.
   */
  function Compose(a: Joint, b: Joint): Joint {
    Joint(Add(a.position, Rotate(a.orientation, b.position)), Mul(a.orientation, b.orientation))
  }

  /** The inverse rigid transform of one joint: (conj(q) * (-t), conj(q)). */
  function Inverse(j: Joint): Joint {
    var qInv := Conj(j.orientation);
    Joint(Rotate(qInv, Neg(j.position)), qInv)
  }

  /**
   * The blend of two joints at parameter alpha: the affine combination
   * alpha p2 + (1 - alpha) p1 of the positions and slerp(q1, q2, alpha) of the
   * orientations.  The spherical interpolation itself is a parameter.
   */
  function Blend(a: Joint, b: Joint, alpha: real, slerp: (Quat, Quat, real) -> Quat): Joint {
    Joint(Add(Scale(alpha, b.position), Scale(1.0 - alpha, a.position)),
          slerp(a.orientation, b.orientation, alpha))
  }

  /** A slerp that returns its first argument at 0 and its second at 1. */
  ghost predicate SlerpHitsEnds(slerp: (Quat, Quat, real) -> Quat) {
    forall q1, q2 :: slerp(q1, q2, 0.0) == q1 && slerp(q1, q2, 1.0) == q2
  }

  /** A slerp for which running from q2 to q1 at 1 - alpha is running from q1 to q2 at alpha. */
  ghost predicate SlerpSymmetric(slerp: (Quat, Quat, real) -> Quat) {
    forall q1, q2, alpha :: slerp(q1, q2, alpha) == slerp(q2, q1, 1.0 - alpha)
  }

  lemma ComposeIdentity(j: Joint)
    ensures Compose(IdentityJoint, j) == j
    ensures Compose(j, IdentityJoint) == j
  {
    MulIdentity(j.orientation);
    assert Rotate(Identity, j.position) == j.position;
    assert Rotate(j.orientation, Zero) == Zero;
  }

  /** Composition of rigid transforms is associative. */
  lemma ComposeAssoc(a: Joint, b: Joint, c: Joint)
    ensures Compose(Compose(a, b), c) == Compose(a, Compose(b, c))
  {
    MulAssoc(a.orientation, b.orientation, c.orientation);
    RotateMul(a.orientation, b.orientation, c.position);
    RotateAdd(a.orientation, b.position, Rotate(b.orientation, c.position));
  }

  /** The composition of two rigid transforms is rigid. */
  lemma ComposeRigid(a: Joint, b: Joint)
    requires IsRigid(a) && IsRigid(b)
    ensures IsRigid(Compose(a, b))
  {
    UnitMul(a.orientation, b.orientation);
  }

  lemma InverseRigid(j: Joint)
    requires IsRigid(j)
    ensures IsRigid(Inverse(j))
  {
  }

  /** A rigid transform composed with its inverse, on either side, is the identity. */
  lemma ComposeInverse(j: Joint)
    requires IsRigid(j)
    ensures Compose(j, Inverse(j)) == IdentityJoint
    ensures Compose(Inverse(j), j) == IdentityJoint
  {
    var q, t := j.orientation, j.position;
    MulConj(q);
    RotateInverse(q, Neg(t));
    RotateNeg(Conj(q), t);
    RotateAdd(Conj(q), Neg(t), t);
    assert Add(Neg(t), t) == Zero;
    assert Rotate(Conj(q), Zero) == Zero;
  }

  /** Inverting a rigid transform twice gives it back. */
  lemma InverseInverse(j: Joint)
    requires IsRigid(j)
    ensures Inverse(Inverse(j)) == j
  {
    var q, t := j.orientation, j.position;
    assert Conj(Conj(q)) == q;
    RotateNeg(Conj(q), Neg(t));
    assert Neg(Neg(t)) == t;
    RotateInverse(q, t);
  }

  /** Composing with the inverse of a rigid `a` undoes composing with `a`. */
  lemma Cancel(a: Joint, b: Joint)
    requires IsRigid(a)
    ensures Compose(Inverse(a), Compose(a, b)) == b
  {
    ComposeAssoc(Inverse(a), a, b);
    ComposeInverse(a);
    ComposeIdentity(b);
  }

  /** At alpha = 0 the blend keeps the first position, at alpha = 1 the second. */
  lemma BlendEndPositions(a: Joint, b: Joint, slerp: (Quat, Quat, real) -> Quat)
    ensures Blend(a, b, 0.0, slerp).position == a.position
    ensures Blend(a, b, 1.0, slerp).position == b.position
  {
  }

  /** With a slerp that hits its ends, the blend at 0 and 1 gives back the input joints. */
  lemma BlendEnds(a: Joint, b: Joint, slerp: (Quat, Quat, real) -> Quat)
    requires SlerpHitsEnds(slerp)
    ensures Blend(a, b, 0.0, slerp) == a
    ensures Blend(a, b, 1.0, slerp) == b
  {
    BlendEndPositions(a, b, slerp);
  }

  /** Swapping the two joints and replacing alpha by 1 - alpha gives the same position. */
  lemma BlendSwapPosition(a: Joint, b: Joint, alpha: real, slerp: (Quat, Quat, real) -> Quat)
    ensures Blend(a, b, alpha, slerp).position == Blend(b, a, 1.0 - alpha, slerp).position
  {
  }

  /** ... and, with a symmetric slerp, the same joint. */
  lemma BlendSwap(a: Joint, b: Joint, alpha: real, slerp: (Quat, Quat, real) -> Quat)
    requires SlerpSymmetric(slerp)
    ensures Blend(a, b, alpha, slerp) == Blend(b, a, 1.0 - alpha, slerp)
  {
    BlendSwapPosition(a, b, alpha, slerp);
  }
}
