/**
 * The joint store `skeleton_geometry` and the pose algorithms built on it:
 * forward kinematics over a flat parent table (`local_to_global`), per-joint
 * inversion (`inversed`), per-joint composition (`multiply`), bone segments for
 * drawing (`extract_bones`) and pose blending (`interpolated`).
 *
 * A failed `ASSERT_CPE` of the source is a violated `requires` here.  The
 * parent table `skeleton_parent_id` is a plain sequence of indices; entry 0
 * belongs to the root and is never read.
 */
module Skeleton {
  import opened Algebra
  import opened Joints

  /** An ordered, bounds-checked store of joints that grows by appending. */
  class SkeletonGeometry {
    var data: seq<Joint>

    constructor ()
      ensures data == []
    {
      data := [];
    }

    /** The number of joints. */
    function Size(): (n: nat)
      reads this
      ensures n == 0 <==> data == []
    {
      |data|
    }

    method Clear()
      modifies this
      ensures data == [] && Size() == 0
    {
      data := [];
    }

    /** Appends a joint after the existing ones. */
    method PushBack(joint: Joint)
      modifies this
      ensures data == old(data) + [joint]
      ensures Size() == old(Size()) + 1 && At(Size() - 1) == joint
      ensures forall i :: 0 <= i < old(Size()) ==> At(i) == old(At(i))
    {
      data := data + [joint];
    }

    /** Reading joint `index`, through either form of `operator[]`; only indices of stored joints are accepted. */
    function At(index: int): (joint: Joint)
      reads this
      requires 0 <= index < Size()
      ensures joint in data
    {
      data[index]
    }

    /** Writing joint `index` through the reference the non-const `operator[]` returns. */
    method Update(index: int, joint: Joint)
      requires 0 <= index < Size()
      modifies this
      ensures data == old(data)[index := joint]
      ensures Size() == old(Size()) && At(index) == joint
      ensures forall i :: 0 <= i < Size() && i != index ==> At(i) == old(At(i))
    {
      data := data[index := joint];
    }
  }

  // ---------------------------------------------------------------------------
  // Forward kinematics

  /** Every joint but the root has a parent that comes before it. */
  predicate ParentsPrecede(parent: seq<int>) {
    forall k :: 1 <= k < |parent| ==> 0 <= parent[k] < k
  }

  /**
   * The global transform of joint k, defined by walking up the hierarchy: the
   * root's global transform is its local one, and any other joint's is its
   * parent's global transform composed with its own local transform.
   */
  function GlobalOf(local: seq<Joint>, parent: seq<int>, k: nat): Joint
    requires |local| == |parent| && ParentsPrecede(parent) && k < |local|
    decreases k
  {
    if k == 0 then local[0] else Compose(GlobalOf(local, parent, parent[k]), local[k])
  }

  /** The global pose: joint by joint, the global transform of each local joint. */
  function GlobalPose(local: seq<Joint>, parent: seq<int>): seq<Joint>
    requires |local| == |parent| && ParentsPrecede(parent)
  {
    seq(|local|, k requires 0 <= k < |local| => GlobalOf(local, parent, k))
  }

  /**
   * The recurrence the single pass of `local_to_global` establishes: same size,
   * the root copied, and every other joint its (already computed) parent's
   * global joint composed with its local joint.
   */
  ghost predicate IsGlobalPoseOf(global: seq<Joint>, local: seq<Joint>, parent: seq<int>)
    requires |local| == |parent| && ParentsPrecede(parent)
  {
    && |global| == |local|
    && (|local| > 0 ==> global[0] == local[0])
    && (forall k :: 1 <= k < |local| ==> global[k] == Compose(global[parent[k]], local[k]))
  }

  /** The recurrence holds of the global pose and of nothing else. */
  lemma {:induction false} GlobalPoseUnique(global: seq<Joint>, local: seq<Joint>, parent: seq<int>)
    requires |local| == |parent| && ParentsPrecede(parent)
    ensures IsGlobalPoseOf(global, local, parent) <==> global == GlobalPose(local, parent)
  {
    var g := GlobalPose(local, parent);
    if IsGlobalPoseOf(global, local, parent) {
      forall k | 0 <= k < |local|
        ensures global[k] == g[k]
      {
        GlobalAgrees(global, local, parent, k);
      }
    }
  }

  lemma {:induction false} GlobalAgrees(global: seq<Joint>, local: seq<Joint>, parent: seq<int>, k: nat)
    requires |local| == |parent| && ParentsPrecede(parent)
    requires IsGlobalPoseOf(global, local, parent) && k < |local|
    ensures global[k] == GlobalOf(local, parent, k)
    decreases k
  {
    if k > 0 {
      GlobalAgrees(global, local, parent, parent[k]);
    }
  }

  /** Forward kinematics of rigid local joints yields rigid global joints. */
  lemma {:induction false} GlobalRigid(local: seq<Joint>, parent: seq<int>, k: nat)
    requires |local| == |parent| && ParentsPrecede(parent) && k < |local|
    requires forall i :: 0 <= i < |local| ==> IsRigid(local[i])
    ensures IsRigid(GlobalOf(local, parent, k))
    decreases k
  {
    if k > 0 {
      GlobalRigid(local, parent, parent[k]);
      ComposeRigid(GlobalOf(local, parent, parent[k]), local[k]);
    }
  }

  /**
   * The local pose can be read back from the global one: for rigid joints, the
   * inverse of the parent's global transform composed with a joint's global
   * transform is that joint's local transform.
   */
  lemma LocalFromGlobal(local: seq<Joint>, parent: seq<int>, k: nat)
    requires |local| == |parent| && ParentsPrecede(parent) && 1 <= k < |local|
    requires forall i :: 0 <= i < |local| ==> IsRigid(local[i])
    ensures Compose(Inverse(GlobalPose(local, parent)[parent[k]]), GlobalPose(local, parent)[k]) == local[k]
  {
    GlobalRigid(local, parent, parent[k]);
    Cancel(GlobalOf(local, parent, parent[k]), local[k]);
  }

  /**
   * Below a root at the identity, a child of the root keeps its local transform:
   * in a two-joint chain with the child at offset (1, 0, 0), the child's global
   * position is (1, 0, 0).
   */
  lemma ChildOfIdentityRoot(local: seq<Joint>, parent: seq<int>, k: nat)
    requires |local| == |parent| && ParentsPrecede(parent) && 1 <= k < |local|
    requires local[0] == IdentityJoint && parent[k] == 0
    ensures GlobalPose(local, parent)[k] == local[k]
  {
    assert GlobalOf(local, parent, k) == Compose(IdentityJoint, local[k]);
    ComposeIdentity(local[k]);
  }

  /**
   * `local_to_global`: joint 0 is copied, then joints 1, 2, ... are computed in
   * index order from the global joint of their parent, read back from the
   * result under construction.  This requires each parent index to be below
   * the joint's own index.
   */
  method LocalToGlobal(skLocal: SkeletonGeometry, parent: seq<int>) returns (skGlobal: SkeletonGeometry)
    requires skLocal.Size() == |parent|
    requires ParentsPrecede(parent)
    ensures fresh(skGlobal)
    ensures IsGlobalPoseOf(skGlobal.data, skLocal.data, parent)
    ensures skGlobal.data == GlobalPose(skLocal.data, parent)
  {
    skGlobal := new SkeletonGeometry();
    var n := skLocal.Size();
    if n <= 0 {
      return;
    }
    var root := skLocal.At(0);
    skGlobal.PushBack(Joint(root.position, root.orientation));
    var k := 1;
    while k < n
      invariant 1 <= k <= n && fresh(skGlobal)
      invariant |skGlobal.data| == k
      invariant forall i :: 0 <= i < k ==> skGlobal.data[i] == GlobalOf(skLocal.data, parent, i)
    {
      var p := parent[k];
      var gp := skGlobal.At(p);
      var lk := skLocal.At(k);
      var q := Mul(gp.orientation, lk.orientation);
      var t := Add(Rotate(gp.orientation, lk.position), gp.position);
      skGlobal.PushBack(Joint(t, q));
      k := k + 1;
    }
    GlobalPoseUnique(skGlobal.data, skLocal.data, parent);
  }

  // ---------------------------------------------------------------------------
  // Per-joint algebra over whole poses

  /** Joint by joint, the inverse transform. */
  function InversedPose(s: seq<Joint>): seq<Joint> {
    seq(|s|, k requires 0 <= k < |s| => Inverse(s[k]))
  }

  /** Joint by joint, the composition of the two poses; requires poses of equal size. */
  function MultipliedPose(s1: seq<Joint>, s2: seq<Joint>): seq<Joint>
    requires |s1| == |s2|
  {
    seq(|s1|, k requires 0 <= k < |s1| => Compose(s1[k], s2[k]))
  }

  /** Joint by joint, the blend of the two poses; requires poses of equal size. */
  function InterpolatedPose(s1: seq<Joint>, s2: seq<Joint>, alpha: real, slerp: (Quat, Quat, real) -> Quat): seq<Joint>
    requires |s1| == |s2|
  {
    seq(|s1|, k requires 0 <= k < |s1| => Blend(s1[k], s2[k], alpha, slerp))
  }

  ghost predicate IsRigidPose(s: seq<Joint>) {
    forall k :: 0 <= k < |s| ==> IsRigid(s[k])
  }

  /** A rigid pose composed with its inverse, on either side, is the identity at every joint. */
  lemma MultiplyInversed(s: seq<Joint>)
    requires IsRigidPose(s)
    ensures forall k :: 0 <= k < |s| ==> MultipliedPose(s, InversedPose(s))[k] == IdentityJoint
    ensures forall k :: 0 <= k < |s| ==> MultipliedPose(InversedPose(s), s)[k] == IdentityJoint
  {
    forall k | 0 <= k < |s|
      ensures MultipliedPose(s, InversedPose(s))[k] == IdentityJoint
      ensures MultipliedPose(InversedPose(s), s)[k] == IdentityJoint
    {
      ComposeInverse(s[k]);
    }
  }

  /** Inverting a rigid pose twice gives it back. */
  lemma InversedInvolutive(s: seq<Joint>)
    requires IsRigidPose(s)
    ensures InversedPose(InversedPose(s)) == s
  {
    forall k | 0 <= k < |s|
      ensures InversedPose(InversedPose(s))[k] == s[k]
    {
      InverseInverse(s[k]);
    }
  }

  /** Per-joint composition of poses is associative. */
  lemma MultiplyAssoc(s1: seq<Joint>, s2: seq<Joint>, s3: seq<Joint>)
    requires |s1| == |s2| == |s3|
    ensures MultipliedPose(MultipliedPose(s1, s2), s3) == MultipliedPose(s1, MultipliedPose(s2, s3))
  {
    forall k | 0 <= k < |s1|
      ensures MultipliedPose(MultipliedPose(s1, s2), s3)[k] == MultipliedPose(s1, MultipliedPose(s2, s3))[k]
    {
      ComposeAssoc(s1[k], s2[k], s3[k]);
    }
  }

  /** At alpha = 0 the blend reproduces the first pose's positions, at alpha = 1 the second's. */
  lemma InterpolatedEndPositions(s1: seq<Joint>, s2: seq<Joint>, slerp: (Quat, Quat, real) -> Quat)
    requires |s1| == |s2|
    ensures forall k :: 0 <= k < |s1| ==>
      InterpolatedPose(s1, s2, 0.0, slerp)[k].position == s1[k].position &&
      InterpolatedPose(s1, s2, 1.0, slerp)[k].position == s2[k].position
  {
    forall k | 0 <= k < |s1|
      ensures InterpolatedPose(s1, s2, 0.0, slerp)[k].position == s1[k].position
      ensures InterpolatedPose(s1, s2, 1.0, slerp)[k].position == s2[k].position
    {
      BlendEndPositions(s1[k], s2[k], slerp);
    }
  }

  /** With a slerp that hits its ends, the blend at 0 is the first pose and at 1 the second. */
  lemma InterpolatedEnds(s1: seq<Joint>, s2: seq<Joint>, slerp: (Quat, Quat, real) -> Quat)
    requires |s1| == |s2| && SlerpHitsEnds(slerp)
    ensures InterpolatedPose(s1, s2, 0.0, slerp) == s1
    ensures InterpolatedPose(s1, s2, 1.0, slerp) == s2
  {
    forall k | 0 <= k < |s1|
      ensures InterpolatedPose(s1, s2, 0.0, slerp)[k] == s1[k]
      ensures InterpolatedPose(s1, s2, 1.0, slerp)[k] == s2[k]
    {
      BlendEnds(s1[k], s2[k], slerp);
    }
  }

  /** Blending B into A at alpha gives the positions of blending A into B at 1 - alpha. */
  lemma InterpolatedSwapPositions(s1: seq<Joint>, s2: seq<Joint>, alpha: real, slerp: (Quat, Quat, real) -> Quat)
    requires |s1| == |s2|
    ensures forall k :: 0 <= k < |s1| ==>
      InterpolatedPose(s1, s2, alpha, slerp)[k].position == InterpolatedPose(s2, s1, 1.0 - alpha, slerp)[k].position
  {
    forall k | 0 <= k < |s1|
      ensures InterpolatedPose(s1, s2, alpha, slerp)[k].position == InterpolatedPose(s2, s1, 1.0 - alpha, slerp)[k].position
    {
      BlendSwapPosition(s1[k], s2[k], alpha, slerp);
    }
  }

  /** ... and, with a symmetric slerp, the same pose. */
  lemma InterpolatedSwap(s1: seq<Joint>, s2: seq<Joint>, alpha: real, slerp: (Quat, Quat, real) -> Quat)
    requires |s1| == |s2| && SlerpSymmetric(slerp)
    ensures InterpolatedPose(s1, s2, alpha, slerp) == InterpolatedPose(s2, s1, 1.0 - alpha, slerp)
  {
    forall k | 0 <= k < |s1|
      ensures InterpolatedPose(s1, s2, alpha, slerp)[k] == InterpolatedPose(s2, s1, 1.0 - alpha, slerp)[k]
    {
      BlendSwap(s1[k], s2[k], alpha, slerp);
    }
  }

  /** `inversed`: walks the joints in order and appends the inverse of each. */
  method Inversed(skeleton: SkeletonGeometry) returns (skInversed: SkeletonGeometry)
    ensures fresh(skInversed)
    ensures skInversed.data == InversedPose(skeleton.data)
  {
    skInversed := new SkeletonGeometry();
    for i := 0 to |skeleton.data|
      invariant fresh(skInversed)
      invariant skInversed.data == InversedPose(skeleton.data[..i])
    {
      var joint := skeleton.data[i];
      var q := joint.orientation;
      var t := joint.position;
      var qInv := Conj(q);
      var tInv := Rotate(qInv, Neg(t));
      skInversed.PushBack(Joint(tInv, qInv));
    }
    assert skeleton.data[..|skeleton.data|] == skeleton.data;
  }

  /** `multiply`: requires skeletons of equal size and composes them index by index. */
  method Multiply(skeleton1: SkeletonGeometry, skeleton2: SkeletonGeometry) returns (sk: SkeletonGeometry)
    requires skeleton1.Size() == skeleton2.Size()
    ensures fresh(sk)
    ensures sk.data == MultipliedPose(skeleton1.data, skeleton2.data)
  {
    sk := new SkeletonGeometry();
    var nJoint := skeleton1.Size();
    for k := 0 to nJoint
      invariant fresh(sk)
      invariant sk.data == MultipliedPose(skeleton1.data[..k], skeleton2.data[..k])
    {
      var q1 := skeleton1.At(k).orientation;
      var q2 := skeleton2.At(k).orientation;
      var t1 := skeleton1.At(k).position;
      var t2 := skeleton2.At(k).position;
      var q := Mul(q1, q2);
      var t := Add(t1, Rotate(q1, t2));
      sk.PushBack(Joint(t, q));
    }
    assert skeleton1.data[..nJoint] == skeleton1.data;
    assert skeleton2.data[..nJoint] == skeleton2.data;
  }

  /**
   * `interpolated`: requires skeletons of equal size and blends them index by
   * index; `slerp` stands for the library's spherical interpolation.
   */
  method Interpolated(skeleton1: SkeletonGeometry, skeleton2: SkeletonGeometry, alpha: real,
                      slerp: (Quat, Quat, real) -> Quat)
    returns (sk: SkeletonGeometry)
    requires skeleton1.Size() == skeleton2.Size()
    ensures fresh(sk)
    ensures sk.data == InterpolatedPose(skeleton1.data, skeleton2.data, alpha, slerp)
  {
    sk := new SkeletonGeometry();
    var nJoint := skeleton1.Size();
    for k := 0 to nJoint
      invariant fresh(sk)
      invariant sk.data == InterpolatedPose(skeleton1.data[..k], skeleton2.data[..k], alpha, slerp)
    {
      var joint1 := skeleton1.At(k);
      var joint2 := skeleton2.At(k);
      var position := Add(Scale(alpha, joint2.position), Scale(1.0 - alpha, joint1.position));
      var orientation := slerp(joint1.orientation, joint2.orientation, alpha);
      sk.PushBack(Joint(position, orientation));
    }
    assert skeleton1.data[..nJoint] == skeleton1.data;
    assert skeleton2.data[..nJoint] == skeleton2.data;
  }

  // ---------------------------------------------------------------------------
  // Bone segments

  /** Every joint but the root has a parent index inside the skeleton. */
  predicate ParentsInRange(parent: seq<int>) {
    forall k :: 1 <= k < |parent| ==> 0 <= parent[k] < |parent|
  }

  /** The segment end points of joints 1 .. n - 1: parent position, then own position, for each. */
  function Bones(s: seq<Joint>, parent: seq<int>, n: nat): seq<Vec3>
    requires |s| == |parent| && ParentsInRange(parent) && n <= |parent|
  {
    if n <= 1 then [] else Bones(s, parent, n - 1) + [s[parent[n - 1]].position, s[n - 1].position]
  }

  /** Bones of the first n joints: 2 (n - 1) points, and pair k - 1 is the segment from joint k's parent to joint k. */
  lemma {:induction false} BonesAt(s: seq<Joint>, parent: seq<int>, n: nat)
    requires |s| == |parent| && ParentsInRange(parent) && n <= |parent|
    ensures |Bones(s, parent, n)| == if n == 0 then 0 else 2 * (n - 1)
    ensures forall k :: 1 <= k < n ==>
      Bones(s, parent, n)[2 * (k - 1)] == s[parent[k]].position &&
      Bones(s, parent, n)[2 * (k - 1) + 1] == s[k].position
  {
    if n > 1 {
      BonesAt(s, parent, n - 1);
    }
  }

  /**
   * Bones of a global pose have the lengths of the local offsets: the segment
   * of joint k is its local position rotated into its parent's global frame.
   */
  lemma BoneLength(local: seq<Joint>, parent: seq<int>, k: nat)
    requires |local| == |parent| && ParentsPrecede(parent) && 1 <= k < |local|
    requires IsRigidPose(local)
    ensures ParentsInRange(parent)
    ensures |Bones(GlobalPose(local, parent), parent, |parent|)| == 2 * (|parent| - 1)
    ensures var b := Bones(GlobalPose(local, parent), parent, |parent|);
      Length2(Sub(b[2 * (k - 1) + 1], b[2 * (k - 1)])) == Length2(local[k].position)
  {
    var g := GlobalPose(local, parent);
    BonesAt(g, parent, |parent|);
    var gp := GlobalOf(local, parent, parent[k]);
    GlobalRigid(local, parent, parent[k]);
    assert Sub(g[k].position, gp.position) == Rotate(gp.orientation, local[k].position);
    RotateLength(gp.orientation, local[k].position);
  }

  /**
   * `extract_bones`: requires a parent table of the skeleton's size and, for
   * each joint k from 1, appends its parent's position and its own.
   */
  method ExtractBones(skeleton: SkeletonGeometry, parent: seq<int>) returns (positions: seq<Vec3>)
    requires skeleton.Size() == |parent|
    requires ParentsInRange(parent)
    ensures positions == Bones(skeleton.data, parent, |parent|)
    ensures |positions| == if |parent| == 0 then 0 else 2 * (|parent| - 1)
    ensures forall k :: 1 <= k < |parent| ==>
      positions[2 * (k - 1)] == skeleton.data[parent[k]].position &&
      positions[2 * (k - 1) + 1] == skeleton.data[k].position
  {
    positions := [];
    var nJoint := |parent|;
    var k := 1;
    while k < nJoint
      invariant 1 <= k && (nJoint > 0 ==> k <= nJoint)
      invariant positions == Bones(skeleton.data, parent, if nJoint == 0 then 0 else k)
    {
      var p := parent[k];
      positions := positions + [skeleton.At(p).position];
      positions := positions + [skeleton.At(k).position];
      k := k + 1;
    }
    BonesAt(skeleton.data, parent, nJoint);
  }
}
