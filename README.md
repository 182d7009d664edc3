# Skeleton pose engine: joint store and pose algebra

This project models the skeletal-pose core of a character-animation teaching
exercise, `skeleton_geometry.cpp`. The core has two parts.

- The joint store `skeleton_geometry`. It is an ordered, bounds-checked
  sequence of joints, and each joint is a rigid transform made of a position
  and an orientation quaternion. Here it is the class
  `Skeleton.SkeletonGeometry`, whose `seq<Joint>` field `data` is changed in
  place by `Clear`, `PushBack` and `Update`.
- The pose algorithms. Each one builds a fresh store with a loop of
  `PushBack` calls:
  - `LocalToGlobal` is forward kinematics over a flat parent-index table, in
    one pass that reads back the partial result it is building.
  - `Inversed` inverts each joint.
  - `Multiply` composes two poses index by index.
  - `ExtractBones` returns the parent/child end points of each bone.
  - `Interpolated` blends two poses.

Each method is proved against a specification function: `GlobalOf` and
`GlobalPose`, `InversedPose`, `MultipliedPose`, `InterpolatedPose` and
`Bones`. The lemmas then prove what these functions promise:

- the forward-kinematics recurrence holds of the global pose and of nothing
  else;
- a rigid pose composed with its inverse is the identity at every joint;
- inversion is an involution, and composition is associative;
- the local pose can be recovered from the global one;
- bones of a global pose have the lengths of the local offsets;
- blends hit their end poses at 0 and 1, and swapping the two poses is the
  same as replacing alpha by 1 - alpha.

The types `vec3` and `quaternion` come from headers outside this model. They
are defined in `Algebra` over exact reals:

- the Hamilton product;
- the conjugate;
- the squared norm;
- the rotation `q * v`, defined as the vector part of q (v, 0) conj(q).

`Joints` holds the joint type and the formulas applied at each index. A failed
`ASSERT_CPE` in the source is a violated `requires` here. The parent table is
a `seq<int>`. Its entry 0 belongs to the root and is never read.

Two points where the code is more precise than a plain description of it:
- `local_to_global` never checks the ordering of the parent table. It reads
  `sk_global[p]` while the result holds only k joints, so the bounds check of
  `operator[]` passes only if `0 <= parent[k] < k`. `LocalToGlobal` therefore
  requires `ParentsPrecede`.
- `extract_bones` reads `skeleton[parent]` from a complete skeleton. It
  therefore needs only `0 <= parent[k] < N` (`ParentsInRange`), not the
  ordering.

## Model

| member | source | states |
|---|---|---|
| `Skeleton.SkeletonGeometry.constructor` | 2324-5imi-skinning-teklaw7-main/projet/src/skinning/skeleton_geometry.cpp:32-34 | a new store holds no joints |
| `Skeleton.SkeletonGeometry.Size` | 2324-5imi-skinning-teklaw7-main/projet/src/skinning/skeleton_geometry.cpp:36-39 | the number of joints, zero exactly when the store is empty |
| `Skeleton.SkeletonGeometry.Clear` | 2324-5imi-skinning-teklaw7-main/projet/src/skinning/skeleton_geometry.cpp:40-43 | afterwards the store is empty and its size is zero |
| `Skeleton.SkeletonGeometry.PushBack` | 2324-5imi-skinning-teklaw7-main/projet/src/skinning/skeleton_geometry.cpp:45-48 | the size grows by exactly one, the new joint is last, and every earlier joint is unchanged |
| `Skeleton.SkeletonGeometry.At` | 2324-5imi-skinning-teklaw7-main/projet/src/skinning/skeleton_geometry.cpp:50-56 | indexed read (const or not) accepts only 0 <= index < size and returns a stored joint, so nothing is read out of bounds |
| `Skeleton.SkeletonGeometry.Update` | 2324-5imi-skinning-teklaw7-main/projet/src/skinning/skeleton_geometry.cpp:57-63 | writing through the non-const reference accepts only 0 <= index < size, replaces that joint, and changes no other joint and not the size |
| `Skeleton.LocalToGlobal` | 2324-5imi-skinning-teklaw7-main/projet/src/skinning/skeleton_geometry.cpp:153-176 | with equal sizes and every parent before its child, the result has the input's size, copies joint 0, satisfies global[k] = (q_p * t_k + t_p, q_p q_k) for the already computed parent p, and equals the hierarchical definition; an empty input gives an empty result |
| `Skeleton.GlobalPoseUnique` | 2324-5imi-skinning-teklaw7-main/projet/src/skinning/skeleton_geometry.cpp:166-172 | a pose satisfies the single-pass recurrence if and only if it is the global pose defined by walking up the hierarchy |
| `Skeleton.GlobalAgrees` | 2324-5imi-skinning-teklaw7-main/projet/src/skinning/skeleton_geometry.cpp:166-172 | any pose that satisfies the recurrence agrees with the ancestor-walk definition at every joint |
| `Skeleton.GlobalRigid` | 2324-5imi-skinning-teklaw7-main/projet/src/skinning/skeleton_geometry.cpp:169-170 | rigid local joints give rigid global joints |
| `Skeleton.LocalFromGlobal` | 2324-5imi-skinning-teklaw7-main/projet/src/skinning/skeleton_geometry.cpp:166-172 | for rigid joints, the parent's global inverse composed with a joint's global transform gives back its local transform |
| `Skeleton.ChildOfIdentityRoot` | 2324-5imi-skinning-teklaw7-main/projet/src/skinning/skeleton_geometry.cpp:166-171 | a child of a root at the identity keeps its local transform; in a two-joint chain, a child at (1, 0, 0) ends up at (1, 0, 0) |
| `Skeleton.Inversed` | 2324-5imi-skinning-teklaw7-main/projet/src/skinning/skeleton_geometry.cpp:177-193 | the result keeps size and order, and joint k is (conj(q_k) * (-t_k), conj(q_k)) |
| `Skeleton.InversedInvolutive` | 2324-5imi-skinning-teklaw7-main/projet/src/skinning/skeleton_geometry.cpp:184-189 | inverting a rigid pose twice gives it back |
| `Skeleton.MultiplyInversed` | 2324-5imi-skinning-teklaw7-main/projet/src/skinning/skeleton_geometry.cpp:187-210 | multiply(s, inversed(s)) and multiply(inversed(s), s) are the identity orientation with zero position at every joint of a rigid pose |
| `Skeleton.Multiply` | 2324-5imi-skinning-teklaw7-main/projet/src/skinning/skeleton_geometry.cpp:195-216 | requires equal sizes; the result has that size, and joint k is (t1 + q1 * t2, q1 q2), combined per index |
| `Skeleton.MultiplyAssoc` | 2324-5imi-skinning-teklaw7-main/projet/src/skinning/skeleton_geometry.cpp:209-210 | per-joint composition of poses is associative |
| `Skeleton.ExtractBones` | 2324-5imi-skinning-teklaw7-main/projet/src/skinning/skeleton_geometry.cpp:218-237 | requires equal sizes and parents in range; returns 2 (N - 1) points for N >= 1 and none for N = 0; point 2(k - 1) is the parent's position and point 2(k - 1) + 1 is joint k's |
| `Skeleton.BonesAt` | 2324-5imi-skinning-teklaw7-main/projet/src/skinning/skeleton_geometry.cpp:225-234 | the bone list of the first n joints has 2 (n - 1) points, and pair k - 1 is (position of parent[k], position of k) |
| `Skeleton.BoneLength` | 2324-5imi-skinning-teklaw7-main/projet/src/skinning/skeleton_geometry.cpp:229-230 | in a global pose of rigid joints, each bone segment is as long as the child's local offset |
| `Skeleton.Interpolated` | 2324-5imi-skinning-teklaw7-main/projet/src/skinning/skeleton_geometry.cpp:239-259 | requires equal sizes; the result has that size, and joint k is (alpha p2 + (1 - alpha) p1, slerp(q1, q2, alpha)) |
| `Skeleton.InterpolatedEndPositions` | 2324-5imi-skinning-teklaw7-main/projet/src/skinning/skeleton_geometry.cpp:253 | at alpha = 0 every position is the first pose's, at alpha = 1 the second's |
| `Skeleton.InterpolatedEnds` | 2324-5imi-skinning-teklaw7-main/projet/src/skinning/skeleton_geometry.cpp:253-254 | with a slerp that hits its ends, the blend at 0 is the first pose and at 1 the second |
| `Skeleton.InterpolatedSwapPositions` | 2324-5imi-skinning-teklaw7-main/projet/src/skinning/skeleton_geometry.cpp:253 | interpolate(A, B, alpha) and interpolate(B, A, 1 - alpha) have the same positions |
| `Skeleton.InterpolatedSwap` | 2324-5imi-skinning-teklaw7-main/projet/src/skinning/skeleton_geometry.cpp:253-254 | with a symmetric slerp, interpolate(A, B, alpha) = interpolate(B, A, 1 - alpha) |
| `Joints.ComposeIdentity` | 2324-5imi-skinning-teklaw7-main/projet/src/skinning/skeleton_geometry.cpp:209-210 | the identity joint is a neutral element on both sides of composition |
| `Joints.ComposeAssoc` | 2324-5imi-skinning-teklaw7-main/projet/src/skinning/skeleton_geometry.cpp:209-210 | composition of joints is associative |
| `Joints.ComposeRigid` | 2324-5imi-skinning-teklaw7-main/projet/src/skinning/skeleton_geometry.cpp:169 | composing two rigid joints gives a rigid joint |
| `Joints.InverseRigid` | 2324-5imi-skinning-teklaw7-main/projet/src/skinning/skeleton_geometry.cpp:187 | the inverse of a rigid joint is rigid |
| `Joints.ComposeInverse` | 2324-5imi-skinning-teklaw7-main/projet/src/skinning/skeleton_geometry.cpp:187-188 | a rigid joint composed with its inverse, on either side, is the identity joint |
| `Joints.InverseInverse` | 2324-5imi-skinning-teklaw7-main/projet/src/skinning/skeleton_geometry.cpp:187-188 | inverting a rigid joint twice gives it back |
| `Joints.Cancel` | 2324-5imi-skinning-teklaw7-main/projet/src/skinning/skeleton_geometry.cpp:169-170 | composing with the inverse of a rigid joint undoes composing with that joint |
| `Joints.BlendEndPositions` | 2324-5imi-skinning-teklaw7-main/projet/src/skinning/skeleton_geometry.cpp:253 | the blended position is p1 at alpha = 0 and p2 at alpha = 1 |
| `Joints.BlendEnds` | 2324-5imi-skinning-teklaw7-main/projet/src/skinning/skeleton_geometry.cpp:253-254 | with a slerp that hits its ends, the blend is the first joint at 0 and the second at 1 |
| `Joints.BlendSwapPosition` | 2324-5imi-skinning-teklaw7-main/projet/src/skinning/skeleton_geometry.cpp:253 | swapping the joints and replacing alpha by 1 - alpha keeps the position |
| `Joints.BlendSwap` | 2324-5imi-skinning-teklaw7-main/projet/src/skinning/skeleton_geometry.cpp:253-254 | with a symmetric slerp, swapping the joints and replacing alpha by 1 - alpha keeps the joint |
| `Algebra.MulAssoc` | 2324-5imi-skinning-teklaw7-main/projet/src/skinning/skeleton_geometry.cpp:169 | the quaternion product used for orientations is associative |
| `Algebra.NormMul` | 2324-5imi-skinning-teklaw7-main/projet/src/skinning/skeleton_geometry.cpp:169 | the norm of a product of quaternions is the product of their norms |
| `Algebra.RotateMul` | 2324-5imi-skinning-teklaw7-main/projet/src/skinning/skeleton_geometry.cpp:169-170 | rotating by q_p q_k is rotating by q_k, then by q_p |
| `Algebra.RotateInverse` | 2324-5imi-skinning-teklaw7-main/projet/src/skinning/skeleton_geometry.cpp:187-188 | for a unit quaternion, rotating by q and by conj(q) undo each other |
| `Algebra.RotateLength` | 2324-5imi-skinning-teklaw7-main/projet/src/skinning/skeleton_geometry.cpp:170 | rotating by a unit quaternion preserves the length of a vector |

Helpers without a row: the component expansions in `Algebra`
(`ProductLeftX` … `ProductRightW`, `NormOfProduct`, `ProductOfNorms`,
`ConjMulX` … `ConjMulW`), `ConjMul`, `MulConj`, `MulIdentity`,
`RotationIsPure`, `RotateAdd`, `RotateNeg` and `UnitMul`.

## Left out

- `save` and `load` (skeleton_geometry.cpp:65-135) are text-file I/O through
  file streams with string tokenising. `load` also renormalises the
  quaternions it reads, which needs a square root.
- `operator<<` (:144-149) only formats a store on a stream.
- The iterator accessors `begin`, `end`, `cbegin` and `cend` (:137-142) only
  expose `data`. The model exposes `data` as a sequence, and `Inversed` walks
  it directly, as the range-`for` of `inversed` does.
- `float` arithmetic is out of the model. Vectors, quaternions and `alpha` are
  exact reals, so the results are exact rather than within a rounding
  tolerance.
- `slerp`, with its trigonometry, is a function-valued parameter. It is
  uninterpreted. What the lemmas need of it is stated as the preconditions
  `SlerpHitsEnds` and `SlerpSymmetric`.
- A unit orientation is a precondition (`IsRigid`, `IsRigidPose`) of the
  lemmas that need one. No normalisation is modelled.
- The error machinery is out of the model: `ASSERT_CPE` and the
  `exception_cpe` it throws become violated `requires` clauses.
- Skeleton.SkeletonGeometry.Size: returns a `nat`. The narrowing of the
  vector's `size_t` to `int` in the source matters only above 2^31 - 1 joints
  and is not modelled.
- The bounds checks of `skeleton_parent_id::operator[]` are out of the model,
  because that class's header is not part of this model. Every read of the
  parent table here is at an index below its size.
- Skeleton.SkeletonGeometry.At: its contract only states that the returned joint is a
  stored one. That it is the joint at `index` follows from its body, and the
  contracts of `PushBack` and `Update` state it in terms of `At`.
- The pose methods have no `modifies` clause, so they cannot change their
  input stores. Their contracts therefore do not restate that the inputs are
  unchanged.
