/** The skinning data of an `AnimatedMesh` that the joint code touches: each
    vertex's four influencing joint indices (`glm::ivec4`). */
module Meshes {

  datatype JointInfluence = JointInfluence(x: int, y: int, z: int, w: int)

  /** Applies `f` to each of the four joint indices. */
  function MapInfluence(v: JointInfluence, f: int -> int): (r: JointInfluence)
    ensures r.x == f(v.x) && r.y == f(v.y) && r.z == f(v.z) && r.w == f(v.w)
  {
    JointInfluence(f(v.x), f(v.y), f(v.z), f(v.w))
  }

  /** All four joint indices lie in `[lo, hi)`. */
  predicate InfluenceWithin(v: JointInfluence, lo: int, hi: int)
  {
    lo <= v.x < hi && lo <= v.y < hi && lo <= v.z < hi && lo <= v.w < hi
  }
}
