/**
  Three-component vectors, used both for positions (`glam::Vec3`) and for
  RGB colours (`[f32; 3]` converted into `Vec3`), with the component-wise
  arithmetic the mesh code performs.
 */
module Vectors {

  datatype Vec3 = Vec3(x: real, y: real, z: real)

  function Add(u: Vec3, v: Vec3): Vec3
  {
    Vec3(u.x + v.x, u.y + v.y, u.z + v.z)
  }

  /** `v * s` for a scalar `s`. */
  function Scale(v: Vec3, s: real): Vec3
  {
    Vec3(v.x * s, v.y * s, v.z * s)
  }

  /** `v / s` for a non-zero scalar `s`. */
  function Div(v: Vec3, s: real): Vec3
    requires s != 0.0
  {
    Vec3(v.x / s, v.y / s, v.z / s)
  }

  /** Channel `i` (0, 1 or 2) of a vector. */
  function Channel(v: Vec3, i: nat): real
    requires i < 3
  {
    if i == 0 then v.x else if i == 1 then v.y else v.z
  }

  lemma ChannelScale(v: Vec3, s: real, i: nat)
    requires i < 3
    ensures Channel(Scale(v, s), i) == Channel(v, i) * s
  {
  }
}
