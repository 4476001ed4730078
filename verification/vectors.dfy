/** Points of 3-space with exact real coordinates, standing in for the host's
    vector type, and the mirror image used to build the left half of a profile. */
module Vectors {

  datatype Point = Point(x: real, y: real, z: real)

  /** Reflection across the plane x = 0 (the mirror "over the Y axis" of the
      profile's plane): x changes sign, y and z are kept. */
  function Mirror(p: Point): Point
  {
    Point(-p.x, p.y, p.z)
  }

  /** Mirroring twice gives the point back. */
  lemma MirrorInvolution(p: Point)
    ensures Mirror(Mirror(p)) == p
  {
  }

  /** The points Mirror leaves in place are exactly those on the plane x = 0. */
  lemma MirrorFixedPoints(p: Point)
    ensures Mirror(p) == p <==> p.x == 0.0
  {
  }
}
