/**
 * Bounding regions and the octant geometry of the octree.
 *
 * Coordinates are `real` (the engine uses 32-bit floats).  Only the
 * declaration of `BoundingRegion` is part of this model, not its method
 * bodies: containment of an object region in an axis-aligned box is the
 * per-axis comparison of the object's extent (a sphere's extent is the cube
 * of side `2 * radius` around its centre) with the box.
 */
module Bounds {

  datatype Vec3 = Vec3(x: real, y: real, z: real)

  /** An axis-aligned box `[min, max]`: the region of every octree node. */
  datatype Box = Box(min: Vec3, max: Vec3)

  /** The geometry of a `BoundingRegion`: a sphere or an axis-aligned box. */
  datatype Shape = Sphere(center: Vec3, radius: real) | Aabb(box: Box)

  /** A collision mesh attached to a region, known by identity and face count. */
  datatype Mesh = Mesh(id: nat, faces: nat)

  /**
   * An object's `BoundingRegion`: its world-space shape, the instance it
   * belongs to, its optional collision mesh and `cell`, the handle of the
   * octree node that last stored it (-1 for none).
   */
  datatype Region = Region(shape: Shape, instance: string, mesh: Option<Mesh>, cell: int)

  datatype Option<T> = None | Some(value: T)

  /** Tunable minimum node size: a node narrower than this is never split. */
  type MinBounds = r: real | r > 0.0 witness 1.0

  predicate WellFormed(b: Box) {
    b.min.x <= b.max.x && b.min.y <= b.max.y && b.min.z <= b.max.z
  }

  /** calculateCenter of an AABB. */
  function Center(b: Box): (c: Vec3)
    ensures WellFormed(b) ==> ContainsPoint(b, c)
  {
    Vec3((b.min.x + b.max.x) / 2.0, (b.min.y + b.max.y) / 2.0, (b.min.z + b.max.z) / 2.0)
  }

  /** calculateDimensions of an AABB. */
  function Dimensions(b: Box): Vec3 {
    Vec3(b.max.x - b.min.x, b.max.y - b.min.y, b.max.z - b.min.z)
  }

  /** Some dimension of `b` is below `MIN_BOUNDS`. */
  predicate TooSmall(b: Box, minBounds: real) {
    var d := Dimensions(b);
    d.x < minBounds || d.y < minBounds || d.z < minBounds
  }

  predicate ContainsPoint(b: Box, p: Vec3) {
    b.min.x <= p.x <= b.max.x && b.min.y <= p.y <= b.max.y && b.min.z <= p.z <= b.max.z
  }

  /** `p` lies strictly inside `b`, off every face. */
  predicate Interior(b: Box, p: Vec3) {
    b.min.x < p.x < b.max.x && b.min.y < p.y < b.max.y && b.min.z < p.z < b.max.z
  }

  /** Box-in-box containment, axis by axis. */
  predicate ContainsBox(outer: Box, inner: Box) {
    && outer.min.x <= inner.min.x && inner.max.x <= outer.max.x
    && outer.min.y <= inner.min.y && inner.max.y <= outer.max.y
    && outer.min.z <= inner.min.z && inner.max.z <= outer.max.z
  }

  /** The axis-aligned extent of a shape. */
  function Extent(s: Shape): Box {
    match s
    case Sphere(c, r) => Box(Vec3(c.x - r, c.y - r, c.z - r), Vec3(c.x + r, c.y + r, c.z + r))
    case Aabb(b) => b
  }

  /** containsRegion of a node's box: the object's extent lies inside it. */
  predicate ContainsRegion(b: Box, r: Region) {
    ContainsBox(b, Extent(r.shape))
  }

  /**
   * calculateBounds: octant `i` (the source's `Octant::O<i+1>`, i.e. the
   * flag `1 << i`) of `parent`, cut at its centre.
   */
  function Octant(parent: Box, i: nat): (out: Box)
    requires i < 8
    ensures WellFormed(parent) ==> WellFormed(out) && ContainsBox(parent, out)
    ensures Dimensions(out) == Vec3(Dimensions(parent).x / 2.0, Dimensions(parent).y / 2.0, Dimensions(parent).z / 2.0)
  {
    var c := Center(parent);
    var lo := parent.min;
    var hi := parent.max;
    match i
    case 0 => Box(c, hi)
    case 1 => Box(Vec3(lo.x, c.y, c.z), Vec3(c.x, hi.y, hi.z))
    case 2 => Box(Vec3(lo.x, lo.y, c.z), Vec3(c.x, c.y, hi.z))
    case 3 => Box(Vec3(c.x, lo.y, c.z), Vec3(hi.x, c.y, hi.z))
    case 4 => Box(Vec3(c.x, c.y, lo.z), Vec3(hi.x, hi.y, c.z))
    case 5 => Box(Vec3(lo.x, c.y, lo.z), Vec3(c.x, hi.y, c.z))
    case 6 => Box(lo, c)
    case _ => Box(Vec3(c.x, lo.y, lo.z), Vec3(hi.x, c.y, c.z))
  }

  /** Which half of each axis octant `i` covers: true for the upper half. */
  function UpperHalves(i: nat): (h: (bool, bool, bool))
    requires i < 8
  {
    match i
    case 0 => (true, true, true)
    case 1 => (false, true, true)
    case 2 => (false, false, true)
    case 3 => (true, false, true)
    case 4 => (true, true, false)
    case 5 => (false, true, false)
    case 6 => (false, false, false)
    case _ => (true, false, false)
  }

  /** The octant that covers the given halves: the inverse of `UpperHalves`. */
  function OctantOf(h: (bool, bool, bool)): (i: nat)
    ensures i < 8 && UpperHalves(i) == h
  {
    if h.2 then (if h.1 then (if h.0 then 0 else 1) else (if h.0 then 3 else 2))
    else (if h.1 then (if h.0 then 4 else 5) else (if h.0 then 7 else 6))
  }

  /** Octant `i` spans, on each axis, the half of `parent` that `UpperHalves(i)` names. */
  lemma OctantHalves(parent: Box, i: nat)
    requires i < 8
    ensures var o, c, h := Octant(parent, i), Center(parent), UpperHalves(i);
      && (o.min.x, o.max.x) == (if h.0 then (c.x, parent.max.x) else (parent.min.x, c.x))
      && (o.min.y, o.max.y) == (if h.1 then (c.y, parent.max.y) else (parent.min.y, c.y))
      && (o.min.z, o.max.z) == (if h.2 then (c.z, parent.max.z) else (parent.min.z, c.z))
  {
  }

  /** The eight octants cover the parent: every point of it lies in one of them. */
  lemma {:induction false} OctantsCover(parent: Box, p: Vec3)
    requires ContainsPoint(parent, p)
    ensures exists i :: 0 <= i < 8 && ContainsPoint(Octant(parent, i), p)
  {
    var c := Center(parent);
    var h := (p.x >= c.x, p.y >= c.y, p.z >= c.z);
    var i := OctantOf(h);
    OctantHalves(parent, i);
    assert ContainsPoint(Octant(parent, i), p);
  }

  /** Two distinct octants share no interior point: they meet only on faces. */
  lemma {:induction false} OctantsOverlapOnlyOnFaces(parent: Box, i: nat, j: nat, p: Vec3)
    requires i < 8 && j < 8 && i != j
    requires Interior(Octant(parent, i), p)
    ensures !Interior(Octant(parent, j), p)
  {
    OctantHalves(parent, i);
    OctantHalves(parent, j);
    assert UpperHalves(i) != UpperHalves(j);
  }

  /** The octants of a box that is not too small are eight different boxes. */
  lemma {:induction false} OctantsDistinct(parent: Box, i: nat, j: nat, minBounds: MinBounds)
    requires i < 8 && j < 8 && i != j && !TooSmall(parent, minBounds)
    ensures Octant(parent, i) != Octant(parent, j)
  {
    OctantHalves(parent, i);
    OctantHalves(parent, j);
    assert UpperHalves(i) != UpperHalves(j);
  }

  /** A child octant of a box at least `minBounds` wide is half as wide. */
  lemma {:induction false} OctantShrinks(parent: Box, i: nat, minBounds: MinBounds)
    requires i < 8
    requires Dimensions(parent).x >= minBounds
    ensures 0 <= (Dimensions(Octant(parent, i)).x / minBounds).Floor < (Dimensions(parent).x / minBounds).Floor
  {
    var q := Dimensions(parent).x / minBounds;
    assert q >= 1.0;
    assert Dimensions(Octant(parent, i)).x / minBounds == q / 2.0;
    assert (q / 2.0).Floor as real <= q / 2.0;
    assert q.Floor as real > q - 1.0;
  }
}
