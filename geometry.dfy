/**
 * Shared value types: optional values (the Java code's nullable references),
 * integer block locations and exact real vectors.
 */
module Geometry {

  /** A nullable reference: `None` stands for Java's `null`. */
  datatype Option<T> = None | Some(value: T)

  /** A block location on the integer lattice of one world. */
  datatype Loc = Loc(x: int, y: int, z: int)

  /** A vector of Bukkit's `Vector`, over exact reals instead of doubles. */
  datatype Vec3 = Vec3(x: real, y: real, z: real)

  const Zero: Vec3 := Vec3(0.0, 0.0, 0.0)

  function Offset(l: Loc, dx: int, dy: int, dz: int): Loc {
    Loc(l.x + dx, l.y + dy, l.z + dz)
  }

  /** The block location viewed as a point in space. */
  function ToVec(l: Loc): Vec3 {
    Vec3(l.x as real, l.y as real, l.z as real)
  }

  function Add(a: Vec3, b: Vec3): Vec3 {
    Vec3(a.x + b.x, a.y + b.y, a.z + b.z)
  }

  function Sub(a: Vec3, b: Vec3): Vec3 {
    Vec3(a.x - b.x, a.y - b.y, a.z - b.z)
  }

  function Scale(k: real, a: Vec3): Vec3 {
    Vec3(k * a.x, k * a.y, k * a.z)
  }

  function Dot(a: Vec3, b: Vec3): real {
    a.x * b.x + a.y * b.y + a.z * b.z
  }

  // ---------------------------------------------------------------------
  // The 5x5x5 grid of blocks that both ricochet handlers sample
  // ---------------------------------------------------------------------

  predicate InGrid(a: int, b: int, c: int) {
    0 <= a < 5 && 0 <= b < 5 && 0 <= c < 5
  }

  /** Cell (a, b, c) comes before cell (x, y, z) in x-major, then y, then z order. */
  predicate Precedes(a: int, b: int, c: int, x: int, y: int, z: int) {
    a < x || (a == x && (b < y || (b == y && c < z)))
  }

  /** The block at cell (i, j, k) of the grid around `center`: `center` shifted by (i, j, k) - 5 / 2. */
  function GridLoc(center: Loc, i: int, j: int, k: int): (l: Loc)
    ensures InGrid(i, j, k) ==>
      && center.x - 2 <= l.x <= center.x + 2
      && center.y - 2 <= l.y <= center.y + 2
      && center.z - 2 <= l.z <= center.z + 2
  {
    Offset(center, i - 2, j - 2, k - 2)
  }
}
