/**
 * Three-dimensional vectors over the reals, standing in for the engine's
 * single-precision Vector3. Only the operations the grind logic needs are
 * defined; distances are compared through their squares, which orders
 * points exactly as the (square-rooted) Euclidean distance does.
 */
module Geometry {

  datatype Vec3 = Vec3(x: real, y: real, z: real)

  const Zero := Vec3(0.0, 0.0, 0.0)

  /** The half-unit upward offset (0, 0.5, 0) used for the rail mount height and the exit pop. */
  const HalfUp := Vec3(0.0, 0.5, 0.0)

  function Add(a: Vec3, b: Vec3): Vec3 {
    Vec3(a.x + b.x, a.y + b.y, a.z + b.z)
  }

  function Sub(a: Vec3, b: Vec3): Vec3 {
    Vec3(a.x - b.x, a.y - b.y, a.z - b.z)
  }

  function Scale(v: Vec3, s: real): Vec3 {
    Vec3(v.x * s, v.y * s, v.z * s)
  }

  function SqNorm(v: Vec3): real {
    v.x * v.x + v.y * v.y + v.z * v.z
  }

  /** Squared Euclidean distance between two points. */
  function SqDist(a: Vec3, b: Vec3): real {
    SqNorm(Sub(a, b))
  }

  /** A square below c * c puts the number strictly between -c and c. */
  lemma SquareBelowBounds(a: real, c: real)
    requires c > 0.0 && a * a < c * c
    ensures -c < a < c
  {
    assert a >= c ==> a * a >= c * a >= c * c;
    assert a <= -c ==> a * a >= -c * a >= c * c;
  }

  /** A vector shorter than c has every coordinate strictly between -c and c. */
  lemma ShortVectorBounds(v: Vec3, c: real)
    requires c > 0.0
    ensures SqNorm(v) < c * c ==> -c < v.x < c && -c < v.y < c && -c < v.z < c
  {
    var xx, yy, zz := v.x * v.x, v.y * v.y, v.z * v.z;
    assert xx >= 0.0 && yy >= 0.0 && zz >= 0.0;
    if SqNorm(v) < c * c {
      SquareBelowBounds(v.x, c);
      SquareBelowBounds(v.y, c);
      SquareBelowBounds(v.z, c);
    }
  }
}
