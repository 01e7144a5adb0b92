/** Plane vectors over exact reals: the arithmetic the physics step performs
    on ball positions and velocities (JavaScript doubles read as reals). */
module Vectors {

  datatype Vec = Vec(x: real, y: real)

  const Zero: Vec := Vec(0.0, 0.0)

  function Add(u: Vec, v: Vec): Vec {
    Vec(u.x + v.x, u.y + v.y)
  }

  function Sub(u: Vec, v: Vec): Vec {
    Vec(u.x - v.x, u.y - v.y)
  }

  function Scale(k: real, v: Vec): Vec {
    Vec(k * v.x, k * v.y)
  }

  function Dot(u: Vec, v: Vec): real {
    u.x * v.x + u.y * v.y
  }

  /** The identity on reals. `Sq` multiplies through it so that the solver
      treats a square as a product of two terms, not as a power; its
      reasoning about powers of reals is unreliable. */
  function Same(a: real): real {
    a
  }

  /** `Math.pow(a, 2)`. */
  function Sq(a: real): (r: real)
    ensures r >= 0.0
    ensures a != 0.0 ==> r > 0.0
  {
    a * Same(a)
  }

  /** Squared length; the modelled code never takes a square root. */
  function Norm2(v: Vec): (r: real)
    ensures r >= 0.0
  {
    Sq(v.x) + Sq(v.y)
  }

  /** Only the zero vector has squared length 0. */
  lemma Norm2Positive(v: Vec)
    requires v != Zero
    ensures Norm2(v) > 0.0
  {
    if v.x != 0.0 {
      assert Sq(v.x) > 0.0;
    } else {
      assert Sq(v.y) > 0.0;
    }
  }

  /** Squared Euclidean distance between two centres. */
  function SqDist(u: Vec, v: Vec): (r: real)
    ensures r >= 0.0
  {
    Norm2(Sub(u, v))
  }

  /** A gap of at least `w >= 0` along x forces a squared distance of at least `w * w`. */
  lemma GapBoundsSqDist(u: Vec, v: Vec, w: real)
    requires w >= 0.0
    requires u.x - v.x >= w || v.x - u.x >= w
    ensures SqDist(u, v) >= w * w
  {
    var d := Sub(u, v);
    SqAtLeast(d.x, w);
    assert SqDist(u, v) == Sq(d.x) + Sq(d.y);
  }

  lemma SqAtLeast(a: real, w: real)
    requires w >= 0.0
    requires a >= w || -a >= w
    ensures Sq(a) >= w * w
  {
    if a >= w {
      assert a * a >= w * w;
    } else {
      assert (-a) * (-a) >= w * w;
      assert a * a == (-a) * (-a);
    }
  }
}
