/** Vector, color and ray values the tracer computes with. The floating-point
    type `fp_t` of the source is taken as exact `real` arithmetic. */
module LinAlg {

  /** A point or a direction in space (`vector3<fp_t>`). */
  datatype Vec3 = Vec3(x: real, y: real, z: real)

  const Origin := Vec3(0.0, 0.0, 0.0)

  function Dot(a: Vec3, b: Vec3): real {
    a.x * b.x + a.y * b.y + a.z * b.z
  }

  function Plus(a: Vec3, b: Vec3): Vec3 {
    Vec3(a.x + b.x, a.y + b.y, a.z + b.z)
  }

  function Times(a: Vec3, k: real): Vec3 {
    Vec3(a.x * k, a.y * k, a.z * k)
  }

  /** A three-channel color, conceptually in [0,1] per channel before clamping. */
  datatype Color = Color(r: real, g: real, b: real)

  const Black := Color(0.0, 0.0, 0.0)
  const White := Color(1.0, 1.0, 1.0)
  const Red := Color(1.0, 0.0, 0.0)
  const Blue := Color(0.0, 0.0, 1.0)

  function Add(a: Color, b: Color): Color {
    Color(a.r + b.r, a.g + b.g, a.b + b.b)
  }

  function Scale(c: Color, k: real): Color {
    Color(c.r * k, c.g * k, c.b * k)
  }

  /** Every channel of `c` lies in [lo, hi]. */
  predicate ChannelsIn(c: Color, lo: real, hi: real) {
    lo <= c.r <= hi && lo <= c.g <= hi && lo <= c.b <= hi
  }

  // Helper facts about real products and color sums, used by the integrator's
  // proofs. Each is stated once, over its own parameters, so that a proof in a
  // larger context applies it instead of searching for a nonlinear step.

  lemma SameProduct(a: real, b: real, c: real, d: real)
    requires a == b && c == d
    ensures a * c == b * d
  {
  }

  lemma UnitProduct(s: real, x: real)
    requires 0.0 <= s <= 1.0 && 0.0 <= x
    ensures 0.0 <= s * x <= x
  {
  }

  /** Regrouping a product: (x * y) * p == x * (y * p), with x * y and y * p
      passed in as `xy` and `q`. */
  lemma Regroup(result: real, x: real, y: real, xy: real, p: real, q: real)
    requires xy == x * y && result == xy * p && q == y * p
    ensures result == x * q
  {
  }

  /** Scaling a color by a weight distributes over a weighted sum:
      acc + local*w + rad*(w*r) == acc + (local + rad*r)*w. */
  lemma Distribute(result: Color, acc: Color, local: Color, rad: Color, w: real, r: real, wr: real)
    requires wr == w * r
    requires result == Add(Add(acc, Scale(local, w)), Scale(rad, wr))
    ensures result == Add(acc, Scale(Add(local, Scale(rad, r)), w))
  {
    assert (rad.r * r) * w == rad.r * (w * r);
    assert (rad.g * r) * w == rad.g * (w * r);
    assert (rad.b * r) * w == rad.b * (w * r);
  }

  /** Adding black, however weighted, changes nothing. */
  lemma AddNothing(acc: Color, w: real)
    ensures Add(acc, Scale(Black, w)) == acc
  {
  }

  /** A color scaled by 1 is itself. */
  lemma UnitWeight(c: Color)
    ensures Add(Black, Scale(c, 1.0)) == c
  {
  }

  /** Two parts bounded by 1 - r and by r sum to at most 1. */
  lemma SumWithin(a: real, b: real, r: real)
    requires 0.0 <= a <= 1.0 - r && 0.0 <= b <= r
    ensures 0.0 <= a + b <= 1.0
  {
  }

  /** One channel of a mix: s*q + x*r with q = 1 - r and s, x, r in [0,1]. */
  lemma MixChannel(s: real, x: real, r: real, q: real)
    requires 0.0 <= s <= 1.0 && 0.0 <= x <= 1.0 && 0.0 <= r <= 1.0 && q == 1.0 - r
    ensures 0.0 <= s * q <= 1.0
    ensures 0.0 <= s * q + x * r <= 1.0
  {
    UnitProduct(s, q);
    UnitProduct(x, r);
    SumWithin(s * q, x * r, r);
  }

  /** Mixing two colors in [0,1] by weights (1 - r) and r, with r in [0,1],
      stays in [0,1]; so does the first part alone. */
  lemma MixWithin(s: Color, rad: Color, r: real)
    requires ChannelsIn(s, 0.0, 1.0) && ChannelsIn(rad, 0.0, 1.0) && 0.0 <= r <= 1.0
    ensures ChannelsIn(Scale(s, 1.0 - r), 0.0, 1.0)
    ensures ChannelsIn(Add(Scale(s, 1.0 - r), Scale(rad, r)), 0.0, 1.0)
  {
    MixChannel(s.r, rad.r, r, 1.0 - r);
    MixChannel(s.g, rad.g, r, 1.0 - r);
    MixChannel(s.b, rad.b, r, 1.0 - r);
  }

  /** A ray: an origin and a direction. A bounce builds a new ray rather than
      changing one in place. */
  datatype Ray = Ray(origin: Vec3, direction: Vec3)
}

module Wrappers {
  datatype Option<+T> = None | Some(value: T)
}
