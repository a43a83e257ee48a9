/** The per-pixel bodies of the four render kernels (`render_depth`,
    `render_normal`, `render_material`, `render_reflection`): the mapping of a
    pixel to a point on the view plane, the conversion of a value to an 8-bit
    channel, and the packing of three channels into one 32-bit ARGB word. */
module Kernels {
  import opened LinAlg
  import opened Scene
  import opened Materials
  import opened Integrator
  import opened IntegratorFacts

  /** Side of the square sampling region, in pixels, before anti-aliasing. */
  const Edge: int := 640
  /** Distance at which the depth kernel reaches black. */
  const MaxDepth: real := 20.0
  /** Iterations the reflection kernel allows the integrator. */
  const ReflectDepth: int := 3
  /** The word of a pixel whose three channels are 0: opaque black. */
  const OpaqueBlack: bv32 := 0xff00_0000

  // ---------------------------------------------------------------------
  // Packing

  /** 0xff000000 | (r << 16) | (g << 8) | b: channels that fit in a byte come
      back out of their own byte, under an alpha byte of 0xff. */
  function Pack(r: bv32, g: bv32, b: bv32): (p: bv32)
    ensures r < 256 && g < 256 && b < 256 ==>
      Alpha(p) == 0xff && Red(p) == r && Green(p) == g && Blue(p) == b
  {
    0xff00_0000 | (r << 16) | (g << 8) | b
  }

  /** An unsigned channel level as the 32-bit word the shifts work on. */
  function Word(level: int): bv32
    requires 0 <= level < 0x1_0000_0000
  {
    level as bv32
  }

  function Alpha(p: bv32): bv32 { p >> 24 }
  function Red(p: bv32): bv32 { (p >> 16) & 0xff }
  function Green(p: bv32): bv32 { (p >> 8) & 0xff }
  function Blue(p: bv32): bv32 { p & 0xff }

  /** A channel of 256 does not fit its byte: its ninth bit lands in the byte
      above, so two different channel triples give the same word, and a red
      channel of 256 vanishes under the alpha byte. */
  lemma PackBleeds()
    ensures Pack(0, 256, 0) == Pack(1, 0, 0)
    ensures Pack(256, 0, 0) == Pack(0, 0, 0) == OpaqueBlack
    ensures Green(Pack(0, 256, 0)) == 0 && Red(Pack(0, 256, 0)) == 1
  {
  }

  // ---------------------------------------------------------------------
  // From a value to a channel level

  /** `saturate`: clamp to [0,1]; values already inside are kept. */
  function Saturate(v: real): (s: real)
    ensures 0.0 <= s <= 1.0
    ensures 0.0 <= v <= 1.0 ==> s == v
    ensures v < 0.0 ==> s == 0.0
    ensures v > 1.0 ==> s == 1.0
  {
    if v < 0.0 then 0.0 else if v > 1.0 then 1.0 else v
  }

  /** `static_cast<unsigned int>` of a non-negative value: the whole part. */
  function Truncate(v: real): (k: int)
    requires v >= 0.0
    ensures 0 <= k && k as real <= v < k as real + 1.0
  {
    v.Floor
  }

  /** A color component as a channel level: saturate, scale by 255, truncate. */
  function Level(v: real): (c: int)
    ensures 0 <= c <= 255
    ensures v <= 0.0 ==> c == 0
    ensures v >= 1.0 ==> c == 255
  {
    Truncate(Saturate(v) * 255.0)
  }

  /** A brighter component never gives a darker channel. */
  lemma LevelMonotone(u: real, v: real)
    requires u <= v
    ensures Level(u) <= Level(v)
  {
  }

  /** The depth kernel's gray level: 255 - 255 * saturate(distance / 20),
      truncated; 255 at the eye, 0 from `MaxDepth` on. */
  function DepthLevel(distance: real): (c: int)
    ensures 0 <= c <= 255
    ensures distance <= 0.0 ==> c == 255
    ensures distance >= MaxDepth ==> c == 0
  {
    Truncate(255.0 - 255.0 * Saturate(distance / MaxDepth))
  }

  /** Farther hits are never brighter. */
  lemma DepthLevelMonotone(near: real, far: real)
    requires near <= far
    ensures DepthLevel(far) <= DepthLevel(near)
  {
  }

  /** The normal kernel's channel as the source computes it: (n + 1) * 128,
      truncated. For a unit normal's component it reaches 256, one more than a
      byte holds, exactly when the component is 1. */
  function NormalLevelAsWritten(n: real): (c: int)
    requires -1.0 <= n <= 1.0
    ensures 0 <= c <= 256
    ensures c == 256 <==> n == 1.0
  {
    Truncate((n + 1.0) * 128.0)
  }

  /** The normal kernel's channel held to a byte: the same level wherever the
      source's fits, and 255 at the one point where it overflows. */
  function NormalLevel(n: real): (c: int)
    requires -1.0 <= n <= 1.0
    ensures 0 <= c <= 255
    ensures n < 1.0 ==> c == NormalLevelAsWritten(n)
    ensures n == 1.0 ==> c == 255
  {
    var k := NormalLevelAsWritten(n);
    if k > 255 then 255 else k
  }

  // ---------------------------------------------------------------------
  // The pixel a kernel writes for one hit

  /** The depth kernel's word: a gray level under alpha 0xff, opaque black on a
      miss, white at the eye and black from `MaxDepth` on. */
  function DepthPixel(h: Hit): (p: bv32)
    ensures Alpha(p) == 0xff && Red(p) == Green(p) == Blue(p)
    ensures h.isHit ==> Red(p) == Word(DepthLevel(h.distance))
    ensures !h.isHit ==> p == OpaqueBlack
    ensures h.isHit && h.distance <= 0.0 ==> p == 0xffff_ffff
    ensures h.isHit && h.distance >= MaxDepth ==> p == OpaqueBlack
  {
    if h.isHit then
      var c := Word(DepthLevel(h.distance));
      Pack(c, c, c)
    else
      Pack(0, 0, 0)
  }

  /** Every component of a unit normal lies in [-1, 1]. */
  predicate InUnitBox(n: Vec3) {
    -1.0 <= n.x <= 1.0 && -1.0 <= n.y <= 1.0 && -1.0 <= n.z <= 1.0
  }

  /** The normal kernel's word as the source computes it. It agrees with the
      corrected `NormalPixel` whenever no component of the normal is 1. */
  function NormalPixelAsWritten(h: Hit): (p: bv32)
    requires h.isHit ==> InUnitBox(h.normal)
    ensures !h.isHit ==> p == OpaqueBlack
    ensures h.isHit && h.normal.x < 1.0 && h.normal.y < 1.0 && h.normal.z < 1.0 ==> p == NormalPixel(h)
  {
    if h.isHit then
      Pack(Word(NormalLevelAsWritten(h.normal.x)),
           Word(NormalLevelAsWritten(h.normal.y)),
           Word(NormalLevelAsWritten(h.normal.z)))
    else
      Pack(0, 0, 0)
  }

  /** The normal kernel's word with each channel held to a byte: every
      component comes back out of its own channel. */
  function NormalPixel(h: Hit): (p: bv32)
    requires h.isHit ==> InUnitBox(h.normal)
    ensures Alpha(p) == 0xff
    ensures h.isHit ==>
      Red(p) == Word(NormalLevel(h.normal.x)) &&
      Green(p) == Word(NormalLevel(h.normal.y)) &&
      Blue(p) == Word(NormalLevel(h.normal.z))
    ensures !h.isHit ==> p == OpaqueBlack
  {
    if h.isHit then
      Pack(Word(NormalLevel(h.normal.x)), Word(NormalLevel(h.normal.y)), Word(NormalLevel(h.normal.z)))
    else
      Pack(0, 0, 0)
  }

  /** Normal (1, 0, 0): red's level is 256, whose ninth bit lands in the
      green byte's place below alpha's, so red reads 0 where it should be full. */
  lemma NormalOverflowX()
    ensures var h := Hit(true, 1.0, Origin, Vec3(1.0, 0.0, 0.0), 0);
      NormalPixelAsWritten(h) == 0xff00_8080 && Red(NormalPixelAsWritten(h)) == 0 &&
      Red(NormalPixel(h)) == 0xff
  {
    var h := Hit(true, 1.0, Origin, Vec3(1.0, 0.0, 0.0), 0);
    assert NormalLevelAsWritten(1.0) == 256 && NormalLevelAsWritten(0.0) == 128;
    assert NormalPixelAsWritten(h) == Pack(256, 128, 128);
    assert NormalLevel(1.0) == 255 && NormalLevel(0.0) == 128;
    assert NormalPixel(h) == Pack(255, 128, 128);
  }

  /** Normal (0, 1, 0): green's level 256 loses its ninth bit into red, so
      the word reads red 0x81 and green 0 where green should be full. */
  lemma NormalOverflowY()
    ensures var h := Hit(true, 1.0, Origin, Vec3(0.0, 1.0, 0.0), 0);
      NormalPixelAsWritten(h) == 0xff81_0080 && Green(NormalPixelAsWritten(h)) == 0 &&
      Red(NormalPixelAsWritten(h)) == 0x81 && Green(NormalPixel(h)) == 0xff
  {
    var h := Hit(true, 1.0, Origin, Vec3(0.0, 1.0, 0.0), 0);
    assert NormalLevelAsWritten(1.0) == 256 && NormalLevelAsWritten(0.0) == 128;
    assert NormalPixelAsWritten(h) == Pack(128, 256, 128);
    assert NormalLevel(1.0) == 255 && NormalLevel(0.0) == 128;
    assert NormalPixel(h) == Pack(128, 255, 128);
  }

  /** The material and reflection kernels' word for a color: each component
      saturated, scaled to a level and packed under alpha 0xff. */
  function ColorPixel(c: Color): (p: bv32)
    ensures Alpha(p) == 0xff
    ensures Red(p) == Word(Level(c.r)) && Green(p) == Word(Level(c.g)) && Blue(p) == Word(Level(c.b))
    ensures c == Black ==> p == OpaqueBlack
  {
    Pack(Word(Level(c.r)), Word(Level(c.g)), Word(Level(c.b)))
  }

  // ---------------------------------------------------------------------
  // From a pixel to the view plane

  /** C++ integer division by 2: the quotient is rounded toward zero. */
  function HalfTowardZero(a: int): (q: int)
    ensures a >= 0 ==> 0 <= a - 2 * q <= 1
    ensures a < 0 ==> 0 <= 2 * q - a <= 1
  {
    if a >= 0 then a / 2 else -((-a) / 2)
  }

  /** `(dimension - edge) / 2`: where the sampling region starts. */
  function Shift(dimension: int, edge: int): int {
    HalfTowardZero(dimension - edge)
  }

  /** The region is centred: when the surface is larger, the margins before
      and after the region differ by at most one pixel, the larger one after;
      when it is smaller, the region overhangs on both sides, the larger
      overhang again after. */
  lemma ShiftCentres(dimension: int, edge: int)
    ensures var before := Shift(dimension, edge);
      var after := dimension - (Shift(dimension, edge) + edge);
      if dimension >= edge then 0 <= before <= after <= before + 1
      else after <= before <= 0 && before <= after + 1
  {
  }

  /** `sx = (x - xshift) / edge`. */
  function ViewX(x: int, shift: int, edge: int): real
    requires edge != 0
  {
    (x - shift) as real / edge as real
  }

  /** `sy = 1 - (y - yshift) / edge`. */
  function ViewY(y: int, shift: int, edge: int): real
    requires edge != 0
  {
    1.0 - (y - shift) as real / edge as real
  }

  /** The region's corners: the first column maps to 0 and the column one past
      the region to 1, so the last column inside stays below 1; the first row
      maps to 1 and the row one past the region to 0. */
  lemma ViewCorners(shift: int, edge: int)
    requires edge > 0
    ensures ViewX(shift, shift, edge) == 0.0
    ensures ViewX(shift + edge, shift, edge) == 1.0
    ensures ViewX(shift + edge - 1, shift, edge) < 1.0
    ensures ViewY(shift, shift, edge) == 1.0
    ensures ViewY(shift + edge, shift, edge) == 0.0
  {
  }

  /** A column lands in [0, 1) exactly when it lies in the sampling region. */
  lemma ViewXInside(x: int, shift: int, edge: int)
    requires edge > 0
    ensures 0.0 <= ViewX(x, shift, edge) < 1.0 <==> shift <= x < shift + edge
  {
    var t := (x - shift) as real;
    var e := edge as real;
    assert ViewX(x, shift, edge) * e == t;
    if 0.0 <= ViewX(x, shift, edge) < 1.0 {
      assert 0.0 <= t < e;
    }
  }

  /** The camera: a point on the view plane to a primary ray. Its formula is
      not part of this model. */
  type Camera = (real, real) -> Ray

  /** The primary ray of pixel (x, y) on a surface of `width` by `height`
      pixels with a sampling region of side `edge`. */
  function ViewRay(camera: Camera, x: int, y: int, width: int, height: int, edge: int): Ray
    requires edge != 0
  {
    camera(ViewX(x, Shift(width, edge), edge), ViewY(y, Shift(height, edge), edge))
  }

  // ---------------------------------------------------------------------
  // The kernels, one pixel each

  /** `render_depth` for pixel (x, y): the single sphere is `probe`. The word
      is gray and opaque. */
  function DepthKernel(x: int, y: int, width: int, height: int, camera: Camera, probe: Ray -> Hit): (p: bv32)
    ensures Alpha(p) == 0xff && Red(p) == Green(p) == Blue(p)
    ensures !probe(ViewRay(camera, x, y, width, height, Edge)).isHit ==> p == OpaqueBlack
  {
    DepthPixel(probe(ViewRay(camera, x, y, width, height, Edge)))
  }

  /** `render_normal` for pixel (x, y), with each channel held to a byte; the
      single sphere is `probe`, which reports unit normals. */
  function NormalKernel(x: int, y: int, width: int, height: int, camera: Camera, probe: Ray -> Hit): (p: bv32)
    requires forall ray :: probe(ray).isHit ==> InUnitBox(probe(ray).normal)
    ensures Alpha(p) == 0xff
    ensures !probe(ViewRay(camera, x, y, width, height, Edge)).isHit ==> p == OpaqueBlack
  {
    NormalPixel(probe(ViewRay(camera, x, y, width, height, Edge)))
  }

  /** `render_normal` for pixel (x, y) as the source computes it: opaque black
      on a miss, and the same word as `NormalKernel` unless a component of the
      normal is exactly 1, where the channel overflows (see `NormalOverflowX`). */
  function NormalKernelAsWritten(x: int, y: int, width: int, height: int, camera: Camera, probe: Ray -> Hit): (p: bv32)
    requires forall ray :: probe(ray).isHit ==> InUnitBox(probe(ray).normal)
    ensures !probe(ViewRay(camera, x, y, width, height, Edge)).isHit ==> p == OpaqueBlack
    ensures var n := probe(ViewRay(camera, x, y, width, height, Edge)).normal;
      n.x < 1.0 && n.y < 1.0 && n.z < 1.0 ==> p == NormalKernel(x, y, width, height, camera, probe)
  {
    NormalPixelAsWritten(probe(ViewRay(camera, x, y, width, height, Edge)))
  }

  /** What `render_material` shows for a ray: the sample of the nearest hit's
      material, or opaque black on a miss. */
  function MaterialPixel(w: World, ray: Ray): (p: bv32)
    requires w.Routable()
    ensures Alpha(p) == 0xff
    ensures !NextHit(w, ray).isHit ==> p == OpaqueBlack
  {
    var h := NextHit(w, ray);
    if h.isHit then
      NextHitRoutes(w, ray);
      ColorPixel(w.shade(w.materials[h.material], ray, h.position, h.normal))
    else
      Pack(0, 0, 0)
  }

  /** `render_material` for pixel (x, y): one nearest-hit scan and one sample. */
  method MaterialKernel(x: int, y: int, width: int, height: int, camera: Camera,
                        scene: SceneStorage, materials: MaterialStorage,
                        intersect: Intersector, shade: Shader) returns (pixel: bv32)
    requires scene.Valid() && materials.Valid()
    requires SceneWorld(scene.geometries[..], materials.materials[..], intersect, shade).Routable()
    ensures pixel == MaterialPixel(SceneWorld(scene.geometries[..], materials.materials[..], intersect, shade),
                                   ViewRay(camera, x, y, width, height, Edge))
  {
    ghost var w := SceneWorld(scene.geometries[..], materials.materials[..], intersect, shade);
    var xshift := Shift(width, Edge);
    var yshift := Shift(height, Edge);
    var sy := 1.0 - (y - yshift) as real / Edge as real;
    var sx := (x - xshift) as real / Edge as real;
    var ray := camera(sx, sy);
    assert ray == ViewRay(camera, x, y, width, height, Edge);
    var ir := scene.Intersect(ray, intersect);
    assert ir == NextHit(w, ray);
    var r, g, b := 0, 0, 0;
    if ir.isHit {
      NextHitRoutes(w, ray);
      var color := materials.Sample(ir.material, ray, ir.position, ir.normal, shade);
      r := Level(color.r);
      g := Level(color.g);
      b := Level(color.b);
    }
    pixel := Pack(Word(r), Word(g), Word(b));
  }

  /** `render_reflection` for pixel (x, y) at anti-aliasing factor `aaFactor`:
      the integrator's color for the pixel's primary ray, with at most three
      iterations; opaque black when that ray hits nothing. */
  method ReflectionKernel(x: int, y: int, width: int, height: int, aaFactor: int, camera: Camera,
                          scene: SceneStorage, materials: MaterialStorage,
                          intersect: Intersector, shade: Shader) returns (pixel: bv32)
    requires aaFactor != 0
    requires scene.Valid() && materials.Valid()
    requires SceneWorld(scene.geometries[..], materials.materials[..], intersect, shade).Routable()
    ensures var w := SceneWorld(scene.geometries[..], materials.materials[..], intersect, shade);
      var ray := ViewRay(camera, x, y, width, height, Edge * aaFactor);
      pixel == ColorPixel(Traced(w, ray, ReflectDepth)) &&
      (!NextHit(w, ray).isHit ==> pixel == OpaqueBlack)
  {
    ghost var w := SceneWorld(scene.geometries[..], materials.materials[..], intersect, shade);
    var edge := Edge * aaFactor;
    var xshift := Shift(width, edge);
    var yshift := Shift(height, edge);
    var sy := 1.0 - (y - yshift) as real / edge as real;
    var sx := (x - xshift) as real / edge as real;
    var ray := camera(sx, sy);
    assert ray == ViewRay(camera, x, y, width, height, edge);
    SceneWorldDescribes(scene, materials, intersect, shade);
    var color := Reflection(ray, scene, materials, ReflectDepth, intersect, shade, w);
    var r := Level(color.r);
    var g := Level(color.g);
    var b := Level(color.b);
    pixel := Pack(Word(r), Word(g), Word(b));
    if !NextHit(w, ray).isHit {
      MissIsBlack(w, ray, ReflectDepth);
    }
  }
}
