/** The bounded reflection integrator (`reflection`): follow a ray through at
    most `maxReflect` mirror bounces, adding each hit's own shading weighted by
    the reflectiveness left over from the earlier hits. */
module Integrator {
  import opened LinAlg
  import opened Scene
  import opened Materials

  /** The mirror image of direction `d` about the normal `n`: d - 2(n·d)n. */
  function Reflect(d: Vec3, n: Vec3): (r: Vec3)
    ensures Dot(n, n) == 1.0 ==> Dot(n, r) == -Dot(n, d)
  {
    Plus(Times(n, -2.0 * Dot(n, d)), d)
  }

  /** For a unit normal, reflecting keeps the direction's length. */
  lemma ReflectKeepsLength(d: Vec3, n: Vec3)
    requires Dot(n, n) == 1.0
    ensures Dot(Reflect(d, n), Reflect(d, n)) == Dot(d, d)
  {
    var k := Dot(n, d);
    var r := Reflect(d, n);
    calc {
      Dot(r, r);
      Dot(d, d) - 4.0 * k * Dot(n, d) + 4.0 * k * k * Dot(n, n);
      Dot(d, d);
    }
  }

  /** What the integrator reads: the scene's nearest-hit query, the material
      store's contents and the material formula. */
  datatype World = World(nearest: Ray -> Hit, materials: seq<Material>, shade: Shader)
  {
    /** Every hit the scene reports names a material slot that exists. */
    ghost predicate Routable() {
      forall ray :: nearest(ray).isHit ==> 0 <= nearest(ray).material < |materials|
    }
  }

  /** The world of a scene store's contents: its query is the nearest-hit
      scan over the primitives' own results. */
  function SceneWorld(geometries: seq<Geometry>, materials: seq<Material>,
                      intersect: Intersector, shade: Shader): World
  {
    World(ray => Nearest(HitsOf(geometries, ray, intersect)), materials, shade)
  }

  /** Routing, for a scene store: a primitive reports its own material id, and
      the scene's material ids index the material store. Then every hit the
      scan returns names a material slot that exists. */
  lemma SceneWorldRoutable(geometries: seq<Geometry>, materials: seq<Material>,
                           intersect: Intersector, shade: Shader)
    requires forall g, ray :: intersect(g, ray).isHit ==> intersect(g, ray).material == g.material
    requires forall i :: 0 <= i < |geometries| ==> 0 <= geometries[i].material < |materials|
    ensures SceneWorld(geometries, materials, intersect, shade).Routable()
  {
    forall ray
      ensures var h := Nearest(HitsOf(geometries, ray, intersect));
        h.isHit ==> 0 <= h.material < |materials|
    {
      var hits := HitsOf(geometries, ray, intersect);
      var k := Winner(hits);
      if k >= 0 {
        assert hits[k] == intersect(geometries[k], ray);
      }
    }
  }

  /** The stores as their constructors build them are routable: the three
      primitives name materials 0, 1 and 2, and there are three material slots. */
  lemma DefaultStoresRoutable(intersect: Intersector, shade: Shader)
    requires forall g, ray :: intersect(g, ray).isHit ==> intersect(g, ray).material == g.material
    ensures SceneWorld(DefaultGeometries(), DefaultMaterials(), intersect, shade).Routable()
  {
    SceneWorldRoutable(DefaultGeometries(), DefaultMaterials(), intersect, shade);
  }

  /** `w` is what the integrator reads from the two stores: its query is the
      scene store's scan and its materials are the material store's slots. */
  ghost predicate Describes(w: World, scene: SceneStorage, materials: MaterialStorage,
                            intersect: Intersector, shade: Shader)
    reads scene, scene.geometries, materials, materials.materials
  {
    (forall ray {:trigger HitsOf(scene.geometries[..], ray, intersect)} ::
       w.nearest(ray) == Nearest(HitsOf(scene.geometries[..], ray, intersect))) &&
    w.materials == materials.materials[..] && w.shade == shade
  }

  /** The world built from the stores' contents is the one they describe. */
  lemma SceneWorldDescribes(scene: SceneStorage, materials: MaterialStorage,
                            intersect: Intersector, shade: Shader)
    ensures Describes(SceneWorld(scene.geometries[..], materials.materials[..], intersect, shade),
                      scene, materials, intersect, shade)
  {
  }

  /** The scene's nearest hit for `ray`. */
  function NextHit(w: World, ray: Ray): Hit {
    w.nearest(ray)
  }

  lemma NextHitRoutes(w: World, ray: Ray)
    requires w.Routable()
    ensures NextHit(w, ray).isHit ==> 0 <= NextHit(w, ray).material < |w.materials|
  {
  }

  /** One shading evaluation: the material's sample and its reflectiveness. */
  datatype Bounce = Bounce(sample: Color, reflectiveness: real)

  /** The hits the integrator shades, starting from `ray` with at most `n`
      iterations to go: it stops at `n`, on a miss, or at a hit whose
      reflectiveness is not positive. (The source tests the running weight,
      which stays positive while the loop goes on; `SignOfWeight` shows the two
      tests agree.) */
  function Path(w: World, ray: Ray, n: int): seq<Bounce>
    requires w.Routable()
    decreases n
  {
    if n <= 0 then []
    else
      var h := NextHit(w, ray);
      if !h.isHit then []
      else
        NextHitRoutes(w, ray);
        var m := w.materials[h.material];
        var b := Bounce(w.shade(m, ray, h.position, h.normal), m.reflectiveness);
        if b.reflectiveness > 0.0 then
          [b] + Path(w, Ray(h.position, Reflect(ray.direction, h.normal)), n - 1)
        else
          [b]
  }

  /** With a positive running weight, the source's test on the new weight
      decides the same as a test on the hit's reflectiveness. */
  lemma SignOfWeight(weight: real, refC: real)
    requires weight > 0.0
    ensures weight * refC > 0.0 <==> refC > 0.0
  {
    if refC > 0.0 {
      assert weight * refC > 0.0;
    } else {
      assert weight * refC <= 0.0;
    }
  }

  /** One iteration of `Path` on a hit, unfolded. */
  lemma PathOnHit(w: World, ray: Ray, n: int)
    requires w.Routable() && n > 0 && NextHit(w, ray).isHit
    ensures 0 <= NextHit(w, ray).material < |w.materials|
    ensures var h := NextHit(w, ray);
      var m := w.materials[h.material];
      var b := Bounce(w.shade(m, ray, h.position, h.normal), m.reflectiveness);
      Path(w, ray, n) ==
        if b.reflectiveness > 0.0
        then [b] + Path(w, Ray(h.position, Reflect(ray.direction, h.normal)), n - 1)
        else [b]
  {
    NextHitRoutes(w, ray);
  }

  /** What a bounce adds at weight `weight`: its sample, scaled by the part
      it does not reflect and by the weight left over from earlier bounces. */
  function Contribution(b: Bounce, weight: real): Color {
    Scale(Scale(b.sample, 1.0 - b.reflectiveness), weight)
  }

  /** The weight left after a bounce. */
  function Carried(weight: real, b: Bounce): real {
    weight * b.reflectiveness
  }

  /** The loop's running sum over the bounces `bs`, starting from the color
      `acc` and the weight `weight`: each bounce adds its contribution and
      passes on the weight it carries. */
  function Gather(bs: seq<Bounce>, acc: Color, weight: real): Color {
    if bs == [] then acc
    else Gather(bs[1..], Add(acc, Contribution(bs[0], weight)), Carried(weight, bs[0]))
  }

  /** One step of the running sum, for a path that starts with `b`. */
  lemma GatherCons(b: Bounce, rest: seq<Bounce>, acc: Color, weight: real)
    ensures Gather([b] + rest, acc, weight) ==
      Gather(rest, Add(acc, Contribution(b, weight)), Carried(weight, b))
  {
    assert ([b] + rest)[0] == b && ([b] + rest)[1..] == rest;
  }

  /** The color the integrator returns for `ray` with `maxReflect` iterations. */
  function Traced(w: World, ray: Ray, maxReflect: int): Color
    requires w.Routable()
  {
    Gather(Path(w, ray, maxReflect), Black, 1.0)
  }

  /** The weight the loop holds after the bounces `bs`, starting from
      `weight`. */
  function Carry(bs: seq<Bounce>, weight: real): real {
    if bs == [] then weight else Carry(bs[1..], Carried(weight, bs[0]))
  }

  /** The product of the reflectiveness values of `bs`. */
  function Product(bs: seq<Bounce>): real {
    if bs == [] then 1.0 else bs[0].reflectiveness * Product(bs[1..])
  }

  /** The closed form of the color: the sum over j of
      sample_j * (1 - reflectiveness_j) * (product of the reflectiveness
      values before j). */
  function WeightedSum(bs: seq<Bounce>): Color {
    if bs == [] then Black
    else
      var j := |bs| - 1;
      Add(WeightedSum(bs[..j]), Contribution(bs[j], Product(bs[..j])))
  }

  /** The weight after the bounces is the starting weight times the product
      of their reflectiveness values. */
  lemma {:induction false} CarryIsProduct(bs: seq<Bounce>, weight: real)
    ensures Carry(bs, weight) == weight * Product(bs)
  {
    if bs != [] {
      CarryIsProduct(bs[1..], Carried(weight, bs[0]));
      Regroup(Carry(bs, weight), weight, bs[0].reflectiveness, Carried(weight, bs[0]),
              Product(bs[1..]), Product(bs));
    }
  }

  /** The running sum over two runs of bounces: the second run starts from the
      color and the weight the first one leaves. */
  lemma {:induction false} GatherSplit(first: seq<Bounce>, second: seq<Bounce>, acc: Color, weight: real)
    ensures Gather(first + second, acc, weight) ==
      Gather(second, Gather(first, acc, weight), Carry(first, weight))
  {
    if first != [] {
      var b := first[0];
      assert (first + second)[0] == b && (first + second)[1..] == first[1..] + second;
      GatherSplit(first[1..], second, Add(acc, Contribution(b, weight)), Carried(weight, b));
    } else {
      assert first + second == second;
    }
  }

  /** Appending one bounce to the run. */
  lemma GatherSnoc(bs: seq<Bounce>, b: Bounce, acc: Color, weight: real)
    ensures Gather(bs + [b], acc, weight) == Add(Gather(bs, acc, weight), Contribution(b, Carry(bs, weight)))
  {
    GatherSplit(bs, [b], acc, weight);
    GatherCons(b, [], Gather(bs, acc, weight), Carry(bs, weight));
    assert [b] + [] == [b];
  }

  /** Started from black at full weight, the running sum is the closed form. */
  lemma {:induction false} GatherIsWeightedSum(bs: seq<Bounce>)
    ensures Gather(bs, Black, 1.0) == WeightedSum(bs)
  {
    if bs != [] {
      var j := |bs| - 1;
      assert bs == bs[..j] + [bs[j]];
      GatherIsWeightedSum(bs[..j]);
      GatherSnoc(bs[..j], bs[j], Black, 1.0);
      CarryIsProduct(bs[..j], 1.0);
      assert Carry(bs[..j], 1.0) == Product(bs[..j]);
    }
  }

  /** Accumulation, whole path: the integrator's color is the closed form. */
  lemma TracedIsWeightedSum(w: World, ray: Ray, n: int)
    requires w.Routable()
    ensures Traced(w, ray, n) == WeightedSum(Path(w, ray, n))
  {
    GatherIsWeightedSum(Path(w, ray, n));
  }

  /** The closed-form side of a hit: appending a bounce multiplies the
      product by its reflectiveness. */
  lemma {:induction false} ProductSnoc(bs: seq<Bounce>, b: Bounce)
    ensures Product(bs + [b]) == Product(bs) * b.reflectiveness
  {
    if bs != [] {
      assert (bs + [b])[0] == bs[0] && (bs + [b])[1..] == bs[1..] + [b];
      ProductSnoc(bs[1..], b);
      Regroup(Product(bs) * b.reflectiveness, bs[0].reflectiveness, Product(bs[1..]), Product(bs),
              b.reflectiveness, Product(bs[1..] + [b]));
    } else {
      assert [] + [b] == [b];
    }
  }

  /** One iteration of the integrator on a hit. Before it, the loop's color and
      weight are the closed form and the product over the first `i` hits `P[..i]`
      and the rest of the path from `ray` is `P[i..]`; the source's updates give
      the closed form and the product over `P[..i + 1]`. The loop goes on from
      the mirrored ray with `P[i + 1..]` still to come when the new weight is
      positive, and that was the last hit otherwise. */
  lemma HitStep(w: World, ray: Ray, k: int, P: seq<Bounce>, i: int,
                acc: Color, weight: real, sample: Color, refC: real, acc': Color, weight': real)
    requires w.Routable() && k > 0 && weight > 0.0
    requires NextHit(w, ray).isHit && 0 <= NextHit(w, ray).material < |w.materials|
    requires var h := NextHit(w, ray);
      sample == w.shade(w.materials[h.material], ray, h.position, h.normal) &&
      refC == w.materials[h.material].reflectiveness
    requires 0 <= i <= |P| && Path(w, ray, k) == P[i..]
    requires acc == WeightedSum(P[..i]) && weight == Product(P[..i])
    requires acc' == Add(acc, Scale(Scale(sample, 1.0 - refC), weight)) && weight' == weight * refC
    ensures i < |P| && acc' == WeightedSum(P[..i + 1]) && weight' == Product(P[..i + 1])
    ensures var h := NextHit(w, ray);
      weight' > 0.0 ==> Path(w, Ray(h.position, Reflect(ray.direction, h.normal)), k - 1) == P[i + 1..]
    ensures weight' <= 0.0 ==> P[..i + 1] == P
  {
    PathOnHit(w, ray, k);
    SignOfWeight(weight, refC);
    var h := NextHit(w, ray);
    var b := Bounce(sample, refC);
    var rest := if refC > 0.0 then Path(w, Ray(h.position, Reflect(ray.direction, h.normal)), k - 1) else [];
    assert P[i..] == [b] + rest;
    assert P[i..][0] == P[i] && P[i..][1..] == P[i + 1..];
    assert P[..i + 1][..i] == P[..i] && P[..i + 1][i] == b;
    assert P[..i + 1] == P[..i] + [b];
    ProductSnoc(P[..i], b);
    SameProduct(weight, Product(P[..i]), refC, b.reflectiveness);
    if refC <= 0.0 {
      assert P[..i + 1] == P;
    }
  }

  /** The loop has nothing left to do from `ray`: then the first `i` hits are
      the whole path. */
  lemma StopStep(w: World, ray: Ray, k: int, P: seq<Bounce>, i: int)
    requires w.Routable() && 0 <= i <= |P| && Path(w, ray, k) == P[i..]
    requires k <= 0 || !NextHit(w, ray).isHit
    ensures P[..i] == P
  {
    assert P[i..] == [];
  }

  /** The integrator itself: a loop of at most `maxReflect` iterations that
      keeps the running color and the remaining weight, and replaces the ray by
      its mirror reflection at each hit. After `i` iterations the color is the
      closed-form sum over the first `i` hits of the path and the weight is the
      product of their reflectiveness values. */
  method Reflection(iRay: Ray, scene: SceneStorage, materials: MaterialStorage, maxReflect: int,
                    intersect: Intersector, shade: Shader, ghost w: World) returns (finalColor: Color)
    requires scene.Valid() && materials.Valid()
    requires Describes(w, scene, materials, intersect, shade) && w.Routable()
    ensures finalColor == WeightedSum(Path(w, iRay, maxReflect))
    ensures finalColor == Traced(w, iRay, maxReflect)
  {
    ghost var P := Path(w, iRay, maxReflect);
    finalColor := Black;
    var reflectiveness := 1.0;
    var ray := iRay;
    var i := 0;
    while i < maxReflect
      invariant 0 <= i <= |P|
      invariant reflectiveness > 0.0
      invariant Path(w, ray, maxReflect - i) == P[i..]
      invariant finalColor == WeightedSum(P[..i])
      invariant reflectiveness == Product(P[..i])
    {
      var r := scene.Intersect(ray, intersect);
      assert r == NextHit(w, ray);
      if r.isHit {
        NextHitRoutes(w, ray);
        assert w.materials[r.material] == materials.materials[r.material];
        var refC := materials.GetReflectiveness(r.material);
        var color := materials.Sample(r.material, ray, r.position, r.normal, shade);
        ghost var acc, weight, sample := finalColor, reflectiveness, color;
        color := Scale(color, 1.0 - refC);
        finalColor := Add(finalColor, Scale(color, reflectiveness));
        reflectiveness := reflectiveness * refC;
        HitStep(w, ray, maxReflect - i, P, i, acc, weight, sample, refC, finalColor, reflectiveness);
        if reflectiveness > 0.0 {
          ray := Ray(r.position, Reflect(ray.direction, r.normal));
        } else {
          break;
        }
      } else {
        StopStep(w, ray, maxReflect - i, P, i);
        break;
      }
      i := i + 1;
    }
    if i >= maxReflect {
      StopStep(w, ray, maxReflect - i, P, i);
    }
    TracedIsWeightedSum(w, iRay, maxReflect);
  }
}

/** Properties of the integrator, stated over its specification `Traced`. */
module IntegratorFacts {
  import opened LinAlg
  import opened Scene
  import opened Materials
  import opened Integrator

  /** Termination: the integrator shades at most `maxReflect` hits, and none
      when `maxReflect` is not positive. */
  lemma {:induction false} AtMostMaxReflectBounces(w: World, ray: Ray, n: int)
    decreases n
    requires w.Routable()
    ensures |Path(w, ray, n)| <= if n < 0 then 0 else n
  {
    if n > 0 && NextHit(w, ray).isHit {
      var h := NextHit(w, ray);
      PathOnHit(w, ray, n);
      AtMostMaxReflectBounces(w, Ray(h.position, Reflect(ray.direction, h.normal)), n - 1);
    }
  }

  /** Miss: with no iterations allowed, or when the first ray hits nothing,
      the result is exactly black. */
  lemma MissIsBlack(w: World, ray: Ray, n: int)
    requires w.Routable()
    requires n <= 0 || !NextHit(w, ray).isHit
    ensures Path(w, ray, n) == []
    ensures Traced(w, ray, n) == Black
  {
  }

  /** Stop: when the first hit's material does not reflect, the loop stops
      after it and the result is exactly that one material sample. */
  lemma NonReflectiveHitIsItsSample(w: World, ray: Ray, n: int)
    requires w.Routable() && n >= 1 && NextHit(w, ray).isHit
    ensures 0 <= NextHit(w, ray).material < |w.materials|
    ensures var h := NextHit(w, ray);
      var m := w.materials[h.material];
      m.reflectiveness == 0.0 ==>
        Path(w, ray, n) == [Bounce(w.shade(m, ray, h.position, h.normal), 0.0)] &&
        Traced(w, ray, n) == w.shade(m, ray, h.position, h.normal)
  {
    PathOnHit(w, ray, n);
    var h := NextHit(w, ray);
    var m := w.materials[h.material];
    if m.reflectiveness == 0.0 {
      var b := Bounce(w.shade(m, ray, h.position, h.normal), m.reflectiveness);
      GatherCons(b, [], Black, 1.0);
      assert [b] + [] == [b];
    }
  }

  /** Bounce: when the hit's material reflects, the next ray starts at the hit
      position along the mirrored direction; for a unit normal that direction
      meets the normal at the opposite angle and keeps its length. */
  lemma ReflectiveHitBounces(w: World, ray: Ray, n: int)
    requires w.Routable() && n >= 1 && NextHit(w, ray).isHit
    ensures 0 <= NextHit(w, ray).material < |w.materials|
    ensures var h := NextHit(w, ray);
      var m := w.materials[h.material];
      var next := Ray(h.position, Reflect(ray.direction, h.normal));
      m.reflectiveness > 0.0 ==>
        Path(w, ray, n) == [Bounce(w.shade(m, ray, h.position, h.normal), m.reflectiveness)] + Path(w, next, n - 1) &&
        (Dot(h.normal, h.normal) == 1.0 ==>
           Dot(h.normal, next.direction) == -Dot(h.normal, ray.direction) &&
           Dot(next.direction, next.direction) == Dot(ray.direction, ray.direction))
  {
    PathOnHit(w, ray, n);
    var h := NextHit(w, ray);
    if Dot(h.normal, h.normal) == 1.0 {
      ReflectKeepsLength(ray.direction, h.normal);
    }
  }

  /** The recursive reflection formula: a hit's own shading weighted by
      (1 - reflectiveness) plus, when it reflects, the mirrored ray's color
      weighted by its reflectiveness. */
  function Radiance(w: World, ray: Ray, n: int): Color
    requires w.Routable()
    decreases n
  {
    if n <= 0 then Black
    else
      var h := NextHit(w, ray);
      if !h.isHit then Black
      else
        NextHitRoutes(w, ray);
        var m := w.materials[h.material];
        var local := Scale(w.shade(m, ray, h.position, h.normal), 1.0 - m.reflectiveness);
        if m.reflectiveness > 0.0 then
          Add(local, Scale(Radiance(w, Ray(h.position, Reflect(ray.direction, h.normal)), n - 1), m.reflectiveness))
        else
          local
  }

  /** The loop's running sum, started from any color and weight, adds the
      recursive formula's color scaled by that weight. */
  lemma {:induction false} GatherIsRadiance(w: World, ray: Ray, n: int, acc: Color, weight: real)
    decreases n
    requires w.Routable()
    ensures Gather(Path(w, ray, n), acc, weight) == Add(acc, Scale(Radiance(w, ray, n), weight))
  {
    if n > 0 && NextHit(w, ray).isHit {
      var h := NextHit(w, ray);
      PathOnHit(w, ray, n);
      var m := w.materials[h.material];
      var s := w.shade(m, ray, h.position, h.normal);
      var b := Bounce(s, m.reflectiveness);
      var next := Ray(h.position, Reflect(ray.direction, h.normal));
      var acc' := Add(acc, Contribution(b, weight));
      if m.reflectiveness > 0.0 {
        GatherIsRadiance(w, next, n - 1, acc', Carried(weight, b));
        assert Gather(Path(w, ray, n), acc, weight) == Add(acc', Scale(Radiance(w, next, n - 1), Carried(weight, b))) by {
          GatherCons(b, Path(w, next, n - 1), acc, weight);
        }
        assert Radiance(w, ray, n) == Add(Scale(b.sample, 1.0 - b.reflectiveness), Scale(Radiance(w, next, n - 1), b.reflectiveness));
        Distribute(Gather(Path(w, ray, n), acc, weight), acc, Scale(b.sample, 1.0 - b.reflectiveness),
                   Radiance(w, next, n - 1), weight, b.reflectiveness, Carried(weight, b));
      } else {
        GatherCons(b, [], acc, weight);
        assert [b] + [] == [b];
      }
    } else {
      AddNothing(acc, weight);
    }
  }

  /** Accumulation: the loop's weighted running sum equals the recursive
      reflection formula. */
  lemma TracedIsRadiance(w: World, ray: Ray, n: int)
    requires w.Routable()
    ensures Traced(w, ray, n) == Radiance(w, ray, n)
  {
    GatherIsRadiance(w, ray, n, Black, 1.0);
    UnitWeight(Radiance(w, ray, n));
  }

  /** Accumulation: after the first k hits of the path, the loop holds the
      closed-form color of those hits and a weight equal to the product of
      their reflectiveness values, and the rest of the path carries on from
      that state. */
  lemma AfterHits(w: World, ray: Ray, n: int, k: int)
    requires w.Routable() && 0 <= k <= |Path(w, ray, n)|
    ensures var done := Path(w, ray, n)[..k];
      Traced(w, ray, n) == Gather(Path(w, ray, n)[k..], WeightedSum(done), Product(done))
  {
    var p := Path(w, ray, n);
    assert p == p[..k] + p[k..];
    GatherSplit(p[..k], p[k..], Black, 1.0);
    GatherIsWeightedSum(p[..k]);
    CarryIsProduct(p[..k], 1.0);
  }

  /** The shading formula gives colors in [0,1] and every material's
      reflectiveness lies in [0,1]. */
  ghost predicate Bounded(w: World) {
    (forall m, ray, p, q :: ChannelsIn(w.shade(m, ray, p, q), 0.0, 1.0)) &&
    forall i :: 0 <= i < |w.materials| ==> 0.0 <= w.materials[i].reflectiveness <= 1.0
  }

  /** Energy: with shading and reflectiveness in [0,1], each level of the
      formula mixes two colors in [0,1], so the result stays in [0,1]. */
  lemma {:induction false} RadianceWithinUnit(w: World, ray: Ray, n: int)
    decreases n
    requires w.Routable() && Bounded(w)
    ensures ChannelsIn(Radiance(w, ray, n), 0.0, 1.0)
  {
    if n > 0 && NextHit(w, ray).isHit {
      var h := NextHit(w, ray);
      NextHitRoutes(w, ray);
      var m := w.materials[h.material];
      var s := w.shade(m, ray, h.position, h.normal);
      var next := Ray(h.position, Reflect(ray.direction, h.normal));
      RadianceWithinUnit(w, next, n - 1);
      MixWithin(s, Radiance(w, next, n - 1), m.reflectiveness);
    }
  }

  /** With shading and reflectiveness in [0,1], the integrator's color is in
      [0,1] per channel, so the final clamp changes nothing. */
  lemma TracedWithinUnit(w: World, ray: Ray, n: int)
    requires w.Routable() && Bounded(w)
    ensures ChannelsIn(Traced(w, ray, n), 0.0, 1.0)
  {
    TracedIsRadiance(w, ray, n);
    RadianceWithinUnit(w, ray, n);
  }

  /** Every material is a perfect mirror: reflectiveness 1. */
  ghost predicate AllMirrors(w: World) {
    forall i :: 0 <= i < |w.materials| ==> w.materials[i].reflectiveness == 1.0
  }

  /** Among perfect mirrors no hit keeps any of its own color, so the
      recursive formula gives black. */
  lemma {:induction false} MirrorRadianceIsBlack(w: World, ray: Ray, n: int)
    decreases n
    requires w.Routable() && AllMirrors(w)
    ensures Radiance(w, ray, n) == Black
  {
    if n > 0 && NextHit(w, ray).isHit {
      var h := NextHit(w, ray);
      NextHitRoutes(w, ray);
      MirrorRadianceIsBlack(w, Ray(h.position, Reflect(ray.direction, h.normal)), n - 1);
    }
  }

  /** Perfect mirrors contribute no direct color at any step: the integrator
      returns black. */
  lemma MirrorsGiveBlack(w: World, ray: Ray, n: int)
    requires w.Routable() && AllMirrors(w)
    ensures Traced(w, ray, n) == Black
  {
    TracedIsRadiance(w, ray, n);
    MirrorRadianceIsBlack(w, ray, n);
  }

  /** Perfect mirrors in a scene where every ray hits: the integrator uses all
      `n` iterations, shading `n` hits, each of reflectiveness 1. */
  lemma {:induction false} MirrorsRunFull(w: World, ray: Ray, n: int)
    decreases n
    requires w.Routable() && AllMirrors(w) && n >= 0
    requires forall r :: NextHit(w, r).isHit
    ensures |Path(w, ray, n)| == n
    ensures forall j :: 0 <= j < n ==> Path(w, ray, n)[j].reflectiveness == 1.0
  {
    if n > 0 {
      var h := NextHit(w, ray);
      PathOnHit(w, ray, n);
      var next := Ray(h.position, Reflect(ray.direction, h.normal));
      MirrorsRunFull(w, next, n - 1);
    }
  }
}
