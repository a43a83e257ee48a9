/** The geometry registry (`scene_storage`): three fixed slots of primitives and
    the scan that finds the nearest hit of a ray. */
module Scene {
  import opened LinAlg
  import opened Wrappers

  /** `geometry_count`: the number of slots. */
  const GeometryCount := 3

  /** The closed set of concrete primitives a slot can hold; each carries the
      id of its material. */
  datatype Geometry =
    | Sphere(center: Vec3, radius: real, material: int)
    | Plane(normal: Vec3, offset: real, material: int)

  /** `intersect_result`: what testing a ray against a primitive reports.
      `distance`, `position`, `normal` and `material` mean something only
      when `isHit` holds. */
  datatype Hit = Hit(isHit: bool, distance: real, position: Vec3, normal: Vec3, material: int)

  /** A default-constructed `intersect_result`: no hit. Only `isHit` matters to
      the rest of the model; the other fields are placeholders. */
  const Miss := Hit(false, 0.0, Origin, Origin, 0)

  /** A primitive's own intersection routine; the formulas are outside this
      model and are passed in as a parameter. */
  type Intersector = (Geometry, Ray) -> Hit

  /** The slot contents the constructor writes, in slot order. */
  function DefaultGeometries(): seq<Geometry> {
    [ Sphere(Vec3(-15.0, 15.0, -10.0), 15.0, 0),
      Sphere(Vec3(12.0, 10.0, -10.0), 10.0, 1),
      Plane(Vec3(0.0, 1.0, 0.0), 0.0, 2) ]
  }

  /** Each primitive's own result for `ray`, in slot order. */
  function HitsOf(geometries: seq<Geometry>, ray: Ray, intersect: Intersector): (hits: seq<Hit>)
    ensures |hits| == |geometries|
    ensures forall i :: 0 <= i < |geometries| ==> hits[i] == intersect(geometries[i], ray)
  {
    seq(|geometries|, i requires 0 <= i < |geometries| => intersect(geometries[i], ray))
  }

  /** The index the scan keeps after looking at `hits` in order, or -1 if it
      keeps none: a later hit replaces the kept one only when it is strictly
      closer. */
  function Winner(hits: seq<Hit>): (k: int)
    ensures -1 <= k < |hits|
    ensures 0 <= k ==> hits[k].isHit
  {
    if hits == [] then -1
    else
      var k := Winner(hits[..|hits| - 1]);
      var last := hits[|hits| - 1];
      if last.isHit && (k < 0 || last.distance < hits[k].distance) then |hits| - 1 else k
  }

  /** The hit the scan returns: the kept primitive's own result, or `Miss`. */
  function Nearest(hits: seq<Hit>): Hit {
    var k := Winner(hits);
    if k < 0 then Miss else hits[k]
  }

  /** The kept index is the first hit of minimum distance, and one is kept
      exactly when some primitive reports a hit. */
  lemma {:induction false} WinnerIsFirstClosest(hits: seq<Hit>)
    ensures Winner(hits) >= 0 <==> exists j :: 0 <= j < |hits| && hits[j].isHit
    ensures var k := Winner(hits);
      k >= 0 ==> forall j :: 0 <= j < |hits| && hits[j].isHit ==> hits[k].distance <= hits[j].distance
    ensures var k := Winner(hits);
      k >= 0 ==> forall j :: 0 <= j < k && hits[j].isHit ==> hits[k].distance < hits[j].distance
  {
    if hits != [] {
      var n := |hits| - 1;
      var init := hits[..n];
      WinnerIsFirstClosest(init);
      assert forall j :: 0 <= j < n ==> init[j] == hits[j];
      var k0 := Winner(init);
      if k0 < 0 {
        assert forall j :: 0 <= j < n ==> !hits[j].isHit;
      }
    }
  }

  /** Nearest hit: a returned hit is one of the primitives' own results, and
      no primitive reports a hit at a smaller distance. */
  lemma NearestHitIsClosest(hits: seq<Hit>)
    ensures Nearest(hits).isHit ==>
      (exists k :: 0 <= k < |hits| && Nearest(hits) == hits[k]) &&
      forall j :: 0 <= j < |hits| && hits[j].isHit ==> Nearest(hits).distance <= hits[j].distance
  {
    WinnerIsFirstClosest(hits);
  }

  /** No hit: the scan returns the untouched default exactly when no primitive
      reports a hit; otherwise it returns a hit. */
  lemma NoHitGivesDefault(hits: seq<Hit>)
    ensures Nearest(hits) == Miss <==> forall j :: 0 <= j < |hits| ==> !hits[j].isHit
    ensures Nearest(hits).isHit <==> exists j :: 0 <= j < |hits| && hits[j].isHit
  {
    WinnerIsFirstClosest(hits);
  }

  /** Ties: when several primitives hit at the minimum distance, the one in the
      lowest slot is returned. */
  lemma TiesGoToLowestSlot(hits: seq<Hit>, i: int, j: int)
    requires 0 <= i < j < |hits|
    requires hits[i].isHit && hits[j].isHit && hits[i].distance == hits[j].distance
    requires forall m :: 0 <= m < |hits| && hits[m].isHit ==> hits[i].distance <= hits[m].distance
    ensures Winner(hits) != j
    ensures Winner(hits) <= i
  {
    WinnerIsFirstClosest(hits);
  }

  class SceneStorage {
    const geometries: array<Geometry>

    ghost predicate Valid()
      reads this
    {
      geometries.Length == GeometryCount
    }

    /** Builds the slots in place, the plane into slot 2 first, then the two
        spheres into slots 0 and 1. */
    constructor ()
      ensures fresh(geometries)
      ensures Valid()
      ensures geometries[..] == DefaultGeometries()
    {
      geometries := new Geometry[GeometryCount];
      new;
      geometries[2] := Plane(Vec3(0.0, 1.0, 0.0), 0.0, 2);
      geometries[0] := Sphere(Vec3(-15.0, 15.0, -10.0), 15.0, 0);
      geometries[1] := Sphere(Vec3(12.0, 10.0, -10.0), 10.0, 1);
    }

    /** Tests every slot in order, with no early exit, and keeps the strictly
        closest hit so far; "no hit kept yet" stands for the +infinity start. */
    method Intersect(ray: Ray, intersect: Intersector) returns (minResult: Hit)
      requires Valid()
      ensures minResult == Nearest(HitsOf(geometries[..], ray, intersect))
    {
      ghost var hits := HitsOf(geometries[..], ray, intersect);
      var minDist: Option<real> := None;
      minResult := Miss;
      for i := 0 to GeometryCount
        invariant minResult == Nearest(hits[..i])
        invariant minDist == if minResult.isHit then Some(minResult.distance) else None
      {
        var result := intersect(geometries[i], ray);
        assert hits[..i + 1][..i] == hits[..i];
        if result.isHit && (minDist.None? || result.distance < minDist.value) {
          minDist := Some(result.distance);
          minResult := result;
        }
      }
      assert hits[..GeometryCount] == hits;
    }
  }
}
