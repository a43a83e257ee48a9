/** The material registry (`material_storage`): three fixed slots, each holding
    one concrete material, reached by index instead of by virtual dispatch. */
module Materials {
  import opened LinAlg

  /** `material_count`: the number of slots. */
  const MaterialCount := 3

  /** The closed set of concrete materials a slot can hold. Both variants carry
      `reflectiveness`, the field every material shares and that
      `get_reflectiveness` reads without running the shading formula. */
  datatype Material =
    | Phong(diffuse: Color, specular: Color, shininess: real, reflectiveness: real)
    | Checker(scale: real, reflectiveness: real)

  /** The slot contents the constructor writes, in slot order. */
  function DefaultMaterials(): seq<Material> {
    [ Phong(Red, White, 16.0, 0.25),
      Phong(Blue, White, 16.0, 0.25),
      Checker(0.1, 0.5) ]
  }

  /** A shading formula: the colour a material gives for a ray hitting a point
      with a given normal. The concrete formulas are outside this model and are
      passed in as a parameter. */
  type Shader = (Material, Ray, Vec3, Vec3) -> Color

  class MaterialStorage {
    const materials: array<Material>

    /** Exactly `MaterialCount` slots, each with a reflectiveness in [0,1]. */
    ghost predicate Valid()
      reads this, materials
    {
      materials.Length == MaterialCount &&
      forall i :: 0 <= i < materials.Length ==> 0.0 <= materials[i].reflectiveness <= 1.0
    }

    /** Builds the three slots in place: red phong, blue phong, checker. */
    constructor ()
      ensures fresh(materials)
      ensures Valid()
      ensures materials[..] == DefaultMaterials()
    {
      materials := new Material[MaterialCount];
      new;
      materials[0] := Phong(Red, White, 16.0, 0.25);
      materials[1] := Phong(Blue, White, 16.0, 0.25);
      materials[2] := Checker(0.1, 0.5);
    }

    /** Shades with the material in slot `materialId`; the source does not
        check the index, so the caller must supply a valid one. */
    function Sample(materialId: int, ray: Ray, position: Vec3, normal: Vec3, shade: Shader): Color
      reads this, materials
      requires Valid() && 0 <= materialId < MaterialCount
    {
      shade(materials[materialId], ray, position, normal)
    }

    /** The reflectiveness of slot `materialId`; always within [0,1]. */
    function GetReflectiveness(materialId: int): (r: real)
      reads this, materials
      requires Valid() && 0 <= materialId < MaterialCount
      ensures 0.0 <= r <= 1.0
    {
      materials[materialId].reflectiveness
    }
  }

  /** On a store as the constructor leaves it, each lookup is routed to the
      slot's own material: red phong and blue phong with reflectiveness 0.25,
      the checker with reflectiveness 0.5. */
  lemma BuiltStoreRouting(t: MaterialStorage, ray: Ray, position: Vec3, normal: Vec3, shade: Shader)
    requires t.Valid() && t.materials[..] == DefaultMaterials()
    ensures t.GetReflectiveness(0) == 0.25 && t.GetReflectiveness(1) == 0.25 && t.GetReflectiveness(2) == 0.5
    ensures t.Sample(0, ray, position, normal, shade) == shade(Phong(Red, White, 16.0, 0.25), ray, position, normal)
    ensures t.Sample(1, ray, position, normal, shade) == shade(Phong(Blue, White, 16.0, 0.25), ray, position, normal)
    ensures t.Sample(2, ray, position, normal, shade) == shade(Checker(0.1, 0.5), ray, position, normal)
  {
    assert t.materials[0] == t.materials[..][0];
    assert t.materials[1] == t.materials[..][1];
    assert t.materials[2] == t.materials[..][2];
  }
}
