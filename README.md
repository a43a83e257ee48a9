# C++ AMP ray tracer — a verified model of the render core

This project models the control logic of the C++ AMP ray-tracing demo in
`ampdemo/RayTracing/render.h`. The floating-point type `fp_t` is exact `real`
arithmetic. A primitive's own intersection routine (`Intersector`), a
material's shading formula (`Shader`) and the camera (`Camera`) are
function-valued parameters.

- `linalg.dfy`: module `LinAlg` holds the vector, color and ray values, plus
  helper facts about real products and color sums. Module `Wrappers` holds `Option`.
- `materials.dfy`: module `Materials` is the material store
  `material_storage`.
  - A class over an array of exactly three slots.
  - Each slot holds a tagged `Phong | Checker` value instead of placement-new
    bytes.
  - The lookups `sample` and `get_reflectiveness` are slot indexing, with the
    slot index as a precondition. The source never checks it.
- `scene.dfy`: module `Scene` is the geometry store `scene_storage`.
  - Three `Sphere | Plane` slots, filled by the constructor in the source's
    order: the plane into slot 2, then slots 0 and 1.
  - The nearest-hit scan `intersect` is a `for` loop. It is proved equal to a
    specification `Nearest(HitsOf(...))`. The `1.0f / z` infinity start is an
    explicit "no hit kept yet" state.
- `integrator.dfy`: module `Integrator` is the bounded reflection loop
  `reflection`. It keeps a running color and a running weight, and breaks on
  a miss or on a weight that is not positive.
  - `Path` is the list of hits the loop shades.
  - After i iterations the loop's color is `WeightedSum` of the first i hits
    and its weight is the `Product` of their reflectiveness values. It returns
    `WeightedSum(Path(...))`, which equals `Traced`, the running sum `Gather`
    over the path.
  - Module `IntegratorFacts` proves what that color is:
    - termination within `maxReflect` hits;
    - black on a miss;
    - the single sample on a non-reflective hit;
    - the mirror bounce;
    - equality with the recursive reflection formula `Radiance`;
    - the [0,1] bound;
    - black, and all `maxReflect` iterations when every ray hits, for
      perfect mirrors.
- `kernels.dfy`: module `Kernels` holds the per-pixel bodies of
  `render_depth`, `render_normal`, `render_material` and
  `render_reflection`:
  - the view-plane mapping `sx = (x - xshift) / edge`, with C++ division
    toward zero in `xshift`;
  - the conversion of a value to an 8-bit channel;
  - the `0xff000000 | (r << 16) | (g << 8) | b` packing over `bv32`.

The integrator reads the scene through a `World` value. A `World` holds:

- the scene's nearest-hit query;
- the material slots;
- the shading formula.

The predicate `Describes` ties a `World` to the two stores. `SceneWorld` builds
the `World` of a store's contents.

The view-plane mapping of render.h:158 and 304 maps column `xshift` to 0 and
column `xshift + edge`, one column past the sampling region, to 1. The last
column inside the region maps to `(edge - 1) / edge`, just below 1
(`Kernels.ViewCorners`, `Kernels.ViewXInside`).

## Model

| member | source | states |
|---|---|---|
| `Materials.MaterialStorage.constructor` | ampdemo/RayTracing/render.h:20-25 | the store gets exactly three slots: red phong (0.25), blue phong (0.25), checker (0.1, 0.5), each reflectiveness in [0,1] |
| `Materials.MaterialStorage.GetReflectiveness` | ampdemo/RayTracing/render.h:35-41 | reads the reflectiveness of slot `materialId` only, for an index in range, and the value lies in [0,1] |
| `Materials.BuiltStoreRouting` | ampdemo/RayTracing/render.h:20-41 | on a freshly built store, `get_reflectiveness` gives 0.25, 0.25, 0.5 and `sample` shades slot i's own material, for each of the three slots |
| `Scene.SceneStorage.constructor` | ampdemo/RayTracing/render.h:60-65 | the store gets exactly three slots: sphere (-15,15,-10) r 15 material 0, sphere (12,10,-10) r 10 material 1, plane y-up offset 0 material 2 |
| `Scene.Winner` | ampdemo/RayTracing/render.h:80-84 | the kept index is -1 or a slot whose result is a hit |
| `Scene.WinnerIsFirstClosest` | ampdemo/RayTracing/render.h:73-85 | a hit is kept iff some slot reports one; the kept hit's distance is at most every hit's distance, and strictly less than that of every earlier hit |
| `Scene.NearestHitIsClosest` | ampdemo/RayTracing/render.h:73-85 | a returned hit is one primitive's own result, and no primitive hits closer |
| `Scene.NoHitGivesDefault` | ampdemo/RayTracing/render.h:71-87 | the untouched default is returned iff no primitive reports a hit; a hit is returned iff some primitive reports one |
| `Scene.TiesGoToLowestSlot` | ampdemo/RayTracing/render.h:80 | with a strict comparison, among hits at the minimum distance the lowest slot wins and a later tied slot never does |
| `Scene.SceneStorage.Intersect` | ampdemo/RayTracing/render.h:67-88 | the loop tests every slot in order with no early exit, starting from "no hit kept", and returns exactly the nearest-hit specification over all the store's slots (each slot's own result) |
| `Integrator.Reflect` | ampdemo/RayTracing/render.h:118 | d - 2(n·d)n: for a unit normal the new direction meets the normal at the opposite angle, n·d' = -(n·d) |
| `Integrator.ReflectKeepsLength` | ampdemo/RayTracing/render.h:118 | for a unit normal the mirrored direction has the same length as the incoming one |
| `Integrator.SceneWorldRoutable` | ampdemo/RayTracing/render.h:78-83 | if each primitive reports its own material id and those ids index the material store, every hit the scan returns names an existing material slot |
| `Integrator.SignOfWeight` | ampdemo/RayTracing/render.h:114-116 | with a positive running weight, testing the new weight `reflectiveness * ref_c > 0` decides the same as testing `ref_c > 0` |
| `Integrator.DefaultStoresRoutable` | ampdemo/RayTracing/render.h:20-65 | for the slots the two constructors write, with primitives that report their own material id, every hit the scan returns names an existing material slot |
| `Integrator.ProductSnoc` | ampdemo/RayTracing/render.h:114 | one more hit multiplies the product of the reflectiveness values by its own `ref_c` |
| `Integrator.CarryIsProduct` | ampdemo/RayTracing/render.h:114 | after any hits, the weight is the starting weight times the product of their `ref_c` values |
| `Integrator.GatherSplit` | ampdemo/RayTracing/render.h:102-131 | the running sum over two runs of hits: the second run continues from the color and weight the first one leaves |
| `Integrator.GatherSnoc` | ampdemo/RayTracing/render.h:111-114 | one more hit adds its sample times (1 - ref_c) times the weight carried so far |
| `Integrator.GatherIsWeightedSum` | ampdemo/RayTracing/render.h:108-114 | from black at weight 1, the running sum is the sum over j of sample_j (1 - ref_c_j) (product of the ref_c before j) |
| `Integrator.TracedIsWeightedSum` | ampdemo/RayTracing/render.h:97-134 | the integrator's specified color is the closed-form weighted sum over all the hits it shades |
| `Integrator.HitStep` | ampdemo/RayTracing/render.h:108-124 | one hit iteration: if color and weight are the closed form and the product over the first i hits, the updates of lines 111-114 make them the closed form and the product over the first i + 1; the loop then goes on from the mirrored ray with the rest of the path, or that hit was the last |
| `Integrator.StopStep` | ampdemo/RayTracing/render.h:127-130 | on a miss or with no iterations left, the hits already shaded are the whole path |
| `Integrator.Reflection` | ampdemo/RayTracing/render.h:97-134 | the loop keeps, after i iterations, `final_color` equal to the closed-form sum and `reflectiveness` equal to the product of `ref_c` over the first i hits; with its early exits on a miss and on a zero weight it returns exactly the closed-form sum over all hits shaded, which is `Traced` |
| `IntegratorFacts.AtMostMaxReflectBounces` | ampdemo/RayTracing/render.h:102 | at most `max_reflect` hits are shaded, and none when `max_reflect <= 0` |
| `IntegratorFacts.MissIsBlack` | ampdemo/RayTracing/render.h:99-130 | if `max_reflect <= 0` or the first ray misses, no hit is shaded and the result is exactly black |
| `IntegratorFacts.NonReflectiveHitIsItsSample` | ampdemo/RayTracing/render.h:111-123 | when the first hit's reflectiveness is 0, the loop stops after it and the result is exactly that material's sample |
| `IntegratorFacts.ReflectiveHitBounces` | ampdemo/RayTracing/render.h:116-119 | when the first hit reflects, the next ray starts at the hit position along d - 2(n·d)n; for unit n, n·d' = -(n·d) and the length is kept |
| `IntegratorFacts.GatherIsRadiance` | ampdemo/RayTracing/render.h:108-119 | from any color and weight, the loop's running sum adds the recursive reflection formula's color scaled by that weight |
| `IntegratorFacts.TracedIsRadiance` | ampdemo/RayTracing/render.h:97-134 | the integrator's color equals the recursive formula: local*(1-r) plus r times the mirrored ray's color |
| `IntegratorFacts.AfterHits` | ampdemo/RayTracing/render.h:108-114 | after the first k hits, the color is the closed-form sum over them and the weight is the product of their `ref_c` values, and the rest of the loop carries on from that state |
| `IntegratorFacts.RadianceWithinUnit` | ampdemo/RayTracing/render.h:108-119 | with samples and reflectiveness in [0,1], the recursive formula's color stays in [0,1] per channel |
| `IntegratorFacts.TracedWithinUnit` | ampdemo/RayTracing/render.h:312-315 | with samples and reflectiveness in [0,1], the integrator's color is in [0,1], so the kernel's `saturate` leaves it unchanged |
| `IntegratorFacts.MirrorRadianceIsBlack` | ampdemo/RayTracing/render.h:111-119 | when every material has reflectiveness 1, each hit adds none of its own color and the recursive formula gives black |
| `IntegratorFacts.MirrorsGiveBlack` | ampdemo/RayTracing/render.h:97-134 | when every material has reflectiveness 1, the integrator's color is black |
| `IntegratorFacts.MirrorsRunFull` | ampdemo/RayTracing/render.h:102-120 | when every material has reflectiveness 1 and every ray hits, the loop runs all n iterations, shading n hits of reflectiveness 1 |
| `Kernels.Pack` | ampdemo/RayTracing/render.h:177 | for channels below 256, the word has alpha 0xff and bits 16-23, 8-15, 0-7 decode back to r, g, b |
| `Kernels.PackBleeds` | ampdemo/RayTracing/render.h:217 | a channel of 256 does not fit its byte: green 256 packs like red 1, and red 256 vanishes to opaque black |
| `Kernels.Saturate` | ampdemo/RayTracing/render.h:255 | the result is in [0,1], values inside are kept, values below go to 0 and values above go to 1 |
| `Kernels.Truncate` | ampdemo/RayTracing/render.h:171 | the cast to `unsigned int` of a non-negative value keeps its whole part: k <= v < k + 1 |
| `Kernels.Level` | ampdemo/RayTracing/render.h:255-257 | `saturate(c) * 255` truncated lies in 0..255, is 0 for c <= 0 and 255 for c >= 1 |
| `Kernels.LevelMonotone` | ampdemo/RayTracing/render.h:255-257 | a brighter component never gives a lower channel |
| `Kernels.DepthLevel` | ampdemo/RayTracing/render.h:169-171 | the gray level lies in 0..255: 255 at distance 0 and 0 from distance 20 on |
| `Kernels.DepthLevelMonotone` | ampdemo/RayTracing/render.h:169-171 | a farther hit is never brighter |
| `Kernels.NormalLevelAsWritten` | ampdemo/RayTracing/render.h:212-214 | `(n + 1) * 128` truncated, for n in [-1,1], lies in 0..256 and is 256 exactly when n == 1 |
| `Kernels.NormalLevel` | ampdemo/RayTracing/render.h:212-214 | the channel held to a byte: 0..255, equal to the source's value wherever n < 1, and 255 at n == 1 |
| `Kernels.DepthPixel` | ampdemo/RayTracing/render.h:163-177 | the depth word is opaque gray with the depth level in every channel; a miss is opaque black, distance 0 is white, and distance 20 or more is black |
| `Kernels.NormalPixelAsWritten` | ampdemo/RayTracing/render.h:206-217 | the normal word as the source computes it: a miss is opaque black, and it equals the corrected word whenever no component is 1 |
| `Kernels.NormalPixel` | ampdemo/RayTracing/render.h:206-217 | corrected normal word: alpha 0xff and each component's level decodes from its own byte; a miss is opaque black |
| `Kernels.NormalOverflowX` | ampdemo/RayTracing/render.h:212-217 | normal (1,0,0) packs to 0xff008080 with red 0 instead of 255 |
| `Kernels.NormalOverflowY` | ampdemo/RayTracing/render.h:213-217 | normal (0,1,0) packs to 0xff810080: green reads 0 and red reads 0x81 |
| `Kernels.ColorPixel` | ampdemo/RayTracing/render.h:255-260 | a color's word has alpha 0xff and each channel decodes to its level; black gives opaque black |
| `Kernels.HalfTowardZero` | ampdemo/RayTracing/render.h:149-150 | C++ `/ 2` rounds toward zero: the remainder is 0 or 1 for a non-negative numerator, and 0 or -1 for a negative one |
| `Kernels.ShiftCentres` | ampdemo/RayTracing/render.h:293-294 | the sampling region is centred: margins before and after differ by at most one pixel, the larger one after |
| `Kernels.ViewCorners` | ampdemo/RayTracing/render.h:303-304 | column `xshift` maps to 0, column `xshift + edge` to 1 and the last column inside below 1; row `yshift` maps to 1 and row `yshift + edge` to 0 |
| `Kernels.ViewXInside` | ampdemo/RayTracing/render.h:158 | a column maps into [0,1) exactly when it lies in the sampling region |
| `Kernels.DepthKernel` | ampdemo/RayTracing/render.h:152-178 | one pixel of `render_depth`: opaque gray, and opaque black when the pixel's ray misses the sphere |
| `Kernels.NormalKernel` | ampdemo/RayTracing/render.h:195-218 | one pixel of `render_normal` with channels held to a byte: alpha 0xff, and opaque black on a miss |
| `Kernels.NormalKernelAsWritten` | ampdemo/RayTracing/render.h:195-218 | one pixel of `render_normal` as written: opaque black on a miss, and the corrected kernel's word whenever no normal component is 1 |
| `Kernels.MaterialPixel` | ampdemo/RayTracing/render.h:246-260 | the material word: alpha 0xff, the nearest hit's material sample as channels, and opaque black on a miss |
| `Kernels.MaterialKernel` | ampdemo/RayTracing/render.h:237-261 | one pixel of `render_material`, with its scan and sample, gives exactly the material word of the pixel's primary ray |
| `Kernels.ReflectionKernel` | ampdemo/RayTracing/render.h:298-318 | one pixel of `render_reflection` gives the packed integrator color of the pixel's primary ray with 3 iterations, and opaque black when that ray misses |

## Left out

- `parallel_for_each`, `array_view` and the index/extent plumbing (render.h:152, 195, 237, 298). Each kernel is modelled as one pixel's computation. The write `result[idx] = ...` is the returned word.
- `perspective_camera::generate_ray` and the orbit trigonometry of `render_reflection` (render.h:269-286). The camera is a `Camera` parameter. geometry.h and raycommon.h are not part of this model.
- The concrete sphere, plane, phong and checker formulas. These are the `Intersector` and `Shader` parameters, and the depth and normal kernels' single sphere is a `probe` parameter.
- The `reinterpret_cast` and placement-new layout of `fp_t values[16]` (render.h:22-24, 31, 39, 62-64, 76). Each slot holds a tagged datatype value instead.
- IEEE floating point: `fp_t` is exact `real`. Rounding, infinities, NaN and underflow are not modelled. Underflow matters because a positive weight rounding to 0 can stop the loop early.
- The `1.0f / z` infinity start of the scan (render.h:69-70) is modelled as an explicit "no hit kept yet" state.
- 32-bit `int` overflow of `640 * aa_factor`, `width - edge` and `x - xshift` is not modelled. Integers are unbounded.
- The default `intersect_result` is taken to have `is_hit == false` (`Scene.Miss`). Its other fields are placeholders, because raycommon.h is not part of this model.
- `checker(0.1f, 0.5f)` is read as (scale, reflectiveness). The checker's constructor is not part of this model.
- `phong(color, white, 16.0f, 0.25f)` is read as (diffuse, specular, shininess, reflectiveness), so each phong slot's reflectiveness is 0.25. The phong constructor is not part of this model.
- Materials.MaterialStorage.Sample: no contract of its own. Its routing to slot `materialId`'s material is stated by `Materials.BuiltStoreRouting` and used by the integrator through `Describes`.
- Kernels.ReflectionKernel: requires `aaFactor != 0`. With `aa_factor == 0` the source divides by zero in floating point.
- Kernels.NormalLevelAsWritten: requires the component to lie in [-1,1], as a unit normal's does. The source's behaviour on other values, including the undefined cast of a negative value, is not modelled.
- Kernels.Truncate: requires a non-negative value. Every caller passes a saturated or depth value, and the cast of a negative float to `unsigned int` is undefined.
- Kernels.NormalKernel: uses the corrected channel (`NormalPixel`). The source's own pixel is `Kernels.NormalKernelAsWritten`; see Findings.

## Findings

| source | as written | input that shows it | evidently intended | confidence | as-written member | corrected member |
|---|---|---|---|---|---|---|
| ampdemo/RayTracing/render.h:212-217 | each normal component becomes `(n + 1) * 128` truncated, packed with an 8-bit shift | unit normal (1,0,0) packs to 0xff008080: red reads 0, not 255. Unit normal (0,1,0) packs to 0xff810080: green reads 0 and red 0x81 | a channel in 0..255, so n == 1 gives a full 255 in its own byte | not executed | `Kernels.NormalPixelAsWritten`, `Kernels.NormalOverflowX`, `Kernels.NormalOverflowY` | `Kernels.NormalPixel`, `Kernels.NormalLevel` |
