# pygrunn-tracer in Dafny

A model of the core of `tracer.py`, a small recursive ray tracer. The model covers:

- **Vectors** (`vectors.dfy`): the `Vector` class as an immutable triple of reals. It provides addition, subtraction, the component-wise product, scaling, dot and cross products, normalization and reflection about a normal.
- **Geometry** (`geometry.dfy`): materials, lights, rays, intersections and the two primitives.
  - `Sphere.intersect`: the ray/sphere quadratic, its three early exits and its choice of root.
  - `Plane.intersect`: the ray/plane division and its open distance window.
- **NearestHit** (`nearest_hit.dfy`): `Tracer.find_nearest_intersection`. It scans the objects in order from a horizon of 10^6. Every hit the scan accepts becomes the new maximum distance.
- **Lighting** (`lighting.dfy`):
  - `Tracer.find_lights`: the lights whose shadow ray reaches the hit object first.
  - `Tracer.trace_lights`: the diffuse plus specular (`factor ** 40`) contribution of those lights, tinted by the object's diffuse colour.
- **Shading** (`shading.dfy`): `Tracer.trace`. It mixes the local colour with the colour traced along the reflected ray, weighted by the material's reflectiveness. It stops below an influence of 0.1.
- **Sampler** (`sampler.dfy`): `Tracer.pixels`. It sets up the camera from the eye and the field of view, then casts 5 × 5 sub-sample rays per pixel, row by row, and averages them.
- **Wrappers** (`wrappers.dfy`) and **RealMath** (`real_math.dfy`): `Option`, the `Result` type and the arithmetic facts the proofs use.

Modelling choices:

- **Reals, not floats.** All numbers are mathematical reals.
- **Square root and tangent.** `math.sqrt` and `math.tan` are function parameters. Lemmas that need square-root facts require `IsSqrt(sqrt)`: the parameter returns the non-negative square root of any non-negative argument.
- **Division by zero.** Python's `ZeroDivisionError` is the `ZeroDivision` case of `Result`. A division whose divisor is zero produces it. These divisions are `normalized` of a null vector, `1.0 / (width - 1.0)`-style divisions in `pixels`, and `float(height) / float(width)`. It propagates through every caller, as the exception does.
- **A plane never raises.** The plane test divides only when the denominator is nonzero, so it never raises.
- **Object identity.** Python's `i.object is intersection.object` becomes equality of the object's position in the scene's list. An `Intersection` records that index.
- **Loops.** Each loop of the source is a `method` with a `for` loop. Each method is proved equal to a recursive function over a prefix of its input: `Scan`, `Attenuation`, `VisibleLights`, `SampleSum`, `Columns` and `Rows`. The properties are lemmas about those functions.
- **Termination of `trace`.** `trace` is a recursive function. Its termination measure is an upper bound on the number of reflections still possible before the influence drops below 0.1: the influence divided by the least amount a reflection takes off it (`Shading.Budget`). That bound needs every reflectiveness in the scene to be below 1 (`ReflectivenessBelowOne`).

**Images one pixel high.** An image one pixel high raises ZeroDivisionError. `pixel_height` divides by `height - 1.0` (tracer.py:196) before any pixel is yielded. `Sampler.SingleRowRaises` states this for every width.

## Model

| member | source | states |
|---|---|---|
| Vectors.Vector.Add | tracer.py:9 | `__add__`, component by component; `Sub` undoes it (`AddSubInverse`) |
| Vectors.Vector.Sub | tracer.py:10 | `__sub__`, component by component; `Add` undoes it (`AddSubInverse`) |
| Vectors.Vector.Mul | tracer.py:11 | `__mul__`, the component-wise tint; its algebra is `MulProperties` |
| Vectors.Vector.Scale | tracer.py:13 | `scalar_multiply`; `DotBilinear` pulls its factor out of `dot` |
| Vectors.Vector.Dot | tracer.py:15 | `dot`; symmetric and bilinear (`DotBilinear`), zero on itself only for the zero vector (`DotSelf`) |
| Vectors.Vector.Cross | tracer.py:16 | `cross`; orthogonal to both factors (`CrossOrthogonal`), its length given by Lagrange's identity (`CrossLength`) |
| Vectors.Vector.Normalized | tracer.py:18 | `normalized`, raising ZeroDivisionError on a zero magnitude; fails only at zero and otherwise gives a unit vector (`NormalizedFailsOnlyAtZero`, `NormalizedIsUnit`) |
| Vectors.Vector.Reflect | tracer.py:20-22 | `reflect`; about a unit normal it negates the normal component, keeps the length and undoes itself (`ReflectNegatesNormalComponent`, `ReflectPreservesLength`, `ReflectInvolution`) |
| Vectors.AddSubInverse | tracer.py:9-10 | `__sub__` undoes `__add__` and `__add__` undoes `__sub__` |
| Vectors.MulProperties | tracer.py:11 | the component-wise product commutes, maps black to black, and keeps non-negative colours non-negative |
| Vectors.NonNegativeClosed | tracer.py:9-13 | scaling by a non-negative factor and adding keep a colour non-negative |
| Vectors.DotBilinear | tracer.py:13-15 | `dot` is symmetric and pulls a `scalar_multiply` factor out of either side |
| Vectors.DotSubLeft | tracer.py:10-15 | `dot` distributes over `__sub__` |
| Vectors.DotSelf | tracer.py:15 | `v.dot(v)` is non-negative and zero exactly for the zero vector |
| Vectors.CrossOrthogonal | tracer.py:15-16 | `cross` is orthogonal to both factors |
| Vectors.CrossLength | tracer.py:15-16 | Lagrange's identity: the squared length of `a.cross(b)` is `a·a b·b − (a·b)²` |
| Vectors.NormalizedFailsOnlyAtZero | tracer.py:18 | `normalized` raises ZeroDivisionError if and only if the vector is zero |
| Vectors.NormalizedFailsAtNullLength | tracer.py:18 | `normalized` raises if and only if the squared length is zero |
| Vectors.NormalizedIsUnit | tracer.py:18 | a nonzero vector normalizes to a unit vector that, times the magnitude, gives the vector back |
| Vectors.NormalizedOfOpposite | tracer.py:13-18 | normalizing `-v` raises exactly when normalizing `v` does, and otherwise gives the opposite unit vector |
| Vectors.ReflectNegatesNormalComponent | tracer.py:20-22 | reflection about a unit normal negates the component along the normal |
| Vectors.ReflectPreservesLength | tracer.py:20-22 | reflection about a unit normal preserves length |
| Vectors.ReflectInvolution | tracer.py:20-22 | reflecting twice about the same unit normal gives the original direction |
| Vectors.ScaledOffsetSquare | tracer.py:53-56 | the squared distance from the sphere centre to the ray point at `t` is the quadratic whose discriminant `intersect` tests |
| RealMath.Pow | tracer.py:167 | `factor ** 40` of a positive factor is positive |
| RealMath.SqrtOfSquare | tracer.py:61 | `math.sqrt` of a square of a non-negative number is that number |
| RealMath.SqrtZeroIff | tracer.py:18 | the square root of a non-negative number is zero exactly when the number is |
| Geometry.Primitive.Intersect | tracer.py:52-96 | a hit carries its object, a non-negative distance, and lies on the ray at that distance. A plane never raises and only hits closer than `max_distance` |
| Geometry.SphereIntersect | tracer.py:52-79 | a sphere hit carries the sphere, a non-negative distance, and lies on the ray at that distance |
| Geometry.SphereHit | tracer.py:76-79 | the hit lies on the ray at the chosen root, with that distance and object |
| Geometry.SphereHitRaisesAtCenter | tracer.py:76-77 | building the hit raises exactly when the hit point is the sphere's centre |
| Geometry.PlaneIntersect | tracer.py:87-96 | a plane hit carries the plane, a distance strictly between 0 and `max_distance`, and lies on the ray |
| Geometry.Projection | tracer.py:53-54 | `v_dot_direction`, the distance along the ray at which the centre projects; the two roots lie symmetric about it (`RootPointOnSurface`, `SphereRootChoice`) |
| Geometry.Discriminant | tracer.py:53-56 | `discriminant` before its square root; negative exactly on the first early exit (`SphereMissConditions`), positive from inside the sphere (`SphereFromInsideTakesFarRoot`) |
| Geometry.FarRoot | tracer.py:61-63 | `t1`; never below `t2` (`SphereRootChoice`), and the reported distance from inside the sphere (`SphereFromInsideTakesFarRoot`) |
| Geometry.NearRoot | tracer.py:61-67 | `t2`; negative from inside the sphere (`SphereFromInsideTakesFarRoot`), and compared with `max_distance` on the third early exit (`SphereMissConditions`) |
| Geometry.SphereDistance | tracer.py:71-74 | the chosen `t`: `t1` when `t2 < 0`, else `t2`; every hit reports it (`SphereRootChoice`, `SphereRootChoiceCore`) |
| Geometry.Min | tracer.py:74 | `min`: a lower bound of both arguments that is one of them |
| Geometry.SphereMissConditions | tracer.py:56-69 | the sphere test returns no hit if and only if the discriminant is negative, the far root is negative, or the near root lies beyond `max_distance` |
| Geometry.SphereRaisesAtCenter | tracer.py:71-77 | when no early exit applies, the test raises exactly when the point at the chosen distance is the centre |
| Geometry.SphereRaisesOnlyAtZeroRadius | tracer.py:52-79 | for a unit direction, the sphere test raises only when the radius is 0 |
| Geometry.SphereRootChoiceCore | tracer.py:63-79 | when no early exit applies, the result is the hit at the far root if the near root is negative, else at the smaller root |
| Geometry.SphereRootChoice | tracer.py:52-79 | every hit of the sphere test lies at the distance the root choice gives |
| Geometry.SphereFromInsideTakesFarRoot | tracer.py:56-74 | from inside a sphere the discriminant is positive, the near root is negative, and any hit is at the far root |
| Geometry.SphereFromInsideOvershoots | tracer.py:67-74 | for a unit direction from inside a sphere, the hit at the far root is returned even when its distance exceeds `max_distance` |
| Geometry.SphereHitOnSurface | tracer.py:52-79 | for a unit direction, every sphere hit lies on the sphere's surface |
| Geometry.PlaneHitConditions | tracer.py:87-96 | the plane test hits if and only if the denominator is nonzero and the distance is strictly between 0 and `max_distance`; the hit lies on the plane and has the plane's normal |
| NearestHit.Scan | tracer.py:131-142 | after any prefix of the objects, the maximum distance is the horizon when nothing was hit, and otherwise the last hit's distance |
| NearestHit.Nearest | tracer.py:131-142 | the nearest hit names an object of the scene and has a non-negative distance |
| NearestHit.BoundAt | tracer.py:132-140 | the `max_distance` object `i` is asked with: the horizon until a hit, then the last hit's distance (`ScanIsLastAccepted`) |
| NearestHit.Report | tracer.py:136 | what object `i` answers under that bound; it replaces the result exactly when it is a hit (`AcceptedIff`) |
| NearestHit.FindNearestIntersection | tracer.py:131-142 | the loop computes exactly the scan over all objects |
| NearestHit.ScanFailurePersists | tracer.py:135-136 | once an object's test has raised, the whole scan raises |
| NearestHit.ScanNoneIff | tracer.py:131-142 | a prefix scan finds nothing if and only if every object misses at the horizon |
| NearestHit.NearestNoneIff | tracer.py:131-142 | `find_nearest_intersection` returns `None` if and only if every object misses at the horizon |
| NearestHit.ScanIsLastAccepted | tracer.py:135-140 | the result is the report of the last object accepted; every later object missed under the bound it set |
| NearestHit.NearestIsLastAccepted | tracer.py:135-142 | the returned hit is the last accepted report, and every later object's test returned no hit |
| NearestHit.AcceptedIff | tracer.py:136-140 | an object replaces the result if and only if its test returns a hit under the current maximum distance |
| NearestHit.ConsecutivePlaneHitsDecrease | tracer.py:92-140 | a plane accepted after an earlier hit is strictly closer than it |
| NearestHit.SphereOutsideFarRootZero | tracer.py:56-74 | from on or outside a sphere, a negative near root with a non-negative far root forces the far root to be 0 |
| NearestHit.IntersectShrink | tracer.py:52-96 | from outside every sphere, lowering `max_distance` either keeps a hit or loses only hits beyond the new bound |
| NearestHit.ScanIsMinimum | tracer.py:131-142 | from outside every sphere, the scan's result is no farther than any hit of a scanned object at the horizon |
| NearestHit.NearestIsNearest | tracer.py:131-142 | from outside every sphere, the returned hit is the nearest of all objects' hits at the horizon |
| Lighting.LightDirection | tracer.py:158 | `light_direction`; up to sign the direction of `find_lights`' shadow ray (`ShadowRaysAgree`) |
| Lighting.Contribution | tracer.py:158-168 | what one light adds to `attenuation`; something exactly for a lit light the surface faces (`ContributionIffLit`) |
| Lighting.Attenuation | tracer.py:155-168 | `attenuation` after the first `n` lights, which the loop of `TraceLights` computes |
| Lighting.LocalColor | tracer.py:154-170 | the value of `trace_lights`; black without lights or with every light blocked, non-negative for non-negative colours |
| Lighting.LitBy | tracer.py:148-149 | the shadow-ray test of `find_lights`; every light that contributes is one it accepts, and an accepted light contributes exactly when `factor > 0` (`ContributionIffLit`) |
| Lighting.VisibleLights | tracer.py:144-152 | the list `find_lights` builds; exactly the lit lights in order (`VisibleLightsIsFilter`) |
| Lighting.TraceLights | tracer.py:154-170 | the loop computes the diffuse colour tinted by the accumulated light of every lit, facing light |
| Lighting.AttenuationFailurePersists | tracer.py:157-160 | once normalizing or a shadow ray has raised, `trace_lights` raises |
| Lighting.ShadowRaysAgree | tracer.py:148-160 | `trace_lights` and `find_lights` cast the same shadow ray, and both raise on the same null direction |
| Lighting.ContributionIffLit | tracer.py:144-168 | a light adds to `attenuation` if and only if `find_lights` would list it and `factor > 0`; it then adds `color*factor + color*factor**40` |
| Lighting.NoLightsBlack | tracer.py:155-170 | without lights `trace_lights` is black |
| Lighting.BlockedAttenuation | tracer.py:157-168 | when every shadow ray is blocked, nothing accumulates |
| Lighting.AllBlockedBlack | tracer.py:154-170 | when every shadow ray is blocked, `trace_lights` is black |
| Lighting.AttenuationNonNegative | tracer.py:155-168 | with non-negative light colours the accumulated light is non-negative |
| Lighting.LocalColorNonNegative | tracer.py:154-170 | non-negative diffuse and light colours give a non-negative local colour |
| Lighting.FindLights | tracer.py:144-152 | the loop computes exactly the filtered list of lights |
| Lighting.FindLightsStep | tracer.py:147-150 | one iteration casts the shadow ray of light `k` and extends the list built so far exactly as `VisibleLights` does for `k + 1` lights, raising when the ray's normalization or its scan raises |
| Lighting.VisibleLightsFailurePersists | tracer.py:147-148 | once a shadow ray has raised, `find_lights` raises |
| Lighting.LitIndices | tracer.py:147-150 | the lit positions are increasing, in range, and contain exactly the lights whose shadow ray reaches the hit object |
| Lighting.VisibleLightsIsFilter | tracer.py:144-152 | `find_lights` succeeds if and only if no shadow ray raises, and returns exactly the lit lights in their original order |
| Shading.Trace | tracer.py:172-189 | `trace`; black below the cut-off and on a miss, the shaded local colour on a hit (`TraceCutOff`, `TraceMiss`, `TraceHit`) |
| Shading.Follow | tracer.py:179-189 | the part of `trace` at or above the cut-off: the nearest hit and its `trace_lights` colour, shaded (`TraceMiss`, `TraceHit`) |
| Shading.Shade | tracer.py:184-189 | the reflection step of `trace` (`ShadeMatte`, `ShadeReflective`) |
| Shading.ReflectedRay | tracer.py:186-187 | the mirrored direction, started `0.0001` along it from the hit |
| Shading.Mix | tracer.py:187 | the local colour weighted `1 - r` plus the reflected colour weighted `r`; non-negative for weights in [0, 1] (`MixNonNegative`) |
| Shading.MaxReflectiveness | tracer.py:184-187 | the largest reflectiveness of the scene bounds every object's and is below 1 when all are |
| Shading.Gap | tracer.py:176-187 | a positive lower bound on what each reflection takes off the influence; `BudgetDecreases` states the decrement |
| Shading.BudgetDecreases | tracer.py:176-187 | each reflection passes on a positive influence, takes at least `Gap` off it, and strictly lowers the number of reflections left, so `trace` terminates |
| Shading.MixNonNegative | tracer.py:187 | mixing two non-negative colours with a weight in [0, 1] gives a non-negative colour |
| Shading.TraceCutOff | tracer.py:173-177 | below an influence of 0.1 `trace` is black |
| Shading.TraceMiss | tracer.py:179-189 | a ray that hits nothing is black, and a scan that raises makes `trace` raise |
| Shading.TraceHit | tracer.py:179-187 | on a hit, `trace` is the local colour from `trace_lights` shaded with its reflection, and raises when either raises |
| Shading.ShadeMatte | tracer.py:184-189 | a material of reflectiveness at most 0 shows only its local colour |
| Shading.ShadeReflective | tracer.py:185-187 | on a reflective material (`r > 0`) the colour is the local colour weighted `1 - r` plus, weighted `r`, the trace of the mirrored ray started `0.0001` off the hit with influence `influence * r`; a raise along that ray propagates |
| Shading.TraceNonNegative | tracer.py:172-189 | in a scene of non-negative colours and reflectiveness in [0, 1), every colour `trace` returns is non-negative |
| Shading.ShadeNonNegative | tracer.py:184-187 | shading a non-negative local colour keeps it non-negative |
| Sampler.CameraSetup | tracer.py:192-199 | the set-up lines of `pixels`; when they raise is `CameraSetupOkIff`, the basis they build is `CameraBasis` |
| Sampler.SampleRay | tracer.py:207-209 | the ray through sub-sample `(xx, yy)` of pixel `(x, y)`, whose direction `normalized` may fail to produce |
| Sampler.SampleColor | tracer.py:207-211 | `trace(ray, 1.0)` for sample `k` of a pixel |
| Sampler.Span | tracer.py:201-202 | the length of `xrange(n)`; the image has `Span(height) * Span(width)` colours (`RenderOkIff`) |
| Sampler.SampleX | tracer.py:206 | the `xx` offset of sample `k`, running fastest over -2..2 (`SampleGrid`) |
| Sampler.SampleY | tracer.py:205 | the `yy` offset of sample `k`, over -2..2 (`SampleGrid`) |
| Sampler.SampleSum | tracer.py:203-211 | `color` after the first `k` samples; it exists exactly when no sample raises (`SampleSumOkIff`) |
| Sampler.PixelColor | tracer.py:203-213 | the colour yielded for a pixel, which `SamplePixel` computes; non-negative in a non-negative scene (`PixelColorNonNegative`) |
| Sampler.Render | tracer.py:191-213 | every colour `pixels` yields, which `Pixels` computes; when it raises and where each pixel lands is `RenderOkIff` and `RenderAt` |
| Sampler.Columns | tracer.py:202-213 | a row of `n` pixels has `n` colours |
| Sampler.Rows | tracer.py:201-213 | `n` rows of `width` pixels have `n * width` colours |
| Sampler.AddSample | tracer.py:207-211 | one inner step adds the next traced sample to the running sum |
| Sampler.AddSampleRow | tracer.py:206-211 | the loop over `xx` adds the five samples of one grid row to the running sum |
| Sampler.SamplePixel | tracer.py:203-213 | the two inner loops compute the average of the 25 traced samples |
| Sampler.RenderRow | tracer.py:202-213 | the loop over `x` computes row `y` left to right |
| Sampler.Pixels | tracer.py:191-213 | `pixels` computes the camera set-up followed by every row in order |
| Sampler.SampleSumFailurePersists | tracer.py:205-211 | once a sample has raised, the pixel raises |
| Sampler.ColumnsFailurePersists | tracer.py:202-213 | once a pixel has raised, the row raises |
| Sampler.RowsFailurePersists | tracer.py:201-213 | once a row has raised, the image raises |
| Sampler.SampleGrid | tracer.py:205-206 | the 25 samples are the grid offsets in [-2, 2] × [-2, 2], `xx` running fastest |
| Sampler.SampleSumOkIff | tracer.py:205-211 | a pixel's sum exists if and only if none of its samples raises |
| Sampler.ColumnsOkIff | tracer.py:202-213 | a row exists if and only if none of its pixels raises |
| Sampler.ColumnAt | tracer.py:202-213 | position `x` of row `y` holds pixel `(x, y)` |
| Sampler.RowsOkIff | tracer.py:201-213 | the rows exist if and only if none of their pixels raises |
| Sampler.RowAt | tracer.py:201-213 | pixel `(x, y)` is at position `y * width + x` |
| Sampler.RenderOkIff | tracer.py:191-213 | `pixels` succeeds if and only if the camera set-up does and no pixel raises; it then yields `height * width` colours (none for a negative size) |
| Sampler.RenderAt | tracer.py:201-213 | the colour yielded at `y * width + x` is pixel `(x, y)`'s average |
| Sampler.CameraSetupOkIff | tracer.py:192-199 | the set-up succeeds if and only if width is neither 0 nor 1, height is not 1, and the view direction is not parallel to world up |
| Sampler.RightIsOrthogonal | tracer.py:198 | `right` is a unit vector orthogonal to the view direction and to world up |
| Sampler.CameraBasis | tracer.py:198-199 | `right` and `up` are orthonormal and both orthogonal to the view direction |
| Sampler.SingleRowRaises | tracer.py:196 | an image one pixel high raises ZeroDivisionError |
| Sampler.SampleSumNonNegative | tracer.py:203-211 | in a scene of non-negative colours every partial sum of samples is non-negative |
| Sampler.PixelColorNonNegative | tracer.py:211-213 | in a scene of non-negative colours every yielded colour is non-negative |

The rows for the functions that compute the source's values (`Vectors.Vector.Add`, `Shading.Trace` and the like) name the lemmas and methods whose contracts state their properties. The named sub-expressions of `Sphere.intersect`, `find_nearest_intersection` and `pixels` (`Geometry.Projection`, `NearestHit.BoundAt`, `Sampler.SampleX` and the like) have rows too. `Sampler.PixelSamples` and `Sampler.Pixel` only package `SampleColor` and `PixelColor` as functions of the sample index and of the pixel position. Proof helpers have no row. These are real-arithmetic facts, the sub-steps of loop bodies and of one lemma, and the index arithmetic of the row-major layout. Examples are `RealMath.MulPositive`, `Shading.DivShift`, `Geometry.RootOnSphere`, `Geometry.RootPointOnSurface`, `Sampler.SampleOffsets`, `Sampler.SampleColorAt`, `Sampler.SampleSumStep`, `Shading.ShadeReflectiveWith` and `Sampler.RowMajorBound`.

## Left out

- `write_ppm` and the program entry point (the file output and the fixed 1024 × 768 run): they are file I/O.
- The scene built in `Tracer.__init__`: the model takes any scene as a parameter. This includes the normalization of the eye direction, so an eye direction is used exactly as given.
- `math.sqrt`, `math.tan` and `math.pi`: the first two are parameters, and the field of view is a parameter.
- Floating-point rounding: the model computes with exact reals. It therefore does not capture overflow, NaN, infinities or a near-zero denominator that rounds to zero.
- `__str__` and `__repr__`: they only format text.
- Laziness of the `pixels` generator: the model computes the whole list or the error. It does not capture that the Python generator yields the first pixels before a later one raises. It also does not capture that the camera set-up runs only when the first pixel is requested.
- Shading.Trace: requires every reflectiveness to be below 1, and leaves out the interpreter's recursion limit. `trace` calls itself once per reflection (tracer.py:187). CPython stops at about 1000 nested calls with a `RecursionError`. So a chain of more than about 1000 reflections raises in the source even when every reflectiveness is below 1. An example is a closed box of mirrors with reflectiveness 0.999, which needs about 2300 reflections to fall below the cut-off; there the model returns a colour. With a reflectiveness of 1 or more the recursion need not end below the cut-off at all, and the model has no `trace` for such scenes.
- NearestHit.NearestIsNearest: proved only when the ray starts outside every sphere. From inside a sphere, the sphere test can return a hit farther than `max_distance` (`Geometry.SphereFromInsideOvershoots`), so the last hit accepted need not be the nearest.
- Object identity by `is`: modelled as the object's position in the scene list. Two equal objects at different positions are different objects, as in Python.
- The `pixels` loops are split into five methods: `AddSample`, `AddSampleRow`, `SamplePixel`, `RenderRow` and `Pixels`. Together they follow the source's loop nesting and order.
- The body of the `find_lights` loop is a method of its own, `FindLightsStep`, which `FindLights` calls once per light, in order.
