/** `Tracer.trace`: the colour seen along a ray, mixing the local colour of
    the nearest hit with the colour seen along the reflected ray, cut off
    once the accumulated influence falls below 0.1. */
module Shading {
  import opened Wrappers
  import opened RealMath
  import opened Vectors
  import opened Geometry
  import opened NearestHit
  import opened Lighting

  /** The influence below which `trace` stops following reflections. */
  const Cutoff: real := 0.1

  /** How far along the reflected direction the reflected ray starts, so that
      it does not hit the surface it leaves. */
  const Offset: real := 0.0001

  /** `trace` terminates only if every material reflects less than all the
      light it gets. */
  predicate ReflectivenessBelowOne(objects: seq<Primitive>) {
    forall i :: 0 <= i < |objects| ==> objects[i].material.reflectiveness < 1.0
  }

  /** The largest reflectiveness in the scene, and at least 0. */
  function MaxReflectiveness(objects: seq<Primitive>): (m: real)
    ensures 0.0 <= m
    ensures forall i :: 0 <= i < |objects| ==> objects[i].material.reflectiveness <= m
    ensures ReflectivenessBelowOne(objects) ==> m < 1.0
  {
    if |objects| == 0 then 0.0
    else
      var rest := MaxReflectiveness(objects[1..]);
      var r := objects[0].material.reflectiveness;
      assert forall i :: 1 <= i < |objects| ==> objects[i] == objects[1..][i - 1];
      if r < rest then rest else r
  }

  /** Each reflection lowers the influence by at least this much. */
  function Gap(objects: seq<Primitive>): (g: real)
    requires ReflectivenessBelowOne(objects)
    ensures 0.0 < g
  {
    Cutoff * (1.0 - MaxReflectiveness(objects))
  }

  /** How many more reflections `trace` can follow from `influence`. */
  function Budget(objects: seq<Primitive>, influence: real): nat
    requires ReflectivenessBelowOne(objects)
  {
    if influence <= 0.0 then 0 else (influence / Gap(objects)).Floor
  }

  /** The influence the reflected ray is traced with. */
  function ReflectedInfluence(influence: real, r: real): real {
    influence * r
  }

  /** A reflection off a material of positive reflectiveness `r`, from an
      influence of at least the cut-off, passes on a positive influence,
      takes at least `Gap` off it, and spends at least one unit of the
      budget. */
  lemma BudgetDecreases(objects: seq<Primitive>, influence: real, r: real)
    requires ReflectivenessBelowOne(objects)
    requires Cutoff <= influence
    requires 0.0 < r <= MaxReflectiveness(objects)
    ensures 0.0 < ReflectedInfluence(influence, r)
    ensures ReflectedInfluence(influence, r) <= influence - Gap(objects)
    ensures Budget(objects, ReflectedInfluence(influence, r)) < Budget(objects, influence)
  {
    QuotientFloorDecreases(influence, r, MaxReflectiveness(objects), Gap(objects));
  }

  /** The arithmetic of `BudgetDecreases`: with `0 < r <= m < 1` and
      `gap = 0.1 * (1 - m)`, the floor of `influence * r / gap` is below the
      floor of `influence / gap`. */
  lemma QuotientFloorDecreases(influence: real, r: real, m: real, gap: real)
    requires Cutoff <= influence
    requires 0.0 < r <= m < 1.0
    requires gap == Cutoff * (1.0 - m)
    ensures 0.0 < influence * r
    ensures influence * r <= influence - gap
    ensures (influence * r / gap).Floor < (influence / gap).Floor
  {
    MulPositive(influence, r);
    assert influence * r <= influence * m by {
      MulNonNegative(influence, m - r);
    }
    assert influence * (1.0 - m) >= Cutoff * (1.0 - m) by {
      MulNonNegative(influence - Cutoff, 1.0 - m);
    }
    DivMonotone(influence * r, influence - gap, gap);
    DivShift(influence, gap);
  }

  /** Taking `g` away before dividing by `g` takes 1 away after. */
  lemma DivShift(a: real, g: real)
    requires 0.0 < g
    ensures (a - g) / g == a / g - 1.0
  {
    var x := (a - g) / g;
    var y := a / g - 1.0;
    assert x * g == a - g;
    assert y * g == a - g;
    assert (x - y) * g == 0.0;
    if x < y {
      MulPositive(y - x, g);
    } else if y < x {
      MulPositive(x - y, g);
    }
  }

  /** Dividing by a positive number keeps the order. */
  lemma DivMonotone(a: real, c: real, g: real)
    requires a <= c && 0.0 < g
    ensures a / g <= c / g
  {
    var q := (c - a) / g;
    assert c / g - a / g == q;
    assert q * g == c - a;
    if q < 0.0 {
      MulPositive(-q, g);
    }
  }

  /** Mixing two non-negative colours with a weight in [0, 1] gives a
      non-negative colour. */
  lemma MixNonNegative(local: Vector, reflected: Vector, r: real)
    requires NonNegative(local) && NonNegative(reflected)
    requires 0.0 <= r <= 1.0
    ensures NonNegative(Mix(local, reflected, r))
  {
    NonNegativeClosed(local, local, 1.0 - r);
    NonNegativeClosed(reflected, reflected, r);
    NonNegativeClosed(local.Scale(1.0 - r), reflected.Scale(r), 0.0);
  }

  /** The reflected ray: the incoming direction mirrored about the hit
      normal, started a little off the surface along that direction. */
  function ReflectedRay(ray: Ray, hit: Intersection): Ray {
    var direction := ray.direction.Reflect(hit.normal);
    Ray(hit.point.Add(direction.Scale(Offset)), direction)
  }

  /** The local colour weighted by `1 - r` plus the reflected colour
      weighted by `r`. */
  function Mix(local: Vector, reflected: Vector, r: real): Vector {
    local.Scale(1.0 - r).Add(reflected.Scale(r))
  }

  /** `trace(ray, influence)`: black below the cut-off. */
  function Trace(sqrt: real -> real, objects: seq<Primitive>, lights: seq<Light>, ray: Ray, influence: real)
    : Result<Vector>
    requires ReflectivenessBelowOne(objects)
    decreases Budget(objects, influence), 2
  {
    if influence < Cutoff then Ok(Zero)
    else Follow(sqrt, objects, lights, ray, influence)
  }

  /** The rest of `trace` at or above the cut-off: black when the ray hits
      nothing, else the local colour of the nearest hit (`trace_lights`)
      shaded with its reflection. */
  function Follow(sqrt: real -> real, objects: seq<Primitive>, lights: seq<Light>, ray: Ray, influence: real)
    : Result<Vector>
    requires ReflectivenessBelowOne(objects)
    requires Cutoff <= influence
    decreases Budget(objects, influence), 1
  {
    var intersection :- Nearest(sqrt, objects, ray);
    if intersection.None? then Ok(Zero)
    else
      var hit := intersection.value;
      var color :- LocalColor(sqrt, objects, lights, hit);
      Shade(sqrt, objects, lights, ray, influence, hit, color)
  }

  /** The colour of a hit whose local colour is `color`: on a reflective
      material, mixed with the colour traced along the reflected ray. */
  function Shade(sqrt: real -> real, objects: seq<Primitive>, lights: seq<Light>, ray: Ray, influence: real,
                 hit: Intersection, color: Vector): Result<Vector>
    requires ReflectivenessBelowOne(objects)
    requires Cutoff <= influence
    requires hit.obj < |objects|
    decreases Budget(objects, influence), 0
  {
    var reflectiveness := objects[hit.obj].material.reflectiveness;
    if reflectiveness > 0.0 then
      BudgetDecreases(objects, influence, reflectiveness);
      var further :- Trace(sqrt, objects, lights, ReflectedRay(ray, hit), ReflectedInfluence(influence, reflectiveness));
      Ok(Mix(color, further, reflectiveness))
    else Ok(color)
  }

  /** Below the cut-off `trace` is black. */
  lemma {:induction false} TraceCutOff(sqrt: real -> real, objects: seq<Primitive>, lights: seq<Light>, ray: Ray, influence: real)
    requires ReflectivenessBelowOne(objects)
    requires influence < Cutoff
    ensures Trace(sqrt, objects, lights, ray, influence) == Ok(Zero)
  {
  }

  /** At or above the cut-off, a ray that hits nothing is black, and an
      error of the scan propagates. */
  lemma {:induction false} TraceMiss(sqrt: real -> real, objects: seq<Primitive>, lights: seq<Light>, ray: Ray, influence: real)
    requires ReflectivenessBelowOne(objects)
    requires Cutoff <= influence
    ensures Nearest(sqrt, objects, ray) == Ok(None) ==> Trace(sqrt, objects, lights, ray, influence) == Ok(Zero)
    ensures Nearest(sqrt, objects, ray).ZeroDivision? ==> Trace(sqrt, objects, lights, ray, influence).ZeroDivision?
  {
  }

  /** At or above the cut-off, a ray whose nearest hit is `hit` gets the
      shade of `hit` from its local colour, unless computing that colour
      raises. */
  lemma {:induction false} TraceHit(sqrt: real -> real, objects: seq<Primitive>, lights: seq<Light>, ray: Ray, influence: real,
                 hit: Intersection)
    requires ReflectivenessBelowOne(objects)
    requires Cutoff <= influence
    requires Nearest(sqrt, objects, ray) == Ok(Some(hit))
    ensures hit.obj < |objects|
    ensures var local := LocalColor(sqrt, objects, lights, hit);
            Trace(sqrt, objects, lights, ray, influence) ==
              if local.ZeroDivision? then ZeroDivision
              else Shade(sqrt, objects, lights, ray, influence, hit, local.value)
  {
  }

  /** A hit on a matte material (`reflectiveness <= 0`) keeps its local
      colour. */
  lemma {:induction false} ShadeMatte(sqrt: real -> real, objects: seq<Primitive>, lights: seq<Light>, ray: Ray, influence: real,
                   hit: Intersection, color: Vector)
    requires ReflectivenessBelowOne(objects)
    requires Cutoff <= influence
    requires hit.obj < |objects|
    requires objects[hit.obj].material.reflectiveness <= 0.0
    ensures Shade(sqrt, objects, lights, ray, influence, hit, color) == Ok(color)
  {
  }

  /** Proof step of `ShadeReflective`: the same statement with the colour
      of the hit and of the reflected ray passed in as `shaded` and
      `further`, so that each is unfolded once. */
  lemma {:induction false} ShadeReflectiveWith(sqrt: real -> real, objects: seq<Primitive>, lights: seq<Light>, ray: Ray,
                            influence: real, hit: Intersection, color: Vector,
                            shaded: Result<Vector>, further: Result<Vector>)
    requires ReflectivenessBelowOne(objects)
    requires Cutoff <= influence
    requires hit.obj < |objects|
    requires 0.0 < objects[hit.obj].material.reflectiveness
    requires shaded == Shade(sqrt, objects, lights, ray, influence, hit, color)
    requires further == Trace(sqrt, objects, lights, ReflectedRay(ray, hit),
                              ReflectedInfluence(influence, objects[hit.obj].material.reflectiveness))
    ensures shaded == if further.ZeroDivision? then ZeroDivision
                      else Ok(Mix(color, further.value, objects[hit.obj].material.reflectiveness))
  {
  }

  /** A hit on a reflective material (`0 < r`) is its local colour weighted
      by `1 - r` plus, weighted by `r`, the colour along the mirrored ray
      started just off the surface, traced with influence scaled by `r`; an
      error along the reflected ray propagates. */
  lemma {:induction false} ShadeReflective(sqrt: real -> real, objects: seq<Primitive>, lights: seq<Light>, ray: Ray, influence: real,
                        hit: Intersection, color: Vector)
    requires ReflectivenessBelowOne(objects)
    requires Cutoff <= influence
    requires hit.obj < |objects|
    requires 0.0 < objects[hit.obj].material.reflectiveness
    ensures var r := objects[hit.obj].material.reflectiveness;
            var further := Trace(sqrt, objects, lights, ReflectedRay(ray, hit), ReflectedInfluence(influence, r));
            Shade(sqrt, objects, lights, ray, influence, hit, color) ==
              if further.ZeroDivision? then ZeroDivision else Ok(Mix(color, further.value, r))
  {
    ShadeReflectiveWith(sqrt, objects, lights, ray, influence, hit, color,
                        Shade(sqrt, objects, lights, ray, influence, hit, color),
                        Trace(sqrt, objects, lights, ReflectedRay(ray, hit),
                              ReflectedInfluence(influence, objects[hit.obj].material.reflectiveness)));
  }

  /** The scene's colours are non-negative: every diffuse colour and every
      light colour. */
  predicate NonNegativeScene(objects: seq<Primitive>, lights: seq<Light>) {
    && (forall i :: 0 <= i < |objects| ==> NonNegative(objects[i].material.diffuseColor))
    && (forall i :: 0 <= i < |lights| ==> NonNegative(lights[i].color))
  }

  /** In a scene of non-negative colours, `trace` never returns a colour with
      a negative channel: the mix weights `1 - r` and `r` are both positive. */
  lemma {:induction false} TraceNonNegative(sqrt: real -> real, objects: seq<Primitive>, lights: seq<Light>,
                                            ray: Ray, influence: real)
    requires ReflectivenessBelowOne(objects)
    requires NonNegativeScene(objects, lights)
    ensures var c := Trace(sqrt, objects, lights, ray, influence);
            c.Ok? ==> NonNegative(c.value)
    decreases Budget(objects, influence), 1
  {
    if Cutoff <= influence {
      var n := Nearest(sqrt, objects, ray);
      if n.Ok? && n.value.Some? {
        var hit := n.value.value;
        TraceHit(sqrt, objects, lights, ray, influence, hit);
        LocalColorNonNegative(sqrt, objects, lights, hit);
        var local := LocalColor(sqrt, objects, lights, hit);
        if local.Ok? {
          ShadeNonNegative(sqrt, objects, lights, ray, influence, hit, local.value);
        }
      }
    }
  }

  /** `TraceNonNegative` once the nearest hit and its local colour are
      known. */
  lemma {:induction false} ShadeNonNegative(sqrt: real -> real, objects: seq<Primitive>, lights: seq<Light>,
                                            ray: Ray, influence: real, hit: Intersection, color: Vector)
    requires ReflectivenessBelowOne(objects)
    requires NonNegativeScene(objects, lights)
    requires Cutoff <= influence
    requires hit.obj < |objects|
    requires NonNegative(color)
    ensures var c := Shade(sqrt, objects, lights, ray, influence, hit, color);
            c.Ok? ==> NonNegative(c.value)
    decreases Budget(objects, influence), 0
  {
    var r := objects[hit.obj].material.reflectiveness;
    if r > 0.0 {
      var further := Trace(sqrt, objects, lights, ReflectedRay(ray, hit), ReflectedInfluence(influence, r));
      ShadeReflectiveWith(sqrt, objects, lights, ray, influence, hit, color,
                          Shade(sqrt, objects, lights, ray, influence, hit, color), further);
      BudgetDecreases(objects, influence, r);
      TraceNonNegative(sqrt, objects, lights, ReflectedRay(ray, hit), ReflectedInfluence(influence, r));
      if further.Ok? {
        MixNonNegative(color, further.value, r);
      }
    } else {
      ShadeMatte(sqrt, objects, lights, ray, influence, hit, color);
    }
  }
}
