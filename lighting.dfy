/** Local shading: `Tracer.trace_lights`, which sums the diffuse and specular
    contributions of every light whose shadow ray reaches the hit object
    first, and `Tracer.find_lights`, which lists those lights. */
module Lighting {
  import opened Wrappers
  import opened RealMath
  import opened Vectors
  import opened Geometry
  import opened NearestHit

  /** `light_direction` of `trace_lights`: the unit vector from the hit point
      towards the light. */
  function LightDirection(sqrt: real -> real, light: Light, hit: Intersection): Result<Vector> {
    light.origin.Sub(hit.point).Normalized(sqrt)
  }

  /** What one light adds to `attenuation` in `trace_lights`: nothing when the
      shadow ray cast from the light reaches another object first, or hits
      nothing, or when the surface faces away from the light; otherwise the
      diffuse term `color*factor` plus the specular term `color*factor**40`. */
  function Contribution(sqrt: real -> real, objects: seq<Primitive>, light: Light, hit: Intersection)
    : Result<Option<Vector>>
  {
    var lightDirection :- LightDirection(sqrt, light, hit);
    var i :- Nearest(sqrt, objects, Ray(light.origin, lightDirection.Scale(-1.0)));
    if i.None? then Ok(None)
    else if i.value.obj == hit.obj then
      var factor := hit.normal.Dot(lightDirection);
      if factor > 0.0 then
        var specular := light.color.Scale(Pow(factor, 40));
        Ok(Some(light.color.Scale(factor).Add(specular)))
      else Ok(None)
    else Ok(None)
  }

  /** `attenuation` after the first `n` lights. */
  function Attenuation(sqrt: real -> real, objects: seq<Primitive>, lights: seq<Light>, hit: Intersection, n: nat)
    : Result<Vector>
    requires n <= |lights|
  {
    if n == 0 then Ok(Zero)
    else
      var a :- Attenuation(sqrt, objects, lights, hit, n - 1);
      var c :- Contribution(sqrt, objects, lights[n - 1], hit);
      if c.Some? then Ok(a.Add(c.value)) else Ok(a)
  }

  /** What `trace_lights` returns: the hit object's diffuse colour tinted by
      the accumulated light. */
  function LocalColor(sqrt: real -> real, objects: seq<Primitive>, lights: seq<Light>, hit: Intersection)
    : Result<Vector>
    requires hit.obj < |objects|
  {
    var a :- Attenuation(sqrt, objects, lights, hit, |lights|);
    Ok(objects[hit.obj].material.diffuseColor.Mul(a))
  }

  /** `trace_lights`, looping over the lights as the source does. */
  method TraceLights(sqrt: real -> real, objects: seq<Primitive>, lights: seq<Light>, hit: Intersection)
      returns (r: Result<Vector>)
    requires hit.obj < |objects|
    ensures r == LocalColor(sqrt, objects, lights, hit)
  {
    var attenuation := Zero;
    for k := 0 to |lights|
      invariant Attenuation(sqrt, objects, lights, hit, k) == Ok(attenuation)
    {
      var light := lights[k];
      var lightDirection := light.origin.Sub(hit.point).Normalized(sqrt);
      if lightDirection.ZeroDivision? {
        AttenuationFailurePersists(sqrt, objects, lights, hit, k + 1, |lights|);
        return ZeroDivision;
      }
      var i := FindNearestIntersection(sqrt, objects, Ray(light.origin, lightDirection.value.Scale(-1.0)));
      if i.ZeroDivision? {
        AttenuationFailurePersists(sqrt, objects, lights, hit, k + 1, |lights|);
        return ZeroDivision;
      }
      if i.value.None? {
        continue;
      }
      if i.value.value.obj == hit.obj {
        var factor := hit.normal.Dot(lightDirection.value);
        if factor > 0.0 {
          var specular := light.color.Scale(Pow(factor, 40));
          attenuation := attenuation.Add(light.color.Scale(factor).Add(specular));
        }
      }
    }
    return Ok(objects[hit.obj].material.diffuseColor.Mul(attenuation));
  }

  /** Once normalizing or a shadow-ray scan has raised, the accumulation
      stays failed. */
  lemma {:induction false} AttenuationFailurePersists(sqrt: real -> real, objects: seq<Primitive>, lights: seq<Light>,
                                                       hit: Intersection, i: nat, n: nat)
    requires i <= n <= |lights|
    requires Attenuation(sqrt, objects, lights, hit, i).ZeroDivision?
    ensures Attenuation(sqrt, objects, lights, hit, n).ZeroDivision?
  {
    if i < n {
      AttenuationFailurePersists(sqrt, objects, lights, hit, i, n - 1);
    }
  }

  /** The shadow-ray test of `find_lights`: the ray from the light towards
      the hit point reaches the hit object before any other. */
  function LitBy(sqrt: real -> real, objects: seq<Primitive>, light: Light, hit: Intersection): Result<bool> {
    var direction :- hit.point.Sub(light.origin).Normalized(sqrt);
    var i :- Nearest(sqrt, objects, Ray(light.origin, direction));
    Ok(i.Some? && i.value.obj == hit.obj)
  }

  /** `trace_lights` casts the same shadow ray as `find_lights`, written as
      the opposite of the direction towards the light. */
  lemma ShadowRaysAgree(sqrt: real -> real, light: Light, hit: Intersection)
    ensures LightDirection(sqrt, light, hit).ZeroDivision? <==>
              hit.point.Sub(light.origin).Normalized(sqrt).ZeroDivision?
    ensures LightDirection(sqrt, light, hit).Ok? ==>
              hit.point.Sub(light.origin).Normalized(sqrt) == Ok(LightDirection(sqrt, light, hit).value.Scale(-1.0))
  {
    var v := light.origin.Sub(hit.point);
    assert v.Scale(-1.0) == hit.point.Sub(light.origin);
    NormalizedOfOpposite(sqrt, v);
  }

  /** A light contributes to `trace_lights` exactly when `find_lights` would
      list it and the surface faces it (`factor > 0`); the contribution is
      then the diffuse plus the specular term. Both raise on the same lights. */
  lemma ContributionIffLit(sqrt: real -> real, objects: seq<Primitive>, light: Light, hit: Intersection)
    ensures Contribution(sqrt, objects, light, hit).ZeroDivision? <==> LitBy(sqrt, objects, light, hit).ZeroDivision?
    ensures var c := Contribution(sqrt, objects, light, hit);
            c.Ok? && c.value.Some? <==>
              LitBy(sqrt, objects, light, hit) == Ok(true)
              && 0.0 < hit.normal.Dot(LightDirection(sqrt, light, hit).value)
    ensures var c := Contribution(sqrt, objects, light, hit);
            c.Ok? && c.value.Some? ==>
              var f := hit.normal.Dot(LightDirection(sqrt, light, hit).value);
              c.value.value == light.color.Scale(f).Add(light.color.Scale(Pow(f, 40)))
  {
    ShadowRaysAgree(sqrt, light, hit);
  }

  /** With no lights, `trace_lights` is black. */
  lemma NoLightsBlack(sqrt: real -> real, objects: seq<Primitive>, hit: Intersection)
    requires hit.obj < |objects|
    ensures LocalColor(sqrt, objects, [], hit) == Ok(Zero)
  {
    MulProperties(objects[hit.obj].material.diffuseColor, Zero);
  }

  /** When every light's shadow ray is blocked by another object (or hits
      nothing), nothing accumulates. */
  lemma {:induction false} BlockedAttenuation(sqrt: real -> real, objects: seq<Primitive>, lights: seq<Light>,
                                               hit: Intersection, n: nat)
    requires n <= |lights|
    requires forall i :: 0 <= i < |lights| ==> LitBy(sqrt, objects, lights[i], hit) == Ok(false)
    ensures Attenuation(sqrt, objects, lights, hit, n) == Ok(Zero)
  {
    if n > 0 {
      BlockedAttenuation(sqrt, objects, lights, hit, n - 1);
      ContributionIffLit(sqrt, objects, lights[n - 1], hit);
    }
  }

  /** When every light is blocked, `trace_lights` is black. */
  lemma AllBlockedBlack(sqrt: real -> real, objects: seq<Primitive>, lights: seq<Light>, hit: Intersection)
    requires hit.obj < |objects|
    requires forall i :: 0 <= i < |lights| ==> LitBy(sqrt, objects, lights[i], hit) == Ok(false)
    ensures LocalColor(sqrt, objects, lights, hit) == Ok(Zero)
  {
    BlockedAttenuation(sqrt, objects, lights, hit, |lights|);
    MulProperties(objects[hit.obj].material.diffuseColor, Zero);
  }

  /** With non-negative light colours the accumulated light is non-negative. */
  lemma {:induction false} AttenuationNonNegative(sqrt: real -> real, objects: seq<Primitive>, lights: seq<Light>,
                                                   hit: Intersection, n: nat)
    requires n <= |lights|
    requires forall i :: 0 <= i < |lights| ==> NonNegative(lights[i].color)
    ensures var a := Attenuation(sqrt, objects, lights, hit, n);
            a.Ok? ==> NonNegative(a.value)
  {
    if n > 0 {
      AttenuationNonNegative(sqrt, objects, lights, hit, n - 1);
      var a := Attenuation(sqrt, objects, lights, hit, n - 1);
      var c := Contribution(sqrt, objects, lights[n - 1], hit);
      if a.Ok? && c.Ok? && c.value.Some? {
        var light := lights[n - 1];
        var f := hit.normal.Dot(LightDirection(sqrt, light, hit).value);
        var specular := light.color.Scale(Pow(f, 40));
        NonNegativeClosed(light.color, light.color, f);
        NonNegativeClosed(light.color, light.color, Pow(f, 40));
        NonNegativeClosed(light.color.Scale(f), specular, 0.0);
        NonNegativeClosed(a.value, light.color.Scale(f).Add(specular), 0.0);
      }
    }
  }

  /** A non-negative diffuse colour lit by non-negative lights gives a
      non-negative local colour. */
  lemma LocalColorNonNegative(sqrt: real -> real, objects: seq<Primitive>, lights: seq<Light>, hit: Intersection)
    requires hit.obj < |objects|
    requires NonNegative(objects[hit.obj].material.diffuseColor)
    requires forall i :: 0 <= i < |lights| ==> NonNegative(lights[i].color)
    ensures var c := LocalColor(sqrt, objects, lights, hit);
            c.Ok? ==> NonNegative(c.value)
  {
    AttenuationNonNegative(sqrt, objects, lights, hit, |lights|);
    var a := Attenuation(sqrt, objects, lights, hit, |lights|);
    if a.Ok? {
      MulProperties(objects[hit.obj].material.diffuseColor, a.value);
    }
  }

  /** The list `find_lights` has built after the first `n` lights. */
  function VisibleLights(sqrt: real -> real, objects: seq<Primitive>, lights: seq<Light>, hit: Intersection, n: nat)
    : Result<seq<Light>>
    requires n <= |lights|
  {
    if n == 0 then Ok([])
    else
      var ls :- VisibleLights(sqrt, objects, lights, hit, n - 1);
      var lit :- LitBy(sqrt, objects, lights[n - 1], hit);
      if lit then Ok(ls + [lights[n - 1]]) else Ok(ls)
  }

  /** One iteration of the loop of `find_lights`: cast the ray from light
      `k` towards the hit point and append the light when the ray reaches
      the hit object first. */
  method FindLightsStep(sqrt: real -> real, objects: seq<Primitive>, lights: seq<Light>, hit: Intersection, k: nat,
                        result: seq<Light>)
      returns (r: Result<seq<Light>>)
    requires k < |lights|
    requires VisibleLights(sqrt, objects, lights, hit, k) == Ok(result)
    ensures r == VisibleLights(sqrt, objects, lights, hit, k + 1)
  {
    var light := lights[k];
    var direction := hit.point.Sub(light.origin).Normalized(sqrt);
    if direction.ZeroDivision? {
      return ZeroDivision;
    }
    var i := FindNearestIntersection(sqrt, objects, Ray(light.origin, direction.value));
    if i.ZeroDivision? {
      return ZeroDivision;
    }
    if i.value.Some? && i.value.value.obj == hit.obj {
      return Ok(result + [light]);
    }
    return Ok(result);
  }

  /** `find_lights`, appending to a list as the source does. */
  method FindLights(sqrt: real -> real, objects: seq<Primitive>, lights: seq<Light>, hit: Intersection)
      returns (r: Result<seq<Light>>)
    ensures r == VisibleLights(sqrt, objects, lights, hit, |lights|)
  {
    var result: seq<Light> := [];
    for k := 0 to |lights|
      invariant VisibleLights(sqrt, objects, lights, hit, k) == Ok(result)
    {
      var next := FindLightsStep(sqrt, objects, lights, hit, k, result);
      if next.ZeroDivision? {
        VisibleLightsFailurePersists(sqrt, objects, lights, hit, k + 1, |lights|);
        return ZeroDivision;
      }
      result := next.value;
    }
    return Ok(result);
  }

  /** Once a shadow ray has raised, `find_lights` stays failed. */
  lemma {:induction false} VisibleLightsFailurePersists(sqrt: real -> real, objects: seq<Primitive>, lights: seq<Light>,
                                                         hit: Intersection, i: nat, n: nat)
    requires i <= n <= |lights|
    requires VisibleLights(sqrt, objects, lights, hit, i).ZeroDivision?
    ensures VisibleLights(sqrt, objects, lights, hit, n).ZeroDivision?
  {
    if i < n {
      VisibleLightsFailurePersists(sqrt, objects, lights, hit, i, n - 1);
    }
  }

  /** The positions among the first `n` lights whose shadow ray reaches the
      hit object, in increasing order. */
  function LitIndices(sqrt: real -> real, objects: seq<Primitive>, lights: seq<Light>, hit: Intersection, n: nat)
    : (r: seq<nat>)
    requires n <= |lights|
    ensures forall k :: 0 <= k < |r| ==> r[k] < n
    ensures forall k, l :: 0 <= k < l < |r| ==> r[k] < r[l]
    ensures forall i :: 0 <= i < n ==> (i in r <==> LitBy(sqrt, objects, lights[i], hit) == Ok(true))
  {
    if n == 0 then []
    else
      var prefix := LitIndices(sqrt, objects, lights, hit, n - 1);
      if LitBy(sqrt, objects, lights[n - 1], hit) == Ok(true) then prefix + [n - 1] else prefix
  }

  /** `find_lights` succeeds exactly when no shadow ray raises, and then
      returns exactly the lights at `LitIndices`, in their original order. */
  lemma {:induction false} VisibleLightsIsFilter(sqrt: real -> real, objects: seq<Primitive>, lights: seq<Light>,
                                                  hit: Intersection, n: nat)
    requires n <= |lights|
    ensures VisibleLights(sqrt, objects, lights, hit, n).Ok? <==>
              forall i :: 0 <= i < n ==> LitBy(sqrt, objects, lights[i], hit).Ok?
    ensures var r := VisibleLights(sqrt, objects, lights, hit, n);
            var idx := LitIndices(sqrt, objects, lights, hit, n);
            r.Ok? ==> |r.value| == |idx| && forall k :: 0 <= k < |idx| ==> r.value[k] == lights[idx[k]]
  {
    if n > 0 {
      VisibleLightsIsFilter(sqrt, objects, lights, hit, n - 1);
      var prev := VisibleLights(sqrt, objects, lights, hit, n - 1);
      if prev.ZeroDivision? {
        VisibleLightsFailurePersists(sqrt, objects, lights, hit, n - 1, n);
      }
    }
  }
}
