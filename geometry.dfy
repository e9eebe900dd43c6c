/** The scene entities of tracer.py (materials, lights, rays, intersections,
    spheres and planes) and the two ray/primitive intersection tests. */
module Geometry {
  import opened Wrappers
  import opened RealMath
  import opened Vectors

  datatype Material = Material(reflectiveness: real, diffuseColor: Vector)

  datatype Light = Light(origin: Vector, color: Vector)

  datatype Ray = Ray(origin: Vector, direction: Vector)

  /** A hit. `obj` stands for the `object` attribute: the position of the hit
      primitive in the scene's object list, so that Python's identity test
      `i.object is intersection.object` becomes `i.obj == intersection.obj`. */
  datatype Intersection = Intersection(point: Vector, distance: real, normal: Vector, obj: nat)

  datatype Primitive =
    | Sphere(origin: Vector, radius: real, material: Material)
    | Plane(origin: Vector, normal: Vector, material: Material)
  {
    /** `intersect(ray, max_distance)` of either kind of primitive, reporting
        position `id` of the primitive as the hit object. */
    function Intersect(sqrt: real -> real, ray: Ray, maxDistance: real, id: nat): (r: Result<Option<Intersection>>)
      ensures r.Ok? && r.value.Some? ==> r.value.value.obj == id && 0.0 <= r.value.value.distance
      ensures r.Ok? && r.value.Some? ==>
                r.value.value.point == ray.origin.Add(ray.direction.Scale(r.value.value.distance))
      ensures Plane? ==> r.Ok?
      ensures Plane? && r.value.Some? ==> r.value.value.distance < maxDistance
    {
      match this
      case Sphere(center, radius, _) => SphereIntersect(sqrt, center, radius, ray, maxDistance, id)
      case Plane(origin, normal, _) => Ok(PlaneIntersect(origin, normal, ray, maxDistance, id))
    }
  }

  /** What the tracer keeps in its fields: the objects in list order, the
      lights, the eye ray and the field of view. */
  datatype Scene = Scene(objects: seq<Primitive>, lights: seq<Light>, eye: Ray, fov: real)

  /** Python's `min` of two numbers: the smaller one. */
  function Min(a: real, b: real): (m: real)
    ensures m <= a && m <= b
    ensures m == a || m == b
  {
    if b < a then b else a
  }

  /** `v_dot_direction`: how far along the ray the sphere's centre projects. */
  function Projection(center: Vector, ray: Ray): real {
    center.Sub(ray.origin).Dot(ray.direction)
  }

  /** The discriminant of the sphere equation before its square root is taken. */
  function Discriminant(center: Vector, radius: real, ray: Ray): real {
    var v := center.Sub(ray.origin);
    var vd := v.Dot(ray.direction);
    vd * vd - v.Dot(v) + radius * radius
  }

  /** The far root `t1` and the near root `t2`. */
  function FarRoot(sqrt: real -> real, center: Vector, radius: real, ray: Ray): real {
    Projection(center, ray) + sqrt(Discriminant(center, radius, ray))
  }

  function NearRoot(sqrt: real -> real, center: Vector, radius: real, ray: Ray): real {
    Projection(center, ray) - sqrt(Discriminant(center, radius, ray))
  }

  /** `Sphere.intersect`. Every miss is one of the three early exits; a hit
      has a non-negative distance, lies on the ray, and its normal is the
      normalized offset from the centre, which can raise ZeroDivisionError. */
  function SphereIntersect(sqrt: real -> real, center: Vector, radius: real, ray: Ray, maxDistance: real, id: nat)
    : (r: Result<Option<Intersection>>)
    ensures r.Ok? && r.value.Some? ==> r.value.value.obj == id && 0.0 <= r.value.value.distance
    ensures r.Ok? && r.value.Some? ==>
              r.value.value.point == ray.origin.Add(ray.direction.Scale(r.value.value.distance))
  {
    var vd := Projection(center, ray);
    var discriminant := Discriminant(center, radius, ray);
    if discriminant < 0.0 then Ok(None)
    else
      var root := sqrt(discriminant);
      var t1 := vd + root;
      if t1 < 0.0 then Ok(None)
      else
        var t2 := vd - root;
        if t2 > maxDistance then Ok(None)
        else
          var t := if t2 < 0.0 then t1 else Min(t1, t2);
          SphereHit(sqrt, center, ray, t, id)
  }

  /** The tail of `Sphere.intersect` once the distance `t` is chosen: the hit
      point on the ray and the normalized normal there. */
  function SphereHit(sqrt: real -> real, center: Vector, ray: Ray, t: real, id: nat): (r: Result<Option<Intersection>>)
    ensures r.Ok? ==> r.value.Some? && r.value.value.distance == t && r.value.value.obj == id
    ensures r.Ok? ==> r.value.value.point == ray.origin.Add(ray.direction.Scale(t))
  {
    var point := ray.origin.Add(ray.direction.Scale(t));
    var normal :- point.Sub(center).Normalized(sqrt);
    Ok(Some(Intersection(point, t, normal, id)))
  }

  /** The hit construction raises exactly when the hit point is the centre. */
  lemma SphereHitRaisesAtCenter(sqrt: real -> real, center: Vector, ray: Ray, t: real, id: nat)
    requires IsSqrt(sqrt)
    ensures SphereHit(sqrt, center, ray, t, id).ZeroDivision? <==>
              ray.origin.Add(ray.direction.Scale(t)) == center
  {
    var point := ray.origin.Add(ray.direction.Scale(t));
    NormalizedFailsOnlyAtZero(sqrt, point.Sub(center));
    AddSubInverse(center, point.Sub(center));
    assert point.Sub(center) == Zero <==> point == center;
  }

  /** `Plane.intersect`: never raises, since it divides only by a non-zero
      `denom`. */
  function PlaneIntersect(origin: Vector, normal: Vector, ray: Ray, maxDistance: real, id: nat)
    : (r: Option<Intersection>)
    ensures r.Some? ==> r.value.obj == id && 0.0 < r.value.distance < maxDistance
    ensures r.Some? ==> r.value.point == ray.origin.Add(ray.direction.Scale(r.value.distance))
  {
    var denom := ray.direction.Dot(normal);
    if denom != 0.0 then
      var distance := origin.Sub(ray.origin).Dot(normal) / denom;
      if distance > 0.0 && distance < maxDistance then
        var point := ray.origin.Add(ray.direction.Scale(distance));
        Some(Intersection(point, distance, normal, id))
      else None
    else None
  }

  /** The sphere test misses exactly on its three early exits. */
  lemma SphereMissConditions(sqrt: real -> real, center: Vector, radius: real, ray: Ray, maxDistance: real, id: nat)
    ensures SphereIntersect(sqrt, center, radius, ray, maxDistance, id) == Ok(None) <==>
              (Discriminant(center, radius, ray) < 0.0
               || FarRoot(sqrt, center, radius, ray) < 0.0
               || NearRoot(sqrt, center, radius, ray) > maxDistance)
  {
  }

  /** Past the early exits the sphere test raises exactly when the hit point
      is the centre itself. With a unit direction only a sphere of radius 0
      allows that (`SphereRaisesOnlyAtZeroRadius`); with a longer or shorter
      direction the chosen point can be the centre of any sphere. */
  lemma SphereRaisesAtCenter(sqrt: real -> real, center: Vector, radius: real, ray: Ray, maxDistance: real, id: nat)
    requires IsSqrt(sqrt)
    requires 0.0 <= Discriminant(center, radius, ray)
    requires 0.0 <= FarRoot(sqrt, center, radius, ray)
    requires NearRoot(sqrt, center, radius, ray) <= maxDistance
    ensures SphereIntersect(sqrt, center, radius, ray, maxDistance, id).ZeroDivision? <==>
              ray.origin.Add(ray.direction.Scale(SphereDistance(sqrt, center, radius, ray))) == center
  {
    var t := SphereDistance(sqrt, center, radius, ray);
    SphereRootChoiceCore(sqrt, center, radius, ray, maxDistance, id);
    SphereHitRaisesAtCenter(sqrt, center, ray, t, id);
  }

  /** Past the early exits, the sphere test is the hit construction at
      `SphereDistance`. */
  lemma SphereRootChoiceCore(sqrt: real -> real, center: Vector, radius: real, ray: Ray, maxDistance: real, id: nat)
    requires IsSqrt(sqrt)
    requires 0.0 <= Discriminant(center, radius, ray)
    requires 0.0 <= FarRoot(sqrt, center, radius, ray)
    requires NearRoot(sqrt, center, radius, ray) <= maxDistance
    ensures SphereIntersect(sqrt, center, radius, ray, maxDistance, id) ==
              SphereHit(sqrt, center, ray, SphereDistance(sqrt, center, radius, ray), id)
  {
    assert 0.0 <= sqrt(Discriminant(center, radius, ray));
  }

  /** The distance a sphere hit reports: the far root `t1` when the near
      root `t2` lies behind the ray origin, and `t2` otherwise. */
  function SphereDistance(sqrt: real -> real, center: Vector, radius: real, ray: Ray): real {
    var t2 := NearRoot(sqrt, center, radius, ray);
    if t2 < 0.0 then FarRoot(sqrt, center, radius, ray) else t2
  }

  /** A sphere hit reports `SphereDistance`: the near root is never the larger
      one, so `min(t1, t2)` is `t2`. */
  lemma SphereRootChoice(sqrt: real -> real, center: Vector, radius: real, ray: Ray, maxDistance: real, id: nat)
    requires IsSqrt(sqrt)
    ensures var r := SphereIntersect(sqrt, center, radius, ray, maxDistance, id);
            r.Ok? && r.value.Some? ==>
              NearRoot(sqrt, center, radius, ray) <= FarRoot(sqrt, center, radius, ray)
              && r.value.value.distance == SphereDistance(sqrt, center, radius, ray)
  {
    var disc := Discriminant(center, radius, ray);
    if 0.0 <= disc {
      assert 0.0 <= sqrt(disc);
    }
  }

  /** From inside a sphere the near root lies behind the ray origin, so a
      hit always reports the far root. */
  lemma SphereFromInsideTakesFarRoot(sqrt: real -> real, center: Vector, radius: real, ray: Ray, maxDistance: real, id: nat)
    requires IsSqrt(sqrt)
    requires center.Sub(ray.origin).Dot(center.Sub(ray.origin)) < radius * radius
    ensures 0.0 < Discriminant(center, radius, ray)
    ensures NearRoot(sqrt, center, radius, ray) < 0.0 < FarRoot(sqrt, center, radius, ray)
    ensures var r := SphereIntersect(sqrt, center, radius, ray, maxDistance, id);
            r.Ok? && r.value.Some? ==> r.value.value.distance == FarRoot(sqrt, center, radius, ray)
  {
    var vd := Projection(center, ray);
    var disc := Discriminant(center, radius, ray);
    SquareNonNegative(vd);
    var s := sqrt(disc);
    assert s * s == disc;
    var w := if vd < 0.0 then -vd else vd;
    assert w * w == vd * vd;
    if s <= w {
      SquareLe(s, w);
    }
    SphereRootChoice(sqrt, center, radius, ray, maxDistance, id);
  }

  /** From inside a sphere, with a unit direction, the test reports the far
      root even when it lies beyond the horizon: the sphere test does not
      keep its hits within `max_distance`. */
  lemma SphereFromInsideOvershoots(sqrt: real -> real, center: Vector, radius: real, ray: Ray, maxDistance: real, id: nat)
    requires IsSqrt(sqrt)
    requires ray.direction.Dot(ray.direction) == 1.0
    requires center.Sub(ray.origin).Dot(center.Sub(ray.origin)) < radius * radius
    requires 0.0 <= maxDistance < FarRoot(sqrt, center, radius, ray)
    ensures var r := SphereIntersect(sqrt, center, radius, ray, maxDistance, id);
            r.Ok? && r.value.Some? && r.value.value.distance == FarRoot(sqrt, center, radius, ray)
            && r.value.value.distance > maxDistance
  {
    SphereFromInsideTakesFarRoot(sqrt, center, radius, ray, maxDistance, id);
    SphereRootChoiceCore(sqrt, center, radius, ray, maxDistance, id);
    var t := FarRoot(sqrt, center, radius, ray);
    assert SphereDistance(sqrt, center, radius, ray) == t;
    RootPointOnSurface(center, radius, ray, t, sqrt(Discriminant(center, radius, ray)));
    var p := ray.origin.Add(ray.direction.Scale(t)).Sub(center);
    assert 0.0 < p.Dot(p) by {
      var v := center.Sub(ray.origin);
      SquareNonNegative(v.x);
      SquareNonNegative(v.y);
      SquareNonNegative(v.z);
    }
    NormalizedFailsAtNullLength(sqrt, p);
  }

  /** With a unit direction, a sphere hit lies on the sphere's surface and its
      normal has unit length. */
  lemma SphereHitOnSurface(sqrt: real -> real, center: Vector, radius: real, ray: Ray, maxDistance: real, id: nat)
    requires IsSqrt(sqrt)
    requires ray.direction.Dot(ray.direction) == 1.0
    ensures var r := SphereIntersect(sqrt, center, radius, ray, maxDistance, id);
            r.Ok? && r.value.Some? ==>
              var p := r.value.value.point.Sub(center);
              p.Dot(p) == radius * radius && r.value.value.normal.Dot(r.value.value.normal) == 1.0
  {
    var r := SphereIntersect(sqrt, center, radius, ray, maxDistance, id);
    if r.Ok? && r.value.Some? {
      SphereRootChoice(sqrt, center, radius, ray, maxDistance, id);
      SphereRootChoiceCore(sqrt, center, radius, ray, maxDistance, id);
      var t := SphereDistance(sqrt, center, radius, ray);
      RootPointOnSurface(center, radius, ray, t, sqrt(Discriminant(center, radius, ray)));
      var p := ray.origin.Add(ray.direction.Scale(t)).Sub(center);
      NormalizedFailsOnlyAtZero(sqrt, p);
      NormalizedIsUnit(sqrt, p);
    }
  }

  /** With a unit direction the sphere test raises ZeroDivisionError only
      for a sphere of radius 0: the point it normalizes against the centre
      lies on the surface. */
  lemma SphereRaisesOnlyAtZeroRadius(sqrt: real -> real, center: Vector, radius: real, ray: Ray, maxDistance: real,
                                     id: nat)
    requires IsSqrt(sqrt)
    requires ray.direction.Dot(ray.direction) == 1.0
    ensures SphereIntersect(sqrt, center, radius, ray, maxDistance, id).ZeroDivision? ==> radius == 0.0
  {
    if SphereIntersect(sqrt, center, radius, ray, maxDistance, id).ZeroDivision? {
      SphereRootChoiceCore(sqrt, center, radius, ray, maxDistance, id);
      var t := SphereDistance(sqrt, center, radius, ray);
      RootPointOnSurface(center, radius, ray, t, sqrt(Discriminant(center, radius, ray)));
      NormalizedFailsAtNullLength(sqrt, ray.origin.Add(ray.direction.Scale(t)).Sub(center));
      SquareZero(radius);
    }
  }

  /** With a unit direction, the point of the ray at either root of the
      sphere equation lies on the sphere's surface. */
  lemma RootPointOnSurface(center: Vector, radius: real, ray: Ray, t: real, s: real)
    requires ray.direction.Dot(ray.direction) == 1.0
    requires s * s == Discriminant(center, radius, ray)
    requires t == Projection(center, ray) + s || t == Projection(center, ray) - s
    ensures var p := ray.origin.Add(ray.direction.Scale(t)).Sub(center);
            p.Dot(p) == radius * radius
  {
    var d := ray.direction;
    var v := center.Sub(ray.origin);
    var p := ray.origin.Add(d.Scale(t)).Sub(center);
    assert p == d.Scale(t).Sub(v);
    ScaledOffsetSquare(d, v, t);
    RootOnSphere(t, v.Dot(d), s, v.Dot(v), radius * radius);
  }

  /** Either root `t` of the sphere equation satisfies it: `t*t - 2*t*vd + vv == rr`. */
  lemma RootOnSphere(t: real, vd: real, s: real, vv: real, rr: real)
    requires s * s == vd * vd - vv + rr
    requires t == vd + s || t == vd - s
    ensures t * t - 2.0 * t * vd + vv == rr
  {
    assert (t - vd) * (t - vd) == s * s;
  }

  /** A plane misses a ray parallel to it; otherwise it hits exactly when
      the crossing lies strictly between the ray origin and the horizon, and
      the hit is a point of the plane carrying the plane's own normal. */
  lemma PlaneHitConditions(origin: Vector, normal: Vector, ray: Ray, maxDistance: real, id: nat)
    ensures var denom := ray.direction.Dot(normal);
            var r := PlaneIntersect(origin, normal, ray, maxDistance, id);
            r.Some? <==>
              (denom != 0.0
               && 0.0 < origin.Sub(ray.origin).Dot(normal) / denom < maxDistance)
    ensures var r := PlaneIntersect(origin, normal, ray, maxDistance, id);
            r.Some? ==> r.value.normal == normal && r.value.point.Sub(origin).Dot(normal) == 0.0
  {
    var denom := ray.direction.Dot(normal);
    var r := PlaneIntersect(origin, normal, ray, maxDistance, id);
    if r.Some? {
      var t := r.value.distance;
      var w := origin.Sub(ray.origin);
      assert t * denom == w.Dot(normal);
      assert r.value.point.Sub(origin) == ray.direction.Scale(t).Sub(w);
      assert r.value.point.Sub(origin).Dot(normal) == t * denom - w.Dot(normal);
    }
  }
}
