/** `Tracer.find_nearest_intersection`: a scan over the object list in order
    that asks each primitive for a hit closer than the current horizon, and
    tightens that horizon to the distance of every hit it accepts. */
module NearestHit {
  import opened Wrappers
  import opened RealMath
  import opened Vectors
  import opened Geometry

  /** The initial search horizon, `1e6`. */
  const Horizon: real := 1000000.0

  /** The two loop variables: the last accepted hit and the current horizon. */
  datatype ScanState = ScanState(result: Option<Intersection>, maxDistance: real)

  /** The loop state after the first `n` objects have been asked. Before any
      hit the horizon is still `1e6`; after one it is that hit's distance. */
  function Scan(sqrt: real -> real, objects: seq<Primitive>, ray: Ray, n: nat): (r: Result<ScanState>)
    requires n <= |objects|
    ensures r.Ok? && r.value.result.None? ==> r.value.maxDistance == Horizon
    ensures r.Ok? && r.value.result.Some? ==>
              r.value.maxDistance == r.value.result.value.distance && r.value.result.value.obj < n
    ensures r.Ok? ==> 0.0 <= r.value.maxDistance
  {
    if n == 0 then Ok(ScanState(None, Horizon))
    else
      var s :- Scan(sqrt, objects, ray, n - 1);
      var hit :- objects[n - 1].Intersect(sqrt, ray, s.maxDistance, n - 1);
      if hit.Some? then Ok(ScanState(hit, hit.value.distance)) else Ok(s)
  }

  /** What `find_nearest_intersection` returns: the last accepted hit of the
      whole scan, or the ZeroDivisionError one of the tests raised. */
  function Nearest(sqrt: real -> real, objects: seq<Primitive>, ray: Ray): (r: Result<Option<Intersection>>)
    ensures r.Ok? && r.value.Some? ==> r.value.value.obj < |objects| && 0.0 <= r.value.value.distance
  {
    var s :- Scan(sqrt, objects, ray, |objects|);
    Ok(s.result)
  }

  /** The horizon the `i`-th object is asked with, when the scan gets that far. */
  function BoundAt(sqrt: real -> real, objects: seq<Primitive>, ray: Ray, i: nat): real
    requires i <= |objects|
  {
    var s := Scan(sqrt, objects, ray, i);
    if s.Ok? then s.value.maxDistance else Horizon
  }

  /** What the `i`-th object reports when asked with the scan's horizon. */
  function Report(sqrt: real -> real, objects: seq<Primitive>, ray: Ray, i: nat): Result<Option<Intersection>>
    requires i < |objects|
  {
    objects[i].Intersect(sqrt, ray, BoundAt(sqrt, objects, ray, i), i)
  }

  /** `find_nearest_intersection`, looping over the objects as the source does
      and returning early when a test raises. */
  method FindNearestIntersection(sqrt: real -> real, objects: seq<Primitive>, ray: Ray)
      returns (r: Result<Option<Intersection>>)
    ensures r == Nearest(sqrt, objects, ray)
  {
    var maxDistance := Horizon;
    var result: Option<Intersection> := None;
    for i := 0 to |objects|
      invariant Scan(sqrt, objects, ray, i) == Ok(ScanState(result, maxDistance))
    {
      var intersection := objects[i].Intersect(sqrt, ray, maxDistance, i);
      if intersection.ZeroDivision? {
        ScanFailurePersists(sqrt, objects, ray, i + 1, |objects|);
        return ZeroDivision;
      }
      if intersection.value.Some? {
        result := intersection.value;
        maxDistance := result.value.distance;
      }
    }
    return Ok(result);
  }

  /** Once a test has raised, the scan stays failed. */
  lemma {:induction false} ScanFailurePersists(sqrt: real -> real, objects: seq<Primitive>, ray: Ray, i: nat, n: nat)
    requires i <= n <= |objects|
    requires Scan(sqrt, objects, ray, i).ZeroDivision?
    ensures Scan(sqrt, objects, ray, n).ZeroDivision?
  {
    if i < n {
      ScanFailurePersists(sqrt, objects, ray, i, n - 1);
    }
  }

  /** A prefix of the scan accepts nothing exactly when every object in it
      misses at the initial horizon `1e6`. */
  lemma {:induction false} ScanNoneIff(sqrt: real -> real, objects: seq<Primitive>, ray: Ray, n: nat)
    requires n <= |objects|
    ensures Scan(sqrt, objects, ray, n) == Ok(ScanState(None, Horizon)) <==>
              forall i :: 0 <= i < n ==> objects[i].Intersect(sqrt, ray, Horizon, i) == Ok(None)
  {
    if n > 0 {
      ScanNoneIff(sqrt, objects, ray, n - 1);
      var s := Scan(sqrt, objects, ray, n - 1);
      if s.Ok? && s.value.result.Some? {
        var t := Scan(sqrt, objects, ray, n);
        assert t.Ok? ==> t.value.result.Some?;
      }
    }
  }

  /** `find_nearest_intersection` returns None exactly when no primitive
      reports a hit under the initial horizon. */
  lemma NearestNoneIff(sqrt: real -> real, objects: seq<Primitive>, ray: Ray)
    ensures Nearest(sqrt, objects, ray) == Ok(None) <==>
              forall i :: 0 <= i < |objects| ==> objects[i].Intersect(sqrt, ray, Horizon, i) == Ok(None)
  {
    ScanNoneIff(sqrt, objects, ray, |objects|);
  }

  /** A hit the scan ends with is the report of the object it names, and
      every later object reported no hit: the result is the last accepted
      hit in list order, and the horizon after it is that hit's distance. */
  lemma {:induction false} ScanIsLastAccepted(sqrt: real -> real, objects: seq<Primitive>, ray: Ray, n: nat)
    requires n <= |objects|
    ensures var s := Scan(sqrt, objects, ray, n);
            s.Ok? && s.value.result.Some? ==>
              var h := s.value.result.value;
              && Report(sqrt, objects, ray, h.obj) == Ok(Some(h))
              && (forall k :: h.obj < k < n ==>
                    Report(sqrt, objects, ray, k) == Ok(None)
                    && BoundAt(sqrt, objects, ray, k) == h.distance)
  {
    if n > 0 {
      ScanIsLastAccepted(sqrt, objects, ray, n - 1);
    }
  }

  /** `find_nearest_intersection` returns the last object in list order that
      reported a hit, and none after it did. */
  lemma NearestIsLastAccepted(sqrt: real -> real, objects: seq<Primitive>, ray: Ray)
    ensures var r := Nearest(sqrt, objects, ray);
            r.Ok? && r.value.Some? ==>
              var h := r.value.value;
              && h.obj < |objects|
              && Report(sqrt, objects, ray, h.obj) == Ok(Some(h))
              && forall k :: h.obj < k < |objects| ==> Report(sqrt, objects, ray, k) == Ok(None)
  {
    ScanIsLastAccepted(sqrt, objects, ray, |objects|);
  }

  /** The object at position `k` is accepted exactly when the scan's state
      after it names it as the result. */
  lemma AcceptedIff(sqrt: real -> real, objects: seq<Primitive>, ray: Ray, k: nat)
    requires k < |objects|
    requires Scan(sqrt, objects, ray, k).Ok?
    ensures var after := Scan(sqrt, objects, ray, k + 1);
            var rep := Report(sqrt, objects, ray, k);
            (rep.Ok? && rep.value.Some?) <==>
              (after.Ok? && after.value.result.Some? && after.value.result.value.obj == k)
  {
  }

  /** A plane accepted right after another accepted hit is strictly nearer
      than it: the plane test keeps its hits strictly within the horizon,
      which is the previous hit's distance. */
  lemma ConsecutivePlaneHitsDecrease(sqrt: real -> real, objects: seq<Primitive>, ray: Ray, k: nat)
    requires k < |objects| && objects[k].Plane?
    ensures var before := Scan(sqrt, objects, ray, k);
            var after := Scan(sqrt, objects, ray, k + 1);
            before.Ok? && before.value.result.Some?
            && after.Ok? && after.value.result.Some? && after.value.result.value.obj == k ==>
              after.value.result.value.distance < before.value.result.value.distance
  {
  }

  /** The ray origin is not strictly inside the primitive: for a sphere, it
      lies on or outside the surface; every plane qualifies. */
  predicate OriginOutside(p: Primitive, ray: Ray) {
    match p
    case Sphere(center, radius, _) =>
      radius * radius <= center.Sub(ray.origin).Dot(center.Sub(ray.origin))
    case Plane(_, _, _) => true
  }

  /** From on or outside a sphere, a hit whose near root lies behind the ray
      origin grazes the origin itself: the far root is then 0. */
  lemma SphereOutsideFarRootZero(sqrt: real -> real, center: Vector, radius: real, ray: Ray)
    requires IsSqrt(sqrt)
    requires radius * radius <= center.Sub(ray.origin).Dot(center.Sub(ray.origin))
    requires 0.0 <= Discriminant(center, radius, ray)
    requires 0.0 <= FarRoot(sqrt, center, radius, ray)
    requires NearRoot(sqrt, center, radius, ray) < 0.0
    ensures FarRoot(sqrt, center, radius, ray) == 0.0
  {
    var vd := Projection(center, ray);
    var s := sqrt(Discriminant(center, radius, ray));
    assert 0.0 <= s && s * s == Discriminant(center, radius, ray);
    var w := if vd < 0.0 then -vd else vd;
    assert w * w == vd * vd;
    SquareMonotone(s, w);
  }

  /** From on or outside a primitive, a smaller horizon either leaves the
      test's answer unchanged or turns it into a miss, and a miss at the
      smaller horizon means any hit at the larger one is no nearer than it.
      A hit at a non-negative horizon lies within it. */
  lemma IntersectShrink(sqrt: real -> real, p: Primitive, ray: Ray, b: real, bigger: real, id: nat)
    requires IsSqrt(sqrt)
    requires OriginOutside(p, ray)
    requires 0.0 <= b <= bigger
    ensures var rb := p.Intersect(sqrt, ray, b, id);
            var rB := p.Intersect(sqrt, ray, bigger, id);
            && (rb == rB || rb == Ok(None))
            && (rb.Ok? && rb.value.Some? ==> rb.value.value.distance <= b)
            && (rb == Ok(None) && rB.Ok? && rB.value.Some? ==> b <= rB.value.value.distance)
  {
    match p
    case Plane(_, _, _) =>
    case Sphere(center, radius, _) =>
      var disc := Discriminant(center, radius, ray);
      if 0.0 <= disc && 0.0 <= FarRoot(sqrt, center, radius, ray) {
        var t2 := NearRoot(sqrt, center, radius, ray);
        if t2 < 0.0 {
          SphereOutsideFarRootZero(sqrt, center, radius, ray);
        }
        if t2 <= b {
          SphereRootChoiceCore(sqrt, center, radius, ray, b, id);
          SphereRootChoiceCore(sqrt, center, radius, ray, bigger, id);
        } else if t2 <= bigger {
          SphereRootChoiceCore(sqrt, center, radius, ray, bigger, id);
        }
      }
  }

  /** The scan's invariant when the ray starts outside every primitive: the
      horizon never exceeds `1e6` nor the distance any object in the prefix
      reports at `1e6`, and the result is what its object reports at `1e6`. */
  lemma {:induction false} ScanIsMinimum(sqrt: real -> real, objects: seq<Primitive>, ray: Ray, n: nat)
    requires IsSqrt(sqrt)
    requires n <= |objects|
    requires forall i :: 0 <= i < |objects| ==> OriginOutside(objects[i], ray)
    ensures var s := Scan(sqrt, objects, ray, n);
            s.Ok? ==>
              && s.value.maxDistance <= Horizon
              && (forall i :: 0 <= i < n ==>
                    var g := objects[i].Intersect(sqrt, ray, Horizon, i);
                    g.Ok? && g.value.Some? ==> s.value.maxDistance <= g.value.value.distance)
              && (s.value.result.Some? ==>
                    objects[s.value.result.value.obj].Intersect(sqrt, ray, Horizon, s.value.result.value.obj)
                    == Ok(s.value.result))
  {
    if n > 0 {
      ScanIsMinimum(sqrt, objects, ray, n - 1);
      var prev := Scan(sqrt, objects, ray, n - 1);
      if prev.Ok? {
        IntersectShrink(sqrt, objects[n - 1], ray, prev.value.maxDistance, Horizon, n - 1);
        var rep := objects[n - 1].Intersect(sqrt, ray, prev.value.maxDistance, n - 1);
        if rep == Ok(None) {
          assert Scan(sqrt, objects, ray, n) == prev;
        } else if rep.Ok? {
          assert Scan(sqrt, objects, ray, n) == Ok(ScanState(rep.value, rep.value.value.distance));
        }
      }
    }
  }

  /** When the ray starts outside every sphere, `find_nearest_intersection`
      is the nearest hit: its distance is at most that of any hit an object
      reports at `1e6`, and it is what its own object reports there. */
  lemma NearestIsNearest(sqrt: real -> real, objects: seq<Primitive>, ray: Ray)
    requires IsSqrt(sqrt)
    requires forall i :: 0 <= i < |objects| ==> OriginOutside(objects[i], ray)
    ensures var r := Nearest(sqrt, objects, ray);
            r.Ok? && r.value.Some? ==>
              && objects[r.value.value.obj].Intersect(sqrt, ray, Horizon, r.value.value.obj) == Ok(r.value)
              && forall i :: 0 <= i < |objects| ==>
                   var g := objects[i].Intersect(sqrt, ray, Horizon, i);
                   g.Ok? && g.value.Some? ==> r.value.value.distance <= g.value.value.distance
  {
    ScanIsMinimum(sqrt, objects, ray, |objects|);
  }
}
