/** The `Vector` class of tracer.py: an immutable triple of reals used both
    for points and directions and for RGB colours. */
module Vectors {
  import opened Wrappers
  import opened RealMath

  datatype Vector = Vector(x: real, y: real, z: real) {

    /** `__add__` */
    function Add(o: Vector): Vector {
      Vector(x + o.x, y + o.y, z + o.z)
    }

    /** `__sub__` */
    function Sub(o: Vector): Vector {
      Vector(x - o.x, y - o.y, z - o.z)
    }

    /** `__mul__`: the component-wise product, used to tint a colour. */
    function Mul(o: Vector): Vector {
      Vector(x * o.x, y * o.y, z * o.z)
    }

    /** `scalar_multiply` */
    function Scale(s: real): Vector {
      Vector(s * x, s * y, s * z)
    }

    function Dot(o: Vector): real {
      x * o.x + y * o.y + z * o.z
    }

    function Cross(o: Vector): Vector {
      Vector(y * o.z - z * o.y, z * o.x - x * o.z, x * o.y - y * o.x)
    }

    /** `normalized`: divides by the magnitude, which `sqrt` computes; a zero
        magnitude raises ZeroDivisionError, as `1.0 / 0.0` does in Python. */
    function Normalized(sqrt: real -> real): Result<Vector> {
      var magnitude := sqrt(Dot(this));
      if magnitude == 0.0 then ZeroDivision else Ok(Scale(1.0 / magnitude))
    }

    /** `reflect`: mirrors this direction about the (unit) `normal`. */
    function Reflect(normal: Vector): Vector {
      var d := normal.Scale(Dot(normal));
      Sub(d.Scale(2.0))
    }
  }

  /** The origin, and the colour black. */
  const Zero := Vector(0.0, 0.0, 0.0)

  /** A colour none of whose channels is negative. */
  predicate NonNegative(v: Vector) {
    0.0 <= v.x && 0.0 <= v.y && 0.0 <= v.z
  }

  /** Subtraction undoes addition and addition undoes subtraction. */
  lemma AddSubInverse(a: Vector, b: Vector)
    ensures a.Add(b).Sub(b) == a
    ensures a.Sub(b).Add(b) == a
  {
  }

  /** The component-wise product is commutative, has black as its zero, and
      tints a non-negative colour with a non-negative colour non-negatively. */
  lemma MulProperties(a: Vector, b: Vector)
    ensures a.Mul(b) == b.Mul(a)
    ensures a.Mul(Zero) == Zero
    ensures NonNegative(a) && NonNegative(b) ==> NonNegative(a.Mul(b))
  {
    if NonNegative(a) && NonNegative(b) {
      MulNonNegative(a.x, b.x);
      MulNonNegative(a.y, b.y);
      MulNonNegative(a.z, b.z);
    }
  }

  /** Scaling by a non-negative factor keeps a colour non-negative, and the
      sum of two non-negative colours is non-negative. */
  lemma NonNegativeClosed(a: Vector, b: Vector, s: real)
    requires NonNegative(a) && NonNegative(b) && 0.0 <= s
    ensures NonNegative(a.Scale(s))
    ensures NonNegative(a.Add(b))
  {
    MulNonNegative(s, a.x);
    MulNonNegative(s, a.y);
    MulNonNegative(s, a.z);
  }

  /** The dot product is symmetric and pulls scalars out of either side. */
  lemma DotBilinear(a: Vector, b: Vector, s: real)
    ensures a.Dot(b) == b.Dot(a)
    ensures a.Scale(s).Dot(b) == s * a.Dot(b)
    ensures a.Dot(b.Scale(s)) == s * a.Dot(b)
  {
  }

  /** The dot product distributes over a difference on the left. */
  lemma DotSubLeft(a: Vector, b: Vector, c: Vector)
    ensures a.Sub(b).Dot(c) == a.Dot(c) - b.Dot(c)
  {
  }

  /** A vector's dot product with itself is non-negative, and zero only for
      the zero vector. */
  lemma DotSelf(v: Vector)
    ensures 0.0 <= v.Dot(v)
    ensures v.Dot(v) == 0.0 <==> v == Zero
  {
    SquareNonNegative(v.x);
    SquareNonNegative(v.y);
    SquareNonNegative(v.z);
    if v.Dot(v) == 0.0 {
      SquareZero(v.x);
      SquareZero(v.y);
      SquareZero(v.z);
    }
  }

  /** The cross product is orthogonal to both of its factors. */
  lemma CrossOrthogonal(a: Vector, b: Vector)
    ensures a.Cross(b).Dot(a) == 0.0
    ensures a.Cross(b).Dot(b) == 0.0
  {
  }

  /** Lagrange's identity: the squared length of a cross product is the
      product of the squared lengths less the squared dot product. */
  lemma CrossLength(a: Vector, b: Vector)
    ensures a.Cross(b).Dot(a.Cross(b)) == a.Dot(a) * b.Dot(b) - a.Dot(b) * a.Dot(b)
  {
  }

  /** Normalizing raises ZeroDivisionError exactly for the zero vector. */
  lemma NormalizedFailsOnlyAtZero(sqrt: real -> real, v: Vector)
    requires IsSqrt(sqrt)
    ensures v.Normalized(sqrt).ZeroDivision? <==> v == Zero
  {
    DotSelf(v);
    SqrtZeroIff(sqrt, v.Dot(v));
  }

  /** Normalizing raises ZeroDivisionError exactly when the squared length
      is zero. */
  lemma NormalizedFailsAtNullLength(sqrt: real -> real, v: Vector)
    requires IsSqrt(sqrt)
    ensures v.Normalized(sqrt).ZeroDivision? <==> v.Dot(v) == 0.0
  {
    SquareNonNegative(v.x);
    SquareNonNegative(v.y);
    SquareNonNegative(v.z);
    SqrtZeroIff(sqrt, v.Dot(v));
  }

  /** A normalized vector has unit length and, scaled back by the magnitude,
      gives the original vector: it points the same way. */
  lemma NormalizedIsUnit(sqrt: real -> real, v: Vector)
    requires IsSqrt(sqrt)
    requires v != Zero
    ensures v.Normalized(sqrt).Ok?
    ensures v.Normalized(sqrt).value.Dot(v.Normalized(sqrt).value) == 1.0
    ensures 0.0 < sqrt(v.Dot(v)) && v.Normalized(sqrt).value.Scale(sqrt(v.Dot(v))) == v
  {
    NormalizedFailsOnlyAtZero(sqrt, v);
    DotSelf(v);
    var m := sqrt(v.Dot(v));
    assert m * m == v.Dot(v);
    var u := v.Scale(1.0 / m);
    DotBilinear(v, v, 1.0 / m);
    DotBilinear(v.Scale(1.0 / m), v, 1.0 / m);
    assert u.Dot(u) == (1.0 / m) * ((1.0 / m) * (m * m));
    assert u.Scale(m) == v;
  }

  /** Normalizing the opposite vector gives the opposite unit vector, and
      fails exactly when normalizing the vector itself fails. */
  lemma NormalizedOfOpposite(sqrt: real -> real, v: Vector)
    ensures v.Scale(-1.0).Normalized(sqrt).ZeroDivision? <==> v.Normalized(sqrt).ZeroDivision?
    ensures v.Normalized(sqrt).Ok? ==>
              v.Scale(-1.0).Normalized(sqrt) == Ok(v.Normalized(sqrt).value.Scale(-1.0))
  {
    var w := v.Scale(-1.0);
    DotBilinear(v, v, -1.0);
    DotBilinear(w, v, -1.0);
    assert w.Dot(w) == v.Dot(v);
    var m := sqrt(v.Dot(v));
    if m != 0.0 {
      var k := 1.0 / m;
      assert w.Scale(k) == v.Scale(k).Scale(-1.0);
    }
  }

  /** Reflection about a unit normal negates the component along the normal. */
  lemma ReflectNegatesNormalComponent(v: Vector, n: Vector)
    requires n.Dot(n) == 1.0
    ensures v.Reflect(n).Dot(n) == -v.Dot(n)
  {
    var k := v.Dot(n);
    var d := n.Scale(k);
    DotSubLeft(v, d.Scale(2.0), n);
    DotBilinear(d, n, 2.0);
    DotBilinear(n, n, k);
  }

  /** Reflection about a unit normal preserves length. */
  lemma ReflectPreservesLength(v: Vector, n: Vector)
    requires n.Dot(n) == 1.0
    ensures v.Reflect(n).Dot(v.Reflect(n)) == v.Dot(v)
  {
    var k := v.Dot(n);
    var r := v.Reflect(n);
    assert r.Dot(r) == v.Dot(v) - 4.0 * k * k + 4.0 * k * k * n.Dot(n);
  }

  /** Reflecting twice about the same unit normal gives the original vector. */
  lemma ReflectInvolution(v: Vector, n: Vector)
    requires n.Dot(n) == 1.0
    ensures v.Reflect(n).Reflect(n) == v
  {
    ReflectNegatesNormalComponent(v, n);
  }

  /** The squared length of `d*t - v`, expanded. */
  lemma ScaledOffsetSquare(d: Vector, v: Vector, t: real)
    ensures d.Scale(t).Sub(v).Dot(d.Scale(t).Sub(v)) == t * t * d.Dot(d) - 2.0 * t * v.Dot(d) + v.Dot(v)
  {
  }
}
