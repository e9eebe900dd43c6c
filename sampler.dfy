/** `Tracer.pixels`: the camera set up from the eye and the field of view,
    and the supersampling loop that casts 25 rays through a 5 x 5 grid in
    every pixel, averages what `trace` sees along them, and produces the
    pixels row by row. */
module Sampler {
  import opened Wrappers
  import opened RealMath
  import opened Vectors
  import opened Geometry
  import opened Shading

  /** `xrange(n)` has this many elements: none when `n` is negative. */
  function Span(n: int): nat {
    if n < 0 then 0 else n
  }

  /** The world's up direction, from which the camera's right is derived. */
  const WorldUp: Vector := Vector(0.0, 1.0, 0.0)

  /** The rays cast per pixel: a 5 x 5 grid of sub-samples. */
  const Samples: nat := 25

  /** What `pixels` computes once before its loops: the half extents of the
      image plane, the size of one pixel on it, and the camera basis. */
  datatype Camera = Camera(halfWidth: real, halfHeight: real, pixelWidth: real, pixelHeight: real,
                           right: Vector, up: Vector)

  /** The set-up lines of `pixels`. `tan` stands for `math.tan`. The three
      divisions raise ZeroDivisionError for `width == 0`, `width == 1` and
      `height == 1`, and both normalizations raise for a zero vector. */
  function CameraSetup(sqrt: real -> real, tan: real -> real, eye: Ray, fov: real, width: int, height: int)
    : Result<Camera>
  {
    var halfWidth := tan(fov);
    if width == 0 then ZeroDivision
    else
      var halfHeight := (height as real / width as real) * halfWidth;
      if width as real - 1.0 == 0.0 then ZeroDivision
      else
        var pixelWidth := (halfWidth * 2.0) / (width as real - 1.0);
        if height as real - 1.0 == 0.0 then ZeroDivision
        else
          var pixelHeight := (halfHeight * 2.0) / (height as real - 1.0);
          var right :- eye.direction.Cross(WorldUp).Normalized(sqrt);
          var up :- right.Cross(eye.direction).Normalized(sqrt);
          Ok(Camera(halfWidth, halfHeight, pixelWidth, pixelHeight, right, up))
  }

  /** The sub-sample offsets of sample `k` of a pixel, `xx` running
      fastest: for `k < 25` they are `k % 5 - 2` and `k / 5 - 2`, written
      without division. */
  function SampleX(k: nat): int {
    k - 5 * (SampleY(k) + 2) - 2
  }

  function SampleY(k: nat): int {
    if k < 5 then -2 else if k < 10 then -1 else if k < 15 then 0 else if k < 20 then 1 else 2
  }

  /** Sample `5 * (yy + 2) + (xx + 2)` is the one at offsets `(xx, yy)`: the
      25 samples visit the grid `[-2, 2] x [-2, 2]` with `yy` outermost. */
  lemma SampleOffsets(k: nat, xx: int, yy: int)
    requires -2 <= xx < 3 && -2 <= yy < 3
    requires k == (yy + 2) * 5 + (xx + 2)
    ensures SampleX(k) == xx && SampleY(k) == yy
  {
  }

  /** The ray through the point of the image plane at pixel `(x, y)` moved
      by `(xx, yy)` quarter pixels. */
  function SampleRay(sqrt: real -> real, eye: Ray, camera: Camera, x: int, y: int, xx: int, yy: int): Result<Ray> {
    var xcomp := camera.right.Scale((x as real + xx as real * 0.25) * camera.pixelWidth - camera.halfWidth);
    var ycomp := camera.up.Scale((y as real + yy as real * 0.25) * camera.pixelHeight - camera.halfHeight);
    var direction :- eye.direction.Add(xcomp).Add(ycomp).Normalized(sqrt);
    Ok(Ray(eye.origin, direction))
  }

  /** `trace(ray, 1.0)` for sample `k` of pixel `(x, y)`. */
  function SampleColor(sqrt: real -> real, scene: Scene, camera: Camera, x: int, y: int, k: nat): Result<Vector>
    requires ReflectivenessBelowOne(scene.objects)
  {
    var ray :- SampleRay(sqrt, scene.eye, camera, x, y, SampleX(k), SampleY(k));
    Trace(sqrt, scene.objects, scene.lights, ray, 1.0)
  }

  /** The samples of pixel `(x, y)`, by number. */
  function PixelSamples(sqrt: real -> real, scene: Scene, camera: Camera, x: int, y: int): nat -> Result<Vector>
    requires ReflectivenessBelowOne(scene.objects)
  {
    (k: nat) => SampleColor(sqrt, scene, camera, x, y, k)
  }

  /** `color` once the first `k` samples of a pixel are added. */
  function SampleSum(sample: nat -> Result<Vector>, k: nat): Result<Vector> {
    if k == 0 then Ok(Zero)
    else
      var color :- SampleSum(sample, k - 1);
      var c :- sample(k - 1);
      Ok(color.Add(c))
  }

  /** The colour `pixels` yields for pixel `(x, y)`: the 25 samples summed
      and scaled by `1 / 25`. */
  function PixelColor(sqrt: real -> real, scene: Scene, camera: Camera, x: int, y: int): Result<Vector>
    requires ReflectivenessBelowOne(scene.objects)
  {
    var color :- SampleSum(PixelSamples(sqrt, scene, camera, x, y), Samples);
    Ok(color.Scale(1.0 / 25.0))
  }

  /** Pixel `(x, y)`'s colour as a function of its position, for a fixed
      scene and camera. */
  function Pixel(sqrt: real -> real, scene: Scene, camera: Camera): (int, int) -> Result<Vector>
    requires ReflectivenessBelowOne(scene.objects)
  {
    (x, y) => PixelColor(sqrt, scene, camera, x, y)
  }

  /** The first `n` pixels of row `y`. */
  function Columns(pixel: (int, int) -> Result<Vector>, y: int, n: nat): (r: Result<seq<Vector>>)
    ensures r.Ok? ==> |r.value| == n
  {
    if n == 0 then Ok([])
    else
      var row :- Columns(pixel, y, n - 1);
      var c :- pixel(n - 1, y);
      Ok(row + [c])
  }

  /** The first `n` rows, each `width` pixels long, one after the other. */
  function Rows(pixel: (int, int) -> Result<Vector>, width: nat, n: nat): (r: Result<seq<Vector>>)
    ensures r.Ok? ==> |r.value| == n * width
  {
    if n == 0 then Ok([])
    else
      var image :- Rows(pixel, width, n - 1);
      var row :- Columns(pixel, n - 1, width);
      Ok(image + row)
  }

  /** Every colour `pixels(width, height)` yields, in order. */
  function Render(sqrt: real -> real, tan: real -> real, scene: Scene, width: int, height: int)
    : Result<seq<Vector>>
    requires ReflectivenessBelowOne(scene.objects)
  {
    var camera :- CameraSetup(sqrt, tan, scene.eye, scene.fov, width, height);
    Rows(Pixel(sqrt, scene, camera), Span(width), Span(height))
  }

  /** The body of the innermost loop of `pixels`: one sample traced and
      added to the colour of its pixel. */
  method AddSample(sqrt: real -> real, scene: Scene, camera: Camera, x: int, y: int, xx: int, yy: int,
                   ghost k: nat, color: Vector) returns (r: Result<Vector>)
    requires ReflectivenessBelowOne(scene.objects)
    requires SampleX(k) == xx && SampleY(k) == yy
    requires SampleSum(PixelSamples(sqrt, scene, camera, x, y), k) == Ok(color)
    ensures r == SampleSum(PixelSamples(sqrt, scene, camera, x, y), k + 1)
  {
    var ray := SampleRay(sqrt, scene.eye, camera, x, y, xx, yy);
    var traced := if ray.ZeroDivision? then ZeroDivision else Trace(sqrt, scene.objects, scene.lights, ray.value, 1.0);
    SampleColorAt(sqrt, scene, camera, x, y, k, xx, yy, traced);
    SampleSumStep(PixelSamples(sqrt, scene, camera, x, y), k, color, traced, SampleSum(PixelSamples(sqrt, scene, camera, x, y), k + 1));
    if traced.ZeroDivision? {
      return ZeroDivision;
    }
    return Ok(color.Add(traced.value));
  }

  /** The loop of `pixels` over `xx`: the five samples of row `yy` of the
      sub-sample grid added to the colour of pixel `(x, y)`. */
  method AddSampleRow(sqrt: real -> real, scene: Scene, camera: Camera, x: int, y: int, yy: int,
                      ghost k: nat, color: Vector) returns (r: Result<Vector>)
    requires ReflectivenessBelowOne(scene.objects)
    requires -2 <= yy < 3 && k == (yy + 2) * 5
    requires SampleSum(PixelSamples(sqrt, scene, camera, x, y), k) == Ok(color)
    ensures r == SampleSum(PixelSamples(sqrt, scene, camera, x, y), k + 5)
  {
    ghost var sample := PixelSamples(sqrt, scene, camera, x, y);
    var sum := color;
    ghost var j: nat := k;
    for xx := -2 to 3
      invariant j == k + (xx + 2)
      invariant SampleSum(sample, j) == Ok(sum)
    {
      SampleOffsets(j, xx, yy);
      var next := AddSample(sqrt, scene, camera, x, y, xx, yy, j, sum);
      if next.ZeroDivision? {
        SampleSumFailurePersists(sample, j + 1, k + 5);
        return ZeroDivision;
      }
      sum, j := next.value, j + 1;
    }
    return Ok(sum);
  }

  /** The two inner loops of `pixels`: the 25 samples of pixel `(x, y)`,
      added up and averaged. */
  method SamplePixel(sqrt: real -> real, scene: Scene, camera: Camera, x: int, y: int)
      returns (r: Result<Vector>)
    requires ReflectivenessBelowOne(scene.objects)
    ensures r == PixelColor(sqrt, scene, camera, x, y)
  {
    ghost var sample := PixelSamples(sqrt, scene, camera, x, y);
    var color := Zero;
    ghost var k: nat := 0;
    for yy := -2 to 3
      invariant k == (yy + 2) * 5
      invariant SampleSum(sample, k) == Ok(color)
    {
      var sum := AddSampleRow(sqrt, scene, camera, x, y, yy, k, color);
      if sum.ZeroDivision? {
        SampleSumFailurePersists(sample, k + 5, Samples);
        return ZeroDivision;
      }
      color, k := sum.value, k + 5;
    }
    return Ok(color.Scale(1.0 / 25.0));
  }

  /** The loop of `pixels` over `x`: the pixels of row `y`, left to right. */
  method RenderRow(sqrt: real -> real, scene: Scene, camera: Camera, y: int, width: nat)
      returns (r: Result<seq<Vector>>)
    requires ReflectivenessBelowOne(scene.objects)
    ensures r == Columns(Pixel(sqrt, scene, camera), y, width)
  {
    ghost var pixel := Pixel(sqrt, scene, camera);
    var row: seq<Vector> := [];
    for x := 0 to width
      invariant Columns(pixel, y, x) == Ok(row)
    {
      var color := SamplePixel(sqrt, scene, camera, x, y);
      assert pixel(x, y) == color;
      if color.ZeroDivision? {
        ColumnsFailurePersists(pixel, y, x + 1, width);
        return ZeroDivision;
      }
      row := row + [color.value];
    }
    return Ok(row);
  }

  /** `pixels`: the camera set-up, then every row, top to bottom, collecting
      the yielded colours. */
  method Pixels(sqrt: real -> real, tan: real -> real, scene: Scene, width: int, height: int)
      returns (r: Result<seq<Vector>>)
    requires ReflectivenessBelowOne(scene.objects)
    ensures r == Render(sqrt, tan, scene, width, height)
  {
    var setup := CameraSetup(sqrt, tan, scene.eye, scene.fov, width, height);
    if setup.ZeroDivision? {
      return ZeroDivision;
    }
    var camera := setup.value;
    var w := Span(width);
    var h := Span(height);
    ghost var pixel := Pixel(sqrt, scene, camera);
    var image: seq<Vector> := [];
    for y := 0 to h
      invariant Rows(pixel, w, y) == Ok(image)
    {
      var row := RenderRow(sqrt, scene, camera, y, w);
      if row.ZeroDivision? {
        RowsFailurePersists(pixel, w, y + 1, h);
        return ZeroDivision;
      }
      image := image + row.value;
    }
    return Ok(image);
  }

  /** Sample `k` at offsets `(xx, yy)` is `trace` along the ray through them. */
  lemma SampleColorAt(sqrt: real -> real, scene: Scene, camera: Camera, x: int, y: int, k: nat, xx: int, yy: int,
                      traced: Result<Vector>)
    requires ReflectivenessBelowOne(scene.objects)
    requires SampleX(k) == xx && SampleY(k) == yy
    requires traced == (var ray := SampleRay(sqrt, scene.eye, camera, x, y, xx, yy);
                        if ray.ZeroDivision? then ZeroDivision else Trace(sqrt, scene.objects, scene.lights, ray.value, 1.0))
    ensures SampleColor(sqrt, scene, camera, x, y, k) == traced
    ensures PixelSamples(sqrt, scene, camera, x, y)(k) == traced
  {
  }

  /** Adding sample `k` to the sum of the samples before it. */
  lemma SampleSumStep(sample: nat -> Result<Vector>, k: nat, color: Vector, next: Result<Vector>, sum: Result<Vector>)
    requires SampleSum(sample, k) == Ok(color)
    requires sample(k) == next
    requires sum == SampleSum(sample, k + 1)
    ensures sum == if next.ZeroDivision? then ZeroDivision else Ok(color.Add(next.value))
  {
  }

  /** Once a prefix of the samples raises, every longer prefix raises. */
  lemma {:induction false} SampleSumFailurePersists(sample: nat -> Result<Vector>, i: nat, n: nat)
    requires i <= n
    requires SampleSum(sample, i).ZeroDivision?
    ensures SampleSum(sample, n).ZeroDivision?
    decreases n - i
  {
    if i < n {
      SampleSumFailurePersists(sample, i + 1, n);
    }
  }

  /** Once a prefix of a row raises, every longer prefix raises. */
  lemma {:induction false} ColumnsFailurePersists(pixel: (int, int) -> Result<Vector>, y: int, i: nat, n: nat)
    requires i <= n
    requires Columns(pixel, y, i).ZeroDivision?
    ensures Columns(pixel, y, n).ZeroDivision?
    decreases n - i
  {
    if i < n {
      ColumnsFailurePersists(pixel, y, i + 1, n);
    }
  }

  /** Once a prefix of the rows raises, every longer prefix raises. */
  lemma {:induction false} RowsFailurePersists(pixel: (int, int) -> Result<Vector>, width: nat, i: nat, n: nat)
    requires i <= n
    requires Rows(pixel, width, i).ZeroDivision?
    ensures Rows(pixel, width, n).ZeroDivision?
    decreases n - i
  {
    if i < n {
      RowsFailurePersists(pixel, width, i + 1, n);
    }
  }

  /** The 25 samples of a pixel are exactly the grid points `(xx, yy)` of
      `[-2, 2] x [-2, 2]`, each once, with `xx` varying fastest. */
  lemma SampleGrid(k: nat)
    requires k < Samples
    ensures -2 <= SampleX(k) <= 2 && -2 <= SampleY(k) <= 2
    ensures k == (SampleY(k) + 2) * 5 + (SampleX(k) + 2)
  {
  }

  /** The sum of the first `k` samples exists exactly when none of them
      raises. */
  lemma {:induction false} SampleSumOkIff(sample: nat -> Result<Vector>, k: nat)
    ensures SampleSum(sample, k).Ok? <==> forall i :: 0 <= i < k ==> sample(i).Ok?
  {
    if k > 0 {
      SampleSumOkIff(sample, k - 1);
    }
  }

  /** Row `y` exists exactly when none of its pixels raises. */
  lemma {:induction false} ColumnsOkIff(pixel: (int, int) -> Result<Vector>, y: int, n: nat)
    ensures Columns(pixel, y, n).Ok? <==> forall x :: 0 <= x < n ==> pixel(x, y).Ok?
  {
    if n > 0 {
      ColumnsOkIff(pixel, y, n - 1);
    }
  }

  /** Row `y` holds pixel `(x, y)` at position `x`. */
  lemma {:induction false} ColumnAt(pixel: (int, int) -> Result<Vector>, y: int, n: nat, x: nat)
    requires Columns(pixel, y, n).Ok? && x < n
    ensures pixel(x, y).Ok? && Columns(pixel, y, n).value[x] == pixel(x, y).value
  {
    if x < n - 1 {
      ColumnAt(pixel, y, n - 1, x);
    }
  }

  /** The first `n` rows exist exactly when none of their pixels raises. */
  lemma {:induction false} RowsOkIff(pixel: (int, int) -> Result<Vector>, width: nat, n: nat)
    ensures Rows(pixel, width, n).Ok? <==>
            forall y, x :: 0 <= y < n && 0 <= x < width ==> pixel(x, y).Ok?
  {
    if n > 0 {
      RowsOkIff(pixel, width, n - 1);
      ColumnsOkIff(pixel, n - 1, width);
    }
  }

  /** Position `y * width + x` comes before the end of `n` rows. */
  lemma RowMajorBound(y: nat, x: nat, width: nat, n: nat)
    requires y < n && x < width
    ensures 0 <= y * width + x < n * width
  {
    var d: nat := n - y - 1;
    assert n * width == y * width + width + d * width;
    assert 0 <= d * width && 0 <= y * width;
  }

  /** The image is laid out row by row: pixel `(x, y)` is at `y * width + x`. */
  lemma {:induction false} RowAt(pixel: (int, int) -> Result<Vector>, width: nat, n: nat, y: nat, x: nat)
    requires Rows(pixel, width, n).Ok? && y < n && x < width
    ensures 0 <= y * width + x < n * width
    ensures pixel(x, y).Ok? && Rows(pixel, width, n).value[y * width + x] == pixel(x, y).value
  {
    RowMajorBound(y, x, width, n);
    var image := Rows(pixel, width, n - 1).value;
    var row := Columns(pixel, n - 1, width).value;
    assert Rows(pixel, width, n).value == image + row;
    if y < n - 1 {
      RowAt(pixel, width, n - 1, y, x);
    } else {
      assert y * width + x == |image| + x;
      ColumnAt(pixel, n - 1, width, x);
    }
  }

  /** `pixels(width, height)` yields `width * height` colours (none for a
      negative size), and raises exactly when the camera or some pixel does. */
  lemma RenderOkIff(sqrt: real -> real, tan: real -> real, scene: Scene, width: int, height: int)
    requires ReflectivenessBelowOne(scene.objects)
    ensures var image := Render(sqrt, tan, scene, width, height);
            var camera := CameraSetup(sqrt, tan, scene.eye, scene.fov, width, height);
            && (image.Ok? <==>
                  camera.Ok? &&
                  forall y, x :: 0 <= y < height && 0 <= x < width ==>
                    PixelColor(sqrt, scene, camera.value, x, y).Ok?)
            && (image.Ok? ==> |image.value| == Span(height) * Span(width))
  {
    var camera := CameraSetup(sqrt, tan, scene.eye, scene.fov, width, height);
    if camera.Ok? {
      var pixel := Pixel(sqrt, scene, camera.value);
      RowsOkIff(pixel, Span(width), Span(height));
      forall y, x | 0 <= y < height && 0 <= x < width
        ensures pixel(x, y) == PixelColor(sqrt, scene, camera.value, x, y)
      {
      }
    }
  }

  /** Pixel `(x, y)` is yielded at position `y * width + x`. */
  lemma RenderAt(sqrt: real -> real, tan: real -> real, scene: Scene, width: int, height: int, x: int, y: int)
    requires ReflectivenessBelowOne(scene.objects)
    requires Render(sqrt, tan, scene, width, height).Ok?
    requires 0 <= x < width && 0 <= y < height
    ensures var image := Render(sqrt, tan, scene, width, height).value;
            var camera := CameraSetup(sqrt, tan, scene.eye, scene.fov, width, height).value;
            && 0 <= y * width + x < |image|
            && PixelColor(sqrt, scene, camera, x, y).Ok?
            && image[y * width + x] == PixelColor(sqrt, scene, camera, x, y).value
  {
    var camera := CameraSetup(sqrt, tan, scene.eye, scene.fov, width, height).value;
    var pixel := Pixel(sqrt, scene, camera);
    assert Render(sqrt, tan, scene, width, height) == Rows(pixel, width, height);
    RowAt(pixel, width, height, y, x);
    assert pixel(x, y) == PixelColor(sqrt, scene, camera, x, y);
  }

  /** Setting up the camera raises ZeroDivisionError exactly for a width of
      0 or 1, a height of 1, or a view direction that is zero or points
      straight up or down (where the camera's right is undefined). */
  lemma CameraSetupOkIff(sqrt: real -> real, tan: real -> real, eye: Ray, fov: real, width: int, height: int)
    requires IsSqrt(sqrt)
    ensures CameraSetup(sqrt, tan, eye, fov, width, height).Ok? <==>
            width != 0 && width != 1 && height != 1 && eye.direction.Cross(WorldUp) != Zero
  {
    var d := eye.direction;
    var c := d.Cross(WorldUp);
    NormalizedFailsOnlyAtZero(sqrt, c);
    if c != Zero {
      NormalizedIsUnit(sqrt, c);
      var right := c.Normalized(sqrt).value;
      RightIsOrthogonal(sqrt, d);
      CrossLength(right, d);
      NormalizedFailsAtNullLength(sqrt, right.Cross(d));
      CrossLength(d, WorldUp);
      DotSelf(c);
      SquareNonNegative(d.Dot(WorldUp));
      assert 0.0 < c.Dot(c) <= d.Dot(d);
    }
  }

  /** The camera's right is a unit vector orthogonal to the view direction
      and to the world's up. */
  lemma RightIsOrthogonal(sqrt: real -> real, d: Vector)
    requires IsSqrt(sqrt)
    requires d.Cross(WorldUp) != Zero
    ensures var right := d.Cross(WorldUp).Normalized(sqrt);
            && right.Ok?
            && right.value.Dot(right.value) == 1.0
            && right.value.Dot(d) == 0.0
            && right.value.Dot(WorldUp) == 0.0
  {
    var c := d.Cross(WorldUp);
    NormalizedIsUnit(sqrt, c);
    CrossOrthogonal(d, WorldUp);
    var m := sqrt(c.Dot(c));
    DotBilinear(c, d, 1.0 / m);
    DotBilinear(c, WorldUp, 1.0 / m);
  }

  /** Once set up, the camera's right and up are orthonormal and both are
      orthogonal to the view direction: the image plane faces the eye. */
  lemma CameraBasis(sqrt: real -> real, tan: real -> real, eye: Ray, fov: real, width: int, height: int)
    requires IsSqrt(sqrt)
    requires CameraSetup(sqrt, tan, eye, fov, width, height).Ok?
    ensures var camera := CameraSetup(sqrt, tan, eye, fov, width, height).value;
            && camera.right.Dot(camera.right) == 1.0
            && camera.up.Dot(camera.up) == 1.0
            && camera.right.Dot(camera.up) == 0.0
            && camera.right.Dot(eye.direction) == 0.0
            && camera.up.Dot(eye.direction) == 0.0
            && camera.right.Dot(WorldUp) == 0.0
  {
    var d := eye.direction;
    CameraSetupOkIff(sqrt, tan, eye, fov, width, height);
    RightIsOrthogonal(sqrt, d);
    var right := d.Cross(WorldUp).Normalized(sqrt).value;
    var e := right.Cross(d);
    NormalizedFailsOnlyAtZero(sqrt, e);
    NormalizedIsUnit(sqrt, e);
    CrossOrthogonal(right, d);
    var m := sqrt(e.Dot(e));
    DotBilinear(e, right, 1.0 / m);
    DotBilinear(e, d, 1.0 / m);
    DotBilinear(right, e.Scale(1.0 / m), 1.0);
  }

  /** The image is at least two pixels wide and high: a single row, as in
      `pixels(2, 1)`, raises ZeroDivisionError. */
  lemma SingleRowRaises(sqrt: real -> real, tan: real -> real, scene: Scene, width: int)
    requires ReflectivenessBelowOne(scene.objects)
    ensures Render(sqrt, tan, scene, width, 1) == ZeroDivision
  {
  }

  /** In a scene of non-negative colours, the samples of a pixel add up to
      a non-negative colour. */
  lemma {:induction false} SampleSumNonNegative(sqrt: real -> real, scene: Scene, camera: Camera, x: int, y: int,
                                                k: nat)
    requires ReflectivenessBelowOne(scene.objects)
    requires NonNegativeScene(scene.objects, scene.lights)
    ensures var sum := SampleSum(PixelSamples(sqrt, scene, camera, x, y), k);
            sum.Ok? ==> NonNegative(sum.value)
  {
    if k > 0 {
      SampleSumNonNegative(sqrt, scene, camera, x, y, k - 1);
      var sum := SampleSum(PixelSamples(sqrt, scene, camera, x, y), k - 1);
      var ray := SampleRay(sqrt, scene.eye, camera, x, y, SampleX(k - 1), SampleY(k - 1));
      if sum.Ok? && ray.Ok? {
        TraceNonNegative(sqrt, scene.objects, scene.lights, ray.value, 1.0);
        var c := SampleColor(sqrt, scene, camera, x, y, k - 1);
        if c.Ok? {
          NonNegativeClosed(sum.value, c.value, 0.0);
        }
      }
    }
  }

  /** In a scene of non-negative colours, every pixel `pixels` yields is a
      non-negative colour. */
  lemma PixelColorNonNegative(sqrt: real -> real, scene: Scene, camera: Camera, x: int, y: int)
    requires ReflectivenessBelowOne(scene.objects)
    requires NonNegativeScene(scene.objects, scene.lights)
    ensures var color := PixelColor(sqrt, scene, camera, x, y);
            color.Ok? ==> NonNegative(color.value)
  {
    SampleSumNonNegative(sqrt, scene, camera, x, y, Samples);
    var sum := SampleSum(PixelSamples(sqrt, scene, camera, x, y), Samples);
    if sum.Ok? {
      NonNegativeClosed(sum.value, sum.value, 1.0 / 25.0);
    }
  }
}
