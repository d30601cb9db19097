/**
 * The escape-time generators of fractal.c, `mandelbrot_fractal` and
 * `julia_fractal`: every pixel is mapped to a point of the complex plane,
 * the orbit of `z := z*z + c` is followed until it leaves the disc of radius
 * 2 or `max_iter` steps have been taken, and the step count becomes a gray
 * level.
 *
 * The C doubles are modelled as exact reals. No property below depends on
 * the values of the orbit: they hold for whatever the escape test answers.
 */
module EscapeTime {
  import opened Arith
  import opened Raster
  import opened Canvas

  /** A point of the complex plane; the C code keeps its two parts in two doubles. */
  datatype Complex = Complex(re: real, im: real)

  /** The loop condition `x * x + y * y <= 4.0`: `z` is still inside the disc of radius 2. */
  predicate Bounded(z: Complex)
  {
    z.re * z.re + z.im * z.im <= 4.0
  }

  /** One iteration: `xtemp = x*x - y*y + c_re; y = 2.0*x*y + c_im; x = xtemp`. */
  function Next(z: Complex, c: Complex): Complex
  {
    Complex(z.re * z.re - z.im * z.im + c.re, 2.0 * z.re * z.im + c.im)
  }

  /** The orbit of `z0` after `k` iterations. */
  function Orbit(z0: Complex, c: Complex, k: nat): Complex
  {
    if k == 0 then z0 else Next(Orbit(z0, c, k - 1), c)
  }

  /**
   * The iteration count the loop ends with when it has already got to `k`:
   * the first step from `k` on at which the orbit has left the disc, or
   * `maxIter` if it never does before then.
   */
  function CountFrom(z0: Complex, c: Complex, maxIter: nat, k: nat): nat
    decreases maxIter - k
  {
    if k >= maxIter || !Bounded(Orbit(z0, c, k)) then k
    else CountFrom(z0, c, maxIter, k + 1)
  }

  /** The iteration count of the orbit of `z0` under `c`. */
  function EscapeCount(z0: Complex, c: Complex, maxIter: nat): nat
  {
    CountFrom(z0, c, maxIter, 0)
  }

  /** Counting from `k` on gives the first escape at or after `k`, and never more than `maxIter`. */
  lemma {:induction false} CountFromFirst(z0: Complex, c: Complex, maxIter: nat, k: nat)
    requires k <= maxIter
    ensures var n := CountFrom(z0, c, maxIter, k);
      && k <= n <= maxIter
      && (forall j :: k <= j < n ==> Bounded(Orbit(z0, c, j)))
      && (n < maxIter ==> !Bounded(Orbit(z0, c, n)))
    decreases maxIter - k
  {
    if k < maxIter && Bounded(Orbit(z0, c, k)) {
      CountFromFirst(z0, c, maxIter, k + 1);
    }
  }

  /**
   * The iteration count lies in [0, maxIter]; the orbit stays in the disc for
   * every step before it, and, unless the count is `maxIter`, has left it at
   * that step.
   */
  lemma EscapeCountFirst(z0: Complex, c: Complex, maxIter: nat)
    ensures var n := EscapeCount(z0, c, maxIter);
      && n <= maxIter
      && (forall j :: 0 <= j < n ==> Bounded(Orbit(z0, c, j)))
      && (n < maxIter ==> !Bounded(Orbit(z0, c, n)))
  {
    CountFromFirst(z0, c, maxIter, 0);
  }

  /** Those three facts determine the count: any `n` that has them is `EscapeCount`. */
  lemma EscapeCountUnique(z0: Complex, c: Complex, maxIter: nat, n: nat)
    requires n <= maxIter
    requires forall j :: 0 <= j < n ==> Bounded(Orbit(z0, c, j))
    requires n < maxIter ==> !Bounded(Orbit(z0, c, n))
    ensures n == EscapeCount(z0, c, maxIter)
  {
    EscapeCountFirst(z0, c, maxIter);
  }

  /** The body of the `while` loop, on the two parts of `z`. */
  method Iterate(x: real, y: real, c: Complex) returns (x': real, y': real)
    ensures Complex(x', y') == Next(Complex(x, y), c)
  {
    var xtemp := x * x - y * y + c.re;
    y' := 2.0 * x * y + c.im;
    x' := xtemp;
  }

  /**
   * The `while` loop of both generators: iterates from `z0` while the orbit
   * is in the disc and fewer than `maxIter` steps have been taken.
   */
  method EscapeIterations(z0: Complex, c: Complex, maxIter: nat) returns (iteration: nat)
    ensures iteration == EscapeCount(z0, c, maxIter)
  {
    var x, y := z0.re, z0.im;
    iteration := 0;
    while Bounded(Complex(x, y)) && iteration < maxIter
      invariant iteration <= maxIter
      invariant Complex(x, y) == Orbit(z0, c, iteration)
      invariant CountFrom(z0, c, maxIter, iteration) == EscapeCount(z0, c, maxIter)
      decreases maxIter - iteration
    {
      x, y := Iterate(x, y, c);
      iteration := iteration + 1;
    }
  }

  /** `255 * i / m` for `i < m`: the quotient and the bound the gray levels rely on. */
  lemma ScaledQuotient(i: nat, m: nat)
    requires i < m
    ensures var q := 255 * i / m;
      q * m <= 255 * i < (q + 1) * m && q <= 254
  {
    var q, r := 255 * i / m, 255 * i % m;
    assert 255 * i == q * m + r && 0 <= r < m;
    assert (q + 1) * m == q * m + m;
  }

  /**
   * The gray level of an iteration count: black (0) for a point that never
   * escaped, otherwise `255 * iteration / max_iter` rounded down, which stays
   * below 255 so the conversion to `pixel_data` keeps it.
   */
  function Colour(iteration: nat, maxIter: nat): (g: Byte)
    requires 0 < maxIter && iteration <= maxIter
    ensures iteration == maxIter ==> g == 0
    ensures iteration < maxIter ==> g * maxIter <= 255 * iteration < (g + 1) * maxIter
    ensures iteration < maxIter ==> g <= 254
  {
    if iteration == maxIter then 0
    else
      ScaledQuotient(iteration, maxIter);
      255 * iteration / maxIter
  }

  /** Below `maxIter`, a point that escapes later is never darker. */
  lemma ColourMonotone(i: nat, j: nat, maxIter: nat)
    requires i <= j < maxIter
    ensures Colour(i, maxIter) <= Colour(j, maxIter)
  {
    var a, b := Colour(i, maxIter), Colour(j, maxIter);
    if b < a {
      MulMono(maxIter, b + 1, a);
    }
  }

  /** The rectangle of the complex plane the raster shows. */
  datatype Viewport = Viewport(xMin: real, xMax: real, yMin: real, yMax: real)

  /** `x_min + (x_max - x_min) * px / width` and the same for `py` over `height`. */
  function PlanePoint(v: Viewport, width: nat, height: nat, px: nat, py: nat): Complex
    requires 0 < width && 0 < height
  {
    Complex(v.xMin + (v.xMax - v.xMin) * (px as real) / (width as real),
            v.yMin + (v.yMax - v.yMin) * (py as real) / (height as real))
  }

  /** Which of the two generators: the plane point is `c` (Mandelbrot) or the start of the orbit (Julia). */
  datatype EscapeSet = Mandelbrot | Julia(c: Complex)

  /** The orbit's starting point: 0 for Mandelbrot, the plane point for Julia. */
  function Start(kind: EscapeSet, p: Complex): Complex
  {
    match kind
    case Mandelbrot => Complex(0.0, 0.0)
    case Julia(_) => p
  }

  /** The added constant: the plane point for Mandelbrot, the fixed `c` for Julia. */
  function Param(kind: EscapeSet, p: Complex): Complex
  {
    match kind
    case Mandelbrot => p
    case Julia(c) => c
  }

  /** The gray level the generator computes for pixel (px, py). */
  function PixelColour(kind: EscapeSet, v: Viewport, maxIter: nat, width: nat, height: nat, px: nat, py: nat): Byte
    requires 0 < maxIter && 0 < width && 0 < height
  {
    var p := PlanePoint(v, width, height, px, py);
    EscapeCountFirst(Start(kind, p), Param(kind, p), maxIter);
    Colour(EscapeCount(Start(kind, p), Param(kind, p), maxIter), maxIter)
  }

  /** Row `y` of `s` holds the generator's gray levels. */
  ghost predicate RowRendered(s: seq<Byte>, width: nat, height: nat, y: nat, kind: EscapeSet, v: Viewport, maxIter: nat)
    requires 0 < maxIter && 0 < width && 0 < height
  {
    forall x :: 0 <= x < width ==> Index(width, x, y) < |s| && s[Index(width, x, y)] == PixelColour(kind, v, maxIter, width, height, x, y)
  }

  /** The pixels of row `y`, left to right. */
  function Row(width: nat, y: nat): (r: seq<Point>)
    ensures |r| == width
    ensures forall x :: 0 <= x < width ==> r[x] == Point(x, y)
  {
    seq(width, x => Point(x, y))
  }

  /** The pixels of the first `h` rows, in the order the loop nest visits them. */
  function RowMajor(width: nat, h: nat): seq<Point>
  {
    if h == 0 then [] else RowMajor(width, h - 1) + Row(width, h - 1)
  }

  /**
   * The visiting order lists `width * h` pixels, all on a `width` x `h`
   * raster, each at the position of its own sample, so no pixel comes twice.
   */
  lemma {:induction false} RowMajorIndex(width: nat, h: nat)
    ensures var r := RowMajor(width, h);
      && |r| == width * h
      && forall i :: 0 <= i < |r| ==> InBounds(width, h, r[i]) && Index(width, r[i].x, r[i].y) == i
  {
    if h > 0 {
      RowMajorIndex(width, h - 1);
      MulPred(width, h);
      var front := RowMajor(width, h - 1);
      assert var v := front; forall i :: 0 <= i < |v| ==> InBounds(width, h - 1, v[i]) && Index(width, v[i].x, v[i].y) == i;
      var r := RowMajor(width, h);
      forall i | 0 <= i < |r|
        ensures InBounds(width, h, r[i]) && Index(width, r[i].x, r[i].y) == i
      {
        if i < |front| {
          assert r[i] == front[i];
        } else {
          assert r[i] == Row(width, h - 1)[i - |front|];
        }
      }
    }
  }

  /** Each pixel of the raster is visited, at the position of its own sample. */
  lemma RowMajorCovers(width: nat, height: nat, x: nat, y: nat)
    requires x < width && y < height
    ensures Index(width, x, y) < |RowMajor(width, height)|
    ensures RowMajor(width, height)[Index(width, x, y)] == Point(x, y)
  {
    RowMajorIndex(width, height);
    IndexInRange(width, height, x, y);
    var p := RowMajor(width, height)[Index(width, x, y)];
    IndexInjective(width, p.x, p.y, x, y);
  }

  /** Row `py` of the loop nest: `set_pixel(px, py, colour)` for px = 0 .. width-1. */
  method RenderRow(img: Image, kind: EscapeSet, v: Viewport, maxIter: nat, py: nat)
    requires img.Valid() && 0 < maxIter && py < img.height
    modifies img.data
    ensures RowRendered(img.data[..], img.width, img.height, py, kind, v, maxIter)
    ensures forall i :: 0 <= i < img.data.Length && !(Index(img.width, 0, py) <= i < Index(img.width, 0, py) + img.width)
                        ==> img.data[i] == old(img.data[i])
  {
    var width, height := img.Width(), img.Height();
    IndexInRange(width, height, width - 1, py);
    for px := 0 to width
      invariant forall x :: 0 <= x < px ==> img.data[Index(width, x, py)] == PixelColour(kind, v, maxIter, width, height, x, py)
      invariant forall i :: 0 <= i < img.data.Length && !(Index(width, 0, py) <= i < Index(width, 0, py) + width)
                           ==> img.data[i] == old(img.data[i])
    {
      var p := PlanePoint(v, width, height, px, py);
      var iteration := EscapeIterations(Start(kind, p), Param(kind, p), maxIter);
      EscapeCountFirst(Start(kind, p), Param(kind, p), maxIter);
      var color := Colour(iteration, maxIter);
      img.SetPixel(px, py, color);
    }
  }

  /**
   * The loop nest of `mandelbrot_fractal` and `julia_fractal`: every pixel
   * gets the gray level of its iteration count. The nest runs `py` outside
   * and `px` inside, the order `RowMajor` lists.
   */
  method Render(img: Image, kind: EscapeSet, v: Viewport, maxIter: nat)
    requires img.Valid() && 0 < maxIter
    modifies img.data
    ensures forall x, y :: 0 <= x < img.width && 0 <= y < img.height ==>
              Index(img.width, x, y) < img.data.Length
              && img.data[Index(img.width, x, y)] == PixelColour(kind, v, maxIter, img.width, img.height, x, y)
  {
    var width, height := img.Width(), img.Height();
    for py := 0 to height
      invariant forall y :: 0 <= y < py ==> RowRendered(img.data[..], width, height, y, kind, v, maxIter)
    {
      ghost var before := img.data[..];
      RenderRow(img, kind, v, maxIter, py);
      forall y | 0 <= y < py
        ensures RowRendered(img.data[..], width, height, y, kind, v, maxIter)
      {
        KeepRow(before, img.data[..], width, height, y, py, kind, v, maxIter);
      }
    }
    forall x, y | 0 <= x < width && 0 <= y < height
      ensures Index(width, x, y) < img.data.Length
              && img.data[Index(width, x, y)] == PixelColour(kind, v, maxIter, width, height, x, y)
    {
      assert RowRendered(img.data[..], width, height, y, kind, v, maxIter);
    }
  }

  /** Writing row `py` leaves an earlier finished row `y` finished. */
  lemma KeepRow(s: seq<Byte>, s': seq<Byte>, width: nat, height: nat, y: nat, py: nat,
                kind: EscapeSet, v: Viewport, maxIter: nat)
    requires 0 < maxIter && 0 < width && 0 < height && y < py
    requires |s'| == |s|
    requires forall i :: 0 <= i < |s| && !(Index(width, 0, py) <= i < Index(width, 0, py) + width) ==> s'[i] == s[i]
    requires RowRendered(s, width, height, y, kind, v, maxIter)
    ensures RowRendered(s', width, height, y, kind, v, maxIter)
  {
    forall x | 0 <= x < width
      ensures Index(width, x, y) < Index(width, 0, py)
    {
      RowBefore(width, y, py, x);
      assert y * width == width * y && py * width == width * py;
    }
  }

  /** `mandelbrot_fractal`: its assertions as the requirement, then the loop nest with orbits from 0. */
  method MandelbrotFractal(img: Image, xMin: real, xMax: real, yMin: real, yMax: real, maxIter: int)
    requires img.Valid() && maxIter > 0 && xMax > xMin && yMax > yMin
    modifies img.data
    ensures forall x, y :: 0 <= x < img.width && 0 <= y < img.height ==>
              Index(img.width, x, y) < img.data.Length
              && img.data[Index(img.width, x, y)]
                 == PixelColour(Mandelbrot, Viewport(xMin, xMax, yMin, yMax), maxIter, img.width, img.height, x, y)
  {
    Render(img, Mandelbrot, Viewport(xMin, xMax, yMin, yMax), maxIter);
  }

  /** `julia_fractal`: the same loop nest with orbits from the plane point and the fixed constant `c`. */
  method JuliaFractal(img: Image, cReal: real, cImag: real, xMin: real, xMax: real, yMin: real, yMax: real, maxIter: int)
    requires img.Valid() && maxIter > 0 && xMax > xMin && yMax > yMin
    modifies img.data
    ensures forall x, y :: 0 <= x < img.width && 0 <= y < img.height ==>
              Index(img.width, x, y) < img.data.Length
              && img.data[Index(img.width, x, y)]
                 == PixelColour(Julia(Complex(cReal, cImag)), Viewport(xMin, xMax, yMin, yMax), maxIter, img.width, img.height, x, y)
  {
    Render(img, Julia(Complex(cReal, cImag)), Viewport(xMin, xMax, yMin, yMax), maxIter);
  }
}
