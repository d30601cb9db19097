/**
 * What the drawing routines of fractal.c do to the sample buffer, stated on
 * values: a pixel is "plotted" when it lies inside the raster (off-canvas
 * points are skipped, as the callers of `set_pixel` do), and a sequence of
 * points is painted one after the other.
 */
module Canvas {
  import opened Raster

  /** A pixel position in C `int` coordinates; it may lie off the canvas. */
  datatype Point = Point(x: int, y: int)

  predicate InBounds(width: nat, height: nat, p: Point)
  {
    0 <= p.x < width && 0 <= p.y < height
  }

  /** The guarded `set_pixel` of the drawing routines: stores `c` at `p` when `p` is on the canvas. */
  function Plot(s: seq<Byte>, width: nat, height: nat, p: Point, c: Byte): (r: seq<Byte>)
    requires |s| == width * height
    ensures |r| == |s|
  {
    if InBounds(width, height, p) then
      IndexInRange(width, height, p.x, p.y);
      s[Index(width, p.x, p.y) := c]
    else s
  }

  /** Plotting every point of `pts` in order. */
  function Paint(s: seq<Byte>, width: nat, height: nat, pts: seq<Point>, c: Byte): (r: seq<Byte>)
    requires |s| == width * height
    ensures |r| == |s|
  {
    if pts == [] then s
    else Plot(Paint(s, width, height, pts[..|pts| - 1], c), width, height, pts[|pts| - 1], c)
  }

  lemma PaintSnoc(s: seq<Byte>, width: nat, height: nat, pts: seq<Point>, p: Point, c: Byte)
    requires |s| == width * height
    ensures Paint(s, width, height, pts + [p], c) == Plot(Paint(s, width, height, pts, c), width, height, p, c)
  {
    assert (pts + [p])[..|pts|] == pts;
  }

  /** Painting one more point of `pts` plots it on top of the shorter prefix. */
  lemma PaintPrefix(s: seq<Byte>, width: nat, height: nat, pts: seq<Point>, k: nat, c: Byte)
    requires |s| == width * height && k < |pts|
    ensures Paint(s, width, height, pts[..k + 1], c) == Plot(Paint(s, width, height, pts[..k], c), width, height, pts[k], c)
  {
    assert pts[..k + 1][..k] == pts[..k];
  }

  /** Painting `a` and then `b` is painting `a + b`. */
  lemma {:induction false} PaintAppend(s: seq<Byte>, width: nat, height: nat, a: seq<Point>, b: seq<Point>, c: Byte)
    requires |s| == width * height
    ensures Paint(s, width, height, a + b, c) == Paint(Paint(s, width, height, a, c), width, height, b, c)
    decreases |b|
  {
    if b == [] {
      assert a + b == a;
    } else {
      var b' := b[..|b| - 1];
      assert a + b == (a + b') + [b[|b| - 1]];
      assert b == b' + [b[|b| - 1]];
      PaintSnoc(s, width, height, a + b', b[|b| - 1], c);
      PaintAppend(s, width, height, a, b', c);
      PaintSnoc(Paint(s, width, height, a, c), width, height, b', b[|b| - 1], c);
    }
  }

  /**
   * After painting, an on-canvas pixel holds `c` exactly when it is one of the
   * points, and its old sample otherwise.
   */
  lemma {:induction false} PaintAt(s: seq<Byte>, width: nat, height: nat, pts: seq<Point>, c: Byte, x: nat, y: nat)
    requires |s| == width * height && x < width && y < height
    ensures Index(width, x, y) < |s|
    ensures Paint(s, width, height, pts, c)[Index(width, x, y)]
            == if Point(x, y) in pts then c else s[Index(width, x, y)]
    decreases |pts|
  {
    IndexInRange(width, height, x, y);
    if pts != [] {
      var front, p := pts[..|pts| - 1], pts[|pts| - 1];
      assert pts == front + [p];
      PaintAt(s, width, height, front, c, x, y);
      var prev := Paint(s, width, height, front, c);
      if InBounds(width, height, p) {
        GetAfterSet(prev, width, height, p.x, p.y, c, x, y);
      }
    }
  }

  /** Points off the canvas leave the samples as they are. */
  lemma {:induction false} PaintOffCanvas(s: seq<Byte>, width: nat, height: nat, pts: seq<Point>, c: Byte)
    requires |s| == width * height
    requires forall i :: 0 <= i < |pts| ==> !InBounds(width, height, pts[i])
    ensures Paint(s, width, height, pts, c) == s
    decreases |pts|
  {
    if pts != [] {
      PaintOffCanvas(s, width, height, pts[..|pts| - 1], c);
    }
  }

  /**
   * The guard the drawing routines put around `set_pixel`: the pixel is
   * stored only when it lies on the canvas.
   */
  method PlotPixel(img: Image, p: Point, c: Byte)
    requires img.Valid()
    modifies img.data
    ensures img.data[..] == Plot(old(img.data[..]), img.width, img.height, p, c)
  {
    if 0 <= p.x < img.Width() && 0 <= p.y < img.Height() {
      img.SetPixel(p.x, p.y, c);
    }
  }
}
