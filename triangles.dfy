/**
 * `draw_filled_triangle` of fractal.c: the three edges drawn with
 * `draw_line`, then a scan of the rows between the lowest and the highest
 * vertex in which every canvas pixel that passes the sign test of the three
 * edge functions is set.
 *
 * Coordinates are mathematical integers; the C `int` products of the edge
 * functions are assumed not to overflow.
 */
module Triangles {
  import opened Raster
  import opened Canvas
  import opened Line

  datatype Triangle = Triangle(x1: int, y1: int, x2: int, y2: int, x3: int, y3: int)

  /** The edge function `d1`: the side of the edge from vertex 2 to vertex 1 on which (x, y) lies. */
  function D1(t: Triangle, x: int, y: int): int
  {
    (x - t.x2) * (t.y1 - t.y2) - (t.x1 - t.x2) * (y - t.y2)
  }

  /** The edge function `d2`, for the edge from vertex 3 to vertex 2. */
  function D2(t: Triangle, x: int, y: int): int
  {
    (x - t.x3) * (t.y2 - t.y3) - (t.x2 - t.x3) * (y - t.y3)
  }

  /** The edge function `d3`, for the edge from vertex 1 to vertex 3. */
  function D3(t: Triangle, x: int, y: int): int
  {
    (x - t.x1) * (t.y3 - t.y1) - (t.x3 - t.x1) * (y - t.y1)
  }

  /** The fill test: the three edge values are not a mix of negative and positive ones. */
  predicate Covers(t: Triangle, x: int, y: int)
  {
    var hasNeg := D1(t, x, y) < 0 || D2(t, x, y) < 0 || D3(t, x, y) < 0;
    var hasPos := D1(t, x, y) > 0 || D2(t, x, y) > 0 || D3(t, x, y) > 0;
    !(hasNeg && hasPos)
  }

  /** A point passes the fill test exactly when all three edge values share a (weak) sign. */
  lemma CoversIff(t: Triangle, x: int, y: int)
    ensures Covers(t, x, y) <==>
      (D1(t, x, y) >= 0 && D2(t, x, y) >= 0 && D3(t, x, y) >= 0) ||
      (D1(t, x, y) <= 0 && D2(t, x, y) <= 0 && D3(t, x, y) <= 0)
  {
  }

  /** Each vertex lies on two of the edges, so two of its edge values are 0 and it always passes. */
  lemma VerticesCovered(t: Triangle)
    ensures Covers(t, t.x1, t.y1) && Covers(t, t.x2, t.y2) && Covers(t, t.x3, t.y3)
  {
    assert D1(t, t.x1, t.y1) == 0 && D3(t, t.x1, t.y1) == 0;
    assert D1(t, t.x2, t.y2) == 0 && D2(t, t.x2, t.y2) == 0;
    assert D2(t, t.x3, t.y3) == 0 && D3(t, t.x3, t.y3) == 0;
  }

  /** `min_y`, found as the code does: start at `y1`, then lower it to `y2` and to `y3`. */
  function MinY(t: Triangle): (r: int)
    ensures r <= t.y1 && r <= t.y2 && r <= t.y3
    ensures r == t.y1 || r == t.y2 || r == t.y3
  {
    var m := if t.y2 < t.y1 then t.y2 else t.y1;
    if t.y3 < m then t.y3 else m
  }

  /** `max_y`, found in the same way. */
  function MaxY(t: Triangle): (r: int)
    ensures r >= t.y1 && r >= t.y2 && r >= t.y3
    ensures r == t.y1 || r == t.y2 || r == t.y3
  {
    var m := if t.y2 > t.y1 then t.y2 else t.y1;
    if t.y3 > m then t.y3 else m
  }

  /** The three `draw_line` calls: the edges 1-2, 2-3 and 3-1, in that order. */
  function Outline(t: Triangle): seq<Point>
  {
    Path(Segment(t.x1, t.y1, t.x2, t.y2)) + Path(Segment(t.x2, t.y2, t.x3, t.y3))
    + Path(Segment(t.x3, t.y3, t.x1, t.y1))
  }

  /** The points of row `y` with `0 <= x < n` that pass the fill test, by increasing `x`. */
  function RowPoints(t: Triangle, y: int, n: nat): seq<Point>
  {
    if n == 0 then []
    else RowPoints(t, y, n - 1) + (if Covers(t, n - 1, y) then [Point(n - 1, y)] else [])
  }

  /** The points the fill sets in rows `lo` to `hi - 1`; rows off the canvas are skipped. */
  function ScanPoints(t: Triangle, width: nat, height: nat, lo: int, hi: int): seq<Point>
    decreases hi - lo
  {
    if hi <= lo then []
    else ScanPoints(t, width, height, lo, hi - 1) + (if 0 <= hi - 1 < height then RowPoints(t, hi - 1, width) else [])
  }

  lemma ScanPointsNext(t: Triangle, width: nat, height: nat, lo: int, y: int)
    requires lo <= y
    ensures ScanPoints(t, width, height, lo, y + 1) ==
      if 0 <= y < height then ScanPoints(t, width, height, lo, y) + RowPoints(t, y, width)
      else ScanPoints(t, width, height, lo, y)
  {
    assert ScanPoints(t, width, height, lo, y) + [] == ScanPoints(t, width, height, lo, y);
  }

  /** Every point the fill sets, in the order it sets them. */
  function FillPoints(t: Triangle, width: nat, height: nat): seq<Point>
  {
    ScanPoints(t, width, height, MinY(t), MaxY(t) + 1)
  }

  /** The samples after `draw_filled_triangle`: the outline painted, then the fill. */
  function Drawn(s: seq<Byte>, width: nat, height: nat, t: Triangle, c: Byte): (r: seq<Byte>)
    requires |s| == width * height
    ensures |r| == |s|
  {
    Paint(s, width, height, Outline(t) + FillPoints(t, width, height), c)
  }

  lemma {:induction false} RowPointsMember(t: Triangle, y: int, n: nat, p: Point)
    ensures p in RowPoints(t, y, n) <==> p.y == y && 0 <= p.x < n && Covers(t, p.x, y)
  {
    if n > 0 {
      RowPointsMember(t, y, n - 1, p);
    }
  }

  lemma {:induction false} ScanPointsMember(t: Triangle, width: nat, height: nat, lo: int, hi: int, p: Point)
    ensures p in ScanPoints(t, width, height, lo, hi) <==>
      lo <= p.y < hi && InBounds(width, height, p) && Covers(t, p.x, p.y)
    decreases hi - lo
  {
    if lo < hi {
      ScanPointsMember(t, width, height, lo, hi - 1, p);
      RowPointsMember(t, hi - 1, width, p);
    }
  }

  /**
   * The fill sets exactly the canvas pixels whose row lies between the lowest
   * and the highest vertex and that pass the sign test; no other row is touched.
   */
  lemma FillPointsMember(t: Triangle, width: nat, height: nat, p: Point)
    ensures p in FillPoints(t, width, height) <==>
      InBounds(width, height, p) && MinY(t) <= p.y <= MaxY(t) && Covers(t, p.x, p.y)
  {
    ScanPointsMember(t, width, height, MinY(t), MaxY(t) + 1, p);
  }

  /**
   * After `draw_filled_triangle`, a canvas pixel holds the colour exactly when
   * it lies on one of the three edges or is filled; otherwise it keeps its sample.
   */
  lemma DrawnAt(s: seq<Byte>, width: nat, height: nat, t: Triangle, c: Byte, x: nat, y: nat)
    requires |s| == width * height && x < width && y < height
    ensures Index(width, x, y) < |s|
    ensures Drawn(s, width, height, t, c)[Index(width, x, y)] ==
      if Point(x, y) in Outline(t) || (MinY(t) <= y <= MaxY(t) && Covers(t, x, y)) then c
      else s[Index(width, x, y)]
  {
    var pts := Outline(t) + FillPoints(t, width, height);
    PaintAt(s, width, height, pts, c, x, y);
    FillPointsMember(t, width, height, Point(x, y));
  }

  lemma RowPointsNext(t: Triangle, y: int, x: nat)
    ensures RowPoints(t, y, x + 1) == if Covers(t, x, y) then RowPoints(t, y, x) + [Point(x, y)] else RowPoints(t, y, x)
  {
    assert RowPoints(t, y, x) + [] == RowPoints(t, y, x);
  }

  /** One pixel of the inner loop: the three edge values, the sign test, and `set_pixel` when it passes. */
  method FillPixel(img: Image, t: Triangle, x: nat, y: nat, color: Byte)
    requires img.Valid() && x < img.width && y < img.height
    modifies img.data
    ensures img.data[..] == if Covers(t, x, y) then Plot(old(img.data[..]), img.width, img.height, Point(x, y), color)
                            else old(img.data[..])
  {
    var d1, d2, d3 := D1(t, x, y), D2(t, x, y), D3(t, x, y);
    var hasNeg := d1 < 0 || d2 < 0 || d3 < 0;
    var hasPos := d1 > 0 || d2 > 0 || d3 > 0;
    if !(hasNeg && hasPos) {
      img.SetPixel(x, y, color);
    }
  }

  /** The inner loop of the fill: tests every pixel of row `y` and sets those that pass. */
  method FillRow(img: Image, x1: int, y1: int, x2: int, y2: int, x3: int, y3: int, y: int, color: Byte)
    requires img.Valid() && 0 <= y < img.height
    modifies img.data
    ensures img.data[..] == Paint(old(img.data[..]), img.width, img.height,
                                  RowPoints(Triangle(x1, y1, x2, y2, x3, y3), y, img.width), color)
  {
    var t := Triangle(x1, y1, x2, y2, x3, y3);
    ghost var s := img.data[..];
    for x := 0 to img.Width()
      invariant img.data[..] == Paint(s, img.width, img.height, RowPoints(t, y, x), color)
    {
      RowPointsNext(t, y, x);
      PaintSnoc(s, img.width, img.height, RowPoints(t, y, x), Point(x, y), color);
      FillPixel(img, t, x, y, color);
    }
  }

  /** The outer loop of the fill: rows `minY` to `maxY`, skipping those off the canvas. */
  method ScanRows(img: Image, x1: int, y1: int, x2: int, y2: int, x3: int, y3: int, minY: int, maxY: int, color: Byte)
    requires img.Valid()
    modifies img.data
    ensures img.data[..] == Paint(old(img.data[..]), img.width, img.height,
                                  ScanPoints(Triangle(x1, y1, x2, y2, x3, y3), img.width, img.height, minY, maxY + 1), color)
  {
    ghost var t := Triangle(x1, y1, x2, y2, x3, y3);
    ghost var s1 := img.data[..];
    if maxY < minY {
      return;
    }
    for y := minY to maxY + 1
      invariant img.data[..] == Paint(s1, img.width, img.height, ScanPoints(t, img.width, img.height, minY, y), color)
    {
      ScanPointsNext(t, img.width, img.height, minY, y);
      if y < 0 || y >= img.Height() {
        continue;
      }
      ghost var before := ScanPoints(t, img.width, img.height, minY, y);
      FillRow(img, x1, y1, x2, y2, x3, y3, y, color);
      PaintAppend(s1, img.width, img.height, before, RowPoints(t, y, img.width), color);
      assert ScanPoints(t, img.width, img.height, minY, y + 1) == before + RowPoints(t, y, img.width);
      assert img.data[..] == Paint(Paint(s1, img.width, img.height, before, color), img.width, img.height, RowPoints(t, y, img.width), color);
      assert img.data[..] == Paint(s1, img.width, img.height, before + RowPoints(t, y, img.width), color);
    }
  }

  /** `draw_filled_triangle`: the outline, then the scan of rows `min_y` to `max_y`. */
  method DrawFilledTriangle(img: Image, x1: int, y1: int, x2: int, y2: int, x3: int, y3: int, color: Byte)
    requires img.Valid()
    modifies img.data
    ensures img.data[..] == Drawn(old(img.data[..]), img.width, img.height, Triangle(x1, y1, x2, y2, x3, y3), color)
  {
    ghost var t := Triangle(x1, y1, x2, y2, x3, y3);
    ghost var s0 := img.data[..];
    ghost var e1, e2, e3 := Path(Segment(x1, y1, x2, y2)), Path(Segment(x2, y2, x3, y3)), Path(Segment(x3, y3, x1, y1));
    DrawLine(img, x1, y1, x2, y2, color);
    DrawLine(img, x2, y2, x3, y3, color);
    DrawLine(img, x3, y3, x1, y1, color);
    ghost var s1 := img.data[..];
    assert s1 == Paint(s0, img.width, img.height, Outline(t), color) by {
      PaintAppend(s0, img.width, img.height, e1, e2, color);
      PaintAppend(s0, img.width, img.height, e1 + e2, e3, color);
    }

    var minY := y1;
    var maxY := y1;
    if y2 < minY {
      minY := y2;
    }
    if y3 < minY {
      minY := y3;
    }
    if y2 > maxY {
      maxY := y2;
    }
    if y3 > maxY {
      maxY := y3;
    }
    assert minY == MinY(t) && maxY == MaxY(t);

    ScanRows(img, x1, y1, x2, y2, x3, y3, minY, maxY, color);
    PaintAppend(s0, img.width, img.height, Outline(t), FillPoints(t, img.width, img.height), color);
  }
}
