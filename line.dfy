/**
 * `draw_line` of fractal.c: integer Bresenham from (x0, y0) to (x1, y1),
 * painting every visited point that lies on the canvas.
 *
 * The walk is described by a cursor (x, y, err). Writing i and j for the
 * number of steps taken along x and along y, every cursor the loop reaches
 * satisfies 0 <= i <= dx, 0 <= j <= dy and err == dx*(1+j) - dy*(1+i)
 * (`OnTrack`, with the products written as `Area`); from this the walk stays in the bounding box of the segment,
 * makes progress every step and stops exactly at (x1, y1).
 */
module Line {
  import opened Arith
  import opened Raster
  import opened Canvas

  datatype Segment = Segment(x0: int, y0: int, x1: int, y1: int)
  {
    /** `dx = abs(x1 - x0)` */
    function Dx(): nat { Abs(x1 - x0) }
    /** `dy = abs(y1 - y0)` */
    function Dy(): nat { Abs(y1 - y0) }
    /** `sx = (x0 < x1) ? 1 : -1` */
    function Sx(): int { if x0 < x1 then 1 else -1 }
    /** `sy = (y0 < y1) ? 1 : -1` */
    function Sy(): int { if y0 < y1 then 1 else -1 }
  }

  /** The loop variables of `draw_line`: the current point and the error term. */
  datatype Cursor = Cursor(x: int, y: int, err: int)

  /** The loop state before the first iteration: `err = dx - dy`. */
  function Start(l: Segment): Cursor
  {
    Cursor(l.x0, l.y0, l.Dx() - l.Dy())
  }

  /** Steps taken along x and along y, that is `sx * (x - x0)` and `sy * (y - y0)`. */
  function StepsX(l: Segment, c: Cursor): int { if l.x0 < l.x1 then c.x - l.x0 else l.x0 - c.x }
  function StepsY(l: Segment, c: Cursor): int { if l.y0 < l.y1 then c.y - l.y0 else l.y0 - c.y }

  /** The invariant of the Bresenham loop. */
  predicate OnTrack(l: Segment, c: Cursor)
  {
    && 0 <= StepsX(l, c) <= l.Dx()
    && 0 <= StepsY(l, c) <= l.Dy()
    && c.err == Area(l.Dx(), 1 + StepsY(l, c)) - Area(l.Dy(), 1 + StepsX(l, c))
  }

  predicate AtEnd(l: Segment, c: Cursor)
  {
    c.x == l.x1 && c.y == l.y1
  }

  /** The steps still to go; each iteration that does not stop decreases it. */
  function Remaining(l: Segment, c: Cursor): int
  {
    (l.Dx() - StepsX(l, c)) + (l.Dy() - StepsY(l, c))
  }

  /** One iteration after the end test: `e2 = 2*err`, then the two conditional moves. */
  function Step(l: Segment, c: Cursor): Cursor
  {
    var e2 := 2 * c.err;
    var movesX := e2 > -(l.Dy() as int);
    var movesY := e2 < l.Dx();
    Cursor(if movesX then c.x + l.Sx() else c.x,
           if movesY then c.y + l.Sy() else c.y,
           c.err - (if movesX then l.Dy() else 0) + (if movesY then l.Dx() else 0))
  }

  lemma StartOnTrack(l: Segment)
    ensures OnTrack(l, Start(l))
  {
  }

  /** On the track, `AtEnd` holds exactly when both step counts are used up. */
  lemma AtEndIff(l: Segment, c: Cursor)
    requires OnTrack(l, c)
    ensures AtEnd(l, c) <==> StepsX(l, c) == l.Dx() && StepsY(l, c) == l.Dy()
  {
  }

  /** The error term after the moves: one step along x subtracts dy, one step along y adds dx. */
  lemma ErrAfterMoves(dx: nat, dy: nat, i: nat, j: nat, err: int, movesX: bool, movesY: bool)
    requires err == Area(dx, 1 + j) - Area(dy, 1 + i)
    ensures var i', j' := if movesX then i + 1 else i, if movesY then j + 1 else j;
      err - (if movesX then dy else 0) + (if movesY then dx else 0) == Area(dx, 1 + j') - Area(dy, 1 + i')
  {
  }

  /** With all dx steps along x taken but not all along y, the x move is not taken: `e2 <= -dy`. */
  lemma NoMoveXAtEnd(dx: nat, dy: nat, j: nat, err: int)
    requires j < dy && err == Area(dx, 1 + j) - Area(dy, 1 + dx)
    ensures 2 * err + dy <= 0
  {
    AreaMono(dx, 1 + j, dy);
    AreaIsProduct(dx, dy);
    AreaIsProduct(dy, 1 + dx);
    assert dy * (1 + dx) == dy + dx * dy;
  }

  /** With all dy steps along y taken but not all along x, the y move is not taken: `e2 >= dx`. */
  lemma NoMoveYAtEnd(dx: nat, dy: nat, i: nat, err: int)
    requires i < dx && err == Area(dx, 1 + dy) - Area(dy, 1 + i)
    ensures 2 * err >= dx
  {
    AreaMono(dy, 1 + i, dx);
    AreaIsProduct(dy, dx);
    AreaIsProduct(dx, 1 + dy);
    assert dx * (1 + dy) == dx + dx * dy;
  }

  /**
   * A step from a cursor on the track that is not at the end stays on the
   * track, moves x by 0 or `sx` and y by 0 or `sy`, moves at least one of
   * them, and decreases `Remaining`.
   */
  lemma StepProgress(l: Segment, c: Cursor)
    requires OnTrack(l, c) && !AtEnd(l, c)
    ensures OnTrack(l, Step(l, c))
    ensures Step(l, c).x - c.x in {0, l.Sx()} && Step(l, c).y - c.y in {0, l.Sy()}
    ensures (Step(l, c).x, Step(l, c).y) != (c.x, c.y)
    ensures 0 <= Remaining(l, Step(l, c)) < Remaining(l, c)
  {
    var dx, dy, i, j := l.Dx(), l.Dy(), StepsX(l, c), StepsY(l, c);
    var e2 := 2 * c.err;
    if i == dx {
      NoMoveXAtEnd(dx, dy, j, c.err);
    }
    if j == dy {
      NoMoveYAtEnd(dx, dy, i, c.err);
    }
    var movesX, movesY := e2 > -(dy as int), e2 < dx;
    ErrAfterMoves(dx, dy, i, j, c.err, movesX, movesY);
    var c' := Step(l, c);
    assert StepsX(l, c') == (if movesX then i + 1 else i) && StepsY(l, c') == (if movesY then j + 1 else j);
  }

  /** The points visited from cursor `c` on, including `c` itself and the end point. */
  function Walk(l: Segment, c: Cursor): (pts: seq<Point>)
    requires OnTrack(l, c)
    ensures |pts| >= 1 && pts[0] == Point(c.x, c.y)
    decreases Remaining(l, c)
  {
    if AtEnd(l, c) then [Point(c.x, c.y)]
    else
      StepProgress(l, c);
      [Point(c.x, c.y)] + Walk(l, Step(l, c))
  }

  /** Every point `draw_line` visits, in order. */
  function Path(l: Segment): seq<Point>
  {
    StartOnTrack(l);
    Walk(l, Start(l))
  }

  /** The walk ends at (x1, y1) and passes it nowhere before the end. */
  lemma {:induction false} WalkEnds(l: Segment, c: Cursor)
    requires OnTrack(l, c)
    ensures var w := Walk(l, c);
      && w[|w| - 1] == Point(l.x1, l.y1)
      && forall k :: 0 <= k < |w| - 1 ==> w[k] != Point(l.x1, l.y1)
    decreases Remaining(l, c)
  {
    if !AtEnd(l, c) {
      StepProgress(l, c);
      WalkEnds(l, Step(l, c));
      var w := Walk(l, c);
      assert w[1..] == Walk(l, Step(l, c));
    }
  }

  /** One Bresenham move from `p` to `q`: x changes by 0 or `sx`, y by 0 or `sy`, and not both by 0. */
  predicate Adjacent(l: Segment, p: Point, q: Point)
  {
    && q.x - p.x in {0, l.Sx()}
    && q.y - p.y in {0, l.Sy()}
    && q != p
  }

  /** Consecutive points of the walk are `Adjacent`. */
  lemma {:induction false} WalkSteps(l: Segment, c: Cursor)
    requires OnTrack(l, c)
    ensures var w := Walk(l, c);
      forall k :: 0 <= k < |w| - 1 ==> Adjacent(l, w[k], w[k + 1])
    decreases Remaining(l, c)
  {
    if !AtEnd(l, c) {
      StepProgress(l, c);
      var c' := Step(l, c);
      WalkSteps(l, c');
      var w, w' := Walk(l, c), Walk(l, c');
      assert var v := Walk(l, c'); forall k :: 0 <= k < |v| - 1 ==> Adjacent(l, v[k], v[k + 1]);
      assert w == [Point(c.x, c.y)] + w';
      assert Adjacent(l, w[0], w[1]);
      forall k | 1 <= k < |w| - 1
        ensures Adjacent(l, w[k], w[k + 1])
      {
        var j := k - 1;
        assert w[k] == w'[j] && w[k + 1] == w'[j + 1];
        assert Adjacent(l, w'[j], w'[j + 1]);
      }
    }
  }

  /** Every visited point lies within `i`, `j` in [0, dx] x [0, dy] steps of (x0, y0). */
  predicate InBox(l: Segment, p: Point)
  {
    && 0 <= StepsX(l, Cursor(p.x, p.y, 0)) <= l.Dx()
    && 0 <= StepsY(l, Cursor(p.x, p.y, 0)) <= l.Dy()
  }

  lemma {:induction false} WalkInBox(l: Segment, c: Cursor)
    requires OnTrack(l, c)
    ensures var w := Walk(l, c);
      forall k :: 0 <= k < |w| ==> InBox(l, w[k])
    decreases Remaining(l, c)
  {
    if !AtEnd(l, c) {
      StepProgress(l, c);
      WalkInBox(l, Step(l, c));
      var w := Walk(l, c);
      assert w[1..] == Walk(l, Step(l, c));
      forall k | 0 <= k < |w|
        ensures InBox(l, w[k])
      {
        if k > 0 {
          assert w[k] == w[1..][k - 1];
        }
      }
    }
  }

  /** The whole path: it starts at (x0, y0), ends at (x1, y1) and reaches (x1, y1) only at its end. */
  lemma PathEnds(l: Segment)
    ensures var p := Path(l);
      && p[0] == Point(l.x0, l.y0)
      && p[|p| - 1] == Point(l.x1, l.y1)
      && forall k :: 0 <= k < |p| - 1 ==> p[k] != Point(l.x1, l.y1)
  {
    StartOnTrack(l);
    WalkEnds(l, Start(l));
  }

  /** The points of the path stay in the bounding box spanned by the two end points. */
  lemma PathInBox(l: Segment)
    ensures var p := Path(l);
      forall k :: 0 <= k < |p| ==>
        && (if l.x0 <= l.x1 then l.x0 <= p[k].x <= l.x1 else l.x1 <= p[k].x <= l.x0)
        && (if l.y0 <= l.y1 then l.y0 <= p[k].y <= l.y1 else l.y1 <= p[k].y <= l.y0)
  {
    StartOnTrack(l);
    WalkInBox(l, Start(l));
    var p := Path(l);
    assert p == Walk(l, Start(l));
    forall k | 0 <= k < |p|
      ensures (if l.x0 <= l.x1 then l.x0 <= p[k].x <= l.x1 else l.x1 <= p[k].x <= l.x0)
      ensures (if l.y0 <= l.y1 then l.y0 <= p[k].y <= l.y1 else l.y1 <= p[k].y <= l.y0)
    {
      assert InBox(l, p[k]);
    }
  }

  /** Each step of the path moves x by 0 or `sx` and y by 0 or `sy`, and never stays put. */
  lemma PathSteps(l: Segment)
    ensures var p := Path(l);
      forall k :: 0 <= k < |p| - 1 ==> Adjacent(l, p[k], p[k + 1])
  {
    StartOnTrack(l);
    WalkSteps(l, Start(l));
    assert Path(l) == Walk(l, Start(l));
  }

  /** On a horizontal segment the walk visits x0, x0+sx, ..., x1 in turn. */
  lemma {:induction false} HorizontalWalk(l: Segment, c: Cursor)
    requires l.y0 == l.y1 && OnTrack(l, c)
    ensures Walk(l, c) == seq(l.Dx() - StepsX(l, c) + 1, k => Point(c.x + l.Sx() * k, l.y0))
    decreases Remaining(l, c)
  {
    var n := l.Dx() - StepsX(l, c) + 1;
    if !AtEnd(l, c) {
      StepProgress(l, c);
      var c' := Step(l, c);
      assert Step(l, c).x == c.x + l.Sx() by {
        AreaIsProduct(0, 1 + StepsX(l, c));
      }
      HorizontalWalk(l, c');
      var w := Walk(l, c);
      assert w == [Point(c.x, c.y)] + Walk(l, c');
      forall k | 0 <= k < n
        ensures w[k] == Point(c.x + l.Sx() * k, l.y0)
      {
        if k > 0 {
          assert w[k] == Walk(l, c')[k - 1];
        }
      }
    }
  }

  /** On a vertical segment the walk visits y0, y0+sy, ..., y1 in turn. */
  lemma {:induction false} VerticalWalk(l: Segment, c: Cursor)
    requires l.x0 == l.x1 && OnTrack(l, c)
    ensures Walk(l, c) == seq(l.Dy() - StepsY(l, c) + 1, k => Point(l.x0, c.y + l.Sy() * k))
    decreases Remaining(l, c)
  {
    var n := l.Dy() - StepsY(l, c) + 1;
    if !AtEnd(l, c) {
      StepProgress(l, c);
      var c' := Step(l, c);
      assert Step(l, c).y == c.y + l.Sy() && Step(l, c).x == c.x by {
        AreaIsProduct(0, 1 + StepsY(l, c));
      }
      VerticalWalk(l, c');
      var w := Walk(l, c);
      assert w == [Point(c.x, c.y)] + Walk(l, c');
      forall k | 0 <= k < n
        ensures w[k] == Point(l.x0, c.y + l.Sy() * k)
      {
        if k > 0 {
          assert w[k] == Walk(l, c')[k - 1];
        }
      }
    }
  }

  /** A horizontal line visits exactly the points of the closed segment between its end points. */
  lemma HorizontalPath(l: Segment, p: Point)
    requires l.y0 == l.y1
    ensures p in Path(l) <==>
      p.y == l.y0 && (if l.x0 <= l.x1 then l.x0 <= p.x <= l.x1 else l.x1 <= p.x <= l.x0)
  {
    StartOnTrack(l);
    HorizontalWalk(l, Start(l));
    var w := Path(l);
    if p.y == l.y0 && (if l.x0 <= l.x1 then l.x0 <= p.x <= l.x1 else l.x1 <= p.x <= l.x0) {
      var k := l.Sx() * (p.x - l.x0);
      assert w[k] == p;
    }
  }

  /** A vertical line visits exactly the points of the closed segment between its end points. */
  lemma VerticalPath(l: Segment, p: Point)
    requires l.x0 == l.x1
    ensures p in Path(l) <==>
      p.x == l.x0 && (if l.y0 <= l.y1 then l.y0 <= p.y <= l.y1 else l.y1 <= p.y <= l.y0)
  {
    StartOnTrack(l);
    VerticalWalk(l, Start(l));
    var w := Path(l);
    if p.x == l.x0 && (if l.y0 <= l.y1 then l.y0 <= p.y <= l.y1 else l.y1 <= p.y <= l.y0) {
      var k := l.Sy() * (p.y - l.y0);
      assert w[k] == p;
    }
  }

  /** `draw_line(0, 0, 5, 0)` visits (0, 0), (1, 0), ..., (5, 0) and nothing else. */
  lemma ZeroToFive()
    ensures Path(Segment(0, 0, 5, 0)) == [Point(0, 0), Point(1, 0), Point(2, 0), Point(3, 0), Point(4, 0), Point(5, 0)]
  {
    var l := Segment(0, 0, 5, 0);
    StartOnTrack(l);
    HorizontalWalk(l, Start(l));
    assert l.Dx() == 5 && l.Sx() == 1 && Start(l).x == 0 && StepsX(l, Start(l)) == 0;
    assert Path(l) == seq(6, k => Point(k, 0));
  }

  /**
   * The loop of `draw_line` walks `path` from its `k`-th point: that point is
   * the cursor's, the walk stops there exactly when it is the last, and
   * otherwise the step leads on to the walk from the next point.
   */
  lemma WalkSuffix(l: Segment, c: Cursor, path: seq<Point>, k: nat)
    requires OnTrack(l, c) && k < |path| && Walk(l, c) == path[k..]
    ensures path[k] == Point(c.x, c.y)
    ensures AtEnd(l, c) <==> k + 1 == |path|
    ensures !AtEnd(l, c) ==>
      && OnTrack(l, Step(l, c))
      && Remaining(l, Step(l, c)) < Remaining(l, c)
      && Walk(l, Step(l, c)) == path[k + 1..]
  {
    assert path[k] == path[k..][0];
    if !AtEnd(l, c) {
      StepProgress(l, c);
      assert path[k + 1..] == path[k..][1..];
    }
  }

  /**
   * The second half of the loop body of `draw_line`: `e2 = 2*err`, then the
   * move along x when `e2 > -dy` and the move along y when `e2 < dx`.
   */
  method Advance(ghost l: Segment, dx: int, dy: int, sx: int, sy: int, x: int, y: int, err: int)
    returns (x': int, y': int, err': int)
    requires dx == l.Dx() && dy == l.Dy() && sx == l.Sx() && sy == l.Sy()
    ensures Cursor(x', y', err') == Step(l, Cursor(x, y, err))
  {
    x', y', err' := x, y, err;
    var e2 := 2 * err;
    if e2 > -dy {
      err' := err' - dy;
      x' := x' + sx;
    }
    if e2 < dx {
      err' := err' + dx;
      y' := y' + sy;
    }
  }

  /**
   * `draw_line`: paints, in order, every point of the path that lies on the
   * canvas; samples no path point covers keep their value.
   */
  method DrawLine(img: Image, x0: int, y0: int, x1: int, y1: int, color: Byte)
    requires img.Valid()
    modifies img.data
    ensures img.data[..] == Paint(old(img.data[..]), img.width, img.height, Path(Segment(x0, y0, x1, y1)), color)
  {
    ghost var l := Segment(x0, y0, x1, y1);
    ghost var s0 := img.data[..];
    var dx: int := Abs(x1 - x0);
    var dy: int := Abs(y1 - y0);
    var sx := if x0 < x1 then 1 else -1;
    var sy := if y0 < y1 then 1 else -1;
    var err := dx - dy;
    var x, y := x0, y0;
    assert dx == l.Dx() && dy == l.Dy() && sx == l.Sx() && sy == l.Sy();
    ghost var path := Path(l);
    ghost var k := 0;
    StartOnTrack(l);
    while true
      invariant OnTrack(l, Cursor(x, y, err))
      invariant k < |path| && Walk(l, Cursor(x, y, err)) == path[k..]
      invariant img.data[..] == Paint(s0, img.width, img.height, path[..k], color)
      decreases Remaining(l, Cursor(x, y, err))
    {
      ghost var c := Cursor(x, y, err);
      WalkSuffix(l, c, path, k);
      PlotPixel(img, Point(x, y), color);
      PaintPrefix(s0, img.width, img.height, path, k, color);
      k := k + 1;
      if x == x1 && y == y1 {
        break;
      }
      x, y, err := Advance(l, dx, dy, sx, sy, x, y, err);
    }
    assert path[..k] == path;
  }

  /**
   * The error term is not confined to `[-dy, dx]`: on the segment from (0, 0)
   * to (10, 1) the sixth step reaches (6, 1) with `err == 13 > dx`, while
   * `OnTrack` still holds there.
   */
  lemma ErrorTermExceedsDx()
    ensures var l := Segment(0, 0, 10, 1);
      var c6 := Step(l, Step(l, Step(l, Step(l, Step(l, Step(l, Start(l)))))));
      c6 == Cursor(6, 1, 13) && c6.err > l.Dx() && OnTrack(l, c6)
  {
    var l := Segment(0, 0, 10, 1);
    assert Start(l) == Cursor(0, 0, 9);
    assert Step(l, Start(l)) == Cursor(1, 0, 8);
    assert Step(l, Cursor(1, 0, 8)) == Cursor(2, 0, 7);
    assert Step(l, Cursor(2, 0, 7)) == Cursor(3, 0, 6);
    assert Step(l, Cursor(3, 0, 6)) == Cursor(4, 0, 5);
    assert Step(l, Cursor(4, 0, 5)) == Cursor(5, 0, 4);
    assert Step(l, Cursor(5, 0, 4)) == Cursor(6, 1, 13);
    AreaIsProduct(10, 2);
    AreaIsProduct(1, 7);
  }
}
