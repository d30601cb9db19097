/**
 * `sierpinski_triangle` of fractal.c: a depth-bounded recursion that, at
 * depth 0, draws one filled triangle with `draw_filled_triangle` and colour
 * 255, and otherwise recurses into the top, lower-left and lower-right
 * copies at half the size.
 */
module Sierpinski {
  import opened Arith
  import opened Raster
  import opened Triangles

  /** C's `n / 2` on `int`, which truncates toward zero. */
  function Half(n: int): (r: int)
    ensures n >= 0 ==> 0 <= n - 2 * r <= 1
    ensures n < 0 ==> -1 <= n - 2 * r <= 0
  {
    if n >= 0 then n / 2 else -((-n) / 2)
  }

  /** The leaf triangles the recursion draws, in the order it draws them. */
  function Leaves(x: int, y: int, size: int, depth: nat): seq<Triangle>
    decreases depth
  {
    if depth == 0 then [Triangle(x, y, x - Half(size), y + size, x + Half(size), y + size)]
    else
      var n := Half(size);
      Leaves(x, y, n, depth - 1) + Leaves(x - Half(n), y + n, n, depth - 1) + Leaves(x + Half(n), y + n, n, depth - 1)
  }

  /** The `assert(size > 0)` holds at every call the recursion makes from (`size`, `depth`). */
  predicate SizesPositive(size: int, depth: nat)
    decreases depth
  {
    size > 0 && (depth > 0 ==> SizesPositive(Half(size), depth - 1))
  }

  /** Every nested call keeps a positive size exactly when the first size is at least `2^depth`. */
  lemma {:induction false} SizesPositiveIff(size: int, depth: nat)
    ensures SizesPositive(size, depth) <==> size >= Pow(2, depth)
    decreases depth
  {
    if depth > 0 {
      SizesPositiveIff(Half(size), depth - 1);
    }
  }

  /** The recursion draws exactly `3^depth` leaf triangles. */
  lemma {:induction false} LeafCount(x: int, y: int, size: int, depth: nat)
    ensures |Leaves(x, y, size, depth)| == Pow(3, depth)
    decreases depth
  {
    if depth > 0 {
      var n := Half(size);
      LeafCount(x, y, n, depth - 1);
      LeafCount(x - Half(n), y + n, n, depth - 1);
      LeafCount(x + Half(n), y + n, n, depth - 1);
    }
  }

  /** The size handed down to the leaves: `size` halved `depth` times. */
  function LeafSize(size: int, depth: nat): int
    decreases depth
  {
    if depth == 0 then size else LeafSize(Half(size), depth - 1)
  }

  /** The base case shape: apex (x, y), base corners `s / 2` to either side and `s` below it. */
  predicate Upright(t: Triangle, s: int)
  {
    && t.x2 == t.x1 - Half(s) && t.y2 == t.y1 + s
    && t.x3 == t.x1 + Half(s) && t.y3 == t.y1 + s
  }

  /** Every triangle of `ts` is upright with size `s`. */
  predicate AllUpright(ts: seq<Triangle>, s: int)
  {
    forall i :: 0 <= i < |ts| ==> Upright(ts[i], s)
  }

  lemma AllUprightConcat(a: seq<Triangle>, b: seq<Triangle>, s: int)
    requires AllUpright(a, s) && AllUpright(b, s)
    ensures AllUpright(a + b, s)
  {
    forall i | 0 <= i < |a + b|
      ensures Upright((a + b)[i], s)
    {
      if i >= |a| {
        assert (a + b)[i] == b[i - |a|];
      }
    }
  }

  /** Every leaf is an upright triangle whose size is the original size halved `depth` times. */
  lemma {:induction false} LeavesUpright(x: int, y: int, size: int, depth: nat)
    ensures AllUpright(Leaves(x, y, size, depth), LeafSize(size, depth))
    decreases depth
  {
    if depth > 0 {
      var n := Half(size);
      var left, right, lower := x - Half(n), x + Half(n), y + n;
      var a, b, c := Leaves(x, y, n, depth - 1), Leaves(left, lower, n, depth - 1), Leaves(right, lower, n, depth - 1);
      var s := LeafSize(size, depth);
      assert Leaves(x, y, size, depth) == a + b + c;
      assert s == LeafSize(n, depth - 1);
      LeavesUpright(x, y, n, depth - 1);
      LeavesUpright(left, lower, n, depth - 1);
      LeavesUpright(right, lower, n, depth - 1);
      AllUprightConcat(a, b, s);
      AllUprightConcat(a + b, c, s);
    }
  }

  /** Drawing the triangles of `ts` one after the other. */
  function DrawTriangles(s: seq<Byte>, width: nat, height: nat, ts: seq<Triangle>, c: Byte): (r: seq<Byte>)
    requires |s| == width * height
    ensures |r| == |s|
  {
    if ts == [] then s
    else Drawn(DrawTriangles(s, width, height, ts[..|ts| - 1], c), width, height, ts[|ts| - 1], c)
  }

  lemma DrawTrianglesOne(s: seq<Byte>, width: nat, height: nat, t: Triangle, c: Byte)
    requires |s| == width * height
    ensures DrawTriangles(s, width, height, [t], c) == Drawn(s, width, height, t, c)
  {
    assert [t][..0] == [];
  }

  /** Drawing `a` and then `b` is drawing `a + b`. */
  lemma {:induction false} DrawTrianglesAppend(s: seq<Byte>, width: nat, height: nat, a: seq<Triangle>, b: seq<Triangle>, c: Byte)
    requires |s| == width * height
    ensures DrawTriangles(s, width, height, a + b, c) == DrawTriangles(DrawTriangles(s, width, height, a, c), width, height, b, c)
    decreases |b|
  {
    if b == [] {
      assert a + b == a;
    } else {
      var b' := b[..|b| - 1];
      assert (a + b)[..|a + b| - 1] == a + b';
      assert (a + b)[|a + b| - 1] == b[|b| - 1];
      DrawTrianglesAppend(s, width, height, a, b', c);
    }
  }

  /** Drawing `a`, then `b`, then `c` in three steps is drawing `a + b + c`. */
  lemma DrawTrianglesThree(s0: seq<Byte>, s1: seq<Byte>, s2: seq<Byte>, s3: seq<Byte>, width: nat, height: nat,
                           a: seq<Triangle>, b: seq<Triangle>, c: seq<Triangle>, col: Byte)
    requires |s0| == width * height
    requires s1 == DrawTriangles(s0, width, height, a, col)
    requires s2 == DrawTriangles(s1, width, height, b, col)
    requires s3 == DrawTriangles(s2, width, height, c, col)
    ensures s3 == DrawTriangles(s0, width, height, a + b + c, col)
  {
    DrawTrianglesAppend(s0, width, height, a, b, col);
    DrawTrianglesAppend(s0, width, height, a + b, c, col);
  }

  /** The three recursive calls, with the C operands, draw the leaves of the three copies. */
  lemma LeavesSplit(x: int, y: int, size: int, depth: nat, newSize: int, left: int, right: int, lower: int)
    requires depth > 0 && SizesPositive(size, depth)
    requires newSize == size / 2 && left == x - newSize / 2 && right == x + newSize / 2 && lower == y + newSize
    ensures SizesPositive(newSize, depth - 1)
    ensures Leaves(x, y, size, depth) == Leaves(x, y, newSize, depth - 1) + Leaves(left, lower, newSize, depth - 1)
                                         + Leaves(right, lower, newSize, depth - 1)
  {
    assert newSize == Half(size) && newSize > 0;
  }

  /** The base case: one filled triangle with apex (x, y), half a size to either side and a size below. */
  method DrawLeaf(img: Image, x: int, y: int, size: int)
    requires img.Valid() && size > 0
    modifies img.data
    ensures img.data[..] == DrawTriangles(old(img.data[..]), img.width, img.height, Leaves(x, y, size, 0), 255)
  {
    ghost var s0 := img.data[..];
    var x1, y1 := x, y;
    var x2, y2 := x - size / 2, y + size;
    var x3, y3 := x + size / 2, y + size;
    assert Leaves(x, y, size, 0) == [Triangle(x1, y1, x2, y2, x3, y3)];
    DrawFilledTriangle(img, x1, y1, x2, y2, x3, y3, 255);
    DrawTrianglesOne(s0, img.width, img.height, Triangle(x1, y1, x2, y2, x3, y3), 255);
  }

  /**
   * `sierpinski_triangle`: the leaf triangles drawn in order with colour 255.
   * The requirement is the recursion's `assert(size > 0)` at every call and
   * `assert(depth >= 0)`; see `SizesPositiveIff` for its closed form.
   */
  method SierpinskiTriangle(img: Image, x: int, y: int, size: int, depth: nat)
    requires img.Valid() && SizesPositive(size, depth)
    modifies img.data
    ensures img.data[..] == DrawTriangles(old(img.data[..]), img.width, img.height, Leaves(x, y, size, depth), 255)
    decreases depth, 1
  {
    if depth == 0 {
      DrawLeaf(img, x, y, size);
    } else {
      DrawCopies(img, x, y, size, depth);
    }
  }

  /** The recursive case: the top, lower-left and lower-right copies at half the size. */
  method DrawCopies(img: Image, x: int, y: int, size: int, depth: nat)
    requires img.Valid() && depth > 0 && SizesPositive(size, depth)
    modifies img.data
    ensures img.data[..] == DrawTriangles(old(img.data[..]), img.width, img.height, Leaves(x, y, size, depth), 255)
    decreases depth, 0
  {
    ghost var s0 := img.data[..];
    var newSize := size / 2;
    var left, right, lower := x - newSize / 2, x + newSize / 2, y + newSize;
    ghost var a := Leaves(x, y, newSize, depth - 1);
    ghost var b := Leaves(left, lower, newSize, depth - 1);
    ghost var c := Leaves(right, lower, newSize, depth - 1);
    LeavesSplit(x, y, size, depth, newSize, left, right, lower);
    SierpinskiTriangle(img, x, y, newSize, depth - 1);
    ghost var s1 := img.data[..];
    SierpinskiTriangle(img, left, lower, newSize, depth - 1);
    ghost var s2 := img.data[..];
    SierpinskiTriangle(img, right, lower, newSize, depth - 1);
    DrawTrianglesThree(s0, s1, s2, img.data[..], img.width, img.height, a, b, c, 255);
  }
}
