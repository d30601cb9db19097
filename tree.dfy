/**
 * `tree_fractal` of fractal.c: a branch of the given length drawn with
 * `draw_line` from (x, y) in the direction `angle` (degrees from the
 * vertical), then two sub-trees from its tip, turned by -25 and +25 degrees
 * and shortened to 0.7 of the length, one level shallower.
 *
 * The C doubles are modelled as exact reals, and `sin`/`cos` are parameters
 * of the model; the constant 3.14 and the casts are as in the code.
 */
module Tree {
  import opened Arith
  import opened Raster
  import opened Canvas
  import opened Line

  /** `(pixel_data)(255 - depth * 20)`: the conversion to `uint8_t` keeps the value modulo 256. */
  function BranchColor(depth: int): (c: Byte)
    ensures (c - (255 - depth * 20)) % 256 == 0
    ensures 0 <= depth <= 12 ==> c == 255 - depth * 20
  {
    var v := 255 - depth * 20;
    ResidueDiffers(v, 256);
    v % 256
  }

  /** `v` and its remainder modulo `m` differ by a multiple of `m`. */
  lemma ResidueDiffers(v: int, m: nat)
    requires m > 0
    ensures (v % m - v) % m == 0
  {
    var q := v / m;
    assert v % m - v == (-q) * m;
    MultipleMod(-q, m);
  }

  lemma MultipleMod(k: int, m: nat)
    requires m > 0
    ensures (k * m) % m == 0
  {
    var q, r := (k * m) / m, (k * m) % m;
    assert k * m == q * m + r && 0 <= r < m;
    var d := k - q;
    assert d * m == r;
    if d >= 1 {
      assert d * m == m + (d - 1) * m;
    }
  }

  /** Conversion of a double to `int`. */
  function Trunc(r: real): int
  {
    if r >= 0.0 then r.Floor else -((-r).Floor)
  }

  /** `Trunc` rounds toward zero: it drops the fraction and keeps the sign. */
  lemma TruncTowardZero(r: real)
    ensures r >= 0.0 ==> 0 <= Trunc(r) && Trunc(r) as real <= r < Trunc(r) as real + 1.0
    ensures r < 0.0 ==> Trunc(r) <= 0 && Trunc(r) as real - 1.0 < r <= Trunc(r) as real
  {
  }

  /** One `draw_line` call of the recursion: the segment and its colour. */
  datatype Branch = Branch(line: Segment, color: Byte)

  /** Where a branch from (x, y) with the given angle and length ends. */
  type TipMap = (int, int, real, real) -> (int, int)

  /**
   * The tip `tree_fractal` computes: the angle converted to radians with 3.14
   * for pi, then `x + (int)(length * sin(a))` and `y - (int)(length * cos(a))`.
   */
  function BranchTip(sin: real -> real, cos: real -> real, x: int, y: int, angle: real, length: real): (int, int)
  {
    var angleRad := angle * 3.14 / 180.0;
    (x + Trunc(length * sin(angleRad)), y - Trunc(length * cos(angleRad)))
  }

  /** `BranchTip` for the given `sin` and `cos`, as a `TipMap`. */
  function CTip(sin: real -> real, cos: real -> real): TipMap
  {
    (x: int, y: int, angle: real, length: real) => BranchTip(sin, cos, x, y, angle, length)
  }

  /** Every branch the recursion draws, in drawing order (pre-order: a branch, then its left and right sub-trees). */
  function Branches(x: int, y: int, angle: real, length: real, depth: nat, tip: TipMap): seq<Branch>
    decreases depth
  {
    if depth == 0 || length < 2.0 then []
    else
      var (x2, y2) := tip(x, y, angle, length);
      [Branch(Segment(x, y, x2, y2), BranchColor(depth))]
      + Branches(x2, y2, angle - 25.0, length * 0.7, depth - 1, tip)
      + Branches(x2, y2, angle + 25.0, length * 0.7, depth - 1, tip)
  }

  /** A tree of depth `depth` has at most `2^depth - 1` branches. */
  lemma {:induction false} BranchCount(x: int, y: int, angle: real, length: real, depth: nat,
                                       tip: TipMap)
    ensures |Branches(x, y, angle, length, depth, tip)| <= Pow(2, depth) - 1
    decreases depth
  {
    PowPositive(2, depth);
    if depth > 0 && length >= 2.0 {
      var (x2, y2) := tip(x, y, angle, length);
      BranchCount(x2, y2, angle - 25.0, length * 0.7, depth - 1, tip);
      BranchCount(x2, y2, angle + 25.0, length * 0.7, depth - 1, tip);
    }
  }

  /** The length of the branches `k` levels down: `length * 0.7^k`. */
  function Shrink(length: real, k: nat): real
    decreases k
  {
    if k == 0 then length else Shrink(length * 0.7, k - 1)
  }

  /** A branch shorter than 2 only gets shorter further down (or stays negative). */
  lemma {:induction false} ShortStaysShort(length: real, k: nat)
    requires length < 2.0
    ensures Shrink(length, k) < 2.0
    decreases k
  {
    if k > 0 {
      ShortStaysShort(length * 0.7, k - 1);
    }
  }

  /** When even the deepest branches are at least 2 long, the tree is full: `2^depth - 1` branches. */
  lemma {:induction false} FullTree(x: int, y: int, angle: real, length: real, depth: nat,
                                    tip: TipMap)
    requires depth > 0 && Shrink(length, depth - 1) >= 2.0
    ensures |Branches(x, y, angle, length, depth, tip)| == Pow(2, depth) - 1
    decreases depth
  {
    if length < 2.0 {
      ShortStaysShort(length, depth - 1);
    }
    if depth > 1 {
      assert Shrink(length * 0.7, depth - 2) >= 2.0;
      var (x2, y2) := tip(x, y, angle, length);
      FullTree(x2, y2, angle - 25.0, length * 0.7, depth - 1, tip);
      FullTree(x2, y2, angle + 25.0, length * 0.7, depth - 1, tip);
    }
  }

  /** Every branch is coloured by the depth it is drawn at, which lies between 1 and `depth`. */
  lemma {:induction false} BranchColors(x: int, y: int, angle: real, length: real, depth: nat,
                                        tip: TipMap)
    ensures var bs := Branches(x, y, angle, length, depth, tip);
      && (|bs| > 0 ==> bs[0].color == BranchColor(depth))
      && forall i :: 0 <= i < |bs| ==> exists k :: 1 <= k <= depth && bs[i].color == BranchColor(k)
    decreases depth
  {
    var bs := Branches(x, y, angle, length, depth, tip);
    if depth > 0 && length >= 2.0 {
      var (x2, y2) := tip(x, y, angle, length);
      var l := Branches(x2, y2, angle - 25.0, length * 0.7, depth - 1, tip);
      var r := Branches(x2, y2, angle + 25.0, length * 0.7, depth - 1, tip);
      BranchColors(x2, y2, angle - 25.0, length * 0.7, depth - 1, tip);
      BranchColors(x2, y2, angle + 25.0, length * 0.7, depth - 1, tip);
      assert forall i :: 0 <= i < |l| ==> exists k :: 1 <= k <= depth - 1 && l[i].color == BranchColor(k);
      assert forall i :: 0 <= i < |r| ==> exists k :: 1 <= k <= depth - 1 && r[i].color == BranchColor(k);
      assert bs == [bs[0]] + l + r;
      forall i | 0 <= i < |bs|
        ensures exists k :: 1 <= k <= depth && bs[i].color == BranchColor(k)
      {
        if i == 0 {
          assert bs[i].color == BranchColor(depth);
        } else if i < 1 + |l| {
          assert bs[i] == l[i - 1];
        } else {
          assert bs[i] == r[i - 1 - |l|];
        }
      }
    }
  }

  /** The samples after drawing the branches of `bs` one after the other. */
  function DrawBranches(s: seq<Byte>, width: nat, height: nat, bs: seq<Branch>): (r: seq<Byte>)
    requires |s| == width * height
    ensures |r| == |s|
  {
    if bs == [] then s
    else
      var b := bs[|bs| - 1];
      Paint(DrawBranches(s, width, height, bs[..|bs| - 1]), width, height, Path(b.line), b.color)
  }

  /** Drawing `a` and then `b` is drawing `a + b`. */
  lemma {:induction false} DrawBranchesAppend(s: seq<Byte>, width: nat, height: nat, a: seq<Branch>, b: seq<Branch>)
    requires |s| == width * height
    ensures DrawBranches(s, width, height, a + b) == DrawBranches(DrawBranches(s, width, height, a), width, height, b)
    decreases |b|
  {
    if b == [] {
      assert a + b == a;
    } else {
      var b' := b[..|b| - 1];
      assert (a + b)[..|a + b| - 1] == a + b';
      assert (a + b)[|a + b| - 1] == b[|b| - 1];
      DrawBranchesAppend(s, width, height, a, b');
    }
  }

  /** One branch, then its two sub-trees, drawn in three steps, is the whole tree drawn in order. */
  lemma DrawBranchesThree(s0: seq<Byte>, s1: seq<Byte>, s2: seq<Byte>, s3: seq<Byte>, width: nat, height: nat,
                          first: Branch, l: seq<Branch>, r: seq<Branch>)
    requires |s0| == width * height
    requires s1 == Paint(s0, width, height, Path(first.line), first.color)
    requires s2 == DrawBranches(s1, width, height, l)
    requires s3 == DrawBranches(s2, width, height, r)
    ensures s3 == DrawBranches(s0, width, height, [first] + l + r)
  {
    assert [first][..0] == [];
    assert DrawBranches(s0, width, height, [first]) == s1;
    DrawBranchesAppend(s0, width, height, [first], l);
    DrawBranchesAppend(s0, width, height, [first] + l, r);
  }

  /** Above depth 0 and from length 2 on, the tree is its first branch followed by the two sub-trees. */
  lemma BranchesUnfold(x: int, y: int, angle: real, length: real, depth: nat, tip: TipMap, x2: int, y2: int)
    requires depth > 0 && length >= 2.0 && tip(x, y, angle, length) == (x2, y2)
    ensures Branches(x, y, angle, length, depth, tip)
            == [Branch(Segment(x, y, x2, y2), BranchColor(depth))]
               + Branches(x2, y2, angle - 25.0, length * 0.7, depth - 1, tip)
               + Branches(x2, y2, angle + 25.0, length * 0.7, depth - 1, tip)
  {
  }

  /** The first `draw_line` of `tree_fractal`: the branch to the tip, in the colour of its depth. */
  method DrawBranch(img: Image, x: int, y: int, angle: real, length: real, depth: nat,
                    sin: real -> real, cos: real -> real) returns (x2: int, y2: int)
    requires img.Valid()
    modifies img.data
    ensures CTip(sin, cos)(x, y, angle, length) == (x2, y2)
    ensures img.data[..] == Paint(old(img.data[..]), img.width, img.height, Path(Segment(x, y, x2, y2)), BranchColor(depth))
  {
    var tip := BranchTip(sin, cos, x, y, angle, length);
    x2, y2 := tip.0, tip.1;
    DrawLine(img, x, y, x2, y2, BranchColor(depth));
  }

  /**
   * `tree_fractal`: draws the branches in order. At depth 0 or for a length
   * below 2 nothing is drawn and the raster is unchanged.
   */
  method TreeFractal(img: Image, x: int, y: int, angle: real, length: real, depth: nat,
                     sin: real -> real, cos: real -> real)
    requires img.Valid()
    modifies img.data
    ensures img.data[..] == DrawBranches(old(img.data[..]), img.width, img.height,
                                         Branches(x, y, angle, length, depth, CTip(sin, cos)))
    ensures depth == 0 || length < 2.0 ==> img.data[..] == old(img.data[..])
    decreases depth, 1
  {
    if depth == 0 || length < 2.0 {
      return;
    }
    Grow(img, x, y, angle, length, depth, sin, cos);
  }

  /** Past the guard: the branch, then the left and the right sub-tree one level shallower. */
  method Grow(img: Image, x: int, y: int, angle: real, length: real, depth: nat,
              sin: real -> real, cos: real -> real)
    requires img.Valid() && depth > 0 && length >= 2.0
    modifies img.data
    ensures img.data[..] == DrawBranches(old(img.data[..]), img.width, img.height,
                                         Branches(x, y, angle, length, depth, CTip(sin, cos)))
    decreases depth, 0
  {
    ghost var s0 := img.data[..];
    var x2, y2 := DrawBranch(img, x, y, angle, length, depth, sin, cos);
    ghost var s1 := img.data[..];
    var leftAngle, rightAngle, shorter := angle - 25.0, angle + 25.0, length * 0.7;
    TreeFractal(img, x2, y2, leftAngle, shorter, depth - 1, sin, cos);
    ghost var s2 := img.data[..];
    TreeFractal(img, x2, y2, rightAngle, shorter, depth - 1, sin, cos);
    ghost var tip := CTip(sin, cos);
    BranchesUnfold(x, y, angle, length, depth, tip, x2, y2);
    DrawBranchesThree(s0, s1, s2, img.data[..], img.width, img.height, Branch(Segment(x, y, x2, y2), BranchColor(depth)),
                      Branches(x2, y2, leftAngle, shorter, depth - 1, tip),
                      Branches(x2, y2, rightAngle, shorter, depth - 1, tip));
  }
}
