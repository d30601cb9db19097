/**
 * The grayscale raster of image.c: a fixed `width` x `height` buffer of
 * 8-bit samples stored row-major, origin top-left, with bounds-checked
 * pixel access.
 */
module Raster {
  import opened Arith

  /** One sample (`pixel_data`, an unsigned 8-bit value). */
  type Byte = b: int | 0 <= b < 256

  /** Largest width and largest height `create_image` accepts. */
  const MaxDimension: nat := 65536

  /** Number of values of an `unsigned int` (`pixel_coord`) on the target. */
  const PixelCoordRange: nat := 0x1_0000_0000

  /** Position of pixel (x, y) in the row-major sample buffer. */
  function Index(width: nat, x: nat, y: nat): nat
  {
    width * y + x
  }

  lemma IndexInRange(width: nat, height: nat, x: nat, y: nat)
    requires x < width && y < height
    ensures Index(width, x, y) < width * height
  {
    RowBefore(width, y, height, x);
    assert y * width == width * y && height * width == width * height;
  }

  /** Distinct pixels occupy distinct samples. */
  lemma IndexInjective(width: nat, x: nat, y: nat, x': nat, y': nat)
    requires x < width && x' < width
    requires Index(width, x, y) == Index(width, x', y')
    ensures x == x' && y == y'
  {
    if y < y' {
      RowBefore(width, y, y', x);
      assert false;
    } else if y' < y {
      RowBefore(width, y', y, x');
      assert false;
    }
  }

  /**
   * The index `width * y + x` that set_pixel and get_pixel compute in
   * `unsigned int` arithmetic never wraps for the dimensions create_image
   * allows.
   */
  lemma IndexFitsPixelCoord(width: nat, height: nat, x: nat, y: nat)
    requires width <= MaxDimension && height <= MaxDimension
    requires x < width && y < height
    ensures Index(width, x, y) < PixelCoordRange
  {
    IndexInRange(width, height, x, y);
    MulMono(width, height, MaxDimension);
    MulMono(MaxDimension, width, MaxDimension);
    assert width * MaxDimension == MaxDimension * width;
  }

  /**
   * Reading pixel (x', y') of the buffer after storing `c` at pixel (x, y)
   * gives `c` at the same pixel and the old sample everywhere else.
   */
  lemma GetAfterSet(s: seq<Byte>, width: nat, height: nat, x: nat, y: nat, c: Byte, x': nat, y': nat)
    requires |s| == width * height
    requires x < width && y < height && x' < width && y' < height
    ensures Index(width, x, y) < |s| && Index(width, x', y') < |s|
    ensures s[Index(width, x, y) := c][Index(width, x', y')]
            == if x == x' && y == y' then c else s[Index(width, x', y')]
  {
    IndexInRange(width, height, x, y);
    IndexInRange(width, height, x', y');
    if Index(width, x, y) == Index(width, x', y') {
      IndexInjective(width, x, y, x', y');
    }
  }

  /** An image: its dimensions are fixed at creation, its samples change in place. */
  class Image {
    const width: nat
    const height: nat
    const data: array<Byte>

    ghost predicate Valid()
      reads this
    {
      && 0 < width <= MaxDimension
      && 0 < height <= MaxDimension
      && data.Length == width * height
    }

    /** `create_image`: the buffer holds exactly width*height samples, of unspecified value. */
    constructor (width: nat, height: nat)
      requires 0 < width <= MaxDimension && 0 < height <= MaxDimension
      ensures Valid()
      ensures this.width == width && this.height == height
      ensures fresh(data)
    {
      this.width := width;
      this.height := height;
      data := new Byte[width * height];
    }

    /** `get_image_width` */
    function Width(): (w: nat)
      requires Valid()
      reads this
      ensures 0 < w <= MaxDimension && w * height == data.Length
    {
      width
    }

    /** `get_image_height` */
    function Height(): (h: nat)
      requires Valid()
      reads this
      ensures 0 < h <= MaxDimension && width * h == data.Length
    {
      height
    }

    /** `get_pixel`: the sample stored for pixel (x, y). */
    function GetPixel(x: nat, y: nat): (c: Byte)
      requires Valid() && x < width && y < height
      reads this, data
      ensures Index(width, x, y) < data.Length && c == data[Index(width, x, y)]
    {
      IndexInRange(width, height, x, y);
      data[Index(width, x, y)]
    }

    /** `clear_image`: every sample becomes 0. */
    method Clear()
      requires Valid()
      modifies data
      ensures forall i :: 0 <= i < data.Length ==> data[i] == 0
    {
      forall i | 0 <= i < data.Length {
        data[i] := 0;
      }
    }

    /** `set_pixel`: stores `color` at pixel (x, y) and nowhere else. */
    method SetPixel(x: nat, y: nat, color: Byte)
      requires Valid() && x < width && y < height
      modifies data
      ensures Index(width, x, y) < data.Length
      ensures data[..] == old(data[..])[Index(width, x, y) := color]
      ensures GetPixel(x, y) == color
    {
      IndexInRange(width, height, x, y);
      data[Index(width, x, y)] := color;
    }
  }
}
