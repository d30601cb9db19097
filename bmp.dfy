/**
 * `save_bmp` of image.c: the bytes of an 8-bit grayscale Windows bitmap
 * (BITMAPFILEHEADER, BITMAPINFOHEADER, a 256-entry gray palette, then the
 * rows bottom-up, each padded with zeros to a multiple of 4 bytes).
 */
module Bmp {
  import opened Arith
  import opened Raster

  const FileHeaderSize: nat := 14
  const InfoHeaderSize: nat := 40
  const PaletteSize: nat := 1024
  /** The value the program writes into the offset field and the file-size base. */
  const HeaderBase: nat := 54
  /** Values of a `uint32_t`; header arithmetic wraps modulo this. */
  const Uint32Range: nat := 0x1_0000_0000

  /** `(width + 3) & ~3`: clearing the two low bits of `width + 3`. */
  function RowPadded(width: nat): nat
  {
    (width + 3) - (width + 3) % 4
  }

  /** `row_padded - width`: the zero bytes after each row. */
  function PadSize(width: nat): nat
  {
    RowPadded(width) - width
  }

  /** The padded row length is the least multiple of 4 that is at least `width`. */
  lemma RowPaddedIsLeastMultiple(width: nat, m: nat)
    requires m % 4 == 0 && width <= m
    ensures RowPadded(width) % 4 == 0 && width <= RowPadded(width) <= m
    ensures PadSize(width) <= 3
  {
  }

  /** `uint32_t image_size = row_padded * height`, wrapping modulo 2^32. */
  function ImageSize(width: nat, height: nat): nat
  {
    (RowPadded(width) * height) % Uint32Range
  }

  /** `uint32_t file_size = 54 + image_size`, wrapping modulo 2^32. */
  function FileSize(width: nat, height: nat): nat
  {
    (HeaderBase + ImageSize(width, height)) % Uint32Range
  }

  /** The `k` low-order bytes of `n`, least significant first (`(n >> 8*i) & 0xFF`). */
  function LittleEndian(n: nat, k: nat): (b: seq<Byte>)
    ensures |b| == k
  {
    if k == 0 then [] else [n % 256] + LittleEndian(n / 256, k - 1)
  }

  /** The number a little-endian byte string denotes. */
  function ReadLittleEndian(b: seq<Byte>): nat
  {
    if b == [] then 0 else b[0] + 256 * ReadLittleEndian(b[1..])
  }

  lemma {:induction false} ReadLittleEndianOf(n: nat, k: nat)
    requires n < Pow(256, k)
    ensures ReadLittleEndian(LittleEndian(n, k)) == n
  {
    if k > 0 {
      assert n / 256 < Pow(256, k - 1);
      ReadLittleEndianOf(n / 256, k - 1);
    }
  }

  lemma ReadFourBytes(b: seq<Byte>)
    requires |b| == 4
    ensures ReadLittleEndian(b) == b[0] as int + 256 * (b[1] as int) + 65536 * (b[2] as int) + 16777216 * (b[3] as int)
  {
    var b1 := b[1..];
    var b2 := b1[1..];
    var b3 := b2[1..];
    assert b3[1..] == [];
    assert ReadLittleEndian(b3) == b[3] as int;
    assert ReadLittleEndian(b2) == b[2] as int + 256 * (b[3] as int);
    assert ReadLittleEndian(b1) == b[1] as int + 256 * (b[2] as int) + 65536 * (b[3] as int);
  }

  lemma ReadTwoBytes(b: seq<Byte>)
    requires |b| == 2
    ensures ReadLittleEndian(b) == b[0] as int + 256 * (b[1] as int)
  {
    var b1 := b[1..];
    assert b1[1..] == [];
    assert ReadLittleEndian(b1) == b[1] as int;
  }

  function LE32(n: nat): (b: seq<Byte>)
    ensures |b| == 4
  {
    LittleEndian(n, 4)
  }

  /** The 32-bit field at `offset`, read back. */
  function Field32(b: seq<Byte>, offset: nat): nat
    requires offset + 4 <= |b|
  {
    ReadLittleEndian(b[offset..offset + 4])
  }

  /** The 16-bit field at `offset`, read back. */
  function Field16(b: seq<Byte>, offset: nat): nat
    requires offset + 2 <= |b|
  {
    ReadLittleEndian(b[offset..offset + 2])
  }

  /** `bmp_header[14]` */
  function FileHeader(width: nat, height: nat): (b: seq<Byte>)
    ensures |b| == FileHeaderSize
  {
    [66, 77] + LE32(FileSize(width, height)) + [0, 0, 0, 0] + [54, 0, 0, 0]
  }

  /** `dib_header[40]` */
  function InfoHeader(width: nat, height: nat): (b: seq<Byte>)
    ensures |b| == InfoHeaderSize
  {
    [40, 0, 0, 0] + LE32(width) + LE32(height)
    + [1, 0] + [8, 0] + [0, 0, 0, 0]
    + LE32(ImageSize(width, height))
    + [0x13, 0x0B, 0, 0] + [0x13, 0x0B, 0, 0]
    + [0, 0, 0, 0] + [0, 0, 0, 0]
  }

  /** The first `n` palette entries: entry `i` is blue, green, red = `i`, reserved = 0. */
  function Palette(n: nat): (b: seq<Byte>)
    requires n <= 256
    ensures |b| == 4 * n
  {
    seq(4 * n, k requires 0 <= k < 4 * n => if k % 4 == 3 then 0 else k / 4)
  }

  function Zeros(n: nat): (b: seq<Byte>)
    ensures |b| == n && forall i :: 0 <= i < n ==> b[i] == 0
  {
    seq(n, _ => 0)
  }

  /** Row `y` of the row-major samples `s`. */
  function Row(width: nat, s: seq<Byte>, y: nat): seq<Byte>
    requires Area(width, y + 1) <= |s|
  {
    s[Area(width, y)..Area(width, y) + width]
  }

  /** The first `k` padded rows written, bottom row first: rows height-1 down to height-k. */
  function RowsBottomUp(width: nat, height: nat, s: seq<Byte>, k: nat): (b: seq<Byte>)
    requires k <= height && |s| == Area(width, height)
    ensures |b| == Area(RowPadded(width), k)
  {
    if k == 0 then []
    else
      AreaMono(width, height - k + 1, height);
      RowsBottomUp(width, height, s, k - 1) + Row(width, s, height - k) + Zeros(PadSize(width))
  }

  /** The whole byte stream `save_bmp` writes. */
  function Encode(width: nat, height: nat, s: seq<Byte>): seq<Byte>
    requires |s| == width * height
  {
    AreaIsProduct(width, height);
    FileHeader(width, height) + InfoHeader(width, height) + Palette(256)
    + RowsBottomUp(width, height, s, height)
  }

  lemma Uint32IsPow()
    ensures Pow(256, 4) == Uint32Range
  {
    assert Pow(256, 2) == 65536;
  }

  /** Offset of the first pixel byte in the stream as written: both headers and the palette come first. */
  const PixelStart: nat := FileHeaderSize + InfoHeaderSize + PaletteSize

  /**
   * The stream is the two headers, the 1024-byte palette and `height` padded
   * rows; when the 32-bit size arithmetic does not wrap it is 1024 bytes
   * longer than the file size recorded in its header.
   */
  lemma EncodeLength(width: nat, height: nat, s: seq<Byte>)
    requires |s| == width * height
    ensures |Encode(width, height, s)| == PixelStart + RowPadded(width) * height
    ensures HeaderBase + RowPadded(width) * height < Uint32Range
            ==> |Encode(width, height, s)| == FileSize(width, height) + PaletteSize
  {
    var area := Area(RowPadded(width), height);
    assert |Encode(width, height, s)| == PixelStart + area;
    AreaIsProduct(RowPadded(width), height);
    if HeaderBase + area < Uint32Range {
      ModBelow(area, Uint32Range);
      ModBelow(HeaderBase + area, Uint32Range);
    }
  }

  lemma FileHeaderFields(width: nat, height: nat)
    ensures var fh := FileHeader(width, height);
      && fh[0] == 'B' as int && fh[1] == 'M' as int
      && Field32(fh, 2) == FileSize(width, height)
      && Field32(fh, 6) == 0
      && Field32(fh, 10) == HeaderBase
  {
    var fh := FileHeader(width, height);
    Uint32IsPow();
    ReadLittleEndianOf(FileSize(width, height), 4);
    assert fh[2..6] == LE32(FileSize(width, height));
    assert fh[6..10] == [0, 0, 0, 0];
    assert fh[10..14] == [54, 0, 0, 0];
    ReadFourBytes(fh[6..10]);
    ReadFourBytes(fh[10..14]);
  }

  lemma InfoHeaderFields(width: nat, height: nat)
    requires width < Uint32Range && height < Uint32Range
    ensures var ih := InfoHeader(width, height);
      && Field32(ih, 0) == InfoHeaderSize
      && Field32(ih, 4) == width
      && Field32(ih, 8) == height
      && Field16(ih, 12) == 1
      && Field16(ih, 14) == 8
      && Field32(ih, 16) == 0
      && Field32(ih, 20) == ImageSize(width, height)
      && Field32(ih, 24) == 2835 && Field32(ih, 28) == 2835
      && Field32(ih, 32) == 0 && Field32(ih, 36) == 0
  {
    InfoHeaderSizes(width, height);
    InfoHeaderResolution(width, height);
  }

  /** The size, dimension, plane, depth and compression fields of `dib_header`. */
  lemma InfoHeaderSizes(width: nat, height: nat)
    requires width < Uint32Range && height < Uint32Range
    ensures var ih := InfoHeader(width, height);
      && Field32(ih, 0) == InfoHeaderSize
      && Field32(ih, 4) == width
      && Field32(ih, 8) == height
      && Field16(ih, 12) == 1
      && Field16(ih, 14) == 8
      && Field32(ih, 16) == 0
  {
    var ih := InfoHeader(width, height);
    Uint32IsPow();
    ReadLittleEndianOf(width, 4);
    ReadLittleEndianOf(height, 4);
    assert ih[4..8] == LE32(width);
    assert ih[8..12] == LE32(height);
    ReadFourBytes(ih[0..4]);
    ReadTwoBytes(ih[12..14]);
    ReadTwoBytes(ih[14..16]);
    ReadFourBytes(ih[16..20]);
  }

  /** The image size, resolution and colour count fields of `dib_header`. */
  lemma InfoHeaderResolution(width: nat, height: nat)
    ensures var ih := InfoHeader(width, height);
      && Field32(ih, 20) == ImageSize(width, height)
      && Field32(ih, 24) == 2835 && Field32(ih, 28) == 2835
      && Field32(ih, 32) == 0 && Field32(ih, 36) == 0
  {
    var ih := InfoHeader(width, height);
    Uint32IsPow();
    ReadLittleEndianOf(ImageSize(width, height), 4);
    assert ih[20..24] == LE32(ImageSize(width, height));
    ReadFourBytes(ih[24..28]);
    ReadFourBytes(ih[28..32]);
    ReadFourBytes(ih[32..36]);
    ReadFourBytes(ih[36..40]);
  }

  /** A field read inside the window `b[lo..hi]` is the field read from `b` itself. */
  lemma Field32Within(b: seq<Byte>, lo: nat, hi: nat, offset: nat)
    requires lo + offset + 4 <= hi <= |b|
    ensures Field32(b, lo + offset) == Field32(b[lo..hi], offset)
  {
    var w1, w2 := b[lo + offset..lo + offset + 4], b[lo..hi][offset..offset + 4];
    assert w1[0] == w2[0] && w1[1] == w2[1] && w1[2] == w2[2] && w1[3] == w2[3];
    assert w1 == w2;
  }

  lemma Field16Within(b: seq<Byte>, lo: nat, hi: nat, offset: nat)
    requires lo + offset + 2 <= hi <= |b|
    ensures Field16(b, lo + offset) == Field16(b[lo..hi], offset)
  {
    var w1, w2 := b[lo + offset..lo + offset + 2], b[lo..hi][offset..offset + 2];
    assert w1[0] == w2[0] && w1[1] == w2[1];
    assert w1 == w2;
  }

  /** The fields of any stream that starts with the file header save_bmp builds. */
  lemma FileHeaderFieldsOf(b: seq<Byte>, width: nat, height: nat)
    requires |b| >= 14 && b[..14] == FileHeader(width, height)
    ensures b[0] == 'B' as int && b[1] == 'M' as int
    ensures Field32(b, 2) == FileSize(width, height)
    ensures Field32(b, 6) == 0
    ensures Field32(b, 10) == HeaderBase
  {
    FileHeaderFields(width, height);
    assert b[0] == b[..14][0] && b[1] == b[..14][1];
    Field32Within(b, 0, 14, 2);
    Field32Within(b, 0, 14, 6);
    Field32Within(b, 0, 14, 10);
  }

  /** The fields of any stream whose bytes 14..54 are the info header save_bmp builds. */
  lemma InfoHeaderFieldsOf(b: seq<Byte>, width: nat, height: nat)
    requires width < Uint32Range && height < Uint32Range
    requires |b| >= 54 && b[14..54] == InfoHeader(width, height)
    ensures Field32(b, 14) == InfoHeaderSize
    ensures Field32(b, 18) == width
    ensures Field32(b, 22) == height
    ensures Field16(b, 26) == 1
    ensures Field16(b, 28) == 8
    ensures Field32(b, 30) == 0
    ensures Field32(b, 34) == ImageSize(width, height)
    ensures Field32(b, 38) == 2835 && Field32(b, 42) == 2835
    ensures Field32(b, 46) == 0 && Field32(b, 50) == 0
  {
    InfoHeaderFields(width, height);
    Field32Within(b, 14, 54, 0);
    Field32Within(b, 14, 54, 4);
    Field32Within(b, 14, 54, 8);
    Field16Within(b, 14, 54, 12);
    Field16Within(b, 14, 54, 14);
    Field32Within(b, 14, 54, 16);
    Field32Within(b, 14, 54, 20);
    Field32Within(b, 14, 54, 24);
    Field32Within(b, 14, 54, 28);
    Field32Within(b, 14, 54, 32);
    Field32Within(b, 14, 54, 36);
  }

  /** The first two parts of `a + b + c` sit at its front. */
  lemma ConcatParts(a: seq<Byte>, b: seq<Byte>, c: seq<Byte>)
    ensures (a + b + c)[..|a|] == a && (a + b + c)[|a|..|a| + |b|] == b
  {
  }

  /** The stream starts with the file header, then the info header. */
  lemma EncodePrefix(width: nat, height: nat, s: seq<Byte>)
    requires |s| == width * height
    ensures |Encode(width, height, s)| >= PixelStart
    ensures Encode(width, height, s)[..14] == FileHeader(width, height)
    ensures Encode(width, height, s)[14..54] == InfoHeader(width, height)
  {
    var fh, ih := FileHeader(width, height), InfoHeader(width, height);
    AreaIsProduct(width, height);
    var rest := Palette(256) + RowsBottomUp(width, height, s, height);
    assert Encode(width, height, s) == fh + ih + rest;
    ConcatParts(fh, ih, rest);
  }

  /** The file header fields, read back from the stream, hold the values save_bmp puts there. */
  lemma EncodeFileHeaderFields(width: nat, height: nat, s: seq<Byte>)
    requires |s| == width * height
    ensures |Encode(width, height, s)| >= PixelStart
    ensures var b := Encode(width, height, s);
      && b[0] == 'B' as int && b[1] == 'M' as int
      && Field32(b, 2) == FileSize(width, height)
      && Field32(b, 6) == 0
      && Field32(b, 10) == HeaderBase
  {
    EncodePrefix(width, height, s);
    FileHeaderFieldsOf(Encode(width, height, s), width, height);
  }

  /** The info header fields, read back from the stream, hold the values save_bmp puts there. */
  lemma EncodeInfoHeaderFields(width: nat, height: nat, s: seq<Byte>)
    requires |s| == width * height
    requires width < Uint32Range && height < Uint32Range
    ensures |Encode(width, height, s)| >= PixelStart
    ensures var b := Encode(width, height, s);
      && Field32(b, 14) == InfoHeaderSize
      && Field32(b, 18) == width
      && Field32(b, 22) == height
      && Field16(b, 26) == 1
      && Field16(b, 28) == 8
      && Field32(b, 30) == 0
      && Field32(b, 34) == ImageSize(width, height)
      && Field32(b, 38) == 2835 && Field32(b, 42) == 2835
      && Field32(b, 46) == 0 && Field32(b, 50) == 0
  {
    EncodePrefix(width, height, s);
    InfoHeaderFieldsOf(Encode(width, height, s), width, height);
  }

  lemma PaletteEntry(n: nat, i: nat)
    requires i < n <= 256
    ensures Palette(n)[4 * i..4 * i + 4] == [i, i, i, 0]
  {
    var p := Palette(n)[4 * i..4 * i + 4];
    assert p[0] == i && p[1] == i && p[2] == i && p[3] == 0;
  }

  /** Palette entry `i` of the stream is the gray `(i, i, i, 0)`. */
  lemma EncodePalette(width: nat, height: nat, s: seq<Byte>, i: nat)
    requires |s| == width * height && i < 256
    ensures var b := Encode(width, height, s);
      |b| >= PixelStart && b[54 + 4 * i..54 + 4 * i + 4] == [i, i, i, 0]
  {
    var b := Encode(width, height, s);
    EncodeLength(width, height, s);
    assert b[54..PixelStart] == Palette(256);
    PaletteEntry(256, i);
    assert b[54 + 4 * i..54 + 4 * i + 4] == Palette(256)[4 * i..4 * i + 4];
  }

  /** The last of the first `k` stored rows is image row `height - k`, then its padding. */
  lemma RowsBottomUpLast(width: nat, height: nat, s: seq<Byte>, k: nat, x: nat)
    requires 0 < k <= height && |s| == Area(width, height) && x < RowPadded(width)
    ensures Area(RowPadded(width), k - 1) + x < |RowsBottomUp(width, height, s, k)|
    ensures x < width ==> Area(width, height - k) + x < |s|
    ensures RowsBottomUp(width, height, s, k)[Area(RowPadded(width), k - 1) + x]
            == if x < width then s[Area(width, height - k) + x] else 0
  {
    var prev := RowsBottomUp(width, height, s, k - 1);
    AreaMono(width, height - k + 1, height);
    var row := Row(width, s, height - k);
    assert RowsBottomUp(width, height, s, k) == prev + row + Zeros(PadSize(width));
  }

  /** The first `k - 1` stored rows are a prefix of the first `k`. */
  lemma RowsBottomUpPrefix(width: nat, height: nat, s: seq<Byte>, k: nat, i: nat)
    requires 0 < k <= height && |s| == Area(width, height) && i < Area(RowPadded(width), k - 1)
    ensures i < |RowsBottomUp(width, height, s, k)|
    ensures RowsBottomUp(width, height, s, k)[i] == RowsBottomUp(width, height, s, k - 1)[i]
  {
    AreaMono(width, height - k + 1, height);
    assert RowsBottomUp(width, height, s, k)
           == RowsBottomUp(width, height, s, k - 1) + Row(width, s, height - k) + Zeros(PadSize(width));
  }

  /** The `j`-th stored row (counting from the bottom) holds image row `y = height - 1 - j`, then zeros. */
  lemma {:induction false} RowsBottomUpAt(width: nat, height: nat, s: seq<Byte>, k: nat, j: nat, y: nat, x: nat)
    requires k <= height && |s| == Area(width, height)
    requires j < k && y == height - 1 - j && x < RowPadded(width)
    ensures Area(RowPadded(width), j) + x < |RowsBottomUp(width, height, s, k)|
    ensures x < width ==> Area(width, y) + x < |s|
    ensures RowsBottomUp(width, height, s, k)[Area(RowPadded(width), j) + x]
            == if x < width then s[Area(width, y) + x] else 0
  {
    var rp := RowPadded(width);
    if j < k - 1 {
      AreaMono(rp, j + 1, k - 1);
      RowsBottomUpAt(width, height, s, k - 1, j, y, x);
      RowsBottomUpPrefix(width, height, s, k, Area(rp, j) + x);
    } else {
      RowsBottomUpLast(width, height, s, k, x);
    }
  }

  /** Where row `y` starts in the stream as written: `height - 1 - y` padded rows follow the palette. */
  function RowOffset(width: nat, height: nat, y: nat): nat
    requires y < height
  {
    PixelStart + Area(RowPadded(width), height - 1 - y)
  }

  lemma RowOffsetIsProduct(width: nat, height: nat, y: nat)
    requires y < height
    ensures RowOffset(width, height, y) == PixelStart + (height - 1 - y) * RowPadded(width)
  {
    AreaIsProduct(RowPadded(width), height - 1 - y);
  }

  /** Everything before the pixel rows: both headers and the palette. */
  function Prefix(width: nat, height: nat): (b: seq<Byte>)
    ensures |b| == PixelStart
  {
    FileHeader(width, height) + InfoHeader(width, height) + Palette(256)
  }

  /** A stream whose pixel section is the padded rows holds sample (x, y) at its bottom-up position. */
  lemma PixelInStream(b: seq<Byte>, width: nat, height: nat, s: seq<Byte>, x: nat, y: nat)
    requires |s| == Area(width, height) && y < height && x < RowPadded(width)
    requires PixelStart <= |b| && b[PixelStart..] == RowsBottomUp(width, height, s, height)
    ensures RowOffset(width, height, y) + x < |b|
    ensures x < width ==> Area(width, y) + x < |s| && b[RowOffset(width, height, y) + x] == s[Area(width, y) + x]
    ensures width <= x ==> b[RowOffset(width, height, y) + x] == 0
  {
    RowsBottomUpAt(width, height, s, height, height - 1 - y, y, x);
    var i := RowOffset(width, height, y) + x;
    assert b[i] == b[PixelStart..][i - PixelStart];
  }

  /**
   * Pixel (x, y) sits in the stream at `1078 + (height-1-y)*row_padded + x`:
   * rows are stored bottom-up and each row is followed by zero padding.
   */
  lemma EncodePixel(width: nat, height: nat, s: seq<Byte>, x: nat, y: nat)
    requires |s| == width * height && y < height && x < RowPadded(width)
    ensures x < width ==> Index(width, x, y) < |s|
    ensures var b := Encode(width, height, s);
      && RowOffset(width, height, y) + x < |b|
      && b[RowOffset(width, height, y) + x] == if x < width then s[Index(width, x, y)] else 0
  {
    var b := Encode(width, height, s);
    assert |s| == Area(width, height) by {
      AreaIsProduct(width, height);
    }
    assert b == Prefix(width, height) + RowsBottomUp(width, height, s, height);
    assert b[PixelStart..] == RowsBottomUp(width, height, s, height);
    PixelInStream(b, width, height, s, x, y);
    assert Area(width, y) + x == Index(width, x, y) by {
      AreaIsProduct(width, y);
    }
  }

  /** `(n >> 8*i) & 0xFF` for i = 0..3 is the little-endian encoding of `n`. */
  lemma ShiftBytes(n: nat)
    ensures LE32(n) == [n % 0x100, (n / 0x100) % 0x100, (n / 0x1_0000) % 0x100, (n / 0x100_0000) % 0x100]
  {
    assert n / 0x100 / 0x100 == n / 0x1_0000;
    assert n / 0x1_0000 / 0x100 == n / 0x100_0000;
    assert LittleEndian(n / 0x100_0000, 1) == [(n / 0x100_0000) % 0x100];
    assert LittleEndian(n / 0x1_0000, 2) == [(n / 0x1_0000) % 0x100] + LittleEndian(n / 0x100_0000, 1);
    assert LittleEndian(n / 0x100, 3) == [(n / 0x100) % 0x100] + LittleEndian(n / 0x1_0000, 2);
  }

  lemma PaletteSnoc(i: nat)
    requires i < 256
    ensures Palette(i + 1) == Palette(i) + [i, i, i, 0]
  {
    var p, q := Palette(i + 1), Palette(i) + [i, i, i, 0];
    forall k | 0 <= k < 4 * (i + 1)
      ensures p[k] == q[k]
    {
      if k >= 4 * i {
        assert k / 4 == i;
      }
    }
  }

  /** `save_bmp`: -1 when the file cannot be opened, otherwise 0 and the stream `Encode` describes. */
  method SaveBmp(img: Image, canOpen: bool) returns (status: int, bytes: seq<Byte>)
    requires img.Valid()
    ensures img.data.Length == img.width * img.height
    ensures status == (if canOpen then 0 else -1)
    ensures bytes == if canOpen then Encode(img.width, img.height, img.data[..]) else []
  {
    if !canOpen {
      return -1, [];
    }
    bytes := WriteBmp(img);
    status := 0;
  }

  /** The `fwrite` calls of `save_bmp`: both headers, the palette loop, then the rows bottom-up. */
  method WriteBmp(img: Image) returns (bytes: seq<Byte>)
    requires img.Valid()
    ensures img.data.Length == img.width * img.height
    ensures bytes == Encode(img.width, img.height, img.data[..])
  {
    var width, height := img.width, img.height;
    bytes := WriteHeaders(width, height);
    for i := 0 to 256
      invariant bytes == FileHeader(width, height) + InfoHeader(width, height) + Palette(i)
    {
      PaletteSnoc(i);
      bytes := bytes + [i, i, i, 0];
    }
    var rows := WriteRows(img);
    bytes := bytes + rows;
    assert |img.data[..]| == Area(width, height) by {
      AreaIsProduct(width, height);
    }
  }

  /** `bmp_header` and `dib_header`, byte by byte as `save_bmp` fills them in. */
  method WriteHeaders(width: nat, height: nat) returns (bytes: seq<Byte>)
    ensures bytes == FileHeader(width, height) + InfoHeader(width, height)
  {
    var rowPadded := (width + 3) - (width + 3) % 4;
    var imageSize := (rowPadded * height) % Uint32Range;
    var fileSize := (54 + imageSize) % Uint32Range;
    ShiftBytes(fileSize);
    ShiftBytes(width);
    ShiftBytes(height);
    ShiftBytes(imageSize);
    var bmpHeader: seq<Byte> := ['B' as int, 'M' as int]
      + [fileSize % 0x100, (fileSize / 0x100) % 0x100, (fileSize / 0x1_0000) % 0x100, (fileSize / 0x100_0000) % 0x100]
      + [0, 0, 0, 0]
      + [54, 0, 0, 0];
    var dibHeader: seq<Byte> := [40, 0, 0, 0]
      + [width % 0x100, (width / 0x100) % 0x100, (width / 0x1_0000) % 0x100, (width / 0x100_0000) % 0x100]
      + [height % 0x100, (height / 0x100) % 0x100, (height / 0x1_0000) % 0x100, (height / 0x100_0000) % 0x100]
      + [1, 0] + [8, 0] + [0, 0, 0, 0]
      + [imageSize % 0x100, (imageSize / 0x100) % 0x100, (imageSize / 0x1_0000) % 0x100, (imageSize / 0x100_0000) % 0x100]
      + [0x13, 0x0B, 0, 0] + [0x13, 0x0B, 0, 0]
      + [0, 0, 0, 0] + [0, 0, 0, 0];
    bytes := bmpHeader + dibHeader;
  }

  /** Writing row `y` extends the rows already written (those below it) by one padded row. */
  lemma RowsBottomUpNext(width: nat, height: nat, s: seq<Byte>, y: nat)
    requires |s| == Area(width, height) && y < height
    ensures Area(width, y + 1) <= |s|
    ensures RowsBottomUp(width, height, s, height - y)
            == RowsBottomUp(width, height, s, height - 1 - y) + Row(width, s, y) + Zeros(PadSize(width))
  {
    AreaMono(width, y + 1, height);
    var k := height - y;
    assert height - k == y;
  }

  /** One pass of the row loop: the samples of row `y`, then `pad_size` zero bytes. */
  method AppendRow(img: Image, y: nat, padSize: int, bytes: seq<Byte>) returns (bytes': seq<Byte>)
    requires img.Valid() && y < img.height && padSize == PadSize(img.width)
    ensures |img.data[..]| == Area(img.width, img.height) && Area(img.width, y + 1) <= |img.data[..]|
    ensures bytes' == bytes + Row(img.width, img.data[..], y) + Zeros(PadSize(img.width))
  {
    var width := img.width;
    ghost var samples := img.data[..];
    assert |samples| == Area(width, img.height) by {
      AreaIsProduct(width, img.height);
    }
    AreaMono(width, y + 1, img.height);
    var start := y * width;
    assert start == Area(width, y) by {
      AreaIsProduct(width, y);
    }
    assert img.data[start..start + width] == Row(width, samples, y);
    bytes' := bytes + img.data[start..start + width];
    if padSize > 0 {
      bytes' := bytes' + [0, 0, 0][..padSize];
    }
    assert [0, 0, 0][..padSize] == Zeros(PadSize(width));
  }

  /** The row loop of `save_bmp`: rows `height - 1` down to 0, each followed by `pad_size` zeros. */
  method WriteRows(img: Image) returns (bytes: seq<Byte>)
    requires img.Valid()
    ensures |img.data[..]| == Area(img.width, img.height)
    ensures bytes == RowsBottomUp(img.width, img.height, img.data[..], img.height)
  {
    var width, height := img.width, img.height;
    ghost var samples := img.data[..];
    assert |samples| == Area(width, height) by {
      AreaIsProduct(width, height);
    }
    var rowPadded := (width + 3) - (width + 3) % 4;
    var padSize := rowPadded - width;
    bytes := [];
    var y: int := height - 1;
    while y >= 0
      invariant -1 <= y < height
      invariant bytes == RowsBottomUp(width, height, samples, height - 1 - y)
    {
      RowsBottomUpNext(width, height, samples, y);
      bytes := AppendRow(img, y, padSize, bytes);
      y := y - 1;
    }
  }

  /*
   * The header as written records 54 both as the offset of the pixel data and
   * as the size of everything before it, but `save_bmp` writes the 1024-byte
   * palette in between. A reader that honours the offset field starts reading
   * pixels inside the palette.
   */

  /** As written: the offset field names byte 54, where the palette (entry 0 = 0,0,0,0) begins, not the pixels. */
  lemma OffsetFieldMissesPixels(width: nat, height: nat, s: seq<Byte>)
    requires |s| == width * height
    ensures var b := Encode(width, height, s);
      && |b| >= PixelStart
      && Field32(b, 10) == HeaderBase < PixelStart
      && b[HeaderBase..HeaderBase + 4] == [0, 0, 0, 0]
  {
    EncodeFileHeaderFields(width, height, s);
    EncodePalette(width, height, s, 0);
  }

  /** Corrected: the file size counts the palette and the offset field points past it. */
  function CorrectedFileHeader(width: nat, height: nat): (b: seq<Byte>)
    ensures |b| == FileHeaderSize
  {
    [66, 77] + LE32((PixelStart + ImageSize(width, height)) % Uint32Range) + [0, 0, 0, 0] + LE32(PixelStart)
  }

  /** The stream with the corrected file header; everything after byte 14 is as `save_bmp` writes it. */
  function CorrectedEncode(width: nat, height: nat, s: seq<Byte>): seq<Byte>
    requires |s| == width * height
  {
    AreaIsProduct(width, height);
    CorrectedFileHeader(width, height) + InfoHeader(width, height) + Palette(256)
    + RowsBottomUp(width, height, s, height)
  }

  lemma CorrectedFileHeaderFields(width: nat, height: nat)
    ensures var fh := CorrectedFileHeader(width, height);
      && Field32(fh, 2) == (PixelStart + ImageSize(width, height)) % Uint32Range
      && Field32(fh, 10) == PixelStart
  {
    var fh := CorrectedFileHeader(width, height);
    Uint32IsPow();
    ReadLittleEndianOf((PixelStart + ImageSize(width, height)) % Uint32Range, 4);
    ReadLittleEndianOf(PixelStart, 4);
    assert fh[2..6] == LE32((PixelStart + ImageSize(width, height)) % Uint32Range);
    assert fh[10..14] == LE32(PixelStart);
  }

  /** The corrected stream: its file header, then the rows exactly where `save_bmp` writes them. */
  lemma CorrectedPrefix(width: nat, height: nat, s: seq<Byte>)
    requires |s| == width * height
    ensures |s| == Area(width, height)
    ensures var b := CorrectedEncode(width, height, s);
      && |b| == PixelStart + Area(RowPadded(width), height)
      && b[..14] == CorrectedFileHeader(width, height)
      && b[PixelStart..] == RowsBottomUp(width, height, s, height)
  {
    AreaIsProduct(width, height);
    var b := CorrectedEncode(width, height, s);
    var front := CorrectedFileHeader(width, height) + InfoHeader(width, height) + Palette(256);
    var rows := RowsBottomUp(width, height, s, height);
    assert b == front + rows;
    assert b[..14] == CorrectedFileHeader(width, height);
    assert b[PixelStart..] == rows;
  }

  /**
   * With the corrected header, the offset field locates every pixel: sample (x, y)
   * is at `RowOffset(width, height, y) + x`, that is `offset + (height-1-y)*row_padded + x`; and when the 32-bit size does not
   * wrap, the file-size field is the length of the stream.
   */
  lemma CorrectedHeaderLocatesPixels(width: nat, height: nat, s: seq<Byte>, x: nat, y: nat)
    requires |s| == width * height && x < width && y < height
    ensures Index(width, x, y) < |s|
    ensures var b := CorrectedEncode(width, height, s);
      && |b| >= PixelStart
      && Field32(b, 10) == PixelStart
      && RowOffset(width, height, y) + x < |b|
      && b[RowOffset(width, height, y) + x] == s[Index(width, x, y)]
      && (PixelStart + RowPadded(width) * height < Uint32Range ==> Field32(b, 2) == |b|)
  {
    var b := CorrectedEncode(width, height, s);
    CorrectedPrefix(width, height, s);
    CorrectedFileHeaderFields(width, height);
    Field32Within(b, 0, 14, 2);
    Field32Within(b, 0, 14, 10);
    PixelInStream(b, width, height, s, x, y);
    assert Area(width, y) + x == Index(width, x, y) by {
      AreaIsProduct(width, y);
    }
    var area := Area(RowPadded(width), height);
    assert |b| == PixelStart + area;
    if PixelStart + RowPadded(width) * height < Uint32Range {
      AreaIsProduct(RowPadded(width), height);
      ModBelow(area, Uint32Range);
      ModBelow(PixelStart + area, Uint32Range);
    }
  }
}
