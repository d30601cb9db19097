/**
 * `save_pgm` of image.c: the Netpbm "plain" graymap text (magic `P2`)
 * written for an image, and a reader that recovers the image from it.
 */
module Pgm {
  import opened Wrappers
  import opened Raster
  import opened Decimal

  /** Width, height and row-major samples, as a graymap file describes them. */
  datatype Graymap = Graymap(width: nat, height: nat, samples: seq<Byte>)

  /** The header `"P2\n%u %u\n255\n"`. */
  function Header(width: nat, height: nat): string
  {
    "P2\n" + Dec(width) + " " + Dec(height) + "\n255\n"
  }

  /** The character written after the sample in column `x`: a newline ends a row. */
  function Separator(width: nat, x: nat): char
  {
    if x == width - 1 then '\n' else ' '
  }

  /** The samples `r`, the first of which sits in column `x`, each followed by its separator. */
  function Cells(width: nat, x: nat, r: seq<Byte>): string
    decreases |r|
  {
    if r == [] then [] else Dec(r[0]) + [Separator(width, x)] + Cells(width, x + 1, r[1..])
  }

  /** The first `height` rows of `s`, one text line per row. */
  function Lines(width: nat, height: nat, s: seq<Byte>): string
  {
    if height == 0 || |s| < width then []
    else Cells(width, 0, s[..width]) + Lines(width, height - 1, s[width..])
  }

  /** The whole text `save_pgm` writes. */
  function Encode(width: nat, height: nat, s: seq<Byte>): string
  {
    Header(width, height) + Lines(width, height, s)
  }

  lemma {:induction false} CellsSnoc(width: nat, x: nat, r: seq<Byte>, v: Byte)
    ensures Cells(width, x, r + [v]) == Cells(width, x, r) + Dec(v) + [Separator(width, x + |r|)]
    decreases |r|
  {
    if r == [] {
      assert Cells(width, x + 1, []) == [];
    } else {
      assert (r + [v])[1..] == r[1..] + [v];
      CellsSnoc(width, x + 1, r[1..], v);
    }
  }

  lemma {:induction false} LinesSnoc(width: nat, height: nat, s: seq<Byte>, row: seq<Byte>)
    requires |s| == Arith.Area(width, height) && |row| == width
    ensures Lines(width, height + 1, s + row) == Lines(width, height, s) + Cells(width, 0, row)
    decreases height
  {
    if height == 0 {
      assert s == [] && s + row == row;
      assert row[..width] == row && row[width..] == [];
      assert Lines(width, 0, row[width..]) == [];
    } else {
      assert (s + row)[..width] == s[..width];
      assert (s + row)[width..] == s[width..] + row;
      LinesSnoc(width, height - 1, s[width..], row);
    }
  }

  /** Writing the sample in column `x` of the row at `rowStart` after the text `done` extends it by that cell. */
  lemma CellsStep(done: string, width: nat, samples: seq<Byte>, rowStart: nat, x: nat, p: nat)
    requires x < width && p == rowStart + x && p < |samples|
    ensures done + Cells(width, 0, samples[rowStart..p + 1])
            == done + Cells(width, 0, samples[rowStart..p]) + Dec(samples[p]) + [if x == width - 1 then '\n' else ' ']
  {
    assert samples[rowStart..p + 1] == samples[rowStart..p] + [samples[p]];
    CellsSnoc(width, 0, samples[rowStart..p], samples[p]);
  }

  /** One text line of a row holds its `width` samples separated by single spaces. */
  lemma {:induction false} CellsShape(width: nat, x: nat, r: seq<Byte>)
    requires x + |r| <= width && 0 < |r|
    ensures |Cells(width, x, r)| >= 2
    ensures Cells(width, x, r)[|Cells(width, x, r)| - 1] == Separator(width, x + |r| - 1)
    decreases |r|
  {
    if |r| > 1 {
      CellsShape(width, x + 1, r[1..]);
    }
  }

  /** Consumes exactly `lit` at the front of `s`. */
  function Expect(s: string, lit: string): (r: Option<string>)
    ensures r.Some? ==> s == lit + r.value
  {
    if |lit| <= |s| && s[..|lit|] == lit then Some(s[|lit|..]) else None
  }

  /** Reads `k` samples of a row, the first in column `x`, with their separators. */
  function ReadCells(width: nat, x: nat, k: nat, s: string): Option<(seq<Byte>, string)>
    decreases k
  {
    if k == 0 then Some(([], s))
    else
      var number :- ParseNat(s);
      if number.0 > 255 then None
      else
        var rest :- Expect(number.1, [Separator(width, x)]);
        var tail :- ReadCells(width, x + 1, k - 1, rest);
        Some(([number.0 as Byte] + tail.0, tail.1))
  }

  /** Reads `height` rows of `width` samples; nothing may follow them. */
  function ReadLines(width: nat, height: nat, s: string): Option<seq<Byte>>
    decreases height
  {
    if height == 0 then (if s == [] then Some([]) else None)
    else
      var row :- ReadCells(width, 0, width, s);
      var rest :- ReadLines(width, height - 1, row.1);
      Some(row.0 + rest)
  }

  /** Reads the header; returns width, height and the text after it. */
  function ReadHeader(text: string): Option<(nat, nat, string)>
  {
    var afterMagic :- Expect(text, "P2\n");
    var w :- ParseNat(afterMagic);
    var afterWidth :- Expect(w.1, " ");
    var h :- ParseNat(afterWidth);
    var body :- Expect(h.1, "\n255\n");
    Some((w.0, h.0, body))
  }

  /** Reads a graymap in exactly the layout `save_pgm` writes. */
  function Decode(text: string): Option<Graymap>
  {
    var header :- ReadHeader(text);
    var width, height, body := header.0, header.1, header.2;
    if width == 0 || height == 0 then None
    else
      var samples :- ReadLines(width, height, body);
      Some(Graymap(width, height, samples))
  }

  lemma ExpectLiteral(lit: string, rest: string)
    ensures Expect(lit + rest, lit) == Some(rest)
  {
    assert (lit + rest)[..|lit|] == lit;
  }

  lemma ReadHeaderOfHeader(width: nat, height: nat, body: string)
    ensures ReadHeader(Header(width, height) + body) == Some((width, height, body))
  {
    var afterHeight := "\n255\n" + body;
    var afterWidth := Dec(height) + afterHeight;
    var afterMagic := Dec(width) + (" " + afterWidth);
    assert Header(width, height) + body == "P2\n" + afterMagic;
    ExpectLiteral("P2\n", afterMagic);
    ParseDec(width, " " + afterWidth);
    ExpectLiteral(" ", afterWidth);
    ParseDec(height, afterHeight);
    ExpectLiteral("\n255\n", body);
  }

  /** One sample and its separator in front of cells that read back. */
  lemma ReadCellsStep(width: nat, x: nat, b: Byte, q: seq<Byte>, tail: string, rest: string)
    requires ReadCells(width, x + 1, |q|, tail) == Some((q, rest))
    ensures ReadCells(width, x, |q| + 1, Dec(b) + ([Separator(width, x)] + tail)) == Some(([b] + q, rest))
  {
    ParseDec(b, [Separator(width, x)] + tail);
    ExpectLiteral([Separator(width, x)], tail);
  }

  lemma {:induction false} ReadCellsOfCells(width: nat, x: nat, r: seq<Byte>, rest: string)
    ensures ReadCells(width, x, |r|, Cells(width, x, r) + rest) == Some((r, rest))
    decreases |r|
  {
    if r != [] {
      var tail := Cells(width, x + 1, r[1..]) + rest;
      assert Cells(width, x, r) + rest == Dec(r[0]) + ([Separator(width, x)] + tail);
      ReadCellsOfCells(width, x + 1, r[1..], rest);
      ReadCellsStep(width, x, r[0], r[1..], tail, rest);
      assert [r[0]] + r[1..] == r;
    } else {
      assert Cells(width, x, r) + rest == rest;
    }
  }

  /** Reading one encoded row in front of the encoding of the rows below it. */
  lemma ReadLinesStep(width: nat, height: nat, row: seq<Byte>, others: seq<Byte>, tailText: string)
    requires height > 0 && |row| == width
    requires ReadLines(width, height - 1, tailText) == Some(others)
    ensures ReadLines(width, height, Cells(width, 0, row) + tailText) == Some(row + others)
  {
    ReadCellsOfCells(width, 0, row, tailText);
  }

  lemma {:induction false} ReadLinesOfLines(width: nat, height: nat, s: seq<Byte>)
    requires |s| == Arith.Area(width, height)
    ensures ReadLines(width, height, Lines(width, height, s)) == Some(s)
    decreases height
  {
    if height == 0 {
      assert s == [];
    } else {
      var row, others := s[..width], s[width..];
      assert row + others == s;
      assert |others| == Arith.Area(width, height - 1);
      ReadLinesOfLines(width, height - 1, others);
      ReadLinesStep(width, height, row, others, Lines(width, height - 1, others));
    }
  }

  /** Round trip: reading back the text save_pgm writes recovers width, height and samples. */
  lemma DecodeEncode(width: nat, height: nat, s: seq<Byte>)
    requires 0 < width && 0 < height && |s| == width * height
    ensures Decode(Encode(width, height, s)) == Some(Graymap(width, height, s))
  {
    ReadHeaderOfHeader(width, height, Lines(width, height, s));
    Arith.AreaIsProduct(width, height);
    ReadLinesOfLines(width, height, s);
  }

  /**
   * `save_pgm`: `canOpen` says whether the output file could be opened.
   * On success the text written is `Encode` of the image and the status 0;
   * otherwise nothing is written and the status is -1.
   */
  method SavePgm(img: Image, canOpen: bool) returns (status: int, text: string)
    requires img.Valid()
    ensures status == (if canOpen then 0 else -1)
    ensures text == if canOpen then Encode(img.width, img.height, img.data[..]) else []
  {
    if !canOpen {
      return -1, [];
    }
    text := WritePgm(img);
    status := 0;
  }

  /** The inner loop of `save_pgm`: appends the row of samples that starts at index `rowStart`. */
  method WriteRow(img: Image, rowStart: nat, text: string) returns (text': string)
    requires img.Valid() && rowStart + img.width <= img.data.Length
    ensures text' == text + Cells(img.width, 0, img.data[rowStart..rowStart + img.width])
  {
    ghost var samples := img.data[..];
    var width := img.width;
    text' := text;
    var p := rowStart;
    for x := 0 to width
      invariant p == rowStart + x
      invariant text' == text + Cells(width, 0, samples[rowStart..p])
    {
      CellsStep(text, width, samples, rowStart, x, p);
      text' := text' + Dec(img.data[p]) + [if x == width - 1 then '\n' else ' '];
      p := p + 1;
    }
  }

  /** The text of the first `y + 1` rows is that of the first `y` rows and then row `y`. */
  lemma LinesStep(width: nat, y: nat, samples: seq<Byte>, rowStart: nat, p: nat)
    requires rowStart == Arith.Area(width, y) && p == rowStart + width <= |samples|
    ensures Lines(width, y + 1, samples[..p]) == Lines(width, y, samples[..rowStart]) + Cells(width, 0, samples[rowStart..p])
  {
    assert samples[..p] == samples[..rowStart] + samples[rowStart..p];
    LinesSnoc(width, y, samples[..rowStart], samples[rowStart..p]);
  }

  /** One pass of the row loop: the text so far, extended by the line of row `y`. */
  method AppendLine(img: Image, y: nat, rowStart: nat, text: string) returns (text': string)
    requires img.Valid() && rowStart == Arith.Area(img.width, y) && rowStart + img.width <= img.data.Length
    requires text == Header(img.width, img.height) + Lines(img.width, y, img.data[..][..rowStart])
    ensures text' == Header(img.width, img.height) + Lines(img.width, y + 1, img.data[..][..rowStart + img.width])
  {
    ghost var samples := img.data[..];
    text' := WriteRow(img, rowStart, text);
    ghost var p := rowStart + img.width;
    assert img.data[rowStart..p] == samples[rowStart..p];
    LinesStep(img.width, y, samples, rowStart, p);
  }

  /** The `fprintf` calls of `save_pgm`: the header, then each sample and its separator. */
  method WritePgm(img: Image) returns (text: string)
    requires img.Valid()
    ensures text == Encode(img.width, img.height, img.data[..])
  {
    var width, height := img.width, img.height;
    ghost var samples := img.data[..];
    text := Header(width, height);
    assert Arith.Area(width, height) == |samples| by {
      Arith.AreaIsProduct(width, height);
    }
    var p := 0;
    for y := 0 to height
      invariant p == Arith.Area(width, y) <= |samples|
      invariant text == Header(width, height) + Lines(width, y, samples[..p])
    {
      Arith.AreaMono(width, y + 1, height);
      text := AppendLine(img, y, p, text);
      p := p + width;
    }
    assert samples[..p] == samples;
  }
}
