# Fractal raster core in Dafny

A model, with proofs, of the core of a small C program. The program renders
fractals into an 8-bit grayscale raster and saves it as a Netpbm plain
graymap (PGM, magic `P2`) or as an 8-bit Windows bitmap (BMP).

What the model covers:

- **The raster** (`Raster.Image`). A class whose width and height are fixed
  at creation. Its `width * height` samples live in an `array<Byte>` stored
  row-major, origin top-left. It has bounds-checked `SetPixel` and `GetPixel`
  and a `Clear` that zeroes every sample.
- **The encoders.**
  - `Pgm.WritePgm` and `Bmp.WriteBmp` are the loops of `save_pgm` and
    `save_bmp`.
  - Each is proved equal to a pure description of its output: `Pgm.Encode`
    for the text and `Bmp.Encode` for the bytes.
  - Lemmas about those descriptions state the layout:
    - PGM: the header, then one text line per row.
    - BMP: the header fields, the gray palette and the bottom-up padded rows.
  - `Pgm.Decode` reads the PGM text back, and the round trip is proved.
- **The integer rasteriser.**
  - `Line.DrawLine` is Bresenham's loop. It is proved to plot exactly the
    on-canvas points of `Line.Path`, in order.
  - The lemmas about `Path` give:
    - start and end;
    - the shape of each step;
    - the bounding box;
    - horizontal and vertical segments;
    - the `(0,0)`–`(5,0)` example.
  - `Triangles.DrawFilledTriangle` draws the three edges, then the row scan
    with the edge-function sign test.
- **The generators.**
  - `Sierpinski.SierpinskiTriangle` draws, in order, the `3^depth` leaf
    triangles that `Sierpinski.Leaves` lists.
  - `Tree.TreeFractal` draws, in order, the branches that `Tree.Branches`
    lists.
  - `EscapeTime.MandelbrotFractal` and `EscapeTime.JuliaFractal` give every
    pixel the gray level of its escape count.
  - `Empty.EmptyFractal` changes nothing.

Some drawing is described on values:

- `Canvas.Plot` is the guarded `set_pixel` the drawing routines use.
- `Canvas.Paint` plots a sequence of points in turn.
- Each drawing method's postcondition ties the new samples to `Paint` of the
  points it visits.
- `Canvas.PaintAt` says what such a painting leaves at each pixel.

Model choices:

- **Integers.**
  - Samples are `Byte` (0..255).
  - Coordinates are mathematical integers.
  - Where the C code converts or wraps, the model writes it out:
    - the `uint32_t` BMP header sizes are taken modulo 2^32;
    - `(pixel_data)(255 - depth * 20)` is taken modulo 256;
    - C's truncating `/` on `int` is `Sierpinski.Half`;
    - the `(int)` cast of a double is `Tree.Trunc`.
- **Doubles** are exact reals. `sin` and `cos` are parameters of
  `Tree.TreeFractal`.
- **`get_pixel`** is `Raster.Image.GetPixel`, a read of the sample at
  `Index(width, x, y)`; `Raster.GetAfterSet` states what it returns after a
  `SetPixel`.
- **Opening the output file** is the parameter `canOpen` of `Pgm.SavePgm`
  and `Bmp.SaveBmp`. When it is false, the result is -1 and nothing is
  written. Otherwise the result is 0 and the text or bytes are returned
  instead of written.

Three behaviours of the code that are easy to misread:

- **Escape colour.** The gray level of an escape count `i < max_iter` is
  `255 * i / max_iter`, rounded down. It is therefore also 0 for points that
  escape early (`255 * i < max_iter`), not only for points that never escape.
  `EscapeTime.Colour` states this exactly.
- **Bresenham error term.** It is not confined to `[-dy, dx]`. From (0, 0)
  to (10, 1) it is 13 after the sixth step, at (6, 1)
  (`Line.ErrorTermExceedsDx`). The invariant that does hold
  is `Line.OnTrack`. It says `err == dx*(1+j) - dy*(1+i)` after `i` steps
  along x and `j` steps along y, with `0 <= i <= dx` and `0 <= j <= dy`.
  Progress and termination follow from it (`Line.StepProgress`).
- **BMP offset and file size.** The header gives 54 as the pixel offset, and
  54 + image size as the file size. The stream actually written has the
  1024-byte palette in front of the pixels (see Findings). `Bmp.SaveBmp`
  returns the bytes as written. The corrected header is modelled beside it
  (`Bmp.CorrectedEncode`), with the property the header was meant to have.

## Model

| member | source | states |
|---|---|---|
| Raster.Image.constructor | image.c:18-29 | requires `0 < width, height <= 65536`; the new image has exactly those dimensions and a fresh buffer of `width * height` samples |
| Raster.Image.Width | image.c:106-110 | the width is positive, at most 65536, and times the height gives the buffer length |
| Raster.Image.Height | image.c:113-117 | the height is positive, at most 65536, and the width times it gives the buffer length |
| Raster.Image.Clear | image.c:36-42 | after clearing, every sample of the buffer is 0 |
| Raster.Image.SetPixel | image.c:92-96 | requires `x < width && y < height`; the buffer is the old buffer with only sample `width*y + x` replaced by the colour, and `GetPixel(x, y)` then returns it; the dimensions are constants |
| Raster.IndexInRange | image.c:94-95 | an in-bounds pixel's index `width*y + x` lies inside the `width*height` buffer |
| Raster.IndexInjective | image.c:95 | two in-row pixels with the same index are the same pixel |
| Raster.IndexFitsPixelCoord | image.c:18-19 | for dimensions up to 65536 the index never reaches 2^32, so the `unsigned int` arithmetic does not wrap |
| Raster.Image.GetPixel | image.c:99-103 | requires `x < width && y < height`; the result is the sample at row-major index `width*y + x`, which lies in the buffer; `Raster.GetAfterSet` and `SetPixel`'s `GetPixel(x, y) == color` say what it returns after a write |
| Raster.GetAfterSet | image.c:92-103 | reading pixel (x', y') after storing `c` at (x, y) gives `c` when they are the same pixel and the old sample otherwise |
| Canvas.PlotPixel | fractal.c:35-37 | a point is stored only when it lies on the canvas; the new buffer is `Plot` of the old one |
| Canvas.PaintAt | fractal.c:35-37 | after painting a point sequence, an on-canvas pixel holds the colour exactly when it is one of the points, and its old sample otherwise |
| Canvas.PaintOffCanvas | fractal.c:35-37 | painting points that all lie off the canvas leaves every sample unchanged |
| Canvas.PaintAppend | fractal.c:65-67 | painting `a` then `b` is painting `a + b`, the composition the successive `draw_line` calls rely on |
| Decimal.Dec | image.c:77 | `%u` gives a non-empty run of digits with no leading zero except for 0 itself |
| Decimal.ValueOfDec | image.c:77 | the digits of `Dec(n)` denote `n` |
| Decimal.ParseDec | image.c:83 | reading `Dec(n)` followed by a non-digit gives back `n` and exactly the text after the digits |
| Pgm.CellsShape | image.c:83 | a row's text ends with the separator of its last column, which is `'\n'` for a full row |
| Pgm.CellsSnoc | image.c:82-84 | one more sample extends a row's text by its decimal digits and its separator |
| Pgm.LinesSnoc | image.c:81-85 | one more row extends the body by that row's line |
| Pgm.ReadHeaderOfHeader | image.c:77 | the header `P2\n<width> <height>\n255\n` is read back as width, height and the rest of the text |
| Pgm.ReadCellsOfCells | image.c:82-84 | reading a row's text gives back its samples and the text after it |
| Pgm.ReadLinesOfLines | image.c:81-85 | reading the `height` lines gives back all `width*height` samples, with nothing left over |
| Pgm.DecodeEncode | image.c:77-85 | round trip: decoding the text `save_pgm` writes gives back the width, the height and the samples |
| Pgm.WriteRow | image.c:82-84 | the inner loop appends one row's line to the text |
| Pgm.AppendLine | image.c:81-85 | one pass of the row loop turns the text for rows `0..y-1` into the text for rows `0..y` |
| Pgm.WritePgm | image.c:77-85 | the text written is the header followed by the lines of all rows, i.e. `Encode` of the image |
| Pgm.SavePgm | image.c:66-89 | status -1 and no text when the file cannot be opened; otherwise status 0 and `Encode` of the image |
| Bmp.RowPaddedIsLeastMultiple | image.c:131 | `(width+3) & ~3` is a multiple of 4 that is at least the width and at most any other such multiple, and `pad_size` is at most 3 |
| Bmp.ReadLittleEndianOf | image.c:138-141 | the `k` little-endian bytes of `n < 256^k` read back as `n` |
| Bmp.ShiftBytes | image.c:138-141 | `(n >> 8*i) & 0xFF` for i = 0..3 are the four little-endian bytes of `n` |
| Bmp.FileHeaderFields | image.c:136-144 | the file header reads back as `'B','M'`, file size `(54 + image_size) mod 2^32`, four zero bytes and offset 54 |
| Bmp.InfoHeaderFields | image.c:147-168 | the info header reads back as size 40, the width, the height, 1 plane, 8 bits, no compression, the image size, resolution 2835 twice and zero colour counts |
| Bmp.InfoHeaderSizes | image.c:147-159 | the size, width, height, planes, depth and compression fields of the info header |
| Bmp.InfoHeaderResolution | image.c:160-167 | the image size, resolution and colour count fields of the info header |
| Bmp.EncodeLength | image.c:131-191 | the stream is `14 + 40 + 1024 + row_padded*height` bytes long, which is the recorded file size plus 1024 whenever the 32-bit size does not wrap |
| Bmp.EncodePrefix | image.c:171-172 | the stream starts with the file header, then the info header |
| Bmp.EncodeFileHeaderFields | image.c:136-144 | every file header field read back from the stream holds the value `save_bmp` puts there |
| Bmp.EncodeInfoHeaderFields | image.c:147-168 | every info header field read back from the stream holds the value `save_bmp` puts there |
| Bmp.PaletteSnoc | image.c:175-178 | each palette iteration appends the entry `(i, i, i, 0)` |
| Bmp.EncodePalette | image.c:175-178 | palette entry `i` of the stream, at byte `54 + 4*i`, is `(i, i, i, 0)` for every `i < 256` |
| Bmp.RowsBottomUpNext | image.c:185-191 | writing row `y` after rows `height-1` down to `y+1` appends that row and its padding |
| Bmp.RowsBottomUpAt | image.c:185-191 | byte `x` of the `j`-th stored row is sample `x` of image row `height-1-j` when `x < width`, and 0 in the padding |
| Bmp.RowOffsetIsProduct | image.c:185-187 | row `y` starts `(height-1-y) * row_padded` bytes after the palette |
| Bmp.PixelInStream | image.c:185-191 | in any stream whose pixel section is the padded rows, sample (x, y) sits at its bottom-up offset and padding bytes are 0 |
| Bmp.EncodePixel | image.c:185-191 | byte `1078 + (height-1-y)*row_padded + x` of the stream is sample (x, y) for `x < width`, and 0 for the padding |
| Bmp.WriteHeaders | image.c:131-168 | the header bytes built field by field, with the 32-bit arithmetic, are the file header and the info header |
| Bmp.AppendRow | image.c:187-190 | one pass of the row loop appends the samples of row `y` and `pad_size` zeros |
| Bmp.WriteRows | image.c:181-191 | the row loop writes the padded rows from `height-1` down to 0 |
| Bmp.WriteBmp | image.c:171-191 | the bytes written (headers, palette loop, rows) are exactly `Encode` of the image |
| Bmp.SaveBmp | image.c:120-195 | status -1 and no bytes when the file cannot be opened; otherwise status 0 and `Encode` of the image |
| Bmp.OffsetFieldMissesPixels | image.c:143 | as written, the offset field reads 54, which is less than 1078 where the pixels start, and names palette entry 0 `(0,0,0,0)` |
| Bmp.CorrectedFileHeaderFields | image.c:133-143 | the corrected file header records `1078 + image_size` as file size and 1078 as offset |
| Bmp.CorrectedHeaderLocatesPixels | image.c:133-143 | with the corrected header, the offset field is 1078, every sample (x, y) is at `offset + (height-1-y)*row_padded + x`, and the file size field is the stream length when the 32-bit size does not wrap |
| Line.StartOnTrack | fractal.c:24-30 | the initial state `err = dx - dy` at (x0, y0) satisfies the loop invariant |
| Line.AtEndIff | fractal.c:40-41 | on the track, the loop stops exactly when all `dx` steps along x and all `dy` steps along y have been taken |
| Line.NoMoveXAtEnd | fractal.c:45-48 | once x has reached x1 but y has not reached y1, the x move is not taken |
| Line.NoMoveYAtEnd | fractal.c:49-52 | once y has reached y1 but x has not reached x1, the y move is not taken |
| Line.ErrorTermExceedsDx | fractal.c:24-52 | on the segment (0, 0)-(10, 1) the sixth step reaches (6, 1) with `err == 13`, above `dx == 10`, while the loop invariant still holds there |
| Line.StepProgress | fractal.c:44-52 | a step before the end keeps the invariant, moves x by 0 or `sx` and y by 0 or `sy`, moves at least one of them, and decreases the distance left |
| Line.Walk | fractal.c:33-53 | the points visited from a cursor on, which start at the cursor |
| Line.WalkEnds | fractal.c:40-41 | the walk ends at (x1, y1) and does not reach it before its last point |
| Line.WalkSteps | fractal.c:44-52 | consecutive points of the walk are one Bresenham move apart |
| Line.WalkInBox | fractal.c:24-52 | every point of the walk is within `[0, dx] x [0, dy]` steps of (x0, y0) |
| Line.PathEnds | fractal.c:33-41 | the path starts at (x0, y0), ends at (x1, y1) and reaches (x1, y1) only at its end |
| Line.PathInBox | fractal.c:24-52 | every point of the path lies in the bounding box of the two end points |
| Line.PathSteps | fractal.c:44-52 | each step of the path moves x by 0 or `sx` and y by 0 or `sy`, and never stays put |
| Line.HorizontalWalk | fractal.c:24-52 | on a horizontal segment the walk visits `x, x+sx, ..., x1` in turn |
| Line.VerticalWalk | fractal.c:24-52 | on a vertical segment the walk visits `y, y+sy, ..., y1` in turn |
| Line.HorizontalPath | fractal.c:24-52 | a horizontal line visits a point if and only if it lies on the closed segment |
| Line.VerticalPath | fractal.c:24-52 | a vertical line visits a point if and only if it lies on the closed segment |
| Line.ZeroToFive | fractal.c:24-52 | the line from (0, 0) to (5, 0) visits exactly (0, 0), (1, 0), ..., (5, 0), in that order |
| Line.WalkSuffix | fractal.c:33-53 | the loop's cursor is the `k`-th point of the path; it stops exactly at the last one and otherwise steps to the next |
| Line.Advance | fractal.c:44-52 | the conditional moves of the loop body compute `Step` of the cursor |
| Line.DrawLine | fractal.c:18-54 | the samples become the old ones with every point of the Bresenham path plotted in order, where points off the canvas are skipped |
| Triangles.CoversIff | fractal.c:99-103 | a point passes the fill test exactly when the three edge values are all `>= 0` or all `<= 0` |
| Triangles.VerticesCovered | fractal.c:94-103 | the three vertices always pass the fill test |
| Triangles.MinY | fractal.c:71-77 | `min_y` is one of the three vertex rows and lies at or below all of them |
| Triangles.MaxY | fractal.c:72-81 | `max_y` is one of the three vertex rows and lies at or above all of them |
| Triangles.RowPointsMember | fractal.c:90-105 | the inner loop sets a point of row `y` exactly when `0 <= x < width` and it passes the fill test |
| Triangles.ScanPointsMember | fractal.c:84-106 | the row scan from `lo` to `hi-1` sets exactly the canvas points in those rows that pass the fill test |
| Triangles.FillPointsMember | fractal.c:71-106 | the fill sets exactly the canvas pixels in rows `min_y..max_y` that pass the fill test; no other row is touched |
| Triangles.DrawnAt | fractal.c:59-107 | after the triangle, a canvas pixel holds the colour exactly when it lies on an edge or is filled, and its old sample otherwise |
| Triangles.FillPixel | fractal.c:94-104 | one pixel of the inner loop is set exactly when it passes the sign test |
| Triangles.FillRow | fractal.c:90-105 | the inner loop paints exactly the passing points of row `y`, left to right |
| Triangles.ScanRows | fractal.c:84-106 | the outer loop paints the passing points row by row, skipping rows off the canvas |
| Triangles.DrawFilledTriangle | fractal.c:59-107 | the samples become the old ones with the three edges and then the fill painted |
| Sierpinski.Half | fractal.c:210 | C's `/ 2` truncates toward zero: the remainder is 0 or 1 for `n >= 0`, and 0 or -1 for `n < 0` |
| Sierpinski.SizesPositiveIff | fractal.c:193-221 | `assert(size > 0)` holds in every nested call exactly when the initial size is at least `2^depth` |
| Sierpinski.LeafCount | fractal.c:210-221 | the recursion draws exactly `3^depth` leaf triangles |
| Sierpinski.LeavesUpright | fractal.c:197-221 | every leaf has apex (x, y) and base corners `s/2` to either side and `s` below it, where `s` is the size halved `depth` times |
| Sierpinski.DrawTrianglesAppend | fractal.c:213-221 | drawing one list of triangles after another is drawing their concatenation |
| Sierpinski.DrawLeaf | fractal.c:197-207 | the base case draws exactly one filled triangle `(x,y), (x-size/2, y+size), (x+size/2, y+size)` in colour 255 |
| Sierpinski.DrawCopies | fractal.c:208-222 | the recursive case draws the leaves of the top, lower-left and lower-right copies, in that order |
| Sierpinski.SierpinskiTriangle | fractal.c:190-223 | requires the size assertion at every nested call; the samples become the old ones with all leaf triangles drawn in order in colour 255 |
| Tree.BranchColor | fractal.c:244 | the branch colour is `255 - 20*depth` modulo 256, and exactly `255 - 20*depth` for depth 0 to 12 |
| Tree.TruncTowardZero | fractal.c:239-240 | the `(int)` cast drops the fraction and keeps the sign |
| Tree.BranchCount | fractal.c:225-252 | a tree of depth `d` has at most `2^d - 1` branches |
| Tree.ShortStaysShort | fractal.c:232-249 | a length below 2 stays below 2 under repeated `* 0.7` |
| Tree.FullTree | fractal.c:232-251 | when the deepest branches are still at least 2 long, the tree has exactly `2^d - 1` branches |
| Tree.BranchColors | fractal.c:244-251 | the first branch has the colour of `depth`, and every branch has the colour of some depth between 1 and `depth` |
| Tree.DrawBranchesAppend | fractal.c:245-251 | drawing one list of branches after another is drawing their concatenation |
| Tree.DrawBranch | fractal.c:236-245 | the tip is computed with 3.14 for pi and truncating casts, and the branch to it is drawn in its depth's colour |
| Tree.Grow | fractal.c:235-251 | past the guard, the branch is drawn, then the left and the right sub-tree, which is the whole tree in pre-order |
| Tree.TreeFractal | fractal.c:225-252 | the samples become the old ones with every branch drawn in pre-order; at depth 0 or for length below 2 nothing changes |
| EscapeTime.CountFromFirst | fractal.c:134-139 | counting from step `k` gives the first escape at or after `k`, and never more than `max_iter` |
| EscapeTime.EscapeCountFirst | fractal.c:134-139 | the count lies in `[0, max_iter]`; the orbit stays in the disc for every earlier step and has left it at the count unless the count is `max_iter` |
| EscapeTime.EscapeCountUnique | fractal.c:134-139 | any count with those properties is the escape count |
| EscapeTime.Iterate | fractal.c:135-137 | the loop body computes `z*z + c` on the two parts of `z` |
| EscapeTime.EscapeIterations | fractal.c:129-139 | the `while` loop ends with the orbit's escape count |
| EscapeTime.ScaledQuotient | fractal.c:144 | for `i < m`, `255*i/m` is the rounded-down quotient and at most 254 |
| EscapeTime.Colour | fractal.c:143-144 | gray 0 at `max_iter`; below it, the rounded-down quotient of `255*iteration` by `max_iter`, which lies in `[0, 254]` |
| EscapeTime.ColourMonotone | fractal.c:143-144 | below `max_iter`, a later escape is never darker |
| EscapeTime.RowMajorIndex | fractal.c:122-123 | the order of the loop nest, `py` outside and `px` inside, visits `width*height` pixels, all on the raster, the `i`-th at sample `i`, so none twice |
| EscapeTime.RowMajorCovers | fractal.c:122-123 | every pixel of the raster is visited, at the position of its own sample |
| EscapeTime.RenderRow | fractal.c:123-146 | row `py` gets the gray level of every pixel's escape count, and no sample outside the row changes |
| EscapeTime.Render | fractal.c:122-147 | every pixel gets the gray level of its escape count |
| EscapeTime.MandelbrotFractal | fractal.c:109-148 | requires `max_iter > 0` and a non-degenerate viewport; every pixel gets the gray level of the orbit of 0 under its plane point |
| EscapeTime.JuliaFractal | fractal.c:150-188 | requires `max_iter > 0` and a non-degenerate viewport; every pixel gets the gray level of the orbit of its plane point under the fixed `c` |
| Empty.EmptyFractal | fractal.c:8-13 | the raster and every sample are left as they were |

## Left out

- Memory management is not modelled: `malloc`, `free_image` and their null
  checks. The image is a Dafny object.
- `fill_random` is not modelled. It depends on `rand()`, and no generator
  uses it.
- `main.c` is not part of this model. It is a fixed driver with progress
  output, a clock seed and hard-coded file names.
- File I/O is reduced to its result. `fopen` succeeding is the `canOpen`
  parameter; the text or bytes are returned instead of written by
  `fprintf`/`fwrite`.
- The doubles of `mandelbrot_fractal`, `julia_fractal` and `tree_fractal`
  are exact reals, not IEEE values. Rounding in the viewport mapping, the
  orbit and `length * sin(a)` is not modelled.
- `sin` and `cos` are parameters. The lemmas about `Tree.Branches` hold for
  any tip function (`Tree.TipMap`).
- Line.DrawLine, Triangles.DrawFilledTriangle: coordinates are mathematical
  integers; the C `int` arithmetic (`abs`, `2 * err`, the edge-function
  products, `x - size / 2`, `y + size`) is assumed not to overflow.
- EscapeTime.Colour: `255 * iteration` is mathematical; in C it overflows an
  `int` once `iteration` exceeds 8421504.
- Tree.BranchColor: `depth * 20` is mathematical; the `int` product is
  assumed not to overflow.
- Some C loop bodies are separate methods so that each proof stays small:
  `Line.Advance`, `Canvas.PlotPixel`, `Pgm.WriteRow`, `Pgm.AppendLine`,
  `Bmp.AppendRow`, `Triangles.FillPixel`, `EscapeTime.Iterate`. The
  recursions of `sierpinski_triangle` and `tree_fractal` are split into a
  base and a recursive case (`Sierpinski.DrawLeaf` / `DrawCopies`,
  `Tree.TreeFractal` / `Grow`). The statements are the code's.

## Findings

| source | as written | input that shows it | evidently intended | confidence | as-written member | corrected member |
|---|---|---|---|---|---|---|
| image.c:133-143 | the BMP header records 54 as the offset of the pixel data and `54 + image_size` as the file size, yet the 1024-byte palette is written between the headers and the pixels | a 2×1 image with samples `[10, 20]`: the offset field reads 54, where palette entry 0 `(0,0,0,0)` begins, while sample 10 is at byte 1078; the stream is 1082 bytes but the size field reads 58 | offset `14 + 40 + 1024 = 1078` and file size `1078 + image_size` | not executed | Bmp.OffsetFieldMissesPixels | Bmp.CorrectedHeaderLocatesPixels |
