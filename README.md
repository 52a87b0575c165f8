# game_logic geometry, search map and bitmap core in Dafny

This project models the core of `game_logic`, a small Python game-logic
library. The core has four parts:

- **Geometry kernel.** An integer `Point` with vector arithmetic. Each grid
  cell maps to its bit in a bottom-right-oriented storage grid. A clamped
  square search window surrounds a point. An `Edge` between two points has
  a diagonal distance, a gradient, an orientation test, an intersection
  test, a parallel test and rounded intermediary points.
- **Search map.** A fog-of-war grid whose revealed cells are the bits of
  one integer. It can reveal one cell or every cell within a radius of a
  centre, and it can render the grid as rows of `0`/`1` text.
- **Bitmap reader.** It reads the file header and BITMAPINFOHEADER fields
  of a Windows BMP file held in memory, and its RGBQUAD colour table. Each
  colour-table entry decodes into channels and tests for black and white.
  The one-bit-per-pixel subclass looks up the colour of a pixel.
- **Older stand-alone point.** It has a fixed 16 x 16 map and a search
  radius of 4.5.

Modules, one per file:

| file | module | source | form |
|---|---|---|---|
| common.dfy | `Common` | Python slicing, indexing, `floor`/`ceil` | functions |
| points.dfy | `Points` | src/geometry/point.py | datatype, functions, lemmas |
| edges.dfy | `Edges` | src/geometry/edge.py | datatype, functions, lemmas; `IntermediaryPoints` is a method with a loop |
| search_maps.dfy | `SearchMaps` | src/map/searchmap/searchmap.py | class `SearchMap` over `array<bool>`, loop methods |
| bytes.dfy | `Bytes` | `int.from_bytes(..., 'little')` | functions, round-trip lemmas |
| colour_tables.dfy | `ColourTables` | src/map/bitmap/colour_table.py | datatype, functions |
| bitmaps.dfy | `Bitmaps` | src/map/bitmap/bitmap.py | functions; `ColourTable` is a method with a loop |
| monochrome_bitmaps.dfy | `MonochromeBitmaps` | src/map/bitmap/monochrome_bitmap.py | functions |
| legacy_points.dfy | `LegacyPoints` | point.py (repository root) | functions; `GetPointsInSearchRadius` is a method with loops |

How Python semantics are modelled:

- The integer `map` of a search map is stored as its bits: `bits[i]` is bit
  `i`. `SearchMap.MapValue` gives the integer back, and the constructor and
  `Reveal` state the map in terms of that integer.
- A Python slice clamps its bounds (`Common.Slice`). An index wraps when
  negative and fails when out of range (`Common.Index`, returning `None`).
  `int.from_bytes(b'')` is 0.
- `x // 8` and `x % 8` agree with Dafny's Euclidean `/` and `%`, because
  the divisor is positive.
- A distance test `distance_to(q) <= r` becomes the equivalent comparison
  of squared integer distances, so no square root is needed.

## Model

| member | source | states |
|---|---|---|
| Points.Equals | src/geometry/point.py:13-14 | coordinate-wise equality holds exactly when the two points are equal |
| Points.Add | src/geometry/point.py:16-17 | taking the second summand away from the sum gives the first back |
| Points.Sub | src/geometry/point.py:19-20 | the difference is the origin exactly when the two points are equal |
| Points.AddSubInverse | src/geometry/point.py:16-20 | subtracting what was added, or adding what was subtracted, gives the point back |
| Points.ArithmeticScenarios | src/tests/geometry/test_point.py:24-31 | (2,2)+(5,5) is (7,7), (7,7)-(5,5) is (2,2), and equality separates (2,2) from (5,5) |
| Points.MulCrossed | src/geometry/point.py:22-25 | `*` multiplies crosswise: swapping the operands swaps the coordinates of the result, and x minus y of the product is the 2-D cross product |
| Points.Mul | src/geometry/point.py:22-25 | x minus y of the product is the 2-D cross product, and each component is zero exactly when one of its two factors is |
| Points.DotSymmetric | src/geometry/point.py:27-29 | the dot product is symmetric |
| Points.Dot | src/geometry/point.py:27-29 | a point's dot product with itself is non-negative and zero only at the origin |
| Points.InvertCoordinate | src/geometry/point.py:34-37 | the inverted coordinate and the coordinate add up to span - 1, and a coordinate inside [0, span) stays inside |
| Points.InvertCoordinateInvolution | src/geometry/point.py:34-43 | inverting twice gives the coordinate back |
| Points.InvertPoint | src/geometry/point.py:39-43 | the point and its inverse add up to the far corner (width-1, height-1), and an in-grid cell stays in the grid |
| Points.BinaryGridIndexPos | src/geometry/point.py:45-47 | the storage index is width*(height-1-y) + (width-1-x), and it lies in [0, width*height) for an in-grid cell |
| Points.BinaryGridIndexPosInjective | src/geometry/point.py:45-47 | two in-grid cells with the same storage index are the same cell |
| Points.BinaryGridValue | src/geometry/point.py:49-50 | the value ORed in for an in-grid cell has exactly one bit set, the bit at the cell's storage index |
| Common.SingleBit | src/geometry/point.py:49-50 | 2^i has bit j set exactly when j = i |
| Common.Pow2Bits | src/geometry/point.py:49-50 | the single-bit property of 2^i, for every bit position at once |
| Points.MinSearch | src/geometry/point.py:52-54 | the lower window bound is non-negative and is floor(c - r) when that is positive |
| Points.MaxSearch | src/geometry/point.py:56-58 | the upper window bound is at most span and is ceil(c + r) when that is below span |
| Points.MinSearchCovers | src/geometry/point.py:52-54 | every non-negative coordinate within r below c is at or above the lower bound |
| Points.MaxSearchCovers | src/geometry/point.py:56-58 | every coordinate below span within r above c is below the upper bound, except one exactly at c + r |
| Points.IntegralRadiusWindow | src/geometry/point.py:52-58 | with centre 5 and radius 2.0 the window is [3, 7), which leaves out 7 although 7 lies at distance 2 |
| Points.CorrectedMaxSearch | src/geometry/point.py:56-58 | the corrected upper bound floor(c + r) + 1 is at most span and never below the original bound |
| Points.CorrectedMaxSearchCovers | src/geometry/point.py:56-58 | every coordinate below span within r above c is below the corrected upper bound |
| Points.MinSearchX | src/geometry/point.py:60-61 | the window's lower x bound is non-negative and at most x for a non-negative centre |
| Points.MaxSearchX | src/geometry/point.py:63-64 | the window's upper x bound is at most width and above x for an in-grid centre and a positive radius |
| Points.MinSearchY | src/geometry/point.py:66-67 | the window's lower y bound is non-negative and at most y for a non-negative centre |
| Points.MaxSearchY | src/geometry/point.py:69-70 | the window's upper y bound is at most height and above y for an in-grid centre and a positive radius |
| Common.Floor | src/geometry/point.py:53-54 | `math.floor`: the integer f with f <= v < f + 1 |
| Common.Ceil | src/geometry/point.py:57-58 | `math.ceil`: the integer c with c - 1 < v <= c |
| Points.WithinRadius | src/geometry/point.py:87-92 | `distance_to(q) <= r` without the square root; never holds for a negative radius, and holds for the centre itself exactly when r >= 0 |
| Points.WithinRadiusIsDistanceTest | src/geometry/point.py:87-92 | for d the non-negative root of dx*dx + dy*dy, i.e. `hypot(dx, dy)`, WithinRadius holds exactly when d <= r |
| Points.WithinRadiusSymmetric | src/geometry/point.py:87-92 | the distance test does not depend on which point is the centre |
| Edges.XDiff | src/geometry/edge.py:16-18 | `_x_diff` is positive exactly when the origin is right of the termination, and zero exactly when they share x |
| Edges.YDiff | src/geometry/edge.py:20-22 | `_y_diff` is positive exactly when the origin is above the termination, and zero exactly when they share y |
| Edges.DiagonalDistance | src/geometry/edge.py:24-29 | the result is the larger of the absolute coordinate differences |
| Edges.DiagonalDistanceReversed | src/geometry/edge.py:24-29 | reversing an edge keeps its diagonal distance |
| Edges.DiagonalDistanceScenarios | src/geometry/edge.py:24-29 | (1,1)-(3,3) has diagonal distance 2 and (2,4)-(8,16) has 12 |
| Edges.IsVertical | src/geometry/edge.py:41-43 | an edge is vertical exactly when its x difference is 0, and then its diagonal distance is its y extent |
| Edges.IsHorizontal | src/geometry/edge.py:45-47 | an edge is horizontal exactly when its y difference is 0, and then its diagonal distance is its x extent |
| Edges.Gradient | src/geometry/edge.py:49-59 | a vertical edge has gradient 1, a non-vertical horizontal edge has 0, and otherwise the gradient times the x difference is the y difference |
| Edges.GradientReversed | src/geometry/edge.py:49-59 | reversing an edge keeps its gradient |
| Edges.GradientScenarios | src/geometry/edge.py:49-59 | (2,4)-(8,16) has gradient 2; two collinear diagonals share a gradient, and a skewed one differs |
| Edges.TurnFormula | src/geometry/edge.py:70-76 | `val` expands to (b.y-a.y)(c.x-b.x) - (b.x-a.x)(c.y-b.y) |
| Edges.Turn | src/geometry/edge.py:70-76 | `val`, the cross product of the turn, written out in coordinates by TurnFormula |
| Edges.TurnDegenerate | src/geometry/edge.py:70-76 | `val` is 0 whenever two consecutive points coincide |
| Edges.Orientation | src/geometry/edge.py:61-84 | the result is 1 exactly when val > 1, -1 exactly when val < 0, and 0 exactly when val is 0 or 1 |
| Edges.OrientationScenarios | tests/geometry/test_edge.py:139-163 | the short diagonal followed by either end of the crossing edge: -1 and 1, as the edge test expects |
| Edges.PointOrientationScenarios | src/tests/test_point.py:45-58 | the point test's left turn -1, right turn 1 and straight line 0, given by the orientation of Edge |
| Edges.UnitTurn | src/geometry/edge.py:73-84 | the points (1,1), (1,2), (2,2) have val exactly 1 |
| Edges.TurnAntisymmetric | src/geometry/edge.py:73-76 | reversing the three points negates val |
| Edges.OrientationUnitTurnAsWritten | src/geometry/edge.py:78-84 | for val = 1 the function returns 0, while the reversed points return -1 and the sign of val is 1 |
| Edges.SignOrientation | src/geometry/edge.py:61-84 | the corrected orientation is the sign of val, in both directions of each case |
| Edges.SignOrientationAntisymmetric | src/geometry/edge.py:61-84 | reversing the three points negates the corrected orientation |
| Edges.OrientationAgreesWithSign | src/geometry/edge.py:78-84 | the function as written agrees with the sign of val except exactly at val = 1 |
| Edges.Intersects | src/geometry/edge.py:86-94 | edges reported as intersecting both have non-zero length, and not both ends of the first are collinear with the second; the converse direction, that every proper crossing is reported, is ProperCrossingIntersects |
| Edges.ProperCrossingIntersects | src/geometry/edge.py:73-94 | every proper crossing is reported: when the ends of each edge lie strictly on opposite sides of the other, intersects holds, despite the `val > 1` threshold |
| Edges.IntersectsScenarios | src/geometry/edge.py:86-94 | crossing diagonals intersect; collinear and disjoint edges do not |
| Edges.DisjointEdgesIntersectAsWritten | src/geometry/edge.py:78-94 | the disjoint edges (1,2)-(1,1) and (1,3)-(2,3) are reported as crossing, while with the sign of val both ends of the first turn the same way about the second |
| Edges.IsParallelTo | src/geometry/edge.py:96-104 | parallel exactly when both edges are horizontal or the gradients are equal: the both-vertical branch adds nothing |
| Edges.IsParallelToReflexive | src/geometry/edge.py:96-104 | every edge is parallel to itself |
| Edges.ParallelScenarios | src/geometry/edge.py:96-104 | parallel diagonals and parallel verticals are parallel; skewed ones are not |
| Edges.VerticalParallelToDiagonalAsWritten | src/geometry/edge.py:96-104 | a vertical edge is reported parallel to a 45-degree diagonal, which the corrected test rejects |
| Edges.CorrectedIsParallelToIffCross | src/geometry/edge.py:96-104 | for edges of non-zero length, the corrected test holds exactly when the direction vectors have cross product 0 |
| Edges.CorrectedIsParallelToSymmetric | src/geometry/edge.py:96-104 | the corrected test is symmetric |
| Edges.RoundHalfEven | src/geometry/edge.py:111 | `round` is within 0.5 of its argument and takes the even neighbour on a tie |
| Edges.Interpolate | src/geometry/edge.py:106-111 | t = 0 gives the start and t = 1 the end, and t in [0, 1] gives a value between the two |
| Edges.InterpolationInRange | src/geometry/edge.py:106-111 | start + (end - start) * t lies between start and end for t in [0, 1] |
| Edges.SampleInBox | src/geometry/edge.py:120-124 | the last sample is the termination, and every sample lies in the bounding box of the edge |
| Edges.IntermediaryPoints | src/geometry/edge.py:113-126 | the list holds the origin first and the termination last, with the `steps` samples (the diagonal distance by default) in order between them |
| Edges.StepCount | src/geometry/edge.py:117-118 | the given step count, or else the diagonal distance, which covers both extents and is 0 only for a single-point edge |
| Edges.Sample | src/geometry/edge.py:120-124 | the point interpolated at step/steps: the origin at step 0, the termination at the last step |
| SearchMaps.Value | src/map/searchmap/searchmap.py:16 | the integer of n flags is below 2^n |
| SearchMaps.ValueBitsOf | src/map/searchmap/searchmap.py:13-16 | an integer below 2^n survives conversion to n flags and back |
| SearchMaps.BitsOfValue | src/map/searchmap/searchmap.py:13-16 | n flags survive conversion to their integer and back |
| SearchMaps.BitOfValue | src/map/searchmap/searchmap.py:16 | bit i of the integer is set exactly when flag i exists and is set |
| SearchMaps.ValueSetBit | src/map/searchmap/searchmap.py:45-50 | setting flag i ORs 2^i into the integer |
| SearchMaps.RevealBits | src/map/searchmap/searchmap.py:45-50 | after ORing in 2^i, bit j is set exactly when it was set before or j = i |
| SearchMaps.RevealIdempotent | src/map/searchmap/searchmap.py:45-50 | revealing the same cell twice is revealing it once |
| SearchMaps.RevealMonotone | src/map/searchmap/searchmap.py:45-50 | revealing never decreases the map and never clears a bit |
| SearchMaps.OrPow2 | src/map/searchmap/searchmap.py:47-50 | `v \| 2**i` lies between v and v + 2**i, and equals v exactly when bit i is already set |
| SearchMaps.CellAtIndex | src/geometry/point.py:45-47 | the cell recovered from an in-grid cell's storage index is that cell |
| SearchMaps.IndexCellAt | src/geometry/point.py:45-47 | every storage index below width*height belongs to an in-grid cell whose index it is |
| SearchMaps.ToBinary | src/map/searchmap/searchmap.py:39 | `bin(v)[2:]` is non-empty and begins with 1 for a positive value |
| SearchMaps.ToBinaryLength | src/map/searchmap/searchmap.py:39-40 | a value below 2^k has at most k binary digits |
| SearchMaps.RJust | src/map/searchmap/searchmap.py:40 | `rjust(n, "0")` has length max(|s|, n) |
| SearchMaps.RJustPads | src/map/searchmap/searchmap.py:40 | the padded text ends with s and is '0' before it |
| SearchMaps.RJustAppend | src/map/searchmap/searchmap.py:40 | right-justifying with one more character appended equals right-justifying one narrower and then appending |
| SearchMaps.MsbFirstAt | src/map/searchmap/searchmap.py:37-40 | character k of the most-significant-first text is the digit of flag n-1-k |
| SearchMaps.AsStrOf | src/map/searchmap/searchmap.py:37-40 | the padded text is at least as long as the number of flags |
| SearchMaps.AsStrMsbFirst | src/map/searchmap/searchmap.py:37-40 | for at least one flag, the padded binary text is exactly the flags, most significant first |
| SearchMaps.AsStrLowBit | src/map/searchmap/searchmap.py:37-40 | adding a low bit below at least one more bit appends its digit to the padded text of the higher bits |
| SearchMaps.LinesNext | src/map/searchmap/searchmap.py:30-33 | one pass of the row loop appends `input[row*width:row*width + width]` (Python slice, clamped) and a newline |
| SearchMaps.Lines | src/map/searchmap/searchmap.py:30-33 | the text the row loop accumulates; its contract is carried by LinesNext, LinesLength, LinesPrefix and LinesAt |
| SearchMaps.LinesLength | src/map/searchmap/searchmap.py:30-33 | `rows` rows of `width` characters plus newlines make (width+1)*rows characters |
| SearchMaps.LinesPrefix | src/map/searchmap/searchmap.py:30-33 | the text after fewer rows is a prefix of the text after more |
| SearchMaps.LastLineAt | src/map/searchmap/searchmap.py:30-33 | column x of the newest line is input character width*y + x, or the newline at x = width |
| SearchMaps.LinesAt | src/map/searchmap/searchmap.py:30-33 | in row y, column `width` is a newline and column x < width is input character width*y+x |
| SearchMaps.RenderCell | src/map/searchmap/searchmap.py:25-40 | character (width+1)*y + x of the rendered map is the digit of cell (x, y)'s flag |
| SearchMaps.Render | src/map/searchmap/searchmap.py:25-35 | `__str__` of the flags: for a full grid, (width+1)*height characters |
| SearchMaps.RenderNewline | src/map/searchmap/searchmap.py:25-35 | every row of the rendered map ends in a newline |
| SearchMaps.SearchMap.constructor | src/map/searchmap/searchmap.py:8-19 | the new map has the given size and radius, one flag per cell, and the integer value given |
| SearchMaps.SearchMap.NBits | src/map/searchmap/searchmap.py:21-23 | `n_bits` is the number of flags |
| SearchMaps.SearchMap.MapValue | src/map/searchmap/searchmap.py:16 | the map's integer fits in `n_bits` bits |
| SearchMaps.SearchMap.AsStr | src/map/searchmap/searchmap.py:37-40 | `__as_str` is at least `n_bits` long and, for a non-empty grid, lists the flags most significant first |
| SearchMaps.SearchMap.InSearchRadius | src/map/searchmap/searchmap.py:66-81 | the cells the scan keeps: inside the clamped window and within the radius, hence inside the grid |
| SearchMaps.SearchMap.CentreInSearchRadius | src/map/searchmap/searchmap.py:52-57 | with a positive radius, the scan around an in-grid centre keeps the centre, so `reveal_radius` reveals it |
| SearchMaps.SearchMap.NoRadiusKeepsNothing | src/map/searchmap/searchmap.py:66-81 | with a radius of 0 or less no cell is kept, not even the centre: the window [c, c) is empty |
| SearchMaps.SearchMap.Reveal | src/map/searchmap/searchmap.py:45-50 | exactly the flag at the cell's storage index becomes set and the others keep their values; the new integer has exactly the bits of the old one and of the cell's `binary_grid_value`, i.e. it is `map \| value` |
| SearchMaps.SearchMap.GetPointsInSearchRadius | src/map/searchmap/searchmap.py:59-84 | the result holds exactly the window's cells within the radius, each once, x-major then ascending y, all in the grid |
| SearchMaps.SearchMap.RevealRadius | src/map/searchmap/searchmap.py:52-57 | afterwards a flag is set exactly when it was set before or its cell is in the search radius; no other flag changes |
| SearchMaps.SearchMap.ToString | src/map/searchmap/searchmap.py:25-35 | the text is the rendered grid, one line per row, of (width+1)*height characters |
| Bytes.FromBytesLE | src/map/bitmap/bitmap.py:24 | little-endian decoding of n bytes is below 256^n, and its low byte is the first byte |
| Bytes.FromToBytesLE | src/map/bitmap/bitmap.py:24 | a value below 256^n survives encoding to n bytes and decoding |
| Bytes.ToFromBytesLE | src/map/bitmap/bitmap.py:24 | n bytes survive decoding and encoding back to n bytes |
| Bytes.SmallFields | src/map/bitmap/colour_table.py:11-24 | one byte decodes to itself, two bytes to b0 + 256*b1, and at most two bytes stay below 65536 |
| Bytes.FromBytesLE4 | src/map/bitmap/bitmap.py:72-80 | four bytes decode to b0 + 2^8 b1 + 2^16 b2 + 2^24 b3 |
| ColourTables.Channel | src/map/bitmap/colour_table.py:11-24 | a channel is the byte at its index, or 0 when the entry is shorter |
| ColourTables.Red | src/map/bitmap/colour_table.py:11-14 | red is the third byte, or 0 |
| ColourTables.Green | src/map/bitmap/colour_table.py:16-19 | green is the second byte, or 0 |
| ColourTables.Blue | src/map/bitmap/colour_table.py:21-24 | blue is the first byte, or 0 |
| ColourTables.Rgb | src/map/bitmap/colour_table.py:26-31 | the channels in red, green, blue order, which is the reverse of the byte order |
| ColourTables.IsWhite | src/map/bitmap/colour_table.py:33-37 | an entry that is white is four bytes with the channels (255, 255, 255) |
| ColourTables.IsBlack | src/map/bitmap/colour_table.py:39-43 | an entry that is black is four bytes with the channels (0, 0, 0) |
| ColourTables.WhiteIsNotBlack | src/map/bitmap/colour_table.py:33-43 | no entry is both white and black |
| ColourTables.ChannelsDoNotGiveExactBytes | src/map/bitmap/colour_table.py:36-42 | the converse of the byte tests fails: ff ff ff 07 has white channels but is not white, and the empty entry has black channels but is not black |
| Common.Slice | src/map/bitmap/bitmap.py:47-49 | a slice clamps its bounds to the sequence and holds the elements between them |
| Common.Index | src/map/bitmap/monochrome_bitmap.py:18 | an index succeeds exactly in [-len, len), and a negative index counts from the end |
| Bitmaps.BmpHeader | src/map/bitmap/bitmap.py:16-19 | the header is the first 14 bytes, or the whole of a shorter file |
| Bitmaps.DecodeUtf8 | src/map/bitmap/bitmap.py:61-65 | ASCII bytes decode to the same characters, and any decoded text is at most as long as its bytes |
| Bitmaps.DecodeEncodeUtf8 | src/map/bitmap/bitmap.py:61-65 | text of at most two encoded bytes decodes back to itself |
| Bitmaps.EncodeDecodeUtf8 | src/map/bitmap/bitmap.py:61-65 | bytes that decode are the encoding of what they decode to |
| Bitmaps.FileHeader | src/map/bitmap/bitmap.py:61-65 | the header text is the strict UTF-8 decoding of the first two bytes (fewer in a shorter file), None where decoding raises; a file starting 42 4D gives "BM" |
| Bitmaps.FileSizeInBytes | src/map/bitmap/bitmap.py:67-70 | the size is bytes 2 and 3, little-endian, below 65536 |
| Bitmaps.ImageDataOffset | src/map/bitmap/bitmap.py:21-24 | the offset is bytes 10..14 little-endian, or the last bytes of a file shorter than 14 |
| Bitmaps.DibHeaderSizeBytes | src/map/bitmap/bitmap.py:26-29 | the DIB header size is bytes 14..18 little-endian, and 0 for a file of at most 14 bytes |
| Bitmaps.DibHeader | src/map/bitmap/bitmap.py:31-34 | the DIB header is the file from byte 14 for its stated size, cut short by the end of the file, and empty for a file of at most 14 bytes |
| Bitmaps.DibField | src/map/bitmap/bitmap.py:72-90 | a field at lo..hi of the DIB header is file bytes 14+lo..14+hi when the header holds them, and 0 when the header or the file ends at or before lo |
| Bitmaps.ImageWidthPx | src/map/bitmap/bitmap.py:72-75 | the width is file bytes 18..22 little-endian, and 0 when the header or the file ends before them |
| Bitmaps.ImageHeightPx | src/map/bitmap/bitmap.py:77-80 | the height is file bytes 22..26 little-endian, and 0 when the header or the file ends before them |
| Bitmaps.BitsPerPixel | src/map/bitmap/bitmap.py:82-85 | the bit count is file bytes 28 and 29, below 65536, and 0 when the header or the file ends before them |
| Bitmaps.NColoursInPalette | src/map/bitmap/bitmap.py:87-90 | the colour count is file bytes 46..50 little-endian, and 0 when the header or the file ends before them |
| Bitmaps.ColourTableBytes | src/map/bitmap/bitmap.py:47-49 | the table bytes lie between the end of the DIB header and the pixel data, and are empty when the offset does not exceed it |
| Bitmaps.Entry | src/map/bitmap/bitmap.py:56 | entry i is the four table bytes at 4i, is never longer than four, and is empty past the end of the table |
| Bitmaps.ColourTableOf | src/map/bitmap/bitmap.py:40-59 | the table has one entry per palette colour, and entry i is the four bytes at 4i of the table bytes |
| Bitmaps.ColourTable | src/map/bitmap/bitmap.py:40-59 | the loop builds the table `ColourTableOf` describes |
| Bitmaps.MonochromeLayout | src/tests/bitmap/test_bitmap.py:11-21 | a 321 x 240 one-bit file laid out like the test image reads "BM", 2 colours, black first and white second |
| Bitmaps.CoreHeaderReadsNoPalette | src/map/bitmap/bitmap.py:82-90 | with a 12-byte BITMAPCOREHEADER the bit count and colour count read 0 and the colour table is empty |
| MonochromeBitmaps.PixelMask | src/map/bitmap/monochrome_bitmap.py:12-15 | the mask has the single bit 7 - x%8 set |
| MonochromeBitmaps.PixelBit | src/map/bitmap/monochrome_bitmap.py:20-24 | the bit `1 if byte & mask else 0` is 0 or 1 and equals `(byte & mask) >> (7 - x%8)`, the commented-out formula |
| MonochromeBitmaps.PixelMaskPow2 | src/map/bitmap/monochrome_bitmap.py:12-15 | the mask is 2^(7 - x%8) |
| MonochromeBitmaps.FirstPixelIsHighBit | src/map/bitmap/monochrome_bitmap.py:12-24 | the first pixel of a byte is set exactly when the byte is at least 128 |
| MonochromeBitmaps.PixelsRepeatEveryByte | src/map/bitmap/monochrome_bitmap.py:12-24 | pixel x+8 reads the next byte with the same mask |
| MonochromeBitmaps.QueryPixelColour | src/map/bitmap/monochrome_bitmap.py:8-27 | the colour is the table entry the pixel's bit selects (entry 0 or 1); None when the row or the byte index is out of range, when the table is empty, or when a one-entry table meets bit 1 |
| MonochromeBitmaps.NegativeRowWraps | src/map/bitmap/monochrome_bitmap.py:18 | a negative row index reads the row counted from the end |
| MonochromeBitmaps.NegativeByteWraps | src/map/bitmap/monochrome_bitmap.py:12-18 | a negative byte index x // 8 reads byte |row| + x // 8 of the row, at the usual bit position |
| LegacyPoints.SearchMin | point.py:13-16 | `max(0, ceil(c - 4.5))` is max(0, c - 4) |
| LegacyPoints.SearchMax | point.py:18-21 | `min(16, floor(c + 4.5))` is min(16, c + 4) |
| LegacyPoints.SearchMinX | point.py:13-16 | the lower x bound is max(0, x - 4) |
| LegacyPoints.SearchMaxX | point.py:18-21 | the upper x bound is min(16, x + 4) |
| LegacyPoints.SearchMinY | point.py:23-26 | the lower y bound is max(0, y - 4) |
| LegacyPoints.SearchMaxY | point.py:28-31 | the upper y bound is min(16, y + 4) |
| LegacyPoints.InverseCoordinate | point.py:33-35 | the inverse is c + 15 |
| LegacyPoints.InverseY | point.py:37-39 | the inverse of y is y + 15 |
| LegacyPoints.InverseCoordinateNotInvolution | point.py:33-35 | applying the inverse twice adds 30, so it is never its own inverse and sends every map cell to 15 or beyond |
| LegacyPoints.CorrectedInverseCoordinate | point.py:33-35 | the reflection adds with c to 15 and keeps a map coordinate in the map |
| LegacyPoints.CorrectedInverseCoordinateInvolution | point.py:33-35 | the reflection applied twice gives the coordinate back |
| LegacyPoints.WithinSearchRad | point.py:41-45 | the cell itself is always within the radius |
| LegacyPoints.WithinSearchRadIsDistanceTest | point.py:41-45 | for d the non-negative root of dx*dx + dy*dy, i.e. `distance_to`, the test holds exactly when d <= 4.5 |
| LegacyPoints.WithinSearchRadSymmetric | point.py:41-45 | the distance is the same measured from either point |
| LegacyPoints.WithinSearchRadSquared | point.py:41-45 | distance at most 4.5 is squared distance at most 20 |
| LegacyPoints.GetPointsInSearchRadius | point.py:47-56 | the result holds exactly the window's cells within 4.5, each once, x-major then ascending y, all inside the 16 x 16 map |
| LegacyPoints.WindowMissesFourthCell | point.py:18-21 | the cell 4 to the right of the centre is within the radius but outside the window, while the cell 4 to the left is inside |
| LegacyPoints.CorrectedSearchMax | point.py:18-21 | the corrected upper bound is min(16, c + 5) |
| LegacyPoints.CorrectedWindowCovers | point.py:47-56 | every map cell within the radius lies in the corrected window |

## Left out

- File I/O is not modelled. `BitMap.__init__` reads the file, and the model takes its bytes as the parameter `raw`.
- The module-level demo at src/map/bitmap/bitmap.py:93-104 prints values and is not modelled.
- `get_pixel_array` is not part of the source files shown. `QueryPixelColour` takes the pixel rows as a parameter.
- `cached_property` only caches results. Every property is modelled as a function of the bytes or the fields.
- Floating point is replaced by exact reals. The search radius, `math.floor`/`math.ceil`, the gradient quotient and the interpolation are exact, so the model is blind to float rounding error.
- Distances are not computed. In the modelled operations, `math.hypot`/`math.sqrt` appear only in the `<=` radius tests, which become exact squared-integer comparisons. `distance_to`, `distance_to_origin`, `length` and `angle` (atan2) are not modelled as values.
- The `print` inside `gradient` (src/geometry/edge.py:58) is output only and is not modelled.
- `Point.scaled` and `__str__` are not modelled. `scaled` multiplies by a float and leaves integer points; `__str__` only formats.
- `SearchMaps.SearchMap.Reveal`: its precondition requires an in-grid cell. In Python, the index of an out-of-grid cell can name another cell's bit or a bit beyond `n_bits`. A negative index makes `2**index` a float, and then `|=` raises. None of these paths is modelled.
- `SearchMaps.SearchMap.constructor`: its precondition requires `map < 2^n_bits`. The Python class accepts any integer, but the bits beyond `n_bits` (and any negative map) cannot be stored in one flag per cell.
- `__max_search_val` is never called and is not modelled.
- `Bitmaps.ImageWidthPx` and `Bitmaps.ImageHeightPx` read the fields unsigned, as `int.from_bytes` does. A negative (top-down) BMP height is not interpreted, and neither is the source.
- `Bitmaps.DecodeUtf8` decodes at most two bytes, the most `file_header` ever decodes. UTF-8 sequences of three and four bytes cannot occur in it.
- src/map/searchmap.py (an older search map), src/geometry/polygon.py and src/map/game_map.py are not part of this model.
- `Edge.centre`, `y_intercept`, `__contains__`, `__eq__` and `points_are_collinear` appear in the tests but not in src/geometry/edge.py, so they are not modelled.
- `Point.orientation` (called at src/tests/test_point.py:55-57) is not defined in src/geometry/point.py; the orientation modelled is `Edge.orientation`.

## Findings

| source | as written | input that shows it | evidently intended | confidence | as-written member | corrected member |
|---|---|---|---|---|---|---|
| src/geometry/edge.py:78 | `if val > 1: return 1` treats val = 1 as collinear | points (1,1), (1,2), (2,2): val is 1, orientation is 0, and the reversed points give -1 | `val > 0`, the sign of val, antisymmetric under reversal | high; not executed | Edges.OrientationUnitTurnAsWritten | Edges.SignOrientation |
| src/geometry/edge.py:96-104 | a vertical edge gets gradient 1 and is compared with the other edge's gradient | (0,0)-(0,5) against (0,0)-(3,3): reported parallel | parallel exactly when the direction vectors have cross product 0 | high; not executed | Edges.VerticalParallelToDiagonalAsWritten | Edges.CorrectedIsParallelToIffCross |
| point.py:18-31 | `floor(c + 4.5)` used as an exclusive `range` bound | centre (8, 8): cell (12, 8) is 4 away, within 4.5, but x = 12 is never scanned; (4, 8) is | upper bound floor(c + 4.5) + 1, so the window is symmetric | high; not executed | LegacyPoints.WindowMissesFourthCell | LegacyPoints.CorrectedWindowCovers |
| src/geometry/point.py:56-58 | `ceil(c + r)` used as an exclusive `range` bound | centre x = 5, radius 2.0: the window is [3, 7), so cell 7 at distance exactly 2 is never scanned | upper bound floor(c + r) + 1, covering every cell within r | medium; not executed | Points.IntegralRadiusWindow | Points.CorrectedMaxSearchCovers |
| point.py:33-35 | `16 - (-1 * c) - 1` is c + 15 | c = 0 gives 15, and inverting 15 gives 30 instead of 0 | 16 - c - 1, a reflection within the map | medium; not executed | LegacyPoints.InverseCoordinateNotInvolution | LegacyPoints.CorrectedInverseCoordinateInvolution |
