# ASCReader in Dafny

A model of the mesh reader for ESRI ASCII raster (`.asc`) elevation grids. The
reader reads a six-line header (`NCOLS`, `NROWS`, `XLLCENTER`, `YLLCENTER`,
`CELLSIZE`, `NODATA_VALUE`). It turns every accepted token of the data lines
into a surface vertex. It tracks the running maximum and minimum elevation and
derives a base plane from them. It then adds a "skirt" of vertices on that
plane below the border of the grid and stitches the surface, four walls and a
base into one triangle list. A last step expands an indexed mesh into the
per-face vertex buffers the host application draws.

The model works on the file as the sequence of lines `readline()` and the file
iterator would hand out, line breaks included. Python's `float()` and `int()`
are parameters (`string -> Option<real>`, `string -> Option<int>`), where
`None` is the `ValueError` they raise. Coordinates are exact reals.

Modules:

- `Wrappers`: the `Option` type.
- `Text`: `str.split` on one character.
- `Header`: `getHeaderField` and the header loop.
- `Elevation`: the `if`/`elif` extremes and the base plane.
- `Surface`: the sample loop.
- `Geometry`: vertices, faces and the row-major grid.
- `Mesher`: the skirt and the triangle index loops.
- `MeshData`: `_toMeshData`.
- `Reader`: the whole of `_read` up to building the mesh.

## Behaviour as written

Where the reader's documented behaviour and its code differ, the model follows
the code:

- **Running minimum.** It is updated in an `elif` of the maximum test, so a
  value that raises the maximum never lowers the minimum.
  - Readings 100 then 105 leave the minimum at its seed 10000000, and the base
    plane lands at 11999979.
  - In the order 105, 100 the base plane is 99.
  - `Elevation.OrderDecidesBase` and `Elevation.RisingReadingsKeepMinimumSeed`
    state this.
  - The minimum is only guaranteed to be at most the readings that did not
    raise the maximum when they arrived (`Elevation.MinimumBelowNonRaisingReadings`).
- **Unparseable tokens.** A token `float()` rejects is skipped: no vertex is
  added and the column does not advance. It is not replaced by 0.0.
- **No-data comparison.** The no-data value is compared verbatim with each
  token.
  - When the value is the last piece of the `NODATA_VALUE` line, it keeps that
    line's line break. Then only the last token of a data line can match it
    (`Surface.MidLineNoDataIsParsed`).
  - When the value is followed by a space (`NODATA_VALUE -9999 \n`), it has
    no line break. Then mid-line tokens can match it, but the last token of a
    data line that ends in a line break, which keeps that break, cannot.
- **Bare field name.** A header line that is exactly the field name, with
  nothing after it, makes `getHeaderField` raise `IndexError` instead of
  returning `None`.
- **Empty grid.** A grid with no parsed reading keeps both seeds, and its base
  plane lies at 12000000.
- **Sample count.** The reader never checks the number of samples against
  `NCOLS * NROWS`.
  - With fewer samples, a wall face indexes past the end of the vertex buffer
    (`Reader.ShortGridOverrunsBuffer`).
  - With more samples, the skirt is appended after the last sample, but the
    faces still address it from `NCOLS * NROWS` on. Each index from
    `NCOLS * NROWS` up to the last sample, the first top-skirt index among
    them, holds a surface sample instead of a skirt vertex
    (`Reader.LongGridShiftsSkirt`).

## Model

| member | source | states |
|---|---|---|
| Text.Split | ASCReader.py:50 | `split(" ")` always gives at least one piece. No piece contains the separator. Joining the pieces with the separator gives the line back. There is exactly one piece iff the line has no separator. |
| Text.SplitJoin | ASCReader.py:50 | Splitting a join of separator-free pieces gives back exactly those pieces, so split inverts join. |
| Text.SplitHeadIs | ASCReader.py:50-51 | For a name without the separator: the first piece equals the name iff the line is the name or starts with the name and a space. |
| Text.OnlyLastPieceKeepsLineBreak | ASCReader.py:98 | On a line whose only line break is its last character, every piece but the last is free of line breaks. |
| Header.GetHeaderField | ASCReader.py:48-54 | An `IndexError` only comes from a line that is the bare name. A returned value never contains a space. |
| Header.GetHeaderFieldMeaning | ASCReader.py:48-54 | For a space-free name: a value is returned iff the line starts with the name and a space. `IndexError` comes iff the line is the bare name. The value is the token right after that space, running to the next space or to the end of the line. |
| Header.ReadHeader | ASCReader.py:73-83 | The header is parsed iff all six lookups find a value. Then it maps exactly the six fields, each to its own line's value, and the file had at least six lines. Otherwise the outcome names the first failing field, as missing for `None` and as malformed for `IndexError`. |
| Header.ReadFrom | ASCReader.py:73-83 | From field `k` on, the loop ends parsed iff every remaining lookup finds a value. A missing or bare field it reports is one whose lookup came back absent or as an `IndexError`. |
| Header.StopsAtFirstFailure | ASCReader.py:73-80 | The loop stops at the first failure: lines after the first failing header line do not affect the outcome. |
| Header.ParsedNeedsSixLines | ASCReader.py:75 | The empty string `readline()` returns past the end never yields a value, so a complete header needs six lines. |
| Elevation.Step | ASCReader.py:107-110 | A value above the maximum replaces the maximum and leaves the minimum. Otherwise the maximum stays and the minimum drops to the value if it is lower. The maximum never decreases, and the minimum never increases. |
| Elevation.Fold | ASCReader.py:89-110 | After any readings, the maximum is at least its seed and every reading. The minimum is at most its seed. Each one is its seed or one of the readings. |
| Elevation.MinimumBelowNonRaisingReadings | ASCReader.py:107-110 | After any readings, the minimum is at most every reading that was not above the running maximum when it arrived. |
| Elevation.FoldAppend | ASCReader.py:95-118 | Carrying the extremes from one data line to the next is the same as one update over all readings in order. |
| Elevation.RisingReadingsKeepMinimumSeed | ASCReader.py:107-110 | Strictly rising positive readings never move the minimum off its seed. |
| Elevation.OrderDecidesBase | ASCReader.py:89-125 | Readings [100, 105] give extremes (105, 10000000) and base 11999979. Readings [105, 100] give (105, 100) and base 99. |
| Elevation.FlatAndEmptyGridBases | ASCReader.py:89-125 | All-zero readings give extremes (0, 0) and base 0. No readings give base 12000000. |
| Elevation.BaseZ | ASCReader.py:122-125 | When the minimum exceeds one fifth of the span (max - min), the base plane is the minimum less that fifth. Otherwise it is zero. So it is never negative, and for extremes with 0 <= min <= max it is never above the minimum. |
| Surface.ScanToken | ASCReader.py:99-117 | A no-data token appends a vertex at height 0 at the current column. A parsed token appends its vertex and updates the extremes. A rejected token changes nothing, the column counter included. |
| Surface.ScanLine | ASCReader.py:96-118 | Scanning one data line appends exactly that line's row of vertices: the k-th sample token sits at column k. The extremes continue from their values before the line over the line's readings. |
| Surface.ScanGrid | ASCReader.py:93-118 | The sample loop yields the rows of all data lines, one after another, row y at y * cellsize. The final extremes are the update over all readings of the file in order, from seeds 0 and 10000000. |
| Surface.TokenStep | ASCReader.py:98-117 | One more token adds a vertex at the next column iff it is a sample, and adds its value to the readings iff it is a parsed non-no-data token. |
| Surface.Readings | ASCReader.py:98-117 | A line has no more readings than samples, and no more samples than tokens. |
| Surface.SampleValueIsReading | ASCReader.py:99-110 | The value of every sample token other than no-data is one of the line's readings, so it reaches the running extremes. |
| Surface.RowVertices | ASCReader.py:96-117 | A line gives one vertex per sample token. Each vertex is at height zero or at one of the line's readings. |
| Surface.LineReadingsInGrid | ASCReader.py:95-118 | The readings of each data line are among the readings of the whole grid. |
| Surface.GridVertices | ASCReader.py:95-118 | Every surface vertex is at height zero (no-data) or at one of the grid's readings. |
| Surface.SurfaceBelowMaximum | ASCReader.py:89-118 | No surface vertex lies above the final running maximum. |
| Surface.NoDataIsZero | ASCReader.py:102-103 | A no-data token adds a vertex at height 0 and is not a reading. |
| Surface.SkippedTokenAddsNothing | ASCReader.py:111-112 | A token that is neither no-data nor parseable adds no vertex, no sample and no reading. |
| Surface.MidLineNoDataIsParsed | ASCReader.py:92-106 | With a no-data value that ends in the line break, no token before the last of a line equals it. Such tokens are samples exactly when `float()` accepts them. |
| Surface.RegularGridLayout | ASCReader.py:95-118 | When every data line has `ncols` samples, the surface is row-major. Vertex y * ncols + x sits at (x * cellsize, y * cellsize) with the elevation of line y's x-th sample. |
| Surface.RegularGridOnGrid | ASCReader.py:95-118 | Such a surface stands on the grid the mesher assumes. |
| Mesher.SkirtVertices | ASCReader.py:137-160 | The skirt holds one vertex per column for the top and bottom blocks and one per row for the right and left blocks, none for a non-positive count. Every skirt vertex is at the base plane. |
| Mesher.MeshVertices | ASCReader.py:133-160 | The vertex list is the surface unchanged, followed by two vertices per column and two per row, all at the base plane. |
| Mesher.LongSurfaceShadowsSkirt | ASCReader.py:133-160 | For a surface longer than `ncols * nrows`, every index from `ncols * nrows` to the end of the surface holds a surface vertex, and the skirt at the base plane follows it. |
| Mesher.SkirtLayout | ASCReader.py:137-160 | After a full surface, the surface is kept unchanged. The top, right, bottom and left blocks sit at their offsets, each vertex on the rectangle's border at base height. |
| Mesher.SkirtBelowRows | ASCReader.py:137-160 | After a full surface, each top-skirt vertex stands at the same ground position as the first-row surface vertex of its column, and each bottom-skirt vertex below the last-row vertex of its column. |
| Mesher.SkirtBelowColumns | ASCReader.py:137-160 | After a full surface, each right-skirt vertex stands at the same ground position as the last-column surface vertex of its row, and each left-skirt vertex below the first-column vertex of its row. |
| Mesher.SurfaceCellIsQuad | ASCReader.py:175-181 | The two faces of cell (i, j-1) use exactly its four corners and share the diagonal from (i, j-1) to (i+1, j). |
| Mesher.FrontBackStepIsQuads | ASCReader.py:170-194 | Wall step i joins the edge between columns i and i+1 of the first row to the top skirt, and the same edge of the last row to the bottom skirt. |
| Mesher.SideStepIsQuads | ASCReader.py:196-206 | Wall step j joins the edge between rows j and j+1 of the last column to the right skirt, and the same edge of the first column to the left skirt. |
| Mesher.BaseQuadAtCorners | ASCReader.py:209-216 | The base faces are [p3, p2, p1] and [p3, p4, p2], and p1 to p4 are the skirt vertices at the four corners of the rectangle at base height. |
| Mesher.SurfaceCell | ASCReader.py:175-181 | A surface cell gives two faces that share their first corner and the diagonal from it, so together they cover one quad. |
| Mesher.SurfaceRow | ASCReader.py:175-181 | One surface row gives two faces for each of the `ncols - 1` cells, none when there are fewer than two columns. |
| Mesher.SurfaceTriangles | ASCReader.py:169-181 | The surface gives `2 * (ncols - 1)` faces for each of the `nrows - 1` rows of cells, none when either count is below two. |
| Mesher.FrontBackStep | ASCReader.py:186-194 | One step gives four faces: two sharing an edge on the first-row wall and two sharing an edge on the last-row wall. |
| Mesher.FrontBackWalls | ASCReader.py:186-194 | The first-row and last-row walls give four faces for each of the `ncols - 1` steps. |
| Mesher.SideStep | ASCReader.py:196-206 | One step gives four faces: two sharing an edge on the right wall and two sharing an edge on the left wall. |
| Mesher.SideWalls | ASCReader.py:196-206 | The right and left walls give four faces for each of the `nrows - 1` steps. |
| Mesher.BaseQuad | ASCReader.py:209-216 | The base gives two faces that share their first corner and the diagonal from it. |
| Mesher.Triangles | ASCReader.py:169-216 | For any header counts, the face list has `2 * (nrows - 1) * (ncols - 1)` surface faces, `4 * (ncols - 1)` first/last-row wall faces, `4 * (nrows - 1)` side wall faces and 2 base faces, with every negative count read as zero. |
| Mesher.TriangleCount | ASCReader.py:169-216 | For at least one column and one row there are 2(nrows-1)(ncols-1) + 4(ncols-1) + 4(nrows-1) + 2 faces. |
| Mesher.TwoByTwoHasTwelveTriangles | ASCReader.py:169-216 | A 2 x 2 grid gives 12 vertices and 12 faces. |
| Mesher.SurfaceTrianglesProper | ASCReader.py:175-181 | Every top-surface face uses three different surface vertices. |
| Mesher.FrontBackWallsProper | ASCReader.py:186-194 | Every first/last-row wall face uses three different vertices within the vertex count. |
| Mesher.SideWallsProper | ASCReader.py:196-206 | Every right/left wall face uses three different vertices within the vertex count. |
| Mesher.BaseQuadProper | ASCReader.py:209-216 | Both base faces use three different vertices within the vertex count. |
| Mesher.TrianglesProper | ASCReader.py:169-216 | For a grid of at least 2 x 2, every face names three different indices below nrows * ncols + 2 ncols + 2 nrows. |
| Mesher.ClosedBox | ASCReader.py:133-216 | A full on-grid surface of at least 2 x 2 gives a buffer of exactly that many vertices, still on the grid, with every face proper for it. |
| MeshData.ToMeshData | ASCReader.py:266-284 | Face k becomes [3k, 3k+1, 3k+2], and each of its corners copies the vertex of the same corner of the input face. So the output draws exactly the input triangles, no vertex is shared between faces, and the face count is the number of faces. |
| Reader.Build | ASCReader.py:89-216 | A mesh results iff `CELLSIZE`, `NCOLS` and `NROWS` all convert. Otherwise the first failing conversion, in that order, is reported. The mesh is the surface followed by two skirt vertices per column and per row, all on a non-negative base plane. That plane is never above the tracked minimum whenever 0 <= minimum <= maximum. The faces are those for `NCOLS` x `NROWS`. |
| Reader.ReadFromLines | ASCReader.py:48-129 | In terms of the file's lines: a missing or bare field name is reported for the first header line whose lookup fails. A mesh results iff all six header lines carry their field and the `CELLSIZE`, `NCOLS` and `NROWS` values convert to integers. Otherwise the first of those three, in that order, that does not convert is reported. |
| Reader.DataLines | ASCReader.py:95 | The data lines are exactly the lines after the six header lines, in order. |
| Reader.FullGridGivesProperMesh | ASCReader.py:89-216 | When the data lines form exactly the announced grid of at least 2 x 2, the mesh has nrows * ncols + 2 ncols + 2 nrows vertices with the surface on the grid. The face count is as above, and every face names three different vertices of the buffer. |
| Reader.ShortGridOverrunsBuffer | ASCReader.py:95-206 | With fewer samples than `NCOLS * NROWS` and at least two rows, the last left-wall face indexes past the end of the vertex buffer. |
| Reader.LongGridShiftsSkirt | ASCReader.py:95-145 | With more samples than `NCOLS * NROWS`, every vertex from index `NCOLS * NROWS` (the first top-skirt index) up to the last sample is that surface sample. The skirt vertices at the base plane come only after the last sample. |
| Reader.ReadFile | ASCReader.py:73-216 | Running the reader with its sample loop gives exactly the outcome of `Reader.Read`. |
| Reader.BuildLoop | ASCReader.py:89-216 | Running the part after the header with the sample loop gives exactly the outcome of `Reader.Build`. |

## Left out

- File I/O: opening, `readline()`, iterating and closing the file are replaced by a sequence of lines. An `OSError` from `open` is not modelled.
- Logging, the MIME type registration, `os.path.basename`, and building the scene node with its decorators and the optional group node (lines 218-258). These are host-application calls with no effect on the mesh.
- `float()` and `int()`: parsing is a parameter, so what they accept (whitespace, signs, exponents, `inf`, `nan`) is not modelled.
- Floating point: coordinates and elevations are exact reals. The float32 and int32 conversions into numpy arrays are not modelled.
- trimesh's `merge_vertices`, `remove_unreferenced_vertices` and `fix_normals`, and Uranium's `calculateNormalsFromIndexedVertices`. These are library code. `MeshData.ToMeshData` is modelled on any indexed mesh whose face indices are valid, which trimesh's output guarantees.
- `elevation_factor` is the constant 1, so the skirt uses `cellsize` itself.
- `XLLCENTER` and `YLLCENTER` are read and stored but never used, so the model only checks that they are present.
- Face winding and manifoldness of the closed box are not proved. The model proves face counts, index bounds, distinct corners and the position of every skirt vertex.
- Header.GetHeaderField: its own contract only states the bare-name and no-space facts. The iff characterisation is in Header.GetHeaderFieldMeaning and holds only for names without spaces, which all six field names are.
- The header loop as a `for` loop with early return is modelled by the recursive `Header.ReadHeader` (one call per field, in order), not by a method with a loop.
