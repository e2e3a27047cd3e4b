/** `_read`: the header, the sample loop, the base plane, the skirt and the
    triangle list, put together in the order the reader runs them. */
module Reader {
  import opened Wrappers
  import opened Geometry
  import opened Header
  import opened Elevation
  import opened Surface
  import opened Mesher

  /** Python's `int()` on a header value, abstracted: `None` where it raises
      `ValueError`. */
  type ParseInt = string -> Option<int>

  /** What reading a file ends in. `Missing` is `_read` returning `None` for a
      header line without its field name; `Malformed` is the `IndexError` that
      escapes from `getHeaderField` for a bare field name; `NotInteger` is the
      `ValueError` that escapes from `int()` on `CELLSIZE`, `NCOLS` or `NROWS`;
      `Mesh` holds the vertex and face buffers handed to the mesh library. */
  datatype ReadOutcome =
    | Missing(field: Field)
    | Malformed(field: Field)
    | NotInteger(field: Field)
    | Mesh(vertices: seq<Vertex>, triangles: seq<Triangle>)

  /** The lines the sample loop iterates: the rest of the file after the six
      header lines. */
  function DataLines(lines: seq<string>): (data: seq<string>)
    requires |lines| >= |FieldOrder|
    ensures |data| + |FieldOrder| == |lines|
    ensures forall y :: 0 <= y < |data| ==> data[y] == lines[y + |FieldOrder|]
  {
    lines[|FieldOrder|..]
  }

  /** The whole of `_read` up to building the mesh: the header first, then the
      rest from the header's values. */
  function Read(lines: seq<string>, parseReal: ParseReal, parseInt: ParseInt): (r: ReadOutcome)
    ensures r.Missing? <==> ReadHeader(lines).MissingField?
    ensures r.Malformed? <==> ReadHeader(lines).MalformedField?
    ensures r.Missing? || r.Malformed? ==> r.field == ReadHeader(lines).field
    ensures !r.Missing? && !r.Malformed? ==>
              && ReadHeader(lines).Parsed?
              && |lines| >= |FieldOrder|
              && r == Build(DataLines(lines), ReadHeader(lines).fields, parseReal, parseInt)
  {
    match ReadHeader(lines)
    case MissingField(f) => Missing(f)
    case MalformedField(f) => Malformed(f)
    case Parsed(fields) => Build(DataLines(lines), fields, parseReal, parseInt)
  }

  /** What reading a file ends in, in terms of its lines alone: a missing or bare
      field name is reported for the first header line whose lookup fails; a mesh
      comes out exactly when all six header lines carry their field and the
      values of `CELLSIZE`, `NCOLS` and `NROWS` are integers; otherwise the first
      of those three in conversion order that is not an integer is reported. */
  lemma ReadFromLines(lines: seq<string>, parseReal: ParseReal, parseInt: ParseInt)
    ensures var r := Read(lines, parseReal, parseInt);
            var f := FirstFailure(Lookups(lines), 0);
            var header := forall k :: 0 <= k < |FieldOrder| ==> FieldLookup(lines, k).Found?;
            && (r.Missing? <==> f < |FieldOrder| && FieldLookup(lines, f).Absent?)
            && (r.Malformed? <==> f < |FieldOrder| && FieldLookup(lines, f).IndexError?)
            && (r.Missing? || r.Malformed? ==> r.field == FieldOrder[f])
            && (r.Mesh? <==> && header
                             && parseInt(FieldLookup(lines, 4).value).Some?
                             && parseInt(FieldLookup(lines, 0).value).Some?
                             && parseInt(FieldLookup(lines, 1).value).Some?)
            && (r.NotInteger? ==>
                  && header
                  && (|| (r.field == CellSize && parseInt(FieldLookup(lines, 4).value).None?)
                      || (r.field == NCols && parseInt(FieldLookup(lines, 4).value).Some?
                                           && parseInt(FieldLookup(lines, 0).value).None?)
                      || (r.field == NRows && parseInt(FieldLookup(lines, 4).value).Some?
                                           && parseInt(FieldLookup(lines, 0).value).Some?
                                           && parseInt(FieldLookup(lines, 1).value).None?)))
  {
    var h := ReadHeader(lines);
    if h.Parsed? {
      assert FieldOrder[0] == NCols && FieldOrder[1] == NRows && FieldOrder[4] == CellSize;
      assert h.fields[CellSize] == FieldLookup(lines, 4).value;
      assert h.fields[NCols] == FieldLookup(lines, 0).value;
      assert h.fields[NRows] == FieldLookup(lines, 1).value;
    }
  }

  /** Everything after the header. Integer conversions happen where the source
      performs them: `CELLSIZE` before the sample loop, `NCOLS` and `NROWS` after
      the base plane, so the first one that fails is the one reported. */
  function Build(data: seq<string>, fields: map<Field, string>, parseReal: ParseReal, parseInt: ParseInt)
    : (r: ReadOutcome)
    requires CellSize in fields && NCols in fields && NRows in fields && NoDataValue in fields
    ensures !r.Missing? && !r.Malformed?
    ensures r.NotInteger? ==>
              && (r.field == CellSize || r.field == NCols || r.field == NRows)
              && parseInt(fields[r.field]).None?
              && (r.field != CellSize ==> parseInt(fields[CellSize]).Some?)
              && (r.field == NRows ==> parseInt(fields[NCols]).Some?)
    ensures r.Mesh? <==> && parseInt(fields[CellSize]).Some?
                         && parseInt(fields[NCols]).Some?
                         && parseInt(fields[NRows]).Some?
    ensures r.Mesh? ==> MeshMatches(r, data, fields, parseReal, parseInt)
  {
    match parseInt(fields[CellSize])
    case None => NotInteger(CellSize)
    case Some(cellSize) =>
      var noData := fields[NoDataValue];
      var surface := GridVertices(data, cellSize, noData, parseReal);
      var baseZ := BaseZ(Fold(Seed, GridReadings(data, noData, parseReal)));
      match parseInt(fields[NCols])
      case None => NotInteger(NCols)
      case Some(ncols) =>
        match parseInt(fields[NRows])
        case None => NotInteger(NRows)
        case Some(nrows) =>
          MeshMatchesBuilt(data, fields, parseReal, parseInt, cellSize, ncols, nrows);
          Mesh(MeshVertices(surface, ncols, nrows, cellSize, baseZ), Triangles(ncols, nrows))
  }

  /** What a mesh read from `data` under header `fields` looks like: the surface
      vertices of the sample loop come first, unchanged; then two skirt vertices
      per column and per row, all on the base plane, which is never negative and,
      for readings between zero and the maximum, never above the minimum reading;
      the faces are the mesher's for `NCOLS` x `NROWS`. */
  predicate MeshMatches(r: ReadOutcome, data: seq<string>, fields: map<Field, string>,
                        parseReal: ParseReal, parseInt: ParseInt)
    requires CellSize in fields && NCols in fields && NRows in fields && NoDataValue in fields
    requires parseInt(fields[CellSize]).Some? && parseInt(fields[NCols]).Some? && parseInt(fields[NRows]).Some?
  {
    var cellSize := parseInt(fields[CellSize]).value;
    var ncols := parseInt(fields[NCols]).value;
    var nrows := parseInt(fields[NRows]).value;
    var surface := GridVertices(data, cellSize, fields[NoDataValue], parseReal);
    var bounds := Fold(Seed, GridReadings(data, fields[NoDataValue], parseReal));
    && r.Mesh?
    && |r.vertices| == |surface| + 2 * Count(ncols) + 2 * Count(nrows)
    && r.vertices[..|surface|] == surface
    && (forall k :: |surface| <= k < |r.vertices| ==> r.vertices[k].z == BaseZ(bounds))
    && BaseZ(bounds) >= 0.0
    && (0.0 <= bounds.lo <= bounds.hi ==> BaseZ(bounds) <= bounds.lo)
    && r.triangles == Triangles(ncols, nrows)
  }

  lemma MeshMatchesBuilt(data: seq<string>, fields: map<Field, string>, parseReal: ParseReal, parseInt: ParseInt,
                         cellSize: int, ncols: int, nrows: int)
    requires CellSize in fields && NCols in fields && NRows in fields && NoDataValue in fields
    requires parseInt(fields[CellSize]) == Some(cellSize)
    requires parseInt(fields[NCols]) == Some(ncols) && parseInt(fields[NRows]) == Some(nrows)
    ensures var surface := GridVertices(data, cellSize, fields[NoDataValue], parseReal);
            var baseZ := BaseZ(Fold(Seed, GridReadings(data, fields[NoDataValue], parseReal)));
            MeshMatches(Mesh(MeshVertices(surface, ncols, nrows, cellSize, baseZ), Triangles(ncols, nrows)),
                        data, fields, parseReal, parseInt)
  {
    var surface := GridVertices(data, cellSize, fields[NoDataValue], parseReal);
    var baseZ := BaseZ(Fold(Seed, GridReadings(data, fields[NoDataValue], parseReal)));
    var vs := MeshVertices(surface, ncols, nrows, cellSize, baseZ);
    assert vs[..|surface|] == surface;
    forall k | |surface| <= k < |vs|
      ensures vs[k].z == baseZ
    {
      assert vs[k] == SkirtVertices(ncols, nrows, cellSize, baseZ)[k - |surface|];
    }
  }

  /** A file whose data lines form exactly the `NCOLS` x `NROWS` grid of samples
      the header announces (at least 2 x 2) gives a closed-box mesh: the vertex
      buffer holds the surface grid and the skirt, and every face names three
      different vertices of that buffer. */
  lemma FullGridGivesProperMesh(data: seq<string>, fields: map<Field, string>, parseReal: ParseReal,
                                parseInt: ParseInt, cellSize: int, ncols: nat, nrows: nat)
    requires CellSize in fields && NCols in fields && NRows in fields && NoDataValue in fields
    requires parseInt(fields[CellSize]) == Some(cellSize)
    requires parseInt(fields[NCols]) == Some(ncols) && parseInt(fields[NRows]) == Some(nrows)
    requires ncols >= 2 && nrows >= 2
    requires |data| == nrows && RegularRows(data, ncols, fields[NoDataValue], parseReal)
    ensures var r := Build(data, fields, parseReal, parseInt);
            && r.Mesh?
            && |r.vertices| == VertexCount(ncols, nrows)
            && OnGrid(r.vertices, ncols, nrows, cellSize)
            && |r.triangles| == 2 * (nrows - 1) * (ncols - 1) + 4 * (ncols - 1) + 4 * (nrows - 1) + 2
            && (forall k :: 0 <= k < |r.triangles| ==> Proper(r.triangles[k], |r.vertices|))
  {
    var noData := fields[NoDataValue];
    var surface := GridVertices(data, cellSize, noData, parseReal);
    var baseZ := BaseZ(Fold(Seed, GridReadings(data, noData, parseReal)));
    assert Build(data, fields, parseReal, parseInt)
             == Mesh(MeshVertices(surface, ncols, nrows, cellSize, baseZ), Triangles(ncols, nrows));
    assert |surface| == Offset(ncols, nrows) by {
      RegularGridLayout(data, ncols, cellSize, noData, parseReal);
    }
    RegularGridOnGrid(data, ncols, cellSize, noData, parseReal);
    ClosedBox(surface, ncols, nrows, cellSize, baseZ);
  }

  /** The reader never checks the sample count against the header. With fewer
      samples than `NCOLS * NROWS` (and at least two rows) the last face of the
      left wall names the last left-skirt vertex by its index for a full grid,
      which lies past the end of the shorter vertex buffer. */
  lemma ShortGridOverrunsBuffer(data: seq<string>, fields: map<Field, string>, parseReal: ParseReal,
                                parseInt: ParseInt, cellSize: int, ncols: nat, nrows: nat)
    requires CellSize in fields && NCols in fields && NRows in fields && NoDataValue in fields
    requires parseInt(fields[CellSize]) == Some(cellSize)
    requires parseInt(fields[NCols]) == Some(ncols) && parseInt(fields[NRows]) == Some(nrows)
    requires nrows >= 2
    requires |GridVertices(data, cellSize, fields[NoDataValue], parseReal)| < ncols * nrows
    ensures var r := Build(data, fields, parseReal, parseInt);
            && r.Mesh? && |r.triangles| >= 3
            && !InBounds(r.triangles[|r.triangles| - 3], |r.vertices|)
  {
    var steps := seq(Count(nrows - 1), j => SideStep(ncols, nrows, j));
    var walls := SideWalls(ncols, nrows);
    assert walls == Concat(steps[..|steps| - 1]) + steps[|steps| - 1];
    assert walls[|walls| - 1] == SideStep(ncols, nrows, nrows - 2)[3];
    var all := Triangles(ncols, nrows);
    assert all == SurfaceTriangles(ncols, nrows) + FrontBackWalls(ncols, nrows) + walls + BaseQuad(ncols, nrows);
    assert all[|all| - 3] == walls[|walls| - 1];
  }

  /** With more samples than `NCOLS * NROWS`, the skirt still starts after the
      last sample, but the faces address it from `NCOLS * NROWS` on: every index
      from there up to the last sample, the first of them the first top-skirt
      index, lands on a surface sample instead of a skirt vertex. */
  lemma LongGridShiftsSkirt(data: seq<string>, fields: map<Field, string>, parseReal: ParseReal,
                            parseInt: ParseInt, cellSize: int, ncols: nat, nrows: nat)
    requires CellSize in fields && NCols in fields && NRows in fields && NoDataValue in fields
    requires parseInt(fields[CellSize]) == Some(cellSize)
    requires parseInt(fields[NCols]) == Some(ncols) && parseInt(fields[NRows]) == Some(nrows)
    requires |GridVertices(data, cellSize, fields[NoDataValue], parseReal)| > ncols * nrows
    ensures var r := Build(data, fields, parseReal, parseInt);
            var surface := GridVertices(data, cellSize, fields[NoDataValue], parseReal);
            var baseZ := BaseZ(Fold(Seed, GridReadings(data, fields[NoDataValue], parseReal)));
            && r.Mesh?
            && 0 <= TopSkirtIndex(ncols, nrows, 0) < |surface| <= |r.vertices|
            && r.vertices[TopSkirtIndex(ncols, nrows, 0)] == surface[Offset(ncols, nrows)]
            && (forall k :: Offset(ncols, nrows) <= k < |surface| ==> r.vertices[k] == surface[k])
            && (forall k :: |surface| <= k < |r.vertices| ==> r.vertices[k].z == baseZ)
  {
    var surface := GridVertices(data, cellSize, fields[NoDataValue], parseReal);
    var baseZ := BaseZ(Fold(Seed, GridReadings(data, fields[NoDataValue], parseReal)));
    assert Build(data, fields, parseReal, parseInt)
             == Mesh(MeshVertices(surface, ncols, nrows, cellSize, baseZ), Triangles(ncols, nrows));
    LongSurfaceShadowsSkirt(surface, ncols, nrows, cellSize, baseZ);
  }

  /** `_read` with its sample loop: the header, then the loop over the data lines
      with its running extremes, then the skirt and the faces. */
  method ReadFile(lines: seq<string>, parseReal: ParseReal, parseInt: ParseInt) returns (r: ReadOutcome)
    ensures r == Read(lines, parseReal, parseInt)
  {
    var h := ReadHeader(lines);
    if h.MissingField? {
      return Missing(h.field);
    } else if h.MalformedField? {
      return Malformed(h.field);
    }
    r := BuildLoop(DataLines(lines), h.fields, parseReal, parseInt);
  }

  /** The part of `_read` after the header, running the sample loop. */
  method BuildLoop(data: seq<string>, fields: map<Field, string>, parseReal: ParseReal, parseInt: ParseInt)
    returns (r: ReadOutcome)
    requires CellSize in fields && NCols in fields && NRows in fields && NoDataValue in fields
    ensures r == Build(data, fields, parseReal, parseInt)
  {
    var cellSizeValue := parseInt(fields[CellSize]);
    if cellSizeValue.None? {
      return NotInteger(CellSize);
    }
    var cellSize := cellSizeValue.value;
    var noData := fields[NoDataValue];
    var surface, maxElevation, minElevation := ScanGrid(data, cellSize, noData, parseReal);
    var baseZ := BaseZ(Bounds(maxElevation, minElevation));
    var ncolsValue := parseInt(fields[NCols]);
    if ncolsValue.None? {
      return NotInteger(NCols);
    }
    var nrowsValue := parseInt(fields[NRows]);
    if nrowsValue.None? {
      return NotInteger(NRows);
    }
    var ncols, nrows := ncolsValue.value, nrowsValue.value;
    r := Mesh(MeshVertices(surface, ncols, nrows, cellSize, baseZ), Triangles(ncols, nrows));
  }
}
