/** The solid the reader builds from the surface vertices: four skirt blocks at
    the base plane, then triangles addressed purely by index arithmetic on the
    grid size and the block offsets. */
module Mesher {
  import opened Geometry

  /** `len(range(0, n))`: Python ranges with a non-positive bound are empty. */
  function Count(n: int): nat {
    if n > 0 then n else 0
  }

  /** `offset = ncols * nrows`: where the skirt starts, right after a full surface. */
  function Offset(ncols: int, nrows: int): int {
    ncols * nrows
  }

  /** Index of skirt vertex `x` of the top block. */
  function TopSkirtIndex(ncols: int, nrows: int, x: int): int {
    Offset(ncols, nrows) + x
  }

  /** Index of skirt vertex `y` of the right block (`start_right`). */
  function RightSkirtIndex(ncols: int, nrows: int, y: int): int {
    Offset(ncols, nrows) + ncols + y
  }

  /** Index of skirt vertex `x` of the bottom block (`offset_bottom`). */
  function BottomSkirtIndex(ncols: int, nrows: int, x: int): int {
    Offset(ncols, nrows) + ncols + nrows + x
  }

  /** Index of skirt vertex `y` of the left block (`start_left`). */
  function LeftSkirtIndex(ncols: int, nrows: int, y: int): int {
    Offset(ncols, nrows) + 2 * ncols + nrows + y
  }

  /** The four skirt blocks, appended in the order top, right, bottom, left, all
      at height `baseZ`. */
  function SkirtVertices(ncols: int, nrows: int, cellSize: int, baseZ: real): (vs: seq<Vertex>)
    ensures |vs| == 2 * Count(ncols) + 2 * Count(nrows)
    ensures forall k :: 0 <= k < |vs| ==> vs[k].z == baseZ
  {
    var top := seq(Count(ncols), x => Vertex((x * cellSize) as real, 0.0, baseZ));
    var right := seq(Count(nrows), y => Vertex(((ncols - 1) * cellSize) as real, (y * cellSize) as real, baseZ));
    var bottom := seq(Count(ncols), x => Vertex((x * cellSize) as real, ((nrows - 1) * cellSize) as real, baseZ));
    var left := seq(Count(nrows), y => Vertex(0.0, (y * cellSize) as real, baseZ));
    top + right + bottom + left
  }

  /** The vertex list the mesh is built from: the surface, then the skirt. */
  function MeshVertices(surface: seq<Vertex>, ncols: int, nrows: int, cellSize: int, baseZ: real): (vs: seq<Vertex>)
    ensures |vs| == |surface| + 2 * Count(ncols) + 2 * Count(nrows)
    ensures forall k :: 0 <= k < |vs| ==> if k < |surface| then vs[k] == surface[k] else vs[k].z == baseZ
  {
    surface + SkirtVertices(ncols, nrows, cellSize, baseZ)
  }

  /** With more surface vertices than `ncols * nrows`, the skirt still follows the
      last of them, so every index from `ncols * nrows` up to the end of the
      surface, where the faces expect the skirt, holds a surface vertex. */
  lemma LongSurfaceShadowsSkirt(surface: seq<Vertex>, ncols: nat, nrows: nat, cellSize: int, baseZ: real)
    requires |surface| > Offset(ncols, nrows)
    ensures var vs := MeshVertices(surface, ncols, nrows, cellSize, baseZ);
            && 0 <= TopSkirtIndex(ncols, nrows, 0) < |surface| <= |vs|
            && vs[TopSkirtIndex(ncols, nrows, 0)] == surface[Offset(ncols, nrows)]
            && (forall k :: Offset(ncols, nrows) <= k < |surface| ==> vs[k] == surface[k])
            && (forall k :: |surface| <= k < |vs| ==> vs[k].z == baseZ)
  {
    assert 0 <= Offset(ncols, nrows) by {
      MulMonotone(0, nrows, ncols);
    }
  }

  /** Skirt vertex count after a full surface. */
  function VertexCount(ncols: int, nrows: int): int {
    Offset(ncols, nrows) + 2 * ncols + 2 * nrows
  }

  /** After a full surface the skirt blocks start at their offsets, and each skirt
      vertex stands on the rectangle's border at the base plane. */
  lemma SkirtLayout(surface: seq<Vertex>, ncols: nat, nrows: nat, cellSize: int, baseZ: real)
    requires |surface| == Offset(ncols, nrows)
    ensures var vs := MeshVertices(surface, ncols, nrows, cellSize, baseZ);
            && |vs| == VertexCount(ncols, nrows)
            && vs[..|surface|] == surface
            && (forall x :: 0 <= x < ncols ==>
                  && vs[TopSkirtIndex(ncols, nrows, x)] == Vertex((x * cellSize) as real, 0.0, baseZ)
                  && vs[BottomSkirtIndex(ncols, nrows, x)]
                       == Vertex((x * cellSize) as real, ((nrows - 1) * cellSize) as real, baseZ))
            && (forall y :: 0 <= y < nrows ==>
                  && vs[RightSkirtIndex(ncols, nrows, y)]
                       == Vertex(((ncols - 1) * cellSize) as real, (y * cellSize) as real, baseZ)
                  && vs[LeftSkirtIndex(ncols, nrows, y)] == Vertex(0.0, (y * cellSize) as real, baseZ))
  {
    var vs := MeshVertices(surface, ncols, nrows, cellSize, baseZ);
    assert vs[..|surface|] == surface;
    forall x | 0 <= x < ncols
      ensures vs[TopSkirtIndex(ncols, nrows, x)] == Vertex((x * cellSize) as real, 0.0, baseZ)
      ensures vs[BottomSkirtIndex(ncols, nrows, x)]
                == Vertex((x * cellSize) as real, ((nrows - 1) * cellSize) as real, baseZ)
    {
      SkirtRowPoints(surface, ncols, nrows, cellSize, baseZ, x);
    }
    forall y | 0 <= y < nrows
      ensures vs[RightSkirtIndex(ncols, nrows, y)] == Vertex(((ncols - 1) * cellSize) as real, (y * cellSize) as real, baseZ)
      ensures vs[LeftSkirtIndex(ncols, nrows, y)] == Vertex(0.0, (y * cellSize) as real, baseZ)
    {
      SkirtColumnPoints(surface, ncols, nrows, cellSize, baseZ, y);
    }
  }

  /** Every top and bottom skirt vertex lies straight below the border surface
      vertex it is wired to: top skirt below the first row, bottom skirt below the
      last row. */
  lemma SkirtBelowRows(surface: seq<Vertex>, ncols: nat, nrows: nat, cellSize: int, baseZ: real)
    requires ncols >= 1 && nrows >= 1
    requires |surface| == Offset(ncols, nrows) && OnGrid(surface, ncols, nrows, cellSize)
    ensures var vs := MeshVertices(surface, ncols, nrows, cellSize, baseZ);
            && OnGrid(vs, ncols, nrows, cellSize)
            && forall x :: 0 <= x < ncols ==>
              && SamePlanarPosition(vs[GridIndex(ncols, x, 0)], vs[TopSkirtIndex(ncols, nrows, x)])
              && SamePlanarPosition(vs[GridIndex(ncols, x, nrows - 1)], vs[BottomSkirtIndex(ncols, nrows, x)])
  {
    OnGridExtends(surface, SkirtVertices(ncols, nrows, cellSize, baseZ), ncols, nrows, cellSize);
    var vs := MeshVertices(surface, ncols, nrows, cellSize, baseZ);
    forall x | 0 <= x < ncols
      ensures SamePlanarPosition(vs[GridIndex(ncols, x, 0)], vs[TopSkirtIndex(ncols, nrows, x)])
      ensures SamePlanarPosition(vs[GridIndex(ncols, x, nrows - 1)], vs[BottomSkirtIndex(ncols, nrows, x)])
    {
      SurfacePoint(surface, ncols, nrows, cellSize, baseZ, x, 0);
      SurfacePoint(surface, ncols, nrows, cellSize, baseZ, x, nrows - 1);
      SkirtRowPoints(surface, ncols, nrows, cellSize, baseZ, x);
    }
  }

  /** Every right and left skirt vertex lies straight below the border surface
      vertex it is wired to: right skirt below the last column, left skirt below
      the first column. */
  lemma SkirtBelowColumns(surface: seq<Vertex>, ncols: nat, nrows: nat, cellSize: int, baseZ: real)
    requires ncols >= 1 && nrows >= 1
    requires |surface| == Offset(ncols, nrows) && OnGrid(surface, ncols, nrows, cellSize)
    ensures var vs := MeshVertices(surface, ncols, nrows, cellSize, baseZ);
            && OnGrid(vs, ncols, nrows, cellSize)
            && forall y :: 0 <= y < nrows ==>
              && SamePlanarPosition(vs[GridIndex(ncols, ncols - 1, y)], vs[RightSkirtIndex(ncols, nrows, y)])
              && SamePlanarPosition(vs[GridIndex(ncols, 0, y)], vs[LeftSkirtIndex(ncols, nrows, y)])
  {
    OnGridExtends(surface, SkirtVertices(ncols, nrows, cellSize, baseZ), ncols, nrows, cellSize);
    var vs := MeshVertices(surface, ncols, nrows, cellSize, baseZ);
    forall y | 0 <= y < nrows
      ensures SamePlanarPosition(vs[GridIndex(ncols, ncols - 1, y)], vs[RightSkirtIndex(ncols, nrows, y)])
      ensures SamePlanarPosition(vs[GridIndex(ncols, 0, y)], vs[LeftSkirtIndex(ncols, nrows, y)])
    {
      SurfacePoint(surface, ncols, nrows, cellSize, baseZ, ncols - 1, y);
      SurfacePoint(surface, ncols, nrows, cellSize, baseZ, 0, y);
      SkirtColumnPoints(surface, ncols, nrows, cellSize, baseZ, y);
    }
  }

  lemma SkirtRowPoints(surface: seq<Vertex>, ncols: nat, nrows: nat, cellSize: int, baseZ: real, x: int)
    requires |surface| == Offset(ncols, nrows) && 0 <= x < ncols
    ensures var vs := MeshVertices(surface, ncols, nrows, cellSize, baseZ);
            && vs[TopSkirtIndex(ncols, nrows, x)] == Vertex((x * cellSize) as real, 0.0, baseZ)
            && vs[BottomSkirtIndex(ncols, nrows, x)]
                 == Vertex((x * cellSize) as real, ((nrows - 1) * cellSize) as real, baseZ)
  {
  }

  lemma SkirtColumnPoints(surface: seq<Vertex>, ncols: nat, nrows: nat, cellSize: int, baseZ: real, y: int)
    requires |surface| == Offset(ncols, nrows) && 0 <= y < nrows
    ensures var vs := MeshVertices(surface, ncols, nrows, cellSize, baseZ);
            && vs[RightSkirtIndex(ncols, nrows, y)]
                 == Vertex(((ncols - 1) * cellSize) as real, (y * cellSize) as real, baseZ)
            && vs[LeftSkirtIndex(ncols, nrows, y)] == Vertex(0.0, (y * cellSize) as real, baseZ)
  {
  }

  /** A surface point keeps its grid position in the full vertex list. */
  lemma SurfacePoint(surface: seq<Vertex>, ncols: nat, nrows: nat, cellSize: int, baseZ: real, x: int, y: int)
    requires |surface| == Offset(ncols, nrows) && OnGrid(surface, ncols, nrows, cellSize)
    requires 0 <= x < ncols && 0 <= y < nrows
    ensures var vs := MeshVertices(surface, ncols, nrows, cellSize, baseZ);
            && GridIndex(ncols, x, y) < Offset(ncols, nrows)
            && vs[GridIndex(ncols, x, y)].x == (x * cellSize) as real
            && vs[GridIndex(ncols, x, y)].y == (y * cellSize) as real
  {
    var i := GridIndex(ncols, x, y);
    assert i < |surface|;
  }

  // ---------------------------------------------------------------------------
  // Triangles, in the order the source appends them.

  /** The two top-surface triangles of the cell whose lower-left point is column
      `i` of row `j - 1` (`id_behind = (j - 1) * ncols`, `my_id = id_behind + i`). */
  function SurfaceCell(ncols: int, j: int, i: int): (ts: seq<Triangle>)
    ensures |ts| == 2
    ensures ts[0].a == ts[1].a && ts[0].c == ts[1].b
  {
    var myId := (j - 1) * ncols + i;
    [Triangle(myId, myId + 1, myId + 1 + ncols), Triangle(myId, myId + 1 + ncols, myId + ncols)]
  }

  /** The triangles of row `j` of the top surface, for `i` in `range(0, ncols - 1)`. */
  function SurfaceRow(ncols: int, j: int): (ts: seq<Triangle>)
    ensures |ts| == 2 * Count(ncols - 1)
  {
    var cells := seq(Count(ncols - 1), i => SurfaceCell(ncols, j, i));
    ConcatUniform(cells, 2);
    Concat(cells)
  }

  /** The top surface, for `j` in `range(1, nrows)`. */
  function SurfaceTriangles(ncols: int, nrows: int): (ts: seq<Triangle>)
    ensures |ts| == Count(nrows - 1) * (2 * Count(ncols - 1))
  {
    var rows := seq(Count(nrows - 1), r => SurfaceRow(ncols, r + 1));
    ConcatUniform(rows, 2 * Count(ncols - 1));
    Concat(rows)
  }

  /** The four wall triangles of step `i`: two on the first-row wall ("top wall"),
      two on the last-row wall ("bottom wall"). */
  function FrontBackStep(ncols: int, nrows: int, i: int): (ts: seq<Triangle>)
    ensures |ts| == 4
    ensures ts[0].b == ts[1].b && ts[0].c == ts[1].a
    ensures ts[2].b == ts[3].b && ts[2].a == ts[3].c
  {
    var offset := Offset(ncols, nrows);
    var offsetLastRow := offset - ncols;
    var offsetBottom := offset + ncols + nrows;
    [ Triangle(i, i + offset, i + 1),
      Triangle(i + 1, i + offset, i + offset + 1),
      Triangle(i + offsetLastRow + 1, i + offsetBottom, i + offsetLastRow),
      Triangle(i + offsetBottom + 1, i + offsetBottom, i + offsetLastRow + 1) ]
  }

  /** The first-row and last-row walls, for `i` in `range(0, ncols - 1)`. */
  function FrontBackWalls(ncols: int, nrows: int): (ts: seq<Triangle>)
    ensures |ts| == 4 * Count(ncols - 1)
  {
    var steps := seq(Count(ncols - 1), i => FrontBackStep(ncols, nrows, i));
    ConcatUniform(steps, 4);
    Concat(steps)
  }

  /** The four wall triangles of step `j`: two on the right wall, two on the left. */
  function SideStep(ncols: int, nrows: int, j: int): (ts: seq<Triangle>)
    ensures |ts| == 4
    ensures ts[0].a == ts[1].a && ts[0].c == ts[1].b
    ensures ts[2].a == ts[3].b && ts[2].c == ts[3].c
  {
    var startRight := Offset(ncols, nrows) + ncols;
    var startLeft := Offset(ncols, nrows) + ncols * 2 + nrows;
    [ Triangle(ncols * (j + 2) - 1, ncols * (j + 1) - 1, startRight + j),
      Triangle(ncols * (j + 2) - 1, startRight + j, startRight + j + 1),
      Triangle(startLeft + j, ncols * j, ncols * (j + 1)),
      Triangle(startLeft + j + 1, startLeft + j, ncols * (j + 1)) ]
  }

  /** The right and left walls, for `j` in `range(0, nrows - 1)`. */
  function SideWalls(ncols: int, nrows: int): (ts: seq<Triangle>)
    ensures |ts| == 4 * Count(nrows - 1)
  {
    var steps := seq(Count(nrows - 1), j => SideStep(ncols, nrows, j));
    ConcatUniform(steps, 4);
    Concat(steps)
  }

  /** The two base triangles over `p1 .. p4`. */
  function BaseQuad(ncols: int, nrows: int): (ts: seq<Triangle>)
    ensures |ts| == 2
    ensures ts[0].a == ts[1].a && ts[0].b == ts[1].c
  {
    var p1 := Offset(ncols, nrows);
    var p2 := p1 + ncols;
    var p3 := p2 + nrows;
    var p4 := p3 + ncols - 1;
    [Triangle(p3, p2, p1), Triangle(p3, p4, p2)]
  }

  /** `asc_mesh_triangles`: top surface, first/last-row walls, right/left walls, base. */
  function Triangles(ncols: int, nrows: int): (ts: seq<Triangle>)
    ensures |ts| == Count(nrows - 1) * (2 * Count(ncols - 1)) + 4 * Count(ncols - 1) + 4 * Count(nrows - 1) + 2
  {
    SurfaceTriangles(ncols, nrows) + FrontBackWalls(ncols, nrows) + SideWalls(ncols, nrows) + BaseQuad(ncols, nrows)
  }

  // ---------------------------------------------------------------------------
  // The index arithmetic in terms of the named vertex positions.

  /** A grid point of a full surface comes before the skirt. */
  lemma GridBelowOffset(ncols: nat, nrows: nat, x: int, y: int)
    requires 0 <= x < ncols && 0 <= y < nrows
    ensures 0 <= GridIndex(ncols, x, y) < Offset(ncols, nrows)
  {
    MulMonotone(y + 1, nrows, ncols);
  }

  /** Each surface cell is split along the diagonal from its lower-left point
      `(i, j - 1)` to its upper-right point `(i + 1, j)`, both halves using only
      the cell's four corners. */
  lemma SurfaceCellIsQuad(ncols: nat, j: int, i: int)
    requires 1 <= j && 0 <= i < ncols - 1
    ensures SurfaceCell(ncols, j, i)
              == [ Triangle(GridIndex(ncols, i, j - 1), GridIndex(ncols, i + 1, j - 1), GridIndex(ncols, i + 1, j)),
                   Triangle(GridIndex(ncols, i, j - 1), GridIndex(ncols, i + 1, j), GridIndex(ncols, i, j)) ]
  {
    MulSucc(j - 1, ncols);
  }

  /** Step `i` of the first/last-row walls stitches the surface edge from column
      `i` to `i + 1` of the first row to the top skirt below it, and the same edge
      of the last row to the bottom skirt below it. */
  lemma FrontBackStepIsQuads(ncols: nat, nrows: nat, i: int)
    requires nrows >= 1 && 0 <= i < ncols - 1
    ensures FrontBackStep(ncols, nrows, i)
              == [ Triangle(GridIndex(ncols, i, 0), TopSkirtIndex(ncols, nrows, i), GridIndex(ncols, i + 1, 0)),
                   Triangle(GridIndex(ncols, i + 1, 0), TopSkirtIndex(ncols, nrows, i), TopSkirtIndex(ncols, nrows, i + 1)),
                   Triangle(GridIndex(ncols, i + 1, nrows - 1), BottomSkirtIndex(ncols, nrows, i), GridIndex(ncols, i, nrows - 1)),
                   Triangle(BottomSkirtIndex(ncols, nrows, i + 1), BottomSkirtIndex(ncols, nrows, i),
                            GridIndex(ncols, i + 1, nrows - 1)) ]
  {
    MulSucc(nrows - 1, ncols);
  }

  /** Step `j` of the right/left walls stitches the surface edge from row `j` to
      `j + 1` of the last column to the right skirt, and the same edge of the
      first column to the left skirt. */
  lemma SideStepIsQuads(ncols: nat, nrows: nat, j: int)
    requires ncols >= 1 && 0 <= j < nrows - 1
    ensures SideStep(ncols, nrows, j)
              == [ Triangle(GridIndex(ncols, ncols - 1, j + 1), GridIndex(ncols, ncols - 1, j), RightSkirtIndex(ncols, nrows, j)),
                   Triangle(GridIndex(ncols, ncols - 1, j + 1), RightSkirtIndex(ncols, nrows, j), RightSkirtIndex(ncols, nrows, j + 1)),
                   Triangle(LeftSkirtIndex(ncols, nrows, j), GridIndex(ncols, 0, j), GridIndex(ncols, 0, j + 1)),
                   Triangle(LeftSkirtIndex(ncols, nrows, j + 1), LeftSkirtIndex(ncols, nrows, j), GridIndex(ncols, 0, j + 1)) ]
  {
    MulSucc(j + 1, ncols);
    MulSucc(j, ncols);
  }

  /** The base quad `p1 .. p4` is made of the skirt vertices at the four corners of
      the rectangle, all at the base plane: `p1` first of the top block, `p2` first
      of the right block, `p3` first of the bottom block, `p4` last of the bottom block. */
  lemma BaseQuadAtCorners(surface: seq<Vertex>, ncols: nat, nrows: nat, cellSize: int, baseZ: real)
    requires ncols >= 1 && nrows >= 1 && |surface| == Offset(ncols, nrows)
    ensures var p1 := TopSkirtIndex(ncols, nrows, 0);
            var p2 := RightSkirtIndex(ncols, nrows, 0);
            var p3 := BottomSkirtIndex(ncols, nrows, 0);
            var p4 := BottomSkirtIndex(ncols, nrows, ncols - 1);
            var vs := MeshVertices(surface, ncols, nrows, cellSize, baseZ);
            var right := ((ncols - 1) * cellSize) as real;
            var far := ((nrows - 1) * cellSize) as real;
            && BaseQuad(ncols, nrows) == [Triangle(p3, p2, p1), Triangle(p3, p4, p2)]
            && vs[p1] == Vertex(0.0, 0.0, baseZ)
            && vs[p2] == Vertex(right, 0.0, baseZ)
            && vs[p3] == Vertex(0.0, far, baseZ)
            && vs[p4] == Vertex(right, far, baseZ)
  {
    SkirtRowPoints(surface, ncols, nrows, cellSize, baseZ, 0);
    SkirtRowPoints(surface, ncols, nrows, cellSize, baseZ, ncols - 1);
    SkirtColumnPoints(surface, ncols, nrows, cellSize, baseZ, 0);
  }

  // ---------------------------------------------------------------------------
  // Counts, bounds and distinct corners.

  /** Triangle count: two per surface cell, four per step along each pair of
      opposite walls, two for the base. */
  lemma TriangleCount(ncols: nat, nrows: nat)
    requires ncols >= 1 && nrows >= 1
    ensures |Triangles(ncols, nrows)|
              == 2 * (nrows - 1) * (ncols - 1) + 4 * (ncols - 1) + 4 * (nrows - 1) + 2
  {
    assert Count(nrows - 1) == nrows - 1 && Count(ncols - 1) == ncols - 1;
    assert (nrows - 1) * (2 * (ncols - 1)) == 2 * (nrows - 1) * (ncols - 1);
  }

  /** The 2 x 2 grid gives 2 surface, 8 wall and 2 base triangles. */
  lemma TwoByTwoHasTwelveTriangles()
    ensures |Triangles(2, 2)| == 12
    ensures VertexCount(2, 2) == 12
  {
    TriangleCount(2, 2);
  }

  /** A triangle fit for a buffer of `n` vertices: indices in range, corners distinct. */
  predicate Proper(t: Triangle, n: int) {
    InBounds(t, n) && Distinct(t)
  }

  /** Every triangle of a grid of at least 2 x 2 points names three distinct
      vertices of the `nrows * ncols + 2 * ncols + 2 * nrows` the mesh holds. */
  lemma TrianglesProper(ncols: nat, nrows: nat)
    requires ncols >= 2 && nrows >= 2
    ensures forall k :: 0 <= k < |Triangles(ncols, nrows)| ==> Proper(Triangles(ncols, nrows)[k], VertexCount(ncols, nrows))
  {
    var n := VertexCount(ncols, nrows);
    SurfaceTrianglesProper(ncols, nrows);
    FrontBackWallsProper(ncols, nrows);
    SideWallsProper(ncols, nrows);
    BaseQuadProper(ncols, nrows);
    var s := SurfaceTriangles(ncols, nrows);
    var f := FrontBackWalls(ncols, nrows);
    var w := SideWalls(ncols, nrows);
    var b := BaseQuad(ncols, nrows);
    var all := Triangles(ncols, nrows);
    assert all == s + f + w + b;
    forall k | 0 <= k < |all|
      ensures Proper(all[k], n)
    {
      if k < |s| {
        assert all[k] == s[k];
      } else if k < |s| + |f| {
        assert all[k] == f[k - |s|];
      } else if k < |s| + |f| + |w| {
        assert all[k] == w[k - |s| - |f|];
      } else {
        assert all[k] == b[k - |s| - |f| - |w|];
      }
    }
  }

  /** The top surface only uses surface vertices. */
  lemma SurfaceTrianglesProper(ncols: nat, nrows: nat)
    requires ncols >= 2 && nrows >= 2
    ensures forall k :: 0 <= k < |SurfaceTriangles(ncols, nrows)| ==>
              Proper(SurfaceTriangles(ncols, nrows)[k], Offset(ncols, nrows))
  {
    var n := Offset(ncols, nrows);
    var P := t => Proper(t, n);
    var rows := seq(Count(nrows - 1), r => SurfaceRow(ncols, r + 1));
    forall r, x | 0 <= r < |rows| && 0 <= x < |rows[r]|
      ensures P(rows[r][x])
    {
      var cells := seq(Count(ncols - 1), i => SurfaceCell(ncols, r + 1, i));
      forall i, m | 0 <= i < |cells| && 0 <= m < |cells[i]|
        ensures P(cells[i][m])
      {
        SurfaceCellIsQuad(ncols, r + 1, i);
        GridBelowOffset(ncols, nrows, i, r);
        GridBelowOffset(ncols, nrows, i + 1, r);
        GridBelowOffset(ncols, nrows, i + 1, r + 1);
        GridBelowOffset(ncols, nrows, i, r + 1);
      }
      ConcatForall(cells, P);
    }
    ConcatForall(rows, P);
  }

  /** The first/last-row walls use indices below the vertex count, distinct within each triangle. */
  lemma FrontBackWallsProper(ncols: nat, nrows: nat)
    requires ncols >= 2 && nrows >= 2
    ensures forall k :: 0 <= k < |FrontBackWalls(ncols, nrows)| ==>
              Proper(FrontBackWalls(ncols, nrows)[k], VertexCount(ncols, nrows))
  {
    var n := VertexCount(ncols, nrows);
    var P := t => Proper(t, n);
    var steps := seq(Count(ncols - 1), i => FrontBackStep(ncols, nrows, i));
    forall i, m | 0 <= i < |steps| && 0 <= m < |steps[i]|
      ensures P(steps[i][m])
    {
      FrontBackStepIsQuads(ncols, nrows, i);
      GridBelowOffset(ncols, nrows, i, 0);
      GridBelowOffset(ncols, nrows, i + 1, 0);
      GridBelowOffset(ncols, nrows, i, nrows - 1);
      GridBelowOffset(ncols, nrows, i + 1, nrows - 1);
    }
    ConcatForall(steps, P);
  }

  /** The right/left walls use indices below the vertex count, distinct within each triangle. */
  lemma SideWallsProper(ncols: nat, nrows: nat)
    requires ncols >= 2 && nrows >= 2
    ensures forall k :: 0 <= k < |SideWalls(ncols, nrows)| ==>
              Proper(SideWalls(ncols, nrows)[k], VertexCount(ncols, nrows))
  {
    var n := VertexCount(ncols, nrows);
    var P := t => Proper(t, n);
    var steps := seq(Count(nrows - 1), j => SideStep(ncols, nrows, j));
    forall j, m | 0 <= j < |steps| && 0 <= m < |steps[j]|
      ensures P(steps[j][m])
    {
      SideStepIsQuads(ncols, nrows, j);
      GridBelowOffset(ncols, nrows, ncols - 1, j);
      GridBelowOffset(ncols, nrows, ncols - 1, j + 1);
      GridBelowOffset(ncols, nrows, 0, j);
      GridBelowOffset(ncols, nrows, 0, j + 1);
    }
    ConcatForall(steps, P);
  }

  /** The base quad uses skirt indices, distinct within each triangle. */
  lemma BaseQuadProper(ncols: nat, nrows: nat)
    requires ncols >= 2 && nrows >= 2
    ensures forall k :: 0 <= k < |BaseQuad(ncols, nrows)| ==> Proper(BaseQuad(ncols, nrows)[k], VertexCount(ncols, nrows))
  {
    assert Offset(ncols, nrows) >= 0;
  }

  /** A full surface of at least 2 x 2 points on the grid closes into a box: the
      vertex buffer holds surface and skirt, every face names three different
      vertices of it, and every skirt vertex stands right below the border point
      it is wired to. */
  lemma ClosedBox(surface: seq<Vertex>, ncols: nat, nrows: nat, cellSize: int, baseZ: real)
    requires ncols >= 2 && nrows >= 2
    requires |surface| == Offset(ncols, nrows) && OnGrid(surface, ncols, nrows, cellSize)
    ensures var vs := MeshVertices(surface, ncols, nrows, cellSize, baseZ);
            var ts := Triangles(ncols, nrows);
            && |vs| == VertexCount(ncols, nrows)
            && OnGrid(vs, ncols, nrows, cellSize)
            && |ts| == 2 * (nrows - 1) * (ncols - 1) + 4 * (ncols - 1) + 4 * (nrows - 1) + 2
            && (forall k :: 0 <= k < |ts| ==> Proper(ts[k], |vs|))
  {
    OnGridExtends(surface, SkirtVertices(ncols, nrows, cellSize, baseZ), ncols, nrows, cellSize);
    TriangleCount(ncols, nrows);
    TrianglesProper(ncols, nrows);
  }
}
