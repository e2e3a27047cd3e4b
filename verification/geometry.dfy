/** The buffers the reader hands to the mesh library: points in space and
    triangles given by three vertex indices. */
module Geometry {

  /** One mesh vertex `[x, y, z]`. Coordinates are exact reals; the float32
      rounding applied when the buffers become numpy arrays is not modelled. */
  datatype Vertex = Vertex(x: real, y: real, z: real)

  /** One face `[a, b, c]` of the triangle buffer, as vertex indices. */
  datatype Triangle = Triangle(a: int, b: int, c: int)

  /** Corner `m` (0, 1 or 2) of a face, the order in which the mesh code iterates it. */
  function Corner(t: Triangle, m: nat): int
    requires m < 3
  {
    if m == 0 then t.a else if m == 1 then t.b else t.c
  }

  /** All three corners name vertices of a buffer of length `n`. */
  predicate InBounds(t: Triangle, n: int) {
    0 <= t.a < n && 0 <= t.b < n && 0 <= t.c < n
  }

  /** The three corners are pairwise different vertex indices. */
  predicate Distinct(t: Triangle) {
    t.a != t.b && t.b != t.c && t.a != t.c
  }

  /** `t` only uses vertex indices from `s`. */
  predicate CornersIn(t: Triangle, s: set<int>) {
    t.a in s && t.b in s && t.c in s
  }

  /** Two vertices stand on the same point of the ground plane. */
  predicate SamePlanarPosition(p: Vertex, q: Vertex) {
    p.x == q.x && p.y == q.y
  }

  /** Index of grid point (column `x`, row `y`) in a row-major buffer of rows of
      `ncols` points. */
  function GridIndex(ncols: int, x: int, y: int): (i: int)
    requires 0 <= x < ncols && 0 <= y
    ensures y * ncols <= i < (y + 1) * ncols
  {
    y * ncols + x
  }

  lemma MulMonotone(a: int, b: int, n: int)
    requires a <= b && n >= 0
    ensures a * n <= b * n
  {
  }

  lemma MulSucc(a: int, n: int)
    ensures (a + 1) * n == a * n + n
  {
  }

  /** The first `nrows * ncols` vertices stand on the grid of spacing `cellSize`:
      point (x, y) sits at `(x * cellSize, y * cellSize)` in the plane. */
  predicate OnGrid(verts: seq<Vertex>, ncols: int, nrows: int, cellSize: int)
  {
    && 0 <= ncols && 0 <= nrows && |verts| >= nrows * ncols
    && forall x, y {:trigger GridIndex(ncols, x, y)} :: 0 <= x < ncols && 0 <= y < nrows ==>
         && GridIndex(ncols, x, y) < |verts|
         && verts[GridIndex(ncols, x, y)].x == (x * cellSize) as real
         && verts[GridIndex(ncols, x, y)].y == (y * cellSize) as real
  }

  /** Appending vertices after the grid leaves it in place. */
  lemma OnGridExtends(verts: seq<Vertex>, more: seq<Vertex>, ncols: int, nrows: int, cellSize: int)
    requires OnGrid(verts, ncols, nrows, cellSize)
    ensures OnGrid(verts + more, ncols, nrows, cellSize)
  {
    var all := verts + more;
    forall x, y | 0 <= x < ncols && 0 <= y < nrows
      ensures GridIndex(ncols, x, y) < |all| && all[GridIndex(ncols, x, y)] == verts[GridIndex(ncols, x, y)]
    {
    }
  }

  /** The blocks one after the other. */
  function Concat<T>(blocks: seq<seq<T>>): (r: seq<T>)
  {
    if |blocks| == 0 then []
    else Concat(blocks[..|blocks| - 1]) + blocks[|blocks| - 1]
  }

  /** Appending a block to the list appends it to the concatenation. */
  lemma ConcatSnoc<T>(blocks: seq<seq<T>>, b: seq<T>)
    ensures Concat(blocks + [b]) == Concat(blocks) + b
  {
    assert (blocks + [b])[..|blocks|] == blocks;
  }

  /** Blocks of equal length `width` laid end to end: element `x` of block `y`
      is at `GridIndex(width, x, y)`. */
  lemma {:induction false} ConcatUniform<T>(blocks: seq<seq<T>>, width: nat)
    requires forall y :: 0 <= y < |blocks| ==> |blocks[y]| == width
    ensures |Concat(blocks)| == |blocks| * width
    ensures forall x, y {:trigger GridIndex(width, x, y)} :: 0 <= x < width && 0 <= y < |blocks| ==>
              GridIndex(width, x, y) < |Concat(blocks)| && Concat(blocks)[GridIndex(width, x, y)] == blocks[y][x]
    decreases |blocks|
  {
    if |blocks| > 0 {
      var n := |blocks|;
      var pre := blocks[..n - 1];
      ConcatUniform(pre, width);
      MulSucc(n - 1, width);
      var c := Concat(blocks);
      assert c == Concat(pre) + blocks[n - 1];
      forall x, y | 0 <= x < width && 0 <= y < n
        ensures GridIndex(width, x, y) < |c| && c[GridIndex(width, x, y)] == blocks[y][x]
      {
        if y < n - 1 {
          MulMonotone(y + 1, n - 1, width);
          assert pre[y] == blocks[y];
        }
      }
    }
  }

  /** A property of every element of every block holds of every element of the
      concatenation. */
  lemma {:induction false} ConcatForall<T>(blocks: seq<seq<T>>, P: T -> bool)
    requires forall y, x :: 0 <= y < |blocks| && 0 <= x < |blocks[y]| ==> P(blocks[y][x])
    ensures forall k :: 0 <= k < |Concat(blocks)| ==> P(Concat(blocks)[k])
    decreases |blocks|
  {
    if |blocks| > 0 {
      var pre := blocks[..|blocks| - 1];
      assert forall y :: 0 <= y < |pre| ==> pre[y] == blocks[y];
      ConcatForall(pre, P);
    }
  }
}
