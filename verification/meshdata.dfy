/** `_toMeshData`: the conversion of an indexed mesh into the flat buffers the
    host application draws, where every face gets three vertices of its own. */
module MeshData {
  import opened Geometry

  /** Every face of `faces` names vertices of `vertices`. */
  predicate FacesIn(vertices: seq<Vertex>, faces: seq<Triangle>) {
    forall k :: 0 <= k < |faces| ==> InBounds(faces[k], |vertices|)
  }

  /** The face list of the expanded buffers: face `k` is `[3k, 3k + 1, 3k + 2]`. */
  function FlatFace(k: int): (t: Triangle)
    ensures Distinct(t)
    ensures forall m :: 0 <= m < 3 ==> Corner(t, m) == 3 * k + m
  {
    Triangle(3 * k, 3 * k + 1, 3 * k + 2)
  }

  /** The loop of `_toMeshData`: for each face in order, each of its three corners
      in order, the corner's vertex is copied out and given the next free index.
      The result draws exactly the input triangles, with no vertex shared between
      faces, and `faceCount` counts the faces. */
  method ToMeshData(vertices: seq<Vertex>, faces: seq<Triangle>)
    returns (outVertices: seq<Vertex>, indices: seq<Triangle>, faceCount: int)
    requires FacesIn(vertices, faces)
    ensures faceCount == |faces| == |indices|
    ensures |outVertices| == 3 * |faces|
    ensures forall k :: 0 <= k < |indices| ==> indices[k] == FlatFace(k)
    ensures forall k :: 0 <= k < |indices| ==>
              && InBounds(indices[k], |outVertices|)
              && forall m :: 0 <= m < 3 ==> outVertices[Corner(indices[k], m)] == vertices[Corner(faces[k], m)]
  {
    outVertices := [];
    indices := [];
    var indexCount := 0;
    faceCount := 0;
    while faceCount < |faces|
      invariant 0 <= faceCount <= |faces|
      invariant |indices| == faceCount && indexCount == 3 * faceCount == |outVertices|
      invariant forall k :: 0 <= k < faceCount ==> indices[k] == FlatFace(k)
      invariant forall k, m :: 0 <= k < faceCount && 0 <= m < 3 ==>
                  outVertices[3 * k + m] == vertices[Corner(faces[k], m)]
    {
      var triFace := faces[faceCount];
      var face: seq<int> := [];
      var m := 0;
      while m < 3
        invariant 0 <= m <= 3
        invariant |face| == m && indexCount == 3 * faceCount + m == |outVertices|
        invariant forall i :: 0 <= i < m ==> face[i] == 3 * faceCount + i
        invariant forall k, n :: 0 <= k < faceCount && 0 <= n < 3 ==>
                    outVertices[3 * k + n] == vertices[Corner(faces[k], n)]
        invariant forall n :: 0 <= n < m ==> outVertices[3 * faceCount + n] == vertices[Corner(triFace, n)]
      {
        outVertices := outVertices + [vertices[Corner(triFace, m)]];
        face := face + [indexCount];
        indexCount := indexCount + 1;
        m := m + 1;
      }
      indices := indices + [Triangle(face[0], face[1], face[2])];
      faceCount := faceCount + 1;
    }
    forall k, m | 0 <= k < |faces| && 0 <= m < 3
      ensures Corner(indices[k], m) == 3 * k + m
    {
    }
  }
}
