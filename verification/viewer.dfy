/** The OBJ loader of the viewer (main.cpp): every corner of every shape is
    expanded to a full vertex, and equal vertices are shared through a table
    keyed by the vertex value itself. */
module Viewer {
  import opened Obj
  import opened Dedup

  datatype Result<T> = Success(value: T) | Failure(message: string)

  /** What the loader keeps of a mesh: the unique vertices, one index per
      corner, and the index count used for drawing. The GL buffers the data is
      uploaded to are not part of this model. */
  datatype Model = Model(vertices: seq<Vertex>, indices: seq<nat>, indexCount: nat)

  /** Vertex equality as a bytewise comparison of the eight floats. */
  function SameBytes(a: Vertex, b: Vertex): (r: bool)
    ensures r <==> a == b
  {
    a.position.x == b.position.x && a.position.y == b.position.y && a.position.z == b.position.z &&
    a.normal.x == b.normal.x && a.normal.y == b.normal.y && a.normal.z == b.normal.z &&
    a.texcoord.u == b.texcoord.u && a.texcoord.v == b.texcoord.v
  }

  /** The vertex built for one corner: it starts zeroed, the position is
      always read, the normal and texture coordinate only when present. The
      texture coordinate is copied as is. */
  function CornerVertex(attrib: Attrib, index: Index): (v: Vertex)
    requires Readable(attrib, index)
    ensures v.position == PositionAt(attrib, index.vertexIndex)
    ensures index.normalIndex < 0 ==> v.normal == Vec3(Zero, Zero, Zero)
    ensures index.texcoordIndex < 0 ==> v.texcoord == Vec2(Zero, Zero)
    ensures index.normalIndex >= 0 ==> v.normal == NormalAt(attrib, index.normalIndex)
    ensures index.texcoordIndex >= 0 ==> v.texcoord == TexcoordAt(attrib, index.texcoordIndex)
  {
    var zeroed := Vertex(Vec3(Zero, Zero, Zero), Vec3(Zero, Zero, Zero), Vec2(Zero, Zero));
    var v0 := zeroed.(position := PositionAt(attrib, index.vertexIndex));
    var v1 := if index.normalIndex >= 0 then v0.(normal := NormalAt(attrib, index.normalIndex)) else v0;
    if index.texcoordIndex >= 0 then v1.(texcoord := TexcoordAt(attrib, index.texcoordIndex)) else v1
  }

  /** The vertex list `prefix` followed by the vertices of the first `n`
      corners of a list, in order. */
  function WithCorners(attrib: Attrib, prefix: seq<Vertex>, corners: seq<Index>, n: nat): (c: seq<Vertex>)
    requires n <= |corners|
    requires forall i :: 0 <= i < |corners| ==> Readable(attrib, corners[i])
    ensures |c| == |prefix| + n
  {
    if n == 0 then prefix else WithCorners(attrib, prefix, corners, n - 1) + [CornerVertex(attrib, corners[n - 1])]
  }

  /** The number of corners in the first `n` shapes. */
  function CornerCount(shapes: seq<Shape>, n: nat): nat
    requires n <= |shapes|
  {
    if n == 0 then 0 else CornerCount(shapes, n - 1) + |shapes[n - 1].mesh.indices|
  }

  /** The vertices of all corners of the first `n` shapes, shape after
      shape: one entry per corner, before any sharing. */
  function Corners(attrib: Attrib, shapes: seq<Shape>, n: nat): (c: seq<Vertex>)
    requires n <= |shapes| && AllReadable(attrib, shapes)
    ensures |c| == CornerCount(shapes, n)
  {
    if n == 0 then []
    else
      WithCorners(attrib, Corners(attrib, shapes, n - 1), shapes[n - 1].mesh.indices, |shapes[n - 1].mesh.indices|)
  }

  /** Entry |prefix| + i of the list is the vertex of corner i. */
  lemma {:induction false} WithCornersAt(attrib: Attrib, prefix: seq<Vertex>, corners: seq<Index>, n: nat, i: nat)
    requires n <= |corners| && i < n
    requires forall j :: 0 <= j < |corners| ==> Readable(attrib, corners[j])
    ensures WithCorners(attrib, prefix, corners, n)[|prefix| + i] == CornerVertex(attrib, corners[i])
  {
    if i < n - 1 {
      WithCornersAt(attrib, prefix, corners, n - 1, i);
    }
  }

  /** Adding corner vertices after `prefix` leaves `prefix` in place. */
  lemma {:induction false} WithCornersKeepsPrefix(attrib: Attrib, prefix: seq<Vertex>, corners: seq<Index>, n: nat)
    requires n <= |corners|
    requires forall j :: 0 <= j < |corners| ==> Readable(attrib, corners[j])
    ensures WithCorners(attrib, prefix, corners, n)[..|prefix|] == prefix
  {
    if n > 0 {
      WithCornersKeepsPrefix(attrib, prefix, corners, n - 1);
    }
  }

  /** Corner i of shape s sits at position CornerCount(shapes, s) + i of the
      corner list, which holds that corner's vertex. */
  lemma {:induction false} CornersAt(attrib: Attrib, shapes: seq<Shape>, n: nat, s: nat, i: nat)
    requires n <= |shapes| && AllReadable(attrib, shapes)
    requires s < n && i < |shapes[s].mesh.indices|
    ensures CornerCount(shapes, s) + i < CornerCount(shapes, n)
    ensures Corners(attrib, shapes, n)[CornerCount(shapes, s) + i] == CornerVertex(attrib, shapes[s].mesh.indices[i])
  {
    var prev := Corners(attrib, shapes, n - 1);
    var corners := shapes[n - 1].mesh.indices;
    if s == n - 1 {
      WithCornersAt(attrib, prev, corners, |corners|, i);
    } else {
      CornersAt(attrib, shapes, n - 1, s, i);
      WithCornersKeepsPrefix(attrib, prev, corners, |corners|);
      var k := CornerCount(shapes, s) + i;
      assert Corners(attrib, shapes, n)[..|prev|][k] == prev[k];
    }
  }

  /** For the lists LoadObjModel builds, the index of corner i of shape s
      names a vertex equal to that corner's vertex. */
  lemma IndexedCornerVertex(attrib: Attrib, shapes: seq<Shape>, vertices: seq<Vertex>, indices: seq<nat>, s: nat, i: nat)
    requires AllReadable(attrib, shapes)
    requires IndexesInto(vertices, Corners(attrib, shapes, |shapes|), indices)
    requires s < |shapes| && i < |shapes[s].mesh.indices|
    ensures CornerCount(shapes, s) + i < |indices|
    ensures indices[CornerCount(shapes, s) + i] < |vertices|
    ensures vertices[indices[CornerCount(shapes, s) + i]] == CornerVertex(attrib, shapes[s].mesh.indices[i])
  {
    CornersAt(attrib, shapes, |shapes|, s, i);
  }

  /** Loads a parsed OBJ file. A failed parse is reported with the parser's
      warning and error text and builds nothing. Otherwise the vertices are
      the distinct corner vertices in first-seen order, there is one index
      per corner, each naming the vertex of its corner, and the index count
      is the number of indices. */
  method LoadObjModel(parse: ParseOutcome) returns (r: Result<Model>)
    requires parse.Parsed? ==> AllReadable(parse.attrib, parse.shapes)
    ensures parse.ParseFailed? <==> r.Failure?
    ensures parse.ParseFailed? ==> r.message == parse.warn + parse.err
    ensures parse.Parsed? ==>
      r.Success? &&
      r.value.indexCount == |r.value.indices| == CornerCount(parse.shapes, |parse.shapes|) &&
      r.value.vertices == Distinct(Corners(parse.attrib, parse.shapes, |parse.shapes|)) &&
      IndexesInto(r.value.vertices, Corners(parse.attrib, parse.shapes, |parse.shapes|), r.value.indices)
  {
    if parse.ParseFailed? {
      return Failure(parse.warn + parse.err);
    }
    var attrib, shapes := parse.attrib, parse.shapes;
    var vertices: seq<Vertex> := [];
    var indices: seq<nat> := [];
    var uniqueVertices: map<Vertex, nat> := map[];
    ghost var done: seq<Vertex> := [];
    for s := 0 to |shapes|
      invariant done == Corners(attrib, shapes, s)
      invariant Deduped(uniqueVertices, 0, vertices, done, indices)
    {
      uniqueVertices, vertices, indices := AddCorners(attrib, shapes[s].mesh.indices, uniqueVertices, vertices, indices, done);
      done := WithCorners(attrib, done, shapes[s].mesh.indices, |shapes[s].mesh.indices|);
    }
    DedupedIndexes(uniqueVertices, 0, vertices, done, indices);
    return Success(Model(vertices, indices, |indices|));
  }

  /** The body of the loader's loop over one shape: each corner's vertex is
      looked up in the table and either reused or appended as a new unique
      vertex, and its index is appended to the index list. */
  method AddCorners(attrib: Attrib, corners: seq<Index>, unique0: map<Vertex, nat>, vertices0: seq<Vertex>,
                    indices0: seq<nat>, ghost done0: seq<Vertex>)
    returns (uniqueVertices: map<Vertex, nat>, vertices: seq<Vertex>, indices: seq<nat>)
    requires forall i :: 0 <= i < |corners| ==> Readable(attrib, corners[i])
    requires Deduped(unique0, 0, vertices0, done0, indices0)
    ensures Deduped(uniqueVertices, 0, vertices, WithCorners(attrib, done0, corners, |corners|), indices)
  {
    uniqueVertices, vertices, indices := unique0, vertices0, indices0;
    ghost var done := done0;
    for i := 0 to |corners|
      invariant done == WithCorners(attrib, done0, corners, i)
      invariant Deduped(uniqueVertices, 0, vertices, done, indices)
    {
      var vertex := CornerVertex(attrib, corners[i]);
      ghost var (unique1, vertices1, indices1) := (uniqueVertices, vertices, indices);
      if vertex !in uniqueVertices {
        uniqueVertices := uniqueVertices[vertex := |vertices|];
        vertices := vertices + [vertex];
      }
      indices := indices + [uniqueVertices[vertex]];
      DedupStep(unique1, 0, vertices1, done, indices1, vertex, uniqueVertices, vertices, indices);
      done := done + [vertex];
    }
  }
}
