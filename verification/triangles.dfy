/** The triangle-only OBJ loader of utils.cpp, as an object owning the
    vertex and index lists it appends to. */
module Triangles {
  import opened Obj
  import opened Dedup
  import opened TriangleKeys

  /** The vertex and index lists the loader appends to. */
  class MeshStore {
    var vertices: seq<Vertex>
    var indices: seq<nat>

    constructor ()
      ensures vertices == [] && indices == []
    {
      vertices, indices := [], [];
    }

    /** Loads a parsed OBJ file onto the lists. A failed parse returns false
        and leaves both lists as they were; otherwise the keys of the
        triangle corners are loaded as `Appended` says. The lookup table is
        local to the call, so keys are shared within one call only. */
    method LoadObjModel(parse: ParseOutcome, flipV: Float -> Float) returns (ok: bool)
      requires parse.Parsed? ==> AllTrianglesReadable(parse.attrib, parse.shapes)
      modifies this
      ensures ok <==> parse.Parsed?
      ensures !ok ==> vertices == old(vertices) && indices == old(indices)
      ensures ok ==>
        Appended(parse.attrib, flipV, Keys(parse.attrib, parse.shapes, |parse.shapes|),
                 old(vertices), old(indices), vertices, indices)
    {
      if parse.ParseFailed? {
        return false;
      }
      var attrib, shapes := parse.attrib, parse.shapes;
      var uniqueVertices: map<VertexIndex, nat> := map[];
      ghost var v0, i0 := vertices, indices;
      ghost var keys: seq<VertexIndex> := [];
      ghost var done: seq<VertexIndex> := [];
      ghost var appended: seq<nat> := [];
      assert i0 + [] == i0;
      for s := 0 to |shapes|
        invariant done == Keys(attrib, shapes, s)
        invariant Loading(attrib, flipV, v0, i0, uniqueVertices, keys, done, appended, vertices, indices)
      {
        uniqueVertices, keys, appended := AddShape(attrib, flipV, shapes[s].mesh, uniqueVertices, v0, i0, keys, done, appended);
        done := WithFaceKeys(attrib, done, shapes[s].mesh, |shapes[s].mesh.numFaceVertices|);
      }
      LoadingAppended(attrib, flipV, v0, i0, uniqueVertices, keys, done, appended, vertices, indices);
      return true;
    }

    /** The loop over the faces of one shape: faces that are not triangles
        are skipped, and corner v of triangle face f is read from slot
        f * fv + v, with fv = 3. */
    method AddShape(attrib: Attrib, flipV: Float -> Float, mesh: Mesh, unique0: map<VertexIndex, nat>,
                    ghost v0: seq<Vertex>, ghost i0: seq<nat>,
                    ghost keys0: seq<VertexIndex>, ghost done0: seq<VertexIndex>, ghost appended0: seq<nat>)
      returns (uniqueVertices: map<VertexIndex, nat>, ghost keys: seq<VertexIndex>, ghost appended: seq<nat>)
      requires TrianglesReadable(attrib, mesh)
      requires Loading(attrib, flipV, v0, i0, unique0, keys0, done0, appended0, vertices, indices)
      modifies this
      ensures Loading(attrib, flipV, v0, i0, uniqueVertices, keys,
                      WithFaceKeys(attrib, done0, mesh, |mesh.numFaceVertices|), appended, vertices, indices)
    {
      uniqueVertices, keys, appended := unique0, keys0, appended0;
      ghost var done := done0;
      for f := 0 to |mesh.numFaceVertices|
        invariant done == WithFaceKeys(attrib, done0, mesh, f)
        invariant Loading(attrib, flipV, v0, i0, uniqueVertices, keys, done, appended, vertices, indices)
      {
        var fv := mesh.numFaceVertices[f];
        if fv != 3 {
          continue;
        }
        assert TriangleReadable(attrib, mesh, f);
        uniqueVertices, keys, appended := AddTriangle(attrib, flipV, mesh, f * fv, uniqueVertices, v0, i0, keys, done, appended);
        done := WithCornerKeys(done, mesh, f * 3, 3);
      }
    }

    /** The loop over the three corners of a triangle face, read from slots
        `start`, `start` + 1 and `start` + 2. */
    method AddTriangle(attrib: Attrib, flipV: Float -> Float, mesh: Mesh, start: nat, unique0: map<VertexIndex, nat>,
                       ghost v0: seq<Vertex>, ghost i0: seq<nat>,
                       ghost keys0: seq<VertexIndex>, ghost done0: seq<VertexIndex>, ghost appended0: seq<nat>)
      returns (uniqueVertices: map<VertexIndex, nat>, ghost keys: seq<VertexIndex>, ghost appended: seq<nat>)
      requires CornersReadable(attrib, mesh, start)
      requires Loading(attrib, flipV, v0, i0, unique0, keys0, done0, appended0, vertices, indices)
      modifies this
      ensures Loading(attrib, flipV, v0, i0, uniqueVertices, keys, WithCornerKeys(done0, mesh, start, 3), appended, vertices, indices)
    {
      uniqueVertices, keys, appended := unique0, keys0, appended0;
      ghost var done := done0;
      for v := 0 to 3
        invariant done == WithCornerKeys(done0, mesh, start, v)
        invariant Loading(attrib, flipV, v0, i0, uniqueVertices, keys, done, appended, vertices, indices)
      {
        var idx := mesh.indices[start + v];
        assert idx == Corner(mesh, start, v);
        uniqueVertices, keys, appended := AddCorner(attrib, flipV, idx, uniqueVertices, v0, i0, keys, done, appended);
        done := done + [KeyOf(idx)];
      }
    }

    /** One corner: its index triple is looked up in the table; an unseen
        triple gets the current vertex count as its index and its vertex is
        built and appended; then the triple's index is appended. */
    method AddCorner(attrib: Attrib, flipV: Float -> Float, idx: Index, unique0: map<VertexIndex, nat>,
                     ghost v0: seq<Vertex>, ghost i0: seq<nat>,
                     ghost keys0: seq<VertexIndex>, ghost done: seq<VertexIndex>, ghost appended0: seq<nat>)
      returns (uniqueVertices: map<VertexIndex, nat>, ghost keys: seq<VertexIndex>, ghost appended: seq<nat>)
      requires Readable(attrib, idx)
      requires Loading(attrib, flipV, v0, i0, unique0, keys0, done, appended0, vertices, indices)
      modifies this
      ensures Loading(attrib, flipV, v0, i0, uniqueVertices, keys, done + [KeyOf(idx)], appended, vertices, indices)
    {
      uniqueVertices, keys, appended := unique0, keys0, appended0;
      ghost var (vertices0, indices0) := (vertices, indices);
      var vertexIndex := KeyOf(idx);
      if vertexIndex !in uniqueVertices {
        var vertex := ResolveVertex(attrib, vertexIndex, flipV);
        uniqueVertices := uniqueVertices[vertexIndex := |vertices|];
        vertices := vertices + [vertex];
        keys := keys + [vertexIndex];
      }
      indices := indices + [uniqueVertices[vertexIndex]];
      appended := appended + [uniqueVertices[vertexIndex]];
      LoadingStep(attrib, flipV, v0, i0, unique0, keys0, done, appended0, vertices0, indices0, vertexIndex,
                  uniqueVertices, keys, appended, vertices, indices);
    }
  }
}
