/** The triangle-only OBJ loader (utils.cpp): corners are keyed by their raw
    index triple rather than by the vertex they produce, faces that are not
    triangles are skipped, missing attributes get defaults and the V texture
    coordinate is flipped. Corner v of triangle face f is read from slot
    f * 3 + v of the corner list, as the loader does; module FaceReads shows
    where this differs from the face's own corners and gives the corrected
    reading. The vertex and index lists it fills live outside the call, so
    the call extends whatever they already hold. */
module TriangleKeys {
  import opened Obj
  import opened Dedup

  /** The table key: the raw position, texture-coordinate and normal indices
      of a corner. Two corners share a vertex exactly when all three agree. */
  datatype VertexIndex = VertexIndex(vertexIndex: int, texcoordIndex: int, normalIndex: int)

  function KeyOf(idx: Index): VertexIndex
  {
    VertexIndex(idx.vertexIndex, idx.texcoordIndex, idx.normalIndex)
  }

  /** Every attribute the key refers to lies inside its array. */
  predicate ReadableKey(attrib: Attrib, key: VertexIndex)
  {
    Readable(attrib, Index(key.vertexIndex, key.normalIndex, key.texcoordIndex))
  }

  ghost predicate AllReadableKeys(attrib: Attrib, keys: seq<VertexIndex>)
  {
    keys == [] || (AllReadableKeys(attrib, keys[..|keys| - 1]) && ReadableKey(attrib, keys[|keys| - 1]))
  }

  /** The vertex built for a new key: the position is always read; a missing
      normal becomes (0, 0, 1) and a missing texture coordinate (0, 0); a
      present texture coordinate keeps U and stores `flipV` of V, where
      `flipV` stands for the float subtraction 1 - v. */
  function ResolveVertex(attrib: Attrib, key: VertexIndex, flipV: Float -> Float): (v: Vertex)
    requires ReadableKey(attrib, key)
    ensures v.position == PositionAt(attrib, key.vertexIndex)
    ensures key.normalIndex < 0 ==> v.normal == Vec3(Zero, Zero, One)
    ensures key.normalIndex >= 0 ==> v.normal == NormalAt(attrib, key.normalIndex)
    ensures key.texcoordIndex < 0 ==> v.texcoord == Vec2(Zero, Zero)
    ensures key.texcoordIndex >= 0 ==>
      v.texcoord.u == attrib.texcoords[2 * key.texcoordIndex] &&
      v.texcoord.v == flipV(attrib.texcoords[2 * key.texcoordIndex + 1])
  {
    var position := PositionAt(attrib, key.vertexIndex);
    var normal := if key.normalIndex >= 0 then NormalAt(attrib, key.normalIndex) else Vec3(Zero, Zero, One);
    var texcoord :=
      if key.texcoordIndex >= 0 then
        var t := TexcoordAt(attrib, key.texcoordIndex);
        Vec2(t.u, flipV(t.v))
      else Vec2(Zero, Zero);
    Vertex(position, normal, texcoord)
  }

  /** The vertex list `prefix` followed by the vertices built for `keys`. */
  function WithResolved(attrib: Attrib, prefix: seq<Vertex>, keys: seq<VertexIndex>, flipV: Float -> Float): (r: seq<Vertex>)
    requires AllReadableKeys(attrib, keys)
    ensures |r| == |prefix| + |keys|
  {
    if keys == [] then prefix
    else
      WithResolved(attrib, prefix, keys[..|keys| - 1], flipV) + [ResolveVertex(attrib, keys[|keys| - 1], flipV)]
  }

  /** Corner `v` of the face whose corners start at slot `start`. */
  function Corner(mesh: Mesh, start: nat, v: nat): Index
    requires start + v < |mesh.indices|
  {
    mesh.indices[start + v]
  }

  /** The three corners starting at slot `start` are inside the corner list
      and readable. */
  ghost predicate CornersReadable(attrib: Attrib, mesh: Mesh, start: nat)
  {
    start + 2 < |mesh.indices| && forall v :: 0 <= v < 3 ==> Readable(attrib, Corner(mesh, start, v))
  }

  /** The three slots the loader reads for triangle face `f`, from f * 3
      on, are inside the corner list and readable. */
  ghost predicate TriangleReadable(attrib: Attrib, mesh: Mesh, f: nat)
  {
    f < |mesh.numFaceVertices| && CornersReadable(attrib, mesh, f * 3)
  }

  /** Every triangle face of the mesh is readable. */
  ghost predicate TrianglesReadable(attrib: Attrib, mesh: Mesh)
  {
    forall f :: 0 <= f < |mesh.numFaceVertices| && mesh.numFaceVertices[f] == 3 ==> TriangleReadable(attrib, mesh, f)
  }

  ghost predicate AllTrianglesReadable(attrib: Attrib, shapes: seq<Shape>)
  {
    forall s :: 0 <= s < |shapes| ==> TrianglesReadable(attrib, shapes[s].mesh)
  }

  /** The key list `prefix` followed by the keys of the first `n` corners of
      the triangle face starting at slot `start`, in corner order. */
  function WithCornerKeys(prefix: seq<VertexIndex>, mesh: Mesh, start: nat, n: nat): (r: seq<VertexIndex>)
    requires n <= 3 && start + 2 < |mesh.indices|
    ensures |r| == |prefix| + n
  {
    if n == 0 then prefix
    else WithCornerKeys(prefix, mesh, start, n - 1) + [KeyOf(Corner(mesh, start, n - 1))]
  }

  /** The number of triangle faces among the first `nf` faces. */
  function TriangleCount(mesh: Mesh, nf: nat): nat
    requires nf <= |mesh.numFaceVertices|
  {
    if nf == 0 then 0
    else TriangleCount(mesh, nf - 1) + (if mesh.numFaceVertices[nf - 1] == 3 then 1 else 0)
  }

  /** The key list `prefix` followed by the keys the loader reads from the
      first `nf` faces of a mesh: for triangle face f, the keys at slots
      f * 3, f * 3 + 1 and f * 3 + 2; none for any other face. */
  function WithFaceKeys(attrib: Attrib, prefix: seq<VertexIndex>, mesh: Mesh, nf: nat): (r: seq<VertexIndex>)
    requires nf <= |mesh.numFaceVertices| && TrianglesReadable(attrib, mesh)
    ensures |r| == |prefix| + 3 * TriangleCount(mesh, nf)
  {
    if nf == 0 then prefix
    else
      var p := WithFaceKeys(attrib, prefix, mesh, nf - 1);
      if mesh.numFaceVertices[nf - 1] != 3 then p
      else WithCornerKeys(p, mesh, (nf - 1) * 3, 3)
  }

  /** The number of triangle faces in the first `n` shapes. */
  function ShapeTriangles(shapes: seq<Shape>, n: nat): nat
    requires n <= |shapes|
  {
    if n == 0 then 0
    else ShapeTriangles(shapes, n - 1) + TriangleCount(shapes[n - 1].mesh, |shapes[n - 1].mesh.numFaceVertices|)
  }

  /** The keys the loader reads from the first `n` shapes, in order. */
  function Keys(attrib: Attrib, shapes: seq<Shape>, n: nat): (r: seq<VertexIndex>)
    requires n <= |shapes| && AllTrianglesReadable(attrib, shapes)
    ensures |r| == 3 * ShapeTriangles(shapes, n)
  {
    if n == 0 then []
    else
      WithFaceKeys(attrib, Keys(attrib, shapes, n - 1), shapes[n - 1].mesh, |shapes[n - 1].mesh.numFaceVertices|)
  }

  /** What loading the keys `keys` onto the lists `v0` and `i0` leaves: the
      vertex list gained the vertices of the distinct keys in first-seen
      order, and the index list gained one index per key, naming the entry of
      the whole vertex list that was built for that key. */
  ghost predicate Appended(attrib: Attrib, flipV: Float -> Float, keys: seq<VertexIndex>,
                           v0: seq<Vertex>, i0: seq<nat>, vertices: seq<Vertex>, indices: seq<nat>)
  {
    AllReadableKeys(attrib, Distinct(keys)) &&
    vertices == WithResolved(attrib, v0, Distinct(keys), flipV) &&
    |indices| == |i0| + |keys| && indices[..|i0|] == i0 &&
    forall k :: 0 <= k < |keys| ==>
      |v0| <= indices[|i0| + k] < |vertices| && Distinct(keys)[indices[|i0| + k] - |v0|] == keys[k]
  }

  /** The loader's state part way through a call that started from the
      lists `v0` and `i0`: after the keys `done`, the table and the unique
      keys are as `Deduped` says, the vertex list is `v0` followed by the
      vertices of the unique keys, and the index list is `i0` followed by one
      index per key. */
  ghost predicate Loading(attrib: Attrib, flipV: Float -> Float, v0: seq<Vertex>, i0: seq<nat>,
                          unique: map<VertexIndex, nat>, keys: seq<VertexIndex>, done: seq<VertexIndex>, appended: seq<nat>,
                          vertices: seq<Vertex>, indices: seq<nat>)
  {
    Deduped(unique, |v0|, keys, done, appended) &&
    AllReadableKeys(attrib, keys) &&
    vertices == WithResolved(attrib, v0, keys, flipV) &&
    indices == i0 + appended
  }

  /** One corner keeps the loader's state: a key already in the table
      appends its index; a new key gets the current vertex count as its index,
      and its vertex is appended. */
  lemma LoadingStep(attrib: Attrib, flipV: Float -> Float, v0: seq<Vertex>, i0: seq<nat>,
                    unique: map<VertexIndex, nat>, keys: seq<VertexIndex>, done: seq<VertexIndex>, appended: seq<nat>,
                    vertices: seq<Vertex>, indices: seq<nat>, key: VertexIndex,
                    unique': map<VertexIndex, nat>, keys': seq<VertexIndex>, appended': seq<nat>,
                    vertices': seq<Vertex>, indices': seq<nat>)
    requires Loading(attrib, flipV, v0, i0, unique, keys, done, appended, vertices, indices)
    requires ReadableKey(attrib, key)
    requires key in unique ==>
      unique' == unique && keys' == keys && vertices' == vertices &&
      appended' == appended + [unique[key]] && indices' == indices + [unique[key]]
    requires key !in unique ==>
      unique' == unique[key := |vertices|] && keys' == keys + [key] &&
      vertices' == vertices + [ResolveVertex(attrib, key, flipV)] &&
      appended' == appended + [|vertices|] && indices' == indices + [|vertices|]
    ensures Loading(attrib, flipV, v0, i0, unique', keys', done + [key], appended', vertices', indices')
  {
    DedupStep(unique, |v0|, keys, done, appended, key, unique', keys', appended');
    if key !in unique {
      ResolvedStep(attrib, flipV, v0, keys, key);
    }
    AppendOne(i0, appended, appended'[|appended|]);
  }

  lemma ResolvedStep(attrib: Attrib, flipV: Float -> Float, v0: seq<Vertex>, keys: seq<VertexIndex>, key: VertexIndex)
    requires AllReadableKeys(attrib, keys) && ReadableKey(attrib, key)
    ensures AllReadableKeys(attrib, keys + [key])
    ensures WithResolved(attrib, v0, keys + [key], flipV) == WithResolved(attrib, v0, keys, flipV) + [ResolveVertex(attrib, key, flipV)]
  {
    assert (keys + [key])[..|keys|] == keys;
  }

  lemma AppendOne<T>(a: seq<T>, b: seq<T>, x: T)
    ensures a + (b + [x]) == (a + b) + [x]
  {
  }

  /** A finished run is an `Appended` state. */
  lemma LoadingAppended(attrib: Attrib, flipV: Float -> Float, v0: seq<Vertex>, i0: seq<nat>,
                        unique: map<VertexIndex, nat>, keys: seq<VertexIndex>, done: seq<VertexIndex>, appended: seq<nat>,
                        vertices: seq<Vertex>, indices: seq<nat>)
    requires Loading(attrib, flipV, v0, i0, unique, keys, done, appended, vertices, indices)
    ensures Appended(attrib, flipV, done, v0, i0, vertices, indices)
  {
    DedupedIndexes(unique, |v0|, keys, done, appended);
    assert indices[..|i0|] == i0;
    forall k | 0 <= k < |done|
      ensures indices[|i0| + k] == appended[k]
    {
    }
  }

  /** Entry |prefix| + j of the vertex list is the vertex built for key j. */
  lemma {:induction false} WithResolvedAt(attrib: Attrib, prefix: seq<Vertex>, keys: seq<VertexIndex>,
                                          flipV: Float -> Float, j: nat)
    requires AllReadableKeys(attrib, keys) && j < |keys|
    ensures ReadableKey(attrib, keys[j])
    ensures WithResolved(attrib, prefix, keys, flipV)[|prefix| + j] == ResolveVertex(attrib, keys[j], flipV)
  {
    if j < |keys| - 1 {
      WithResolvedAt(attrib, prefix, keys[..|keys| - 1], flipV, j);
    }
  }

  /** Building vertices after `prefix` leaves `prefix` in place. */
  lemma {:induction false} WithResolvedKeepsPrefix(attrib: Attrib, prefix: seq<Vertex>, keys: seq<VertexIndex>,
                                                   flipV: Float -> Float)
    requires AllReadableKeys(attrib, keys)
    ensures WithResolved(attrib, prefix, keys, flipV)[..|prefix|] == prefix
  {
    if keys != [] {
      WithResolvedKeepsPrefix(attrib, prefix, keys[..|keys| - 1], flipV);
    }
  }

  /** After a load, the index appended for corner k lies inside the vertex
      list and names the vertex built for the corner's key. */
  lemma AppendedCornerVertex(attrib: Attrib, flipV: Float -> Float, keys: seq<VertexIndex>,
                             v0: seq<Vertex>, i0: seq<nat>, vertices: seq<Vertex>, indices: seq<nat>, k: nat)
    requires Appended(attrib, flipV, keys, v0, i0, vertices, indices) && k < |keys|
    ensures ReadableKey(attrib, keys[k])
    ensures indices[|i0| + k] < |vertices| && vertices[indices[|i0| + k]] == ResolveVertex(attrib, keys[k], flipV)
  {
    var key, index := keys[k], indices[|i0| + k];
    assert |v0| <= index < |vertices| && Distinct(keys)[index - |v0|] == key;
    WithResolvedAt(attrib, v0, Distinct(keys), flipV, index - |v0|);
  }

  /** A load only appends: what the lists held before is still there. */
  lemma AppendedKeepsOld(attrib: Attrib, flipV: Float -> Float, keys: seq<VertexIndex>,
                         v0: seq<Vertex>, i0: seq<nat>, vertices: seq<Vertex>, indices: seq<nat>)
    requires Appended(attrib, flipV, keys, v0, i0, vertices, indices)
    ensures |vertices| == |v0| + |Distinct(keys)| && vertices[..|v0|] == v0
    ensures |indices| == |i0| + |keys| && indices[..|i0|] == i0
  {
    WithResolvedKeepsPrefix(attrib, v0, Distinct(keys), flipV);
  }

  /** Two corners of one load get the same index exactly when their index
      triples are equal. */
  lemma AppendedSameKeySameIndex(attrib: Attrib, flipV: Float -> Float, keys: seq<VertexIndex>,
                                 v0: seq<Vertex>, i0: seq<nat>, vertices: seq<Vertex>, indices: seq<nat>, a: nat, b: nat)
    requires Appended(attrib, flipV, keys, v0, i0, vertices, indices) && a < |keys| && b < |keys|
    ensures keys[a] == keys[b] <==> indices[|i0| + a] == indices[|i0| + b]
  {
    DistinctNoDuplicates(keys);
  }

  /** The first corner with a given triple gets, as its index, the size the
      vertex list had just before: the earlier contents plus the distinct
      triples seen so far in this load. */
  lemma AppendedNewKeyIndex(attrib: Attrib, flipV: Float -> Float, keys: seq<VertexIndex>,
                            v0: seq<Vertex>, i0: seq<nat>, vertices: seq<Vertex>, indices: seq<nat>, k: nat)
    requires Appended(attrib, flipV, keys, v0, i0, vertices, indices)
    requires k < |keys| && keys[k] !in keys[..k]
    ensures indices[|i0| + k] == |v0| + |Distinct(keys[..k])|
  {
    NewKeyGetsNextIndex(keys, k);
    DistinctNoDuplicates(keys);
  }

  /** Faces that are not triangles contribute no keys: a run of them leaves
      the key list as it was. */
  lemma {:induction false} NonTrianglesAddNothing(attrib: Attrib, prefix: seq<VertexIndex>, mesh: Mesh, nf: nat)
    requires nf <= |mesh.numFaceVertices| && TrianglesReadable(attrib, mesh)
    requires forall f :: 0 <= f < nf ==> mesh.numFaceVertices[f] != 3
    ensures WithFaceKeys(attrib, prefix, mesh, nf) == prefix
  {
    if nf > 0 {
      NonTrianglesAddNothing(attrib, prefix, mesh, nf - 1);
    }
  }
}
