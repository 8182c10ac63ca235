/** Which corner slots the triangle-only loader reads, face by face. The
    corner list holds the corners of all faces one after the other, so face
    f starts after the corners of the faces before it. The loader as written
    reads triangle face f at slots f * 3 + v, as the MeshStore loader does,
    which is that start only when every earlier face is a triangle; the
    corrected reading starts at the sum of the earlier face sizes. */
module FaceReads {
  import opened Obj
  import opened TriangleKeys

  /** One read of the loader: the face it is made for and the slot of the
      corner list it reads. */
  datatype Read = Read(face: nat, slot: nat)

  /** Where the corners of face f start in the corner list: the sum of the
      corner counts of the faces before it. */
  function FaceStart(counts: seq<nat>, f: nat): nat
    requires f <= |counts|
  {
    if f == 0 then 0 else FaceStart(counts, f - 1) + counts[f - 1]
  }

  /** The reads of the loader as written over the first `nf` faces: for a
      triangle face f, slots f * 3, f * 3 + 1 and f * 3 + 2; nothing for
      other faces. */
  function ReadsAsWritten(counts: seq<nat>, nf: nat): (r: seq<Read>)
    requires nf <= |counts|
    ensures forall k :: 0 <= k < |r| ==> r[k].face < nf && counts[r[k].face] == 3
  {
    if nf == 0 then []
    else
      var p := ReadsAsWritten(counts, nf - 1);
      var f := nf - 1;
      if counts[f] != 3 then p else p + [Read(f, f * 3), Read(f, f * 3 + 1), Read(f, f * 3 + 2)]
  }

  /** The corrected reads: triangle face f is read from its own start. */
  function ReadsCorrected(counts: seq<nat>, nf: nat): (r: seq<Read>)
    requires nf <= |counts|
    ensures forall k :: 0 <= k < |r| ==> r[k].face < nf && counts[r[k].face] == 3
  {
    if nf == 0 then []
    else
      var p := ReadsCorrected(counts, nf - 1);
      var f := nf - 1;
      var b := FaceStart(counts, f);
      if counts[f] != 3 then p else p + [Read(f, b), Read(f, b + 1), Read(f, b + 2)]
  }

  /** Every read lands on a corner of the face it is made for. */
  ghost predicate ReadsOwnCorners(counts: seq<nat>, rs: seq<Read>)
  {
    forall k :: 0 <= k < |rs| ==>
      rs[k].face < |counts| &&
      FaceStart(counts, rs[k].face) <= rs[k].slot < FaceStart(counts, rs[k].face + 1)
  }

  /** The corrected reads stay inside the face they are made for. */
  lemma {:induction false} CorrectedReadsOwnCorners(counts: seq<nat>, nf: nat)
    requires nf <= |counts|
    ensures ReadsOwnCorners(counts, ReadsCorrected(counts, nf))
  {
    if nf > 0 {
      CorrectedReadsOwnCorners(counts, nf - 1);
    }
  }

  /** While every face so far is a triangle, the two readings agree. */
  lemma {:induction false} AsWrittenMatchesOnTriangles(counts: seq<nat>, nf: nat)
    requires nf <= |counts|
    requires forall f :: 0 <= f < nf ==> counts[f] == 3
    ensures ReadsAsWritten(counts, nf) == ReadsCorrected(counts, nf)
    ensures FaceStart(counts, nf) == nf * 3
  {
    if nf > 0 {
      AsWrittenMatchesOnTriangles(counts, nf - 1);
    }
  }

  /** A quad followed by a triangle: the corners are slots 0-3 for the quad
      and 4-6 for the triangle, but the loader as written reads the
      triangle from slots 3, 4 and 5, so its first corner is the quad's
      last one. */
  lemma AsWrittenReadsAnotherFace()
    ensures ReadsAsWritten([4, 3], 2) == [Read(1, 3), Read(1, 4), Read(1, 5)]
    ensures ReadsCorrected([4, 3], 2) == [Read(1, 4), Read(1, 5), Read(1, 6)]
    ensures !ReadsOwnCorners([4, 3], ReadsAsWritten([4, 3], 2))
  {
    assert ReadsAsWritten([4, 3], 2)[0] == Read(1, 3);
    assert FaceStart([4, 3], 1) == 4;
  }

  /** The keys the loader collects over the first `nf` faces are the keys at
      the slots of the reads as written, in order. */
  lemma {:induction false} KeysFollowReads(attrib: Attrib, prefix: seq<VertexIndex>, mesh: Mesh, nf: nat)
    requires nf <= |mesh.numFaceVertices| && TrianglesReadable(attrib, mesh)
    ensures |WithFaceKeys(attrib, prefix, mesh, nf)| == |prefix| + |ReadsAsWritten(mesh.numFaceVertices, nf)|
    ensures forall k :: 0 <= k < |ReadsAsWritten(mesh.numFaceVertices, nf)| ==>
      ReadsAsWritten(mesh.numFaceVertices, nf)[k].slot < |mesh.indices| &&
      WithFaceKeys(attrib, prefix, mesh, nf)[|prefix| + k] ==
        KeyOf(mesh.indices[ReadsAsWritten(mesh.numFaceVertices, nf)[k].slot])
  {
    if nf > 0 {
      KeysFollowReads(attrib, prefix, mesh, nf - 1);
      var f := nf - 1;
      if mesh.numFaceVertices[f] == 3 {
        assert TriangleReadable(attrib, mesh, f);
        var p, r := WithFaceKeys(attrib, prefix, mesh, f), ReadsAsWritten(mesh.numFaceVertices, f);
        var b := f * 3;
        var corners := [KeyOf(Corner(mesh, b, 0)), KeyOf(Corner(mesh, b, 1)), KeyOf(Corner(mesh, b, 2))];
        assert WithCornerKeys(p, mesh, b, 1) == p + corners[..1];
        assert WithCornerKeys(p, mesh, b, 2) == p + corners[..2];
        assert WithFaceKeys(attrib, prefix, mesh, nf) == p + corners;
        assert ReadsAsWritten(mesh.numFaceVertices, nf) == r + [Read(f, b), Read(f, b + 1), Read(f, b + 2)];
      }
    }
  }

  /** On a mesh whose faces are all triangles, which is what the parser
      delivers when it triangulates, the loader reads every face from its own
      corners: entry k of the reads lands inside the face it is made for. */
  lemma TriangleMeshReadsOwnCorners(counts: seq<nat>)
    requires forall f :: 0 <= f < |counts| ==> counts[f] == 3
    ensures ReadsOwnCorners(counts, ReadsAsWritten(counts, |counts|))
  {
    AsWrittenMatchesOnTriangles(counts, |counts|);
    CorrectedReadsOwnCorners(counts, |counts|);
  }
}
