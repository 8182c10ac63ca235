# OBJ mesh loading and shader setup of a small OpenGL viewer

This project models the core of a C++ OpenGL model viewer. There are two
Wavefront OBJ loaders and a shader-program wrapper.

- **The viewer's loader** (`main.cpp`, `loadObjModel`) walks every corner of
  every shape. It builds the full vertex for each corner and shares equal
  vertices through a hash table keyed by the vertex value. Vertex equality is
  a bytewise comparison of the eight floats. It produces a list of unique
  vertices, one index per corner, and the index count.
- **The triangle-only loader** (`utils.cpp`, `loadObjModel`) keys its table by
  the corner's raw index triple instead. It skips faces that are not
  triangles. A vertex gets default attributes where the corner has none:
  normal (0, 0, 1) and texture coordinate (0, 0). It flips the V texture
  coordinate, and it appends to vertex and index lists that outlive the call.
- **The shader wrapper** (`GLShader.cpp`) compiles a vertex, an optional
  geometry and a fragment shader and links them into a program. It cleans
  the shaders up after a successful link and releases the program in
  `Destroy`.

Floats are kept as 32-bit patterns (`bv32`). main.cpp copies floats and
compares them bytewise; utils.cpp copies them and computes `1.0f - v`, which
is the parameter `flipV`. The OBJ parser is not modelled: its outcome
is the input `ParseOutcome`, either the attribute arrays and shapes, or the
warning and error text of a failed parse. Where an operation calls into the
GL driver, the driver is modelled by `GL.Driver`:
- shader and program objects named by nonzero handles
- shader sources, compile status and attachments
- link status

Compile and link verdicts come from the driver's compiler, so they are
parameters (`accepts`). The members of `GL.Driver` model the OpenGL API, not
this repository, and have no rows below.

Both loaders share one specification, module `Dedup`. `Distinct(s)` is the
keys of `s`, each once, in first-seen order. `IndexesInto(u, s, ix)` says
entry k of `ix` names the entry of `u` holding `s[k]`. The loop invariant
`Deduped` ties the hash table, the unique list and the appended indices to
the keys processed so far.

## Model

| member | source | states |
|---|---|---|
| Viewer.SameBytes | main.cpp:51-53 | The bytewise comparison of two vertices holds exactly when the two vertices are equal. |
| Viewer.CornerVertex | main.cpp:174-189 | The vertex of a corner starts zeroed. Its position is the corner's position triple. Its normal is the corner's normal when present, else zero. Its texture coordinate is copied unchanged when present, else zero. |
| Viewer.WithCornersAt | main.cpp:173-189 | Entry prefix length + i of the list built over a shape's corners is the vertex of corner i. |
| Viewer.WithCornersKeepsPrefix | main.cpp:173-189 | Building a shape's corner vertices after a prefix leaves the prefix in place. |
| Viewer.CornersAt | main.cpp:173-189 | Corner i of shape s is at position CornerCount(shapes, s) + i of the corner list, and that entry is the corner's vertex. |
| Viewer.IndexedCornerVertex | main.cpp:191-196 | For the lists the loader builds, the index of corner i of shape s lies inside the vertex list and names a vertex equal to that corner's vertex. |
| Viewer.LoadObjModel | main.cpp:157-199 | A failed parse is reported as a failure with the parser's warning followed by its error text. Otherwise the vertices are the distinct corner vertices in first-seen order, and there is one index per corner, in corner order. Each index names the unique vertex equal to its corner's vertex. The index count is the number of indices, which is the total corner count. |
| Viewer.AddCorners | main.cpp:173-196 | Processing one shape's corners keeps the table invariant: the unique list is the distinct vertices seen so far, and every appended index names the vertex of its corner. |
| Dedup.Distinct | main.cpp:191-194 | The unique list is never longer than the input. |
| Dedup.DistinctSameKeys | main.cpp:191-194 | A key is in the unique list exactly when it occurs in the input. |
| Dedup.DistinctNoDuplicates | main.cpp:191-194 | No key occurs twice in the unique list. |
| Dedup.DistinctSnoc | main.cpp:191-195 | Adding a key already seen leaves the unique list unchanged. Adding an unseen key appends it. |
| Dedup.DistinctPrefix | main.cpp:191-194 | The unique list of a prefix of the input is a prefix of the unique list, so later keys never reorder earlier ones. |
| Dedup.DistinctOfNoDuplicates | main.cpp:191-194 | An input without repeated keys is its own unique list. |
| Dedup.DistinctShorterIffRepeated | main.cpp:191-194 | The unique list is shorter than the input exactly when some key repeats (both directions). |
| Dedup.RepeatedShortens | main.cpp:191-194 | A repeated key makes the unique list strictly shorter than the input. |
| Dedup.FirstIndex | main.cpp:191-193 | The first position of a key present in the input: it holds the key, and no earlier position does. |
| Dedup.DistinctFirstSeenOrder | main.cpp:191-193 | The unique list is in first-seen order: entry i is first met in the input before entry j whenever i < j. |
| Dedup.FirstIndexInPrefix | main.cpp:191-193 | Appending a key does not move the first position of a key already present. |
| Dedup.FirstIndexUnique | main.cpp:191-193 | A position holding a key, with no earlier occurrence of it, is that key's first position. |
| Dedup.NewKeyGetsNextIndex | main.cpp:192-193 | A key's first occurrence lands in the unique list at the position equal to the number of distinct keys seen before it. |
| Dedup.NewKeyIndex | main.cpp:192-195 | For an index list over the unique list, the first occurrence of a key gets as its index the number of distinct keys before it, which is the vertex count at that moment. |
| Dedup.SameKeySameIndex | main.cpp:191-195 | Two corners get the same index exactly when their keys are equal (both directions). |
| Dedup.IndexesAreDetermined | main.cpp:191-195 | Over a unique list without duplicates, the index list is determined by the keys. |
| Dedup.IdentityWhenNoRepeats | main.cpp:191-195 | Without repeated keys, the index list is 0, 1, ..., n - 1. |
| Dedup.DedupedIndexes | main.cpp:191-195 | In the loop invariant, every appended index lies in the range of the unique list (offset by the list's initial length) and names the key of its corner. |
| Dedup.DedupStep | main.cpp:191-195 | One lookup-or-insert step keeps the invariant. A seen key reuses its stored index. An unseen key is stored with the current length as its index and appended. |
| Dedup.TableOverSeen | main.cpp:191-195 | The seen-key half of that step keeps the table consistent. |
| Dedup.TableOverNew | main.cpp:191-195 | An unseen key is absent from the keys processed so far, and the insert half of the step keeps the table consistent. |
| TriangleKeys.ResolveVertex | utils.cpp:45-70 | The vertex built for a new key has the key's position. Its normal is the key's normal, or (0, 0, 1) when absent. Its texture coordinate is (0, 0) when absent; otherwise U is copied and V is `flipV` of the stored V. |
| TriangleKeys.WithFaceKeys | utils.cpp:31-37 | Over a mesh's faces, the loader collects three keys per triangle face, those at slots f * 3, f * 3 + 1 and f * 3 + 2, and none for any other face. |
| TriangleKeys.Keys | utils.cpp:29-37 | Over all shapes, the loader collects three keys per triangle face, read at slot f * 3 + v of the shape's corner list. |
| TriangleKeys.LoadingStep | utils.cpp:40-78 | One corner keeps the loader's state. A key in the table appends its stored index. A new key is stored with the current vertex count, its built vertex is appended, and that count is appended as its index. |
| TriangleKeys.LoadingAppended | utils.cpp:29-81 | A finished run leaves the lists as `Appended` describes. |
| TriangleKeys.WithResolvedAt | utils.cpp:45-74 | The entry of the built vertex list at the length of the prefix plus j is the vertex built for key j. |
| TriangleKeys.WithResolvedKeepsPrefix | utils.cpp:74 | Building vertices after a prefix leaves the prefix in place. |
| TriangleKeys.AppendedCornerVertex | utils.cpp:43-78 | After a load, the index appended for corner k lies inside the vertex list and names the vertex built for corner k's key. |
| TriangleKeys.AppendedKeepsOld | utils.cpp:73-78 | A load only appends. The old vertices and indices stay in place, the vertex list grows by the number of distinct keys, and the index list grows by the number of corners read. |
| TriangleKeys.AppendedSameKeySameIndex | utils.cpp:40-78 | Two corners of one load get the same index exactly when their index triples are equal (both directions). |
| TriangleKeys.AppendedNewKeyIndex | utils.cpp:73 | The first corner with a given triple gets as its index the vertex count before the call plus the number of distinct triples before it. |
| TriangleKeys.NonTrianglesAddNothing | utils.cpp:32-33 | A run of faces that are not triangles contributes no keys. |
| Triangles.MeshStore.LoadObjModel | utils.cpp:15-84 | The call returns true exactly when the parse succeeded. A failed parse leaves both lists unchanged. A successful one extends them as `Appended` says for the keys of all triangle corners, with the table local to the call. |
| Triangles.MeshStore.AddShape | utils.cpp:31-80 | The face loop of one shape keeps the loader's state. Non-triangles are skipped, and triangle face f is read from slot f * fv + v, with fv = 3, as the code does. |
| Triangles.MeshStore.AddTriangle | utils.cpp:36-79 | The corner loop of one triangle keeps the loader's state over the three corners at slots start, start + 1 and start + 2, in order. |
| Triangles.MeshStore.AddCorner | utils.cpp:40-78 | One corner's lookup-or-insert keeps the loader's state. |
| FaceReads.ReadsAsWritten | utils.cpp:31-37 | The slots the code as written reads (f * 3 + v) are made only for triangle faces among those visited. |
| FaceReads.ReadsCorrected | utils.cpp:31-37 | The corrected slots (face start + v) are made only for triangle faces among those visited. |
| FaceReads.CorrectedReadsOwnCorners | utils.cpp:37 | Every corrected read lands on a corner of the face it is made for. |
| FaceReads.AsWrittenMatchesOnTriangles | utils.cpp:37 | While every face is a triangle, the code as written reads exactly the corrected slots, and face f starts at slot f * 3. |
| FaceReads.AsWrittenReadsAnotherFace | utils.cpp:37 | For a quad followed by a triangle, the code as written reads the triangle from slots 3, 4 and 5 instead of 4, 5 and 6. Its first read is a corner of the quad. |
| FaceReads.KeysFollowReads | utils.cpp:36-40 | The keys the loader collects are, in order, the keys at the slots of the reads as written (f * 3 + v). |
| FaceReads.TriangleMeshReadsOwnCorners | utils.cpp:22-37 | When every face is a triangle, as the parser's default triangulation delivers, every read as written lands on a corner of its own face. |
| Shader.GLShader.CompileStage | GLShader.cpp:28-42 | Create, source and compile: the result is true exactly when the compiler accepts. A rejected shader is deleted and 0 returned, leaving the driver's shaders as before. An accepted one is a new live, compiled, unattached shader with the given source. |
| Shader.GLShader.LoadVertexShader | GLShader.cpp:15-44 | The result is true exactly when the compiler accepts. On failure the field is 0 and the driver holds no new shader. On success the field names a new shader holding the file's text. Programs are unchanged. |
| Shader.GLShader.LoadGeometryShader | GLShader.cpp:46-75 | As LoadVertexShader, for the geometry stage. |
| Shader.GLShader.LoadFragmentShader | GLShader.cpp:77-105 | As LoadVertexShader, for the fragment stage. |
| Shader.GLShader.Create | GLShader.cpp:107-144 | The result is true exactly when the linker accepts. On failure the new program is deleted, the program field is 0, and the stage fields and driver objects are unchanged. On success the program is new, linked from exactly the nonzero stage shaders, and left with nothing attached. The stage shaders are deleted and their fields are 0. |
| Shader.GLShader.LinkStages | GLShader.cpp:109-114 | A new program is created. The vertex and fragment shaders, and the geometry shader when nonzero, are attached, and the program is linked from exactly those shaders. |
| Shader.GLShader.AttachStage | GLShader.cpp:110-113 | Attaching a stage field adds that shader to the program. Handle 0 adds nothing. |
| Shader.GLShader.DropStages | GLShader.cpp:127-141 | After a successful link, every stage shader is detached and deleted, and its field becomes 0. |
| Shader.GLShader.DropStage | GLShader.cpp:129-130 | Detaching then deleting one stage shader removes it from the program's attachments and from the live shaders. |
| Shader.GLShader.Destroy | GLShader.cpp:146-159 | The program is deleted when nonzero and all four fields become 0. The live shaders are unchanged. On a wrapper with no program, the driver is left untouched. |
| Shader.GLShader.Release | GLShader.cpp:146-159 | Corrected Destroy: besides the program, every stage shader still named by a field is deleted. |
| Shader.GLShader.DeleteStages | GLShader.cpp:146-159 | Part of Release: deletes the stage shaders still named by the fields and zeroes those fields. |
| Shader.FailedLinkThenDestroy | GLShader.cpp:146-159 | After two accepted loads, a rejected link and Destroy, every field is 0 while both stage shaders are still live in the driver. |
| Shader.DestroyTwice | GLShader.cpp:146-159 | Destroy is idempotent: a second call leaves the driver's shaders and programs and all four fields as the first call left them, with every field 0. |
| Shader.FailedLinkThenRelease | GLShader.cpp:146-159 | The same sequence with Release leaves the driver with no shader and no program. |

## Left out

- The OBJ parser (tinyobj) is not modelled. Its result is an input. Its guarantee that every corner index is inside the attribute arrays is a precondition (`AllReadable`, `AllTrianglesReadable`).
- File reading and the `filename` parameters are not modelled: a shader's source text is an input.
- Float arithmetic is not modelled. The `1.0f - v` of utils.cpp:66 is the parameter `flipV`.
- The hash functions of both tables are not modelled. A table is a map, which behaves as a hash table with a correct hash.
- The GL buffer upload, vertex layout and draw call after main.cpp:199 are not modelled, nor texture and window handling.
- `unsigned int` indices are unbounded naturals. The 32-bit width of the index lists and of the vertex count cast is not modelled.
- GL error codes are not modelled, nor `glCreateShader`/`glCreateProgram` returning 0 on failure: creation always yields a fresh nonzero handle.
- `GL.Driver.DeleteShader` requires the shader to be attached to no program. OpenGL's deferred deletion of attached shaders is not modelled; the wrapper never deletes an attached shader.
- Unlike utils.cpp (utils.cpp:57-66), main.cpp leaves a missing normal zeroed and copies V unchanged (main.cpp:174-189); the model follows main.cpp.
- The declarations of the vertex and index lists that utils.cpp appends to, and GLShader.h, are not part of this model. The lists are the fields of `Triangles.MeshStore`, and the wrapper's fields start at 0 (`Shader.GLShader.constructor`).
- The loops of the two loaders and of `Create` are split into helper methods (`AddCorners`, `AddShape`, `AddTriangle`, `AddCorner`, `LinkStages`, `DropStages`), each keeping the loop invariant of its level.
- A Load*Shader call on a field that already names a shader, and a Create on a wrapper that already has a program, overwrite the field. The earlier object stays live in the driver, as in the code.

## Findings

| source | as written | input that shows it | evidently intended | confidence | as-written member | corrected member |
|---|---|---|---|---|---|---|
| utils.cpp:37 | Corner v of triangle face f is read from slot `f * fv + v`, with `fv == 3` there. That is the face's start only when every earlier face is also a triangle. | A shape with `num_face_vertices = [4, 3]`: the triangle's corners are slots 4, 5 and 6, but slots 3, 4 and 5 are read, the first being the quad's last corner. | Read face f from the running sum of the earlier face sizes. The loader model (`Triangles.MeshStore`) reads as written; `FaceReads.ReadsCorrected` is the corrected reading. | not executed | FaceReads.AsWrittenReadsAnotherFace | FaceReads.CorrectedReadsOwnCorners |
| GLShader.cpp:146-159 | Destroy deletes only the program and zeroes all four fields. After a failed link, Create leaves the stage shaders live in their fields, and Destroy then loses them. | Load vertex and fragment shaders that compile, then Create with a rejected link, then Destroy: both shaders stay live with no field naming them. | Destroy also deletes any stage shader still named by a field. | not executed | Shader.FailedLinkThenDestroy | Shader.GLShader.Release |
