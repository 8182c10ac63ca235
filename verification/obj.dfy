/** What the OBJ parser hands to the loaders (attribute arrays and per-shape
    corner lists), and the vertex record the loaders build from it. */
module Obj {

  /** A 32-bit float, kept as its bit pattern: the loaders only copy floats
      and compare them bytewise, so no float arithmetic is needed. */
  type Float = bv32

  /** The bit patterns of 0.0f and 1.0f. */
  const Zero: Float := 0x0000_0000
  const One: Float := 0x3F80_0000

  datatype Vec3 = Vec3(x: Float, y: Float, z: Float)
  datatype Vec2 = Vec2(u: Float, v: Float)

  /** Position, normal and texture coordinate: eight floats, no padding. */
  datatype Vertex = Vertex(position: Vec3, normal: Vec3, texcoord: Vec2)

  /** One corner of a face: indices into the attribute arrays. A negative
      normal or texture-coordinate index means the attribute is absent. */
  datatype Index = Index(vertexIndex: int, normalIndex: int, texcoordIndex: int)

  /** The corners of all faces, face after face, and the corner count of
      each face. */
  datatype Mesh = Mesh(indices: seq<Index>, numFaceVertices: seq<nat>)

  datatype Shape = Shape(name: string, mesh: Mesh)

  /** Flat attribute arrays: three floats per position and per normal, two
      per texture coordinate. */
  datatype Attrib = Attrib(vertices: seq<Float>, normals: seq<Float>, texcoords: seq<Float>)

  /** The parser's outcome: the mesh, or its warning and error text. */
  datatype ParseOutcome =
    | Parsed(attrib: Attrib, shapes: seq<Shape>)
    | ParseFailed(warn: string, err: string)

  /** Every attribute the corner refers to lies inside its array. */
  predicate Readable(attrib: Attrib, index: Index)
  {
    0 <= index.vertexIndex && 3 * index.vertexIndex + 2 < |attrib.vertices| &&
    (index.normalIndex >= 0 ==> 3 * index.normalIndex + 2 < |attrib.normals|) &&
    (index.texcoordIndex >= 0 ==> 2 * index.texcoordIndex + 1 < |attrib.texcoords|)
  }

  /** Every corner of every shape is readable: what a successful parse of a
      well-formed file provides. */
  ghost predicate AllReadable(attrib: Attrib, shapes: seq<Shape>)
  {
    forall s, i :: 0 <= s < |shapes| && 0 <= i < |shapes[s].mesh.indices| ==>
      Readable(attrib, shapes[s].mesh.indices[i])
  }

  function PositionAt(attrib: Attrib, i: int): Vec3
    requires 0 <= i && 3 * i + 2 < |attrib.vertices|
  {
    Vec3(attrib.vertices[3 * i], attrib.vertices[3 * i + 1], attrib.vertices[3 * i + 2])
  }

  function NormalAt(attrib: Attrib, i: int): Vec3
    requires 0 <= i && 3 * i + 2 < |attrib.normals|
  {
    Vec3(attrib.normals[3 * i], attrib.normals[3 * i + 1], attrib.normals[3 * i + 2])
  }

  function TexcoordAt(attrib: Attrib, i: int): Vec2
    requires 0 <= i && 2 * i + 1 < |attrib.texcoords|
  {
    Vec2(attrib.texcoords[2 * i], attrib.texcoords[2 * i + 1])
  }
}
