/** The CPU-side meshlet (`gvk::meshlet`) and what it means for one to be
    well formed. */
module Meshlets {
  import opened Wrappers

  /** A uint32_t value. */
  type U32 = x: int | 0 <= x < 0x1_0000_0000

  /** A uint8_t value. */
  type U8 = x: int | 0 <= x < 0x100

  /** mesh_index_t: the index of a submesh inside a model. */
  type MeshIndex = nat

  /** The owning model. Only its identity matters to the meshlet helpers;
      its geometry is reached through the loader passed to the division. */
  datatype ModelHandle = ModelHandle(id: nat)

  /** A meshlet on the CPU side.
      - `vertices`: indices into the vertex attributes of the mesh (or of the
        combined submeshes);
      - `indices`: local triangle indices, each an index into `vertices`;
      - `vertexCount`, `indexCount`: how many entries of the two vectors are
        in use (the vectors themselves may be longer). */
  datatype Meshlet = Meshlet(
    model: ModelHandle,
    meshIndex: Option<MeshIndex>,
    vertices: seq<bv32>,
    indices: seq<bv8>,
    vertexCount: U32,
    indexCount: U32)

  /** The meshlet invariant: the counts lie within their vectors, the used
      indices form whole triangles, and every used local index names a used
      vertex slot. */
  predicate WellFormed(m: Meshlet)
  {
    && m.vertexCount <= |m.vertices|
    && m.indexCount <= |m.indices|
    && m.indexCount % 3 == 0
    && forall i :: 0 <= i < m.indexCount ==> (m.indices[i] as int) < m.vertexCount
  }

  /** The capacity limits handed to the partitioner (aMaxVertices, aMaxIndices). */
  predicate WithinLimits(m: Meshlet, maxVertices: nat, maxIndices: nat)
  {
    m.vertexCount <= maxVertices && m.indexCount <= maxIndices
  }

  /** The vector of vertex indices holds exactly the used vertices. */
  predicate Tight(m: Meshlet)
  {
    |m.vertices| == m.vertexCount
  }

  /** The part of a meshlet the GPU representations carry: the used vertex
      indices and the used local indices. */
  datatype Geometry = Geometry(vertices: seq<bv32>, indices: seq<bv8>)

  function Content(m: Meshlet): (g: Geometry)
    requires WellFormed(m)
    ensures |g.vertices| == m.vertexCount && |g.indices| == m.indexCount
    ensures forall i :: 0 <= i < |g.indices| ==> (g.indices[i] as int) < |g.vertices|
  {
    Geometry(m.vertices[..m.vertexCount], m.indices[..m.indexCount])
  }

  /** A uint32_t count stored into a uint8_t field: the value modulo 256. */
  function Narrow(x: U32): (b: U8)
    ensures b == x <==> x < 256
  {
    x % 256
  }

  /** The triangle count the GPU structs store: mIndexCount / 3 narrowed to 8 bits. */
  function TriangleCount(m: Meshlet): (t: U8)
    ensures m.indexCount / 3 < 256 ==> t == m.indexCount / 3
    ensures m.indexCount % 3 == 0 && m.indexCount / 3 < 256 ==> 3 * t == m.indexCount
  {
    Narrow(m.indexCount / 3)
  }
}
