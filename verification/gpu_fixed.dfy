/** The self-contained GPU meshlet (`meshlet_gpu_data`) and the fixed branch
    of convert_for_gpu_usage. */
module FixedLayout {
  import opened Wrappers
  import opened Seqs
  import opened Meshlets
  import opened Packing

  /** Length of the inline vertex index array (uint32_t mVertices[64]). */
  const VertexCapacity: nat := 64
  /** Length of the inline local index array (uint8_t mIndices[378], 126 triangles). */
  const IndexCapacity: nat := 378

  /** meshlet_gpu_data. The arrays always have their full capacity; the slots
      past the copied vectors stay at the zero the struct was value-initialised
      with. */
  datatype FixedMeshlet = FixedMeshlet(
    vertices: seq<bv32>,
    indices: seq<bv8>,
    vertexCount: U8,
    triangleCount: U8)

  /** The copies into the inline arrays stay inside them. */
  predicate FitsFixed(m: Meshlet)
  {
    |m.vertices| <= VertexCapacity && |m.indices| <= IndexCapacity
  }

  /** One iteration of the fixed branch: both vectors copied whole to the front
      of the inline arrays, the counts narrowed to 8 bits. */
  function ToFixed(m: Meshlet): (g: FixedMeshlet)
    requires FitsFixed(m)
    ensures |g.vertices| == VertexCapacity && |g.indices| == IndexCapacity
    ensures g.vertices[..|m.vertices|] == m.vertices
    ensures g.indices[..|m.indices|] == m.indices
    ensures forall i :: |m.vertices| <= i < VertexCapacity ==> g.vertices[i] == 0
    ensures forall i :: |m.indices| <= i < IndexCapacity ==> g.indices[i] == 0
    ensures g.vertexCount == m.vertexCount <==> m.vertexCount < 256
    ensures m.indexCount / 3 < 256 ==> g.triangleCount == m.indexCount / 3
  {
    FixedMeshlet(
      m.vertices + Repeat(0, VertexCapacity - |m.vertices|),
      m.indices + Zeros(IndexCapacity - |m.indices|),
      Narrow(m.vertexCount),
      TriangleCount(m))
  }

  /** What a consumer of meshlet_gpu_data reads: mVertexCount vertex indices
      and 3 * mTriangleCount local indices; None when the counts point past
      the arrays. */
  function DecodeFixed(g: FixedMeshlet): (r: Option<Geometry>)
    ensures r.Some? <==> g.vertexCount <= |g.vertices| && 3 * g.triangleCount <= |g.indices|
    ensures r.Some? ==> |r.value.vertices| == g.vertexCount && |r.value.indices| == 3 * g.triangleCount
  {
    if g.vertexCount <= |g.vertices| && 3 * g.triangleCount <= |g.indices|
    then Some(Geometry(g.vertices[..g.vertexCount], g.indices[..3 * g.triangleCount]))
    else None
  }

  /** Round trip of the fixed form: reading a converted well-formed meshlet
      back gives exactly its used vertices and local indices. The capacities
      keep both counts below 256, so narrowing loses nothing. */
  lemma FixedRoundTrip(m: Meshlet)
    requires WellFormed(m) && FitsFixed(m)
    ensures DecodeFixed(ToFixed(m)) == Some(Content(m))
  {
    var g := ToFixed(m);
    assert g.vertexCount == m.vertexCount;
    assert 3 * g.triangleCount == m.indexCount;
    assert g.vertices[..m.vertexCount] == g.vertices[..|m.vertices|][..m.vertexCount];
    assert g.indices[..m.indexCount] == g.indices[..|m.indices|][..m.indexCount];
  }

  /** The fixed branch of convert_for_gpu_usage: one meshlet_gpu_data per
      meshlet, in order, and no auxiliary data. */
  method ConvertFixed(ms: seq<Meshlet>) returns (gpu: seq<FixedMeshlet>, data: Option<seq<bv32>>)
    requires forall i :: 0 <= i < |ms| ==> FitsFixed(ms[i])
    ensures data == None
    ensures |gpu| == |ms|
    ensures forall i :: 0 <= i < |ms| ==> gpu[i] == ToFixed(ms[i])
    ensures forall i :: 0 <= i < |ms| && WellFormed(ms[i]) ==> DecodeFixed(gpu[i]) == Some(Content(ms[i]))
  {
    gpu := [];
    data := None;
    var k := 0;
    while k < |ms|
      invariant 0 <= k <= |ms|
      invariant |gpu| == k
      invariant forall i :: 0 <= i < k ==> gpu[i] == ToFixed(ms[i])
    {
      gpu := gpu + [ToFixed(ms[k])];
      k := k + 1;
    }
    forall i | 0 <= i < |ms| && WellFormed(ms[i])
      ensures DecodeFixed(gpu[i]) == Some(Content(ms[i]))
    {
      FixedRoundTrip(ms[i]);
    }
  }
}
