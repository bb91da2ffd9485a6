# Meshlet helpers of Gears-Vk, modelled in Dafny

This project models `framework/include/meshlet_helpers.hpp`. That header splits a model's
triangle meshes into *meshlets* (small clusters of triangles with their own local vertex
index space). It then converts those meshlets into one of two GPU layouts:

- **`meshlet_gpu_data`** is self-contained. It has inline arrays of 64 vertex indices and
  378 local index bytes, plus 8-bit vertex and triangle counts.
- **`meshlet_indirect_gpu_data`** holds an offset and the two counts. The payload lives in
  one shared buffer of 32-bit words: each meshlet's vertex indices, then its local indices
  packed four bytes to a word.

Modules, leaf first:

- `Wrappers` and `Seqs` are small helpers. `Seqs` covers concatenation of runs, the shape
  that repeated `insert(end, …)` builds.
- `Packing` turns four index bytes into one little-endian word. It covers the packing
  loop as written, the zero-padded packing, and the unpacking that inverts both.
- `Meshlets` holds the CPU meshlet, the `WellFormed` predicate and the narrowing of counts
  to `uint8_t`. `WellFormed` means: the counts lie within their vectors, the indices form
  whole triangles, and every used local index is below `mVertexCount`.
- `FixedLayout` is the fixed branch of `convert_for_gpu_usage`, with its decoder and
  round trip.
- `IndirectLayout` is the indirect branch as the code writes it. The offset of each
  meshlet's data is a prefix sum. The code never stores that sum, so it is a ghost
  function here.
- `IndirectCorrected` is the indirect branch as its documentation comment describes it.
- `IndirectFindings` holds concrete inputs where the two indirect branches differ.
- `Division` models `divide_vertices_into_meshlets` and `divide_into_meshlets`. The
  partitioner callback is a function parameter, and so is the model's geometry access.

Modelling choices:

- Vertex indices and words are `bv32`, and index bytes are `bv8`.
- `uint32_t` counts are the subset type `U32`.
- Storing a count into a `uint8_t` field is written out as reduction modulo 256.
- The loop's `indexGroupCount = (mIndexCount + 3) / 4` is computed in `uint32_t`, so the
  addition wraps for the three largest counts. `LoopGroupCount` writes that wrap out.
  `GroupCount` is the unbounded `(count + 3) / 4`, which the documented layout and the
  decoder use.
- `emplace_back()` value-initialises each GPU struct. So unused inline slots are zero, and
  `mDataOffset` in the indirect form stays 0.

The documentation comment of `convert_for_gpu_usage` (lines 158-166) describes a layout the
code does not produce. In three places the model follows the code, and the corrected
behaviour is modelled beside it (see Findings):

- `mDataOffset` is never written.
- The whole `mVertices` vector is appended, not just `mVertexCount` entries.
- The packing loop reads whole words out of `mIndices`. It reads past the end exactly when
  `mIndices.size() < 4 * ((mIndexCount + 3) / 4)`, for example when the vector holds exactly
  `mIndexCount` bytes and that count is not a multiple of four.

## Model

| member | source | states |
|---|---|---|
| Meshlets.Content | framework/include/meshlet_helpers.hpp:15-24 | a well-formed meshlet's used part has mVertexCount vertex indices and mIndexCount local indices, and every local index names one of those vertices |
| Meshlets.Narrow | framework/include/meshlet_helpers.hpp:35-38 | storing a uint32_t count into a uint8_t field keeps its value exactly when it is below 256 |
| Meshlets.TriangleCount | framework/include/meshlet_helpers.hpp:178 | the stored triangle count is mIndexCount / 3 when that fits in 8 bits, and then three times it is mIndexCount for whole triangles |
| Packing.GroupCount | framework/include/meshlet_helpers.hpp:163 | the documented (mIndexCount + 3) / 4, taken without overflow, is the fewest words that hold that many bytes |
| Packing.LoopGroupCount | framework/include/meshlet_helpers.hpp:194 | indexGroupCount, computed in uint32_t, equals the documented group count for counts up to 0xFFFFFFFC and is 0 for the three larger counts, where the sum wraps |
| Packing.PackWord | framework/include/meshlet_helpers.hpp:193 | the uint32_t read through the reinterpret_cast has byte k equal to the k-th index byte (little-endian) |
| Packing.PackedWords | framework/include/meshlet_helpers.hpp:193-198 | the packing loop yields indexGroupCount words and needs 4 * indexGroupCount readable bytes |
| Packing.UnpackWordsRead | framework/include/meshlet_helpers.hpp:193-197 | unpacking words read four bytes at a time from a buffer gives back exactly the bytes that were read |
| Packing.UnpackPackedWords | framework/include/meshlet_helpers.hpp:193-198 | unpacking the packed words returns every byte that was read, and so the first count index bytes unless the group count wrapped |
| Packing.PaddedWords | framework/include/meshlet_helpers.hpp:161-163 | the documented packing yields (count + 3) / 4 words while reading only the first count bytes |
| Packing.UnpackPaddedWords | framework/include/meshlet_helpers.hpp:161-163 | unpacking the padded words returns the first count bytes followed only by zero padding |
| Packing.PackedEqualsPadded | framework/include/meshlet_helpers.hpp:193-197 | the two packings agree when the group count did not wrap and the bytes read past count exist and are zero |
| FixedLayout.ToFixed | framework/include/meshlet_helpers.hpp:174-181 | the inline arrays are 64 and 378 long, start with mVertices and mIndices, are zero after them, and hold the narrowed counts |
| FixedLayout.DecodeFixed | framework/include/meshlet_helpers.hpp:29-39 | a consumer reads mVertexCount vertex indices and 3 * mTriangleCount local indices, and fails only when those run past the arrays |
| FixedLayout.FixedRoundTrip | framework/include/meshlet_helpers.hpp:174-181 | decoding the fixed form of a well-formed meshlet that fits the arrays gives back exactly its used vertices and local indices |
| FixedLayout.ConvertFixed | framework/include/meshlet_helpers.hpp:167-202 | fixed conversion gives one entry per meshlet in input order and no auxiliary data, and each entry decodes to its meshlet |
| IndirectLayout.OffsetIsPrefixLength | framework/include/meshlet_helpers.hpp:190-198 | a meshlet's prefix-sum offset equals the total length of the runs before it |
| IndirectLayout.RunAt | framework/include/meshlet_helpers.hpp:190-198 | in the concatenated buffer, meshlet k's run sits at its prefix-sum offset, and the buffer is as long as the sum of all runs |
| IndirectLayout.RunPartsAt | framework/include/meshlet_helpers.hpp:190-198 | when meshlet k's run is its vertex part followed by its index words, each part sits at its place in the concatenated buffer |
| IndirectLayout.DecodeAt | framework/include/meshlet_helpers.hpp:158-166 | a consumer reads vertexCount words at the offset and unpacks 3 * triangleCount bytes from the following words, failing only past the buffer end |
| IndirectLayout.DecodeRun | framework/include/meshlet_helpers.hpp:158-166 | a buffer holding a meshlet's used vertices then its packed indices at an offset decodes there to that meshlet |
| IndirectLayout.AsWrittenEntry | framework/include/meshlet_helpers.hpp:186-188 | the indirect entry has mDataOffset 0 and the narrowed counts |
| IndirectLayout.Appended | framework/include/meshlet_helpers.hpp:189-198 | a meshlet contributes its vertex vector length plus indexGroupCount words |
| IndirectLayout.AsWrittenLayout | framework/include/meshlet_helpers.hpp:186-198 | the buffer length is the sum of contributions; meshlet k's whole vertex vector, then its packed words, start at its ghost offset; offset + mVertexCount + indexGroupCount is where the next meshlet starts exactly when the vertex vector holds mVertexCount entries |
| IndirectLayout.AsWrittenRoundTrip | framework/include/meshlet_helpers.hpp:158-166 | decoding the as-written buffer at the ghost offset gives back a well-formed meshlet whose vertex vector holds exactly mVertexCount entries |
| IndirectLayout.AuxDataStep | framework/include/meshlet_helpers.hpp:190-198 | processing one more meshlet extends the buffer by exactly that meshlet's run |
| IndirectLayout.AppendIndexGroups | framework/include/meshlet_helpers.hpp:193-198 | the inner loop appends exactly the packed index words |
| IndirectLayout.ConvertIndirect | framework/include/meshlet_helpers.hpp:167-202 | indirect conversion gives one entry per meshlet in order, each with mDataOffset 0; the auxiliary buffer is None exactly for empty input, and otherwise is the in-order concatenation of the runs with length equal to the sum of contributions |
| IndirectCorrected.DocumentedRun | framework/include/meshlet_helpers.hpp:161-163 | a meshlet's documented run is mVertexCount + (mIndexCount + 3) / 4 words long |
| IndirectCorrected.CorrectedEntry | framework/include/meshlet_helpers.hpp:161 | the corrected mDataOffset is the meshlet's documented offset whenever that fits in uint32_t |
| IndirectCorrected.OffsetBounded | framework/include/meshlet_helpers.hpp:161-163 | each meshlet's documented region ends within the total, so offsets never decrease |
| IndirectCorrected.DocumentedLayout | framework/include/meshlet_helpers.hpp:158-166 | the used vertices are at [offset, offset + mVertexCount), the padded words follow them, and the buffer length is the sum of documented lengths |
| IndirectCorrected.CorrectedRoundTrip | framework/include/meshlet_helpers.hpp:158-166 | decoding through an entry's own mDataOffset gives back its meshlet when the counts fit uint8_t and the buffer fits uint32_t offsets |
| IndirectCorrected.DocumentedRunDecodes | framework/include/meshlet_helpers.hpp:158-166 | a documented run in place decodes, with the meshlet's narrowed counts, to that meshlet's content |
| IndirectCorrected.CorrectedRoundTripAll | framework/include/meshlet_helpers.hpp:158-166 | the round trip holds for every meshlet of the sequence at once |
| IndirectCorrected.DocumentedDataStep | framework/include/meshlet_helpers.hpp:190-198 | processing one more meshlet extends the documented buffer by exactly its documented run |
| IndirectCorrected.AppendPaddedGroups | framework/include/meshlet_helpers.hpp:193-198 | the corrected inner loop appends exactly the zero-padded index words |
| IndirectCorrected.AppendDocumentedRun | framework/include/meshlet_helpers.hpp:189-198 | one corrected iteration appends exactly the meshlet's documented run |
| IndirectCorrected.ConvertIndirectCorrected | framework/include/meshlet_helpers.hpp:167-202 | corrected conversion gives one entry per meshlet with offsets from a running cursor, the same None-exactly-when-empty buffer, and a round trip for every meshlet |
| IndirectFindings.DataOffsetNeverWritten | framework/include/meshlet_helpers.hpp:186-188 | with two tight meshlets the second entry's mDataOffset is 0 while its data starts at 13, so decoding through the entry gives the wrong vertices |
| IndirectFindings.CorrectedOffsetRecorded | framework/include/meshlet_helpers.hpp:161 | on the same input the corrected entry records 13 and decodes to the second meshlet |
| IndirectFindings.WholeVertexVectorAppended | framework/include/meshlet_helpers.hpp:190 | for a well-formed meshlet with 4 vertex slots and mVertexCount 3, the documented read gets a vertex word instead of the packed indices; the corrected run decodes correctly |
| IndirectFindings.ExactIndexVectorOverread | framework/include/meshlet_helpers.hpp:193-197 | when mIndices holds exactly mIndexCount bytes and that count is not a multiple of 4, the loop reads 4 - mIndexCount % 4 bytes past the vector, unless the group count wrapped to 0 |
| IndirectFindings.FullMeshletOverread | framework/include/meshlet_helpers.hpp:193-197 | a full 378-index meshlet is well formed and fits the fixed form, but its packing reads 2 bytes past mIndices; padded packing still returns its indices |
| Division.MeshIndexOf | framework/include/meshlet_helpers.hpp:83-91 | the mesh index passed to the partitioner is nullopt exactly for a combined-submesh call, and otherwise is that call's mesh index |
| Division.Stamped | framework/include/meshlet_helpers.hpp:137-140 | every result carries the owning model, and restoring each meshlet's old model gives back what the partitioner returned, so no other field changes |
| Division.DivideVerticesIntoMeshlets | framework/include/meshlet_helpers.hpp:109-143 | one partitioner call; its meshlets come back in the same order and number, each with the owning model stamped on |
| Division.DivideAllAppend | framework/include/meshlet_helpers.hpp:85-93 | the results of two batches of calls are concatenated in call order |
| Division.DivideAllSingle | framework/include/meshlet_helpers.hpp:83-85 | collecting a single call gives exactly that call's result |
| Division.Requests | framework/include/meshlet_helpers.hpp:77-96 | with combined submeshes there is one call per model with nullopt; otherwise there is one call per selected mesh index, model by model |
| Division.RequestsPerMesh | framework/include/meshlet_helpers.hpp:87-94 | without combined submeshes, the call for mesh index t of model k comes at position MeshCount(models[..k]) + t, after every earlier model's calls and model k's earlier ones, and passes Some of that mesh index for that model |
| Division.RequestsStep | framework/include/meshlet_helpers.hpp:77-96 | adding a model appends exactly that model's calls |
| Division.RequestsModels | framework/include/meshlet_helpers.hpp:77-79 | every division call is for one of the selected models |
| Division.DivideAllModels | framework/include/meshlet_helpers.hpp:137-140 | every collected meshlet carries the model of one of the calls |
| Division.DivideAllValid | framework/include/meshlet_helpers.hpp:152-156 | if the partitioner returns well-formed meshlets within its limits, so does the collected output |
| Division.DivideEachMesh | framework/include/meshlet_helpers.hpp:88-94 | the per-mesh loop collects one division per mesh index with Some(mesh index), in order |
| Division.DivideSelection | framework/include/meshlet_helpers.hpp:81-95 | one model's iteration collects exactly the results of that model's division calls: one combined call or one per selected mesh index |
| Division.DivideIntoMeshlets | framework/include/meshlet_helpers.hpp:72-98 | the output is the in-order concatenation of the results of the calls Requests describes, and every meshlet belongs to a selected model |

## Findings

| source | as written | input that shows it | evidently intended | confidence | as-written member | corrected member |
|---|---|---|---|---|---|---|
| framework/include/meshlet_helpers.hpp:186-188 | `mDataOffset` is never assigned, so every entry keeps the value-initialised 0 | two tight meshlets: 10 vertices/12 indices, then 5 vertices/6 indices; the second's data starts at word 13, but its entry says 0 | record the running write cursor as `mDataOffset`, as lines 161-163 describe | medium, not executed | IndirectFindings.DataOffsetNeverWritten | IndirectCorrected.ConvertIndirectCorrected |
| framework/include/meshlet_helpers.hpp:190 | the whole `mVertices` vector is appended, though the layout reserves only `mVertexCount` words | a well-formed meshlet with 4 vertex slots and `mVertexCount` 3; the documented index position holds a vertex index | append the first `mVertexCount` vertex indices | medium, not executed | IndirectFindings.WholeVertexVectorAppended | IndirectCorrected.ConvertIndirectCorrected |
| framework/include/meshlet_helpers.hpp:193-197 | `(mIndexCount + 3) / 4` words are read through a `uint32_t*` into `mIndices` | a full meshlet whose `mIndices` holds exactly 378 bytes: 95 words read 380 bytes | zero-pad the last word instead of reading past the vector | medium, not executed | IndirectFindings.FullMeshletOverread | Packing.PaddedWords |

## Left out

- The greedy partitioner `divide_into_meshlets_simple` (lines 152-156) is only declared; its body is not part of this model. Division takes any partitioner as a parameter, and `ProducesValidMeshlets` states the contract a partitioner is meant to meet.
- The overload of `divide_into_meshlets` without a callback (lines 53-61) is only declared; its body and its default limits (64, 378) are not part of this model.
- The default arguments of the callback overload (`aMaxVertices = 64`, `aMaxIndices = 378`, `aCombineSubmeshes = true`, line 74) are dropped: Division.DivideIntoMeshlets takes all three explicitly.
- Compile-time callback dispatch (lines 122-135) is one function parameter that receives the vertices too; an index-only callback is one that ignores them. The fallback branch (lines 128-135: `static_assert(false)` under MSVC, otherwise `assert(false)` and a thrown `avk::logic_error`) is not modelled: a typed function parameter cannot be a callable that matches neither signature.
- Model access (`get_vertices_and_indices`, `positions_for_mesh`, `indices_for_mesh`) is the `fetch` parameter. Vertex positions (glm `vec3`, floating point) are an opaque type parameter.
- Model ownership (`resource_ownership`, `own`, `enable_shared_ownership`, the repeated `std::move` at line 91) is modelled as an immutable model value.
- Struct layout (`alignas(16)`, padding, byte sizes) carries no semantic content and is not modelled.
- FixedLayout.ConvertFixed: requires `mVertices` and `mIndices` to fit the 64 and 378 slots, because the copies at lines 179-180 are undefined behaviour otherwise.
- IndirectLayout.ConvertIndirect: requires `mIndices` to hold the 4 * indexGroupCount bytes the loop reads, because reading past the vector is undefined behaviour (third finding).
- The little-endian reading of four bytes as one word assumes the targets the renderer runs on; big-endian hosts are not modelled.
- IndirectCorrected.CorrectedRoundTrip: stated only for buffers shorter than 2^32 words, because a `uint32_t` offset wraps beyond that.
- The content cache (`convert_for_gpu_usage_cached`, `gvk::serializer`, cache file names) is file I/O, and its implementation is not part of this model.
- `examples/skinned_meshlets/source/skinned_meshlets.cpp` (Vulkan resources, animation, material search, per-meshlet metadata) and `framework/include/image_view_vulkan.hpp` are outside the core. So are the templated GPU types used by the example, which do not match this header.
