/** The indirect GPU meshlet (`meshlet_indirect_gpu_data`), the shared word
    buffer the indirect branch of convert_for_gpu_usage builds, and the layout
    of that buffer, both as the loop writes it and as its documentation
    describes it. */
module IndirectLayout {
  import opened Wrappers
  import opened Seqs
  import opened Meshlets
  import opened Packing

  /** meshlet_indirect_gpu_data. */
  datatype IndirectMeshlet = IndirectMeshlet(dataOffset: U32, vertexCount: U8, triangleCount: U8)

  // ---------------------------------------------------------------------------
  // Offsets

  /** Words the loop appends for one meshlet: the whole vertex vector, then the
      packed index groups. */
  function AppendedLength(m: Meshlet): (n: nat)
  {
    |m.vertices| + LoopGroupCount(m.indexCount)
  }

  /** Words the documented layout reserves for one meshlet: mVertexCount vertex
      indices, then (mIndexCount + 3) / 4 packed index groups. */
  function DocumentedLength(m: Meshlet): (n: nat)
  {
    m.vertexCount + GroupCount(m.indexCount)
  }

  /** Sum of `len` over the first `k` meshlets: where meshlet `k` starts when
      every meshlet occupies `len` words. */
  function Offset(ms: seq<Meshlet>, k: nat, len: Meshlet -> nat): (off: nat)
    requires k <= |ms|
  {
    if k == 0 then 0 else Offset(ms, k - 1, len) + len(ms[k - 1])
  }

  /** Where the loop as written places meshlet `k`'s data. The code never
      stores this value anywhere; it exists only to state the layout. */
  ghost function DataOffset(ms: seq<Meshlet>, k: nat): (off: nat)
    requires k <= |ms|
  {
    Offset(ms, k, AppendedLength)
  }

  /** The offsets are prefix lengths of any run sequence whose runs have the
      per-meshlet lengths `len`. */
  lemma {:induction false} OffsetIsPrefixLength(ms: seq<Meshlet>, runs: seq<seq<bv32>>, len: Meshlet -> nat, k: nat)
    requires |runs| == |ms| && k <= |ms|
    requires forall i :: 0 <= i < |ms| ==> |runs[i]| == len(ms[i])
    ensures Offset(ms, k, len) == TotalLength(runs[..k])
  {
    if k > 0 {
      OffsetIsPrefixLength(ms, runs, len, k - 1);
      ConcatSlice(runs, k - 1);
    }
  }

  /** In the concatenation of runs of lengths `len`, run `k` occupies the
      words from Offset(ms, k, len) on, and the whole is Offset(ms, |ms|, len)
      long. */
  lemma RunAt(ms: seq<Meshlet>, runs: seq<seq<bv32>>, len: Meshlet -> nat, k: nat)
    requires |runs| == |ms| && k < |ms|
    requires forall i :: 0 <= i < |ms| ==> |runs[i]| == len(ms[i])
    ensures |Concat(runs)| == Offset(ms, |ms|, len)
    ensures Offset(ms, k, len) + len(ms[k]) <= |Concat(runs)|
    ensures Concat(runs)[Offset(ms, k, len) .. Offset(ms, k, len) + len(ms[k])] == runs[k]
  {
    OffsetIsPrefixLength(ms, runs, len, |ms|);
    assert runs[..|ms|] == runs;
    OffsetIsPrefixLength(ms, runs, len, k);
    OffsetIsPrefixLength(ms, runs, len, k + 1);
    ConcatSlice(runs, k);
  }

  /** The same, for a run made of two parts: each part sits at its place. */
  lemma RunPartsAt(ms: seq<Meshlet>, runs: seq<seq<bv32>>, len: Meshlet -> nat, k: nat, a: seq<bv32>, b: seq<bv32>)
    requires |runs| == |ms| && k < |ms|
    requires forall i :: 0 <= i < |ms| ==> |runs[i]| == len(ms[i])
    requires runs[k] == a + b
    ensures |Concat(runs)| == Offset(ms, |ms|, len)
    ensures Offset(ms, k, len) + |a| + |b| <= |Concat(runs)|
    ensures Concat(runs)[Offset(ms, k, len) .. Offset(ms, k, len) + |a|] == a
    ensures Concat(runs)[Offset(ms, k, len) + |a| .. Offset(ms, k, len) + |a| + |b|] == b
  {
    RunAt(ms, runs, len, k);
    SliceSplit(Concat(runs), Offset(ms, k, len), a, b);
  }

  // ---------------------------------------------------------------------------
  // Decoding

  /** What a consumer reads for a meshlet whose data starts at `offset`:
      `vertexCount` vertex indices, then the local indices unpacked from the
      (3 * triangleCount + 3) / 4 words that follow. None when that region
      runs past the buffer. */
  function DecodeAt(data: seq<bv32>, offset: nat, vertexCount: U8, triangleCount: U8): (r: Option<Geometry>)
    ensures r.Some? <==> offset + vertexCount + GroupCount(3 * triangleCount) <= |data|
    ensures r.Some? ==> r.value.vertices == data[offset .. offset + vertexCount]
    ensures r.Some? ==> |r.value.indices| == 3 * triangleCount
  {
    var indexCount := 3 * triangleCount;
    var groupsAt := offset + vertexCount;
    var end := groupsAt + GroupCount(indexCount);
    if end <= |data|
    then Some(Geometry(data[offset .. groupsAt], UnpackWords(data[groupsAt .. end])[..indexCount]))
    else None
  }

  /** Decoding through the entry's own mDataOffset. */
  function DecodeIndirect(data: seq<bv32>, g: IndirectMeshlet): (r: Option<Geometry>)
  {
    DecodeAt(data, g.dataOffset, g.vertexCount, g.triangleCount)
  }

  /** Both counts survive narrowing to uint8_t. */
  predicate CountsFit(m: Meshlet)
  {
    m.vertexCount < 256 && m.indexCount / 3 < 256
  }

  /** If a buffer holds, at `offset`, the used vertices followed by words whose
      unpacking starts with the used local indices, decoding there with the
      meshlet's own counts gives back its content. */
  lemma DecodeRun(data: seq<bv32>, offset: nat, m: Meshlet, words: seq<bv32>)
    requires WellFormed(m) && CountsFit(m)
    requires |words| == GroupCount(m.indexCount)
    requires UnpackWords(words)[..m.indexCount] == m.indices[..m.indexCount]
    requires offset + m.vertexCount + |words| <= |data|
    requires data[offset .. offset + m.vertexCount] == m.vertices[..m.vertexCount]
    requires data[offset + m.vertexCount .. offset + m.vertexCount + |words|] == words
    ensures DecodeAt(data, offset, Narrow(m.vertexCount), TriangleCount(m)) == Some(Content(m))
  {
    assert 3 * TriangleCount(m) == m.indexCount;
  }

  // ---------------------------------------------------------------------------
  // The branch as written

  /** The packing loop reads four bytes of mIndices for each of the
      (mIndexCount + 3) / 4 groups it computes in uint32 arithmetic. */
  predicate ReadsInBounds(m: Meshlet)
  {
    4 * LoopGroupCount(m.indexCount) <= |m.indices|
  }

  /** The entry the loop writes: counts narrowed, mDataOffset left at the zero
      emplace_back value-initialised it with. */
  function AsWrittenEntry(m: Meshlet): (g: IndirectMeshlet)
    ensures g.dataOffset == 0
    ensures g.vertexCount == m.vertexCount <==> m.vertexCount < 256
    ensures m.indexCount / 3 < 256 ==> g.triangleCount == m.indexCount / 3
  {
    IndirectMeshlet(0, Narrow(m.vertexCount), TriangleCount(m))
  }

  /** The words the loop appends for one meshlet. */
  function Appended(m: Meshlet): (ws: seq<bv32>)
    requires ReadsInBounds(m)
    ensures |ws| == AppendedLength(m)
  {
    m.vertices + PackedWords(m.indices, m.indexCount)
  }

  function AppendedRuns(ms: seq<Meshlet>): (rs: seq<seq<bv32>>)
    requires forall i :: 0 <= i < |ms| ==> ReadsInBounds(ms[i])
  {
    seq(|ms|, i requires 0 <= i < |ms| => Appended(ms[i]))
  }

  /** The auxiliary buffer the loop builds: every meshlet's run, in order. */
  function AuxData(ms: seq<Meshlet>): (data: seq<bv32>)
    requires forall i :: 0 <= i < |ms| ==> ReadsInBounds(ms[i])
  {
    Concat(AppendedRuns(ms))
  }

  /** The buffer as written: it is as long as the sum of the per-meshlet
      contributions; meshlet `k` occupies the words from DataOffset(ms, k) on,
      its whole vertex vector first and then its packed index groups; and the
      place the documentation gives the next meshlet, DataOffset + mVertexCount
      + groups, is where the next meshlet really starts exactly when the vertex
      vector holds mVertexCount entries. */
  lemma AsWrittenLayout(ms: seq<Meshlet>, k: nat)
    requires forall i :: 0 <= i < |ms| ==> ReadsInBounds(ms[i])
    requires k < |ms|
    ensures |AuxData(ms)| == DataOffset(ms, |ms|)
    ensures var off, m := DataOffset(ms, k), ms[k];
            && off + AppendedLength(m) <= |AuxData(ms)|
            && AuxData(ms)[off .. off + |m.vertices|] == m.vertices
            && AuxData(ms)[off + |m.vertices| .. off + AppendedLength(m)]
               == PackedWords(m.indices, m.indexCount)
    ensures DataOffset(ms, k + 1) == DataOffset(ms, k) + ms[k].vertexCount + LoopGroupCount(ms[k].indexCount)
            <==> Tight(ms[k])
  {
    var m := ms[k];
    var runs := AppendedRuns(ms);
    forall i | 0 <= i < |ms|
      ensures |runs[i]| == AppendedLength(ms[i])
    {
      assert runs[i] == Appended(ms[i]);
    }
    var ws := PackedWords(m.indices, m.indexCount);
    assert runs[k] == m.vertices + ws;
    RunPartsAt(ms, runs, AppendedLength, k, m.vertices, ws);
  }

  /** Round trip of the buffer as written, decoding at the ghost offset (the
      entry's own mDataOffset is 0): a well-formed meshlet whose vertex vector
      holds exactly mVertexCount entries comes back intact. */
  lemma AsWrittenRoundTrip(ms: seq<Meshlet>, k: nat)
    requires forall i :: 0 <= i < |ms| ==> ReadsInBounds(ms[i])
    requires k < |ms| && WellFormed(ms[k]) && Tight(ms[k]) && CountsFit(ms[k])
    ensures var g := AsWrittenEntry(ms[k]);
            DecodeAt(AuxData(ms), DataOffset(ms, k), g.vertexCount, g.triangleCount) == Some(Content(ms[k]))
  {
    var m := ms[k];
    var data, off := AuxData(ms), DataOffset(ms, k);
    var words := PackedWords(m.indices, m.indexCount);
    AsWrittenLayout(ms, k);
    assert m.vertices[..m.vertexCount] == m.vertices;
    assert data[off .. off + m.vertexCount] == m.vertices[..m.vertexCount];
    assert data[off + m.vertexCount .. off + m.vertexCount + |words|] == words;
    UnpackPackedWords(m.indices, m.indexCount);
    assert UnpackWords(words)[..m.indexCount] == m.indices[..m.indexCount];
    DecodeRun(data, off, m, words);
  }

  /** Appending one more meshlet's run extends the buffer by exactly that run. */
  lemma AuxDataStep(ms: seq<Meshlet>, k: nat)
    requires forall i :: 0 <= i < |ms| ==> ReadsInBounds(ms[i])
    requires k < |ms|
    ensures AuxData(ms[..k + 1]) == AuxData(ms[..k]) + Appended(ms[k])
  {
    var runs := AppendedRuns(ms[..k + 1]);
    assert runs[..k] == AppendedRuns(ms[..k]);
  }

  /** The inner loop: (mIndexCount + 3) / 4 words, the sum wrapping in uint32,
      read through the reinterpret_cast of the index bytes, pushed one by one. */
  method AppendIndexGroups(buffer: seq<bv32>, m: Meshlet) returns (out: seq<bv32>)
    requires ReadsInBounds(m)
    ensures out == buffer + PackedWords(m.indices, m.indexCount)
  {
    out := buffer;
    var groups := LoopGroupCount(m.indexCount);
    var i := 0;
    while i < groups
      invariant 0 <= i <= groups
      invariant out == buffer + PackedWords(m.indices, m.indexCount)[..i]
    {
      out := out + [WordAt(m.indices, i)];
      i := i + 1;
    }
  }

  /** The indirect branch of convert_for_gpu_usage as written: one entry per
      meshlet, in order, each with mDataOffset 0; the auxiliary buffer exists
      exactly when there is at least one meshlet and then is the in-order
      concatenation of the runs. */
  method ConvertIndirect(ms: seq<Meshlet>) returns (gpu: seq<IndirectMeshlet>, data: Option<seq<bv32>>)
    requires forall i :: 0 <= i < |ms| ==> ReadsInBounds(ms[i])
    ensures |gpu| == |ms|
    ensures forall i :: 0 <= i < |ms| ==> gpu[i] == AsWrittenEntry(ms[i])
    ensures data.None? <==> |ms| == 0
    ensures data.Some? ==> data.value == AuxData(ms)
    ensures data.Some? ==> |data.value| == DataOffset(ms, |ms|)
  {
    gpu := [];
    data := None;
    var k := 0;
    while k < |ms|
      invariant 0 <= k <= |ms|
      invariant |gpu| == k
      invariant forall i :: 0 <= i < k ==> gpu[i] == AsWrittenEntry(ms[i])
      invariant data.None? <==> k == 0
      invariant data.Some? ==> data.value == AuxData(ms[..k])
    {
      var m := ms[k];
      var buffer := if data.None? then [] else data.value;
      gpu := gpu + [IndirectMeshlet(0, Narrow(m.vertexCount), Narrow(m.indexCount / 3))];
      buffer := AppendIndexGroups(buffer + m.vertices, m);
      AuxDataStep(ms, k);
      data := Some(buffer);
      k := k + 1;
    }
    assert ms[..k] == ms;
    if k > 0 {
      AsWrittenLayout(ms, 0);
    }
  }
}
