/** Concrete inputs on which the indirect branch of convert_for_gpu_usage, as
    written, departs from the layout its documentation describes, each paired
    with what the corrected conversion does on the same input. */
module IndirectFindings {
  import opened Wrappers
  import opened Meshlets
  import opened Packing
  import opened FixedLayout
  import opened IndirectLayout
  import opened IndirectCorrected

  /** Ten vertices, four triangles. */
  function FirstMeshlet(): (m: Meshlet)
  {
    Meshlet(ModelHandle(0), None, [0, 1, 2, 3, 4, 5, 6, 7, 8, 9],
            [0, 1, 2, 2, 1, 3, 4, 5, 6, 7, 8, 9], 10, 12)
  }

  /** Five vertices, two triangles; the index vector is padded to whole words. */
  function SecondMeshlet(): (m: Meshlet)
  {
    Meshlet(ModelHandle(0), None, [100, 101, 102, 103, 104],
            [0, 1, 2, 2, 3, 4, 0, 0], 5, 6)
  }

  /** The two meshlets above, in order. */
  function TwoMeshlets(): (ms: seq<Meshlet>)
    ensures forall i :: 0 <= i < |ms| ==> WellFormed(ms[i]) && Tight(ms[i]) && ReadsInBounds(ms[i])
  {
    [FirstMeshlet(), SecondMeshlet()]
  }

  /** mDataOffset is never written. For two tight, well-formed meshlets the
      second one's data starts at word 10 + 3 = 13, but its entry says 0, so
      decoding through the entry reads the first meshlet's vertices. */
  lemma DataOffsetNeverWritten()
    ensures var ms := TwoMeshlets();
            && AsWrittenEntry(ms[1]).dataOffset == 0
            && DataOffset(ms, 1) == 13
            && DecodeIndirect(AuxData(ms), AsWrittenEntry(ms[1])) != Some(Content(ms[1]))
  {
    var ms := TwoMeshlets();
    assert DataOffset(ms, 1) == AppendedLength(ms[0]) == 13;
    AsWrittenLayout(ms, 0);
    assert AuxData(ms)[0] == AuxData(ms)[0 .. 10][0] == 0;
    var read := DecodeIndirect(AuxData(ms), AsWrittenEntry(ms[1]));
    assert read.Some? ==> read.value.vertices[0] == AuxData(ms)[0];
    assert Content(ms[1]).vertices[0] == 100;
  }

  /** On the same input the corrected entry records offset 13 and decodes to
      the second meshlet. */
  lemma CorrectedOffsetRecorded()
    ensures var ms := TwoMeshlets();
            && CorrectedEntry(ms, 1).dataOffset == 13
            && DecodeIndirect(DocumentedData(ms), CorrectedEntry(ms, 1)) == Some(Content(ms[1]))
  {
    var ms := TwoMeshlets();
    assert DocumentedOffset(ms, 1) == DocumentedLength(ms[0]) == 13;
    assert DocumentedOffset(ms, 2) == 13 + DocumentedLength(ms[1]) == 20;
    CorrectedRoundTrip(ms, 1);
  }

  /** A meshlet whose vertex vector is longer than mVertexCount (capacity-sized,
      as "the actual number of vertices inside of mVertices" allows). */
  function SlackMeshlet(): (m: Meshlet)
  {
    Meshlet(ModelHandle(0), None, [7, 7, 7, 7], [0, 1, 2, 0], 3, 3)
  }

  /** The whole vertex vector is appended. With four vertex slots and
      mVertexCount 3, the documented position of the packed indices
      (offset + 3) holds a vertex index, so decoding there does not give the
      meshlet back; the corrected run appends three vertices and does. */
  lemma WholeVertexVectorAppended()
    ensures var m := SlackMeshlet();
            && WellFormed(m) && ReadsInBounds(m) && !Tight(m)
            && DecodeAt(AuxData([m]), DataOffset([m], 0), AsWrittenEntry(m).vertexCount, AsWrittenEntry(m).triangleCount)
               != Some(Content(m))
            && DecodeIndirect(DocumentedData([m]), CorrectedEntry([m], 0)) == Some(Content(m))
  {
    var m := SlackMeshlet();
    var ms := [m];
    assert WellFormed(ms[0]);
    AsWrittenLayout(ms, 0);
    assert AuxData(ms)[3] == AuxData(ms)[0 .. 4][3] == 7;
    var read := DecodeAt(AuxData(ms), 0, 3, 1);
    assert read.Some? ==> read.value.indices[0] == ByteOf(AuxData(ms)[3], 0) == 7;
    assert Content(m).indices[0] == 0;
    assert GroupCount(m.indexCount) == 1;
    assert DocumentedLength(m) == 4;
    assert DocumentedOffset(ms, 1) == Offset(ms, 0, DocumentedLength) + DocumentedLength(ms[0]) == 4;
    CorrectedRoundTrip(ms, 0);
  }

  /** A full meshlet at the default capacity: 126 triangles whose 378 index
      bytes fill the index vector exactly. */
  function FullMeshlet(): (m: Meshlet)
  {
    Meshlet(ModelHandle(0), None, [5], Zeros(378), 1, 378)
  }

  /** The packing loop reads 4 * ((mIndexCount + 3) / 4) bytes. Whenever the
      index vector holds exactly mIndexCount bytes and that count is not a
      multiple of four, the last word reaches past the vector by the bytes
      missing from the last group; only when mIndexCount + 3 wraps in uint32
      does the loop read nothing at all. */
  lemma {:induction false} ExactIndexVectorOverread(m: Meshlet)
    requires |m.indices| == m.indexCount && m.indexCount % 4 != 0
    ensures m.indexCount <= 0xFFFF_FFFC ==> !ReadsInBounds(m)
    ensures m.indexCount <= 0xFFFF_FFFC ==> 4 * LoopGroupCount(m.indexCount) - |m.indices| == 4 - m.indexCount % 4
    ensures m.indexCount > 0xFFFF_FFFC ==> LoopGroupCount(m.indexCount) == 0
  {
  }

  /** The full default-capacity meshlet is well formed and fits the fixed
      form, yet its packing reads two bytes past the index vector; the padded
      packing stays inside and still unpacks to its indices. */
  lemma FullMeshletOverread()
    ensures var m := FullMeshlet();
            && WellFormed(m) && FitsFixed(m) && !ReadsInBounds(m)
            && 4 * LoopGroupCount(m.indexCount) == |m.indices| + 2
            && UnpackWords(PaddedWords(m.indices, m.indexCount))[..m.indexCount] == m.indices
  {
    var m := FullMeshlet();
    ExactIndexVectorOverread(m);
    UnpackPaddedWords(m.indices, m.indexCount);
    assert m.indices[..m.indexCount] == m.indices;
  }
}
