/** The indirect branch of convert_for_gpu_usage as its documentation
    describes it: each entry's mDataOffset records where its data starts, the
    data is mVertexCount vertex indices followed by (mIndexCount + 3) / 4
    packed words, and the last word is zero-padded instead of read past the
    index vector. */
module IndirectCorrected {
  import opened Wrappers
  import opened Seqs
  import opened Meshlets
  import opened Packing
  import opened IndirectLayout

  /** Where meshlet `k`'s data starts in the documented layout. */
  function DocumentedOffset(ms: seq<Meshlet>, k: nat): (off: nat)
    requires k <= |ms|
  {
    Offset(ms, k, DocumentedLength)
  }

  /** A meshlet's documented run: its used vertex indices, then its used local
      indices packed four to a word. */
  function DocumentedRun(m: Meshlet): (ws: seq<bv32>)
    requires WellFormed(m)
    ensures |ws| == DocumentedLength(m)
  {
    m.vertices[..m.vertexCount] + PaddedWords(m.indices, m.indexCount)
  }

  function DocumentedRuns(ms: seq<Meshlet>): (rs: seq<seq<bv32>>)
    requires forall i :: 0 <= i < |ms| ==> WellFormed(ms[i])
  {
    seq(|ms|, i requires 0 <= i < |ms| => DocumentedRun(ms[i]))
  }

  /** The documented auxiliary buffer: every meshlet's documented run, in order. */
  function DocumentedData(ms: seq<Meshlet>): (data: seq<bv32>)
    requires forall i :: 0 <= i < |ms| ==> WellFormed(ms[i])
  {
    Concat(DocumentedRuns(ms))
  }

  /** The entry for meshlet `k`: the running cursor stored into the uint32_t
      mDataOffset, and the narrowed counts. */
  function CorrectedEntry(ms: seq<Meshlet>, k: nat): (g: IndirectMeshlet)
    requires k < |ms|
    ensures DocumentedOffset(ms, k) < 0x1_0000_0000 ==> g.dataOffset == DocumentedOffset(ms, k)
    ensures g.vertexCount == ms[k].vertexCount <==> ms[k].vertexCount < 256
    ensures ms[k].indexCount / 3 < 256 ==> g.triangleCount == ms[k].indexCount / 3
  {
    IndirectMeshlet(DocumentedOffset(ms, k) % 0x1_0000_0000, Narrow(ms[k].vertexCount), TriangleCount(ms[k]))
  }

  /** Offsets never decrease, and each meshlet's run ends within the total. */
  lemma {:induction false} OffsetBounded(ms: seq<Meshlet>, k: nat, n: nat, len: Meshlet -> nat)
    requires k < n <= |ms|
    ensures Offset(ms, k, len) + len(ms[k]) <= Offset(ms, n, len)
    decreases n - k
  {
    if k + 1 < n {
      OffsetBounded(ms, k + 1, n, len);
    }
  }

  /** The documented layout holds: the buffer is as long as the sum of the
      documented lengths, and meshlet `k`'s used vertex indices start at
      DocumentedOffset(ms, k), its zero-padded index words right after them. */
  lemma DocumentedLayout(ms: seq<Meshlet>, k: nat)
    requires forall i :: 0 <= i < |ms| ==> WellFormed(ms[i])
    requires k < |ms|
    ensures |DocumentedData(ms)| == DocumentedOffset(ms, |ms|)
    ensures var off, m := DocumentedOffset(ms, k), ms[k];
            && off + DocumentedLength(m) <= |DocumentedData(ms)|
            && DocumentedData(ms)[off .. off + m.vertexCount] == m.vertices[..m.vertexCount]
            && DocumentedData(ms)[off + m.vertexCount .. off + DocumentedLength(m)]
               == PaddedWords(m.indices, m.indexCount)
  {
    var m := ms[k];
    var runs := DocumentedRuns(ms);
    forall i | 0 <= i < |ms|
      ensures |runs[i]| == DocumentedLength(ms[i])
    {
      assert runs[i] == DocumentedRun(ms[i]);
    }
    var vs, ws := m.vertices[..m.vertexCount], PaddedWords(m.indices, m.indexCount);
    assert runs[k] == vs + ws;
    RunPartsAt(ms, runs, DocumentedLength, k, vs, ws);
  }

  /** Round trip of the corrected indirect form: decoding through an entry's
      own mDataOffset gives back its meshlet's used vertices and local indices,
      whenever the counts fit in uint8_t and the buffer fits uint32_t offsets. */
  lemma CorrectedRoundTrip(ms: seq<Meshlet>, k: nat)
    requires forall i :: 0 <= i < |ms| ==> WellFormed(ms[i])
    requires k < |ms| && CountsFit(ms[k])
    requires DocumentedOffset(ms, |ms|) < 0x1_0000_0000
    ensures DecodeIndirect(DocumentedData(ms), CorrectedEntry(ms, k)) == Some(Content(ms[k]))
  {
    var m, off, data := ms[k], DocumentedOffset(ms, k), DocumentedData(ms);
    OffsetBounded(ms, k, |ms|, DocumentedLength);
    assert CorrectedEntry(ms, k) == IndirectMeshlet(off, Narrow(m.vertexCount), TriangleCount(m));
    DocumentedLayout(ms, k);
    DocumentedRunDecodes(data, off, m);
  }

  /** Decoding a documented run in place, with the meshlet's own counts,
      gives back its content. */
  lemma DocumentedRunDecodes(data: seq<bv32>, off: nat, m: Meshlet)
    requires WellFormed(m) && CountsFit(m)
    requires off + DocumentedLength(m) <= |data|
    requires data[off .. off + m.vertexCount] == m.vertices[..m.vertexCount]
    requires data[off + m.vertexCount .. off + DocumentedLength(m)] == PaddedWords(m.indices, m.indexCount)
    ensures DecodeAt(data, off, Narrow(m.vertexCount), TriangleCount(m)) == Some(Content(m))
  {
    UnpackPaddedWords(m.indices, m.indexCount);
    DecodeRun(data, off, m, PaddedWords(m.indices, m.indexCount));
  }

  /** Appending one more meshlet's documented run extends the buffer by exactly that run. */
  lemma DocumentedDataStep(ms: seq<Meshlet>, k: nat)
    requires forall i :: 0 <= i < |ms| ==> WellFormed(ms[i])
    requires k < |ms|
    ensures DocumentedData(ms[..k + 1]) == DocumentedData(ms[..k]) + DocumentedRun(ms[k])
  {
    var runs := DocumentedRuns(ms[..k + 1]);
    assert runs[..k] == DocumentedRuns(ms[..k]);
  }

  /** Pushes the used local indices, four to a zero-padded word. */
  method AppendPaddedGroups(buffer: seq<bv32>, m: Meshlet) returns (out: seq<bv32>)
    requires WellFormed(m)
    ensures out == buffer + PaddedWords(m.indices, m.indexCount)
  {
    var padded := m.indices[..m.indexCount] + Zeros(4 * GroupCount(m.indexCount) - m.indexCount);
    out := buffer;
    var groups := GroupCount(m.indexCount);
    var i := 0;
    while i < groups
      invariant 0 <= i <= groups
      invariant out == buffer + PaddedWords(m.indices, m.indexCount)[..i]
    {
      out := out + [WordAt(padded, i)];
      i := i + 1;
    }
  }

  /** Appends one meshlet's documented run: its used vertex indices, then its
      padded index words. */
  method AppendDocumentedRun(buffer: seq<bv32>, m: Meshlet) returns (out: seq<bv32>)
    requires WellFormed(m)
    ensures out == buffer + DocumentedRun(m)
  {
    out := AppendPaddedGroups(buffer + m.vertices[..m.vertexCount], m);
  }

  /** The round trip for every meshlet of a converted sequence at once. */
  lemma CorrectedRoundTripAll(ms: seq<Meshlet>)
    requires forall i :: 0 <= i < |ms| ==> WellFormed(ms[i])
    requires DocumentedOffset(ms, |ms|) < 0x1_0000_0000
    ensures forall i :: 0 <= i < |ms| && CountsFit(ms[i]) ==>
              DecodeIndirect(DocumentedData(ms), CorrectedEntry(ms, i)) == Some(Content(ms[i]))
  {
    forall i | 0 <= i < |ms| && CountsFit(ms[i])
      ensures DecodeIndirect(DocumentedData(ms), CorrectedEntry(ms, i)) == Some(Content(ms[i]))
    {
      CorrectedRoundTrip(ms, i);
    }
  }

  /** The corrected indirect conversion: a running write cursor is recorded as
      each entry's mDataOffset before that meshlet's used vertices and padded
      index words are appended. */
  method ConvertIndirectCorrected(ms: seq<Meshlet>) returns (gpu: seq<IndirectMeshlet>, data: Option<seq<bv32>>)
    requires forall i :: 0 <= i < |ms| ==> WellFormed(ms[i])
    ensures |gpu| == |ms|
    ensures forall i :: 0 <= i < |ms| ==> gpu[i] == CorrectedEntry(ms, i)
    ensures data.None? <==> |ms| == 0
    ensures data.Some? ==> data.value == DocumentedData(ms)
    ensures data.Some? && DocumentedOffset(ms, |ms|) < 0x1_0000_0000 ==>
              forall i :: 0 <= i < |ms| && CountsFit(ms[i]) ==>
                DecodeIndirect(data.value, gpu[i]) == Some(Content(ms[i]))
  {
    gpu := [];
    data := None;
    var cursor: nat := 0;
    var k := 0;
    while k < |ms|
      invariant 0 <= k <= |ms|
      invariant |gpu| == k
      invariant forall i :: 0 <= i < k ==> gpu[i] == CorrectedEntry(ms, i)
      invariant cursor == DocumentedOffset(ms, k)
      invariant data.None? <==> k == 0
      invariant data.Some? ==> data.value == DocumentedData(ms[..k])
    {
      var m := ms[k];
      var entry := IndirectMeshlet(cursor % 0x1_0000_0000, Narrow(m.vertexCount), Narrow(m.indexCount / 3));
      assert entry == CorrectedEntry(ms, k);
      gpu := gpu + [entry];
      var buffer := AppendDocumentedRun(if data.None? then [] else data.value, m);
      DocumentedDataStep(ms, k);
      cursor := cursor + m.vertexCount + GroupCount(m.indexCount);
      data := Some(buffer);
      k := k + 1;
    }
    assert ms[..k] == ms;
    if DocumentedOffset(ms, |ms|) < 0x1_0000_0000 {
      CorrectedRoundTripAll(ms);
    }
  }
}
