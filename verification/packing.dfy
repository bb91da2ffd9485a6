/** Four local index bytes read through a `const uint32_t*` (the
    reinterpret_cast in convert_for_gpu_usage), and the inverse a shader
    performs when it pulls the bytes back out of a word. The renderer targets
    little-endian hosts and GPUs, so byte 0 is the low byte. */
module Packing {
  import opened Seqs
  import opened Meshlets

  /** Number of 32-bit words needed for `count` bytes: (count + 3) / 4. */
  function GroupCount(count: nat): (g: nat)
    ensures 4 * g >= count
    ensures 4 * g < count + 4
  {
    (count + 3) / 4
  }

  /** indexGroupCount as convert_for_gpu_usage computes it: (mIndexCount + 3) / 4
      in uint32_t arithmetic, so the addition wraps for the three largest counts. */
  function LoopGroupCount(count: U32): (g: nat)
    ensures count <= 0xFFFF_FFFC ==> g == GroupCount(count)
    ensures count > 0xFFFF_FFFC ==> g == 0
  {
    ((count + 3) % 0x1_0000_0000) / 4
  }

  /** Byte `k` (0 = lowest) of a 32-bit word. */
  function ByteOf(w: bv32, k: nat): (b: bv8)
    requires k < 4
  {
    if k == 0 then (w & 0xFF) as bv8
    else if k == 1 then ((w >> 8) & 0xFF) as bv8
    else if k == 2 then ((w >> 16) & 0xFF) as bv8
    else ((w >> 24) & 0xFF) as bv8
  }

  /** The little-endian word holding four bytes. */
  function PackWord(b0: bv8, b1: bv8, b2: bv8, b3: bv8): (w: bv32)
    ensures ByteOf(w, 0) == b0 && ByteOf(w, 1) == b1
    ensures ByteOf(w, 2) == b2 && ByteOf(w, 3) == b3
  {
    (b0 as bv32) | ((b1 as bv32) << 8) | ((b2 as bv32) << 16) | ((b3 as bv32) << 24)
  }

  /** A word is determined by its four bytes. */
  lemma PackBytesOf(w: bv32)
    ensures PackWord(ByteOf(w, 0), ByteOf(w, 1), ByteOf(w, 2), ByteOf(w, 3)) == w
  {
  }

  /** Word `i` of a byte buffer: bytes 4i .. 4i+3. */
  function WordAt(bytes: seq<bv8>, i: nat): (w: bv32)
    requires 4 * i + 4 <= |bytes|
  {
    PackWord(bytes[4 * i], bytes[4 * i + 1], bytes[4 * i + 2], bytes[4 * i + 3])
  }

  /** The first `groups` words of a byte buffer, read four bytes at a time. */
  function Words(bytes: seq<bv8>, groups: nat): (ws: seq<bv32>)
    requires 4 * groups <= |bytes|
  {
    seq(groups, i requires 0 <= i < groups => WordAt(bytes, i))
  }

  /** The packing loop of convert_for_gpu_usage as written: LoopGroupCount(count)
      words read straight out of the byte buffer. The read needs the buffer to
      hold 4 * LoopGroupCount(count) bytes, which can exceed `count`. */
  function PackedWords(bytes: seq<bv8>, count: U32): (ws: seq<bv32>)
    requires 4 * LoopGroupCount(count) <= |bytes|
    ensures |ws| == LoopGroupCount(count)
  {
    Words(bytes, LoopGroupCount(count))
  }

  /** `n` zero bytes. */
  function Zeros(n: nat): (z: seq<bv8>)
  {
    Repeat(0, n)
  }

  /** The packing the layout documentation describes: the first `count` bytes,
      with the last word zero-padded, never reading past `count`. */
  function PaddedWords(bytes: seq<bv8>, count: nat): (ws: seq<bv32>)
    requires count <= |bytes|
    ensures |ws| == GroupCount(count)
  {
    Words(bytes[..count] + Zeros(4 * GroupCount(count) - count), GroupCount(count))
  }

  /** Every byte of every word, word 0 first, low byte first. */
  function UnpackWords(ws: seq<bv32>): (bytes: seq<bv8>)
    ensures |bytes| == 4 * |ws|
  {
    seq(4 * |ws|, j requires 0 <= j < 4 * |ws| => ByteOf(ws[j / 4], j % 4))
  }

  /** Unpacking the words read from a buffer gives back the bytes they were
      read from. */
  lemma UnpackWordsRead(bytes: seq<bv8>, groups: nat)
    requires 4 * groups <= |bytes|
    ensures UnpackWords(Words(bytes, groups)) == bytes[..4 * groups]
  {
    var u := UnpackWords(Words(bytes, groups));
    forall j | 0 <= j < |u|
      ensures u[j] == bytes[j]
    {
      assert 4 * (j / 4) + j % 4 == j;
    }
  }

  /** Round trip of the as-written packing: unpacking gives back every byte
      that was read, and so the first `count` unless the group count wrapped. */
  lemma UnpackPackedWords(bytes: seq<bv8>, count: U32)
    requires 4 * LoopGroupCount(count) <= |bytes|
    ensures UnpackWords(PackedWords(bytes, count)) == bytes[..4 * LoopGroupCount(count)]
    ensures count <= 0xFFFF_FFFC ==> UnpackWords(PackedWords(bytes, count))[..count] == bytes[..count]
  {
    UnpackWordsRead(bytes, LoopGroupCount(count));
  }

  /** Round trip of the zero-padded packing: the first `count` bytes come back,
      followed only by zero padding. */
  lemma UnpackPaddedWords(bytes: seq<bv8>, count: nat)
    requires count <= |bytes|
    ensures UnpackWords(PaddedWords(bytes, count))
         == bytes[..count] + Zeros(4 * GroupCount(count) - count)
    ensures UnpackWords(PaddedWords(bytes, count))[..count] == bytes[..count]
  {
    var padded := bytes[..count] + Zeros(4 * GroupCount(count) - count);
    UnpackWordsRead(padded, GroupCount(count));
    assert padded[..4 * GroupCount(count)] == padded;
  }

  /** The two packings agree whenever the group count did not wrap and the
      bytes the as-written loop reads beyond `count` exist and are zero. */
  lemma PackedEqualsPadded(bytes: seq<bv8>, count: U32)
    requires 4 * LoopGroupCount(count) <= |bytes|
    requires forall j :: count <= j < 4 * LoopGroupCount(count) ==> bytes[j] == 0
    ensures count <= 0xFFFF_FFFC ==> PackedWords(bytes, count) == PaddedWords(bytes, count)
  {
    if count <= 0xFFFF_FFFC {
      var a := PackedWords(bytes, count);
      var b := PaddedWords(bytes, count);
      forall i | 0 <= i < |a|
        ensures a[i] == b[i]
      {
        PackBytesOf(a[i]);
        PackBytesOf(b[i]);
      }
    }
  }
}
