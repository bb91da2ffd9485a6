/** Concatenation of runs, the shape that repeated `insert(end, ...)` onto a
    growing std::vector builds. */
module Seqs {

  /** `n` copies of `x`. */
  function Repeat<T>(x: T, n: nat): (r: seq<T>)
  {
    seq(n, _ => x)
  }

  /** Sum of the lengths of the runs. */
  function TotalLength<T>(ss: seq<seq<T>>): (n: nat)
  {
    if |ss| == 0 then 0 else TotalLength(ss[..|ss| - 1]) + |ss[|ss| - 1]|
  }

  /** The runs of `ss` appended one after the other, first run first. */
  function Concat<T>(ss: seq<seq<T>>): (r: seq<T>)
    ensures |r| == TotalLength(ss)
  {
    if |ss| == 0 then [] else Concat(ss[..|ss| - 1]) + ss[|ss| - 1]
  }

  /** Concatenating two batches of runs is concatenating their concatenations. */
  lemma {:induction false} ConcatAppend<T>(a: seq<seq<T>>, b: seq<seq<T>>)
    ensures Concat(a + b) == Concat(a) + Concat(b)
  {
    if |b| == 0 {
      assert a + b == a;
    } else {
      var b', last := b[..|b| - 1], b[|b| - 1];
      assert (a + b)[..|a + b| - 1] == a + b';
      assert (a + b)[|a + b| - 1] == last;
      ConcatAppend(a, b');
      assert Concat(a + b) == Concat(a + b') + last;
      assert Concat(b) == Concat(b') + last;
    }
  }

  /** Run `k` sits in the concatenation exactly between the total lengths of
      the runs before it and of the runs up to and including it. */
  lemma ConcatSlice<T>(ss: seq<seq<T>>, k: nat)
    requires k < |ss|
    ensures TotalLength(ss[..k + 1]) == TotalLength(ss[..k]) + |ss[k]|
    ensures TotalLength(ss[..k + 1]) <= TotalLength(ss)
    ensures Concat(ss)[TotalLength(ss[..k]) .. TotalLength(ss[..k + 1])] == ss[k]
  {
    assert ss == ss[..k + 1] + ss[k + 1..];
    ConcatAppend(ss[..k + 1], ss[k + 1..]);
    assert ss[..k + 1][..k] == ss[..k];
  }

  /** A slice holding two runs back to back holds each at its place. */
  lemma SliceSplit<T>(s: seq<T>, off: nat, a: seq<T>, b: seq<T>)
    requires off + |a| + |b| <= |s|
    requires s[off .. off + |a| + |b|] == a + b
    ensures s[off .. off + |a|] == a
    ensures s[off + |a| .. off + |a| + |b|] == b
  {
    assert s[off .. off + |a|] == (a + b)[..|a|];
    assert s[off + |a| .. off + |a| + |b|] == (a + b)[|a|..];
  }
}
