/** Byte buffers (the relay's `Uint8Array` values) as sequences of bytes. */
module Bytes {

  /** An element of a `Uint8Array`. */
  type byte = x: int | 0 <= x < 256

  /** The newline byte that ends each line of the upstream protocol. */
  const LF: byte := 0x0A

  /** Sum of the buffer lengths, as `chunks.reduce((a, c) => a + c.length, 0)` computes it. */
  function TotalLength(chunks: seq<seq<byte>>): nat
  {
    if |chunks| == 0 then 0 else |chunks[0]| + TotalLength(chunks[1..])
  }

  /** `concatArrayBuffers`: the chunks copied one after another into one buffer. */
  function Concat(chunks: seq<seq<byte>>): (r: seq<byte>)
    ensures |r| == TotalLength(chunks)
  {
    if |chunks| == 0 then [] else chunks[0] + Concat(chunks[1..])
  }

  /**
   * The buffer `concatArrayBuffers` returns has the total length, and chunk `i`
   * sits in it, unchanged, at the running offset of the chunks before it
   * (the `result.set(chunk, offset)` of each loop iteration).
   */
  lemma ConcatPlacesChunks(chunks: seq<seq<byte>>)
    ensures |Concat(chunks)| == TotalLength(chunks)
    ensures forall i :: 0 <= i < |chunks| ==>
              var offset := TotalLength(chunks[..i]);
              offset + |chunks[i]| <= |Concat(chunks)| && Concat(chunks)[offset..offset + |chunks[i]|] == chunks[i]
  {
    forall i | 0 <= i < |chunks|
      ensures var offset := TotalLength(chunks[..i]);
              offset + |chunks[i]| <= |Concat(chunks)| && Concat(chunks)[offset..offset + |chunks[i]|] == chunks[i]
    {
      ChunkAt(chunks, i);
    }
  }

  /** Chunk `i` is copied to the offset the chunks before it add up to. */
  lemma {:induction false} ChunkAt(chunks: seq<seq<byte>>, i: nat)
    requires i < |chunks|
    ensures TotalLength(chunks[..i]) + |chunks[i]| <= |Concat(chunks)|
    ensures Concat(chunks)[TotalLength(chunks[..i])..TotalLength(chunks[..i]) + |chunks[i]|] == chunks[i]
    decreases i
  {
    var tail := Concat(chunks[1..]);
    assert Concat(chunks) == chunks[0] + tail;
    if i == 0 {
      assert chunks[..0] == [];
      HeadSlice(chunks[0], tail);
    } else {
      ChunkAt(chunks[1..], i - 1);
      OffsetStep(chunks, i);
      assert chunks[1..][i - 1] == chunks[i];
      var o := TotalLength(chunks[1..][..i - 1]);
      ShiftedSlice(chunks[0], tail, o, o + |chunks[i]|);
    }
  }

  /** The offset of chunk `i` is the first chunk's length plus the offset of `i - 1` in the rest. */
  lemma OffsetStep(chunks: seq<seq<byte>>, i: nat)
    requires 0 < i < |chunks|
    ensures TotalLength(chunks[..i]) == |chunks[0]| + TotalLength(chunks[1..][..i - 1])
  {
    assert chunks[..i][0] == chunks[0];
    assert chunks[..i][1..] == chunks[1..][..i - 1];
  }

  lemma HeadSlice(a: seq<byte>, t: seq<byte>)
    ensures (a + t)[0..|a|] == a
  {
  }

  lemma ShiftedSlice(a: seq<byte>, t: seq<byte>, lo: nat, hi: nat)
    requires lo <= hi <= |t|
    ensures (a + t)[|a| + lo..|a| + hi] == t[lo..hi]
  {
  }

  /** Concatenating two lists of buffers concatenates their concatenations. */
  lemma {:induction false} ConcatAppend(a: seq<seq<byte>>, b: seq<seq<byte>>)
    ensures Concat(a + b) == Concat(a) + Concat(b)
    decreases |a|
  {
    if |a| == 0 {
      assert a + b == b;
    } else {
      assert (a + b)[1..] == a[1..] + b;
      ConcatAppend(a[1..], b);
    }
  }

  /** The two-buffer case used by the stream decoder is plain concatenation. */
  lemma ConcatPair(x: seq<byte>, y: seq<byte>)
    ensures Concat([x, y]) == x + y
  {
    assert [x, y][1..] == [y];
    assert [y][1..] == [];
  }
}
