/**
 * The carry-buffer line splitter inside `llmStream`: byte chunks in,
 * newline-terminated lines out, with the unfinished tail carried over.
 */
module LineSplitter {
  import opened Bytes

  /** `rest.indexOf(0x0a)`: the first position of `b` in `s`, or -1 when there is none. */
  function IndexOf(s: seq<byte>, b: byte): (i: int)
    ensures -1 <= i < |s|
    ensures i == -1 ==> forall k :: 0 <= k < |s| ==> s[k] != b
    ensures 0 <= i ==> s[i] == b && forall k :: 0 <= k < i ==> s[k] != b
  {
    if |s| == 0 then -1
    else if s[0] == b then 0
    else
      var k := IndexOf(s[1..], b);
      if k == -1 then -1
      else
        k + 1
  }

  /** A complete line: its last byte is a newline and it holds no other. */
  predicate IsLine(line: seq<byte>)
  {
    |line| > 0 && line[|line| - 1] == LF && LF !in line[..|line| - 1]
  }

  predicate AllLines(lines: seq<seq<byte>>)
  {
    forall k :: 0 <= k < |lines| ==> IsLine(lines[k])
  }

  /** `lines` followed by `tail` spell `s`; every line is complete and `tail` has no newline. */
  predicate IsLineSplit(s: seq<byte>, lines: seq<seq<byte>>, tail: seq<byte>)
  {
    Concat(lines) + tail == s && AllLines(lines) && LF !in tail
  }

  /** The state of one stream decoder: the bytes of the line not yet finished. */
  datatype Decoder = Decoder(carry: seq<byte>)

  /** A fresh decoder (`let buffer = new Uint8Array()`). */
  const Initial: Decoder := Decoder([])

  /** The decoder's invariant: the carry buffer never holds a whole line. */
  predicate Valid(d: Decoder)
  {
    LF !in d.carry
  }

  /** The lines one `transform` call hands to `parseLlmChunk`, and the decoder after it. */
  datatype Step = Step(lines: seq<seq<byte>>, next: Decoder)

  /** Cutting `chunk` after position `cut - 1` and prefixing the carry loses and adds nothing. */
  lemma LineCut(carry: seq<byte>, chunk: seq<byte>, cut: nat, lines: seq<seq<byte>>, tail: seq<byte>)
    requires cut <= |chunk|
    requires Concat(lines) + tail == chunk[cut..]
    ensures Concat([carry + chunk[..cut]] + lines) + tail == carry + chunk
  {
    assert ([carry + chunk[..cut]] + lines)[1..] == lines;
    assert chunk == chunk[..cut] + chunk[cut..];
  }

  /** A newline-free carry followed by the chunk up to its first newline is a complete line. */
  lemma FirstLineComplete(carry: seq<byte>, chunk: seq<byte>, index: nat, lines: seq<seq<byte>>)
    requires index < |chunk| && chunk[index] == LF && LF !in chunk[..index]
    ensures LF !in carry && AllLines(lines) ==> AllLines([carry + chunk[..index + 1]] + lines)
  {
    var line := carry + chunk[..index + 1];
    if LF !in carry && AllLines(lines) {
      assert line[..|line| - 1] == carry + chunk[..index];
      assert IsLine(line);
      assert forall k :: 1 <= k < 1 + |lines| ==> ([line] + lines)[k] == lines[k - 1];
    }
  }

  /**
   * One `transform` call: the carry buffer plus the chunk is cut after each
   * newline; the first line begins with the carry buffer, which is then
   * cleared, and the bytes after the last newline are appended to the buffer.
   * Nothing is lost or reordered, and from a valid decoder the new carry
   * buffer holds no newline (`FeedSplits` adds that every line is complete).
   */
  function Feed(d: Decoder, chunk: seq<byte>): (r: Step)
    ensures Concat(r.lines) + r.next.carry == d.carry + chunk
    ensures Valid(d) ==> Valid(r.next)
    decreases |chunk|
  {
    var index := IndexOf(chunk, LF);
    if index == -1 then
      Step([], if |chunk| > 0 then Decoder(d.carry + chunk) else d)
    else
      var rest := Feed(Decoder([]), chunk[index + 1..]);
      assert [] + chunk[index + 1..] == chunk[index + 1..];
      LineCut(d.carry, chunk, index + 1, rest.lines, rest.next.carry);
      Step([d.carry + chunk[..index + 1]] + rest.lines, rest.next)
  }

  /** From a valid decoder, one `transform` call splits the carry plus the chunk into complete lines. */
  lemma {:induction false} FeedSplits(d: Decoder, chunk: seq<byte>)
    requires Valid(d)
    ensures var r := Feed(d, chunk); IsLineSplit(d.carry + chunk, r.lines, r.next.carry)
    decreases |chunk|
  {
    var index := IndexOf(chunk, LF);
    if index != -1 {
      var rest := Feed(Decoder([]), chunk[index + 1..]);
      FeedSplits(Decoder([]), chunk[index + 1..]);
      FeedCutsFirstLine(d, chunk, index);
      FirstLineComplete(d.carry, chunk, index, rest.lines);
    }
  }

  /** Feed cuts the first complete line off, then feeds the rest with an empty buffer. */
  lemma FeedCutsFirstLine(d: Decoder, chunk: seq<byte>, index: int)
    requires index == IndexOf(chunk, LF) && index != -1
    ensures var after := Feed(Decoder([]), chunk[index + 1..]);
            Feed(d, chunk) == Step([d.carry + chunk[..index + 1]] + after.lines, after.next)
  {
  }

  /** A whole stream of chunks fed in order: every line produced, and the final decoder. */
  function FeedAll(d: Decoder, chunks: seq<seq<byte>>): (r: Step)
    ensures Concat(r.lines) + r.next.carry == d.carry + Concat(chunks)
    ensures Valid(d) ==> Valid(r.next)
    decreases |chunks|
  {
    if |chunks| == 0 then
      assert d.carry + Concat(chunks) == d.carry;
      Step([], d)
    else
      var first := Feed(d, chunks[0]);
      var rest := FeedAll(first.next, chunks[1..]);
      FeedAllStep(d, chunks, first, rest);
      Step(first.lines + rest.lines, rest.next)
  }

  /** The inductive step of `FeedAll`: the first chunk's step followed by the rest's. */
  lemma FeedAllStep(d: Decoder, chunks: seq<seq<byte>>, first: Step, rest: Step)
    requires |chunks| > 0
    requires Concat(first.lines) + first.next.carry == d.carry + chunks[0]
    requires Concat(rest.lines) + rest.next.carry == first.next.carry + Concat(chunks[1..])
    ensures Concat(first.lines + rest.lines) + rest.next.carry == d.carry + Concat(chunks)
  {
    CarryThenChunks(d.carry, chunks);
    JoinSplits(first.lines, first.next.carry, rest.lines, rest.next.carry,
               d.carry + chunks[0], Concat(chunks[1..]), d.carry + Concat(chunks));
  }

  /** From a valid decoder, a whole stream is split into complete lines and a newline-free buffer. */
  lemma {:induction false} FeedAllSplits(d: Decoder, chunks: seq<seq<byte>>)
    requires Valid(d)
    ensures var r := FeedAll(d, chunks); IsLineSplit(d.carry + Concat(chunks), r.lines, r.next.carry)
    decreases |chunks|
  {
    if |chunks| > 0 {
      var first := Feed(d, chunks[0]);
      FeedSplits(d, chunks[0]);
      FeedAllSplits(first.next, chunks[1..]);
      AllLinesAppend(first.lines, FeedAll(first.next, chunks[1..]).lines);
    }
  }

  lemma CarryThenChunks(carry: seq<byte>, chunks: seq<seq<byte>>)
    requires |chunks| > 0
    ensures carry + Concat(chunks) == (carry + chunks[0]) + Concat(chunks[1..])
  {
  }

  /** Splitting `s` and then splitting the carry plus `c` splits `s + c`. */
  lemma JoinSplits(l1: seq<seq<byte>>, mid: seq<byte>, l2: seq<seq<byte>>, tail: seq<byte>,
                   s: seq<byte>, c: seq<byte>, whole: seq<byte>)
    requires Concat(l1) + mid == s
    requires Concat(l2) + tail == mid + c
    requires whole == s + c
    ensures Concat(l1 + l2) + tail == whole
  {
    ConcatAppend(l1, l2);
    assert Concat(l1) + Concat(l2) + tail == Concat(l1) + (Concat(l2) + tail);
  }

  lemma AllLinesAppend(l1: seq<seq<byte>>, l2: seq<seq<byte>>)
    requires AllLines(l1) && AllLines(l2)
    ensures AllLines(l1 + l2)
  {
    assert forall k :: |l1| <= k < |l1 + l2| ==> (l1 + l2)[k] == l2[k - |l1|];
  }

  /** Two complete lines that both begin the same byte sequence are the same line. */
  lemma FirstLineUnique(s: seq<byte>, x: seq<byte>, y: seq<byte>)
    requires IsLine(x) && IsLine(y)
    requires |x| <= |s| && s[..|x|] == x
    requires |y| <= |s| && s[..|y|] == y
    ensures x == y
  {
    var m := if |x| <= |y| then |x| else |y|;
    assert x[m - 1] == s[m - 1] == y[m - 1];
    assert x == s[..m] == y;
  }

  /** A split has lines exactly when the bytes hold a newline. */
  lemma SplitHasNewline(s: seq<byte>, lines: seq<seq<byte>>, tail: seq<byte>)
    requires IsLineSplit(s, lines, tail)
    ensures LF in s <==> |lines| > 0
  {
    if |lines| > 0 {
      var x := lines[0];
      assert IsLine(x);
      assert s == x + (Concat(lines[1..]) + tail);
      assert s[|x| - 1] == LF;
    } else {
      assert s == tail;
    }
  }

  /** The first line of a split begins the bytes, and the other lines split the rest. */
  lemma SplitRest(s: seq<byte>, lines: seq<seq<byte>>, tail: seq<byte>)
    requires IsLineSplit(s, lines, tail)
    requires |lines| > 0
    ensures |lines[0]| <= |s| && s[..|lines[0]|] == lines[0]
    ensures IsLineSplit(s[|lines[0]|..], lines[1..], tail)
  {
    var x := lines[0];
    assert s == x + (Concat(lines[1..]) + tail);
    assert s[|x|..] == Concat(lines[1..]) + tail;
    assert AllLines(lines[1..]) by {
      assert forall k :: 0 <= k < |lines[1..]| ==> lines[1..][k] == lines[k + 1];
    }
  }

  /**
   * There is only one way to split bytes into complete lines and a newline-free
   * tail: the lines end exactly at the newlines.
   */
  lemma {:induction false} LineSplitUnique(s: seq<byte>, l1: seq<seq<byte>>, t1: seq<byte>,
                                           l2: seq<seq<byte>>, t2: seq<byte>)
    requires IsLineSplit(s, l1, t1) && IsLineSplit(s, l2, t2)
    ensures l1 == l2 && t1 == t2
    decreases |l1|
  {
    SplitHasNewline(s, l1, t1);
    SplitHasNewline(s, l2, t2);
    if |l1| == 0 {
      assert |l2| == 0;
      assert l1 == [] == l2;
      assert Concat(l1) + t1 == t1 && Concat(l2) + t2 == t2;
    } else {
      SplitRest(s, l1, t1);
      SplitRest(s, l2, t2);
      FirstLineUnique(s, l1[0], l2[0]);
      LineSplitUnique(s[|l1[0]|..], l1[1..], t1, l2[1..], t2);
      assert l1 == [l1[0]] + l1[1..];
      assert l2 == [l2[0]] + l2[1..];
    }
  }

  /**
   * Chunk-boundary independence: two chunkings of the same bytes, fed to a
   * fresh decoder, hand on the same lines and leave the same carry buffer.
   */
  lemma ChunkBoundaryIndependence(c1: seq<seq<byte>>, c2: seq<seq<byte>>)
    requires Concat(c1) == Concat(c2)
    ensures FeedAll(Initial, c1) == FeedAll(Initial, c2)
  {
    var r1 := FeedAll(Initial, c1);
    var r2 := FeedAll(Initial, c2);
    FeedAllSplits(Initial, c1);
    FeedAllSplits(Initial, c2);
    LineSplitUnique(Initial.carry + Concat(c1), r1.lines, r1.next.carry, r2.lines, r2.next.carry);
  }

  /** Feeding a stream chunk by chunk is feeding it as one chunk. */
  lemma FeedAllIsOneFeed(d: Decoder, chunks: seq<seq<byte>>)
    requires Valid(d)
    ensures FeedAll(d, chunks) == Feed(d, Concat(chunks))
  {
    var r1 := FeedAll(d, chunks);
    var r2 := Feed(d, Concat(chunks));
    FeedAllSplits(d, chunks);
    FeedSplits(d, Concat(chunks));
    LineSplitUnique(d.carry + Concat(chunks), r1.lines, r1.next.carry, r2.lines, r2.next.carry);
  }
}
