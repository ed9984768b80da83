/**
 * `llmStream`: the transform from upstream response bytes to the content
 * fragments forwarded to the client, built from the line splitter and
 * `parseLlmChunk`.
 */
module LlmStream {
  import opened Bytes
  import opened LineSplitter
  import opened Sse

  /** `parseLlmChunk` with its libraries fixed, as the line parser of the stream. */
  function Parser(libs: TextLibs): seq<byte> -> string
  {
    line => ParseLlmChunk(libs, line)
  }

  /** What is enqueued for some lines: each non-empty result of `parse`, in order. */
  function Fragments(parse: seq<byte> -> string, lines: seq<seq<byte>>): (r: seq<string>)
    ensures |r| <= |lines|
    ensures forall k :: 0 <= k < |r| ==> r[k] != ""
  {
    if |lines| == 0 then []
    else (if parse(lines[0]) != "" then [parse(lines[0])] else []) + Fragments(parse, lines[1..])
  }

  /**
   * The fragments are exactly the non-empty parses: every item is the parse of
   * some line, and every line with a non-empty parse has that parse enqueued.
   */
  lemma {:induction false} FragmentsAreParses(parse: seq<byte> -> string, lines: seq<seq<byte>>)
    ensures forall k :: 0 <= k < |Fragments(parse, lines)| ==>
              exists j :: 0 <= j < |lines| && Fragments(parse, lines)[k] == parse(lines[j])
    ensures forall j :: 0 <= j < |lines| && parse(lines[j]) != "" ==> parse(lines[j]) in Fragments(parse, lines)
    decreases |lines|
  {
    if |lines| > 0 {
      var tail := lines[1..];
      FragmentsAreParses(parse, tail);
      var head := if parse(lines[0]) != "" then [parse(lines[0])] else [];
      var r := Fragments(parse, lines);
      assert r == head + Fragments(parse, tail);
      forall k | 0 <= k < |Fragments(parse, lines)|
        ensures exists j :: 0 <= j < |lines| && Fragments(parse, lines)[k] == parse(lines[j])
      {
        if k < |head| {
          assert Fragments(parse, lines)[k] == parse(lines[0]);
        } else {
          var j :| 0 <= j < |tail| && Fragments(parse, tail)[k - |head|] == parse(tail[j]);
          assert r[k] == parse(lines[j + 1]);
          assert 0 <= j + 1 < |lines| && Fragments(parse, lines)[k] == parse(lines[j + 1]);
        }
      }
      forall j | 0 <= j < |lines| && parse(lines[j]) != ""
        ensures parse(lines[j]) in Fragments(parse, lines)
      {
        if j == 0 {
          assert r[0] == parse(lines[0]);
        } else {
          assert lines[j] == tail[j - 1];
          var k :| 0 <= k < |Fragments(parse, tail)| && Fragments(parse, tail)[k] == parse(lines[j]);
          assert r[|head| + k] == parse(lines[j]);
        }
      }
    } else {
      assert Fragments(parse, lines) == [];
    }
  }

  lemma {:induction false} FragmentsAppend(parse: seq<byte> -> string, a: seq<seq<byte>>, b: seq<seq<byte>>)
    ensures Fragments(parse, a + b) == Fragments(parse, a) + Fragments(parse, b)
    decreases |a|
  {
    if |a| == 0 {
      assert a + b == b;
    } else {
      assert (a + b)[1..] == a[1..] + b;
      FragmentsAppend(parse, a[1..], b);
    }
  }

  /**
   * A line that yields nothing (blank, not `data:`, malformed JSON, no
   * content) is skipped: the lines around it are still processed in order.
   */
  lemma SilentLineSkipped(parse: seq<byte> -> string, before: seq<seq<byte>>, line: seq<byte>, after: seq<seq<byte>>)
    requires parse(line) == ""
    ensures Fragments(parse, before + [line] + after) == Fragments(parse, before) + Fragments(parse, after)
  {
    assert Fragments(parse, [line]) == [] by {
      assert [line][1..] == [];
    }
    FragmentsAppend(parse, before, [line]);
    assert Fragments(parse, before + [line]) == Fragments(parse, before);
    FragmentsAppend(parse, before + [line], after);
  }

  /** What one call of `transform` enqueues, and the decoder it leaves. */
  datatype Emitted = Emitted(out: seq<string>, next: Decoder)

  /**
   * The effect of one `transform` call with line parser `parse`: the fragments
   * of the lines it cuts, and the new decoder.
   */
  function TransformStep(parse: seq<byte> -> string, d: Decoder, chunk: seq<byte>): Emitted
  {
    var step := Feed(d, chunk);
    Emitted(Fragments(parse, step.lines), step.next)
  }

  lemma AppendAssoc(a: seq<string>, b: seq<string>, c: seq<string>)
    ensures a + (b + c) == (a + b) + c
  {
  }

  lemma FragmentsCons(parse: seq<byte> -> string, line: seq<byte>, lines: seq<seq<byte>>)
    ensures Fragments(parse, [line] + lines)
            == (if parse(line) != "" then [parse(line)] else []) + Fragments(parse, lines)
  {
    assert ([line] + lines)[1..] == lines;
  }

  /**
   * One turn of the `transform` loop: what is still to be enqueued from
   * `buffer` and `rest` is the parse of the line up to the first newline, if
   * non-empty, then what is still to be enqueued from after that newline.
   */
  lemma TransformTurn(parse: seq<byte> -> string, target: Emitted, out: seq<string>,
                      buffer: seq<byte>, rest: seq<byte>, index: int)
    requires index == IndexOf(rest, LF) && index != -1
    requires target.out == out + Fragments(parse, Feed(Decoder(buffer), rest).lines)
    requires target.next == Feed(Decoder(buffer), rest).next
    ensures var content := parse(Concat([buffer, rest[..index + 1]]));
            var out' := if content != "" then out + [content] else out;
            var after := Feed(Decoder([]), rest[index + 1..]);
            && target.out == out' + Fragments(parse, after.lines)
            && target.next == after.next
  {
    var line := buffer + rest[..index + 1];
    var after := Feed(Decoder([]), rest[index + 1..]);
    ConcatPair(buffer, rest[..index + 1]);
    FeedCutsFirstLine(Decoder(buffer), rest, index);
    EmitFirst(parse, target.out, out, line, after.lines);
  }

  /** Enqueueing the first line's fragment moves it from what is pending to what is emitted. */
  lemma EmitFirst(parse: seq<byte> -> string, total: seq<string>, out: seq<string>,
                  line: seq<byte>, lines: seq<seq<byte>>)
    requires total == out + Fragments(parse, [line] + lines)
    ensures total == (if parse(line) != "" then out + [parse(line)] else out) + Fragments(parse, lines)
  {
    FragmentsCons(parse, line, lines);
    var emitted := if parse(line) != "" then [parse(line)] else [];
    AppendAssoc(out, emitted, Fragments(parse, lines));
  }

  /** The end of the `transform` loop: no newline left, so the leftover joins the buffer. */
  lemma TransformEnd(parse: seq<byte> -> string, buffer: seq<byte>, rest: seq<byte>)
    requires IndexOf(rest, LF) == -1
    ensures Fragments(parse, Feed(Decoder(buffer), rest).lines) == []
    ensures Feed(Decoder(buffer), rest).next == Decoder(if |rest| > 0 then buffer + rest else buffer)
  {
  }

  /** After the last newline, what was to be reached is what was enqueued and the buffer plus the leftover. */
  lemma TransformFinish(parse: seq<byte> -> string, target: Emitted, out: seq<string>,
                        buffer: seq<byte>, rest: seq<byte>)
    requires IndexOf(rest, LF) == -1
    requires target.out == out + Fragments(parse, Feed(Decoder(buffer), rest).lines)
    requires target.next == Feed(Decoder(buffer), rest).next
    ensures target == Emitted(out, Decoder(if |rest| > 0 then buffer + rest else buffer))
  {
    TransformEnd(parse, buffer, rest);
    assert out + [] == out;
  }

  /**
   * The loop of `transform`, as written, for any line parser: find the next
   * newline in what is left of the chunk, parse the carry buffer plus the
   * bytes up to and including it, enqueue the result if non-empty, clear the
   * buffer and continue after the newline; finally append any leftover bytes
   * to the buffer.
   */
  method TransformLoop(parse: seq<byte> -> string, d: Decoder, chunk: seq<byte>) returns (r: Emitted)
    ensures r == TransformStep(parse, d, chunk)
    ensures forall k :: 0 <= k < |r.out| ==> r.out[k] != ""
    ensures Valid(d) ==> Valid(r.next)
  {
    var buffer := d.carry;
    var rest := chunk;
    var out: seq<string> := [];
    ghost var target := TransformStep(parse, d, chunk);
    var index := IndexOf(rest, LF);
    while index != -1
      invariant index == IndexOf(rest, LF)
      invariant target.out == out + Fragments(parse, Feed(Decoder(buffer), rest).lines)
      invariant target.next == Feed(Decoder(buffer), rest).next
      decreases |rest|
    {
      var line := Concat([buffer, rest[..index + 1]]);
      TransformTurn(parse, target, out, buffer, rest, index);
      var content := parse(line);
      if content != "" {
        out := out + [content];
      }
      rest := rest[index + 1..];
      buffer := [];
      index := IndexOf(rest, LF);
    }
    TransformFinish(parse, target, out, buffer, rest);
    if |rest| > 0 {
      ConcatPair(buffer, rest);
      buffer := Concat([buffer, rest]);
    }
    r := Emitted(out, Decoder(buffer));
    TransformStepKeeps(parse, d, chunk);
  }

  /** One `transform` call enqueues only non-empty items and keeps the buffer newline-free. */
  lemma TransformStepKeeps(parse: seq<byte> -> string, d: Decoder, chunk: seq<byte>)
    ensures forall k :: 0 <= k < |TransformStep(parse, d, chunk).out| ==> TransformStep(parse, d, chunk).out[k] != ""
    ensures Valid(d) ==> Valid(TransformStep(parse, d, chunk).next)
  {
  }

  /** `transform`: the loop with `parseLlmChunk` as the line parser. */
  method Transform(libs: TextLibs, d: Decoder, chunk: seq<byte>) returns (r: Emitted)
    ensures r == TransformStep(Parser(libs), d, chunk)
    ensures forall k :: 0 <= k < |r.out| ==> r.out[k] != ""
    ensures Valid(d) ==> Valid(r.next)
  {
    r := TransformLoop(Parser(libs), d, chunk);
  }

  /**
   * `flush`: a non-empty carry buffer is parsed and its result enqueued even
   * when that result is empty; an empty buffer enqueues nothing.
   */
  function Flush(libs: TextLibs, d: Decoder): (r: seq<string>)
    ensures |r| <= 1
    ensures r == [] <==> d.carry == []
    ensures r != [] ==> r[0] == ParseLlmChunk(libs, d.carry)
  {
    if |d.carry| > 0 then [ParseLlmChunk(libs, d.carry)] else []
  }

  /** `transform` called once per chunk, in order: everything enqueued, and the final decoder. */
  function TransformAll(libs: TextLibs, d: Decoder, chunks: seq<seq<byte>>): (r: Emitted)
    ensures forall k :: 0 <= k < |r.out| ==> r.out[k] != ""
    ensures Valid(d) ==> Valid(r.next)
    decreases |chunks|
  {
    if |chunks| == 0 then Emitted([], d)
    else
      var first := TransformStep(Parser(libs), d, chunks[0]);
      var rest := TransformAll(libs, first.next, chunks[1..]);
      Emitted(first.out + rest.out, rest.next)
  }

  /** The whole stream: every chunk transformed, then the final `flush`. */
  function Run(libs: TextLibs, chunks: seq<seq<byte>>): (r: seq<string>)
    ensures var whole := FeedAll(Initial, chunks);
            r == Fragments(Parser(libs), whole.lines) + Flush(libs, whole.next)
  {
    TransformAllIsFeedAll(libs, Initial, chunks);
    var e := TransformAll(libs, Initial, chunks);
    e.out + Flush(libs, e.next)
  }

  /**
   * Enqueueing chunk by chunk delivers the fragments of all lines the stream
   * holds, in order, and leaves the decoder that feeding all chunks leaves.
   */
  lemma {:induction false} TransformAllIsFeedAll(libs: TextLibs, d: Decoder, chunks: seq<seq<byte>>)
    ensures TransformAll(libs, d, chunks).out == Fragments(Parser(libs), FeedAll(d, chunks).lines)
    ensures TransformAll(libs, d, chunks).next == FeedAll(d, chunks).next
    decreases |chunks|
  {
    if |chunks| > 0 {
      var first := Feed(d, chunks[0]);
      TransformAllIsFeedAll(libs, first.next, chunks[1..]);
      FragmentsAppend(Parser(libs), first.lines, FeedAll(first.next, chunks[1..]).lines);
    }
  }

  /**
   * Chunk-boundary independence of the whole stream: two chunkings of the
   * same response bytes produce the same fragments, flush included.
   */
  lemma RunChunkingIndependent(libs: TextLibs, c1: seq<seq<byte>>, c2: seq<seq<byte>>)
    requires Concat(c1) == Concat(c2)
    ensures Run(libs, c1) == Run(libs, c2)
  {
    TransformAllIsFeedAll(libs, Initial, c1);
    TransformAllIsFeedAll(libs, Initial, c2);
    ChunkBoundaryIndependence(c1, c2);
  }

  /** The stream as it arrives gives what the whole response as one chunk gives. */
  lemma RunIsOneChunk(libs: TextLibs, chunks: seq<seq<byte>>)
    ensures Run(libs, chunks) == Run(libs, [Concat(chunks)])
  {
    assert Concat([Concat(chunks)]) == Concat(chunks) by {
      assert [Concat(chunks)][1..] == [];
    }
    RunChunkingIndependent(libs, chunks, [Concat(chunks)]);
  }

  /**
   * Only `flush` can enqueue an empty fragment: an empty item in the stream is
   * its last one, and comes from a non-empty leftover buffer.
   */
  lemma OnlyFlushEmitsEmpty(libs: TextLibs, chunks: seq<seq<byte>>)
    ensures forall k :: 0 <= k < |Run(libs, chunks)| && Run(libs, chunks)[k] == "" ==>
              k == |Run(libs, chunks)| - 1 && TransformAll(libs, Initial, chunks).next.carry != []
  {
    TransformAllIsFeedAll(libs, Initial, chunks);
    var e := TransformAll(libs, Initial, chunks);
    EmptyOnlyLast(e.out, Flush(libs, e.next));
  }

  /** Non-empty items followed by at most one more: an empty item can only be that last one. */
  lemma EmptyOnlyLast(out: seq<string>, last: seq<string>)
    requires forall k :: 0 <= k < |out| ==> out[k] != ""
    requires |last| <= 1
    ensures forall k :: 0 <= k < |out + last| && (out + last)[k] == "" ==> k == |out + last| - 1 && last != []
  {
  }
}
