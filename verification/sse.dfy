/**
 * `parseLlmChunk`: one line of the upstream `data:`-prefixed JSON stream to
 * the content fragment it carries, or the empty string.
 */
module Sse {
  import opened Wrappers
  import opened Bytes
  import opened JsText

  /** `choices[i].delta`: only `content` is read. */
  datatype Delta = Delta(content: Option<string>)

  /** One element of `choices`; `None` fields are absent or null. */
  datatype Choice = Choice(delta: Option<Delta>)

  /**
   * The parsed upstream record, reduced to what is read: `choices` is `None`
   * when the field is absent or the JSON value is not an object, which makes
   * `chunk.choices[0]` throw.
   */
  datatype UpstreamRecord = UpstreamRecord(choices: Option<seq<Option<Choice>>>)

  /**
   * The library code the parser calls: `TextDecoder.decode` and `JSON.parse`,
   * the latter `None` when it throws on malformed text.
   */
  datatype TextLibs = TextLibs(decodeUtf8: seq<byte> -> string, parseJson: string -> Option<UpstreamRecord>)

  const DataPrefix: string := "data:"

  /** The record's first choice exists, has a `delta`, and its `content` is `c`. */
  predicate HasContent(rec: UpstreamRecord, c: string)
  {
    && rec.choices.Some? && |rec.choices.value| > 0 && rec.choices.value[0].Some?
    && rec.choices.value[0].value.delta.Some?
    && rec.choices.value[0].value.delta.value.content == Some(c)
  }

  /**
   * `chunk.choices[0]?.delta?.content || ''`: the content of the first choice,
   * `None` when reading it throws (no `choices`).
   */
  function FirstContent(rec: UpstreamRecord): (r: Option<string>)
    ensures r.None? <==> rec.choices.None?
    ensures forall c :: c != "" ==> (r == Some(c) <==> HasContent(rec, c))
  {
    match rec.choices
    case None => None
    case Some(cs) =>
      if |cs| == 0 || cs[0].None? || cs[0].value.delta.None? then Some("")
      else Some(cs[0].value.delta.value.content.GetOr(""))
  }

  /** A trimmed line is a data line when it starts with `data:`; its payload is the rest. */
  predicate IsDataLine(line: string)
  {
    StartsWith(line, DataPrefix)
  }

  /** What the line carries when it is a data line: the parsed content, or `""` on any failure. */
  function Payload(libs: TextLibs, line: string): (r: string)
    requires IsDataLine(line)
    ensures libs.parseJson(line[|DataPrefix|..]).None? ==> r == ""
    ensures forall c :: c != "" ==>
              (r == c <==> libs.parseJson(line[|DataPrefix|..]).Some? &&
                           HasContent(libs.parseJson(line[|DataPrefix|..]).value, c))
  {
    match libs.parseJson(line[|DataPrefix|..])
    case None => ""
    case Some(rec) => FirstContent(rec).GetOr("")
  }

  /**
   * `parseLlmChunk`: decode and trim the line; a blank line, a line without the
   * `data:` prefix, a payload that fails to parse or a record without content
   * all give `""`, and no failure escapes.
   */
  function ParseLlmChunk(libs: TextLibs, chunk: seq<byte>): (r: string)
    ensures |chunk| == 0 ==> r == ""
    ensures AllSpace(libs.decodeUtf8(chunk)) ==> r == ""
    ensures !IsDataLine(Trim(libs.decodeUtf8(chunk))) ==> r == ""
    ensures r != "" <==>
              |chunk| > 0 && IsDataLine(Trim(libs.decodeUtf8(chunk))) &&
              Payload(libs, Trim(libs.decodeUtf8(chunk))) != ""
    ensures r != "" ==> r == Payload(libs, Trim(libs.decodeUtf8(chunk)))
  {
    if |chunk| == 0 then ""
    else
      var line := Trim(libs.decodeUtf8(chunk));
      if |line| == 0 then ""
      else if IsDataLine(line) then Payload(libs, line)
      else ""
  }

  /**
   * A data line surrounded by white space (the trailing newline among it)
   * yields exactly what its JSON payload's first choice carries.
   */
  lemma ParseDataLine(libs: TextLibs, chunk: seq<byte>, w1: string, payload: string, w2: string)
    requires |chunk| > 0
    requires libs.decodeUtf8(chunk) == w1 + DataPrefix + payload + w2
    requires AllSpace(w1) && AllSpace(w2)
    requires payload == [] || !IsJsSpace(payload[|payload| - 1])
    ensures ParseLlmChunk(libs, chunk) ==
              match libs.parseJson(payload)
              case None => ""
              case Some(rec) => FirstContent(rec).GetOr("")
  {
    var t := DataPrefix + payload;
    assert w1 + DataPrefix + payload + w2 == w1 + t + w2;
    assert t[0] == 'd';
    assert t[|t| - 1] == if payload == [] then ':' else payload[|payload| - 1];
    TrimSurrounded(w1, t, w2);
    assert t[..|DataPrefix|] == DataPrefix;
    assert t[|DataPrefix|..] == payload;
  }
}
