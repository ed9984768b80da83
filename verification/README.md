# easy-table relay core, modelled in Dafny

The model covers two pieces of the table-extraction relay's server routes.

- **The upstream stream decoder** (`server/api/extract.ts`). The model API's response
  body arrives as byte chunks. `llmStream` keeps a carry buffer and cuts the bytes
  after every newline (`0x0A`). Each complete line goes to `parseLlmChunk`, which
  decodes it, trims it, and takes `choices[0].delta.content` out of a `data:` JSON
  record. Non-empty fragments are forwarded. On stream end, `flush` parses whatever
  is left in the buffer.
- **The auth request codec** (`server/api/authdb.ts`). `newAuthRequest` turns a kind
  tag into a request with one payload. `encryptRequest` pads the JSON text with
  spaces to a multiple of 16 and builds the envelope `nonce(12) || ciphertext`.
  `makeKey` turns a 64-digit hex secret into 32 raw bytes and hashes any other
  secret with SHA-256.

Modules, one per concept:

| file | module | models |
|---|---|---|
| wrappers.dfy | `Wrappers` | absent fields (`Option`) and thrown errors (`Result`) |
| bytes.dfy | `Bytes` | `Uint8Array` buffers as `seq<byte>`, `concatArrayBuffers` |
| js_text.dfy | `JsText` | `String.prototype.trim`, `startsWith`, the UTF-16 `length` |
| line_splitter.dfy | `LineSplitter` | the carry-buffer line cutting of `transform` |
| sse.dfy | `Sse` | `parseLlmChunk` |
| llm_stream.dfy | `LlmStream` | `transform` as written (a loop), `flush`, the whole stream |
| auth_request.dfy | `AuthRequests` | the request types and `newAuthRequest` |
| primitives.dfy | `Primitives` | the foreign functions, passed in as function values |
| envelope.dfy | `Envelope` | the padding and envelope of `encryptRequest` |
| key_derivation.dfy | `KeyDerivation` | `makeKey` |

Foreign code is not modelled. It enters as function-valued fields of two records,
`Sse.TextLibs` and `Primitives.Primitives`. Every property holds for every choice
of those functions. The foreign functions are:

- `TextDecoder.decode` and `TextEncoder.encode`;
- `JSON.parse` (`None` when it throws) and `JSON.stringify`;
- SHA-256 (FIPS 180-4), which returns 32 bytes;
- AES-256-GCM encryption (NIST SP 800-38D), which returns `None` when WebCrypto
  rejects the key or the call.

The random nonce is an argument of type `Nonce` (12 bytes).

Facts about the code that the model keeps:

- Padding counts the JavaScript string length (`requestJSON.length`, `authdb.ts:90-91`),
  which is in UTF-16 code units, not UTF-8 bytes. `Pad` promises a UTF-16 length that
  is a multiple of 16. The UTF-8 byte length of non-ASCII text need not be a multiple
  of 16. `JsText.Utf16Length` counts a scalar above U+FFFF as two units.
- `flush` enqueues the parse of a non-empty leftover buffer even when that parse is
  `''` (`extract.ts:91-92`). `transform` enqueues only non-empty results (`extract.ts:78-80`).
- The route in `extract.ts` does not call the auth service. Quota gating is therefore
  not part of this model.

## Model

| member | source | states |
|---|---|---|
| Bytes.Concat | server/api/extract.ts:30-39 | the joined buffer is as long as the chunks' lengths added up, as `reduce` sums them; where each chunk lands is stated by ConcatPlacesChunks |
| Bytes.ConcatPlacesChunks | server/api/extract.ts:30-39 | the result's length is the sum of the chunk lengths, and chunk i sits unchanged at the sum of the lengths before it |
| Bytes.ChunkAt | server/api/extract.ts:33-37 | chunk i is copied unchanged to the offset that the lengths of the chunks before it add up to |
| Bytes.ConcatAppend | server/api/extract.ts:30-39 | concatenating two lists of buffers is concatenating their concatenations |
| LineSplitter.IndexOf | server/api/extract.ts:76 | -1 exactly when the byte is absent; otherwise the byte is at that index and nowhere before it |
| LineSplitter.Feed | server/api/extract.ts:73-88 | one transform call: the lines handed on, then the new carry buffer, spell the old carry buffer then the chunk; a newline-free buffer stays newline-free |
| LineSplitter.FeedSplits | server/api/extract.ts:73-88 | from a newline-free buffer every line handed on ends in its only 0x0A, so the call splits buffer plus chunk into complete lines and a newline-free rest |
| LineSplitter.FeedAll | server/api/extract.ts:73-88 | over a sequence of chunks: the lines then the final buffer spell the whole stream, and the buffer stays newline-free |
| LineSplitter.FeedAllSplits | server/api/extract.ts:73-88 | from a newline-free buffer the whole stream is split into complete lines and a newline-free rest |
| LineSplitter.FirstLineUnique | server/api/extract.ts:76-77 | two complete lines that both start the same bytes are equal |
| LineSplitter.LineSplitUnique | server/api/extract.ts:73-88 | bytes have only one split into complete lines and a newline-free tail |
| LineSplitter.ChunkBoundaryIndependence | server/api/extract.ts:73-88 | two chunkings of the same bytes give the same lines and the same final carry buffer |
| LineSplitter.FeedAllIsOneFeed | server/api/extract.ts:73-88 | feeding chunk by chunk equals feeding the whole byte sequence as one chunk |
| JsText.Trim | server/api/extract.ts:45 | the result is the part between leading and trailing white space; it is empty exactly when the input is all white space, and otherwise starts and ends with a non-space |
| JsText.TrimSurrounded | server/api/extract.ts:45 | white space around a string that has no white space at its ends is exactly what trim removes |
| JsText.TrimIdempotent | server/api/extract.ts:45 | trimming twice is trimming once |
| Sse.FirstContent | server/api/extract.ts:52 | absent exactly when `choices` is missing, where `choices[0]` throws; for every non-empty string c, the result is c exactly when the first choice's `delta.content` is c |
| Sse.Payload | server/api/extract.ts:50-59 | `''` when the JSON after `data:` fails to parse; for every non-empty c, c exactly when the parse succeeds and its first choice's `delta.content` is c |
| Sse.ParseLlmChunk | server/api/extract.ts:41-62 | `''` for empty input, a blank line, or a line without `data:`; non-empty exactly when a data line's JSON parses and carries non-empty content, which is then the result |
| Sse.ParseDataLine | server/api/extract.ts:45-59 | a `data:` line padded with white space yields `''` when its payload fails to parse, and otherwise the payload's first-choice content |
| LlmStream.Fragments | server/api/extract.ts:77-80 | at most one item per line, and every item is non-empty |
| LlmStream.FragmentsAreParses | server/api/extract.ts:77-80 | every enqueued item is the parse of one of the lines, and every line whose parse is non-empty has that parse enqueued |
| LlmStream.FragmentsAppend | server/api/extract.ts:76-83 | fragments of consecutive line runs are the concatenation of their fragments |
| LlmStream.SilentLineSkipped | server/api/extract.ts:57-61 | a line that yields nothing, such as malformed JSON, does not stop or change the processing of the lines around it |
| LlmStream.TransformTurn | server/api/extract.ts:76-83 | one loop turn: parsing the buffer plus the chunk up to its first 0x0A, enqueueing a non-empty result, clearing the buffer and continuing after the newline leaves the same total output and final buffer to reach |
| LlmStream.TransformLoop | server/api/extract.ts:74-87 | the loop as written, for any line parser, enqueues exactly the non-empty parses of the lines Feed cuts, in order, and leaves Feed's decoder; the carry buffer stays newline-free |
| LlmStream.Transform | server/api/extract.ts:73-88 | one transform call with `parseLlmChunk` as the line parser: enqueues only non-empty fragments, those of the lines Feed cuts, and keeps the buffer newline-free |
| LlmStream.Flush | server/api/extract.ts:90-93 | a non-empty buffer enqueues its parse, with no emptiness check; an empty buffer enqueues nothing |
| LlmStream.TransformAll | server/api/extract.ts:64-88 | transform called once per chunk: every enqueued item is non-empty, and a newline-free buffer stays newline-free |
| LlmStream.Run | server/api/extract.ts:64-95 | the whole stream enqueues the fragments of the lines that splitting the whole response yields, then the flush of its newline-free rest |
| LlmStream.TransformAllIsFeedAll | server/api/extract.ts:68-95 | calling transform once per chunk enqueues the fragments of all lines of the stream, in order |
| LlmStream.RunChunkingIndependent | server/api/extract.ts:64-95 | two chunkings of the same response bytes produce the same enqueued fragments, flush included |
| LlmStream.RunIsOneChunk | server/api/extract.ts:64-95 | the chunked stream produces what the whole response as one chunk produces |
| LlmStream.OnlyFlushEmitsEmpty | server/api/extract.ts:78-93 | an empty enqueued item can only be the last one, from flushing a non-empty buffer |
| AuthRequests.NewAuthRequest | server/api/authdb.ts:47-77 | an unknown kind is an error; otherwise exactly one of revoke, checkRevoke and quota is set and traceId is the argument; revoke and checkRevoke copy the params; use copies them into quota without dryRun or reset; usage sets dryRun; resetQuota sets reset and keeps token and maxQuota |
| AuthRequests.NewAuthRequestReadsBack | server/api/authdb.ts:47-74 | the receiver can recover the kind and params from every request the dispatcher builds |
| AuthRequests.NewAuthRequestInjective | server/api/authdb.ts:47-74 | two calls build the same request only when their params and trace ids agree |
| JsText.Utf16LengthCounts | server/api/authdb.ts:90-91 | JavaScript's `length` lies between the number of scalars and twice it, and equals it exactly when no scalar lies above U+FFFF |
| Envelope.Pad | server/api/authdb.ts:89-92 | the UTF-16 length is a multiple of 16; the input is a prefix; only spaces are appended, fewer than 16; aligned input is unchanged |
| Envelope.PadIsShortest | server/api/authdb.ts:89-92 | no shorter extension by spaces reaches a multiple of 16 |
| Envelope.PadIdempotent | server/api/authdb.ts:89-92 | padding padded text changes nothing |
| Envelope.Seal | server/api/authdb.ts:111-115 | the envelope has length 12 plus the ciphertext length, the nonce first and the ciphertext after it |
| Envelope.OpenSeal | server/api/authdb.ts:111-115 | splitting an envelope after 12 bytes gives back its nonce and ciphertext |
| Envelope.SealOpen | server/api/authdb.ts:111-115 | every envelope of at least 12 bytes is the seal of its two parts |
| Envelope.SealDistinguishesNonces | server/api/authdb.ts:95-115 | envelopes under different nonces differ |
| Envelope.PadClosedForm | server/api/authdb.ts:90-92 | padding appends exactly (16 - length mod 16) mod 16 spaces, counting the length in UTF-16 units |
| Envelope.Plaintext | server/api/authdb.ts:89-109 | the cipher's input is the UTF-8 encoding of the JSON followed by (16 - length mod 16) mod 16 spaces |
| Envelope.EncryptRequest | server/api/authdb.ts:88-116 | fails exactly when the cipher rejects; otherwise the envelope opens to the nonce and the cipher's output for the UTF-8 bytes of the padded JSON |
| KeyDerivation.HexTestIsHexKey | server/api/authdb.ts:140 | the JavaScript test (UTF-16 length 64 and the hex regex) accepts exactly the strings of 64 hex digits |
| KeyDerivation.HexDecode | server/api/authdb.ts:141-145 | half as many bytes as digits; byte i is parseInt of digits 2i and 2i+1 in base 16 |
| KeyDerivation.HexPairInverse | server/api/authdb.ts:143 | two hex digits and the byte `parseInt` makes of them determine each other: the byte's high and low halves are the digits' values, and the lower-case digits of any byte's halves parse back to it |
| KeyDerivation.HexRoundTrip | server/api/authdb.ts:141-145 | decoding the hex writing of any bytes gives them back |
| KeyDerivation.DeriveKey | server/api/authdb.ts:137-150 | 64 hex digits give the 32 bytes with byte i = 16·hex(s[2i]) + hex(s[2i+1]); any other string gives SHA-256 of its UTF-8 encoding |
| KeyDerivation.DeriveKeyOfHex | server/api/authdb.ts:140-146 | any 32-byte key written as hex is taken back as exactly that key |
| KeyDerivation.MakeKey | server/api/authdb.ts:137-150 | the two-digit loop fills the buffer with what DeriveKey specifies |

## Left out

- The HTTP route handler, the `fetch` to the model API and the response it builds (`extract.ts:98-141`) are network I/O.
- `buildLlmRequest` (`extract.ts:2-28`) builds a JSON object of constant shape from its two arguments. It has no branches or loops to model.
- `sendAuthRequest` (`authdb.ts:118-135`) is network I/O.
- The lazy `globalThis.crypto` initialisation (`authdb.ts:80-85`) is a module-loading side effect.
- `TextDecoder`, `TextEncoder`, `JSON.parse`, `JSON.stringify`, SHA-256 and AES-GCM are foreign code. They are function parameters whose behaviour is left open, except that the digest is 32 bytes.
- Random nonce generation is foreign code. The nonce is an argument.
- Backpressure, cancellation and the asynchrony of TransformStream and of the async functions are not modelled. The model is sequential.
- The `usage.prompt_tokens` check and the `console` logging in `parseLlmChunk` only log.
- Sse.FirstContent: `content` is a string or absent. The `as string` cast is compile-time only, so a truthy non-string `content` would be enqueued as it is. The model does not represent that case.
- The `!chunk` test in `parseLlmChunk` guards against a missing buffer. Buffers always exist here.
- AuthRequests.NewAuthRequest: JSON numbers (`ttl`, `expiresAt`, `maxQuota`) are integers.
- AuthRequests.NewAuthRequest: each params value holds exactly the fields its kind declares, and a requires clause ties the params to the kind. TypeScript's structural typing also admits params with extra fields, a params shape of another kind that happens to fit, or a union of kinds; the `{ ...params }` spread then copies every own field onto the wire. The model does not represent those extra fields.
- Strings are Dafny strings, which are sequences of Unicode scalars. A JavaScript string is a sequence of UTF-16 code units and can hold an unpaired surrogate, for example a `delta.content` that `JSON.parse` builds from a `"\ud83d"` escape, or a token, trace id or secret holding one. Such strings are not represented, and `JsText.Utf16Length` is JavaScript's `length` only for strings without unpaired surrogates.
- Bytes are integers in 0..255 rather than 8-bit vectors. The two are equivalent for every operation here.
- `nuxt.config.ts` is framework configuration.
