# Speech-to-text proxy: chunked base64 decoding and response selection

This project models the server side of a language-practice app's transcription path: the
edge function `speech_to_text.ts`. A browser records speech, encodes the recording as base64
and posts `{ "audio": <base64> }`. The function decodes the payload and forwards it to a
transcription provider. It then relays the transcript or an error.

Two parts are modelled:

- **`decodeBase64Chunks`** (module `ChunkedDecode`). It cuts the text into slices of
  `chunkSize` characters (default 32768). It runs each slice through `atob` and copies the
  character codes into a `Uint8Array`. It then copies the per-slice arrays, in order, into one
  buffer at a running offset. The model has two forms. One is a pure function over sequences.
  The other is a method whose loops follow the source's three loops, proved equal to the
  function.
- **`atob` and the client's encoder** (module `Base64`). The encoder is Base 64 of section 4 of
  RFC 4648 with the padding of section 3.2. The decoder is the host's "forgiving-base64 decode"
  on inputs without whitespace. When the length is a multiple of 4 it drops one or two trailing
  `=`. It rejects a length of 1 modulo 4 and any character outside the alphabet. It discards
  leftover bits.
- **The request handler** (module `SpeechToText`). It is a pure function from the request
  method, the parsed body (or the parse error), the `OPENAI_API_KEY` setting and the provider's
  behaviour to the response. The provider is a function parameter. The result records the one
  upload the handler sent, if it sent one.

The main results:

- The slices tile the input.
- The output is the in-order concatenation of the slice decodes. Its length is the sum of
  theirs.
- For any positive slice length that is a multiple of 4, chunked decoding equals `atob` of the
  whole string whenever `atob` accepts the whole string. So encode-then-decode is the identity
  for every byte sequence.
- The converse does not hold. The chunked decoder also accepts a payload with a `=` at the
  end of a non-final slice, which `atob` of the whole string rejects. `InteriorPaddingAccepted`
  and `InteriorPaddingExample` state this ("QQ==QUJD" with slices of 4 decodes to "AABC").
  Section 3.2 of RFC 4648 puts `=` only at the end of encoded data, so such a payload is not
  well-formed Base 64, and `Base64.Decode` of the whole string rejects it. The model follows the
  code, which accepts these payloads.
- The handler answers `OPTIONS` first, with "ok", status 200, the cross-origin headers and the
  `Content-Type: text/plain;charset=UTF-8` that the host adds to a string body (the Fetch
  standard's "extract a body" step). It then checks the audio, then the key, then decodes, then calls the provider once.
  Every failure is a 500 with `{"error": ...}`. Every non-pre-flight response carries the
  cross-origin headers plus `Content-Type: application/json`.

## Model

| member | source | states |
|---|---|---|
| Base64.Encode | practice.tsx:50-55 | the client's base64 text comes in whole 4-character quanta |
| Base64.EncodeLength | practice.tsx:50-55 | the client's base64 text of n bytes has exactly 4·⌈n/3⌉ characters |
| Base64.DecodeEncode | speech_to_text.ts:13 | `atob` of the RFC 4648 encoding of any byte sequence returns exactly those bytes |
| Base64.Decode | speech_to_text.ts:13 | `atob` throws on every input whose length is 1 modulo 4 |
| Base64.DecodeLength | speech_to_text.ts:13 | on success `atob` yields 3 bytes per 4 characters left after the padding is removed, rounded down |
| Base64.ForeignCharacterRejected | speech_to_text.ts:13 | any character outside the alphabet other than `=` makes `atob` throw |
| Base64.Atob | speech_to_text.ts:13 | `atob` returns a binary string exactly when decoding succeeds, and every character code in it is below 256 |
| Base64.DecodeAppend | speech_to_text.ts:11-13 | full 4-character groups of alphabet characters in front decode on their own: `atob(a + b)` throws iff `atob(b)` throws, and otherwise is a's bytes then b's |
| ChunkedDecode.SlicesTile | speech_to_text.ts:11-12 | the slices are non-empty, all but the last have exactly `chunkSize` characters, and their concatenation is the input |
| ChunkedDecode.SliceAt | speech_to_text.ts:11-12 | slice j is `base64.slice(j·chunkSize, j·chunkSize + chunkSize)` and starts inside the input |
| ChunkedDecode.DecodeSliceIsDecode | speech_to_text.ts:13-17 | copying `atob`'s character codes into a `Uint8Array` loses nothing: each slice's array equals the decoded bytes |
| ChunkedDecode.DecodeSlices | speech_to_text.ts:10-19 | the per-slice arrays, one per slice in slice order; the call throws iff some slice's decode throws |
| ChunkedDecode.Flatten | speech_to_text.ts:21-27 | the buffer's length is the sum of the chunk lengths |
| ChunkedDecode.ChunkAtOffset | speech_to_text.ts:23-27 | chunk j occupies the buffer from the summed lengths of chunks 0..j-1 to that sum plus its own length |
| ChunkedDecode.EmptyInput | speech_to_text.ts:11-22 | an empty payload yields an empty buffer |
| ChunkedDecode.ResultIsOrderedConcatenation | speech_to_text.ts:9-30 | the decoder throws iff some slice is rejected; otherwise the result is the in-order concatenation of the slice decodes and its length is their sum |
| ChunkedDecode.ChunkedMatchesDecode | speech_to_text.ts:9-30 | with a slice length that is a positive multiple of 4, the chunked result equals `atob` of the whole string whenever the latter succeeds |
| ChunkedDecode.ChunkedRejectionImpliesWholeRejection | speech_to_text.ts:9-30 | with such a slice length, a payload the chunked decoder rejects is rejected by `atob` of the whole string |
| ChunkedDecode.ChunkedRoundTrip | speech_to_text.ts:9-30 | the chunked decoder inverts the client's encoding for every slice length that is a positive multiple of 4 |
| ChunkedDecode.DefaultRoundTrip | speech_to_text.ts:9 | the same round trip with the default slice length 32768 |
| ChunkedDecode.InteriorPaddingAccepted | speech_to_text.ts:11-13 | two encodings joined, the first exactly one slice long and padded, are accepted chunk-wise and yield both byte sequences, while `atob` of the whole string throws |
| ChunkedDecode.InteriorPaddingExample | speech_to_text.ts:11-13 | "QQ==QUJD" with slices of 4 decodes to bytes 65, 65, 66, 67, while `atob` of the whole string throws |
| ChunkedDecode.CopyCharCodes | speech_to_text.ts:14-17 | the loop fills the array with the character codes modulo 256 |
| ChunkedDecode.TotalLength | speech_to_text.ts:21 | the reduce yields the length of the concatenation |
| ChunkedDecode.CopyAtOffsets | speech_to_text.ts:22-27 | writing each chunk at the running offset builds the in-order concatenation |
| ChunkedDecode.DecodeBase64ChunksLoop | speech_to_text.ts:9-30 | the source's loops compute the chunked decode, throwing on the first rejected slice |
| SpeechToText.Handle | speech_to_text.ts:32-72 | pre-flight answer first; JSON headers on every other answer; 500 iff error body, else 200; an unreadable body is reported with the parser's message; the provider is called only with present audio and key, once, with the chunked decode of the audio; with audio and key present, a failed decode is reported with `atob`'s message and nothing is sent, and a successful one is always sent as `audio.webm` with the `Bearer` key, after which a transcript gives 200 `{"text": t}`, a non-ok reply 500 "OpenAI error: " + body, and a `fetch` or reply-parsing error 500 with its message; errors the handler raises itself use its fixed messages |
| SpeechToText.CorsOnEveryResponse | speech_to_text.ts:4-7 | every response carries both cross-origin headers with their fixed values |
| SpeechToText.PreflightIgnoresEverythingElse | speech_to_text.ts:33-35 | the `OPTIONS` answer does not depend on the body, the configuration or the provider |
| SpeechToText.AudioCheckedFirst | speech_to_text.ts:38-39 | a missing or empty `audio` gives 500 "Missing audio data" whatever the key, and no provider call |
| SpeechToText.KeyCheckedSecond | speech_to_text.ts:41-42 | with audio present, a missing or empty key gives 500 "Missing OpenAI API key", and no provider call |
| SpeechToText.ProviderErrorSurfaced | speech_to_text.ts:57-60 | a non-ok provider answer gives 500 with "OpenAI error: " followed by the provider's body, after a single call |
| SpeechToText.RecordingReachesProvider | speech_to_text.ts:44-65 | a non-empty recording, encoded by the client, reaches the provider byte for byte, and its transcript comes back with status 200 |
| SpeechToText.EmptyRecordingIsMissingAudio | speech_to_text.ts:39 | an empty recording encodes to "", which is answered as missing audio |

## Left out

- Whitespace in the payload: the host's `atob` deletes ASCII whitespace before decoding. `Base64.Decode` rejects it instead. The model is exact on whitespace-free payloads, which is what the client's `readAsDataURL` produces. Whitespace inside a slice would also shift the slices' alignment to 4-character groups.
- `chunkSize` of 0 or less: the source loops forever. `DecodeBase64Chunks` requires a positive `chunkSize`. Only the default 32768 is ever used.
- A truthy `audio` that is not a string (a number, an object): `decodeBase64Chunks` would run on it with JavaScript coercions. `AudioField` covers only strings and the falsy values.
- The provider's JSON reply whose `text` field is missing or not a string: `Transcribed` carries a string. The serialisation of the response bodies as JSON text is not modelled either. Bodies are datatypes.
- `Uint8Array` length limits and memory exhaustion on huge payloads are not modelled. Integers are unbounded.
- Deno's `serve`, `req.json()`, `Deno.env.get`, `Blob`/`FormData` construction and `fetch` are I/O. Their outcomes are inputs: `RequestBody`, `Environment`, and the `provider` function parameter. The message text of `atob`'s error comes from the host and is an input (`Environment.decodeErrorMessage`).
- A body that is JSON `null`: the destructuring on line 38 throws a `TypeError` whose message comes from the host. It is modelled as `Unparsable` with that message as input, not as a missing `audio`.
- HTTP method normalisation by the host is not modelled. The method is compared with "OPTIONS" exactly, as written.
- The client views (`Index.tsx`, `practice.tsx`, `App.tsx`) are React UI, media capture and database calls with no logic of their own. Only the client's base64 encoding is modelled, as `Base64.Encode`, to state the round trip.
