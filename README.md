# Voice-agent chat: transcript reassembly, token issuance, request signing

This project models, in Dafny, two self-contained pieces of a web app. The
app lets a user talk with a voice agent in a real-time room.

**Transcript reassembly** (`handleMessage` and `clearMessages` in
app/hooks/useChat.ts).
- Room-channel messages carry chunks of two kinds, keyed by a `MessageId`:
  - Cmd 3 is speech recognition of the user. Each chunk holds the whole
    current text of the utterance and replaces what is shown. A chunk is
    dropped unless its `SeqId` is strictly greater than the cached one.
  - Cmd 4 is the agent's reply. Each chunk holds a fragment that is
    appended to the cached text, with no sequence check.
- An `EndFlag` retires the utterance's cache entry.
- Any other command, and text that does not parse, is ignored.
- Every utterance owns exactly one line of the transcript. A new id appends
  a line; an existing id is updated in place.

The hook's state is modelled in two forms:
- `Chat.Reassembler` is a class with the transcript and the two caches as
  fields, updated in place.
- `Chat.Step` is the specification function on the whole state. The class's
  `HandleMessage` is proved to do exactly what `Step` says, and every
  property is proved about `Step` and about runs of it (`Chat.Run`).

**Token issuance** (`generateToken` in app/api/zego/utils.ts).
- A descriptor is built: application id, user id, a random 32-bit nonce,
  the creation time and the expiry `ctime + ttl`.
- Its JSON text is sealed with AES-256-GCM under the 32-byte secret and a
  fresh 12-byte nonce.
- The binary envelope holds, in order: the expiry as a signed 64-bit
  big-endian integer, the 2-byte nonce length, the nonce, the 2-byte length
  of the ciphertext with its 16-byte tag, those bytes, and the mode byte 1.
- The token is `"04"` followed by the base 64 of the envelope (RFC 4648,
  section 4).

**Request signing** (`generateSignature`, and the query parameters that
`sendZegoRequest` sets, in the same file).
- The signature is the MD5 hex digest of four parts concatenated: the
  application id in decimal, a 16-hex-digit nonce, the server secret, and
  the timestamp in seconds in decimal.
- Six query parameters carry the inputs and the signature:
  `Action`, `AppId`, `SignatureNonce`, `Timestamp`, `Signature` and
  `SignatureVersion` (`"2.0"`).

Every encoder has its reader, and the round trip is proved in both
directions:
- big-endian integer fields (`Bytes`);
- base 64 (`Base64`);
- decimal numbers (`Decimal`);
- hexadecimal (`Hex`);
- the envelope (`ZegoToken.Pack` / `ZegoToken.Unpack`).

The consumers of the token and of the signed query are not in this
repository: the ZEGO service holds them. Two partners are defined from the
token format and the service's documented check:
- `ZegoToken.VerifyToken` decrypts the token, checks it, and refuses it
  after its expiry;
- `ZegoSignature.VerifyQuery` recomputes the signature from the query's own
  fields.

The issue-then-verify lemmas connect each producer to its consumer.

Foreign primitives are parameters of the functions that use them, not
definitions:
- AES-256-GCM (`ZegoToken.Aead`);
- the descriptor's JSON text (`ZegoToken.Json`);
- MD5 (`md5Hex`).

Clock readings and random draws are parameters too:
- `now` and `nowMs` stand for `Date.now()`;
- `draw` stands for the scaled `Math.random()`;
- `iv` and `nonceBytes` stand for `crypto.randomBytes`.

Each GCM output is the ciphertext followed by a 16-byte tag; the type
`ZegoToken.Tag` enforces that. A signature depends only on its inputs,
since `GenerateSignature` is a function.

## Model

| member | source | states |
|---|---|---|
| Chat.Classify | app/hooks/useChat.ts:16-19 | a message is unparsable exactly when `JSON.parse` fails, is speech exactly when `Cmd` is 3, is a reply exactly when `Cmd` is 4, and carries the raw `SeqId` and `Data` through |
| Chat.Find | app/hooks/useChat.ts:26 | the lookup finds a line exactly when some line has the id, and what it returns is a line of the list with that id |
| Chat.SetContent | app/hooks/useChat.ts:28-31 | the list keeps its length; every line with the id gets the new content and completion flag, and every other line is unchanged |
| Chat.UpsertThenFind | app/hooks/useChat.ts:26-39 | after an upsert, the line for the id has the new content and flag; it is the existing line (same role and timestamp) when there was one, else a new line with the given role and time |
| Chat.FindUnique | app/hooks/useChat.ts:26 | with unique ids, the lookup returns the one line holding the id |
| Chat.UpsertKeepsPlaces | app/hooks/useChat.ts:26-39 | an upsert keeps every line in its place with its id, role and timestamp; it leaves lines of other ids equal; it grows the list by one line, at the end, exactly when the id was absent |
| Chat.UpsertKeepsUnique | app/hooks/useChat.ts:26-39 | an upsert keeps ids unique, and the ids present afterwards are the old ones plus the upserted one |
| Chat.StepKeepsConsistent | app/hooks/useChat.ts:14-76 | each handled message keeps the invariant: ids are unique in the transcript, every cached utterance has a line, and no reply entry is cached as complete |
| Chat.AsrKeepsConsistent | app/hooks/useChat.ts:19-45 | the invariant survives a Cmd 3 chunk |
| Chat.LlmKeepsConsistent | app/hooks/useChat.ts:46-71 | the invariant survives a Cmd 4 chunk |
| Chat.AsrChunkTranscript | app/hooks/useChat.ts:21-40 | a Cmd 3 chunk is applied iff its id is not cached or its `SeqId` is strictly greater; applied, the line's content is the chunk text verbatim and its flag the chunk's `EndFlag`; dropped, the transcript is unchanged |
| Chat.AsrChunkCaches | app/hooks/useChat.ts:21-45 | an applied Cmd 3 chunk caches `{SeqId, Text}`; `EndFlag` deletes the entry even when the chunk was dropped; a dropped chunk without it leaves the cache equal; other entries and the reply cache are untouched |
| Chat.LlmChunkTranscript | app/hooks/useChat.ts:48-67 | a Cmd 4 chunk is always applied: the line shows the cached text followed by the fragment, or the fragment alone when nothing is cached, with the chunk's `EndFlag` |
| Chat.LlmChunkCaches | app/hooks/useChat.ts:48-71 | a Cmd 4 chunk caches its `SeqId` and the accumulated text unless `EndFlag` deletes the entry; other entries and the speech cache are untouched |
| Chat.IgnoredMessages | app/hooks/useChat.ts:14-76 | a command other than 3 and 4, or text that fails to parse, changes neither the transcript nor either cache |
| Chat.StepKeepsOrder | app/hooks/useChat.ts:21-66 | a step never reorders the transcript: every line keeps its place, id, role and timestamp, and lines of other ids are unchanged; one line is added, at the end, exactly when an applied chunk's id had no line, and it has that id, role `User` for Cmd 3 or `Agent` for Cmd 4, and the arrival time |
| Chat.AsrAcceptedAfterEnd | app/hooks/useChat.ts:21-45 | after a Cmd 3 chunk with `EndFlag`, the next Cmd 3 chunk for that id is accepted whatever its `SeqId` and overwrites the line |
| Chat.LlmRestartsAfterEnd | app/hooks/useChat.ts:48-71 | after a Cmd 4 chunk with `EndFlag`, the next Cmd 4 chunk for that id starts afresh: the line shows its fragment alone |
| Chat.RunKeepsConsistent | app/hooks/useChat.ts:14-76 | any session of messages keeps the invariant |
| Chat.Recognizable | app/hooks/useChat.ts:19-46 | the filtered session holds exactly the Cmd 3 and Cmd 4 chunks of the original and is no longer than it |
| Chat.IgnoredEventsAreInvisible | app/hooks/useChat.ts:14-76 | dropping every unknown or unparsable message from a session leaves its outcome unchanged |
| Chat.LlmFragment | app/hooks/useChat.ts:48-57 | one reply fragment without `EndFlag` leaves the reply cached and shown as the old cached text followed by the fragment |
| Chat.LlmAccumulates | app/hooks/useChat.ts:48-57 | a reply streamed as Cmd 4 fragments without `EndFlag` is cached and shown as the concatenation of its fragments in arrival order |
| Chat.StaleSpeechDropped | app/hooks/useChat.ts:21-22 | "hel" at sequence 2 stays when "garbage" arrives at sequence 1 |
| Chat.ReplyFragmentsJoined | app/hooks/useChat.ts:48-71 | fragments "Hel" and "lo" show as one complete line "Hello", and the reply cache ends empty |
| Chat.Reassembler.constructor | app/hooks/useChat.ts:10-12 | the hook starts with an empty transcript and empty caches |
| Chat.Reassembler.HandleMessage | app/hooks/useChat.ts:14-76 | the in-place update of the fields is exactly one `Step` of the state, and it keeps the invariant |
| Chat.Reassembler.ClearMessages | app/hooks/useChat.ts:92-96 | the transcript and both caches become empty |
| Bytes.UintBE | app/api/zego/utils.ts:29-32 | a 16-bit length field is exactly its width in bytes |
| Bytes.ReadUintBEOfUintBE | app/api/zego/utils.ts:29-32 | reading a big-endian field gives back the value written into it |
| Bytes.UintBEOfReadUintBE | app/api/zego/utils.ts:29-32 | every byte string is the big-endian field of the value it reads as |
| Bytes.Int64RoundTrip | app/api/zego/utils.ts:27-28 | the signed 64-bit two's-complement field reads back as the value written, for every value in range |
| Bytes.Int64BEOfReadInt64BE | app/api/zego/utils.ts:27-28 | every eight bytes are the field of the signed value they read as |
| Base64.CharIndexOfIndexChar | app/api/zego/utils.ts:37 | each of the 64 alphabet characters maps back to its index |
| Base64.EncodeLength | app/api/zego/utils.ts:37 | the base 64 text of n bytes has 4 * ceil(n / 3) characters |
| Base64.DecodeEncode | app/api/zego/utils.ts:37 | decoding the base 64 text of any bytes gives them back |
| Base64.EncodeDecode | app/api/zego/utils.ts:37 | every text the strict decoder accepts is the encoding of what it decodes to |
| Decimal.DigitsCanonical | app/api/zego/utils.ts:47 | the digits of a natural number have no leading zero |
| Decimal.ParseShow | app/api/zego/utils.ts:47 | the decimal text of any integer reads back as that integer |
| Decimal.ShowParse | app/api/zego/utils.ts:47 | every text the strict reader accepts is the decimal text of its value |
| Hex.EncodeLength | app/api/zego/utils.ts:55 | the hex text of n bytes has 2n characters |
| Hex.DecodeEncode | app/api/zego/utils.ts:55 | decoding the hex text of any bytes gives them back |
| Hex.EncodeDecode | app/api/zego/utils.ts:55 | every text the hex reader accepts is the encoding of what it decodes to |
| ZegoToken.CreateTime | app/api/zego/utils.ts:10 | the creation time is the millisecond clock reading rounded down to whole seconds |
| ZegoToken.DescriptorNonce | app/api/zego/utils.ts:14 | for a draw in [0, 2^32 - 1), the nonce lies in the signed 32-bit range and is the draw shifted down by 2^31 |
| ZegoToken.MakeTokenInfo | app/api/zego/utils.ts:10-18 | the descriptor's expiry is `ttl` seconds after its creation time, and its nonce is a signed 32-bit value |
| ZegoToken.Pack | app/api/zego/utils.ts:27-36 | packing succeeds iff the expiry fits a signed 64-bit field and both lengths fit 16 bits, else it fails with `OutOfRange`; the buffer is 13 bytes longer than the nonce and the encrypted block together |
| ZegoToken.UnpackPack | app/api/zego/utils.ts:27-36 | reading a packed envelope by its length prefixes recovers the expiry, the nonce and the encrypted block exactly |
| ZegoToken.PackUnpack | app/api/zego/utils.ts:27-36 | every buffer that reads as an envelope is exactly the packing of that envelope, mode byte 1 included |
| ZegoToken.GenerateTokenOutcome | app/api/zego/utils.ts:22-36 | issuance fails with `InvalidKeyLength` iff the secret is not 32 bytes; it fails with `OutOfRange` iff the key is right but the expiry leaves the 64-bit range or the encrypted block is 65536 bytes or more |
| ZegoToken.TokenOfBuffer | app/api/zego/utils.ts:37 | stripping `"04"` from the token and decoding its base 64 gives back the buffer; the token is 2 + 4 * ceil(n / 3) characters for n bytes |
| ZegoToken.GenerateTokenLayout | app/api/zego/utils.ts:10-37 | an issued token reads back without the secret as the envelope of expiry `ctime + ttl`, the 12-byte nonce and the cipher output followed by its tag; the tag is the last 16 bytes; the token's length is 2 + 4 * ceil((25 + encrypted length) / 3) |
| ZegoToken.VerifyGeneratedToken | app/api/zego/utils.ts:4-38 | a holder of the secret recovers exactly the descriptor issued, with the given user id and expiry `ctime + ttl`; the token is refused as expired exactly when the holder's clock is past that expiry |
| ZegoSignature.PreimageFields | app/api/zego/utils.ts:47 | the pre-image is the application id in decimal, the nonce, the secret and the timestamp in decimal, and each number reads back from its slice |
| ZegoSignature.Lookup | app/api/zego/utils.ts:60-65 | getting a key gives nothing exactly when no pair has that key, and otherwise the value of the first pair with that key |
| ZegoSignature.Without | app/api/zego/utils.ts:60-65 | removing a key leaves no pair with it and every other key reading as before |
| ZegoSignature.SetParamLookup | app/api/zego/utils.ts:60-65 | after setting a key, getting it gives the new value and every other key reads as before |
| ZegoSignature.LookupAt | app/api/zego/utils.ts:60-65 | with unique keys, getting a pair's key gives that pair's value |
| ZegoSignature.SetParamAppends | app/api/zego/utils.ts:60-65 | setting a key the query does not hold appends exactly one pair |
| ZegoSignature.QueryParamsPairs | app/api/zego/utils.ts:60-65 | the query is the six pairs, once each, in the order they are set |
| ZegoSignature.QueryParamsLookup | app/api/zego/utils.ts:60-65 | the keys are unique, and each of the six reads back the value it was set to |
| ZegoSignature.VerifySignedQuery | app/api/zego/utils.ts:53-65 | the query carries the nonce and the timestamp that were signed, plus version `"2.0"`. The nonce is the 16 hex digits of the 8 random bytes and decodes back to them. The query passes the receiver's recomputation of the signature |

## Left out

- Date.now, Math.random and crypto.randomBytes are clock and randomness. They are parameters: `now`, `nowMs`, `draw`, `iv` and `nonceBytes`.
- Float arithmetic in the descriptor-nonce expression is replaced by its integer part `draw`. Its range [0, 2^32 - 1) is a precondition.
- AES-256-GCM and MD5 are foreign primitives. They are function-typed parameters; their only assumed structure is that the tag is 16 bytes.
- `setAutoPadding` is not modelled, because it has no effect in GCM mode.
- JSON.stringify of the token descriptor is a parameter, and so is JSON.parse on the consumer side. Their text and escaping are not modelled.
- JSON.parse of a room message is not modelled. Its outcome is an input to `Chat.Classify`.
- A parsed room message without `Data` throws inside the `try`. The model treats it as unparsable.
- The secret is taken as the key bytes. The UTF-8 encoding of the secret string is not modelled.
- Decimal.Show: renders integers only. It does not model JavaScript's exponent form at 1e21 and above, non-integer numbers, or the `NaN` that `parseInt` gives for a non-numeric `NEXT_PUBLIC_ZEGO_APP_ID`.
- ZegoToken.MakeTokenInfo: the expiry `ctime + ttl` is an exact integer sum. JavaScript adds two doubles here, so the model agrees with the source only while |ctime + ttl| <= 2^53; beyond that the sum rounds, which can also push an expiry near 2^63 out of the signed 64-bit range. The only caller (app/api/zego/token/route.ts:19) passes a ttl of 3600.
- ZegoToken.GenerateToken: the expiry is an integer, so the `RangeError` that `BigInt` throws for a fractional expiry is not modelled.
- The request URL is modelled only as its ordered list of query pairs. Its string form and percent-encoding are not modelled.
- The `fetch` call and the response handling of `sendZegoRequest` are network I/O, so they are left out.
- `setupEventListeners` is an SDK event subscription, so it is left out.
- The route handlers in app/api/zego/*/route.ts are not part of this model. Their `appId` and secret guards are not carried as preconditions: the model covers every input.
- React schedules the `setMessages` updater; the model applies it at once, one message at a time.
- The `Timestamp` and `Round` fields of a room message are read nowhere, so they are carried but unused.
- `ZegoToken.VerifyToken` and `ZegoSignature.VerifyQuery` are the service's side. They are not in this repository, so they are defined from the format, not from source.
