# HyBi sender of ws, modelled in Dafny

This project models `lib/Sender.js` of the `ws` WebSocket library, which encodes
outgoing WebSocket frames. It covers:

- base framing (section 5.2 of RFC 6455);
- client-side masking (section 5.3);
- fragmentation (section 5.4);
- the Close, Ping and Pong control frames (section 5.5).

A `Sender` object has three pieces of state:

- `firstFragment`: the fragmentation tracker's state.
- An optional send buffer cache, `_sendCache` with size `_sendCacheSize`.
- `_randomMask`: a masking key drawn on the first masked frame and reused after that.

The socket is modelled as the trace of its `write` calls. Every operation is
proved against `Framing.FrameWrites`, the list of writes one frame produces.
`FrameWrites` is checked against a frame reader, `Framing.ParseFrame`: every
frame the sender emits reads back as the same FIN bit, opcode, key and payload.

Files:

- `results.dfy`: `Option` and `Outcome`.
- `bytes.dfy`: Buffer bytes, JavaScript `^` and `|` on bytes, the big-endian layouts, and XOR masking.
- `framing.dfy`: the header layout, the length classes, the writes of one frame, and the reader with the round trip.
- `fragmentation.dfy`: the `send` tracker as a state machine over runs of sends.
- `sender.dfy`: the `Sender` class and the buffer helpers, written imperatively over arrays.
- `mask_source.dfy`: how `getRandomMask` turns random numbers into key bytes (see Findings).

Dependencies on code outside the model are parameters:

- The random key is `freshKey`. It is used only when no key is cached yet.
- `ErrorCodes.isValidErrorCode` is `isValidErrorCode`.
- A falsy payload (`undefined`, `null`, `''`) is `None`. Any Buffer, empty or not, is `Some(bytes)`.
- The caller's callback is `hasCallback`. Its two-completion counter is the `Join` object returned for unmasked frames. The masked path and the falsy-data path hand the callback to their single write.

## Model

| member | source | states |
|---|---|---|
| HybiSender.Sender.constructor | lib/Sender.js:18-28 | `firstFragment` starts true and no key is cached. The cache size defaults to 65536. A cache of exactly that size is allocated when the size is positive, and there is none otherwise. |
| HybiSender.Sender.OutputBuffer | lib/Sender.js:124-126 | When the cache exists and the frame fits, the output region is the cache, of which the frame uses the first `totalLength` bytes. Otherwise it is a fresh buffer of exactly `totalLength` bytes. |
| HybiSender.Sender.Send | lib/Sender.js:82-90 | The frame's opcode and the new `firstFragment` are those of the tracker's `Step`: Text or Binary when a message starts, Continuation inside one, and `firstFragment` becomes the FIN flag. The socket gets exactly that frame's writes, the key is cached, and a join is returned exactly when a present (non-falsy) payload, an empty Buffer included, is sent unmasked. |
| HybiSender.Sender.Close | lib/Sender.js:42-52 | Fails exactly when a code is given that is non-numeric or rejected by `isValidErrorCode`, and then nothing is written and no state changes. Otherwise it writes one final Close frame whose payload is the code (1000 when omitted or zero) big-endian, followed by the reason. |
| HybiSender.Sender.Ping | lib/Sender.js:60-63 | Writes one final Ping frame and leaves `firstFragment` alone. With no data the write is exactly `[0x89, 0x00]`, unmasked even when masking is requested. |
| HybiSender.Sender.Pong | lib/Sender.js:71-74 | Writes one final Pong frame and leaves `firstFragment` alone. With no data the write is exactly `[0x8A, 0x00]`. |
| HybiSender.Sender.FrameAndSend | lib/Sender.js:98-167 | The socket trace grows by exactly `FrameWrites` of the frame. The key used is the cached key, or the fresh one, which is then cached. A cache-built frame's write equals the cache prefix, and the rest of the cache is untouched. A frame not built in the cache leaves the cache unchanged. |
| HybiSender.Sender.StartFrame | lib/Sender.js:112-135 | `dataOffset` is the header size and `secondByte` the length marker. `totalLength` is the header plus, when masked, the payload. Byte 0 is `FirstByte` and bytes 2 onward hold the extended length. Cache bytes past the frame are untouched. |
| HybiSender.Sender.LengthFields | lib/Sender.js:112-122 | The length class chain gives `dataOffset == HeaderSize` (2, 4 or 10, plus 4 when masked) and `secondByte == LengthMarker` (the length, 126 or 127). |
| HybiSender.Sender.WriteLengthField | lib/Sender.js:128-135 | For marker 126, bytes 2-3 hold the length. For 127, bytes 2-5 are zero and bytes 6-9 hold the length. Nothing else changes. |
| HybiSender.Sender.SendMasked | lib/Sender.js:136-151 | The key is the cached one, or else the fresh one, which becomes cached. The output region holds header plus masked payload and is written once. Bytes past it are untouched. |
| HybiSender.Sender.BuildMasked | lib/Sender.js:137-143 | After byte 1 gets the mask bit, the key goes before `dataOffset` and the masked payload after it. The first `totalLength` bytes are then `Header(..., Some(key)) + Mask(payload, key)`. |
| HybiSender.Sender.WriteMaskKey | lib/Sender.js:139-142 | The four key bytes occupy `dataOffset-4 .. dataOffset-1` and nothing else changes. |
| HybiSender.Sender.SendUnmasked | lib/Sender.js:152-166 | Byte 1 has no mask bit and the output region is the header alone. Exactly two writes follow: the header, then the payload unchanged. A fresh join with zero completions is returned. |
| HybiSender.Join.Arrive | lib/Sender.js:155-156 | Each completion adds one to `done`. The callback fires exactly when a callback exists and this is the second completion. |
| HybiSender.CompleteBothWrites | lib/Sender.js:154-160 | Of the two completions of an unmasked frame, the first never fires the callback, and the second fires it exactly when one was given. |
| HybiSender.WriteUInt16BE | lib/Sender.js:171-174 | Bytes `offset..offset+1` become the value big-endian and every other byte is unchanged. |
| HybiSender.WriteUInt32BE | lib/Sender.js:176-181 | Bytes `offset..offset+3` become the value big-endian and every other byte is unchanged. |
| HybiSender.GetArrayBuffer | lib/Sender.js:183-190 | Returns a fresh buffer with the same bytes as the array it is given, element by element over its whole `byteLength`. The caller passes the whole underlying buffer of a typed array, not only the view's bytes. |
| HybiSender.MaskInto | lib/Sender.js:143 | The bytes from `offset` become the payload XORed with the repeating key. The bytes before and after keep their values. |
| HybiSender.Socket.Write | lib/Sender.js:145 | `_socket.write`: the trace of writes grows by exactly the bytes handed over, in call order. |
| HybiSender.Sender.UsesCache | lib/Sender.js:124 | The frame is built in the cache exactly when a cache exists and `totalLength` is at most its size. |
| HybiSender.OutputLength | lib/Sender.js:123 | `totalLength`: the header size plus the payload length when masked, the header size alone when not. |
| HybiSender.MaskInUse | lib/Sender.js:138 | The key a masked frame uses: the cached `_randomMask` when there is one, else the freshly drawn key. |
| HybiSender.FrameKey | lib/Sender.js:99-138 | A frame carries a key exactly when masking is asked for and the payload is present; a falsy payload takes the shortcut and is never masked. |
| HybiSender.CloseCodeRejected | lib/Sender.js:43-45 | `close` throws exactly when a code is given and it is not a number or `isValidErrorCode` rejects it; an omitted code is never rejected. |
| HybiSender.EffectiveCloseCode | lib/Sender.js:47 | The code sent: an omitted code, or the falsy code 0, becomes 1000; any other code is kept. |
| HybiSender.ClosePayload | lib/Sender.js:48-50 | The Close payload: the code's two big-endian bytes, then the reason bytes. |
| HybiSender.ClosePayloadReadsBack | lib/Sender.js:47-50 | The Close payload is two bytes longer than the reason. Its first two read back as the code modulo 2^16, and the rest is the reason. |
| HybiSender.CloseExamples | lib/Sender.js:43-49 | `close()` sends payload `0x03 0xE8`, `close(1001, "bye")` sends `0x03 0xE9` followed by "bye", and a rejected code is refused. |
| HybiSender.MaskedRegion | lib/Sender.js:136-143 | The buffer states of the masked path compose to `Header + Mask(payload, key)` on the frame's bytes, and leave the bytes after them as they were. |
| HybiSender.UnmaskedRegion | lib/Sender.js:152-153 | Setting byte 1 without the mask bit completes the unmasked header, and the bytes after it stay as they were. |
| Framing.ClassOf | lib/Sender.js:115-122 | The length class: 64-bit form from 65536 up, 16-bit form from 126 up, literal below. |
| Framing.ExtendedLength | lib/Sender.js:128-135 | The bytes after byte 1: none for the literal class, the 16-bit big-endian length, or four zero bytes then the 32-bit big-endian length. |
| Framing.HeaderSize | lib/Sender.js:113-122 | `dataOffset`: 2, 4 or 10 bytes by length class, plus 4 when masked. |
| Framing.Header | lib/Sender.js:127-142 | A header: byte 0, byte 1 with the mask bit exactly when a key is present, the extended length, then the key. |
| Framing.FrameWrites | lib/Sender.js:98-167 | The writes of one frame: the two bytes byte 0 and 0 for a falsy payload; one write of header and masked payload when masked; the header, then the payload unchanged, when unmasked. |
| Framing.FirstByte | lib/Sender.js:127 | The top bit of byte 0 is set exactly when FIN is requested. The reserved bits are clear, and the low nibble is the opcode. |
| Framing.SecondByte | lib/Sender.js:137 | The top bit of byte 1 is set exactly when the frame is masked, and the low seven bits are the length marker. |
| Framing.LengthMarker | lib/Sender.js:113-122 | The length marker always fits the seven low bits of byte 1. |
| Framing.HeaderLayout | lib/Sender.js:112-135 | Length up to 125: the marker is the length and the header is 2 bytes. Up to 65535: marker 126, a 16-bit big-endian length, and 4 bytes. Beyond that: marker 127, four zero bytes, a 32-bit length, and 10 bytes. Masking adds four key bytes at the end of the header. |
| Framing.HeaderExtended16 | lib/Sender.js:119-131 | For 126..65535 the marker is 126, and bytes 2-3 read back as the length. |
| Framing.HeaderExtended64 | lib/Sender.js:115-135 | From 65536 the marker is 127, bytes 2-5 are zero, and bytes 6-9 read back as the length. |
| Framing.ParseHeaderThenPayload | lib/Sender.js:112-143 | A header followed by the bytes after it reads back as one frame. The FIN bit, opcode, key and payload are the ones written, and a masked payload is unmasked. |
| Framing.FrameRoundTrip | lib/Sender.js:98-167 | The concatenated writes of any frame read back as that frame: its FIN bit, opcode and payload, and the key when there is one. A falsy payload reads back as an empty, unmasked frame. |
| Fragmentation.MessageOpcode | lib/Sender.js:85 | The opcode that starts a message: Binary (2) when `binary` is set, else Text (1). |
| Fragmentation.Step | lib/Sender.js:83-88 | One turn of the tracker: the message opcode when `firstFragment` is true, Continuation (0) otherwise; the next `firstFragment` is the FIN flag. |
| Fragmentation.Opcodes | lib/Sender.js:82-89 | The opcodes a run of sends emits, one per send, by iterating `Step`. |
| Fragmentation.FinalState | lib/Sender.js:82-89 | The value of `firstFragment` after a run of sends, by iterating `Step`. |
| Fragmentation.ContinuationIffMessageOpen | lib/Sender.js:85-88 | In any run of sends, a frame carries Continuation exactly when the previous send left a message open. Otherwise it carries Binary or Text, as its own `binary` option says. |
| Fragmentation.FinalStateIsLastFin | lib/Sender.js:86-88 | After any non-empty run of sends, `firstFragment` equals the FIN flag of the last send. |
| Fragmentation.ThreeFragmentMessage | lib/Sender.js:82-90 | Sends with FIN false, false, true emit the data opcode, Continuation, Continuation, and the next send opens a new message. |
| Bytes.Xor | lib/Sender.js:143 | JavaScript `^` on two bytes, bit by bit over the low eight bits. |
| Bytes.Or | lib/Sender.js:127 | JavaScript's bitwise or on two bytes, bit by bit over the low eight bits. |
| Bytes.UInt16BE | lib/Sender.js:171-174 | The two bytes `writeUInt16BE` stores: bits 8-15 of the value, then bits 0-7. |
| Bytes.UInt32BE | lib/Sender.js:176-181 | The four bytes `writeUInt32BE` stores: bits 24-31, 16-23, 8-15, then 0-7 of the value. |
| Bytes.Mask | lib/Sender.js:143 | The effect of `bufferUtil.mask`: byte i of the payload XORed with key byte i mod 4, same length as the payload. |
| Bytes.UInt16BERoundTrip | lib/Sender.js:171-174 | The two stored bytes read back as the value modulo 2^16. |
| Bytes.UInt32BERoundTrip | lib/Sender.js:176-181 | The four stored bytes read back as the value modulo 2^32. |
| Bytes.XorInvolution | lib/Sender.js:143 | XOR-ing a byte twice with the same key byte gives it back. |
| Bytes.MaskInvolution | lib/Sender.js:143 | Masking a payload twice with the same key gives it back, which is how a receiver recovers it. |
| Bytes.OrHighBit | lib/Sender.js:127 | The bitwise or of a byte below 0x80 with 0x80 is the sum `a + 0x80`. |
| Bytes.OrZero | lib/Sender.js:101 | The bitwise or of a byte with 0 is the byte itself, so the falsy-data shortcut's byte 0 is `FirstByte`. |
| MaskSource.MaskByteAsWritten | lib/Sender.js:194-197 | A key byte as written is always below 255. |
| MaskSource.RandomMaskAsWritten | lib/Sender.js:192-198 | No key the source draws contains the byte 255. |
| MaskSource.AllOnesKeyUnreachable | lib/Sender.js:192-198 | The valid key `FF FF FF FF` is never drawn. |
| MaskSource.MaskByte | lib/Sender.js:194-197 | The corrected key byte: the floor of r * 256, which lies in 0..255. |
| MaskSource.RandomMask | lib/Sender.js:192-198 | The key built from four draws with the corrected byte rule. |
| MaskSource.MaskByteInterval | lib/Sender.js:194-197 | With the corrected rule, a byte b is drawn exactly for values in `[b/256, (b+1)/256)`. |
| MaskSource.EveryKeyReachable | lib/Sender.js:192-198 | With the corrected rule, every four-byte key is drawn for some four values. |

## Left out

- The socket's asynchronous behaviour: writes are recorded when they are issued, and completions are explicit `Join.Arrive` calls.
- Aliasing after a write: the cache is reused by later frames while an earlier write may still hold it. The model records each write's bytes at the time of the call.
- Error routing: `try`/`catch` around `write` and `emit('error')` are not modelled.
- Mask generation: the sender takes the key as the argument `freshKey`, which ranges over every key. `getRandomMask` is modelled separately, with exact real numbers instead of doubles.
- `ErrorCodes.isValidErrorCode` is not part of this model. It is the parameter `isValidErrorCode`.
- `bufferUtil.mask` is not part of this model. Only its effect, XOR with the repeating key, is modelled, as `Bytes.Mask`.
- Converting payloads to bytes is not modelled: string to UTF-8, `Buffer.byteLength`, and the choice at line 110 between `getArrayBuffer` and `new Buffer(data)`. Payloads and reasons are bytes. `getArrayBuffer` is modelled as a copy between byte arrays. Its only caller (lib/Sender.js:110) passes `data.buffer`, the whole ArrayBuffer behind a typed array, so when the view covers only part of that buffer the copy holds the whole buffer, not the view's bytes; how JavaScript indexes that object is not modelled.
- The `Options` merge in the constructor: `sendBufferCacheSize` is an optional integer. The per-call options are reduced to the booleans `binary`, `fin` and `mask`.
- HybiSender.Sender.Close: codes are integers or `NonNumeric`. NaN and fractional codes are not modelled.
- HybiSender.Sender.Close: requires `2 + |reason| < 2^32`.
- HybiSender.Sender.Send: requires payloads below 2^32 bytes, the range in which `writeUInt32BE` of the length is exact.
- HybiSender.Sender.FrameAndSend: requires payloads below 2^32 bytes. The same requirement applies to `Ping`, `Pong`, `StartFrame`, `SendMasked` and `SendUnmasked`.
- HybiSender.WriteUInt16BE: requires the two bytes to lie inside the buffer, as every call in lib/Sender.js does. Node ignores stores out of range, and that case is not modelled.
- HybiSender.WriteUInt32BE: requires the four bytes to lie inside the buffer, as every call in lib/Sender.js does.
- Listeners and inheritance from `EventEmitter` are not modelled.

## Findings

| source | as written | input that shows it | evidently intended | confidence | as-written member | corrected member |
|---|---|---|---|---|---|---|
| lib/Sender.js:194-197 | Each key byte is `~~(Math.random() * 255)`. Since the draw is below 1, the byte is at most 254. | Any draw, for example 0.999, gives 254. The key `FF FF FF FF`, or any key containing 0xFF, is never produced. | A byte uniform over 0..255, `~~(Math.random() * 256)`. Section 5.3 of RFC 6455 asks for an unpredictable key over all 32 bits. | high; not executed | MaskSource.RandomMaskAsWritten | MaskSource.EveryKeyReachable |
