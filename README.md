# Call-audio bridge: codec, resampler and per-call session in Dafny

This project models the core of `index.js`, a bridge between a phone
call's media stream and a realtime speech service. That core has two
layers, each modelled and proved here.

- **Sample layer** (`index.js:28-37`):
  - the ITU-T G.711 μ-law byte codec (`mulawDecodeByte`, `mulawEncodeSample`) and its sequence maps;
  - the naive 8 kHz ↔ 16 kHz resampler (`up8to16`, `down16to8`);
  - little-endian int16 framing (`i16ToB64`, `b64ToI16`) and chunk concatenation (`catI16`).
- **Session layer** (`index.js:43-118`): the state one caller connection keeps, as a class `Bridge.Session`:
  - `streamSid`, the inbound chunk list `buf16`, its counter `frames`, and the outbound buffer `out16`;
  - the ready state of each socket;
  - the list of messages written to each socket.

  Each event handler is one method with a loop where the source loops. Its contract gives the complete new state.

Files:
- `pcm.dfy` (module `Pcm`): the byte and int16 types, `Flatten`/`CatI16`, and `ToLE`/`FromLE` with the `I16ToB64`/`B64ToI16` loops.
- `mulaw.dfy` (module `MuLaw`): the codec.
  - `DecodeByte` models `mulawDecodeByte`, a single expression.
  - `Compand` specifies `mulawEncodeSample`. It sits beside the method `MulawEncodeSample`, which keeps the source's downward mask search.
  - `MulawDecode`/`MulawEncode` are the fill loops.
  - The round-trip and error-bound lemmas are here too.
- `resample.dfy` (module `Resample`):
  - `Upsample`/`Downsample` are the specifications;
  - `Up8To16`/`Down16To8` are the loops;
  - lemmas give slot contents and `down(up(s))`.
- `session.dfy` (module `Bridge`): events, messages, the `Session` class and its handlers, and the cadence and pacing lemmas.

Conventions:
- JavaScript bit operations are written arithmetically on the non-negative values they apply to:
  - `~u & 255` is `255 - u`;
  - shifts are multiplication or division by `Pow2`;
  - a one-bit test is `(x / m) % 2`;
  - an OR of disjoint fields is a sum.
- `(a + b) >> 1` is floor division by 2, which Dafny's `/` by a positive divisor matches.
- Base64 text is represented by the bytes it encodes.
- A socket's `readyState` is `LegState`.
- Messages written to a socket are appended to `serviceSent` or `callerSent`.
- The ghost field `captured` records every inbound chunk accepted. `Valid()` states that the audio carried by the appends sent so far, followed by the buffered chunks, is exactly `captured`, so no inbound audio is lost or duplicated.

Behaviours of the code that the model keeps as written:
- **Upsampling:** `up8to16` does not duplicate the final sample. It never writes slot `2n-2`, which stays 0 (`index.js:33`).
  The same holds on the outbound path: after a pacing pass that leaves a non-empty remainder, the remainder's last 8 kHz sample comes back as 0 when the next delta is decimated (`index.js:108-111`; stated by `Bridge.NextPlayoutView`).
- **Buffering while the service leg is not open:** audio is kept and counted, not dropped. It goes out in full with the first commit after the leg opens (`index.js:73-74`).
- **Service-side close:** it only logs. The caller leg is not closed (`index.js:116`).
- **Audio deltas:** they are not gated on the service leg's state (`index.js:92-99`). An audio delta that arrives after `stop`, while the service socket is still closing, is paced out to the caller as usual.

## Model

| member | source | states |
|---|---|---|
| Pcm.FlattenLength | index.js:37 | the concatenation is as long as the sum of the chunk lengths (the first loop of catI16) |
| Pcm.ChunkAt | index.js:37 | chunk i appears in the concatenation, unchanged, right after the chunks before it |
| Pcm.CatI16 | index.js:37 | the two-pass copy loop returns the chunks laid end to end, in order |
| Pcm.I16ToB64 | index.js:35 | the writeInt16LE loop yields sample i as low byte 2i and high byte 2i+1 |
| Pcm.B64ToI16 | index.js:36 | readInt16LE gives one signed sample per complete byte pair; a trailing odd byte is ignored |
| Pcm.SamplesRoundTrip | index.js:35-36 | int16 → little-endian bytes → int16 is the identity |
| Pcm.BytesRoundTripAll | index.js:35-36 | an even number of bytes → int16 → bytes is the identity |
| Resample.FloorMean | index.js:33 | `(a + b) >> 1` lies between the two samples (so it fits in int16) |
| Resample.Upsample | index.js:33 | up8to16 of n samples has 2n samples |
| Resample.UpsampleAt | index.js:33 | slot 2i is s[i] and slot 2i+1 the floor mean of s[i] and s[i+1] for i < n-1; slot 2n-2 is 0; slot 2n-1 is s[n-1] |
| Resample.Up8To16 | index.js:33 | the fill loop plus the final write compute exactly that doubling, including for empty input |
| Resample.Downsample | index.js:34 | down16to8 of m samples has floor(m/2) samples |
| Resample.DownsampleAt | index.js:34 | output j is input 2j |
| Resample.Down16To8 | index.js:34 | the two-index loop computes that decimation |
| Resample.DownsampleAppend | index.js:34 | decimating a concatenation whose first part has even length decimates each part |
| Resample.DownUp | index.js:33-34 | down16to8(up8to16(s)) is s with its last sample replaced by 0 |
| MuLaw.DecodeByte | index.js:29 | the decoded value lies in [-31612, 31612], so the clamp never changes it; a byte with bit 7 set decodes to at least -4, a byte with it clear to at most 4 |
| MuLaw.Segment | index.js:31 | the exponent is one of 0..7 (the segment table the mask search walks) |
| MuLaw.SegmentWindow | index.js:31 | the exponent is the leading-one position minus 7: x < 2^(e+8), and 2^(e+7) <= x above segment 0 |
| MuLaw.Biased | index.js:31 | the magnitude `abs(s) + 132`, capped, lies between 132 and 32767 |
| MuLaw.Pack | index.js:31 | the inverted byte reads back exactly the sign, exponent and mantissa fields the decoder extracts |
| MuLaw.Compand | index.js:31 | the encoded byte has its top bit set exactly when the sample is non-negative |
| MuLaw.EncodedLayout | index.js:31 | after inversion, bits 4 and up hold the sign (8 for a negative sample) plus the segment of the biased magnitude |
| MuLaw.SearchStop | index.js:31 | where the downward mask search stops, its exponent is the segment and the packed byte is Compand |
| MuLaw.MulawEncodeSample | index.js:31 | the sign, bias, cap, mask loop and packing compute Compand(s) for every integer s |
| MuLaw.EncodeAfterDecode | index.js:29-31 | encoding a decoded byte gives the byte back for every byte except 0x7F and 0xFF |
| MuLaw.ZeroCodes | index.js:29-31 | 0x7F decodes to 4, which encodes to 0xFE; 0xFF decodes to -4, which encodes to 0x7E |
| MuLaw.DecodeAfterEncode | index.js:29-31 | decode(encode(s)) never exceeds s for s >= 0 and never falls below it for s < 0 (the biased magnitude is truncated to its segment step); the error is below that step (at most 1024) while abs(s)+132 <= 32767, and at most 1156 once capped |
| MuLaw.NearZero | index.js:29-31 | samples -3..3 encode to 0xFF (s >= 0) or 0x7F (s < 0), so they decode to -4 and +4: the result crosses zero |
| MuLaw.MulawDecode | index.js:30 | one decoded sample per byte, in order |
| MuLaw.MulawEncode | index.js:32 | one encoded byte per sample, in order |
| Bridge.CycleAudio | index.js:76-78 | an append/commit/response triple adds exactly the append's samples to what the service has received |
| Bridge.CycleShape | index.js:74-79 | after the configuration, the service log stays a run of whole append/commit/response cycles |
| Bridge.BufferStep | index.js:73 | buffering a chunk adds exactly its samples to what is pending |
| Bridge.FlushStep | index.js:75-79 | a commit cycle carrying the whole buffer leaves nothing pending and loses nothing |
| Bridge.InboundChunk | index.js:71-72 | a media payload of k bytes becomes up8to16 of its k decoded samples |
| Bridge.PaceFrames | index.js:100-104 | the frame loop sends, in order, frame f = samples 160f..160f+159 of the 8 kHz view, companded and tagged |
| Bridge.PacedShape | index.js:98-103 | exactly floor(k/160) frames go out, each 160 bytes and tagged with the stream id |
| Bridge.PacedKeepsFrames | index.js:99-103 | with the stream id set, every frame ever sent to the caller is 160 bytes and tagged |
| Bridge.PacingPartition | index.js:98-106 | the frames and the k mod 160 remainder split the 8 kHz view exactly, in order |
| Bridge.NextPlayoutView | index.js:94-111 | after a pass that sent frames, the next 8 kHz view is the remainder with its last sample zeroed, then the new chunk decimated |
| Bridge.Session.constructor | index.js:43-88 | a new connection (socket set-up at 43-47, `streamSid`/`buf16`/`frames` at 65, `out16` at 88): no stream id, empty buffers, caller socket open, service socket connecting, nothing sent |
| Bridge.Session.OnServiceOpen | index.js:49-62 | the service socket opens and exactly one configuration message is sent |
| Bridge.Session.Buffer | index.js:73 | the chunk is appended to buf16 and the counter goes up by one |
| Bridge.Session.Flush | index.js:74-79 | one append carrying catI16 of the buffer, then commit, then response are sent; buffer and counter reset |
| Bridge.Session.OnMedia | index.js:70-80 | decode, upsample and buffer; flush on the 25th or later unit only while the service socket is open; otherwise keep everything |
| Bridge.Session.OnCallerMessage | index.js:66-84 | start sets the stream id; media as above; stop closes the service socket; anything else changes nothing; nothing goes to the caller |
| Bridge.Session.OnCallerClose | index.js:85 | a caller-side close closes the service socket |
| Bridge.Session.SendFrames | index.js:100-111 | sends every complete frame and replaces out16 with up8to16 of the remainder, 2·(k mod 160) samples long |
| Bridge.Session.OnServiceMessage | index.js:89-115 | a delta is concatenated onto out16 and decimated; frames go out only if one fits, the stream id is set and the caller socket is open; otherwise out16 keeps the full concatenation |
| Bridge.Session.OnServiceClose | index.js:116 | a service-side close changes only that socket's state |
| Bridge.FeedUnits | index.js:70-80 | below the threshold, media units with the service open send nothing; each appends its upsampled chunk (2k samples) to buf16, in order; the stream id, out16 and the caller socket are unchanged |
| Bridge.CommitCadence | index.js:70-80 | after the configuration, 25 media units of k bytes produce exactly append, commit, response; the append carries the 25 upsampled units in order, as little-endian int16 (100k bytes); nothing is left buffered and nothing goes to the caller |

## Left out

- The `/voice` TwiML webhook, the health route, and the HTTP and WebSocket server setup and listen (`index.js:1-25`, `120-121`). These are library plumbing.
- The speech-service socket's URL and headers (`index.js:40-41`, `47`) and the environment-driven content of `session.update` (`index.js:51-60`). The configuration is the opaque message `SessionUpdate`.
- `JSON.parse`/`JSON.stringify` and the catch-all `try`/`catch` (`index.js:67-83`, `90-114`). Messages are parsed events:
  - Malformed JSON, an unknown event type, a media event without a payload, and an empty or missing delta are the `CallerOther`/`ServiceOther` events, which change nothing.
  - A start event without its `start` object throws inside the `try` and is also `CallerOther`.
  - A start event whose `streamSid` is missing sets the id to `""`: null, undefined and `""` are all falsy, and that is the only way the id is tested.
- Base64 encoding and decoding through Node's `Buffer` (`index.js:30`, `35-36`, `103`). The model works on the decoded bytes.
- Logging (`index.js:44`, `50`, `116`) and the service socket's error handler, which only logs (`index.js:117`).
- The socket library's own `readyState` transitions. A socket changes state only through the events the session handles: open, close, and the session's own `close()` calls.
- Concurrency: there is none to model, because each handler runs to completion.
- `Buffer.allocUnsafe` in `mulawEncode` (`index.js:32`) leaves unspecified bytes that the loop then overwrites. The model allocates zeros.
- The upsampling at `index.js:108-111` is written inline but computes the same thing as `up8to16`: the explicit `tail8.length` guard plays the part of the ignored write to index -1. Both are modelled by `Resample.Up8To16`.
- Machine integers: all values stay inside the bounds proved for them (bytes, int16, magnitudes below 2^15). JavaScript's 32-bit bit operations therefore agree with the unbounded arithmetic used here.
