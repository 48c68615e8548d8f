# tws-filesend transfer engine in Dafny

This is a model of the protocol engine of tws-filesend. Two browser peers use it to move files over a
peer data connection. The main parts are:

- **Defines.** The shared definitions: the name rule both peers enforce, the entry headers and the
  wire markers. Also the bootstrap token, which is base64 of a JSON object with every `=` removed.
- **The handshake helper (`FileTransferHelper`).** It checks markers and exchanges the hello and
  done messages. It also runs the challenge/response authentication. The PROVIDE side signs
  a 64-byte nonce with HMAC-SHA512 keyed by the shared secret. The REQUEST side compares the
  signature with an OR-of-XOR loop.
- **The sender adapter.** Its `handle` reads configs and authenticates. It then sends the header list, and
  on request it sends every file in 32 KiB chunks, stop-and-wait: one `MAGIC_DID_RECEIVE`
  acknowledgement per chunk.
- **The receiver adapter.** It is the mirror image. It authenticates, then receives the header list and the untyped
  headers. When asked to, it accepts the files and reassembles each one from the chunks.
- **`randomArrayBufferSync`.** This function builds the authentication nonce.
- **`CommonStateManager`.** It holds the auth secret and the local name, and it refuses invalid names.

## How the channel and the adapters are modelled

The channel (`Wire.Conn`) is a FIFO of inbound messages plus a trace. The trace records every
message sent and every message received, in order. Receiving from an empty or closed channel fails
with `ChannelClosed`.

Each handshake step is a function from the pending input to a `Run`: the result, the input left
and the events produced. Each adapter step is a function on a value-level `Session`. A session is a
snapshot of everything `handle` touches:

- the channel;
- the configs the config reader will still deliver;
- the current state, and every state `updateState` published;
- the closure's flags and counters.

The classes (`FileTransferHelper`, `SenderSession`, `ReceiverSession`, `CommonStateManager`) hold
that state in fields. Their methods, with the source's loops, are proved to do exactly what the
functions describe. The properties are then proved as lemmas about those functions.

HMAC-SHA512 and the random source are parameters (`Handshake.Crypto`). The JSON serializer and
parser of the token are parameters too (`Defines.JsonCodec`). `btoa` reads the JSON text one
character per byte (`Chars`) and refuses a text with a character above U+00FF with
`EncodeFailed` (`Defines.Btoa`). The bytes are then encoded by the padded encoder of section 4
of RFC 4648 (`Base64`). `atob` is the forgiving-base64 decoder of the WHATWG Infra standard, and
its bytes are read back as one character each.

## Model

| member | source | states |
|---|---|---|
| Defines.NameRule | src/defines.ts:21-33 | a name is valid iff it has 3 to 64 characters, all from `[a-zA-Z0-9_-]`, and neither its first nor its last character is `_` or `-` (both directions) |
| Defines.MatchesNameCharsIff | src/defines.ts:26 | the anchored character-class test holds iff the name is non-empty and every character is in the class |
| Defines.LeadingDashesIff | src/defines.ts:29 | the `^[_-]+` test holds iff the first character is `_` or `-` |
| Defines.TrailingDashesIff | src/defines.ts:30 | the `[_-]+$` test holds iff the last character is `_` or `-` |
| Defines.NameWithBadCharRejected | src/defines.ts:25-26 | a name with any character outside the class is invalid, whatever its length |
| Defines.HeadersOf | src/defines.ts:86-91 | one header per entry, in order, with the entry's public name and its file's byte size |
| Defines.EncodeHeaders | src/adapter/sender.ts:103-106 | the header list goes on the wire as a list of `{publicName, size}` objects, one per header, in order |
| Defines.ParseHeaderList | src/adapter/receiver.ts:146-148 | a parsed header list has one header per received item |
| Defines.HeadersRoundTrip | src/adapter/receiver.ts:113 | the receiver's reading of the header list the sender sends gives back exactly the sender's headers |
| Defines.Btoa | src/defines.ts:134-139 | `btoa` succeeds iff every character of the text is at most U+00FF, and otherwise fails with EncodeFailed |
| Chars.ByteOf | src/defines.ts:134-139 | the byte `btoa` takes for a character code up to 0xFF has exactly that value |
| Chars.Latin1Bytes | src/defines.ts:134-139 | `btoa` reads a Latin-1 text as one byte per character, each byte's value the character's code |
| Chars.Latin1RoundTrip | src/defines.ts:134-154 | reading a Latin-1 text as bytes and the bytes back as characters gives the text back |
| Defines.EncodeToken | src/defines.ts:130-140 | encoding succeeds iff the serialized JSON object is Latin-1 text, and the token then contains no `=`; otherwise it fails with EncodeFailed |
| Defines.DecodeToken | src/defines.ts:169-171 | every failure of decoding is reported as the one decode error |
| Defines.DecodeTokenIff | src/defines.ts:150-168 | decoding succeeds with data d iff the token is base64 of a JSON object whose `authId` and `peerId` are the strings of d |
| Defines.DecodesTo | src/defines.ts:150-168 | a token whose base64 bytes parse to the object `{authId, peerId}` of d decodes to d |
| Defines.TokenRoundTrip | src/defines.ts:122-128 | for every JSON codec that reads back the token object it serialized, encoding succeeds iff the serialized object is Latin-1 text, and decoding the token then gives the data back |
| Base64.UnpaddedRoundTrip | src/defines.ts:134-154 | `atob` undoes `btoa` on every byte string, even after every `=` is removed |
| InternalUtil.GetRandomValues | src/internalUtil.ts:12 | every byte of the array is the generator's byte for its position |
| InternalUtil.RandomArrayBufferSync | src/internalUtil.ts:1-16 | as written: the pieces tile the buffer in order, none longer than 1024 bytes, yet the returned buffer is all zeros |
| InternalUtil.RandomBuffer | src/internalUtil.ts:1-16 | corrected: the same tiling, and every byte of the returned buffer comes from the generator |
| Handshake.Nonce | src/adapter/common.ts:93 | corrected: the REQUEST side's nonce is AUTH_NONCE_LENGTH (64) bytes from the generator |
| Handshake.WrittenNonce | src/adapter/common.ts:93 | as written: the REQUEST side's nonce is AUTH_NONCE_LENGTH (64) bytes, the same in every session |
| Handshake.ReplayAccepted | src/adapter/common.ts:93-138 | with the nonce as written, a proof recorded in one session is accepted by any later REQUEST session with the same secret |
| Handshake.ReceiveMagicSpec | src/adapter/common.ts:10-15 | success iff the next message is the expected marker; it consumes exactly one message; a wrong marker is BadMagic and an empty channel is ChannelClosed |
| Handshake.ExchangeDoneSpec | src/adapter/common.ts:17-20 | the done marker goes out first; success iff the peer's next message is the done marker |
| Handshake.ExchangeHelloSpec | src/adapter/common.ts:22-41 | our hello goes out first; success returns the reply iff it is an object whose `version` is the number 1; any other numeric version is VersionMismatch, a reply without a numeric `version` (a non-object included) is InvalidHello, and an empty channel is ChannelClosed |
| Handshake.AuthBarrier | src/adapter/common.ts:60-61 | both roles send the init marker first and need it back before anything role-specific; otherwise they fail after at most the two barrier events |
| Handshake.ProvideSpec | src/adapter/common.ts:63-91 | PROVIDE accepts name n iff it gets the barrier, a 64-byte binary nonce, the success marker and an object naming n validly; on success its exact events include sending `{secret: HMAC(secret, nonce), name}`; a bad nonce is InvalidNonce |
| Handshake.RequestSpec | src/adapter/common.ts:92-139 | REQUEST accepts name n iff it gets the barrier and a reply whose `name` is the valid string n and whose `secret` is exactly HMAC(secret, nonce) |
| Handshake.RequestAccepts | src/adapter/common.ts:113-138 | given a validly named reply carrying exactly HMAC(secret, nonce), REQUEST accepts that name, consumes the reply and sends the success marker and its own name |
| Handshake.RequestSuccessLast | src/adapter/common.ts:127-134 | REQUEST sends the success marker iff it accepts, and then its last two messages are the marker and its own name |
| Handshake.WrongLengthSecretRejected | src/adapter/common.ts:105-111 | a secret of any length other than 64 bytes is InvalidAuthParams |
| Handshake.InvalidNameRejected | src/adapter/common.ts:81-115 | neither role ever accepts an invalid remote name |
| Handshake.XorAccZeroIff | src/adapter/common.ts:122-125 | the OR-of-XOR accumulator is 0 iff the two buffers agree at every position up to the bound, with an index past the end reading as 0 |
| Handshake.MacsEqualIff | src/adapter/common.ts:117-129 | for buffers of equal length the comparison passes iff they are equal |
| Handshake.ZeroExtendedEqual | src/adapter/common.ts:123-124 | a shorter buffer is compared as if padded with zero bytes: every buffer matches itself followed by any number of zero bytes |
| Handshake.WrongSecretRejected | src/adapter/common.ts:127-129 | a 64-byte secret other than the expected signature is AuthFailed |
| Handshake.ProvideSide | src/adapter/common.ts:63-91 | fed REQUEST's messages, PROVIDE accepts REQUEST's name and sends exactly the init marker and its proof |
| Handshake.RequestSide | src/adapter/common.ts:92-139 | fed PROVIDE's proof under the same secret, REQUEST accepts PROVIDE's name and sends exactly the init marker, the nonce, the success marker and its name |
| Handshake.HandshakeAgreement | src/adapter/common.ts:43-140 | two peers with the same secret and valid names, each fed what the other sends, both succeed and learn each other's name |
| Handshake.CompareMacs | src/adapter/common.ts:122-129 | the comparison loop computes the accumulator; zero iff the buffers agree up to the longer length, and iff they are equal when their lengths match |
| Handshake.FileTransferHelper.ReceiveMagic | src/adapter/common.ts:10-15 | performs exactly the marker check on the channel |
| Handshake.FileTransferHelper.ExchangeDone | src/adapter/common.ts:17-20 | performs exactly the done exchange |
| Handshake.FileTransferHelper.ExchangeHello | src/adapter/common.ts:22-41 | performs exactly the hello exchange |
| Handshake.FileTransferHelper.Provide | src/adapter/common.ts:63-91 | performs exactly the PROVIDE branch |
| Handshake.FileTransferHelper.Request | src/adapter/common.ts:92-139 | performs exactly the REQUEST branch, with the nonce drawn by the corrected random buffer |
| Handshake.FileTransferHelper.DoAuthenticate | src/adapter/common.ts:43-140 | performs exactly `doAuthenticate`: the barrier, then the role's branch |
| Sender.Code | src/adapter/sender.ts:7-12 | the status enum's values are 1 to 4 |
| Sender.ModifyConfigOnRemove | src/adapter/sender.ts:52-55 | a removed connection's config has stage CLOSE |
| Sender.MakeInitialConfig | src/adapter/sender.ts:57-59 | the initial config has stage WAIT |
| Sender.MakeInitialState | src/adapter/sender.ts:61-68 | the initial state is CONNECTED, with no auth result, no entry done and entry index -1 |
| Sender.DoAuthSpec | src/adapter/sender.ts:98-116 | `doAuth` sets the authenticated flag before anything can fail; it never drops a published state and touches neither the configs nor the byte counter |
| Sender.DoAuthSpecLemma | src/adapter/sender.ts:98-116 | success iff hello and authentication succeed; then it sends the header list and the untyped header (or "") and publishes AUTHENTICATED_HEADERS_SENT with the peer's name; on failure nothing is published and no header is sent |
| Sender.ChunkAt | src/adapter/sender.ts:143-152 | a chunk is the file's bytes from `ptr`, at most 32768 of them, and empty only at the end of the file |
| Sender.ChunksCover | src/adapter/sender.ts:142-157 | the chunks of a file are each 1 to 32768 bytes and together, in order, are exactly the file |
| Sender.SendChunksSpec | src/adapter/sender.ts:147-160 | the chunk loop publishes nothing and leaves the configs and flags alone |
| Sender.SendChunksSucceedsIff | src/adapter/sender.ts:147-160 | the chunk loop succeeds iff one acknowledgement is waiting per chunk, and otherwise fails with ChannelClosed or BadMagic |
| Sender.SendChunksEffect | src/adapter/sender.ts:147-160 | a successful chunk loop alternates chunk and acknowledgement, consumes one acknowledgement per chunk and counts every byte of the file |
| Sender.SendEntriesSpec | src/adapter/sender.ts:136-180 | the entry loop never drops a published state |
| Sender.SendEntriesSpecLemma | src/adapter/sender.ts:136-180 | each remaining entry's untyped header and chunks are sent in order, one state is published per entry with the done count advanced, and all bytes are counted |
| Sender.AllEntriesDone | src/adapter/sender.ts:131-180 | after a successful entry loop the done count is the number of entries and `sentSize` is the total size |
| Sender.DoSendSpec | src/adapter/sender.ts:118-193 | `doSend` never drops a published state and leaves the configs alone |
| Sender.DoSendNeedsAuth | src/adapter/sender.ts:119-120 | before authentication `doSend` fails with NotAuthenticated and changes nothing |
| Sender.DoSendNeedsAccept | src/adapter/sender.ts:129 | without the accept marker first, `doSend` fails having read one message and sent nothing |
| Sender.DoSendSuccess | src/adapter/sender.ts:118-193 | a successful `doSend` received the accept marker, sent every entry in order, ran the done exchange and ends DONE with every entry and byte counted |
| Sender.DispatchSpec | src/adapter/sender.ts:195-220 | the dispatch loop never drops a published state |
| Sender.DispatchKeeps | src/adapter/sender.ts:195-220 | from any state the loop can be in, the statuses published never decrease and the current state is the last published |
| Sender.HandleOutcome | src/adapter/sender.ts:195-233 | over a whole `handle`, the first published state is the initial one, the statuses never decrease, an error ends in DONE, and the reader and the connection end closed |
| Sender.Skipped | src/adapter/sender.ts:200-206 | the leading configs that have no effect are exactly the WAITs and, once authenticated, the repeated AUTHENTICATE_SEND_HEADERS |
| Sender.SkippedConfigsIgnored | src/adapter/sender.ts:200-206 | dropping those leading configs changes nothing |
| Sender.AuthenticatedDispatch | src/adapter/sender.ts:196-220 | once authenticated, the first CLOSE exits and the first SEND_ENTRIES runs `doSend` once and exits, leaving later configs unread |
| Sender.UnauthenticatedDispatch | src/adapter/sender.ts:196-220 | before authentication the first non-WAIT config decides: CLOSE exits, AUTHENTICATE_SEND_HEADERS authenticates and continues, SEND_ENTRIES authenticates, sends and exits |
| Sender.SenderSession.constructor | src/adapter/sender.ts:78-96 | a session starts with the initial state as its only published state and no flag set |
| Sender.SenderSession.UpdateState | src/adapter/sender.ts:109-115 | the new state becomes current and is appended to the published states |
| Sender.SenderSession.DoAuth | src/adapter/sender.ts:98-116 | does exactly what the `doAuth` specification says |
| Sender.SenderSession.SendChunks | src/adapter/sender.ts:142-167 | the chunk loop does exactly what its specification says |
| Sender.SenderSession.SendChunk | src/adapter/sender.ts:153-159 | one round of the chunk loop counts the chunk's bytes, sends the chunk and awaits one acknowledgement, exactly as the loop specification's step |
| Sender.SenderSession.SendEntries | src/adapter/sender.ts:136-180 | the entry loop does exactly what its specification says |
| Sender.SenderSession.DoSend | src/adapter/sender.ts:118-193 | does exactly what the `doSend` specification says |
| Sender.SenderSession.Dispatch | src/adapter/sender.ts:195-220 | the dispatch loop does exactly what its specification says |
| Sender.SenderSession.Handle | src/adapter/sender.ts:195-233 | `handle` runs the loop, publishes DONE on an error (passed on), then closes the reader and the connection |
| Receiver.Code | src/adapter/receiver.ts:7-13 | the status enum's values are 1 to 5 |
| Receiver.ModifyConfigOnRemove | src/adapter/receiver.ts:51-54 | a removed connection's config has stage CLOSE |
| Receiver.MakeInitialConfig | src/adapter/receiver.ts:56-58 | the initial config has stage WAIT |
| Receiver.MakeInitialState | src/adapter/receiver.ts:60-68 | the initial state is CONNECTED, with no auth result, no headers and no entries |
| Receiver.DoAuthSpec | src/adapter/receiver.ts:99-126 | `doAuthAndReceiveHeaders` sets its flag before anything can fail and never drops a published state |
| Receiver.DoAuthSpecLemma | src/adapter/receiver.ts:99-126 | success iff hello and authentication succeed and two more messages arrive; it publishes AUTHENTICATED with the peer's name, then RECEIVED_HEADERS with those two messages as the header list and the untyped headers; if the headers are missing, only AUTHENTICATED is published |
| Receiver.ReceiveChunksSpec | src/adapter/receiver.ts:152-174 | the chunk loop publishes nothing and only extends the trace |
| Receiver.ReceiveChunksPrefix | src/adapter/receiver.ts:152-174 | chunks arriving while bytes are still expected are each accepted, appended and acknowledged |
| Receiver.ReceiveExact | src/adapter/receiver.ts:146-174 | fed non-empty chunks totalling the announced size, the loop returns their concatenation and acknowledges each one |
| Receiver.ZeroSizeConsumesNothing | src/adapter/receiver.ts:153 | a size-0 entry reads nothing from the channel |
| Receiver.ReceiveOverflow | src/adapter/receiver.ts:160-162 | a chunk that goes past the announced size is ChunkSizeMismatch, and that chunk is not acknowledged |
| Receiver.NegativeSizeRejected | src/adapter/receiver.ts:152-162 | a negative announced size reads one chunk and rejects it as ChunkSizeMismatch, unacknowledged |
| Receiver.ReceiveBadChunk | src/adapter/receiver.ts:155-158 | a non-binary message while bytes are expected is BadChunkType |
| Receiver.ReceiveChunksLength | src/adapter/receiver.ts:148-174 | a successful chunk loop returns exactly the announced number of bytes and counts them all |
| Receiver.ReceiveEntriesSpec | src/adapter/receiver.ts:146-187 | the entry loop never drops a published state |
| Receiver.ReceiveEntriesSpecLemma | src/adapter/receiver.ts:146-187 | a successful entry loop appends one entry per header, in header order, with the header's name and a content of the header's size, and changes nothing else in the state |
| Receiver.DoReceiveSpec | src/adapter/receiver.ts:128-202 | `doReceive` never drops a published state and leaves the configs alone |
| Receiver.DoReceiveNeedsAuth | src/adapter/receiver.ts:129-130 | before authentication `doReceive` fails with NotAuthenticated and changes nothing |
| Receiver.DoReceiveAcceptFirst | src/adapter/receiver.ts:132-139 | the accept marker is the first thing `doReceive` puts on the channel |
| Receiver.ReceiveEntriesFramed | src/adapter/receiver.ts:146-187 | fed, per remaining header, an untyped header and non-empty chunks adding up to the header's size, the entry loop succeeds, consumes exactly that input and records per header its name, the concatenated chunks as content and the untyped header |
| Receiver.DoReceiveFramed | src/adapter/receiver.ts:128-202 | fed such input for the parsed header list, `doReceive` succeeds, ends DONE and records exactly those entries after the ones it had |
| Receiver.DoReceiveSuccess | src/adapter/receiver.ts:128-202 | a successful `doReceive` parsed the header list, received one entry per header with the announced name and size, counted every byte and ends DONE |
| Receiver.DispatchSpec | src/adapter/receiver.ts:204-230 | the dispatch loop never drops a published state |
| Receiver.DispatchKeeps | src/adapter/receiver.ts:204-230 | from any state the loop can be in, the statuses published never decrease and the current state is the last published |
| Receiver.HandleOutcome | src/adapter/receiver.ts:204-245 | over a whole `handle`, the first published state is the initial one, the statuses never decrease, an error ends in DONE, and the reader and the connection end closed |
| Receiver.Skipped | src/adapter/receiver.ts:209-215 | the leading configs that have no effect are exactly the WAITs and, once authenticated, the repeated AUTHENTICATE_RECEIVE_HEADER |
| Receiver.SkippedConfigsIgnored | src/adapter/receiver.ts:209-215 | dropping those leading configs changes nothing |
| Receiver.AuthenticatedDispatch | src/adapter/receiver.ts:205-230 | once authenticated, the first CLOSE exits and the first RECEIVE_FILES runs `doReceive` once and exits |
| Receiver.UnauthenticatedDispatch | src/adapter/receiver.ts:205-230 | before authentication the first non-WAIT config decides: CLOSE exits, AUTHENTICATE_RECEIVE_HEADER authenticates and continues, RECEIVE_FILES authenticates, receives and exits |
| Receiver.ReceiverSession.constructor | src/adapter/receiver.ts:78-97 | a session starts with the initial state as its only published state, no flag set and an empty header list |
| Receiver.ReceiverSession.UpdateState | src/adapter/receiver.ts:104-109 | the new state becomes current and is appended to the published states |
| Receiver.ReceiverSession.DoAuthAndReceiveHeaders | src/adapter/receiver.ts:99-126 | does exactly what the `doAuthAndReceiveHeaders` specification says |
| Receiver.ReceiverSession.ReceiveChunks | src/adapter/receiver.ts:147-174 | the chunk loop does exactly what its specification says |
| Receiver.ReceiverSession.ReceiveEntries | src/adapter/receiver.ts:146-187 | the entry loop does exactly what its specification says |
| Receiver.ReceiverSession.DoReceive | src/adapter/receiver.ts:128-202 | does exactly what the `doReceive` specification says |
| Receiver.ReceiverSession.Dispatch | src/adapter/receiver.ts:204-230 | the dispatch loop does exactly what its specification says |
| Receiver.ReceiverSession.Handle | src/adapter/receiver.ts:204-245 | `handle` runs the loop, publishes DONE on an error (passed on), then closes the reader and the connection |
| Transfer.SentChunks | src/adapter/sender.ts:157-159 | the sender's chunk loop puts exactly one binary message per chunk on the channel |
| Transfer.SentAcks | src/adapter/receiver.ts:165 | the receiver's chunk loop sends exactly one acknowledgement per chunk |
| Transfer.ChunkLoopsAgree | src/adapter/receiver.ts:147-174 | fed the sender's chunks, the receiver reassembles exactly the file; fed the receiver's acknowledgements, the sender's chunk loop succeeds |
| Transfer.EntriesFramed | src/adapter/sender.ts:136-160 | the sender's entry loop sends, per entry, its untyped header (or "") and then its chunks |
| Transfer.ChunkedFiles | src/adapter/sender.ts:142-157 | each entry's chunks are non-empty, add up to the size its header announces and concatenate to its file |
| Transfer.EntriesOfAt | src/adapter/receiver.ts:180-184 | the k-th recorded entry has the k-th header's name, the k-th chunk list as content and the k-th untyped header |
| Transfer.EntriesDelivered | src/adapter/receiver.ts:128-202 | a receiver that accepted the sender's header list and is fed what the sender's entry loop sends ends DONE with every entry recorded in order: its name, its whole file and the untyped header sent with it |
| Transfer.HeadersAgree | src/defines.ts:86-91 | the receiver reads the sender's header list as one header per entry, with the entry's name and file length |
| StateManager.SetNameSpec | src/stateManager/common.ts:36-43 | `setName` succeeds iff the name is valid; on failure it is InvalidNameSet and the state is unchanged; on success only the name changes |
| StateManager.RegenerateSpec | src/stateManager/common.ts:29-34 | `regenerateAuthSecret` replaces the secret and keeps the name |
| StateManager.ValidNameKept | src/stateManager/common.ts:36-42 | a valid name stays valid under both updates |
| StateManager.UpdatesCommute | src/stateManager/common.ts:29-43 | the two updates touch separate fields, so their order does not matter |
| StateManager.UuidIsValidName | src/stateManager/common.ts:17 | a generated UUID (8-4-4-4-12 hex digits) passes the name rule, so the initial name is valid |
| StateManager.CommonStateManager.constructor | src/stateManager/common.ts:14-18 | the slot starts with the generated secret and the generated name |
| StateManager.CommonStateManager.RegenerateAuthSecret | src/stateManager/common.ts:29-34 | only the secret changes, and the new value is emitted |
| StateManager.CommonStateManager.SetName | src/stateManager/common.ts:36-43 | refuses an invalid name and emits nothing; a valid name replaces only the name and is emitted |

## Left out

- Cancellation by the user is not modelled. This is the `isClosedByUser` flag, set by the subscriber
  on a CLOSE config (sender.ts:86-91, 137-138, 148-149, 197; receiver.ts:87-92, 206). It depends on
  concurrent delivery of configs, which the model does not represent. A CLOSE config is handled
  only when the loop reads it.
- The config `BusReader` is asynchronous. The model gives it a finite list of configs, and an
  exhausted list ends the loop normally.
- The progress fractions are not modelled: `currentEntryFraction`, `totalFraction`,
  `currentEntryDoneFraction` and `totalDoneFraction`. Nor is the per-chunk `updateState` that only
  sets them (sender.ts:161-166, receiver.ts:167-173), so the published states carry no
  fractions. The receiver's per-entry ratio at receiver.ts:179 is inverted (`totalSize /
  totalReceived`). It is not captured, because fractions are floating point.
- The message serialization of the peer connection is not modelled. Structured values are a
  JSON-like datatype (`Wire.Msg`) whose numbers are integers, so a non-integral number cannot be
  represented. Handshake.ExchangeHelloSpec: a hello whose `version` is non-integral, e.g. `1.5`,
  is rejected with "Version mismatch" at common.ts:35-36; the model cannot express that reply, so
  its VersionMismatch clause covers only integral versions other than 1. Destructuring a non-object (a `TypeError` in the source) is modelled as the
  step's own error: InvalidName at common.ts:79-80 and InvalidAuthParams at common.ts:98-104.
- Receiver.DoReceiveSpec: the source trusts the received header list (receiver.ts:113) and
  iterates it as it comes. The model reads it as a list of `{publicName, size}` objects, and refuses
  anything else with BadHeaders right after the accept marker. Sizes are integers: a negative size
  is represented and rejected as ChunkSizeMismatch at the first chunk, as in receiver.ts:160-162
  (`Receiver.NegativeSizeRejected`). Only a non-integral size, on which the source would never
  reach `bytesLeft === 0`, cannot be represented.
- Blobs, `File` and `ArrayBuffer` are byte sequences. `untypedHeader ?? ""` is modelled
  (`OrEmpty`). `JSON.parse(JSON.stringify(x))` on the untyped headers is the identity (`Sanitize`).
- In the token, `JSON.stringify` and `JSON.parse` are an abstract codec (`Defines.JsonCodec`).
  The round trip assumes only that the codec reads back the token object `{authId, peerId}` it
  serialized (`Defines.RoundTrips`), which the browser's JSON does for string fields. Which strings
  the serializer escapes is left to that parameter.
- Handshake.Nonce, Handshake.FileTransferHelper.Request, Handshake.FileTransferHelper.DoAuthenticate:
  REQUEST draws its nonce with the corrected `InternalUtil.RandomBuffer`, so these members, and
  `Sender.DoAuthSpec` and `Receiver.DoAuthSpec` above them, describe the intended fresh nonce. As
  written, common.ts:93 gets 64 zero bytes from `randomArrayBufferSync` (see Findings), so every
  session signs the same nonce; `Handshake.WrittenNonce` and `Handshake.ReplayAccepted` state that
  case and the replay it allows.
- WebCrypto (`importKey`, HMAC-SHA512) and the random source are uninterpreted parameters. The
  UTF-8 encoding of the secret sits inside them.
- `generateSecureClientId` and `generateUUID` are outside the model. Their outputs are constructor
  and method parameters of `CommonStateManager`.
- The `peer` field and `close` of `CommonStateManager`, and the `stateBus` getter, are left out:
  they only wrap other objects. The emitted values stand for what a sticky subscriber sees.
- Logging (`console.error`) is not modelled. Rethrowing is modelled as the passed-on error.
- The `cleanup` members and the async scheduling of the connection registry are not part of this
  model.

## Findings

| source | as written | input that shows it | evidently intended | confidence | as-written member | corrected member |
|---|---|---|---|---|---|---|
| src/internalUtil.ts:10 | each piece is randomised in the copy returned by `buffer.slice`, so the returned buffer stays all zeros and the 64-byte authentication nonce is always 64 zero bytes | any `size` > 0, e.g. `randomArrayBufferSync(64)` | randomise the bytes of `buffer` itself (a `Uint8Array` view on `buffer` at `offset`) | high; not executed | InternalUtil.RandomArrayBufferSync | InternalUtil.RandomBuffer |
