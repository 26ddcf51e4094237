# Verification of the session IPC protocol

A Dafny model of the crate that lets an app attach an identity to an engine over a local pipe, with
proofs about each half of the protocol and about the two together. `dafny verify dfyconfig.toml` checks
all of it.

## What is modelled

The **engine** keeps the handshakes it has begun in a map capped at 256, with a queue beside it that gives
their order, and keeps the sessions it has opened. `EngineSessionRegistry` (module `Engine`) is the object;
`RegistrySpec` says what each request does to it, as a function from the registry, the request and the
outside world's answers to the next registry. The object's invariant is that its state, and its record of
events, are those the specification reaches on the requests served. `RegistryRuns`, `Survival` and
`Accounting` prove facts about every such run, `QueueBound` says how long the queue can get, and
`EngineAnswers` gives every answer with its exact condition. `Fifo` has the map-and-queue lemmas, for any element type.

The **app's client** sends requests with increasing ids, waits for replies, and meanwhile answers the `sign`
callbacks that the engine interleaves. `SessionClient` (module `Client`) is the object; `ClientSpec` is a
step machine, one step for each start of a call and one for each frame received, with a record of every
send (delivered or not), every handshake and every signature given. The object's invariant is that its
state is the one the machine reaches on the turns taken. `ClientRuns` and `ReadLoop` prove facts about
every run, and `ClientAnswers` gives every reply, report and error with its exact condition.

The **signed messages** (`Domain`) are the three byte layouts with their tags, and one parser for all three.
`Hex` and `Base64` are concrete, so the nonce an engine stores and the nonce a client decodes are the same
bytes by proof. The **line framing** (`Transport`) is the reader and writer over a byte stream, compared
with a plain newline split; `Utf8` is the well-formedness of section 4 of RFC 3629,
proved to hold of exactly the encodings of Unicode scalar values.

`Agreement` puts any number of clients and one engine into every interleaving and proves that the sessions opened
map one to one into handshakes the clients ran. `Completeness` proves that an honest handshake succeeds, and
the handshake methods of `SessionClient` promise it in their contracts; `Detaching` does the same for detach.

## How the outside world enters

* Entropy is an arbitrary stream `entropy(0), entropy(1), ...` with a counter of draws made. Nothing is
  assumed of it. Results that need draws not to repeat require `Fresh(entropy, n)`, which says that the first
  `n` draws differ, `n` being the number of draws the run has made: 32-byte values cannot all differ for ever.
* The resolver's answer and the signature check are arguments of each attach, so they may change from one
  attach to the next. Only `Agreement` says what verification means, and in one direction: nothing verifies for
  a key and a message unless that key has signed that message. The engine may refuse any signature, one
  that was given out included, and may accept any bytes as a signature on a message that was signed.
* The client's world is a stream of `Moment`s, one for each step: the frame received (or a closed or garbled
  channel), the policy, the signer, which may be locked in one step and unlocked in the next, and
  whether a send gets through. The public key is fixed for the life of a client, which the source asserts
  in debug builds (src/client.rs:164-168).
* Frames are values shaped like the wire types. A `result` says which of the result types it reads as, and
  `params` says what they read as, if anything. Strings are their UTF-8 bytes.

## Where the code and its documentation differ

The model follows the code in each case.

* `from_hex` is documented as reading lower-case hex, as the inverse of `to_hex`. It reads upper case too.
  `Domain.ToHexInvertsFromHex` says for which texts it is an inverse: those with no upper-case digit.
  `Domain.UpperCaseKeyIsAccepted` is a text for which it is not.
* `recv_frame` is documented as stripping the newline. It strips every trailing CR and LF, so a frame that
  ends in CR does not come back: `Transport.CarriageReturnIsLost`. `Transport.FirstFrame` and
  `Transport.SendReceiveRoundTrip` say exactly which frames do.
* A malformed callback is documented as answered with an error, without failing the local caller
  (src/client.rs:36-38). That holds of a bad payload. A callback whose parameters do not read gets
  no reply and fails the local caller. `ReadLoop.AnsweredExactly` states both directions.
* Eviction is documented as keeping the engine's state from growing without bound (src/engine.rs:207-208).
  The map is always within the cap. The queue is not when draws repeat: `QueueBound.QueueOutgrowsCap` is the
  run. `QueueBound.QueueCappedExactly` is the exact condition, for every run and all draws: the queue stays
  within the cap if and only if no admitted begin finds it full while the map is not, which is when the
  loop guard at src/engine.rs:210 is false. `QueueBound.BeginOverflowsExactly` is the same for one begin, and
  `QueueBound.QueueLength` bounds the excess by the number of begins that minted a token still pending.

## Model

| member | source | states |
|---|---|---|
| Engine.EngineSessionRegistry.constructor | src/engine.rs:90-98 | a new registry has served nothing, holds nothing and has drawn nothing |
| Engine.EngineSessionRegistry.FillNonce | src/transport.rs:73-78 | one draw, and the draw counter moves on by one |
| Engine.EngineSessionRegistry.Begin | src/engine.rs:106-128 | the whole new state and answer of `begin`, the run invariant kept, and at most 256 pending afterwards, with no assumption on the draws |
| Engine.EngineSessionRegistry.Attach | src/engine.rs:140-175 | the whole new state and answer of `attach` are those of the specification, whose every answer has its exact condition in `EngineAnswers`; the candidate is consumed before any check |
| Engine.EngineSessionRegistry.Detach | src/engine.rs:179-181 | removes exactly the named session and reports whether there was one |
| Engine.EngineSessionRegistry.FindInOrder | src/engine.rs:201 | the search in the queue finds the first occurrence of the token, or there is none |
| Engine.EngineSessionRegistry.TakeCandidate | src/engine.rs:199-205 | removes the token from the map and its first occurrence, only, from the queue; an unknown token changes nothing |
| Engine.EngineSessionRegistry.EvictIfFull | src/engine.rs:209-218 | the loop ends, does what dropping oldest entries one at a time does, and gets below the cap whenever the queue covers the map |
| EngineAnswers.BeginRefusedExactly | src/engine.rs:107-108 | a begin is refused if and only if its key text is not the hexadecimal of 48 bytes, always with the same error, and then changes nothing |
| EngineAnswers.BeginAdmitsExactly | src/engine.rs:110-127 | otherwise the first draw is the nonce returned and stored and the second names the candidate; the shortest prefix of the queue that brings the map under the cap goes, and the new entry comes last; sessions stay |
| EngineAnswers.AttachIdentityErrors | src/engine.rs:141-159 | UnknownCandidate if and only if the token is not pending; UnknownDid if and only if it is, the DIDs agree and the DID does not resolve; KeyMismatch if and only if the DIDs differ or the resolved key is another |
| EngineAnswers.AttachSignatureErrors | src/engine.rs:161-165 | each malformed-signature error and BadSignature if and only if all before it pass and the text does not decode, has another length, or does not verify |
| EngineAnswers.AttachOpensExactly | src/engine.rs:161-174 | a session is opened if and only if everything passes, under the next draw's name, for the profile sent and with the fixed capabilities; there is no other answer |
| EngineAnswers.AttachIsRecorded | src/engine.rs:140-175 | the event of an attach carries the answer given, the same error included |
| EngineAnswers.DetachAnswersExactly | src/engine.rs:179-181 | true if and only if there was such a session; afterwards there is none and all else is as it was |
| EngineAnswers.CapabilitiesSpelled | src/bounds.rs:25-28 | the four capability texts |
| RegistryRuns.AlwaysBounded | src/engine.rs:113-122 | in every reachable state, whatever the draws, every pending key is in the queue, pending is at most 256, and eviction gets below 256, so its empty-queue exit is never what stops it |
| RegistryRuns.BeginBounded | src/bounds.rs:19-23 | a begin after any run leaves at most 256 pending |
| RegistryRuns.AlwaysTraced | src/engine.rs:115-143 | in every reachable state each pending candidate, each consumed candidate and each open session comes from an earlier event with the same contents |
| RegistryRuns.HistoryAt | src/engine.rs:88-219 | the i-th event of a run is what the i-th request did in the state the first i requests lead to |
| RegistryRuns.AttachedProvenance | src/engine.rs:140-175 | a session opened by request `a` consumed a candidate begun by an earlier request with the same nonce, key and DID; the resolver answered with that key and the challenge over that nonce and DID verified under it |
| RegistryRuns.SessionProvenance | src/engine.rs:167-169 | the same for every session open in any reachable state, with its profile's DID that of the begin |
| RegistryRuns.RefusedAttachChangesLittle | src/engine.rs:141-165 | beside the provenance results, one call: a refused attach leaves sessions and draws alone, removes only the named candidate from the map and only its first occurrence from the queue, and served again is refused as unknown |
| RegistryRuns.LedgerRefined | src/engine.rs:106-219 | while draws do not repeat, the map and the queue together do to each request what one ordered list of outstanding handshakes does: append and drop the oldest of a full list, strike out, or nothing |
| RegistryRuns.LedgerAnswers | src/engine.rs:199-200 | a lookup in the map is a lookup in that list, and the sizes agree |
| RegistryRuns.AlwaysExact | src/engine.rs:80-83 | in every run whose draws differ, the queue has no duplicates and the same elements as the map |
| RegistryRuns.FreshIsUnnamed | src/transport.rs:73-78 | a draw that differs from the earlier ones has a hexadecimal name that differs from theirs |
| QueueBound.BeginOverflowsExactly | src/engine.rs:113-122 | with the queue within the cap, a begin leaves it there if and only if the queue was not full or the map was, whatever the draws |
| QueueBound.QueueCappedExactly | src/engine.rs:207-218 | over any run, whatever the draws, the queue is within the cap throughout if and only if no admitted begin finds the queue full and the map not |
| QueueBound.QueueBalance | src/engine.rs:113-122 | over any run, whatever the draws, queue length + leftover entries dropped by eviction = pending + begins that minted a token still pending |
| QueueBound.QueueLength | src/engine.rs:199-218 | so the queue is at least as long as the map and exceeds the cap by at most the number of those begins |
| QueueBound.BeginKeepsExactness | src/engine.rs:80-83 | from a state where queue and map agree, a begin keeps the agreement if and only if the token it mints is not pending after eviction |
| QueueBound.QueueOutgrowsCap | src/engine.rs:207-218 | with every draw the same, after n begins the queue has n entries and the map one: the documented bound on state fails for the queue |
| Fifo.Position | src/engine.rs:201 | the position of the first occurrence, or the length |
| Fifo.EvictCovered | src/engine.rs:209-218 | eviction keeps every map key in the queue and gets below any positive cap |
| Fifo.EvictsShortestPrefix | src/engine.rs:209-218 | eviction drops the shortest prefix of the queue, with its map keys, that brings the map under the cap, or else the whole queue |
| Fifo.EvictMatched | src/engine.rs:209-218 | when queue and map agree, a full map loses exactly its oldest key and one below the cap loses nothing |
| Fifo.PushMatchedExactly | src/engine.rs:114-122 | inserting keeps agreement if and only if the key is new |
| Fifo.StrikeMatched | src/engine.rs:199-205 | taking a key out of both keeps agreement |
| Fifo.LedgerAppend | src/engine.rs:113-122 | evict-then-insert on the two structures is append-with-cap on the one list |
| Fifo.LedgerStrike | src/engine.rs:199-205 | taking a key out of the two structures is striking it out of the one list |
| Survival.CandidateSurvives | src/engine.rs:106-128 | a candidate stays pending with its nonce, key and DID through any run with at most 255 further admitted begins and no attach naming it, if draws differ |
| Survival.SurvivalIsTight | src/bounds.rs:19-23 | without attaches it is pending if and only if there were at most 255 |
| Survival.GoneStep | src/engine.rs:199-219 | a token drawn earlier and not pending never becomes pending again |
| Accounting.SingleUse | src/engine.rs:130-143 | no token passes the candidate lookup in two attaches, failed or not, and a consumed or evicted token is pending in no later state |
| Accounting.AlwaysSpent | src/engine.rs:199-219 | in every run the tokens consumed or evicted by different events are different and none is pending |
| Accounting.Conservation | src/engine.rs:106-181 | begins = pending + consumed + evicted, and sessions opened = open + closed |
| Accounting.OpenedWithinBegun | src/engine.rs:106-175 | whatever the draws, sessions ever opened are at most the begins admitted |
| Client.SessionClient.constructor | src/client.rs:116-123 | a new client is ready, its next id is 1 and it has sent and signed nothing |
| Client.SessionClient.TrySign | src/signer.rs:19-27 | a locked signer signs nothing; a signature given is logged with its message and purpose |
| Client.SessionClient.SendError | src/client.rs:399-414 | attempts one error reply under the given id |
| Client.SessionClient.ServiceSignCallback | src/client.rs:251-328 | what is sent, signed and returned for a callback is what the specification says, whose every reply has its exact condition in `ClientAnswers` |
| Client.SessionClient.HandleNextSignCallback | src/client.rs:240-247 | one frame is read; it is serviced if it is a callback and refused otherwise |
| Client.SessionClient.ReadFrame | src/client.rs:357-381 | one turn of the loop: another callback serviced with one delivered reply, or the end of the wait; it fails with an engine error if and only if the frame is the awaited response and carries that code and text |
| Client.SessionClient.ReadResponse | src/client.rs:352-382 | the loop ends after at most 65 frames; a result means that the frames were callbacks, each replied to in order and under its own id or null, then the response with the awaited id, and that nothing else was sent; an engine error means that the last frame was that response with that error, and conversely |
| Client.SessionClient.Call | src/client.rs:333-348 | the id is used up whether or not the send gets through; the rest is the read loop, engine errors included |
| Client.SessionClient.SignAndAttach | src/client.rs:147-193 | the nonce is decoded and its length checked before signing, a locked signer ends it with nothing sent, and the attach call follows |
| Client.SessionClient.BeginAndAttach | src/client.rs:134-194 | the handshake ends after at most 130 frames, in the state and with the result the machine reaches on them; if it was an honest one it returns a session, which the engine holds for the very profile sent; and it fails with an engine error if and only if the last frame read was the response to the last request with that code and text |
| Client.SessionClient.Reattach | src/client.rs:220-228 | the same on a new transport, with ids from 1 |
| Client.SessionClient.Detach | src/client.rs:204-212 | the detach ends after at most 65 frames; if it was an honest one it returns Ok and the engine has dropped the session and kept the others; and it fails with an engine error if and only if the last frame read was the response with that code and text |
| ClientRuns.StepMoves | src/client.rs:134-414 | every step, whatever the state and the outside world, is one of: nothing, the end of a wait, one reply to one callback, one begin or detach request, or one challenge signature with its attach request |
| ClientRuns.EverySigningSanctioned | src/client.rs:147-178 | over any run every signature is over the challenge for the 32-byte nonce of the begin reply the current handshake awaited and that handshake's DID, or over the message of a callback the policy allowed in that step |
| ClientRuns.SignaturesMatchWire | src/client.rs:175-187 | the i-th attach request or signed reply sent carries the i-th signature given, and there are as many of one as of the other |
| ClientRuns.AlwaysOneChallengeEach | src/client.rs:134-194 | each handshake signs at most one challenge |
| ClientRuns.IdsAlwaysInOrder | src/client.rs:338-347 | the requests on one transport carry 1, 2, 3, ... through failures and detaches, and the id awaited is that of the last, which was delivered |
| ClientRuns.NoStaleReply | src/client.rs:370-372 | a frame echoing the id of some request of this transport passes the id check if and only if that request is the one now awaited |
| ClientRuns.ReceivesIsRun | src/client.rs:352-382 | receiving frames continues a run of the machine, which ties each method's contract to the facts about runs |
| ReadLoop.Transcript | src/client.rs:356-368 | while one reply is awaited, the frames read are callbacks, at most 64, and the frames sent are their replies, one each and in order; also when the wait then fails |
| ReadLoop.WaitEnds | src/client.rs:352-382 | every wait is over after at most 65 frames, whatever arrives |
| ReadLoop.CallEnds | src/client.rs:134-194 | every handshake is over after at most 130 frames and any other call after at most 65, whatever arrives |
| ReadLoop.WaitContinuesExactly | src/client.rs:361-368 | the wait goes on if and only if a readable callback arrives, fewer than 64 came before it and its reply gets through; the 65th is read but nothing is signed or sent for it |
| ReadLoop.AnsweredExactly | src/client.rs:255-257 | a callback is replied to if and only if its parameters read; otherwise nothing changes and the caller gets a frame error |
| ReadLoop.HandlingReports | src/client.rs:240-328 | Allow is reported if and only if one signed result got through, a denial if and only if one error did, and a signature is given only where Allow or a transport error is reported |
| ReadLoop.AuditMatchesWire | src/client.rs:230-247 | over any sequence of callbacks the decisions reported are, in order, the replies that got through |
| ClientAnswers.CallbackRepliedExactly | src/client.rs:271-326 | a serviced callback is signed if and only if the policy allows the request made of its own five fields, its type has at most 65535 bytes and the signer gives a signature on its message; the reply carries that signature and the key; LOCKED and each denial text if and only if their own conditions hold |
| ClientAnswers.BadPayloadRepliedExactly | src/client.rs:259-269 | a payload that is not base64 gets the error that says so, nothing is signed, and the report says so too |
| ClientAnswers.DecisionReportedExactly | src/client.rs:279-327 | the decision reported is Allow if and only if the callback was signed, and each denial reason if and only if its condition holds |
| ClientAnswers.HandlingEndsExactly | src/client.rs:240-257 | not-a-callback, frame error, transport error and decision, each if and only if |
| ClientAnswers.CallbackEndsWaitExactly | src/client.rs:361-368 | a callback during a wait ends it as the 65th, as unreadable or by a failed send, or is one more serviced, each if and only if |
| ClientAnswers.WaitEndsExactly | src/client.rs:357-381 | for any other frame during a wait: engine error with code and text, id mismatch, frame error, malformed response, transport error, locked signer, detached and opened with its session, each if and only if |
| ClientAnswers.BeginReplyEndsWait | src/client.rs:147-187 | what the reply to a begin leads to: bad base64, wrong nonce length with that length, locked, send failure or the attach call, each if and only if; nothing is signed or sent except in the last two |
| Agreement.AlwaysGiven | src/domain.rs:175-187 | in every interleaving, with verifiers that may refuse anything but accept nothing that was not signed, whatever any of them accepts has been signed, and a client's key signs outside its session code only user messages |
| Agreement.SessionIsMatched | src/engine.rs:140-175 | agreement: in every such interleaving each session ever opened for a key a client holds is matched by a handshake of that client for the session's DID that signed exactly the consumed candidate's nonce |
| Agreement.MatchIsInjective | src/engine.rs:133-134 | if draws differ, one handshake matches at most one session ever opened |
| Agreement.SessionsInjectIntoHandshakes | src/engine.rs:130-143 | injective agreement: in every such interleaving with draws that differ there is an injection from all sessions ever opened for the clients' keys to the clients' handshakes, each session going to one that signed its nonce |
| Agreement.SessionNoncesDiffer | src/engine.rs:110-143 | if draws differ, two opened sessions consumed candidates with different nonces |
| Agreement.LoggedChallenge | src/client.rs:175-178 | a logged message that is a challenge was signed by a handshake for that nonce and DID, never by a callback |
| Completeness.HandshakeCompletes | src/client.rs:134-194 | completeness of the step machine: under the conditions named there the handshake, on the present transport or a new one, ends with a session that the engine maps to the very profile sent, whatever the engine had served before |
| Completeness.OverAfter | src/client.rs:134-228 | completeness of the methods: whenever the frames read have ended the call, what it returned is that session for every honest handshake it can have been |
| Completeness.AttachIsAccepted | src/engine.rs:140-175 | the engine, still holding the candidate, opens a session for the attach the client sends |
| Completeness.UndisturbedCompletes | src/client.rs:214-228 | the conditions can be met: every ready client with an unlocked signer completes an undisturbed handshake with an engine in any reachable state, a fresh one included, if the next two draws are new |
| Completeness.ClientSignsEngineNonce | src/client.rs:147-187 | the honest begin reply leads the client to send an attach with the engine's candidate and a signature over the engine's nonce |
| Completeness.HonestAttachOpens | src/engine.rs:140-175 | an attach with the candidate's DID, key and challenge signature opens a session that maps to its profile |
| Detaching.DetachSends | src/client.rs:204-212 | the one request sent carries the next id and the session id of the session passed |
| Detaching.DetachEnds | src/client.rs:204-212 | with the send delivered, at most 64 readable callbacks and the acknowledgement, detach is done |
| Detaching.EngineDrops | src/engine.rs:179-181 | serving the request sent, the engine drops that session and keeps every other one as it was |
| Detaching.DetachOverAfter | src/client.rs:204-212 | whenever the frames read have ended the call, what it returned is Ok for every honest detach it can have been |
| Detaching.OpenedThenDropped | src/client.rs:189-212 | a session a handshake returned is one the engine has, and detaching from it makes the engine drop it |
| Domain.TagsExclusive | src/domain.rs:38-53 | no text starts with two of the three tags |
| Domain.TagsSpelled | src/domain.rs:38-53 | the three tags as text |
| Domain.ParseInvertsPrint | src/domain.rs:111-166 | the parser recovers purpose and fields from every message built |
| Domain.PrintInvertsParse | src/domain.rs:111-166 | any byte string that parses is the message of what it parses to |
| Domain.PrintInjective | src/domain.rs:111-166 | equal messages have equal purpose and equal fields |
| Domain.ChallengeNeverCollides | src/domain.rs:40-53 | a challenge over a 32-byte nonce is no other challenge, no callback message and no user message |
| Domain.ChallengeBoundary | src/domain.rs:106-118 | for nonces of any length, two challenges are equal if and only if nonce and DID concatenate to the same bytes, and then the lengths differ |
| Domain.ChallengeCollidesWithoutFixedLength | src/domain.rs:106-110 | two different pairs with one challenge, so the length check is needed |
| Domain.FromHexInvertsToHex | src/domain.rs:72-82 | reading a printed key gives the key back |
| Domain.ToHexInvertsFromHex | src/domain.rs:77-82 | printing a key that was read gives the text back if and only if it has no upper-case digit |
| Domain.UpperCaseKeyIsAccepted | src/domain.rs:77-82 | a text that reads as a key and is not what the key prints as |
| Hex.DecodeInvertsEncode | src/domain.rs:73-82 | hexadecimal decoding inverts encoding |
| Hex.EncodeAt | src/domain.rs:73-75 | each byte becomes two digits of the lower-case alphabet, the high one first |
| Hex.EncodeInjective | src/engine.rs:111 | two tokens are equal only if their draws are |
| Hex.EncodeInvertsDecode | src/domain.rs:79-82 | a decoded text re-encodes to itself if and only if it has no upper-case digit |
| Hex.UpperCaseDecodes | src/domain.rs:79-82 | text of upper-case digits decodes, at every length |
| Base64.DecodeInvertsEncode | src/engine.rs:125 | what the engine encodes the client decodes, byte for byte |
| Base64.CharIsStandard | src/engine.rs:7-8 | the alphabet is the standard one of section 4 of RFC 4648 |
| Base64.GroupIsBigEndian | src/engine.rs:125 | four characters spell the 24 bits of three bytes, highest first, and short groups are padded |
| Base64.EncodeInvertsDecode | src/engine.rs:222-230 | a text that decodes is the only text for its bytes |
| Utf8.SplitAtAscii | src/transport.rs:65-67 | a text is well formed if and only if the parts on both sides of an ASCII byte are |
| Utf8.Utf8IsWhatEncodes | src/transport.rs:65-66 | well-formed texts are exactly the encodings, in the bit layout of section 3 of RFC 3629, of sequences of scalar values |
| Utf8.EncodedIsOneCharacter | src/transport.rs:65-66 | an encoded scalar is read as one character whatever follows |
| Transport.LineTransport.constructor | src/transport.rs:33-38 | nothing read and nothing written |
| Transport.LineTransport.SendFrame | src/transport.rs:42-46 | appends the frame and a newline to what was written |
| Transport.LineTransport.ReadUntilNewline | src/transport.rs:52-55 | takes the bytes up to and including a newline, never more than the limit, and leaves the rest |
| Transport.LineTransport.RecvFrame | src/transport.rs:48-68 | end of stream exactly on an empty stream; otherwise the first of what receiving to the end gives, with fewer bytes left, and the rest given by later receives |
| Transport.LineEnd | src/transport.rs:53-55 | how many bytes a bounded read up to a newline takes |
| Transport.ChunksPartition | src/transport.rs:48-68 | receives cut the stream into pieces of 1 to 1 MiB whose concatenation is the stream, one receive each, at most one for each byte |
| Transport.LinesHead | src/transport.rs:53-55 | the first line of the newline split is what an uncapped read up to a newline takes |
| Transport.LinesAreLines | src/transport.rs:53-55 | the newline split loses nothing, and each line ends at its only newline, but for a last tail |
| Transport.FrameOfExactly | src/transport.rs:59-67 | too long, not UTF-8, and a frame with this text, each if and only if, in terms of bytes and scalar values alone |
| Transport.TrimEndExactly | src/transport.rs:67 | the trimmed text is the one that lacks exactly the line endings at the end, however many |
| Transport.ReceiveRefinesSplit | src/transport.rs:48-68 | receiving to the end gives the newline split with trailing CR and LF trimmed if and only if every line fits the cap (a tail without newline being shorter) and is UTF-8 |
| Transport.LinesOfUtf8 | src/transport.rs:65-66 | a stream is UTF-8 if and only if each line of its split is |
| Transport.TrimEndKeepsUtf8 | src/transport.rs:67 | trimming removes only trailing CR and LF and neither breaks nor mends UTF-8 |
| Transport.ReceivedTextIsUtf8 | src/transport.rs:65-67 | every frame delivered is UTF-8 |
| Transport.ReceiveNeverFails | src/transport.rs:53-67 | when every line fits the cap, no receive fails before the end if and only if the stream is UTF-8 |
| Transport.FirstFrame | src/transport.rs:42-68 | a sent UTF-8 frame is received as sent if and only if it has no newline, does not end in CR and is shorter than the cap |
| Transport.SendReceiveRoundTrip | src/transport.rs:42-68 | sending any list of UTF-8 frames and receiving to the end gives the list back if and only if each of them is such a frame |
| Transport.CarriageReturnIsLost | src/transport.rs:67 | any UTF-8 frame that can be sent and has room for one more byte, with a CR added, is received without the CR |
| Transport.ValuesRoundTrip | src/transport.rs:42-68 | for any printer and parser of frames, if each frame prints to a text that can be sent and that parses to what the peer is to see, the peer sees all the frames in order and nothing else |
| Transport.SendAllSnoc | src/transport.rs:42-46 | sending frames one after the other writes what sending them all writes |

## Left out

- BLS12-381 arithmetic (src/domain.rs:180-186): foreign code; a check is an arbitrary predicate, and an ideal one in `Agreement`.
- `OsEntropy` (src/transport.rs:80-90): the system's random source; draws are an arbitrary stream.
- JSON text (src/client.rs:340, src/client.rs:359): frames are values, with a case for text that is not a frame and one for parameters or results that do not read.
- Operating-system pipes, buffering, flushing and I/O errors inside `LineTransport`: its reader is a byte sequence with a position. Send and receive failures are modelled at the client, where they decide what happens.
- The JSON printer and parser between the client's frames and the bytes of `LineTransport`: `Transport.ValuesRoundTrip` joins the two for any pair that meets its conditions, and that serde's does is not proved.
- Error codes and symbols of attach errors (src/engine.rs:48-62, src/wire.rs:220-256): one-branch lookups. The two codes a client sends are constants.
- `SessionRegistry` (src/client.rs:417-454), `AllowAllSignPolicy` and `DenyAllSignPolicy` (src/signer.rs:81-101), and the accessors `session`, `open_sessions` and `pending_candidates`: they would add only easy members.
- Wrap-around of the 64-bit request counter (src/client.rs:339): ids are unbounded.
- Agreement on more than DID and nonce: the signed challenge does not cover the rest of the profile, so subscriptions and config digest have no such result.
- A signer whose public key changes during a client's life: the source asserts against it in debug builds.
