# A verified model of OpenHTTPA's session core

OpenHTTPA attests both ends of an HTTP connection and then runs encrypted, replay-protected
requests and streams over it. This project models the parts of it that carry state, arithmetic or
encodings, and proves what they promise. Cryptographic primitives are parameters; what is assumed
of them is written as a predicate beside the theorem that needs it, and where a theorem can fail
only through a collision, the theorem names the two colliding inputs.

`dafny verify dfyconfig.toml` checks everything.

| files | part of the system |
|---|---|
| `ReplayRing`, `ReplayGuard` | the anti-replay bit ring: in place, and as a set of accepted nonces |
| `Session`, `RequestStream`, `GuardedStream`, `ServerFrames` | key access gated by the replay check; the request stream on the client and on the server |
| `Frames`, `StreamChannel`, `StreamFamily`, `IdealChannel` | the frame reader; the hash-chained stream, alone and among others; that its assumptions can be met |
| `Transcript`, `KeyExchange`, `KeySchedule`, `Handshake`, `EndToEnd` | the attested handshake, and a stream under its keys |
| `AeadNonce`, `NonceSequence`, `NonceManager`, `FileNonce` | nonce counters under interleaving and crashes |
| `PskStore`, `KvStore`, `Convergence`, `PolicyCache`, `CacheRecency`, `RateLimit` | bounded keyed stores |
| `AiqlParser`, `AiqlGrammar`, `AiqlPrinter`, `AiqlEngine`, `QuotePolicy` | the policy language and the quote policy |
| `Bytes`, `Arithmetic`, `Texts`, `Outcomes` | encodings and small types shared by the others |

## Main results

1. **Replay window.** For every interleaving of `check` and `accept`, an accepted nonce is refused
   ever after, and a nonce that was never accepted is called a replay exactly when an expired nonce
   a whole number of windows below it had been accepted. Driven by `check_and_accept` alone, the
   ring gives the answers of a plain set of nonces with its maximum.
2. **Stream integrity.** Whatever frames are dropped, repeated, reordered or inserted, the receiver
   delivers exactly the longest prefix of the sent chunks whose frames arrived in order, also when
   the key seals single messages beside the stream; with several streams under one key it delivers
   such a prefix of one of them. However the bytes are cut into chunks, and past transport errors,
   both readers yield the frames of a one-shot parse. The client seals exactly the chunks whose
   random nonces pass its own replay check. The server's replay check changes nothing under the
   sliding window; under strict order it changes nothing exactly if no frame is overtaken by one
   with a larger counter.
3. **Handshake agreement.** The server completes a handshake exactly when suites and versions
   overlap, agreement and encapsulation succeed and no public value exceeds its 16-bit length; the
   client likewise. Two separately written sides compute the same transcript hash, secret,
   keys and report data from an unchanged response. Conversely, if any key of one side equals any
   key of the other, both saw the same handshake, it is the same key slot and the same component
   secrets went into it, or HKDF, SHA-384 or the combiner collided on inputs that the theorem names.
   With the stream result this gives an end-to-end theorem.
4. **Nonces.** No schedule of threads makes one counter issue a nonce twice; no history of locks,
   torn writes and crashes makes the file counter return a count twice, and one sequence returns
   its counts in order. The nonce manager survives crashes if no save lowers a saved counter, as
   when calls are made one at a time.
5. **Stores.** A PSK ticket survives as long as fewer stores than the capacity were made since or
   at the same instant; if the clock moves between stores, until capacity-many later stores.
   An update is stored exactly when it gives some node a larger count; replicated entries reach the
   same value under every delivery order exactly when one update dominates all others. The policy
   cache keeps what was used last, and is transparent under all configurations exactly when no
   namespace continues another after a colon. The rate limit holds in every run exactly when the
   clock is old enough.
6. **AIQL.** The parser accepts exactly the layouts of the grammar: any blanks and tabs, any extra
   parentheses, and each denotes the tree it is a layout of. The well-formed trees are exactly those
   that some text denotes. Evaluation gives the boolean meaning or the first unknown field that
   short-circuit order reaches, and nothing else; flattening preserves it, errors included.

## Where code and documentation differ

The model follows the code.

- `crates/openhttpa-core/src/session/mod.rs:422-430` says that a failed closure restores
  `strict_last_seen`; it stores `nonce - 1`. `Session.FailureLeavesNoTraceIff` says when that is the
  same, and `GuardedStream.StrictTransparentIff` what it means for a stream.
- `crates/openhttpa-core/src/session/mod.rs:438-439` says that consecutive requests always pass the
  local replay check. They do exactly when the counter is above everything committed
  (`Session.AlwaysPassesIff`); a chunk of a streaming request commits a random nonce
  (`Session.LeapThenNext`).
- The parameter of `SlidingWindow(w)` is not used: the window is always 64 words.
- The file counter is documented as durable. Counts are unique, granted in increasing order and
  returned in order by one sequence; several sequences over one file can overtake each other, since
  the lock on the file is released before the call returns (`FileNonce.InOrderIff`).
- Each save of the nonce manager writes both counters, one of them as it was read earlier, so a send
  and a receive that run side by side can undo each other's save (`NonceManager.LateSendReplays`,
  `NonceManager.LateReceiveRepeats`). Its send counter starts again after its first overflow error
  (`NonceManager.SendNoncesDistinctIff`).
- Eviction by earliest expiry is eviction of the oldest only if no two tickets are stored at the
  same instant (`PskStore.SurelyKeptIff`, `PskStore.NewerCanBeLost`).
- Nothing ties a response stream to its request: the client ignores the order of the counters, so an
  earlier stream of the session is accepted as well (`StreamFamily.OldStreamReplays`).
- The rate limiter's cutoff falls back to the present while the clock is younger than the window
  (`RateLimit.LimitHoldsIff`).
- The client labels its session with the one suite and version it offered, not with those of the
  response; for a server that follows the protocol these are equal (`Handshake.Agreement`).

## Model

| member | source | states |
|---|---|---|
| ReplayRing.PlaceIsSlotAndBit | crates/openhttpa-core/src/replay_guard.rs:116-118 | word and bit of a nonce together are the nonce modulo 64·W |
| ReplayRing.PlacesDistinct | crates/openhttpa-core/src/replay_guard.rs:116-118 | two different nonces less than 64·W apart never share a word and bit |
| ReplayRing.SetBitEffect | crates/openhttpa-core/src/replay_guard.rs:145-148 | setting the bit of a nonce marks it and the nonces of the same place, and changes no other |
| ReplayRing.ClearBitEffect | crates/openhttpa-core/src/replay_guard.rs:136-139 | clearing likewise removes exactly the marks of that place |
| ReplayGuard.ReplayGuardInner.Check | crates/openhttpa-core/src/replay_guard.rs:101-123 | the answer is the one specified over the history of accepted nonces, for any history |
| ReplayGuard.ReplayGuardInner.Accept | crates/openhttpa-core/src/replay_guard.rs:129-149 | ring and highest nonce represent the history extended by the nonce, for any nonce |
| ReplayGuard.ReplayGuardInner.MoveUp | crates/openhttpa-core/src/replay_guard.rs:130-141 | the places of the entering nonces become free, one by one or all at once, and those that stay keep their marks |
| ReplayGuard.ReplayGuardInner.Reclaim | crates/openhttpa-core/src/replay_guard.rs:134-141 | the loop clears exactly the places of the nonces that enter the window |
| ReplayGuard.ReplayGuardInner.CheckAndAccept | crates/openhttpa-core/src/replay_guard.rs:191-200 | checks and commits in one step; a refused nonce leaves the history as it was |
| ReplayGuard.ReplayGuardInner.ExportState | crates/openhttpa-core/src/replay_guard.rs:207-210 | the exported pair represents the history |
| ReplayGuard.ReplayGuardInner.ImportState | crates/openhttpa-core/src/replay_guard.rs:216-220 | importing a pair that represents a history makes the guard answer for that history |
| ReplayGuard.MarkInWindow | crates/openhttpa-core/src/replay_guard.rs:145-148 | accepting a nonce not above the highest keeps the representation |
| ReplayGuard.EnterWindow | crates/openhttpa-core/src/replay_guard.rs:129-149 | so does moving the window up, if the reclaimed places are clear |
| ReplayGuard.AcceptedIsRefused | crates/openhttpa-core/src/replay_guard.rs:170-184 | in every history, disciplined or not, an accepted nonce is refused by every later check |
| ReplayGuard.MarkOrigin | crates/openhttpa-core/src/replay_guard.rs:129-149 | a mark in the window comes from the nonce itself or from accepting one that had left the window |
| ReplayGuard.ExactWhenDisciplined | crates/openhttpa-core/src/replay_guard.rs:191-200 | with check-then-accept only: Ok, TooOld and Replay each exactly when the set model says so |
| ReplayGuard.AcceptedOnce | crates/openhttpa-core/src/replay_guard.rs:191-200 | then no nonce is accepted twice |
| ReplayGuard.FalseReplayIff | crates/openhttpa-core/src/replay_guard.rs:129-149 | exactly when a nonce that was never accepted is reported as a replay |
| ReplayGuard.FalseReplayExample | crates/openhttpa-core/src/replay_guard.rs:129-149 | a concrete history in which that happens |
| ReplayGuard.DisciplineKept | crates/openhttpa-core/src/replay_guard.rs:191-200 | check-then-accept keeps a history disciplined |
| ReplayGuard.AnswerMatches | crates/openhttpa-core/src/replay_guard.rs:101-123 | over a disciplined history the set-and-maximum model gives the specified answer |
| ReplayGuard.AfterMatches | crates/openhttpa-core/src/replay_guard.rs:129-149 | and its state follows the history |
| ReplayGuard.AnswerAll | crates/openhttpa-core/src/replay_guard.rs:191-200 | refinement: a new guard fed any nonces gives the answers of the set model |
| Session.CommitKeepsConsistent | crates/openhttpa-core/src/session/mod.rs:369-424 | a call that passes and commits keeps what each strategy knows of the committed nonces |
| Session.CommittedOnce | crates/openhttpa-core/src/session/mod.rs:339-356 | in every run no nonce is committed twice, and a committed one no longer passes |
| Session.AttestSession.WithKeysForTrr | crates/openhttpa-core/src/session/mod.rs:357-436 | the result in every case, and the committed nonces, counter and strict mark after it |
| Session.AttestSession.WithKeysForTrs | crates/openhttpa-core/src/session/mod.rs:464-482 | every call that returns uses a server counter of its own |
| Session.AttestSession.WithKeysForNextTrr | crates/openhttpa-core/src/session/mod.rs:438-454 | the result in every case; a refused call changes nothing, a failed one leaves the counter, a successful one moves it |
| Session.SealNoncesDistinct | crates/openhttpa-core/src/session/mod.rs:402-420 | no two successful calls seal under the same AEAD nonce |
| Session.FailureLeavesNoTraceIff | crates/openhttpa-core/src/session/mod.rs:421-432 | a failed call leaves all later answers unchanged iff sliding window or consecutive nonce |
| Session.NextPassesIff | crates/openhttpa-core/src/session/mod.rs:438-454 | one next-counter call passes iff the counter was not committed and lies in the window, or is above the strict mark |
| Session.AlwaysPassesIff | crates/openhttpa-core/src/session/mod.rs:438-454 | every sequence of next-counter calls passes throughout, whichever closures fail, iff the counter is above everything committed (sliding) or above the mark (strict) |
| Session.RefusedForever | crates/openhttpa-core/src/session/mod.rs:438-454 | after one refusal the counter never moves again |
| Session.NextRequests | crates/openhttpa-core/src/session/mod.rs:438-454 | which calls of a run on a session are refused, and where it stands afterwards |
| Session.LeapThenNext | crates/openhttpa-client/src/client.rs:603-611 | on a new default session a chunk sent under nonce 5000 makes the next request refused |
| RequestStream.SealChunk | crates/openhttpa-client/src/client.rs:596-661 | one chunk is sealed iff its nonce passes, under the next counter and the running hash |
| RequestStream.SealRequest | crates/openhttpa-client/src/client.rs:594-661 | exactly the chunks whose nonces pass are sealed, and their frames are the specified ones under consecutive counters |
| RequestStream.AllSealedIff | crates/openhttpa-client/src/client.rs:603-611 | all chunks are sealed iff each nonce is positive, new and less than 4096 below the largest at its turn |
| RequestStream.SessionCountersFresh | crates/openhttpa-client/src/client.rs:611-616 | the counters of one session are fresh for a server that has committed nothing from the first one on |
| RequestStream.RequestArrives | crates/openhttpa-server/src/extractors.rs:439-498 | of the chunks the client sealed the server delivers the longest prefix that arrived in order |
| GuardedStream.SlidingTransparent | crates/openhttpa-server/src/extractors.rs:439-498 | under the sliding window, for every sequence of frames, the guarded reader delivers what the stream alone would and commits exactly the delivered counters |
| GuardedStream.StrictInvStep | crates/openhttpa-server/src/extractors.rs:453-497 | one frame under strict order: the reader stays in step, or is stuck for good |
| GuardedStream.StrictInvariant | crates/openhttpa-server/src/extractors.rs:439-498 | so over every sequence of frames: in step while nothing was overtaken, stuck below the stream afterwards |
| GuardedStream.StrictTransparentIff | crates/openhttpa-server/src/extractors.rs:439-498 | under strict order the same is delivered as without the check iff no frame is overtaken by a larger counter |
| GuardedStream.OvertakenExample | crates/openhttpa-core/src/session/mod.rs:421-432 | one frame that does not open, numbered ahead, makes the genuine next frame undeliverable |
| GuardedStream.ReadFrame | crates/openhttpa-server/src/extractors.rs:453-497 | one turn of the server's loop is one step of the guarded reader |
| GuardedStream.ReadStream | crates/openhttpa-server/src/extractors.rs:439-498 | the loop over a session delivers what the guarded reader does and leaves its replay state |
| ServerFrames.LookStable | crates/openhttpa-server/src/extractors.rs:536-557 | later bytes change neither a complete frame nor a refusal |
| ServerFrames.LimitedIsPrefix | crates/openhttpa-server/src/extractors.rs:532-571 | the frames read are those of the unlimited parse up to the first one over 16 MB |
| ServerFrames.FittingAreRead | crates/openhttpa-server/src/extractors.rs:532-571 | encoded frames that fit are all read back |
| ServerFrames.ServerFrameReader.NextFrame | crates/openhttpa-server/src/extractors.rs:532-571 | the first frame of buffered plus coming bytes, a refusal that consumes nothing, the end, an incomplete frame or the transport's error |
| ServerFrames.PollRefused | crates/openhttpa-server/src/extractors.rs:540-544 | a refused frame is refused at every further poll |
| ServerFrames.ReadOn | crates/openhttpa-server/src/extractors.rs:532-571 | for every chunking, and past transport errors, the frames of the one-shot limited parse |
| ServerFrames.ReadBody | crates/openhttpa-server/src/extractors.rs:428-500 | from the bytes of the body to the chunks the handler gets |
| Frames.TakeFrameSound | crates/openhttpa-client/src/client.rs:1040-1061 | a frame taken from the buffer is a valid frame, and buffer = its encoding + rest |
| Frames.TakeFrameComplete | crates/openhttpa-client/src/client.rs:1040-1061 | an encoded frame at the front is taken, whatever follows |
| Frames.TakeFrameStable | crates/openhttpa-client/src/client.rs:1040-1064 | more bytes never change a frame that is already complete |
| Frames.SplitSound | crates/openhttpa-client/src/client.rs:1036-1076 | a parsed stream is the encoding of its frames plus an incomplete rest |
| Frames.SplitUnique | crates/openhttpa-client/src/client.rs:641-648 | and that decomposition is unique, so parsing inverts encoding |
| Frames.StreamFrameReader.NextFrame | crates/openhttpa-client/src/client.rs:1036-1076 | returns the first frame of buffered plus coming bytes, the end, an incomplete frame or the transport's error, and leaves exactly the rest |
| Frames.ReadAll | crates/openhttpa-client/src/client.rs:1036-1076 | repeated reading yields the frames of a one-shot parse for every chunking, and ends cleanly iff no bytes are left over |
| Frames.ReadOn | crates/openhttpa-client/src/client.rs:686-697 | polled past transport errors the reader yields the frames of all bytes, and every error, in order |
| Frames.RoundTrip | crates/openhttpa-client/src/client.rs:641-648 | frames encoded and cut into chunks in any way are read back |
| AeadNonce.XorBitsTwice | crates/openhttpa-crypto/src/nonce.rs:204-212 | XORing twice with the same value is the identity |
| AeadNonce.XorBitsAt | crates/openhttpa-crypto/src/nonce.rs:204-212 | each bit of the result is set iff the operands differ in that bit |
| AeadNonce.NonceBits | crates/openhttpa-crypto/src/nonce.rs:198-212 | the same for every bit of every byte of the nonce |
| AeadNonce.NonceOfZero | crates/openhttpa-crypto/src/nonce.rs:198-212 | counter 0 gives the IV |
| AeadNonce.NonceUnderZero | crates/openhttpa-crypto/src/nonce.rs:198-212 | under the zero IV the nonce is four zeros and the big-endian counter |
| Bytes.BigEndianAt | crates/openhttpa-crypto/src/nonce.rs:204-212 | byte i of the encoding is the digit of weight 256^(k-1-i) |
| AeadNonce.BuildAeadNonce | crates/openhttpa-crypto/src/nonce.rs:204-212 | the loop leaves the first four IV bytes and XORs the big-endian counter into the last eight, in place |
| AeadNonce.NonceInjective | crates/openhttpa-crypto/src/nonce.rs:198-212 | under one IV the nonce determines the 64-bit counter |
| StreamChannel.SealStream | crates/openhttpa-server/src/extractors.rs:112-178 | the server's sealing closure puts the specified frames on the wire |
| StreamChannel.OpenStream | crates/openhttpa-client/src/client.rs:686-745 | the opening closure, polled past transport errors, delivers what the receiver machine does on the frames of all bytes |
| StreamChannel.ChainsDistinct | crates/openhttpa-client/src/client.rs:635-639 | without collisions among the sender's inputs the running hash never repeats |
| StreamChannel.HashTellsStep | crates/openhttpa-client/src/client.rs:628-639 | what is sealed under the running hash of a step is the ciphertext of that step |
| StreamChannel.OpensIffNext | crates/openhttpa-client/src/client.rs:716-731 | after k deliveries a frame opens iff it is the sender's frame k |
| StreamChannel.MatchedIsLongest | crates/openhttpa-client/src/client.rs:686-745 | the match count is the length of the longest sent prefix embedded in the received frames |
| StreamChannel.ReceiverMatches | crates/openhttpa-client/src/client.rs:686-745 | the receiver is always in step with that prefix |
| StreamChannel.StreamIntegrity | crates/openhttpa-client/src/client.rs:686-745 | for every received sequence, exactly that prefix is delivered and accepted |
| StreamChannel.NothingLost | crates/openhttpa-client/src/client.rs:686-745 | if all sent frames arrive in order, with anything in between, everything is delivered |
| StreamChannel.OpenHostile | crates/openhttpa-client/src/client.rs:686-745 | the same from the bytes and errors of an arbitrary transport |
| StreamChannel.Transfer | crates/openhttpa-server/src/extractors.rs:112-178 | from the server's own bytes, chunked in any way, all chunks and then the end |
| IdealChannel.IdealChannelExists | crates/openhttpa-client/src/client.rs:571-650 | for every stream, and any single messages sealed under the same key, there is a channel that meets the assumptions and opens the messages too |
| StreamFamily.ChainTells | crates/openhttpa-client/src/client.rs:686-745 | over all streams of a key the running hash determines step and stream |
| StreamFamily.FamilyIntegrity | crates/openhttpa-client/src/client.rs:686-745 | with several streams under one key the receiver delivers, of the stream whose first frame comes first, the longest prefix in order, and nothing of the others |
| StreamFamily.OneStreamDelivered | crates/openhttpa-client/src/client.rs:686-745 | so what it delivers is a prefix of one stream |
| StreamFamily.OldStreamReplays | crates/openhttpa-client/src/client.rs:699-711 | the frames of any earlier stream of the key are delivered whole to a new receiver |
| StreamFamily.FamilyExists | crates/openhttpa-client/src/client.rs:686-745 | the assumptions can be met for any number of streams |
| Transcript.TrailerBytes | crates/openhttpa-core/src/handshake.rs:628-629 | the last three bytes of the preimage for every suite and version |
| Transcript.PreimageInjective | crates/openhttpa-core/src/handshake.rs:603-636 | the transcript bytes determine all eight fields, suite and version |
| Transcript.BindingInjective | crates/openhttpa-core/src/handshake.rs:660-673 | the client binding determines everything the client contributed |
| Transcript.BindingIsProperPrefix | crates/openhttpa-core/src/handshake.rs:660-673 | the binding is a proper prefix of the transcript |
| Transcript.RolesSeparated | crates/openhttpa-core/src/handshake.rs:484-501 | quotes of the two roles are never made over the same bytes |
| Transcript.Hasher.UpdateField | crates/openhttpa-core/src/handshake.rs:611-626 | hashing a length and a field extends the canonical encoding by that field |
| KeyExchange.CombinerIkmInjective | crates/openhttpa-crypto/src/key_exchange.rs:405-444 | with 32-byte secrets the key material determines both secrets and all public values |
| KeyExchange.SecretsNeedFixedSize | crates/openhttpa-crypto/src/key_exchange.rs:405-444 | without the fixed size it would not |
| KeyExchange.EncodeLengthed | crates/openhttpa-crypto/src/key_exchange.rs:381-403 | appends a field with a 16-bit length, or panics exactly when it does not fit |
| KeyExchange.Combine | crates/openhttpa-crypto/src/key_exchange.rs:405-461 | builds the specified key material, or fails exactly when a field is too long |
| KeyExchange.FitIffShort | crates/openhttpa-crypto/src/key_exchange.rs:381-403 | the combiner accepts its fields iff each public value is below 2^16 bytes |
| KeyExchange.ServerCombineIff | crates/openhttpa-crypto/src/key_exchange.rs:269-295 | the server side succeeds iff agreement and encapsulation do and no public value is too long; the secret and ciphertext it then gives |
| KeyExchange.ClientCombineIff | crates/openhttpa-crypto/src/key_exchange.rs:297-347 | the client side succeeds iff agreement and decapsulation do and no public value is too long; the secret it then gives |
| KeyExchange.SecretsAgree | crates/openhttpa-crypto/src/key_exchange.rs:269-347 | if the server's side succeeds on an honest share, the client's side gets the same secret |
| KeyExchange.SecretDeterminesInputs | crates/openhttpa-crypto/src/key_exchange.rs:405-461 | equal combined secrets mean equal component secrets and public values, or a named collision of the combiner |
| KeySchedule.MakeInfo | crates/openhttpa-crypto/src/hkdf.rs:212-220 | the appended pieces are prefix, label, zero byte and binding |
| KeySchedule.ZeroTerminated | crates/openhttpa-crypto/src/hkdf.rs:212-220 | a label can be read off in front of the zero byte |
| KeySchedule.SamePrefix | crates/openhttpa-crypto/src/hkdf.rs:284-292 | 1-RTT and 0-RTT info strings are never equal |
| KeySchedule.InfoInjective | crates/openhttpa-crypto/src/hkdf.rs:212-315 | an info string determines slot, kind of handshake and transcript hash or salt |
| KeySchedule.KeyDeterminesOrigin | crates/openhttpa-crypto/src/hkdf.rs:198-315 | equal keys come from equal secret, handshake and slot, or expansion collided, or extraction of two secrets under one salt did, on the named inputs |
| KeySchedule.DeriveKeys | crates/openhttpa-crypto/src/hkdf.rs:198-259 | the calls of derive, with their labels and lengths, give the specified key in every slot |
| KeySchedule.DeriveZeroRtt | crates/openhttpa-crypto/src/hkdf.rs:278-335 | so do those of derive_0rtt, with the salt in both places |
| KeySchedule.ExpandSecrets | crates/openhttpa-crypto/src/hkdf.rs:221-225 | the two 48-byte secrets |
| KeySchedule.ExpandClient | crates/openhttpa-crypto/src/hkdf.rs:226-240 | the client write key, IV and MAC key |
| KeySchedule.ExpandServer | crates/openhttpa-crypto/src/hkdf.rs:229-243 | the server write key, IV and MAC key |
| Handshake.FirstInIsPreferred | crates/openhttpa-core/src/handshake.rs:416-441 | the negotiated value is the first common one, and there is none iff the lists are disjoint |
| Handshake.Negotiation | crates/openhttpa-core/src/handshake.rs:404-457 | the suite is the server's first choice among the offered, the version the client's first among the supported; each overlap error iff nothing is common |
| Handshake.ServerDoneIff | crates/openhttpa-core/src/handshake.rs:404-502 | the server completes iff suites and versions overlap and the key exchange is possible; KeyExchangeFailed iff both overlap and it is not; the response and the keys of a completed one |
| Handshake.DefaultChoice | crates/openhttpa-core/src/handshake.rs:243-268 | what a server with empty lists negotiates for any request |
| Handshake.DefaultsServe | crates/openhttpa-core/src/handshake.rs:243-268 | such a server completes with every client whose key exchange is possible |
| Handshake.OnlyOffered | crates/openhttpa-core/src/handshake.rs:416-421 | a client that offers one suite can only get that one |
| Handshake.ComputeTranscriptHash | crates/openhttpa-core/src/handshake.rs:603-636 | the server hashes the canonical preimage of its view |
| Handshake.ExpectedClientReport | crates/openhttpa-core/src/handshake.rs:659-679 | the report data expected of the client |
| Handshake.Pad48 | crates/openhttpa-client/src/client.rs:223-228 | the padded challenge agrees with the challenge on its first 48 bytes and is zero after its end |
| Handshake.ReadRandom | crates/openhttpa-client/src/client.rs:210-213 | the first 32 bytes of the server random, or 32 zeros if it is shorter |
| Handshake.PadChallenge | crates/openhttpa-client/src/client.rs:223-228 | the challenge cut off or zero-padded to 48 bytes |
| Handshake.ClientTranscriptHash | crates/openhttpa-client/src/client.rs:210-262 | the client hashes the canonical preimage of its view |
| Handshake.HashClientSide | crates/openhttpa-client/src/client.rs:215-262 | the ten updates of the client's hasher make that preimage |
| Handshake.ClientQuoteReport | crates/openhttpa-client/src/client.rs:373-403 | the client's report data is the digest over its padded binding |
| Handshake.ClientDoneIff | crates/openhttpa-client/src/client.rs:272-283 | the client completes iff agreement and decapsulation succeed and no public value is too long; the keys it then has |
| Handshake.Agreement | crates/openhttpa-core/src/handshake.rs:404-502 | server done and response unchanged: same hash, all nine key slots, both report data, suite and version |
| Handshake.HashBindsView | crates/openhttpa-core/src/handshake.rs:603-636 | equal transcript hashes mean equal views, or a named SHA-384 collision |
| Handshake.KeyDeterminesView | crates/openhttpa-core/src/handshake.rs:465-478 | one equal key means same slot, secret and view, or a named collision |
| Handshake.EqualKeyMeansEqualViews | crates/openhttpa-client/src/client.rs:210-283 | the same for client against server, whatever happened to the messages |
| Handshake.EqualKeyMeansEqualInputs | crates/openhttpa-client/src/client.rs:272-283 | and then both put the same component secrets and public values into the combiner, or a named collision |
| Handshake.QuoteBindsTranscript | crates/openhttpa-client/src/client.rs:479-486 | a server quote fits one transcript only, or a named collision |
| Handshake.RolesDoNotMix | crates/openhttpa-core/src/handshake.rs:674-679 | a client quote passing for a server quote is a named SHA-512 collision |
| EndToEnd.ChannelsAgree | crates/openhttpa-client/src/client.rs:272-293 | after the handshake both sides hold the same keys, with a 12-byte IV |
| EndToEnd.KeySizes | crates/openhttpa-crypto/src/hkdf.rs:198-259 | every completed handshake gives secrets of 48, keys of 32 and IVs of 12 bytes |
| EndToEnd.HandshakeThenStream | crates/openhttpa-client/src/client.rs:686-745 | after a completed handshake the client's own channel delivers the longest in-order prefix of what the server sealed, and all of it if all arrived |
| EndToEnd.RunExists | crates/openhttpa-client/src/client.rs:272-293 | for every such stream, with any single responses under the same key, there is a handshake run that meets all assumptions |
| NonceSequence.InvAlways | crates/openhttpa-crypto/src/aead.rs:214-235 | in every schedule the issued counts are consecutive from the start value |
| NonceSequence.NoncesDistinct | crates/openhttpa-crypto/src/aead.rs:214-235 | no two issued nonces under one IV are equal, for any threads and schedule |
| NonceSequence.ExhaustedForever | crates/openhttpa-crypto/src/aead.rs:214-235 | at the maximum every later call fails and nothing more is issued |
| NonceSequence.CallIssuesIff | crates/openhttpa-crypto/src/aead.rs:214-235 | after any run an undisturbed call is issued the next count iff the maximum is not reached, else reports an overflow |
| NonceSequence.FailedExchangeWasIssued | crates/openhttpa-crypto/src/aead.rs:214-235 | an exchange fails only because its value was issued: some call always progresses |
| NonceManager.CommittedIncrease | crates/openhttpa-crypto/src/nonce.rs:174-196 | accepted nonces strictly increase in commit order, for any interleaving |
| NonceManager.ReplayAfterCrashIff | crates/openhttpa-core/src/session/mod.rs:23-34 | after a crash a nonce is accepted, again or for the first time, iff it is above the saved value |
| NonceManager.ReissuedAfterCrashIff | crates/openhttpa-crypto/src/nonce.rs:144-166 | after a crash a send nonce is issued, again or for the first time, iff it is not below the saved value |
| NonceManager.StepKeepsDurable | crates/openhttpa-crypto/src/nonce.rs:157-196 | a step that lowers neither saved half keeps what was returned covered |
| NonceManager.DurableWhenOrderly | crates/openhttpa-crypto/src/nonce.rs:157-196 | if no save lowers either half and sends do not overflow, then over all runs with any callers and crashes an accepted nonce stays refused and a sent one is not issued again |
| NonceManager.SequentialIsOrderly | crates/openhttpa-crypto/src/nonce.rs:157-196 | calls made one at a time never lower either half |
| NonceManager.LateSendReplays | crates/openhttpa-crypto/src/nonce.rs:162-164 | a schedule of one sender and one receiver after which an accepted nonce is accepted again |
| NonceManager.LateReceiveRepeats | crates/openhttpa-crypto/src/nonce.rs:190-192 | and one after which a sent nonce is issued again |
| NonceManager.SendRepeatsAfter | crates/openhttpa-crypto/src/nonce.rs:157-166 | two calls that see the same value are at least 2^64 calls apart |
| NonceManager.SendNoncesDistinctIff | crates/openhttpa-crypto/src/nonce.rs:157-166 | returned send nonces are pairwise different iff there were at most 2^64 calls |
| NonceManager.SendCounter | crates/openhttpa-crypto/src/nonce.rs:157-166 | in every run without a restart the counter is the start plus the number of calls, wrapped |
| NonceManager.SendTakes | crates/openhttpa-crypto/src/nonce.rs:157-166 | and the next call takes that value, or fails at the maximum |
| FileNonce.TornNotBelow | crates/openhttpa-crypto/src/aead.rs:274-279 | a big-endian increment torn after any byte never leaves a smaller value |
| FileNonce.OverwriteNotBelow | crates/openhttpa-crypto/src/aead.rs:264-279 | the same for the file, short files included |
| FileNonce.StepKeepsInv | crates/openhttpa-crypto/src/aead.rs:282-321 | each step of mutex, lock, read, write, torn write, unlock, return or crash keeps the invariant |
| FileNonce.InvAlways | crates/openhttpa-crypto/src/aead.rs:282-321 | so it holds in every history |
| FileNonce.CountsNeverRepeat | crates/openhttpa-crypto/src/aead.rs:282-321 | no count is granted or returned twice, and they are granted in increasing order |
| FileNonce.SequenceIncreases | crates/openhttpa-crypto/src/aead.rs:282-321 | the counts returned by one sequence strictly increase in every history |
| FileNonce.ReturnsCanOvertake | crates/openhttpa-crypto/src/aead.rs:313-320 | two sequences over one file can return their counts in the wrong order |
| FileNonce.InOrderIff | crates/openhttpa-crypto/src/aead.rs:282-321 | all histories return in increasing order iff all callers share one sequence or fewer than two counts are left |
| FileNonce.OneCall | crates/openhttpa-crypto/src/aead.rs:282-321 | an undisturbed call takes the file's value and leaves the next one |
| FileNonce.FirstCall | crates/openhttpa-crypto/src/aead.rs:282-321 | over a file that is too short the first count is 1 |
| PskStore.PskStore.StorePsk | crates/openhttpa-core/src/state.rs:191-228 | expired tickets go, then the earliest-expiring until there is room, then the ticket is added; false iff capacity 0; never over capacity |
| PskStore.PskStore.TakePsk | crates/openhttpa-core/src/state.rs:233-244 | the ticket is gone afterwards, and its PSK is returned iff it has not expired |
| PskStore.PskStore.PurgeExpired | crates/openhttpa-core/src/state.rs:247-257 | a ticket remains, unchanged, iff it was there and expires after now |
| PskStore.EarliestExists | crates/openhttpa-core/src/state.rs:199-209 | a non-empty store has an earliest-expiring ticket, so the eviction loop makes progress |
| PskStore.EntryIsLatest | crates/openhttpa-core/src/state.rs:191-257 | in every run a ticket present is the latest store of its id, not taken since |
| PskStore.TakeSound | crates/openhttpa-core/src/state.rs:233-244 | a take succeeds only with the latest stored PSK, before its expiry, and at most once |
| PskStore.NeverOverCapacity | crates/openhttpa-core/src/state.rs:191-228 | in every run the size is at most the capacity |
| PskStore.EvictedHasRivals | crates/openhttpa-core/src/state.rs:199-209 | an evicted ticket leaves capacity - 1 others behind that expire no earlier |
| PskStore.SurelyKeptIff | crates/openhttpa-core/src/state.rs:199-209 | every eviction the code can make keeps a ticket iff there is room or fewer than capacity - 1 others expire no earlier |
| PskStore.SurvivesStore | crates/openhttpa-core/src/state.rs:191-228 | one store adds at most one such rival, and evicts no ticket with fewer than capacity - 1 |
| PskStore.SurvivesCompetition | crates/openhttpa-core/src/state.rs:191-228 | whatever the clock does, a ticket stays while fewer stores than the capacity were made since or at its own instant |
| PskStore.SurvivesUntilCapacity | crates/openhttpa-core/src/state.rs:191-228 | with a moving clock it stays until capacity-many later stores |
| PskStore.TakeComplete | crates/openhttpa-core/src/state.rs:233-244 | so a take within that time returns the PSK stored last |
| PskStore.NewerCanBeLost | crates/openhttpa-core/src/state.rs:199-209 | a run in which, of two tickets stored at the same instant, the newer one is lost after one store |
| Convergence.CheckDominates | crates/openhttpa-fabric/src/store.rs:242-250 | the loop with early exit finds dominance iff the update gives no node a larger count |
| Convergence.DominatesIff | crates/openhttpa-fabric/src/store.rs:242-250 | dominance is the absence of a node with a larger count, where a missing node counts as 0 |
| Convergence.DeliverIff | crates/openhttpa-fabric/src/store.rs:242-291 | a delivered update is stored iff it gives some node a larger count |
| Convergence.GoesBackIff | crates/openhttpa-fabric/src/store.rs:242-291 | a delivery lowers some stored count iff each version gives some node a larger count than the other |
| Convergence.DominatesTransitive | crates/openhttpa-fabric/src/store.rs:242-250 | dominance is transitive |
| Convergence.GreatestWins | crates/openhttpa-fabric/src/store.rs:242-291 | a greatest update, delivered anywhere in any order, is what remains |
| Convergence.ConvergesIff | crates/openhttpa-fabric/src/store.rs:242-291 | every delivery order with repetitions ends with the same entry iff it is the unique greatest |
| Convergence.ComparableHasGreatest | crates/openhttpa-fabric/src/store.rs:242-291 | pairwise comparable updates have one, so they converge |
| Convergence.NeverGoesBack | crates/openhttpa-fabric/src/store.rs:242-291 | among comparable updates no node's stored count decreases |
| KvStore.EntryInfoInjective | crates/openhttpa-fabric/src/store.rs:102-131 | the info string determines namespace and key for lengths below 2^32 |
| KvStore.EntryInfoWraps | crates/openhttpa-fabric/src/store.rs:102-131 | beyond that the length cast makes different entries share one |
| KvStore.OpensOnlyInPlace | crates/openhttpa-fabric/src/store.rs:151-202 | a sealed entry opens under its own master key, namespace and key, and no other |
| KvStore.LexIff | crates/openhttpa-fabric/src/store.rs:256-263 | keys are ordered by prefix or by the smaller byte at the first difference |
| KvStore.SmallestUnique | crates/openhttpa-fabric/src/store.rs:256-263 | eviction is deterministic |
| KvStore.EvictIfFull | crates/openhttpa-fabric/src/store.rs:256-263 | a full namespace loses its smallest key, another one nothing |
| KvStore.PutInto | crates/openhttpa-fabric/src/store.rs:242-291 | one put on a namespace, with every early return, is a step of the specification |
| KvStore.PutIff | crates/openhttpa-fabric/src/store.rs:230-292 | a put is accepted iff sealing works and the key is new or some count is larger; a get then returns its data; one without a larger count changes nothing |
| KvStore.KvStore.Put | crates/openhttpa-fabric/src/store.rs:230-292 | accepted and readable, or refused, exactly as the counts say; no other namespace changes, and 1000 entries are never exceeded |
| KvStore.KvStore.Get | crates/openhttpa-fabric/src/store.rs:217-228 | the data, or nothing if entry or enclave key is missing |
| KvStore.KvStore.Delete | crates/openhttpa-fabric/src/store.rs:294-299 | removes the key from its namespace and changes nothing else |
| KvStore.PutKeepsBound | crates/openhttpa-fabric/src/store.rs:256-291 | a namespace within 1000 entries stays within them |
| KvStore.PutFrame | crates/openhttpa-fabric/src/store.rs:230-292 | the only other key a put can lose is the smallest of a full namespace, also when it fails |
| KvStore.GetAfterPut | crates/openhttpa-fabric/src/store.rs:217-292 | a get right after an accepted put returns the data |
| KvStore.PutDelivers | crates/openhttpa-fabric/src/store.rs:242-291 | with room and a working enclave a put is a delivery |
| KvStore.Replicate | crates/openhttpa-fabric/src/store.rs:230-292 | a store sent the updates of a key in any order holds what delivery leaves |
| PolicyCache.AllowedIff | crates/openhttpa-fabric/src/policy.rs:143-212 | the decision as three independent conditions on keywords, namespace and debug mode, with the words it looks for |
| PolicyCache.ConfusedIff | crates/openhttpa-fabric/src/policy.rs:261 | two namespaces can share a cache key iff one continues the other after a colon |
| PolicyCache.KeyIdentifiesQuestion | crates/openhttpa-fabric/src/policy.rs:261 | over unambiguous namespaces the key identifies debug flag, namespace and action |
| PolicyCache.ColonFreeIsUnambiguous | crates/openhttpa-fabric/src/policy.rs:261 | names without colons are unambiguous |
| PolicyCache.RunIsCoherent | crates/openhttpa-fabric/src/policy.rs:259-288 | if equal keys are decided alike, every answer cached in any run is the decision for every request with that key |
| PolicyCache.TransparentIff | crates/openhttpa-fabric/src/policy.rs:250-289 | every answer of every run equals a fresh decision iff requests with equal keys are decided alike |
| PolicyCache.TransparentWhenUnambiguous | crates/openhttpa-fabric/src/policy.rs:250-289 | so the cache is transparent over unambiguous namespaces, whatever is evicted |
| PolicyCache.TransparentForAllIff | crates/openhttpa-fabric/src/policy.rs:250-289 | the cache is transparent under all configurations iff no namespace continues another after a colon |
| PolicyCache.ColonBreaksTransparency | crates/openhttpa-fabric/src/policy.rs:261 | two namespaces that the cache confuses, for any lower-casing that keeps a trailing word |
| CacheRecency.PutFrontIff | crates/openhttpa-fabric/src/policy.rs:259-288 | storing or refreshing a key keeps another one iff fewer than the capacity are then in front of it |
| CacheRecency.KeptWhileRecent | crates/openhttpa-fabric/src/policy.rs:217-288 | in every run an answer stored or found is still cached while fewer other keys than the capacity are used after it |
| CacheRecency.DroppedWhenOld | crates/openhttpa-fabric/src/policy.rs:217-288 | and is gone once that many other keys were stored and it was not asked for |
| PolicyCache.AiqlPolicyEngine.IsAuthorized | crates/openhttpa-fabric/src/policy.rs:250-289 | the answer from cache or decision, the cache after a hit and after a miss, and the fresh decision over unambiguous namespaces |
| RateLimit.RateLimitState.CheckAndRecord | crates/openhttpa-server/src/rate_limit.rs:101-146 | the client's entry changes as specified, shared by its /64 network; no other client's does |
| RateLimit.NormalizeIff | crates/openhttpa-server/src/rate_limit.rs:134-146 | two addresses share an entry iff they are equal or of one version 6 network |
| RateLimit.PruneIsTail | crates/openhttpa-server/src/rate_limit.rs:112-114 | on ordered timestamps pruning keeps exactly the tail from the cutoff on |
| RateLimit.AdmitIff | crates/openhttpa-server/src/rate_limit.rs:108-121 | a request is let through iff the accepted history leaves room in the window |
| RateLimit.RunIsLimited | crates/openhttpa-server/src/rate_limit.rs:101-121 | in every run any max + 1 accepted requests span more than the window |
| RateLimit.EarlyBurstBreaksLimit | crates/openhttpa-server/src/rate_limit.rs:110 | while the clock is younger than the window a burst and one request more get through |
| RateLimit.LimitHoldsIff | crates/openhttpa-server/src/rate_limit.rs:101-121 | the limit holds in all runs iff it is 0 or the clock is at most one tick short of a window at the first request |
| AiqlParser.ParsePrimitive | crates/openhttpa-aiql/src/parser.rs:32-55 | a parsed primitive is well formed and consumes input |
| AiqlParser.ParseCondition | crates/openhttpa-aiql/src/parser.rs:57-68 | a parsed condition is well formed and consumes input, so the recursion ends |
| AiqlParser.ParseAnd | crates/openhttpa-aiql/src/parser.rs:70-84 | the same for the AND level |
| AiqlParser.ParseUnit | crates/openhttpa-aiql/src/parser.rs:86-96 | the same for primitives and parentheses |
| AiqlParser.ParseDsl | crates/openhttpa-aiql/src/parser.rs:18-21 | what is parsed is well formed |
| AiqlGrammar.PrimSound | crates/openhttpa-aiql/src/parser.rs:32-55 | a parsed primitive was written as field, operator and quoted value with any blanks and tabs between |
| AiqlGrammar.UnitSound | crates/openhttpa-aiql/src/parser.rs:86-96 | a parsed operand of AND was written as a primitive or in parentheses |
| AiqlGrammar.AndSound | crates/openhttpa-aiql/src/parser.rs:70-84 | a parsed operand of OR was written as a chain of such operands that goes on as far as it can |
| AiqlGrammar.ConditionSound | crates/openhttpa-aiql/src/parser.rs:57-68 | the same for a whole condition |
| AiqlGrammar.PrimTrip | crates/openhttpa-aiql/src/parser.rs:32-55 | a primitive is read back from every layout, with its end found |
| AiqlGrammar.UnitTrip | crates/openhttpa-aiql/src/parser.rs:86-96 | so is an operand of AND, in any number of parentheses |
| AiqlGrammar.AndTrip | crates/openhttpa-aiql/src/parser.rs:70-84 | so is an operand of OR |
| AiqlGrammar.ConditionTrip | crates/openhttpa-aiql/src/parser.rs:57-68 | so is any condition, in front of any text that does not go on with AND or OR |
| AiqlGrammar.ParsesIff | crates/openhttpa-aiql/src/parser.rs:57-96 | the parser gives a tree and a rest iff the text is a layout of that tree followed by that rest, and does not go on |
| AiqlGrammar.DslIff | crates/openhttpa-aiql/src/parser.rs:18-21 | parse_dsl gives a tree iff the text, after blanks, starts with a layout of that tree that does not go on |
| AiqlGrammar.LayoutTrip | crates/openhttpa-aiql/src/parser.rs:18-96 | for every tree and every layout of it, with any blanks, tabs and extra parentheses, parse_dsl of the text is that tree |
| AiqlPrinter.ParseInvertsPrint | crates/openhttpa-aiql/src/parser.rs:18-96 | parse_dsl of the canonical text of a well-formed tree is that tree |
| AiqlPrinter.Expressible | crates/openhttpa-aiql/src/parser.rs:18-96 | a tree is well formed iff some text parses to it |
| AiqlPrinter.PrintInjective | crates/openhttpa-aiql/src/parser.rs:18-96 | different trees have different texts |
| AiqlPrinter.TightAndWrapped | crates/openhttpa-aiql/src/parser.rs:32-96 | a comparison is read without any blank, and in parentheses |
| AiqlEngine.FieldResolves | crates/openhttpa-aiql/src/lib.rs:66-74 | four fields are known, every other one is reported by name |
| Texts.IncludesIff | crates/openhttpa-aiql/src/lib.rs:86-91 | containment: the part occurs at some place of the text |
| AiqlEngine.EvaluateReports | crates/openhttpa-aiql/src/lib.rs:84-110 | evaluation fails with a field iff the condition reports it: the first unknown field that short-circuit order reaches |
| AiqlEngine.EvaluateMeans | crates/openhttpa-aiql/src/lib.rs:84-110 | an evaluation that succeeds gives the boolean meaning |
| AiqlEngine.EvaluateIff | crates/openhttpa-aiql/src/lib.rs:84-110 | the exact result of every evaluation: the reported field, or the boolean meaning if none is reported |
| AiqlEngine.EvaluateIsHolds | crates/openhttpa-aiql/src/lib.rs:84-110 | with known fields short-circuit evaluation is boolean semantics |
| AiqlEngine.FlattenPreserves | crates/openhttpa-aiql/src/lib.rs:84-110 | flattening And in And and Or in Or changes no result and no error |
| AiqlEngine.AiqlEngine.LoadPolicy | crates/openhttpa-aiql/src/lib.rs:140-142 | policies are kept in load order |
| AiqlEngine.AiqlEngine.EvaluatePayload | crates/openhttpa-aiql/src/lib.rs:153-183 | the first policy that reports an unknown field or matches without allowing decides, by that field or its action; else Allow if any matched, else the default |
| AiqlEngine.OutcomeUnique | crates/openhttpa-aiql/src/lib.rs:153-183 | that rule determines the outcome |
| AiqlEngine.AllowNeverOverrides | crates/openhttpa-aiql/src/lib.rs:153-183 | an inserted error-free Allow policy never changes a Deny, Quarantine or error |
| AiqlEngine.FlattenedPolicyDecidesSame | crates/openhttpa-aiql/src/lib.rs:84-183 | a flattened policy behaves as the original in the engine |
| QuotePolicy.SortByKeyCorrect | crates/openhttpa-core/src/handshake.rs:285-294 | the setup sorts, keeping the set of types |
| QuotePolicy.RequiredIsASet | crates/openhttpa-core/src/handshake.rs:285-294 | sort and dedup leave every requested type exactly once |
| QuotePolicy.CheckRequired | crates/openhttpa-core/src/handshake.rs:303-336 | passes iff nothing is required or each required type is given exactly once and no other; otherwise the first fault in order is named |
| QuotePolicy.PassIsPermutation | crates/openhttpa-core/src/handshake.rs:285-336 | passing a non-empty requirement means being a permutation of the requested set |

## Left out

- SHA-2, HKDF, AES-GCM, X25519 and ML-KEM: parameters, with Diffie-Hellman commuting, decapsulation undoing encapsulation and, for the streams of a key, ciphertext integrity and no hash collision among the senders' own inputs; no claim about secrecy or strength.
- StreamFamily.FamilyIntegrity: takes streams that begin with different ciphertexts.
- StreamFamily.FamilyExists: shown for streams of one chunk each.
- GuardedStream.ReadStream: takes a live session in a phase that allows requests and fewer than 2^64 commits; expiry, phase and overflow are in the session's own contract. RequestStream.SealRequest and ServerFrames.ReadBody likewise.
- RequestStream.SealRequest: sealing and the random generator do not fail, and the body yields no errors.
- The panic on a ciphertext of 4 GB or more while framing.
- Attestation verifiers, quote generation, policy and revocation checks of `execute_server`, the ML-DSA server signature, and the HTTP header encodings of the handshake messages.
- Handshake.Agreement: takes the padded challenge as what the server received, since the header codec is not modelled.
- NonceManager.DurableWhenOrderly: a save is one step; the temporary file that concurrent saves share is not modelled.
- FileNonce.SequenceIncreases: a call returns when it gives its mutex back; a poisoned mutex only makes calls fail.
- Write failures of the file counter other than a torn prefix of the eight bytes.
- ReplayGuard.AnswerAll: the mutex around the guard is not modelled; each call is one step.
- The provenance chain of a stored entry, which no operation of the store inspects.
- KvStore.OpensOnlyInPlace: AES-GCM and HKDF are free symbols here, so equal keys mean equal derivations.
- The vector store, the RocksDB store, snapshots and the distillation loop.
- Convergence.ConvergesIff: one key, without eviction, deletion or a failing enclave in between.
- PolicyCache.TransparentForAllIff: `to_lowercase` is a parameter that keeps a trailing "write" in the text.
- Metrics, log lines and the confidence values of the policy engine.
- RateLimit.RateLimitState.CheckAndRecord: one call at a time per client, with the time as an argument; the background cleanup task is not modelled.
- AiqlParser.ParseDsl: ignores text after the parsed condition, as the source does; `char::is_alphanumeric` is a parameter that rejects blank, tab, parenthesis and equals sign, and JSON policies are not modelled.
- The winnow error values: a failed parse is None.
- `ProtocolPhase::transition`, session export and import, the session registry, and everything outside these crates (bindings, ingress, gRPC, MCP, browser extension): plumbing or easy members.
