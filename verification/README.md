# Liminal Thread Protocol: a verified model

This project models the stateful cores of the Liminal Thread Protocol repository in Dafny and
proves what their documentation promises.

| module (file) | what it models |
|---|---|
| `Json`, `JsonText`, `KeyOrders`, `Texts` | JSON values, the recursive key-sorting canonicalisation of the Rust node and of the JavaScript tools, the compact text they print with a reader for it, and the two key orders |
| `TraceLog` | the hash-chained audit log: the writer, recovery after a restart, the Rust verifier and the TypeScript inspector |
| `Nonces` | the JavaScript client's nonce formats, its cache, expiry, and replay |
| `Channel` | the client's secured channel: the signed text, metadata encryption, one send and one receive |
| `ChannelRuns` | whole runs of the channel: arrivals in any order, handshakes, lost links, cleanups |
| `RateLimit` | token buckets and the per-address limiter table with eviction |
| `Sessions` | the node's session table and its idle sweep, one call at a time |
| `Admission`, `IdleSweep` | session creation, capacity check, gauge, disconnect and sweep as interleaved steps of one machine |
| `SessionRuns` | how the calls of `Sessions` and the steps of `Admission` correspond |
| `Frames`, `ConformanceKit`, `ConformanceServer` | the frame schema and the two conformance checkers |
| `Protocol` | protocol 0.1 over raw frames, by field and type names alone, which the checkers are measured against |
| `StableSort`, `Branches` | stable sorting, and the deterministic branch order of the trace inspector |
| `TimeWeave`, `ThreadLife` | the time weave with its momentum scores, and the life cycle of threads |

How the model is set up:

- SHA-256, HMAC, AES-GCM, serde's line codec, `JSON.parse`, `String(...)` and `localeCompare` are
  parameters. What a theorem needs of them is a precondition of that theorem, and it speaks only of
  what occurs in the run: the entries written, the metadata records sent, the texts hashed. Only the
  shape of digests (64 hexadecimal characters) is asked for in general.
- Text is UTF-8 with one `char` per byte. Clock readings, randomness and the outcome of a file
  write are parameters of the operations. Times and scores are exact integers or reals.
- Objects whose fields change are classes (`TraceLogger`, `NonceCache`, `LtpClient`, `TokenBucket`,
  `IpLimiters`, `LtpNodeState`); each method is tied to a function of the old state, and the
  theorems speak of all runs of these functions. Tasks that run concurrently are one state machine
  (`Admission`) whose runs are all sequences of events; `SessionRuns` shows that its steps, left
  uninterrupted, do what the methods of `LtpNodeState` promise.

Where the code does less than one might expect, the model follows the code and the exact condition
is proved:

- The JavaScript canonicalisers lose every member `__proto__`, at any depth, so such a member can be
  added to a signed payload without breaking signature, chain or any other check
  (`Channel.ForgedPayload`, `ChannelRuns.ForgedPayloadAccepted`). The signed text determines a
  message up to key order exactly but for these members (`Channel.SerializeExact`,
  `Channel.SameTextSameFields`).
- The Rust node and a JavaScript reader hash the same text for a frame exactly if no key is
  `__proto__`, both rank any two keys of an object alike, and every numeral is printed as it was
  written. Array-index keys such as "10" and "9" break it (`Json.IndexKeysAreNotPortable`), and so
  does an ordinary whole number that Rust holds as a float: an orientation message with
  `focus_momentum` 1.0 is hashed as `1.0` by the node and as `1` by the inspector, which then rejects
  the log (`Json.CanonicalisersAgree`, `Json.WholeFloatsAreNotPortable`,
  `TraceLog.NumberFailsInspection`).
- A file that ends in a blank line is accepted by the verifier, but a restart begins a second chain
  at genesis on it (`TraceLog.RecoveryExact`).
- `log` moves its chain state before it writes, so a lost write that is followed by another append
  without a restart breaks the file (`TraceLog.EveryRunVerifies`).
- An age limit below the five seconds of future tolerance lets a nonce be accepted twice
  (`Nonces.ReplaySafety`), and the fallback nonce with a UUID client id is never readable, because
  the id contains dashes (`Nonces.LegacyNonceReads`).
- A handshake acknowledgement is believed without a signature and resets the chain, so one that is
  injected lets a message through across a gap (`ChannelRuns.AckForgivesGap`, `ChannelRuns.GapRun`).
  A message that arrives before its predecessor loses its nonce, and nothing after the predecessor
  is accepted until the next reset (`ChannelRuns.StallsUntilReset`).
- Evicting idle limiters shows exactly if a bucket can hold a token and the time-to-live is too
  short to fill it (`RateLimit.EvictionExact`).
- A session swept between its creation and its rejected capacity check leaves the sessions gauge
  one too low for good (`Admission.GaugeExact`, `IdleSweep.GaugeCanDrift`).
- `verifyFrames` says that a response "must include at least two branches" while the code accepts
  one with a warning; the model accepts one with a warning.
- A frame without string id, version or type can pass the kit and fail the server
  (`ConformanceServer.CheckerRefinement`).
- Two branches of equal confidence whose ids collate alike keep their input order, so the output is
  not determined by the set of branches (`Branches.BranchDeterminism`); and the note "branch
  confidences not in canonical order" is never written (`Branches.NormalOrder`).

## Model

| member | source | states |
|---|---|---|
| `Json.CanonExact` | nodes/ltp-rust-node/src/trace.rs:189-207 | for both key orders, two values have equal canonical forms if and only if what the canonicaliser keeps of them is equal up to recursive key reordering; Rust keeps all, JavaScript loses `__proto__` members |
| `Json.CanonExactWhenKept` | nodes/ltp-rust-node/src/trace.rs:189-207 | two values have equal canonical forms if and only if they are equal up to recursive key reordering: always on the Rust side, without `__proto__` keys on the JavaScript side |
| `Json.ProtoLeavesNoTrace` | sdk/js/src/crypto.ts:223-238 | adding a member `__proto__` to any object changes its meaning but not its JavaScript canonical form |
| `Json.LossVisible` | sdk/js/src/crypto.ts:223-238 | for values with distinct keys, what the JavaScript canonicaliser keeps means the same as the value if and only if no key is `__proto__` |
| `Json.CanonIdempotent` | nodes/ltp-rust-node/src/bin/verify_trace.rs:21-37 | canonicalising twice equals canonicalising once |
| `Json.CanonIsCanon` | sdk/js/src/crypto.ts:223-238 | every object of a canonical form, at every depth, lists its keys strictly in order |
| `Json.CanonKeepsMeaning` | tools/ltp-inspect/inspect.ts:249-263 | canonicalising changes key order, drops what is not kept, and does nothing else |
| `Json.CanonicalisersAgree` | tools/ltp-inspect/inspect.ts:249-269 | on values with distinct keys the Rust canonical form equals that of a JavaScript reader if and only if the value is portable: no `__proto__` key, keys ranked alike, numerals printed as written |
| `Json.IndexKeysAreNotPortable` | tools/ltp-inspect/inspect.ts:249-263 | a concrete object on which the two canonicalisers differ |
| `Json.WholeFloatsAreNotPortable` | tools/ltp-inspect/inspect.ts:265-269 | `{"focus_momentum":1.0}` has portable keys and is not portable, since JavaScript prints 1 |
| `KeyOrders.ByteOrderExact` | nodes/ltp-rust-node/src/trace.rs:189-207 | Rust's key order: the first differing byte decides, a proper prefix comes first |
| `KeyOrders.IndexLikeExact` | sdk/js/src/crypto.ts:223-238 | the keys JavaScript enumerates first are the canonical numerals below 2^32 - 1 |
| `KeyOrders.JsOrderExact` | sdk/js/src/crypto.ts:223-238 | JavaScript's order after a sort: such keys first, by number, and the others by UTF-16 code unit, although the model compares UTF-8 bytes |
| `JsonText.ReadPrint` | nodes/ltp-rust-node/src/trace.rs:209-213 | a strict JSON reader with separators, literals, escapes and numerals of its own reads every printed well-formed value back, and leaves the rest alone |
| `JsonText.ReadIsPrinted` | nodes/ltp-rust-node/src/trace.rs:209-213 | conversely whatever that reader reads is a well-formed value followed by the rest, and the text is what is printed for it |
| `JsonText.PrintUnique` | nodes/ltp-rust-node/src/trace.rs:209-213 | printed JSON is uniquely readable: two printed values followed by delimiters are equal texts only if values and remainders are equal |
| `JsonText.CanonTextReads` | sdk/js/src/crypto.ts:240-264 | the canonical text of a well-formed value reads back to its canonical form |
| `JsonText.CanonTextExact` | nodes/ltp-rust-node/src/trace.rs:189-213 | two well-formed values have the same canonical bytes if and only if what is kept of them is equal up to recursive key reordering |
| `JsonText.CanonTextExactWhenKept` | nodes/ltp-rust-node/src/trace.rs:189-213 | the same with nothing dropped: all values on the Rust side, values without `__proto__` on the JavaScript side |
| `TraceLog.LastLineOffset` | nodes/ltp-rust-node/src/trace.rs:143-171 | the chunked backward scan ends, for every file and every chunk size of at least 1, one past the last newline before the optional final one, or at 0 |
| `TraceLog.RPosition` | nodes/ltp-rust-node/src/trace.rs:165-165 | the last newline of a chunk, or that there is none |
| `TraceLog.RecoverState` | nodes/ltp-rust-node/src/trace.rs:132-187 | a restart continues from hash and index of the last line, from genesis if the file is empty or its last line blank, and fails if that line does not parse |
| `TraceLog.RecoveredFromDisk` | nodes/ltp-rust-node/src/trace.rs:132-187 | on a file of whole entries that serde reads back, recovery yields the hash of the last entry and its index plus one |
| `TraceLog.RecoveryExact` | nodes/ltp-rust-node/src/trace.rs:132-187 | on a file the verifier accepts, recovery yields the last hash and the number of entries if and only if there are no entries or the last line is not blank |
| `TraceLog.TraceLogger.constructor` | nodes/ltp-rust-node/src/trace.rs:38-76 | opening a log starts from the recovered state |
| `TraceLog.TraceLogger.Log` | nodes/ltp-rust-node/src/trace.rs:78-129 | one append: the chain state moves first, the line follows unless the write fails |
| `TraceLog.TraceLogger.Reopen` | nodes/ltp-rust-node/src/trace.rs:132-187 | a restart as a step of the run |
| `TraceLog.VerifyTraceFile` | nodes/ltp-rust-node/src/bin/verify_trace.rs:45-105 | accepts a file if and only if its non-blank lines parse to a hash chain from genesis with indices 0, 1, 2, ...; a rejection names the first offending line and its first fault: unparsable, index, previous hash, hash |
| `TraceLog.ChainStarts` | nodes/ltp-rust-node/src/trace.rs:132-141 | a chain starts with index 0 and a previous hash of 64 zeros |
| `TraceLog.EveryRunVerifies` | nodes/ltp-rust-node/src/trace.rs:78-187 | every run of appends, lost appends and restarts whose entries serde reads back leaves a file the verifier accepts, if and only if no append follows a lost one without a restart; the file holds exactly the written entries |
| `TraceLog.VerifyTraceIntegrity` | tools/ltp-inspect/inspect.ts:271-295 | reports the first entry whose hash or back link is wrong, and none if and only if all hold |
| `TraceLog.VerifiersAgree` | tools/ltp-inspect/inspect.ts:271-295 | on portable frames the Rust verifier accepts exactly what the inspector accepts plus a genesis start and consecutive indices |
| `TraceLog.InspectorAcceptsWhatTheNodeWrote` | tools/ltp-inspect/inspect.ts:249-295 | a log chained by the node passes the inspector, which re-prints what it has parsed, if and only if every frame is portable, numerals included |
| `TraceLog.NumberFailsInspection` | tools/ltp-inspect/inspect.ts:265-295 | a log of one frame with a number that JavaScript prints differently fails the inspector |
| `TraceLog.EveryRunPassesInspection` | tools/ltp-inspect/inspect.ts:271-295 | the entries of every run of appends, lost appends and restarts, without an append after an unrepaired loss, pass the inspector if the appended frames are portable |
| `TraceLog.TamperEvident` | nodes/ltp-rust-node/src/bin/verify_trace.rs:49-98 | two accepted logs with the same last hash have the same length and the same canonical frame and hash at every position, or they exhibit a hash collision or a text hashing to genesis |
| `Nonces.HmacNonceReads` | sdk/js/src/client.ts:1306-1329 | a generated HMAC nonce reads back to its timestamp |
| `Nonces.LegacyNonceReads` | sdk/js/src/client.ts:1306-1329 | a generated fallback nonce reads back to its timestamp if and only if the client id has no dash and, for the client id "hmac", the clock reading looks like a MAC and the random part like the clock reading |
| `Nonces.ReadNonceExact` | sdk/js/src/client.ts:1342-1409 | a nonce is read to a timestamp t if and only if it is "hmac-", 32 hexadecimal digits and a numeral that parses to t, or three dash-free parts: the client's id if that is known, a numeral that parses to t, and at least 8 characters |
| `Nonces.NonceCache.ValidateNonce` | sdk/js/src/client.ts:1342-1424 | verdict and new cache: accepted if and only if the nonce is not empty, not cached, readable, at most 5000 ms ahead and at most the age limit (60000 ms if none is set) behind; an accepted one is recorded with the current time, nothing else changes |
| `Nonces.NonceCache.CleanupExpiredNonces` | sdk/js/src/client.ts:1429-1437 | exactly the nonces accepted more than twice the age limit ago are forgotten |
| `Nonces.Remembers` | sdk/js/src/client.ts:1342-1437 | in every run an accepted nonce stays cached with its time until more than twice the age limit has passed |
| `Nonces.ReplaySafety` | sdk/js/src/client.ts:1342-1437 | no nonce is accepted twice in any run of validations and cleanups with a clock that does not go back, if and only if the configured age is 0, at least 5000 ms, or below -5000 |
| `Channel.SerializeExact` | sdk/js/src/crypto.ts:240-264 | two messages have the same signed text if and only if all nine fields agree, payload and meta up to key order and but for `__proto__` members |
| `Channel.SerializeExactWhenPlain` | sdk/js/src/crypto.ts:240-264 | without `__proto__` keys the signed text determines every field up to key order |
| `Channel.SameTextSameFields` | sdk/js/src/crypto.ts:223-264 | a message with the signed text of a plain one is the same message if and only if it has no `__proto__` key |
| `Channel.ForgedPayload` | sdk/js/src/crypto.ts:223-264 | a `__proto__` member can be added to any object payload: same signed text, different message |
| `Channel.SignedRecord` | sdk/js/src/crypto.ts:240-264 | the signed record has exactly the nine named keys, each with its field |
| `Channel.CommitmentExact` | sdk/js/src/crypto.ts:409-431 | two messages have the same chain commitment if and only if type, thread, session, timestamp, nonce, payload and previous hash agree, payload up to key order and but for `__proto__` members |
| `Channel.WireExact` | sdk/js/src/client.ts:1013-1088 | thread, session and timestamp go out as '', '' and 0 with a blob of ciphertext, iv and tag if and only if encryption is on and both session keys are there, else in plain without a blob; nonce, payload, previous hash, meta, encoding and the signature over all nine fields in either case |
| `Channel.UnverifiedExact` | sdk/js/src/client.ts:651-664 | a message is passed on unchecked if and only if signatures are not required, or there is no key, or its type is handshake_ack or handshake_reject |
| `Channel.UnsignedRejected` | sdk/js/src/client.ts:687-695 | with signatures required, a complete message of any other type without a signature is rejected for that |
| `Channel.AcceptedExact` | sdk/js/src/client.ts:651-801 | a message passes all checks if and only if it is to be checked, complete, signed over its nine fields with the right key, within 5000 ms ahead and the age limit behind, has a fresh readable nonce in the same window, and continues the chain if there is one |
| `Channel.ClientIdReads` | sdk/js/src/client.ts:749-750 | the id a nonce is held against is the text under client_id in the metadata |
| `Channel.LtpClient.Send` | sdk/js/src/client.ts:1013-1088 | nothing is sent unless connected and keyed or unsigned sending is allowed; the envelope on the wire, hidden exactly if encryption is on with both keys, and the new chain state; the chain commits to the plaintext fields with encryption on or off |
| `Channel.LtpClient.Receive` | sdk/js/src/client.ts:651-801 | the outcome and the new state: unchecked exactly for unsigned operation and the two handshake types, else checks in order, the nonce recorded before the chain is checked, chain advanced only on acceptance, chains reset by an acknowledged handshake |
| `ChannelRuns.MetadataRoundTrip` | sdk/js/src/crypto.ts:847-911 | decrypting what was encrypted restores thread, session and timestamp, given that the cipher and JSON.parse bring this one record back |
| `ChannelRuns.HiddenMetadataReads` | sdk/js/src/client.ts:1035-1068 | with encryption on and both keys there, the envelope hides the metadata, and its blob decrypts to exactly the message's thread, session and timestamp, or to nothing if thread or session is empty |
| `ChannelRuns.SenderLinks` | sdk/js/src/client.ts:1021-1086 | the messages of any sequence of sends commit each to the one before |
| `ChannelRuns.ChainSoundness` | sdk/js/src/client.ts:651-801 | whatever the network drops, repeats, reorders or injects, acknowledgements and replays from earlier sessions included, and whenever either side's link is lost or nonces are cleaned up, what was accepted since the receiver's last reset is a contiguous run of what the peer signed, in order; field for field where neither message has a `__proto__` key, else but for such members |
| `ChannelRuns.SessionSoundness` | sdk/js/src/client.ts:1013-1086 | the same for a peer that sends, loses its link and shakes hands again in any order |
| `ChannelRuns.PostedRooted` | sdk/js/src/client.ts:938-946 | in any run of sends, lost links and handshakes each message starts a chain or commits to the message before it |
| `ChannelRuns.OneSession` | sdk/js/src/client.ts:651-801 | without a reset of the receiver everything it accepts is one contiguous run |
| `ChannelRuns.OnceOnly` | sdk/js/src/client.ts:1342-1437 | with a safe age limit and a forward clock, a nonce accepted once, or refused only by the chain, is never accepted again in any run of arrivals, acknowledgements, lost links and cleanups |
| `ChannelRuns.StallsUntilReset` | sdk/js/src/client.ts:750-776 | once message k is the last one accepted and message k + 1 came too early, nothing is accepted until the next reset |
| `ChannelRuns.AckForgivesGap` | sdk/js/src/client.ts:651-664 | an injected acknowledgement turns every refusal for being off the chain into an acceptance |
| `ChannelRuns.GapRun` | sdk/js/src/client.ts:882-893 | of three messages the second is lost, and with an injected acknowledgement first and third are accepted |
| `ChannelRuns.ForgedPayloadAccepted` | sdk/js/src/client.ts:695-712 | an accepted envelope is accepted as well with one more `__proto__` member in its payload |
| `ChannelRuns.SendThenReceive` | sdk/js/src/client.ts:630-801 | one message across a lossless link is accepted by a receiver in step or just reset, restored field for field, and leaves the two chains in step |
| `ChannelRuns.ChainCompleteness` | sdk/js/src/client.ts:630-1086 | over a lossless FIFO link, with distinct nonces, clocks inside the window and cleanups at any time, every message is accepted, with metadata encryption on or off |
| `RateLimit.TokenBucket.constructor` | nodes/ltp-rust-node/src/main.rs:591-599 | a new bucket is full |
| `RateLimit.TokenBucket.Allow` | nodes/ltp-rust-node/src/main.rs:601-616 | verdict and new state of one call |
| `RateLimit.Conserved` | nodes/ltp-rust-node/src/main.rs:601-616 | over any run the calls allowed are at most the tokens at the start plus what flowed in |
| `RateLimit.BurstBound` | nodes/ltp-rust-node/src/main.rs:590-617 | after any earlier calls, the number of calls allowed in an interval [s, t] is at most capacity + rps * (t - s) |
| `RateLimit.SpacedCallsPass` | nodes/ltp-rust-node/src/main.rs:590-617 | with capacity at least 1, a call made at least 1/rps after the previous one is allowed, whatever came before |
| `RateLimit.IpLimiters.CheckIpRateLimit` | nodes/ltp-rust-node/src/main.rs:1532-1548 | decision of the address's bucket, created full if absent, and the new table |
| `RateLimit.IpLimiters.CleanupIpLimiters` | nodes/ltp-rust-node/src/main.rs:1562-1573 | exactly the entries idle for the time-to-live go, and the count returned is their number |
| `RateLimit.EvictionInvisible` | nodes/ltp-rust-node/src/main.rs:1532-1573 | if ttl * rps is at least max(burst, rps), every decision equals that of a table that never evicts, in every timed run of requests with the cleanup's looks at single addresses anywhere between them and its clock reading as old as it likes |
| `RateLimit.SweepsAddUp` | nodes/ltp-rust-node/src/main.rs:1562-1573 | looks at all addresses with one reading and no request between leave what an uninterrupted cleanup leaves |
| `RateLimit.EvictionExact` | nodes/ltp-rust-node/src/main.rs:1532-1573 | eviction is invisible in all runs if and only if max(burst, rps) is below 1 or ttl * rps is at least max(burst, rps) |
| `Sessions.LtpNodeState.TouchHeartbeat` | nodes/ltp-rust-node/src/state.rs:61-74 | whether the session was created, and the table with it seen now, its momentum and orientation kept, and everything else untouched |
| `Sessions.LtpNodeState.UpdateOrientation` | nodes/ltp-rust-node/src/state.rs:76-100 | whether the session was created; given fields replace, absent ones are kept, `last_seen` is renewed |
| `Sessions.IdleKeysExact` | nodes/ltp-rust-node/src/state.rs:116-143 | a look finds a session idle if and only if it is unlocked and the time-to-live has passed since `last_seen`, a clock behind `last_seen` counting as no time |
| `SessionRuns.RemoveRefines` | nodes/ltp-rust-node/src/state.rs:112-114 | a disconnect takes the session out of the table and owes the gauge a decrement exactly if it was there |
| `Sessions.LtpNodeState.FirstPass` | nodes/ltp-rust-node/src/state.rs:116-143 | collects exactly the unlocked idle keys; counts scanned and skipped sessions |
| `Sessions.LtpNodeState.ConfirmPass` | nodes/ltp-rust-node/src/state.rs:145-161 | removes exactly the candidates that are still unlocked and idle, and counts them |
| `Sessions.LtpNodeState.ExpireIdle` | nodes/ltp-rust-node/src/state.rs:116-166 | exactly the sessions both passes find idle and unlocked are removed, and `expired` is their number |
| `SessionRuns.TouchRefines` | nodes/ltp-rust-node/src/state.rs:61-74 | entering, locking and touching without interruption does to the machine's table what `TouchHeartbeat` promises, and leads to a capacity check exactly if the session was created |
| `SessionRuns.SweepRefines` | nodes/ltp-rust-node/src/state.rs:116-166 | the janitor's steps without interruption, over any enumeration of the keys, remove and count what `ExpireIdle` promises |
| `Admission.StaleExact` | nodes/ltp-rust-node/src/state.rs:116-161 | a look finds a session object idle if and only if nobody holds its lock and the time-to-live has passed since it was seen |
| `Admission.RejectedExact` | nodes/ltp-rust-node/src/main.rs:1513-1530 | a connection that has created its session is turned away, and the session removed, if and only if the map is over the limit when its size is read; otherwise the gauge goes up |
| `Admission.CapacityHolds` | nodes/ltp-rust-node/src/main.rs:1513-1530 | in every interleaving of creations, checks, touches, disconnects and sweeps the admitted live sessions are at most `max_sessions_total` |
| `Admission.GaugeEquation` | nodes/ltp-rust-node/src/main.rs:1475-1530 | in every interleaving, gauge = map size - sessions not yet counted + removals not yet subtracted - rejections that found their session already swept |
| `Admission.LossesComeFromSweeps` | nodes/ltp-rust-node/src/main.rs:1475-1530 | such rejections are at most the sweeps of sessions whose check was pending |
| `Admission.GaugeExact` | nodes/ltp-rust-node/src/main.rs:1475-1530 | the plain gauge formula holds if and only if there was no such rejection, in particular if the sweep never removed a session whose check was pending |
| `IdleSweep.GaugeCanDrift` | nodes/ltp-rust-node/src/main.rs:1513-1530 | a concrete run with a limit of 1 after which the gauge is 0 although a session is admitted |
| `IdleSweep.SweepSafety` | nodes/ltp-rust-node/src/state.rs:116-166 | in every interleaving every touch of the session the janitor removes, wherever between or inside the passes, came at least a positive `idle_ttl` before the clock reading of the second pass |
| `IdleSweep.RemovesIdle` | nodes/ltp-rust-node/src/state.rs:145-161 | in every interleaving the key the janitor removes still leads to the object it has looked at, which nobody holds and which was last seen at least a positive `idle_ttl` before the reading of the second pass |
| `IdleSweep.ExpiredExact` | nodes/ltp-rust-node/src/state.rs:145-161 | `expired` equals the number of keys by which this sweep's own steps have shrunk the map, though others remove sessions meanwhile |
| `ConformanceKit.CheckFrames` | tools/conformance-kit/src/verify.ts:117-315 | the pass reports each fault and each blemish of every frame exactly once, stated over the frames before it and not over flags |
| `ConformanceKit.VerifyFrames` | tools/conformance-kit/src/verify.ts:84-373 | errors and warnings are exactly the deserved ones, each once; over the raw frames: ok if and only if the capture follows the protocol, status OK if and only if it also has nothing to remark; the score follows from the numbers deserved |
| `ConformanceKit.VerdictExact` | tools/conformance-kit/src/verify.ts:117-358 | no errors if and only if: all frames are objects of version 0.1 with a numeric ts, (sender, id) pairs are distinct, frame 0 is the only hello, known kinds pass the schema, each response follows a request and has a branch, and all four required kinds occur |
| `ConformanceKit.ConformsReads` | tools/conformance-kit/src/verify.ts:27-358 | these rules mean, in names of fields and types alone: each frame has v "0.1" and a ts that is a number, each of the six types its own payload and a non-empty id, no sender an id twice, "hello" is frame 0 and no other, each "route_response" has a branch and a "route_request" before it, and "heartbeat", "orientation", "route_request" and "route_response" occur |
| `ConformanceKit.PolishedReads` | tools/conformance-kit/src/verify.ts:117-358 | the same for no warnings: times never go back, all types are known, an orientation before each request, no response with one branch, and a focus_snapshot |
| `ConformanceKit.FaultReads` | tools/conformance-kit/src/verify.ts:126-154 | when a frame earns the errors of shape, version and timestamp, over the raw frame |
| `ConformanceKit.SchemaFaultReads` | tools/conformance-kit/src/verify.ts:222-229 | a frame earns the schema error if and only if its type is one of the six and version, id or that type's payload is wrong |
| `ConformanceKit.DuplicateReads` | tools/conformance-kit/src/verify.ts:167-178 | a frame earns the duplicate error if and only if an earlier one has the same sender and id |
| `ConformanceKit.OrderFaultReads` | tools/conformance-kit/src/verify.ts:180-309 | when a frame earns each of the eight errors of order and branches, by type names and what came before |
| `Protocol.FrameAgrees` | sdk/js/src/frames/frameSchema.ts:76-179 | the schema check accepts a frame if and only if version, id, time and type are right and the payload is that type's, field by field |
| `ConformanceServer.VerifyConformance` | src/server/conformanceVerifier.ts:78-235 | ok if and only if there are 1 to 5000 raw frames, each with text id and type, v "0.1", a numeric ts and, for the six types, a non-empty id and that type's payload, the first a "hello"; errors and warnings are exactly the deserved ones, each once; the score follows from their numbers; the HTTP status for every case |
| `ConformanceServer.AcceptsReads` | src/server/conformanceVerifier.ts:131-216 | frames without errors are the raw frames so described, both ways |
| `ConformanceServer.SchemaFaultReads` | src/server/conformanceVerifier.ts:199-209 | when a frame earns the schema error, over the raw frame |
| `ConformanceServer.SemanticReads` | src/server/conformanceVerifier.ts:151-182 | a capture is a semantic error, status 422, if and only if frame 0 is no hello or some frame's ts is not at least that of the last frame before it that has one |
| `ConformanceServer.CheckerRefinement` | src/server/conformanceVerifier.ts:78-235 | of the captures the kit accepts the server accepts exactly those of at most 5000 frames whose id, v and type are strings |
| `StableSort.StableSortUnique` | tools/ltp-inspect/inspect.ts:653-658 | a sorted sequence with the same order inside every class of ties is unique, so any stable sort gives the modelled result |
| `StableSort.SortIsStable` | sdk/js/src/time/timeWeave.ts:32-38 | the modelled sort keeps the order of elements that tie |
| `StableSort.SortSorted` | sdk/js/src/time/timeWeave.ts:32-38 | the modelled sort sorts |
| `StableSort.SortPermutes` | sdk/js/src/time/timeWeave.ts:32-38 | the modelled sort permutes |
| `Branches.FirstsIds` | tools/ltp-inspect/inspect.ts:629-634 | removing duplicates keeps every id exactly once and reports one entry for each branch dropped |
| `Branches.FirstsAt` | tools/ltp-inspect/inspect.ts:629-634 | of each id exactly the first branch is kept, and the kept ones stay in their order |
| `Branches.NormalizeBranches` | tools/ltp-inspect/inspect.ts:589-674 | the output order, the duplicates, the missing and out-of-range confidences, and when a reordering is recorded |
| `Branches.NormalOrder` | tools/ltp-inspect/inspect.ts:653-671 | the output is a permutation of the kept branches in descending confidence, those without one last, ties by collated id; it equals the input order, and no reordering is recorded, if and only if that was so ordered; the second note is never written |
| `Branches.NormalTwice` | tools/ltp-inspect/inspect.ts:653-671 | normalising the output again changes and records nothing |
| `Branches.BranchDeterminism` | tools/ltp-inspect/inspect.ts:589-674 | for distinct ids, all permutations of the input give the same output if and only if no two branches have equal confidence and ids that collate alike |
| `TimeWeave.FindIndex` | sdk/js/src/time/timeWeave.ts:44-45 | the first branch with a thread id |
| `TimeWeave.RunExact` | sdk/js/src/time/timeWeave.ts:44-89 | after any appends each branch is the stable sort of the clamped nodes appended for its thread, threads are unique, and a thread has a branch if and only if a node was appended for it |
| `TimeWeave.WeaveInvariants` | sdk/js/src/time/timeWeave.ts:44-89 | every reachable weave has unique threads, sorted branches, intensities in [0, 1] and exactly the appended nodes, equal ticks in order of arrival |
| `TimeWeave.MomentumIsSlope` | sdk/js/src/time/timeWeave.ts:119-132 | with n the smaller of 5 and the number of nodes, momentum is (last intensity - n-th last intensity) / (n - 1), in [-1, 1], so the clamp never acts, and 0 for fewer than two nodes |
| `TimeWeave.FocusIsWeightedMean` | sdk/js/src/time/timeWeave.ts:172-207 | the focus score is the mean of these slopes over exactly the branches with at least two nodes, weighted by last intensity or 1 if that is 0; it lies between the lowest and the highest slope, hence in [-1, 1]; neither the clamp nor the zero-weight case acts; 0 if there is no such branch |
| `ThreadLife.LevelsStay` | sdk/js/src/threadLifeModel.ts:117-161 | energy and resonance stay in [0, 1] in every run of events |
| `ThreadLife.MapLevels` | sdk/js/src/threadLifeModel.ts:163-188 | the same for every thread of the map |
| `ThreadLife.LifeEdges` | sdk/js/src/threadLifeModel.ts:20-115 | for each phase which events, energy below 0.1 or 0.3, and resonance gains over 0.05 lead to which phase, and that nothing else does |
| `ThreadLife.LevelsExact` | sdk/js/src/threadLifeModel.ts:117-161 | what an event adds or takes: 0.05 of energy and resonance when active, 0.05 and 0.03 less when weakening, energy 0 and 0.1 less resonance when archived, nothing otherwise |
| `ThreadLife.ArchivedForever` | sdk/js/src/threadLifeModel.ts:37-128 | archived is absorbing, with energy 0 from the event that enters it on |
| `ThreadLife.ActiveFirst` | sdk/js/src/threadLifeModel.ts:55-115 | a thread that was born and is weakening or switching has been active in between |
| `ThreadLife.WeakeningEnds` | sdk/js/src/threadLifeModel.ts:76-128 | within 20 events a weakening thread is archived, unless it has switched before |
| `ThreadLife.WeakeningExact` | sdk/js/src/threadLifeModel.ts:76-128 | under events that offer no exit a thread stays weakening for n events if and only if its energy is at least 0.1 + 0.05 (n - 1) |
| `ThreadLife.IdsUnique` | sdk/js/src/threadLifeModel.ts:163-171 | ids stay unique in every run of registrations and updates |
| `ThreadLife.NonInterference` | sdk/js/src/threadLifeModel.ts:173-188 | in every run the thread of an id is what its own registration and its own events make it |

## Left out

- What JavaScript makes of each particular numeral: the rewriting is a parameter, and only what the theorems say follows from it.
- Torn writes: an append reaches the file as a whole line or not at all; a partial line before a restart is not modelled.
- Unicode white space in `trim`, and lone surrogates in strings: text is bytes, and only ASCII white space is trimmed.
- Counter width: the log counter is unbounded where the node uses 64 bits.
- Log signatures (ed25519), timestamps and session ids of an entry: the chain hash does not cover them.
- TraceLog.TamperEvident: the digest is taken to have 64 characters and frames to be printable JSON, as SHA-256 in hexadecimal and serde provide.
- Concurrent sends or receives inside one client: each runs to completion, since the code itself does not serialise them.
- Key exchange and key derivation, the routing tag, the handshake messages themselves and their ECDH signatures: the keys in force are fixed during a run.
- Channel.LtpClient.Receive: a handshake acknowledgement is modelled by its effect on the connection and the chains; the ids it assigns and the keys it may derive are not.
- ChannelRuns.ChainSoundness: the key is assumed to sign only texts of the peer, so messages a client signed itself must not be reflected to it.
- ChannelRuns.MetadataRoundTrip: timestamps are integers, and thread and session ids are not empty, as `send` has them once connected.
- `disconnect()` called by the user clears the nonce cache, so replay safety is stated for runs without it.
- Admission.CapacityHolds: a single access to the session map, such as reading its size, is one step, whatever happens inside the concurrent map.
- The `connections` gauge: early exits of the handshake skip its decrement, so it is no exact count.
- `verifyFrames` on input that is not an array, sparse arrays, the texts of messages and hints, and the server's annotations.
- Confidences that are NaN or infinite in branch lists, and how ids, paths and reasons are picked from raw entries.
- String ticks in the time weave, trend summaries, and IEEE rounding everywhere; `toFixed` in scores.
- NaN levels in the thread life model, and `summarizeThreadMap`.
- The Python SDK, WebSocket, TLS, HTTP, timers, metrics export, HUDs, demos and command-line tools.
- Fuzzy routing, turtle frames, orientation webs and agent policies: their provable facts are range clamps.
