# Verification model of a2a.fun

A Dafny model of the parts of a2a.fun whose correctness is hardest to see from the code: the
relay and what runs over it, the two-party friendship session, canonical serialisation and what
is signed or hashed with it, and the identity of a node. `dafny verify dfyconfig.toml` checks
everything.

## What is modelled

**Canonical JSON, releases, transcripts.** `Json` prints values as `JSON.stringify` does and
parses RFC 8259 texts, on UTF-16 code units; `JsValue` has what literals evaluate to, conversion
to a string and sending through a text, `JsParse` what parsing can give at all, `Numbers` the
grammar and the size of numbers. `CanonicalJson` has the release printer and the RFC 8785 form
with what they forget about a value, `Jcs` the printer that is meant to give that form.
`Release` signs, publishes and verifies a manifest. `Transcript` orders and hashes the probe
messages of a session.

**The relay.** `RelayFrames` has what travels as JSON texts. `Relay` is the server: a class
whose methods change the routing table, the latest pointers, the bounded trace and the sockets'
output, each equal to a step of a pure state machine. `RelayRegistry` says what a relay is for,
a list of live sessions in order of registration, and proves that the server refines it.
`RelayTheorems` has the results over whole runs, and the inputs on which the refinement breaks;
`RelayAnswers` what every sender is answered, and the frames that end the server; `RelayLengths`
what is written, by its length in `Utf8`; `RelayTexts` what clients read off it all. `WsFrames`
is the framing on the byte stream below it, `RelayHealth` an observer of its diagnostics.

**Over the relay.** `RemoteInvocation` is the executor with its gate and its answer,
`RemoteExchange` the caller with its two maps and its waiting loop, and the two of them over a
network of texts that loses, repeats and reorders. `Inbox` is the selective-receive queue of the
dialogue script with its verified sends.

**Friendship.** `Session` is the state machine with its tables; `FriendshipNode` one node with
pipeline, sessions, friend records and audit log; `Overlap` the same node with handlers that
read, wait and write; `Consent` any number of nodes, their humans and an adversarial network,
where signatures of honest actors cannot be forged; `LostProbe` one family of runs of it.
`ProbeEngine` is the engine that drives the probe phase.

**A node's identity.** `NodeIdentity` has the three id files with a crash possible after every
write, copies between machines and the watchdog; `DaemonLock` the lock file on a host whose
process numbers are reused; `KeyBinding` the agent id, the key pair and the binding. `OfferFeed`
is the status view on the tail of the offer feed.

## Where code and documents part

The model follows the code. Each of these is a lemma with a concrete or general counterexample;
where the documented property holds under a condition, the exact condition is named beside it.

- The session manager does not compare the sender of an entry with the session's peer, and
  the session's peer is not taken from the sender: `Consent.StrangerBefriends`,
  `FriendshipNode.OpenedPeer`, against `Consent.BothHumansEntered` and `Consent.ConsentExactly`.
- It does not look at the transcript hash of an entry: `LostProbe.LostProbeBefriends`, against
  `Consent.TranscriptAgreement` and `Consent.GuardedRunAgrees`.
- A failed friend write is not repaired by delivering the entry again:
  `FriendshipNode.EntryNotRetried`. The failed phase is never entered: `Session.NeverFails`.
- Relay table keys collide for node ids with colons, equal connection times route to the
  oldest session, and a second registration on one socket leaves the first entry behind:
  `RelayTheorems.CollisionMisroutes`, `TieRoutesToOldest`, `SecondKeyLeavesEntry`, against
  `RegisterExact`, `KeyCollision` and `CloseExact`.
- A relay frame whose trace id, payload kind or (before registration) target does not convert
  to a string is not answered and ends the server: `RelayAnswers.FatalFrame`, against
  `UpExactly`, `AllAnswered` and `Accounting`.
- Frames of 64 KiB or more are not written, though they are traced and acknowledged as
  forwarded: `RelayLengths.LongFrameIsLost`, against `ForwardedIsWritten` and `AckedIsWritten`.
- Frames behind a closing frame wait for the next chunk: `WsFrames.CloseDelays`.
- A dialogue message is confirmed by its keys alone: `Inbox.ReceiptExactly`.
- A remote result with a number that is not finite arrives as another result:
  `RemoteInvocation.NotANumberIsLost`, against `RemoteExchange.ResultsAreLocal`.
- The caller counts foreign results: `RemoteExchange.ForeignResultPasses`, against
  `SizeTestExact` and `CountIsCompleteness`.
- The probe engine refuses an open question and accepts summaries after any number of rounds:
  `ProbeEngine.StrictGrammar`, `StrictPrefixes`.
- A first verifiable boot generates two key pairs, so its agent id is not the hash of the
  bound key: `KeyBinding.VerifiableExactly`. The published key lacks the line break that was
  hashed: `KeyBinding.PublishedExactly`. Nothing checks that the halves of a key file belong
  together: `KeyBinding.SignaturesVerify`.
- A lock file that is not JSON disables the lock for good: `DaemonLock.SingleExactly`. A daemon
  that a check does not recognise, by its command line or because it may not be signalled, loses
  the lock while it lives: `DaemonLock.LocalAndForeign`, against `RunExactly` and `StepExactly`.
- `jcsStringify` is not injective on objects with a member `constructor`:
  `Jcs.ConstructorIsLost`, against `Jcs.JcsLossless`.
- `stableStringify` drops members named `__proto__`: `CanonicalJson.ProtoIsLost`, against
  `StableLossless`.
- Both print a literal that is too large, which parsing reads as infinite, like null, so a signed
  null can be replaced by one: `Jcs.InfinityIsLost`, against `Jcs.JcsLossless`,
  `CanonicalJson.StableLossless` and `Release.TamperEvident`. The relay forwards such a payload
  with null: `RelayLengths.PayloadArrives`.
- Two handlers of one session that overlap overwrite each other, a close included:
  `Overlap.CloseIsOverwritten`, `EntryIsOverwritten`, against `SerialExactly` and `LockSuffices`.

## Assumptions

Digests are injective where a statement says so; a signature of an honest actor exists only if
that actor made it; node ids derived from different fingerprints or seeds differ; file writes
are atomic, and boots complete except in `NodeIdentity`; handlers of a friendship node run one
after the other except in `Overlap`, and looking for a friend record and writing it is one step;
timestamps of the relay are milliseconds as numbers, those of the offer feed have one fixed
format and are compared as numbers.

## Model

| member | source | states |
|---|---|---|
| Json.StringRoundTrip | scripts/sign_release.mjs:16 | reading an escaped string, surrogate pairs and control characters included, gives back the string and what follows its quote |
| Json.EscapeExactly | scripts/sign_release.mjs:16 | the escape of a unit as section 3.2.2.2 of RFC 8785 has it: two characters where there is such an escape, lower-case hex for other controls and lone surrogates, everything else as it is |
| Json.EscapeNext | scripts/sign_release.mjs:16 | a pair of surrogates is printed as it is wherever it stands, any other unit by itself |
| Json.ParsePrint | scripts/sign_release.mjs:16 | for every value with numbers as they are written, parsing its printed text with any trailing white space gives exactly that value |
| Json.TrimExactly | src/runtime/security/verifyRelease.mjs:21 | trimming takes the white space off both ends of any text, and as much as there is |
| Numbers.NumbersExactly | scripts/sign_release.mjs:16 | a text is read as a number exactly when the grammar of section 6 of RFC 8259 writes it, and as the one it writes |
| Numbers.NumberSays | src/identity/jcs.mjs:20-21 | the number is infinite, with its sign, exactly when its size, as a real number, is at least 2^1024 - 2^970, half a unit in the last place below 2^1024 |
| JsValue.PrintExactly | scripts/sign_release.mjs:16 | values print alike if and only if they are alike with null in place of every number that is not finite |
| CanonicalJson.StringifyCanonical | scripts/sign_release.mjs:6-17 | two values print to one text if and only if, with null for the numbers that are not finite, they are equal up to member order at every depth: for the RFC 8785 form as it is, for `stableStringify` up to members named `__proto__` |
| CanonicalJson.StringifyParse | scripts/sign_release.mjs:6-16 | the text of `stableStringify`, and that of the RFC 8785 form, parses, to a value that is the same up to member order, with null for the numbers that are not finite, and whose members stand in key order at every depth |
| CanonicalJson.AheadExactly | scripts/sign_release.mjs:6-17 | the key order in the words of the standards: by code unit at the first difference, a prefix first; for `stableStringify` array indices, the numbers below 2^32 - 1 written out, come first and by number |
| CanonicalJson.NormInKeyOrder | scripts/sign_release.mjs:9-16 | at every depth of what is printed the members stand in that order |
| CanonicalJson.StringifyExactly | scripts/sign_release.mjs:6-17 | a value whose members stand in that order at every depth is printed as it is, for any value that means the same: the canonical text is the only such text |
| CanonicalJson.StableLossless | scripts/sign_release.mjs:7-16 | `stableStringify` keeps everything but member order if and only if no member at any depth is named `__proto__` and every number is finite; array-index keys, which are moved to the front, do no harm |
| CanonicalJson.ProtoIsLost | scripts/sign_release.mjs:11 | a concrete value that loses a member under `stableStringify` and not in the RFC 8785 form |
| Jcs.JcsCanonical | src/identity/jcs.mjs:14-31 | without members named `constructor`, `jcsStringify` gives the RFC 8785 form: one text exactly for values equal up to member order, with null for the numbers that are not finite, which is what it parses back to, in key order at every depth |
| Jcs.JcsEqualExactly | src/identity/jcs.mjs:14-31 | on any values that print, numbers that are not finite included, one text exactly when the values are equal up to member order after what has such a member is replaced by a string and what is not finite by null |
| Jcs.JcsLossless | src/identity/jcs.mjs:14-31 | `jcsStringify` keeps everything but member order if and only if no object at any depth has a member named `constructor` and every number is finite |
| Jcs.ConstructorIsLost | src/identity/jcs.mjs:14-30 | two objects, of member `constructor` null and true, that print alike, and one that makes the printer throw |
| Jcs.InfinityIsLost | src/identity/jcs.mjs:17-31 | for every key but `constructor` and `__proto__`: the text with `1e400` under it parses to a value that both printers print like the one with null |
| JsValue.RendersExactly | src/relay/relayServerV2.mjs:134 | conversion to a string succeeds if and only if no object that is reached has a member named `toString` |
| JsValue.ArrayRendered | src/relay/relayServerV2.mjs:134 | an array converts to its elements joined by commas, null as nothing |
| JsValue.SentAndRead | src/remote/remoteResultReturn.mjs:63-67 | printed and parsed, a value comes back with null for its numbers that are not finite, so it survives if and only if it has none |
| JsParse.ParseGivesProper | src/runtime/transport/httpTransport.mjs:331-363 | whatever text is parsed, the value is one these results are about: printing and parsing it again gives it back with null for its infinite numbers |
| JsParse.HugeIsInfinite | src/identity/jcs.mjs:20-22 | the literal `1e400` is read as infinite, which prints as null |
| Release.StrippedText | src/runtime/security/verifyRelease.mjs:24-25 | dropping the signature from the parsed release file and printing again gives, unit for unit, the text that was signed |
| Release.SignThenVerify | scripts/sign_release.mjs:63-70 | every file the signer writes parses and verifies |
| Release.VerdictSays | src/runtime/security/verifyRelease.mjs:18-32 | the verdict on any value, from its fields: no object, a signature that counts as false or is only white space, one that does not convert, or the check of the trimmed signature against the text of the rest |
| Release.TamperEvident | src/runtime/security/verifyRelease.mjs:18-32 | a manifest carrying the signature verifies if and only if, without it and with null for its infinite numbers, it says what the signed release says |
| Release.ThrowsExactly | src/runtime/security/verifyRelease.mjs:21-31 | the verifier throws, and so refuses, exactly on a signature member that does not convert to a string |
| Transcript.CoreTextInjective | src/identity/probeTranscriptHash.mjs:39-51 | two envelope cores with one canonical text agree in every hashed field |
| Transcript.SortInOrder | src/identity/probeTranscriptHash.mjs:28-36 | the ordering by timestamp and then message id puts every list in order |
| Transcript.HashesInTime | src/identity/probeTranscriptHash.mjs:25-65 | the hash is that of the probe messages of the session ordered by timestamp, at its first differing unit, and at one timestamp by message id |
| Transcript.HashedExactly | spec/v0.4.3.md:304-337 | where timestamp and id identify messages, any list of them in that order gives the text that is hashed |
| Transcript.ProbeCoresExactly | src/identity/probeTranscriptHash.mjs:25-26 | what counts as a probe message of the session |
| Transcript.CoreSays | src/identity/probeTranscriptHash.mjs:39-51 | the text of a core says each hashed field under its name in the envelope |
| Transcript.TranscriptSays | src/identity/probeTranscriptHash.mjs:54-64 | the hashed text says session and version and, of each message in order, its place from one, timestamp, type, core hash and ciphertext length |
| Transcript.HashSeparates | src/identity/probeTranscriptHash.mjs:23-65 | two transcript hashes are equal if and only if session and ordered sequence of cores are, for an injective digest |
| Transcript.HashOfCollection | spec/v0.4.3.md:310-334 | when timestamp and id identify messages, two nodes compute one hash if and only if they hold the same probe messages, each equally often, in whatever order they arrived |
| Transcript.ExtraMessageShows | src/identity/probeTranscriptHash.mjs:25-36 | keeping one more envelope, a repeated one included, changes the hash if and only if it is a probe of the session |
| Relay.ValidateId | src/relay/relayServerV2.mjs:95-100 | an accepted id is non-empty and at most 128 units long |
| Relay.Best | src/relay/relayServerV2.mjs:159-163 | the entry chosen as latest is of the node and none of the node connected later |
| Relay.CapPush | src/relay/relayServerV2.mjs:126-129 | pushing and trimming a trimmed list is trimming the longer history, so the trace is always the tail of the complete history |
| Relay.RelayServer.PushTrace | src/relay/relayServerV2.mjs:126-129 | the history gains one event and the bounded list stays its tail |
| Relay.RelayServer.WriteText | src/relay/relayServerV2.mjs:19-32 | a frame is handed to a socket, and written if and only if its text, in UTF-8, is shorter than 65536 bytes |
| Relay.RelayServer.RecomputeLatest | src/relay/relayServerV2.mjs:158-166 | the loop leaves the latest pointer at the entry with the greatest connection time, the first on a tie, or removes it |
| Relay.RelayServer.Unregister | src/relay/relayServerV2.mjs:317-326 | the entry goes, the pointer is recomputed and an event is traced, exactly when the socket owns the entry |
| Relay.RelayServer.OnCleanup | src/relay/relayServerV2.mjs:316-328 | a close is the cleanup step of the state machine |
| Relay.RelayServer.OnDestroyed | src/relay/relayServerV2.mjs:440 | a socket that is gone is only marked so |
| Relay.RelayServer.OnRegister | src/relay/relayServerV2.mjs:350-393 | a register message is the register step, rejections included |
| Relay.RelayServer.TellReplaced | src/relay/relayServerV2.mjs:368-377 | the socket that held the key is told, unless it is the same socket |
| Relay.RelayServer.Accept | src/relay/relayServerV2.mjs:364-392 | the whole new table, pointers, registration, trace and frames of an accepted registration |
| Relay.RelayServer.OnRelay | src/relay/relayServerV2.mjs:395-454 | a relay message is the relay step: every branch, with its events and frames in order, and the exception that ends the server when an id, kind or target cannot be shown in the trace |
| Relay.RelayServer.Respond | src/relay/relayServerV2.mjs:396-453 | the answer to a relay message that can be shown, with trace id and kind in every event |
| Relay.RelayServer.FindTarget | src/relay/relayServerV2.mjs:430-440 | the target is looked up through the latest pointer and must not be destroyed |
| Relay.RelayServer.Route | src/relay/relayServerV2.mjs:422-453 | frames and events of a drop or a forward, in order |
| Relay.TouchKeepsTarget | src/relay/relayServerV2.mjs:406-409 | stamping the sender before routing changes no target, not even its own |
| RelayRegistry.StepRefines | src/relay/relayServerV2.mjs:316-454 | every step of the server is a step of a registry of live sessions in registration order, given a good registration |
| RelayRegistry.RecomputeIsRoute | src/relay/relayServerV2.mjs:158-166 | choosing the greatest connection time finds the most recent registration still live |
| RelayTheorems.RunRefines | src/relay/relayServerV2.mjs:106-119 | over every run of good registrations the server is the registry |
| RelayTheorems.RoutesToNewest | src/relay/relayServerV2.mjs:427-446 | after any such run a frame for a node goes to its most recently registered live session, and is dropped exactly when there is none or its socket is gone |
| RelayTheorems.OneLatestPerNode | src/relay/relayServerV2.mjs:170-180 | of every listed node exactly one entry is marked latest, and it is the newest |
| RelayTheorems.DeliversInOrder | src/relay/relayServerV2.mjs:427-448 | over every run of good registrations, up to a frame that ends the server, the forwarded frames handed to sockets are exactly those the registry prescribes, with the payloads that came, in the order of the relay frames |
| RelayTheorems.KeysUnique | src/relay/relayServerV2.mjs:117-118 | over every run at all, table keys are unique |
| RelayTheorems.CloseExact | src/relay/relayServerV2.mjs:316-328 | over every run at all, while the server is up, a close removes an entry if and only if it is the closing socket's, under the ids it registered last; so a late close never removes a successor |
| RelayTheorems.RegisterExact | src/relay/relayServerV2.mjs:364-393 | a registration keeps the table a registry if and only if every other entry has another key, another socket and an earlier time |
| RelayTheorems.ReplacedIsTold | src/relay/relayServerV2.mjs:368-377 | a registration tells exactly the other socket that held the same session, if there is one |
| RelayAnswers.Accounting | src/relay/relayServerV2.mjs:395-454 | over every run, relay frames that got through, outcomes, ack events and ack frames correspond one to one, in order and with one status, the event showing `forwarded`, `dropped_no_target` or `dropped_invalid`, and each ack goes to the sender alone |
| RelayAnswers.OneAck | src/relay/relayServerV2.mjs:395-453 | a relay frame brings exactly one ack, on the sender's socket, if the server is up and trace id and kind (and target, from an unregistered sender) convert to strings, and none otherwise |
| RelayAnswers.OneOutcome | src/relay/relayServerV2.mjs:395-453 | it brings exactly one of forwarded, dropped without target and dropped as invalid, and one ack event with that status, under the same condition, and nothing otherwise |
| RelayTexts.AckTells | src/relay/relayServerV2.mjs:396-453 | the text of that ack says the trace id of the frame and `forwarded`, `dropped_no_target` or `dropped_invalid` exactly when it was routed, had no live target, or was invalid, with the reason |
| RelayTexts.ForwardTells | src/relay/relayServerV2.mjs:427-449 | the frame reaches a socket exactly when its ack says forwarded, then only the one of the target, which reads sender and payload |
| RelayTexts.TraceTells | src/relay/relayServerV2.mjs:399-453 | the trace events of a relay frame, each with trace id, sender and address, the ack event with the word the sender reads |
| RelayTexts.RegisterTells | src/relay/relayServerV2.mjs:351-391 | what a registration is told: which id is missing or over 128 units, or the two ids it got |
| RelayTexts.FrameSays | src/relay/relayServerV2.mjs:351-452 | every frame says on the wire, under the names of its fields, what it stands for |
| RelayTexts.MessageSays | src/relay/relayServerV2.mjs:350-422 | how a parsed text is read as a message |
| RelayAnswers.AllAnswered | src/relay/relayServerV2.mjs:131-139 | over every run the answered frames are the first ones, and they are all of them if and only if the server is up at the end |
| RelayAnswers.UpExactly | src/relay/relayServerV2.mjs:131-139 | the server is up after a run if and only if every relay frame of it could be shown in the trace when it arrived |
| RelayAnswers.FatalFrame | src/relay/relayServerV2.mjs:422-425 | a frame whose trace id is an object with a member `toString` ends the server in any state, with no ack, no event and no forward |
| RelayLengths.ForwardedIsWritten | src/relay/relayServerV2.mjs:19-32 | a frame acknowledged as forwarded is written to its target if and only if its text is shorter than 65536 bytes |
| Utf8.FitsExactly | src/relay/relayServerV2.mjs:20-30 | what is compared with 65536 is the number of bytes of the text in UTF-8 |
| Utf8.TextArrives | src/relay/relayServerV2.mjs:20-31 | decoding these bytes, taking nothing but shortest forms, gives the text back with every surrogate without a partner replaced |
| RelayLengths.AckedIsWritten | src/relay/relayServerV2.mjs:448-451 | over every run, everything acknowledged as forwarded is written if and only if every forwarded text is shorter than that |
| RelayLengths.AckIsWritten | src/relay/relayServerV2.mjs:451 | the ack itself is written if and only if its own text, which repeats the trace id, is shorter than that |
| RelayLengths.WrittenInOrder | src/relay/relayServerV2.mjs:19-32 | over every run of good registrations, what is written to targets is what the registry prescribes, in order, without the long frames |
| RelayLengths.PayloadArrives | src/relay/relayServerV2.mjs:446-448 | the target reads the sender and the payload with null for its infinite numbers, so the payload itself if and only if every number in it is finite |
| RelayLengths.ReadInOrder | src/relay/relayServerV2.mjs:427-448 | over every run of good registrations with payloads from parsed texts, what targets read is, in order, what the registry prescribes, without the long frames and, in a payload, exactly short of its infinite numbers |
| RelayLengths.LongFrameIsLost | src/relay/relayServerV2.mjs:448-451 | a good run with a frame the server can read, acknowledges as forwarded and does not write |
| RelayTheorems.TieRoutesToOldest | src/relay/relayServerV2.mjs:158-166 | registrations within one millisecond: after the newest closes, frames go to the oldest |
| RelayTheorems.AcceptedIds | src/relay/relayServerV2.mjs:95-100 | the ids that can be registered: not empty, at most 128 units, no white space at either end |
| RelayTheorems.KeyCollision | src/relay/relayServerV2.mjs:102-104 | two node ids that can be registered share a table key for some session ids that can be, if and only if the shorter with two colons begins the longer with one, and no white space follows that in the longer |
| RelayTheorems.CollisionMisroutes | src/relay/relayServerV2.mjs:364-392 | two registrations whose keys collide: frames for one node go to the other |
| RelayTheorems.SecondKeyLeavesEntry | src/relay/relayServerV2.mjs:316-328 | a socket that registers twice under different ids and closes leaves its first entry routed to a closed socket |
| WsFrames.Reader.OnData | src/relay/relayServerV2.mjs:330-335 | one chunk of bytes: the frames read and the bytes kept |
| WsFrames.ReadOneStays | src/relay/relayServerV2.mjs:34-75 | a complete frame reads the same whatever bytes follow |
| WsFrames.ClientFrameRead | src/relay/relayServerV2.mjs:49-69 | a masked frame of any opcode and length below 64 KiB is read back exactly |
| WsFrames.NothingLost | src/relay/relayServerV2.mjs:330-335 | for every stream and every way of cutting it into chunks, the frames seen and those still whole in the buffer are the frames of the stream |
| WsFrames.ChunksDoNotMatter | src/relay/relayServerV2.mjs:34-75 | without closing frames every way of cutting the stream gives the same frames and the same rest |
| WsFrames.TextsArrive | src/relay/relayServerV2.mjs:19-32 | texts the relay writes are read as exactly those texts, in order, under every cutting |
| WsFrames.CloseDelays | src/relay/relayServerV2.mjs:71 | frames behind a closing frame wait for the next chunk, so there the cutting does matter |
| RelayHealth.CountNodeSessions | scripts/relay_health_check.mjs:30-33 | the count of listed entries of a node |
| RelayHealth.AnalyzeTraces | scripts/relay_health_check.mjs:35-69 | the four counts over the last 80 traces |
| RelayHealth.TallySays | scripts/relay_health_check.mjs:35-54 | which events each of the four counts counts |
| RelayHealth.Worsen | scripts/relay_health_check.mjs:154-182 | what the trace section does to a verdict, in closed form |
| RelayHealth.Judge | scripts/relay_health_check.mjs:132-187 | the branch chain equals the closed form in session count and trace counts, findings included |
| RelayHealth.Check | scripts/relay_health_check.mjs:103-187 | the check on what was fetched, an unavailable endpoint included |
| RelayHealth.Monotone | scripts/relay_health_check.mjs:132-187 | the verdict never gets milder as sessions or bad counts grow or forwards shrink |
| RelayHealth.HealthyExactly | scripts/relay_health_check.mjs:175-177 | with both endpoints read, healthy if and only if there is no finding |
| RelayHealth.HealthyMeansOneSession | scripts/relay_health_check.mjs:30-69 | on the relay reached by any run at all, healthy means exactly one live session, and no drop or close of the node among the last 80 events of the whole history |
| RelayHealth.HealthyNodeIsReached | scripts/relay_health_check.mjs:144-146 | after good registrations, frames for such a node go to that session if and only if its socket is not gone |
| Session.StepIsTwoFlagRule | spec/v0.4.3.md:142-174 | the transition tables accept and refuse exactly what the two-flag rule does, and phases stay a reading of the flags |
| Session.MutualIsBothFlags | spec/v0.4.3.md:155-160 | in every run, mutual entry if and only if both flags are set in an open session |
| Session.EntriesCommute | src/phase2/session/session.manager.mjs:99-117 | the two entries give the same session in either order and repetition changes nothing |
| Session.TerminalAbsorbs | src/phase2/session/session.manager.mjs:71-73 | no sequence of events leaves a terminal phase or is audited there |
| Session.RefusedFor | src/phase2/session/session.manager.mjs:63-81 | why an event is refused: its type, an ended session, a phase that does not take it, or a close without a reason |
| Session.ClosedFor | src/phase2/session/session.manager.mjs:118-126 | a session is closed for the reason its close gives, and nothing else gives one |
| Session.OneAuditEvent | src/phase2/session/session.manager.mjs:135-147 | an accepted event leaves one audit event, with the phase before and after and the flags that changed |
| Session.NeverFails | src/phase2/session/session.manager.mjs:13-23 | no event leads to the failed phase |
| Session.RunAdvances | src/phase2/session/session.manager.mjs:63-150 | over every run, phases only advance and no entry is taken back |
| Session.FlagsHaveEntries | src/phase2/session/session.manager.mjs:99-117 | a flag is set if and only if an entry of that side was accepted |
| Session.PatchReproduces | src/phase2/session/session.types.mjs:8-23 | applying the patch gives the full next state |
| Session.ReplayReproduces | PHASE2_FROZEN.md:63-66 | the audit events of any run alone reproduce phase and flags |
| FriendshipNode.FriendNode.HandleRemoteEnvelope | src/runtime/router/messageRouter.mjs:18-65 | one envelope through validation, signature, decryption, body check, session, store and trigger, failing closed at each, when nothing else writes meanwhile |
| FriendshipNode.InboundExactly | src/phase2/processor/protocolProcessor.mjs:42-67 | the first of envelope, signature, ciphertext and body that is not right decides the fault; what passes them is accepted exactly when the two-flag rule accepts its event, and gives the session it prescribes |
| FriendshipNode.FriendNode.HandleLocalEvent | src/phase2/processor/protocolProcessor.mjs:86-98 | one local event, stored as the router stores |
| FriendshipNode.FriendNode.TriggerFriendship | src/phase3/friendship/friendshipTrigger.mjs:26-69 | the three results of the trigger, and a failed write passed on |
| FriendshipNode.TriggerTells | src/phase3/friendship/friendshipTrigger.mjs:46-69 | the trigger says written if and only if the records grew by one, idempotent if and only if it was due and the peer had a record, and it fails if and only if the store did for a new peer |
| FriendshipNode.FriendNode.WriteFriendshipIfNeeded | src/phase3/friendship/friendshipWriter.mjs:28-72 | the writer's results and the friends afterwards; a failing store keeps what it had |
| FriendshipNode.RunSound | PHASE2_FROZEN.md:10-18 | every run keeps sessions legal, the audit log complete and friend records backed by both flags |
| FriendshipNode.FriendshipNeedsBothEntries | spec/v0.4.3.md:171-172 | a friend record names the peer of a session in which both sides entered, both entries in the log |
| FriendshipNode.OneRecordPerPeer | PHASE3_FROZEN.md:18-20 | at most one record per peer over all sessions |
| FriendshipNode.AuditTellsAll | PHASE2_FROZEN.md:29-31 | after handlers that do not overlap, every stored session can be read off the node's audit log |
| FriendshipNode.FailClosed | PHASE2_FROZEN.md:12-18 | a refused input changes nothing at all; an accepted one adds exactly one audit event and touches one session |
| FriendshipNode.NoRecordAfterClose | spec/v0.4.3.md:389-392 | after a session is terminal, whatever handlers follow one after the other, it stays as it is and no record is written for it |
| FriendshipNode.RecordExactly | src/phase3/friendship/friendshipTrigger.mjs:26-44 | a message leads to a record if and only if it is accepted with the trigger on and a working store, the peer has none, and it completes mutual entry or is an error report after it |
| FriendshipNode.EntryNotRetried | src/phase3/friendship/friendshipWriter.mjs:47-48 | after a failed write the same entry is refused, so delivering it again writes nothing |
| FriendshipNode.OpenedPeer | src/runtime/router/messageRouter.mjs:23-29 | the peer of a session opened by a message is its sender if and only if the message's extra field says so |
| Overlap.StepIsReadAndWrite | src/runtime/router/messageRouter.mjs:22-37 | one step of the node is the read, what the handler makes of it, and the write of the whole next session |
| Overlap.WriteExactly | src/runtime/router/messageRouter.mjs:31-37 | a handler that read earlier writes what the whole step would do now, if and only if the session is as it read it, or it is refused either way |
| Overlap.SerialExactly | src/runtime/router/messageRouter.mjs:22-37 | over every interleaving of handlers, the node is at every moment that of the inputs one after the other, in the order in which handlers end, if and only if each that ends finds its session as it read it, or is refused either way |
| Overlap.LockSuffices | PHASE3_FROZEN.md:35 | a lock for each session, which the code does not have, would be enough for that |
| Overlap.LockedIsSound | PHASE2_FROZEN.md:10-18 | under it sessions stay legal, the audit log complete and friend records backed by both flags |
| Overlap.LockedKeepsClosed | spec/v0.4.3.md:389-392 | under it a terminal session stays as it is and gets no record |
| Overlap.CloseIsOverwritten | src/runtime/router/messageRouter.mjs:22-57 | an entry that read before a close was written opens the closed session again, and a friend record follows |
| Overlap.EntryIsOverwritten | src/runtime/router/messageRouter.mjs:22-57 | a close that read before an entry was written takes the entry back, so a record stands without it and the session is not what the audit log tells |
| Overlap.OverlapReached | src/runtime/router/messageRouter.mjs:22-57 | between any two parties there are inputs that lead to both |
| Consent.OwnHumanEntered | spec/v0.4.3.md:347-349 | over every legal run of many nodes, a record at an honest node means its own human entered |
| Consent.BothHumansEntered | spec/v0.4.3.md:171-172 | when entries are taken only from the session's peer, a record naming an honest peer means both humans entered that session with each other, despite loss, repetition, reordering and forgery |
| Consent.ConsentExactly | src/phase2/session/session.manager.mjs:99-117 | two honest nodes are kept to mutual consent by taking entries between them from one sender if and only if that sender is the peer |
| Consent.StrangerBefriends | src/phase2/session/session.manager.mjs:99-117 | without that guard, for every stranger there is a run that records an honest peer whose human never entered |
| Consent.TranscriptAgreement | spec/v0.4.3.md:336-337 | an honest peer's entry carries the locally computed hash if and only if the peer, when announcing it, held the same ordered probe messages |
| Consent.GuardedRunAgrees | src/phase2/session/session.manager.mjs:99-117 | over every legal run, the accepted entries of honest actors all stand for transcripts both sides hold if and only if each carried the hash computed by the node that accepted it |
| LostProbe.LostProbeBefriends | src/phase2/session/session.manager.mjs:99-117 | without that guard, for all parties and sessions, a legal run in which one probe message is lost and an honest entry with another hash is accepted and leads to a friend record |
| RemoteInvocation.MachineB.RegisterHandler | src/execution/capabilityHandlerRegistry.mjs:38-46 | a non-blank id maps to its latest handler; another id is refused |
| RemoteInvocation.NamedExactly | src/remote/remoteExecutionEntry.mjs:30-36 | a name is a string with something besides white space in it |
| RemoteInvocation.MachineB.OnInbound | scripts/remote_execution_two_machine_relay_e2e.mjs:186-218 | one answer is sent, or none |
| RemoteInvocation.AnswerSays | src/remote/remoteExecutionEntry.mjs:23-50 | every payload that holds a request with a proper id is answered under that id: with the handler's bounded result if and only if it is a complete request of the right kind, the recorded friendship is established and is the one it names, and a handler gave such a result; otherwise with the code of the first check it fails |
| RemoteInvocation.WireCarries | src/remote/remoteResultReturn.mjs:63-67 | the text of an answer says, under the names of its fields, id and result or error |
| RemoteInvocation.AcceptsExactly | src/remote/remoteResultReturn.mjs:23-40 | the caller takes a payload as a result exactly when it says one under those names |
| RemoteInvocation.AdaptExact | src/capability/capabilityInvocationResult.mjs:37-55 | a raw result is accepted if and only if it is bounded |
| RemoteInvocation.AdaptedIsBounded | src/capability/capabilityInvocationResult.mjs:82-93 | an accepted result stays bounded and keeps every member but one named `__proto__` |
| RemoteInvocation.WireRoundTrip | src/remote/remoteResultReturn.mjs:63-109 | every answer, printed and parsed, passes the caller's check and is read with null for numbers that are not finite, so as it was if and only if there are none |
| RemoteInvocation.NotANumberIsLost | src/capability/capabilityInvocationResult.mjs:46-51 | the result {x: NaN} passes the executor's check and is accepted by the caller as {x: null} |
| RemoteInvocation.BoundedArrival | src/capability/capabilityInvocationResult.mjs:37-55 | a bounded result is bounded as it arrives if and only if its numbers are finite |
| RemoteInvocation.AcceptExactly | src/remote/remoteResultReturn.mjs:23-40 | what can be accepted: a non-blank id with an object, or with a non-blank error code, each of them from its own wire form |
| RemoteExchange.MachineA.ExpectResult | scripts/remote_execution_two_machine_relay_e2e.mjs:325 | the id is expected under the new name and no id twice; every other expectation stays, all in their old places, a new one last |
| RemoteExchange.MachineA.OnInbound | scripts/remote_execution_two_machine_relay_e2e.mjs:271-290 | a valid result marks its id as received, once |
| RemoteExchange.MachineA.WaitForAll | scripts/remote_execution_two_machine_relay_e2e.mjs:391-409 | the polling loop: done at the first test that passes and not before, or the missing list after the last sleep |
| RemoteExchange.MachineA.ListUnreceived | scripts/remote_execution_two_machine_relay_e2e.mjs:403-406 | the expected results that were not received, in order |
| RemoteExchange.SizeTestExact | scripts/remote_execution_two_machine_relay_e2e.mjs:396 | comparing sizes is testing completeness when nothing foreign was received |
| RemoteExchange.ForeignResultPasses | scripts/remote_execution_two_machine_relay_e2e.mjs:276 | with a foreign result the size test can pass while an expected one is missing |
| RemoteExchange.CountIsCompleteness | scripts/remote_execution_two_machine_relay_e2e.mjs:246-276 | over every run of caller, network and executor, the count is enough if and only if every expected result has arrived |
| RemoteExchange.ResultsAreLocal | scripts/remote_execution_two_machine_relay_e2e.mjs:186-218 | over every run, each logged result answers, under its id, a request that was sent: a failure is the text of the first check it failed; a success is what its handler returned at the executor, bounded, for a complete request under the recorded established friendship that it names, as it is if and only if that has finite numbers only, else with null for the others |
| RemoteExchange.SentIsFamiliar | scripts/remote_execution_two_machine_relay_e2e.mjs:269-276 | over every run, nothing on its way to the caller is foreign to it |
| RemoteExchange.DoneExact | scripts/remote_execution_two_machine_relay_e2e.mjs:395-401 | the verdict is done if and only if every expected result arrived before the last sleep |
| RemoteExchange.MissingExact | scripts/remote_execution_two_machine_relay_e2e.mjs:403-409 | on a time-out the missing list is expected minus received, and empty if and only if the last result came in the last sleep |
| RemoteExchange.MissingInOrder | scripts/remote_execution_two_machine_relay_e2e.mjs:407 | the missing list is sorted by name |
| NodeIdentity.Workspace.Bootstrap | scripts/run_agent_loop.mjs:120-169 | a boot that may die after any write: the files it leaves and the id it reports |
| NodeIdentity.Workspace.Regenerate | scripts/run_agent_loop.mjs:126-140 | the branch for a copied workspace, with the same |
| NodeIdentity.Workspace.Create | scripts/run_agent_loop.mjs:149-161 | the branch without an id, with the same |
| NodeIdentity.Workspace.ReadOrCreateHolder | scripts/supervisor_watchdog.mjs:37-45 | the watchdog writes an id only where there is no file; a blank file is left as it is and gives no id |
| NodeIdentity.BootLeaves | scripts/run_agent_loop.mjs:123-169 | from any files to the files and the id after a boot that gets through: a known machine keeps its id, otherwise the id is derived from its fingerprint and the seed then on file, and the fingerprint is recorded unless there was none and the write failed |
| NodeIdentity.SameIdEver | scripts/run_agent_loop.mjs:123-169 | from any files, once a boot gets through, every later boot of that machine that does so reports the same id, with crashes anywhere in between |
| NodeIdentity.RecoversExactly | scripts/run_agent_loop.mjs:149-161 | losing the id file alone is made good if and only if the id had been derived from the seed in place |
| NodeIdentity.ClonesGetOwnIds | scripts/run_agent_loop.mjs:126-140 | over every run with crashes, unrecorded fingerprints, a watchdog and copies of recorded workspaces, machines with different fingerprints never report one id |
| NodeIdentity.CopyGetsOwnId | scripts/run_agent_loop.mjs:126-169 | after any run, a workspace whose boot recorded the fingerprint may be copied, and a boot of the copy on a machine with another fingerprint reports another id |
| NodeIdentity.CopyExact | scripts/run_agent_loop.mjs:126-145 | a settled workspace takes its id to another machine if and only if the fingerprint was not recorded |
| DaemonLock.LockFile.Acquire | scripts/run_agent_loop.mjs:44-73 | check and write of the lock, a malformed one included |
| DaemonLock.RecognisesExactly | scripts/run_agent_loop.mjs:49-63 | a check recognises a process that it may signal and that has both words somewhere in its command line |
| DaemonLock.RunExactly | scripts/run_agent_loop.mjs:33-74 | run by run, however each process is seen by later checks: at most one daemon lives and the lock names it at every moment, if and only if every start finds a lock that is not malformed and recognises the daemon that lives |
| DaemonLock.SingleExactly | scripts/run_agent_loop.mjs:33-74 | for all runs of starts, deaths and reused numbers in which daemons are recognised: at most one daemon lives and the lock names it, if and only if the lock does not start out malformed |
| DaemonLock.StepExactly | scripts/run_agent_loop.mjs:44-71 | one start keeps this if and only if the lock is not malformed and the daemon that lives, if one does, is recognised; nothing else breaks it |
| DaemonLock.LocalAndForeign | scripts/run_agent_loop.mjs:49-63 | a daemon started from its own directory, whose command line lacks the path of the script, and one of another user, which cannot be signalled, are each joined by a second daemon |
| DaemonLock.OverlapDefeats | scripts/run_agent_loop.mjs:57-71 | starts that both check before either writes both go on |
| KeyBinding.AgentStore.EnsureKeypair | scripts/run_agent_loop.mjs:206-215 | a loaded pair is returned, otherwise a new one overwrites the file |
| KeyBinding.AgentStore.Bind | scripts/run_agent_loop.mjs:195-273 | the files and the binding a boot leaves |
| KeyBinding.PublishesKey | scripts/run_agent_loop.mjs:236-241 | a binding publishes the public text on file without the white space around it, if there is anything else in it |
| KeyBinding.SignaturesVerify | scripts/run_agent_loop.mjs:206-248 | over any boots, an override stands as it is, and a signature that was not overridden verifies under the published key for the bound node id if and only if no key file was there at the start or the halves in it belong together |
| KeyBinding.BoundForGood | scripts/run_agent_loop.mjs:195-223 | once agent id and key pair are on file no boot changes either |
| KeyBinding.VerifiableExactly | scripts/run_agent_loop.mjs:202-223 | after a first verifiable boot that completes, and all later ones that do, the agent id is the hash of the public text on file if and only if the pair was on file beforehand |
| KeyBinding.PublishedExactly | scripts/run_agent_loop.mjs:220-241 | it is the hash of the key as published if and only if, besides, the text on file has no white space around it |
| OfferFeed.Inspect | scripts/offer_inspect.mjs:45-80 | the rows shown for a feed, or the failure on a null among the lines read |
| OfferFeed.FoldByOffer | scripts/offer_inspect.mjs:48-65 | the loop keeps the latest event per offer, or fails |
| OfferFeed.Select | scripts/offer_inspect.mjs:80 | the status filter keeps the order of the rows |
| OfferFeed.RowsAreLatest | scripts/offer_inspect.mjs:59-78 | for every feed, rows are latest events, one per offer, from late to early, and what is left out is no later |
| OfferFeed.ShownAsAsked | scripts/offer_inspect.mjs:46-80 | every row that is shown has the type, offer and status asked for and stands in the lines read |
| OfferFeed.NothingSkipped | scripts/offer_inspect.mjs:55-80 | of every event in the lines read with the type and offer asked for, the offer is shown as it was then or later, unless an event of it no earlier has another status, or as many others as are shown have events no earlier |
| OfferFeed.ShownAtMost | scripts/offer_inspect.mjs:69 | at most as many rows as were asked for, or one, or fifty |
| OfferFeed.TailExactly | scripts/offer_inspect.mjs:46 | the lines read are the last ones, at least 200 and twenty for each row |
| OfferFeed.SortedIsRecents | scripts/offer_inspect.mjs:59-68 | with increasing timestamps, folding and sorting gives the offers by last appearance |
| OfferFeed.TailIsEnough | scripts/offer_inspect.mjs:46-69 | the rows of the tail are those of the whole feed if and only if the tail names as many offers as are shown, or all of the feed's |
| OfferFeed.InspectsWholeFeed | scripts/offer_inspect.mjs:45-80 | the whole inspection, filters included, answers as on all lines if and only if every row of that answer is of an offer the filtered tail names or has a status that is filtered out |
| Inbox.MessageBox.Push | scripts/agent_dialogue_e2e.mjs:54 | a message goes last |
| Inbox.MessageBox.TakeAt | scripts/agent_dialogue_e2e.mjs:59 | taking one out keeps the order of the others, and what was taken and is queued is what was pushed |
| Inbox.MessageBox.WaitFor | scripts/agent_dialogue_e2e.mjs:55-65 | the polling loop takes the first match, and otherwise leaves everything queued |
| Inbox.VerifiedSender.SendWithVerify | scripts/agent_dialogue_e2e.mjs:208-221 | a confirmed send appends what was received, a timed-out one nothing |
| Inbox.ConfirmedByKeys | scripts/agent_dialogue_e2e.mjs:208-221 | a send is confirmed exactly when a dialogue message with its id and turn is queued at its side or arrives before the last poll, and receives such a one |
| Inbox.ReceivesWhatWasSent | scripts/agent_dialogue_e2e.mjs:206-221 | when all sends succeed and messages under the sent keys are genuine, what was received is exactly what was sent, in order |
| Inbox.ReceiptExactly | scripts/agent_dialogue_e2e.mjs:213-220 | a confirmed send receives what was sent, in whatever way messages are queued and arrive, if and only if no message carries the sent keys with another payload |
| Inbox.TimesOutExactly | scripts/agent_dialogue_e2e.mjs:57-64 | a wait times out if and only if nothing that arrived before the last poll matches |
| ProbeEngine.AnalyzeSequence | src/phase4/probe/probeEngine.mjs:43-111 | accepts exactly the transcripts of whole rounds, then perhaps a summary, then perhaps the end, and says which |
| ProbeEngine.Next | src/phase4/probe/probeEngine.mjs:119-145 | the output for every state and transcript, and exactly when it fails |
| ProbeEngine.FormUnique | src/phase4/probe/probeEngine.mjs:110 | a transcript has one analysis |
| ProbeEngine.StrictGrammar | PHASE4_FROZEN.md:60-65 | which accepted transcripts are prefixes of the frozen grammar |
| ProbeEngine.StrictPrefixes | PHASE4_FROZEN.md:60-65 | which prefixes of the frozen grammar are accepted: all but those with an open question |
| ProbeEngine.SpeakAppends | src/phase4/probe/probeEngine.mjs:131-144 | each output, answered, extends the transcript by what it says |
| ProbeEngine.DriveEnds | PHASE4_FROZEN.md:21-24 | from every accepted transcript the engine ends a finished one within four steps and is then silent |
| ProbeEngine.DriveFromNothing | PHASE4_FROZEN.md:60-62 | from nothing it ends in the frozen sequence |
| ProbeEngine.SaysInOrder | src/phase4/probe/probeEngine.mjs:8-12 | the drive from nothing asks the two fixed questions in their order, sums up and ends, and then says nothing |

## Left out

- Sockets, HTTP servers, timers, child processes and the file system as such: they appear as steps, deliveries and time-outs in any order.
- SHA-256, Ed25519 and encryption: a digest is a function, signing and decrypting are given by the environment.
- Relay.RelayServer.Accept: ending the replaced socket is not a step of its own; its close may come at any later time or never.
- Relay.RelayServer.PushTrace: the time stamps of trace entries.
- WsFrames.Reader.OnData: pings, pongs and the upgrade handshake, which do not touch the frames of text messages.
- Relay.RelayServer.OnCleanup: the diagnostics `/nodes`, `/traces` and `/network_stats` are read-only views; the first two enter `RelayHealth` as what they list, unsorted.
- FriendshipNode.FriendNode.HandleRemoteEnvelope: the plain-text lint and the field rules of bodies other than entries and closes are the environment's; which audit record carries which time and digest, the audit of a friend write and the key fingerprint of a friend are not modelled.
- FriendshipNode.FriendNode.HandleLocalEvent: the repository has no caller that stores the result of a local event; it is stored here as the router stores that of a message.
- Consent.BothHumansEntered: actors that are not honest have no state; nothing is claimed about their humans.
- RemoteExchange.MachineA.WaitForAll: the clock; the loop runs for as many polls as there are batches.
- OfferFeed.Inspect: a fractional row limit, the summary mode and the projection of an event to the columns of a row.
- NodeIdentity.Workspace.Bootstrap: environment variables and log lines; a fingerprint is what the machine reports, however it is found.
- DaemonLock.OverlapDefeats: how long a check and a write may be apart.
- KeyBinding.AgentStore.Bind: a key file whose halves are no texts; one without two texts that are not empty counts as none. The hash in an agent id is not cut to twelve digits.
- JsValue.RendersExactly: a stack overflow on arrays nested very deeply.
- RelayAnswers.UpExactly: the same in printing a frame with a payload nested very deeply, which ends the server after the frame was traced as received.
- JsParse.ParseGivesProper: a number read keeps the text it was written with unless it is infinite (JSON.parse rounds, and 1.0 prints as 1), and an object the order of its text (JSON.parse puts array-index keys first); the printed form of a value has both already. Minus zero is zero.
- RemoteInvocation.MachineB.OnInbound: whether an answer reaches the caller, since concurrent answers share one registration and may replace each other; results that are no JSON at all, which the bounded check refuses as it does null.
- Task claims, publishing, gossip, reputation, earnings, strategy, memory, capability references, the Phase 3 init and ack pipeline, transport selection, snapshot printers, installers and migrations: short constructors, display or plumbing.
