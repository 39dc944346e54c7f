# Note4 platform: verified model

A Dafny model of the parts of the Note4 firmware and its host tools that keep state, count and encode:

- the companion link: checksummed frames (`Frame`, `Crc32`), fragmentation and reassembly (`Fragments`),
  type-length-value fields (`Tlv`), resource payloads (`ResourceGateway`), the durable store of a peer
  (`SyncEngine`), its announced cursors (`SyncCursors`), the stop-and-wait session over it (`SyncSession`) and two
  such peers joined by a network that loses, repeats, delays and reorders (`SyncLink`), with what they achieve
  without losses (`SyncProgress`), in spite of them (`SyncRetry`) and what becomes of each frame (`SyncOutcome`);
- pairing: one-shot enrollment material (`PairingBootstrap`) and the publisher that keeps it on the tag
  (`EnrollmentPublisher`); the pacing of new values beside Wi-Fi (`RadioArbiter`);
- the maintenance console: the one-slot request dispatcher shared by two tasks (`ControlDispatcher`), the line editor
  and the terminal that mirrors it (`LineEditor`), and the session that changes its buffers in place (`CliSession`);
- the application shell: what applications ask for (`AppContract`), the runtime that switches them (`AppRuntime`) and
  the scene stack (`SceneManager`);
- codecs of the host tools: COBS packets (`Cobs`), digit glyphs (`DigitCodec`, `DigitTiles`) and the packed
  reader font (`TileFont`);
- devices as memories: the NFC tag (`Nfc`) and the calendar chip (`Rtc`).

`Bytes`, `Arithmetic` and `Wrappers` hold what several of these share.

How the model is built:

- An object whose methods change its fields is a class with those fields. Each method is tied to a function of the
  old state that gives the whole new state; the theorems are about those functions, over every run. A loop that the
  source runs in place stays a loop over an array or a growing buffer.
- Two tasks, two peers and arbitrary callers are sequences of atomic steps. A frame, once handed to the sender, may
  arrive any number of times, at any later moment and in any later session, or never.
- Callbacks are any code within what the reentry guards allow: a loop of arbitrary calls. What they did is kept in a
  ghost trace.
- Whatever the program asks of the outside world is a parameter or an arbitrary choice: whether a save, a write or a
  bus transfer succeeds, what the clock shows, random bytes, what an executor or an application answers.
- The clock is a 32-bit counter that wraps; sequence numbers, generations and 16-bit coordinates have their width.

Where the code and its promise differ:

- A mutation that ran can be reported as cancelled before its start, exactly by a Cancel after Shutdown began and
  Inspect returned (`CancelAfterShutdownMisreports`, `DeniedExactlyByLateCancel`).
- A stretch of T milliseconds within pacing can admit one value more than T / 250, exactly when it begins with less
  than the whole interval left (`RateHoldsExactlyWithWholeInterval`, `AnyWindowIsPaced`).
- The publisher and the bootstrap read a deadline exactly half the clock range ahead differently
  (`HalfWayIsDueButQuiet`, `DueExactlyWhenPublishing`, `DueInEveryRun`).
- The union of two dirty regions covers both only while the rectangle around them fits 16 bits; beyond that both can be
  lost (`UnionCoversBoth`, `FarRegionsAreLost`).
- Tickets repeat, but only after (2^64 - 1) * 2^32 requests (`TicketsCollide`).
- A launcher that fails has shown failsafe already, so the failsafe call behind a failed fallback is never reached
  (`EnterLauncherFallback`).

## Model

| member | source | states |
|---|---|---|
| `SyncLink.EveryRunKeepsLink` | components/note4_companion/note4_sync_session.cc:116-264 | in every run of two peers whose frames may be lost, repeated, delayed and reordered across any number of sessions, each peer applied only what the other admitted, and holds acknowledged only what the other applied |
| `SyncLink.AcknowledgedWasApplied` | components/note4_companion/note4_sync_session.cc:138-168 | in every run, the revision a peer holds acknowledged for a key was applied by the other peer with the one value ever put for it, no newer than what the other peer has applied; and nothing is ever applied that was not put |
| `SyncLink.ConvergedHasDelivered` | components/note4_companion/note4_sync_session.cc:255-264 | in every run, a converged session leaves nothing to deliver: the other inbox holds exactly the newest value of every key ever put |
| `SyncLink.CurrentCursorsReconcile` | components/note4_companion/note4_sync_engine.cc:297-354 | in every run, the cursors a peer holds now survive their encoding and never ask the other for a resync; opening fails for want of cursors exactly when both peers together use more than eight keys |
| `SyncLink.StepKeepsLink` | components/note4_companion/note4_sync_session.cc:116-253 | no put, announcement, opening, arrival, poll or disconnect at one peer breaks what either direction of the link promises |
| `SyncLink.InFlightWasApplied` | components/note4_companion/note4_sync_session.cc:152-167 | an accepting reply for the value in flight finds exactly that revision applied at the other side, never a newer or older one |
| `SyncLink.PollEffect` | components/note4_companion/note4_sync_session.cc:201-253 | a poll hands over only the waiting reply or the value in flight, and what it admits is the first pending value |
| `SyncLink.StateEffect` | components/note4_companion/note4_sync_session.cc:169-198 | an arriving value is stored or refused by the engine and answered with that outcome, or changes neither store nor reply |
| `SyncLink.ReplyEffect` | components/note4_companion/note4_sync_session.cc:152-167 | a reply reaches the engine only when it accepts the key and revision in flight |
| `SyncProgress.NeverRefusedAsInvalid` | components/note4_companion/note4_sync_engine.cc:231-269 | a value the peer admitted is never answered as a conflict or invalid: only a full store or a failed save can refuse it |
| `SyncProgress.ExchangeDelivers` | components/note4_companion/note4_sync_session.cc:138-253 | when nothing is lost, one exchange puts the first pending value into the other inbox, acknowledges it and leaves one pending value less, with both sessions active |
| `SyncProgress.DrainDeliversAll` | components/note4_companion/note4_sync_session.cc:138-253 | as many exchanges without losses as values are pending, on two wrapping clocks, empty the outbox and leave the other inbox with the newest value of every key ever put; it takes rising sequence numbers, a last answer within the progress timeout, and no more keys than cursors |
| `SyncProgress.EachTurnRetiresOne` | components/note4_companion/note4_sync_session.cc:138-253 | each of these exchanges leaves one pending value less, both sessions active and the link intact |
| `SyncProgress.StartedIsJustStarted` | components/note4_companion/note4_sync_session.cc:116-125 | a start that succeeds leaves nothing under way and the whole progress timeout |
| `SyncProgress.StartedCanDrain` | components/note4_companion/note4_sync_session.cc:116-125 | two sessions that have just started are in a state to drain, whatever their stores hold, when the pending keys of one and the keys of the other fit its cursors |
| `SyncRetry.RepeatIsAnsweredAgain` | components/note4_companion/note4_sync_session.cc:169-198 | the frame a session took last, arriving again after its reply left, changes no store, leaves the session active and is accepted once more; while the reply waits nothing happens, and other content under that number ends the session |
| `SyncRetry.RepeatsAreAnswered` | components/note4_companion/note4_sync_session.cc:116-253 | in every run of two peers, whatever happened since, an active session answers the frame it took last in this way when it arrives again |
| `SyncRetry.RetriesDeliver` | components/note4_companion/note4_sync_session.cc:138-253 | whichever of the first two attempts lose their frame or their reply, the attempt that gets through delivers the value once, retires it and leaves both sessions active |
| `SyncRetry.GivesUpAfterThree` | components/note4_companion/note4_sync_session.cc:246-252 | behind three attempts without an answer, the poll at the next retry sends nothing and times the session out |
| `SyncOutcome.BothEndsAgree` | components/note4_companion/note4_sync_session.cc:138-253 | a value in flight that arrives and whose answer arrives leaves both sessions in the same status: active and retired exactly when the engine took it or had it, store error after a failed save, protocol error and still pending after any other refusal |
| `SyncOutcome.ValueIsJudged` | components/note4_companion/note4_sync_session.cc:169-198 | a newer value goes to the engine and is answered with the byte for what became of it: 0 taken or had, 1 not saved, 3 no room, 2 anything else |
| `SyncOutcome.AnswerIsHeard` | components/note4_companion/note4_sync_session.cc:152-168 | the answer to the value in flight retires it, or ends the session with the value still in flight and the store untouched |
| `SyncOutcome.FramesOfOthersAreLeft` | components/note4_companion/note4_sync_session.cc:138-151 | the two kinds of frames that are taken; one not built as its kind asks ends the session, and all others are left alone |
| `SyncOutcome.ConvergedExactly` | components/note4_companion/note4_sync_session.cc:255-264 | converged exactly when active with nothing in flight, waiting or pending, and every revision announced as pending is applied here |
| `SyncOutcome.AdmittedExactly` | components/note4_companion/note4_sync_session.cc:201-245 | with a value pending and nothing else to do, a timely poll admits it exactly with leave and under a number that is neither zero nor the last; a used-up number is a protocol error |
| `SyncOutcome.ProgressLastsFifteenSeconds` | components/note4_companion/note4_sync_session.cc:213-217 | from the first poll behind progress or a pause, a later poll times out for want of progress exactly from fifteen seconds on, and before only behind three attempts |
| `SyncOutcome.StartForgets` | components/note4_companion/note4_sync_session.cc:116-136 | a session is started afresh whatever it was before, and a start that fails leaves it disconnected |
| `SyncOutcome.DisconnectedIsQuiet` | components/note4_companion/note4_sync_session.cc:127-136 | a disconnected session takes no frame, sends nothing, announces no wake-up and is not converged |
| `SyncSession.SyncSession.Start` | components/note4_companion/note4_sync_session.cc:116-125 | the whole new session and store of a start, refused unless the cursors reconcile |
| `SyncSession.SyncSession.Receive` | components/note4_companion/note4_sync_session.cc:138-199 | the whole new session and store for any frame: the function that RepeatIsAnsweredAgain, BothEndsAgree and FramesOfOthersAreLeft are about |
| `SyncSession.SyncSession.Poll` | components/note4_companion/note4_sync_session.cc:201-253 | the whole new session, the sequence left, whether a value was admitted and the frame handed over |
| `SyncSession.SyncSession.IsConverged` | components/note4_companion/note4_sync_session.cc:255-264 | exactly when nothing is in flight, waiting or pending and every revision the peer announced is applied |
| `SyncSession.SyncSession.NextWake` | components/note4_companion/note4_sync_session.cc:266-272 | the wake-up computed is the one that the wake-up lemmas below and those of the arbiter are about |
| `SyncSession.NeverExactlyWhenNothingToDo` | components/note4_companion/note4_sync_session.cc:201-272 | no wake-up is announced exactly when the session is inactive, converged, or has nothing under way and no leave to admit; then no poll at any time hands over, admits or times out |
| `SyncSession.BusyIsPolledSoon` | components/note4_companion/note4_sync_session.cc:201-272 | with a reply or an admissible value waiting the wake-up is 20 ms, and a timely poll hands over the reply or admits the value |
| `SyncSession.QuietUntilWake` | components/note4_companion/note4_sync_session.cc:201-272 | with nothing waiting, a poll before the wake-up hands over, admits and times out nothing; at the wake-up the frame in flight goes again or the session times out, unless progress restarted the deadline |
| `SyncSession.DueRetryIsPolledSoon` | components/note4_companion/note4_sync_session.cc:201-272 | a retry due within 20 ms, or overdue, is polled after 20 ms, and that poll hands over the frame or times out |
| `SyncSession.SyncSession.Disconnect` | components/note4_companion/note4_sync_session.cc:127-136 | only the transport state is forgotten |
| `SyncSession.BodyRoundTrip` | components/note4_companion/note4_sync_session.cc:28-71 | decoding a value or reply payload gives back the key, revision and content encoded |
| `SyncSession.DecodedBodiesAreSendable` | components/note4_companion/note4_sync_session.cc:28-57 | whatever is decoded could have been sent: key and revision are not zero and the content is within bounds |
| `SyncSession.DecodeState` | components/note4_companion/note4_sync_session.cc:28-57 | the field loop decodes exactly the payloads whose known fields appear once each |
| `SyncSession.EncodePayload` | components/note4_companion/note4_sync_session.cc:59-71 | the payload written, or nothing when its content is too large or it does not fit |
| `SyncCursors.AnnouncementRoundTrip` | components/note4_companion/note4_sync_session.cc:74-114 | a sound list of cursors is read back whole, and an unsound one is refused |
| `SyncCursors.AcceptedAnnouncements` | components/note4_companion/note4_sync_session.cc:96-114 | every accepted announcement is the encoding of the sound list it decodes to |
| `SyncCursors.AnnouncementLayout` | components/note4_companion/note4_sync_session.cc:74-94 | each number of each cursor stands at its place, the lowest byte first |
| `SyncCursors.EncodeSyncCursors` | components/note4_companion/note4_sync_session.cc:74-94 | the bytes written and the exact error for too many, unsound or too long cursor lists |
| `SyncCursors.DecodeSyncCursors` | components/note4_companion/note4_sync_session.cc:96-114 | accepts exactly framed lists of sound cursors |
| `SyncEngine.PutEffect` | components/note4_companion/note4_sync_engine.cc:83-141 | a put is accepted only above every earlier revision of its key and changes only that pending value; otherwise nothing changes |
| `SyncEngine.AcknowledgeEffect` | components/note4_companion/note4_sync_engine.cc:158-193 | an acknowledgement advances only that key, and keeps a newer coalesced value pending |
| `SyncEngine.AcceptEffect` | components/note4_companion/note4_sync_engine.cc:231-269 | a value is stored with its cursor exactly when it is newer; a duplicate of the newest revision carries the stored value |
| `SyncEngine.ReconcileEffect` | components/note4_companion/note4_sync_engine.cc:297-354 | after reconciling, acknowledged revisions are old ones or ones the peer told, received values are untouched, and no newest revision moves |
| `SyncEngine.CursorsTell` | components/note4_companion/note4_sync_engine.cc:284-295 | the announced cursors say of each key exactly what the store holds, and list no key twice |
| `SyncEngine.ScreenPeerExact` | components/note4_companion/note4_sync_engine.cc:313-323 | the peer list passes exactly when each entry is sound, listed once and compatible |
| `SyncEngine.AdoptAllEffect` | components/note4_companion/note4_sync_engine.cc:333-346 | adopting the peer list never runs out of cursors and touches exactly the listed keys |
| `SyncEngine.SyncEngine.PutDurableState` | components/note4_companion/note4_sync_engine.cc:83-141 | the whole new store and status, rolled back when saving fails |
| `SyncEngine.SyncEngine.AcknowledgeDurableState` | components/note4_companion/note4_sync_engine.cc:158-193 | the whole new store and status, rolled back when saving fails |
| `SyncEngine.SyncEngine.AcceptIncomingState` | components/note4_companion/note4_sync_engine.cc:231-269 | the whole new store and status, rolled back when saving fails |
| `SyncEngine.SyncEngine.ReconcilePeerCursors` | components/note4_companion/note4_sync_engine.cc:297-354 | the whole new store and status, rolled back when saving fails |
| `SyncEngine.SyncEngine.NextDurableState` | components/note4_companion/note4_sync_engine.cc:143-156 | the first pending value in slot order |
| `SyncEngine.SyncEngine.PendingDurableCount` | components/note4_companion/note4_sync_engine.cc:422-428 | the number of pending values |
| `SyncEngine.SyncEngine.FindCursorSlot` | components/note4_companion/note4_sync_engine.cc:629-636 | the cursor of the key, or else the first unused one |
| `SyncEngine.SyncEngine.PeerCursors` | components/note4_companion/note4_sync_engine.cc:284-295 | one entry for each used cursor, with the pending revision of its key |
| `Crc32.UpdateCrc32` | components/note4_companion/note4_companion_protocol.cc:44-53 | the mask loop computes the bitwise checksum step for step |
| `Crc32.Crc` | components/note4_companion/note4_companion_protocol.cc:57-62 | complemented on the way in and out, so that checksums chain |
| `Crc32.ChecksumChains` | components/note4_companion/note4_companion_protocol.cc:57-62 | the checksum of a concatenation is the checksum of the second part continued from the first |
| `Crc32.CrcSeqInjective` | components/note4_companion/note4_companion_protocol.cc:44-53 | every checksum step is injective: two different registers never meet over the same bytes |
| `Crc32.BurstChangesChecksum` | components/note4_companion/note4_companion_protocol.cc:44-62 | every change confined to four consecutive bytes changes the checksum |
| `Crc32.CheckValue` | components/note4_companion/note4_companion_protocol.cc:44-62 | the checksum of the nine digits is 0xcbf43926, the check value of the reflected polynomial 0xedb88320 |
| `Frame.DecodeInvertsEncode` | components/note4_companion/note4_companion_protocol.cc:89-172 | decoding returns the header and payload a frame was made of, for every header and payload within bounds |
| `Frame.FrameLayout` | components/note4_companion/note4_companion_protocol.cc:108-125 | each field stands at its place in the frame, the lowest byte first |
| `Frame.WrongLengthIsRejected` | components/note4_companion/note4_companion_protocol.cc:138-156 | a frame cut short anywhere is truncated, and one with anything behind it oversized |
| `Frame.EncodedExactly` | components/note4_companion/note4_companion_protocol.cc:97-106 | encoding is refused exactly for an unknown class or flag, a large payload or a small buffer |
| `Frame.DecodeAcceptsOnlyFrames` | components/note4_companion/note4_companion_protocol.cc:130-172 | every accepted byte string is exactly the frame of what it decodes to |
| `Frame.CorruptionIsRejected` | components/note4_companion/note4_companion_protocol.cc:130-172 | a frame whose covered bytes changed within four consecutive positions, or whose stored checksum changed, is never accepted |
| `Frame.OneChangedByteIsRejected` | components/note4_companion/note4_companion_protocol.cc:130-172 | a frame with any one byte changed is never accepted |
| `Frame.EncodeFrame` | components/note4_companion/note4_companion_protocol.cc:89-128 | the exact error, or the frame at the front of the buffer with the rest untouched |
| `Fragments.CompleteFrameIsJoinedFragments` | components/note4_companion/note4_companion_protocol.cc:363-425 | after any packets whatever, a complete frame is the joined data of the packets accepted since the latest start, of one frame and contiguous, and as long as its header declares |
| `Fragments.FragmentsRebuildFrame` | components/note4_companion/note4_companion_protocol.cc:320-425 | for every frame, every packet capacity above the header and every earlier state, feeding the fragments in order rebuilds the frame, complete with the last one only |
| `Fragments.RunCollects` | components/note4_companion/note4_companion_protocol.cc:363-425 | at every moment the reassembler holds the joined data of one contiguous chain |
| `Fragments.CountCovers` | components/note4_companion/note4_companion_protocol.cc:320-328 | a fragment index is valid exactly when its offset lies inside the frame |
| `Fragments.PacketLayout` | components/note4_companion/note4_companion_protocol.cc:350-358 | a packet holds its frame, its offset and its part of the frame, and its flags say whether the part begins or ends the frame |
| `Fragments.EncodeFragment` | components/note4_companion/note4_companion_protocol.cc:330-361 | the exact error, or the packet of that index |
| `Fragments.FragmentReassembler.AcceptPacket` | components/note4_companion/note4_companion_protocol.cc:363-425 | the whole new state and status for any packet |
| `Fragments.FragmentReassembler.Reset` | components/note4_companion/note4_companion_protocol.cc:427-432 | nothing is collected |
| `Tlv.ParseInvertsList` | components/note4_companion/note4_companion_protocol.cc:274-318 | reading a written list of fields gives back the fields |
| `Tlv.ParseAcceptsOnlyLists` | components/note4_companion/note4_companion_protocol.cc:296-318 | a payload is well formed only when it is the list of what was read |
| `Tlv.CollectExact` | components/note4_companion/note4_resource_gateway.cc:104-150 | fields are collected exactly when none is refused and no kind is taken twice, whatever their order |
| `Tlv.FieldLayout` | components/note4_companion/note4_companion_protocol.cc:283-286 | a field is its kind with the required bit, its size and its value |
| `Tlv.OrderAndSkippedFieldsDoNotMatter` | components/note4_companion/note4_resource_gateway.cc:104-150 | reordering fields and inserting skipped ones changes no collected value |
| `Tlv.TlvWriter.Add` | components/note4_companion/note4_companion_protocol.cc:274-288 | the exact error, or the field appended with everything behind it untouched |
| `Tlv.TlvReader.Next` | components/note4_companion/note4_companion_protocol.cc:296-318 | the field at the front of what is left, the end, or a malformed payload |
| `ResourceGateway.RequestRoundTrip` | components/note4_companion/note4_resource_gateway.cc:54-161 | decoding a valid request gives it back |
| `ResourceGateway.ResponseRoundTrip` | components/note4_companion/note4_resource_gateway.cc:163-271 | decoding a valid response gives it back |
| `ResourceGateway.RequestAcceptedExactly` | components/note4_companion/note4_resource_gateway.cc:93-163 | a list of fields, in any order and with any unknown optional ones, is accepted for exactly the request it says: every known kind but the age once, each of its size, and the bounds kept |
| `ResourceGateway.ResponseAcceptedExactly` | components/note4_companion/note4_resource_gateway.cc:205-279 | the same of responses: a body and its kind are there exactly when the status is success |
| `ResourceGateway.RequestIgnoresOrderAndUnknownFields` | components/note4_companion/note4_resource_gateway.cc:91-161 | the outcome of decoding a request depends neither on the order of its fields nor on unknown optional ones |
| `ResourceGateway.ResponseIgnoresOrderAndUnknownFields` | components/note4_companion/note4_resource_gateway.cc:204-271 | the outcome of decoding a response depends neither on the order of its fields nor on unknown optional ones |
| `ResourceGateway.DecodedRequestsAreValid` | components/note4_companion/note4_resource_gateway.cc:152-160 | only requests that can be encoded are decoded, and they decode to themselves again |
| `ResourceGateway.DecodedResponsesAreValid` | components/note4_companion/note4_resource_gateway.cc:262-270 | only responses that can be encoded are decoded, and they decode to themselves again |
| `ResourceGateway.EncodeResourceRequestPayload` | components/note4_companion/note4_resource_gateway.cc:54-89 | the exact error, or the request as its list of fields |
| `ResourceGateway.DecodeResourceRequestPayload` | components/note4_companion/note4_resource_gateway.cc:91-161 | the loop with its seen flags decodes exactly what the list of fields means |
| `ResourceGateway.EncodeResourceResponsePayload` | components/note4_companion/note4_resource_gateway.cc:163-202 | the exact error, or the response as its list of fields |
| `ResourceGateway.DecodeResourceResponsePayload` | components/note4_companion/note4_resource_gateway.cc:204-271 | the loop with its seen flags decodes exactly what the list of fields means |
| `PairingBootstrap.AcceptedExactly` | components/note4_companion/note4_pairing_bootstrap.cc:98-141 | a proof is accepted exactly for the live generation and token in an open, unexpired window from the bound session; acceptance is final, and a refusal changes nothing but expiry |
| `PairingBootstrap.LivesExactly` | components/note4_companion/note4_pairing_bootstrap.cc:37-141 | a window opens exactly while the lifetime of the token runs, and accepts the proof exactly until that or its own length has passed |
| `PairingBootstrap.BoundExactly` | components/note4_companion/note4_pairing_bootstrap.cc:80-96 | a session is bound exactly in a live window that no other session is bound to, and is then the only one that can prove; a refusal changes only expiry |
| `PairingBootstrap.ReopeningExtendsNothing` | components/note4_companion/note4_pairing_bootstrap.cc:56-78 | opening an open window again moves no deadline |
| `PairingBootstrap.OfferedExactly` | components/note4_companion/note4_pairing_bootstrap.cc:152-168 | material is handed out exactly while it lives, and expired material is erased |
| `PairingBootstrap.GenerationsCount` | components/note4_companion/note4_pairing_bootstrap.cc:46-47 | the generations count through all the nonzero ones before any comes again |
| `PairingBootstrap.PairingBootstrap.PrepareMaterial` | components/note4_companion/note4_pairing_bootstrap.cc:37-54 | fresh material of the next generation, skipping zero |
| `PairingBootstrap.PairingBootstrap.OpenPairingWindow` | components/note4_companion/note4_pairing_bootstrap.cc:56-78 | opens once, and expires the material when a deadline has passed |
| `PairingBootstrap.PairingBootstrap.BindSession` | components/note4_companion/note4_pairing_bootstrap.cc:80-96 | binds to one session only |
| `PairingBootstrap.PairingBootstrap.ValidateEnrollmentProof` | components/note4_companion/note4_pairing_bootstrap.cc:98-141 | the whole new state and status for any proof |
| `PairingBootstrap.PairingBootstrap.ValidateAndPersistEnrollmentProof` | components/note4_companion/note4_pairing_bootstrap.cc:143-150 | a failed save gives back neither the token nor the session |
| `PairingBootstrap.PairingBootstrap.CurrentMaterial` | components/note4_companion/note4_pairing_bootstrap.cc:152-168 | hands out the material only while it is offered and unexpired |
| `PairingBootstrap.PairingBootstrap.Cancel` | components/note4_companion/note4_pairing_bootstrap.cc:170-179 | back to idle with nothing left |
| `EnrollmentPublisher.WindowOpensForTag` | components/note4_companion/note4_enrollment_publisher.cc:48-53 | in every run, a window opens only for the live, unexpired material that the tag holds |
| `EnrollmentPublisher.AcceptedProofIsOnTag` | components/note4_companion/note4_pairing_bootstrap.cc:98-141 | in every run, an accepted proof shows exactly the generation and token on the tag |
| `EnrollmentPublisher.EveryRunIsSound` | components/note4_companion/note4_enrollment_publisher.cc:19-53 | in every run, each accepted proof repeats the material made right before it, so no material is accepted twice |
| `EnrollmentPublisher.AcceptedAtMostAsMade` | components/note4_companion/note4_pairing_bootstrap.cc:98-141 | proofs are accepted at most as often as material was made |
| `EnrollmentPublisher.DueExactlyWhenPublishing` | components/note4_companion/note4_enrollment_publisher.cc:55-71 | the wake-up is zero whenever refreshing would publish; it is zero without that exactly when offered material has a deadline that counts half the clock range ahead |
| `EnrollmentPublisher.DueInEveryRun` | components/note4_companion/note4_enrollment_publisher.cc:19-71 | in every run, the wake-up is zero exactly when refreshing publishes, if and only if no deadline that counts lies half the clock range ahead |
| `EnrollmentPublisher.FailureRetriesAfterSecond` | components/note4_companion/note4_enrollment_publisher.cc:32-46 | an attempt to publish that fails leaves nothing on offer and no window to open, and exactly one second later the next attempt is due |
| `EnrollmentPublisher.WindowOpensExactly` | components/note4_companion/note4_enrollment_publisher.cc:48-53 | the field of a reader opens the window exactly for published material that lives |
| `EnrollmentPublisher.HalfWayIsDueButQuiet` | components/note4_companion/note4_enrollment_publisher.cc:8-71 | the exception is reached by a run of one refresh: half the clock range after that material expired, the wake-up is zero and refreshing does nothing |
| `EnrollmentPublisher.QuietUntilWake` | components/note4_companion/note4_enrollment_publisher.cc:19-71 | refreshing at any moment before the announced wake-up changes nothing, and the wake-up counts down to zero |
| `EnrollmentPublisher.EnrollmentPublisher.Refresh` | components/note4_companion/note4_enrollment_publisher.cc:19-46 | the whole new publisher, bootstrap and tag |
| `EnrollmentPublisher.EnrollmentPublisher.OpenPairingWindow` | components/note4_companion/note4_enrollment_publisher.cc:48-53 | opens only for the published generation |
| `EnrollmentPublisher.EnrollmentPublisher.NextWake` | components/note4_companion/note4_enrollment_publisher.cc:55-71 | the wake-up is the function the proofs reason about |
| `RadioArbiter.AnyWindowIsPaced` | components/note4_connectivity/note4_radio_arbiter.cc:7-47 | any T milliseconds within pacing, wherever they begin and whatever the flips between burst and stopping, admit at most T / 250 + 1 new values on a clock that wraps, and none before the delay left at their beginning ends |
| `RadioArbiter.AdmissionsArePaced` | components/note4_connectivity/note4_radio_arbiter.cc:7-47 | from the moment pacing begins and while it goes on, T milliseconds admit at most T / 250 new values |
| `RadioArbiter.RateHoldsExactlyWithWholeInterval` | components/note4_connectivity/note4_radio_arbiter.cc:7-47 | within pacing, the rate without the one value more holds from a moment on exactly when the whole interval is left then: as pacing begins, or right behind an admission |
| `RadioArbiter.AdmitsBehindDelay` | components/note4_connectivity/note4_radio_arbiter.cc:35-47 | from any moment within pacing, a waiting value is admitted as soon as the delay left then has ended |
| `RadioArbiter.PacingHoldsBackOnlyNewValues` | components/note4_connectivity/note4_radio_arbiter.cc:40-47 | a waiting reply and a value in flight are polled alike in every mode |
| `RadioArbiter.ModeExactly` | components/note4_connectivity/note4_radio_arbiter.cc:7-29 | which mode follows from which activity, each as an equivalence |
| `RadioArbiter.QuietInRealTime` | components/note4_connectivity/note4_radio_arbiter.cc:15-19 | on the clock that wraps, a share without a client is busy exactly until the quiet time behind its last activity has passed |
| `RadioArbiter.AdmittedOnlyWhenAllowed` | components/note4_companion/note4_sync_session.cc:201-253 | a poll that may not admit never admits |
| `RadioArbiter.DelayEnds` | components/note4_connectivity/note4_radio_arbiter.cc:35-38 | the admission delay counts down to zero |
| `RadioArbiter.RadioArbiter.Update` | components/note4_connectivity/note4_radio_arbiter.cc:7-29 | the mode for every combination of activities, and the interval that starts with pacing |
| `RadioArbiter.RadioArbiter.PollSync` | components/note4_connectivity/note4_radio_arbiter.cc:40-47 | polls the session and remembers an admission |
| `RadioArbiter.RadioArbiter.NextSyncWakeMs` | components/note4_connectivity/note4_radio_arbiter.cc:49-58 | the wake-up computed is the one that the two lemmas below are about |
| `RadioArbiter.QuietUntilWake` | components/note4_connectivity/note4_radio_arbiter.cc:35-58 | with nothing waiting but a value held back by the delay or the phone, a poll before the wake-up hands over, admits and times out nothing |
| `RadioArbiter.HeldValueGoesAtWake` | components/note4_connectivity/note4_radio_arbiter.cc:35-58 | a new value held back by the delay alone is announced for the end of the delay, and a poll up to then admits it exactly at that moment |
| `ControlDispatcher.InspectedAtMostOnce` | components/note4_cli/note4_cli_control.cc:72-93 | over every interleaving, each request reaches Inspect at most once, as it was submitted and in order |
| `ControlDispatcher.OnlyConfirmedLocalMutationsRun` | components/note4_cli/note4_cli_control.cc:21-27 | in every run, each mutation that Inspect was called for was confirmed and submitted locally |
| `ControlDispatcher.AcceptedExactly` | components/note4_cli/note4_cli_control.cc:21-42 | a submission is accepted exactly when its operation is known, a mutation is confirmed and local, and the slot is idle and open; each refusal has its reason and changes nothing |
| `ControlDispatcher.WaitsThirtySeconds` | components/note4_cli/note4_cli_control.cc:49-80 | from the moment a request is accepted on the wrapping clock, its holder waits and its dispatch begins exactly within thirty seconds; behind them it is a timeout, of a running mutation an unknown outcome, and once closing nobody times out |
| `ControlDispatcher.SecretsAreErased` | components/note4_cli/note4_cli_control.cc:52-105 | in every run, no secret text is left in an idle slot, behind an inspection, or once Shutdown returned |
| `ControlDispatcher.TakeReturnsOwnResult` | components/note4_cli/note4_cli_control.cc:44-60 | a result taken with Ok is the one Inspect wrote for that very ticket |
| `ControlDispatcher.ExecutedMutationNeverDenied` | components/note4_cli/note4_cli_control.cc:44-70 | until Shutdown begins, the holder of a mutation that ran is first told its result or that it is unknown |
| `ControlDispatcher.CancelAfterShutdownMisreports` | components/note4_cli/note4_cli_control.cc:62-70 | a run in which a mutation that ran is reported as cancelled before its start, once Shutdown began |
| `ControlDispatcher.CancelMisreportsExactlyWhenClosing` | components/note4_cli/note4_cli_control.cc:62-70 | cancelling a finished mutation that ran with success misreports it exactly when Shutdown has begun |
| `ControlDispatcher.DeniedExactlyByLateCancel` | components/note4_cli/note4_cli_control.cc:44-105 | in every run, the first answer about a mutation that ran with success denies it exactly when it is a Cancel given after Shutdown began and Inspect returned; it is Ok exactly when it is a Take of the finished request before that, and otherwise an unknown outcome |
| `ControlDispatcher.HasFirstAnswer` | components/note4_cli/note4_cli_control.cc:44-70 | every answered request has a step that gave its first answer |
| `ControlDispatcher.EveryEarlierRequestAnswered` | components/note4_cli/note4_cli_control.cc:21-70 | every accepted request but the latest has had its final answer |
| `ControlDispatcher.NothingRunsAfterShutdown` | components/note4_cli/note4_cli_control.cc:95-105 | once Shutdown has returned, no Inspect runs and none ever starts |
| `ControlDispatcher.TicketsCollide` | components/note4_cli/note4_cli_control.cc:31-33 | two tickets are equal exactly when their numbers differ by a multiple of (2^64 - 1) * 2^32 |
| `ControlDispatcher.RunHolds` | components/note4_cli/note4_cli_control.cc:21-105 | the invariant behind these holds over every interleaving of both tasks |
| `ControlDispatcher.RunCloses` | components/note4_cli/note4_cli_control.cc:72-105 | in every run, once Shutdown began, a mutation that Inspect ran for waits under an unknown outcome |
| `ControlDispatcher.PlatformControlDispatcher.Submit` | components/note4_cli/note4_cli_control.cc:21-42 | the new slot and status: the function that AcceptedExactly and OnlyConfirmedLocalMutationsRun are about |
| `ControlDispatcher.PlatformControlDispatcher.Take` | components/note4_cli/note4_cli_control.cc:44-60 | the whole new slot and status |
| `ControlDispatcher.PlatformControlDispatcher.Cancel` | components/note4_cli/note4_cli_control.cc:62-70 | the whole new slot and status |
| `ControlDispatcher.PlatformControlDispatcher.DispatchBegin` | components/note4_cli/note4_cli_control.cc:72-84 | the critical section before Inspect |
| `ControlDispatcher.PlatformControlDispatcher.DispatchEnd` | components/note4_cli/note4_cli_control.cc:86-92 | the critical section after Inspect |
| `ControlDispatcher.PlatformControlDispatcher.ShutdownBegin` | components/note4_cli/note4_cli_control.cc:96-102 | closing answers what is queued or complete |
| `LineEditor.ScreenAlwaysAgrees` | components/note4_cli/note4_cli_session.cc:85-342 | in every run, after every byte, whenever no command or binary session is active, a terminal that interprets everything sent shows the prompt followed by exactly the line, with its cursor at the line cursor |
| `LineEditor.TypedKeepsScreen` | components/note4_cli/note4_cli_session.cc:110-182 | one byte keeps the screen and the line in agreement |
| `LineEditor.RedrawIsShown` | components/note4_cli/note4_cli_session.cc:322-334 | redrawing shows the line and its cursor whatever the row held |
| `LineEditor.MovementIsShown` | components/note4_cli/note4_cli_session.cc:238-248 | a movement with a decimal count takes the remote cursor exactly that far |
| `LineEditor.MovementSize` | components/note4_cli/note4_cli_session.cc:241-247 | every movement within a line fits the sixteen bytes it is formatted into |
| `LineEditor.TextIsInserted` | components/note4_cli/note4_cli_session.cc:165-181 | printable text is inserted at the cursor |
| `LineEditor.BackspaceUndoesTyping` | components/note4_cli/note4_cli_session.cc:156-181 | a backspace takes back the character typed before it |
| `LineEditor.UpRecallsHistory` | components/note4_cli/note4_cli_session.cc:303-320 | pressing the up key n times recalls the n-th latest line, and the oldest from there on |
| `LineEditor.ArrowsMove` | components/note4_cli/note4_cli_session.cc:184-214 | the right and left arrow sequences move the cursor as far as their parameter says, or by one, and stop at the ends of the line |
| `LineEditor.EndsMove` | components/note4_cli/note4_cli_session.cc:152-218 | the home and end sequences, in each of their forms, and the two control bytes move the cursor to the ends of the line |
| `LineEditor.DeleteRemoves` | components/note4_cli/note4_cli_session.cc:219-224 | the delete sequence removes the character under the cursor, and nothing at the end of the line |
| `LineEditor.DownUndoesUp` | components/note4_cli/note4_cli_session.cc:303-320 | down recalls the line that up left |
| `LineEditor.ShortKeysAgree` | components/note4_cli/note4_cli_session.cc:184-227 | each key of the short form does what the control sequence without a parameter does |
| `LineEditor.OtherKeysDoNothing` | components/note4_cli/note4_cli_session.cc:195-227 | every other complete sequence is consumed and changes nothing |
| `LineEditor.LongSequenceIsRejected` | components/note4_cli/note4_cli_session.cc:191-194 | a sequence of more than sixteen bytes rejects the line |
| `LineEditor.RejectedExactly` | components/note4_cli/note4_cli_session.cc:165-173 | at a prompt without an escape, a byte rejects the line exactly when it is no text or the line is full, with one bell, and a tab types a blank |
| `LineEditor.RejectedIsIgnored` | components/note4_cli/note4_cli_session.cc:141-272 | a rejected line ignores every byte typed, and the return clears it without remembering it |
| `LineEditor.TypedLineIsExecuted` | components/note4_cli/note4_cli_session.cc:98-182 | however a prompt was reached, by a new peer, a cancel or the end of a binary session, a line typed there and ended in either way is executed once, remembered, and answered with what the command reports |
| `LineEditor.OnlyFailuresAreExplained` | components/note4_cli/note4_cli_session.cc:274-289 | what a command says is followed by a reason exactly when it failed, and every failure has its own |
| `LineEditor.HistoryOfRun` | components/note4_cli/note4_cli_session.cc:250-301 | in every run, whatever was typed, cancelled, dropped and attached in between, the history is the eight latest lines submitted, without empty ones and repetitions |
| `LineEditor.HistoryIsLatestLines` | components/note4_cli/note4_cli_session.cc:291-301 | folding lines into the history keeps the eight latest, without empty ones and repetitions |
| `CliSession.RingRemembers` | components/note4_cli/note4_cli_session.cc:291-301 | the ring with its wrapping index appends, and forgets the oldest of eight |
| `CliSession.CliSession.ProcessByte` | components/note4_cli/note4_cli_session.cc:110-182 | in place, the line, the cursor and the text sent follow the editor byte for byte, or the peer is lost |
| `CliSession.CliSession.Edit` | components/note4_cli/note4_cli_session.cc:140-182 | in place, one editing byte does what the editor says |
| `CliSession.CliSession.ProcessEscape` | components/note4_cli/note4_cli_session.cc:184-228 | the buffers in place follow the editor for every byte of an escape sequence: the function that ArrowsMove, EndsMove, DeleteRemoves and OtherKeysDoNothing are about |
| `CliSession.CliSession.MoveCursor` | components/note4_cli/note4_cli_session.cc:238-248 | the cursor and the movement sent |
| `CliSession.CliSession.RedrawLine` | components/note4_cli/note4_cli_session.cc:322-334 | the text sent, in as many writes as it takes |
| `CliSession.CliSession.SubmitLine` | components/note4_cli/note4_cli_session.cc:250-272 | the line is executed or refused, and the line emptied |
| `CliSession.CliSession.FinishExecution` | components/note4_cli/note4_cli_session.cc:274-289 | output, error and prompt of a command, stopping when the peer is lost |
| `CliSession.CliSession.AddHistory` | components/note4_cli/note4_cli_session.cc:291-301 | the ring remembers the line as the editor does |
| `CliSession.CliSession.NavigateHistory` | components/note4_cli/note4_cli_session.cc:303-320 | the recalled line replaces the edited one and is redrawn |
| `CliSession.CliSession.Write` | components/note4_cli/note4_cli_session.cc:348-355 | a failed write ends the session |
| `CliSession.CliSession.Reset` | components/note4_cli/note4_cli_session.cc:85-96 | everything but the history and the escape counters is forgotten |
| `CliSession.CliSession.Poll` | components/note4_cli/note4_cli_session.cc:45-83 | a turn of the owner keeps the screen and the line in agreement, whatever is typed and whatever fails |
| `AppRuntime.EnteredThenExitedOnce` | components/note4_app/note4_application_runtime.cc:96-163 | between the Enter of an instance and the next Enter, or the end, lies exactly one Exit, of that instance |
| `AppRuntime.InsideWasEntered` | components/note4_app/note4_application_runtime.cc:96-163 | at most one instance is between Enter and Exit: the latest entered, and only it got events and drew since |
| `AppRuntime.ApplicationRuntime.ValidateExactly` | components/note4_app/note4_application_runtime.cc:8-30 | a registry is valid exactly when every application is well described, no name occurs twice and the launcher is registered |
| `AppRuntime.FailedEnterTriesLauncher` | components/note4_app/note4_application_runtime.cc:74-133 | with fallback allowed and another target than the launcher, a failed Enter is followed by the creation of the launcher, and failsafe is reached only when that fails too |
| `AppRuntime.SwitchSpelledOut` | components/note4_app/note4_application_runtime.cc:74-125 | every way a switch without a fallback can go, mark by mark: what is created, exited and entered in turn, and when failsafe is shown |
| `AppRuntime.FallbackSpelledOut` | components/note4_app/note4_application_runtime.cc:96-145 | the same behind a failed Enter with leave to fall back: the launcher is created and entered, and failsafe only follows when it cannot be |
| `AppRuntime.EachDrawingCovers` | components/note4_app/note4_application_runtime.cc:221-278 | each drawing in a trace is for a request that covers every region asked for since the last one, while the rectangle around them fits 16 bits, and no less carefully than asked |
| `AppRuntime.ApplicationRuntime.Start` | components/note4_app/note4_application_runtime.cc:62-72 | leaves the launcher in the foreground when it succeeds from the start, and changes nothing elsewhere |
| `AppRuntime.ApplicationRuntime.SwitchTo` | components/note4_app/note4_application_runtime.cc:74-125 | the exact creations, enters, exits and failsafe calls in order, by what each returned, with the status and who is left inside; an unknown target changes nothing, and a failed creation keeps the running application |
| `AppRuntime.ApplicationRuntime.Create` | components/note4_app/note4_application_runtime.cc:79-94 | the factory is asked once; a candidate is there exactly when it answers with success and one, and otherwise everything is as before but for the error, which is no memory when it answered with success and none |
| `AppRuntime.ApplicationRuntime.EnterCandidate` | components/note4_app/note4_application_runtime.cc:96-125 | a created candidate whose Enter succeeds is the one left active; a failed one is exited and followed by the launcher or by failsafe |
| `AppRuntime.ApplicationRuntime.EnterLauncherFallback` | components/note4_app/note4_application_runtime.cc:127-133 | the launcher is created and entered anew, and failsafe follows exactly when one of the two fails |
| `AppRuntime.ApplicationRuntime.EnterFailsafe` | components/note4_app/note4_application_runtime.cc:135-145 | nobody is inside, nothing is pending, and the reason is kept |
| `AppRuntime.ApplicationRuntime.ExitAndDestroyForeground` | components/note4_app/note4_application_runtime.cc:147-163 | exactly one Exit for a foreground, none without, and the error it returned is kept |
| `AppRuntime.ApplicationRuntime.Step` | components/note4_app/note4_application_runtime.cc:165-186 | an event reaches the application in the foreground first, then the pending command is done, and drawing comes last; the status is that of the latest of these that failed; without an active application or inside a callback nothing happens |
| `AppRuntime.ApplicationRuntime.DispatchInput` | components/note4_app/note4_application_runtime.cc:177-186 | the event reaches the application in the foreground before the pending command is done, nothing is drawn, the status is that of the latest of the two that failed, and without a command it is the error kept |
| `AppRuntime.ApplicationRuntime.Idle` | components/note4_app/note4_application_runtime.cc:188-202 | the idle call reaches the application in the foreground first, then the pending command is done, and drawing comes last; the status is that of the latest of these that failed, and without a command it is the error kept; without an active application or inside a callback nothing happens |
| `AppRuntime.ApplicationRuntime.ProcessCommand` | components/note4_app/note4_application_runtime.cc:204-219 | each pending command is the attempt it asks for, and is recorded behind the marks of it with the status returned |
| `AppRuntime.ApplicationRuntime.ProcessRender` | components/note4_app/note4_application_runtime.cc:221-233 | only the instance that asked draws, once, with the request that sums up what it asked for, and failed work is kept |
| `AppRuntime.ApplicationRuntime.Recover` | components/note4_app/note4_application_runtime.cc:235-248 | the exact attempt to run the launcher anew, or failsafe at once when the launcher itself was in the foreground |
| `AppRuntime.ApplicationRuntime.Stop` | components/note4_app/note4_application_runtime.cc:250-260 | one Exit if there is a foreground and one shutdown call, nothing is pending, and the latest error of these is kept; stopped for good |
| `AppRuntime.ApplicationRuntime.Destroy` | components/note4_app/note4_application_runtime.cc:60 | a runtime that goes away exits its foreground once |
| `AppRuntime.ApplicationRuntime.SubmitCommand` | components/note4_app/note4_application_runtime.cc:262-268 | accepted only from callbacks of an entering or active application |
| `AppRuntime.ApplicationRuntime.SubmitRender` | components/note4_app/note4_application_runtime.cc:270-278 | the region and its quality are added to what the instance inside asked for, from callbacks of an entering or active application only |
| `AppContract.EarliestMostUrgentWins` | components/note4_app/note4_app_contract.cc:10-72 | of any submissions the earliest of the most urgent ones survives, where shutting down outdoes everything and going home outdoes opening and going back |
| `AppContract.UnionCoversBoth` | components/note4_app/note4_app_contract.cc:81-94 | the union covers both regions exactly when the rectangle around them fits 16 bits |
| `AppContract.FarRegionsAreLost` | components/note4_app/note4_app_contract.cc:81-94 | two dots 40000 pixels apart have an empty union, which any further region replaces |
| `AppContract.DrawnCoversAsked` | components/note4_app/note4_app_contract.cc:81-118 | what is drawn covers each region asked for since the last drawing, while the rectangle around them all fits 16 bits, and is in quality once anyone asked for it |
| `AppContract.MergeSummarizes` | components/note4_app/note4_app_contract.cc:96-106 | adding a request to a summary of some regions summarises these and its own |
| `AppContract.IdExactly` | components/note4_app/note4_app_contract.cc:23-40 | an identifier is one to thirty-one small letters, digits and three marks |
| `AppContract.CommandArbiter.Submit` | components/note4_app/note4_app_contract.cc:58-72 | what is pending after one more submission |
| `AppContract.RenderAccumulator.Submit` | components/note4_app/note4_app_contract.cc:96-106 | regions of one owner add up to a request that summarises them, those of another replace them |
| `AppContract.RenderAccumulator.TakeFor` | components/note4_app/note4_app_contract.cc:108-118 | work of an earlier owner is dropped |
| `SceneManager.AlternationSpelledOut` | components/note4_app/note4_scene_manager.cc:27-36 | enters and exits strictly alternate, each exit of the scene entered last |
| `SceneManager.Manager.Dispatch` | components/note4_app/note4_scene_manager.cc:37-53 | the exact outcome of an event: the transition its handler left pending, or a pop exactly for an unconsumed Back above another scene, or nothing; and whether it was consumed |
| `SceneManager.Manager.Request` | components/note4_app/note4_scene_manager.cc:55-68 | the exact status, and what becomes pending |
| `SceneManager.Manager.Apply` | components/note4_app/note4_scene_manager.cc:74-83 | the old top is exited, the stack changed as requested and the new top entered, in these two marks |
| `SceneManager.PopUndoesPush` | components/note4_app/note4_scene_manager.cc:74-83 | a push puts its scene above the same stack, a pop takes it away again, and a replacement changes the top only |
| `SceneManager.Manager.Start` | components/note4_app/note4_scene_manager.cc:15-25 | enters the root of an empty stack |
| `SceneManager.Manager.Stop` | components/note4_app/note4_scene_manager.cc:85-94 | exits the top and empties the stack |
| `SceneManager.Manager.SetState` | components/note4_app/note4_scene_manager.cc:100-106 | one state word, for a scene that exists |
| `Cobs.DecodeInvertsEncode` | tools/usb-manager.py:44-81 | decoding undoes encoding for every packet within the size limit |
| `Cobs.UnstuffInvertsStuff` | tools/usb-manager.py:44-81 | for every byte string whatever, the blocks decode to the data they were cut from |
| `Cobs.StuffHasNoZero` | tools/usb-manager.py:44-61 | an encoding has no zero before its delimiter |
| `Cobs.StuffSize` | tools/usb-manager.py:44-61 | an encoding is at most n + n/254 + 2 bytes long with its delimiter |
| `Cobs.PacketsFitTheWire` | tools/usb-manager.py:21-23 | every packet within 1040 bytes fits the wire size of 1046, and the limit is reached |
| `Cobs.WireDeterminesPackets` | tools/usb-manager.py:44-81 | a stream of encoded packets determines the packets |
| `Cobs.Encode` | tools/usb-manager.py:44-61 | patching code bytes in place yields the block encoding and its delimiter |
| `Cobs.Decode` | tools/usb-manager.py:64-81 | the cursor loop decodes exactly what the blocks mean, with the exact error |
| `Cobs.Client.Until` | tools/usb-manager.py:92-106 | takes the stream up to the first delimiter however it is chunked, and loses nothing on an error |
| `Cobs.Client.NextPacket` | tools/usb-manager.py:92-106 | the packets of a stream are recovered in order however reads are chunked |
| `DigitCodec.PackRoundTrip` | tools/digit_font.py:57-58 | packed bits are unpacked as they were |
| `DigitCodec.ExpandInvertsGreedy` | tools/digit_font.py:60-68 | run lengths expand to the bits they were made of |
| `DigitCodec.GreedyIsShortest` | tools/digit_font.py:60-68 | no payload that expands to the bits is shorter than the one made of them |
| `DigitCodec.UndeltaInvertsDelta` | tools/digit_font.py:77-78 | undoing the row differences in place gives back the bits |
| `DigitCodec.TransposeTwice` | tools/digit_font.py:79-81 | reading by columns and back gives every bit its place |
| `DigitCodec.CodecRoundTrip` | tools/digit_font.py:70-102 | all four codecs decode back to the bits for every width and height |
| `DigitCodec.CodecIsShortest` | tools/digit_font.py:70-102 | no payload that a codec decodes to the bits is shorter than its own encoding |
| `DigitCodec.DecodedSays` | tools/digit_font.py:83-102 | each pixel decoded, from the payload alone: the bit of a byte, the run it falls into, the parity of its column so far, or the run it falls into by columns |
| `DigitCodec.Runs` | tools/digit_font.py:60-68 | the grouping loop makes the greedy run lengths |
| `DigitCodec.RebuildRows` | tools/digit_font.py:97-99 | the in-place difference loop rebuilds the rows |
| `DigitCodec.Choose` | tools/digit_font.py:104-109 | fails only on input it cannot encode, never with a mismatch; chooses the shortest candidate, the lowest codec among equals, and no known codec has a shorter payload |
| `DigitTiles.PackedGlyphsUnpack` | tools/digit_font.py:111-141 | whatever the sizes of the glyphs and of the tile, painting from the shared dictionary gives back every glyph, and no index is left over |
| `DigitTiles.PaintUndoesCut` | tools/digit_font.py:127-141 | painting tiles in the order they were cut, cut off at the edges, restores one glyph |
| `DigitTiles.TilePack` | tools/digit_font.py:111-125 | each index names its tile in order, and the dictionary holds each tile that occurs exactly once |
| `DigitTiles.TileUnpack` | tools/digit_font.py:127-141 | the nested loops paint exactly the glyphs the indices stand for, or fail with the exact error |
| `TileFont.UnpackInvertsPack` | tools/generate-ui-font.py:17-32 | unpacking any glyph of a packed font gives exactly its width and bitmap |
| `TileFont.PackGlyphs` | tools/generate-reader-font.py:48-68 | packs exactly the whole-glyph inputs with widths 8 or 16 and at most 65536 distinct tiles, every width bit, number and tile in its place |
| `TileFont.DictionaryIsExact` | tools/generate-reader-font.py:54-68 | the dictionary holds exactly the tiles that occur, each once |
| `TileFont.UnpackGlyph` | tools/generate-ui-font.py:17-32 | the nested loops fill exactly the glyph, or refuse |
| `TileFont.BitsAfterSet` | tools/generate-reader-font.py:59-60 | setting a width bit changes that bit only |
| `Nfc.WrittenMessageIsFound` | components/note4_board/note4_nfc.cc:107-123 | whatever the tag held, a message that fits is found after it was written |
| `Nfc.ScannedExactly` | components/note4_board/note4_nfc.cc:549-588 | for any memory: a message is found exactly when it stands first behind null bytes and well-formed values of other types, and nothing exactly when the end, a terminator or an empty message stands there |
| `Nfc.FitsExactly` | components/note4_board/note4_nfc.cc:591-602 | a message fits exactly when its value with header and terminator does not exceed the memory, that is up to 875 bytes |
| `Nfc.ReadNdef` | components/note4_board/note4_nfc.cc:538-589 | the message, or the reason there is none, for any memory; it ends within the memory |
| `Nfc.WriteNdef` | components/note4_board/note4_nfc.cc:591-602 | each refusal exactly for its reason; on success the message is found again and only whole blocks behind it were zero-filled |
| `Nfc.BuildType2NdefTlv` | components/note4_board/note4_nfc.cc:107-123 | one length byte up to 254, and from there on a marker and the low sixteen bits of the length |
| `Nfc.Nfc.WriteUserData` | components/note4_board/note4_nfc.cc:352-391 | the write replaces its slice, zero-fills its last block and touches nothing else, not even when a transfer fails; each refusal exactly for its reason |
| `Nfc.Nfc.ReadUserData` | components/note4_board/note4_nfc.cc:308-350 | the bytes of the slice, whatever its alignment |
| `Nfc.Nfc.WriteBlockInternal` | components/note4_board/note4_nfc.cc:725-742 | one whole block |
| `Nfc.Nfc.ReadBlockInternal` | components/note4_board/note4_nfc.cc:699-723 | one whole block |
| `Rtc.SetIsNeverTorn` | components/note4_board/rtc_pcf8563.cc:82-149 | whatever bus write fails, and wherever, a reading afterwards is the time before, the whole new time or a refusal |
| `Rtc.RunIsNeverTorn` | components/note4_board/rtc_pcf8563.cc:82-149 | over any run of attempts a reading is the first one or a whole time that was asked for |
| `Rtc.SetIsReadBack` | components/note4_board/rtc_pcf8563.cc:82-149 | a set that succeeds is read back exactly |
| `Rtc.SettableExactly` | components/note4_board/rtc_pcf8563.cc:83-91 | the times that are accepted are exactly those of a day of the Gregorian calendar from 2000 to 2099 |
| `Rtc.SetSucceedsExactly` | components/note4_board/rtc_pcf8563.cc:82-107 | a set succeeds exactly for an acceptable time and without any fault; the registers then hold that time and nothing else changed, and a time that is not acceptable touches nothing |
| `Rtc.ReadExactly` | components/note4_board/rtc_pcf8563.cc:109-149 | a reading is given exactly when the registers can be trusted, and is the time they hold |
| `Rtc.MonthEnds` | components/note4_board/rtc_pcf8563.cc:83-87 | the length of every month is the distance between the first days of it and the next in the Gregorian calendar, leap days counted |
| `Rtc.BcdRoundTrip` | components/note4_board/rtc_pcf8563.cc:42-45 | a coded value is read back, and is valid exactly within its maximum |
| `Rtc.BcdIsExact` | components/note4_board/rtc_pcf8563.cc:42-45 | every valid code is the code of the value it stands for |
| `Rtc.RtcPcf8563.SetTime` | components/note4_board/rtc_pcf8563.cc:82-107 | ordered register writes that stop at the first fault |
| `Rtc.RtcPcf8563.GetTime` | components/note4_board/rtc_pcf8563.cc:109-149 | the time the registers show, or nothing where they cannot be trusted |
| `Rtc.RtcPcf8563.StopClock` | components/note4_board/rtc_pcf8563.cc:77-80 | only the stop bit is written |

## Left out

- The store image of the sync engine, its loading and its command results: a restart is a disconnect here, and memory and image agree because every failed save is rolled back.
- `CommitIncomingState`, which records a revision without its value: no session calls it, and it would give up that the inbox holds the applied value.
- The parsing of a console line into arguments: its verdict is a parameter of `CliSession`, so the theorems hold for every verdict.
- Terminals that wrap at their right margin: the model terminal has rows of any length.
- Bytes of a binary console session: the terminal is taken to interpret everything else that is written.
- Console output that ends inside an escape sequence: the screen theorems ask that a command's output leaves the terminal outside one.
- `Inspect` answering that it is pending: the dispatcher model takes every answer of an inspection as final.
- The adapter calls that only wake a task: they change no state of the dispatcher.
- Lost wake-ups, mutexes and condition variables: a critical section is one step, and waiting is a step that is not yet enabled.
- The clock moving within one call of `Refresh`, `Poll` or `Prepare`: each call reads it once.
- Several writers to the NFC tag: only the publisher's own write, which may fail and leave anything, changes it.
- The calendar ticking between a write and a reading, and alarms, timers and interrupts of the chip.
- NFC power, field detection, retries and the text and URI message builders: block transfers succeed or fail.
- Console snapshots, logging, secret clearing through volatile pointers and constant-time comparison: they change none of the stated properties.
- Null pointer arguments and destructors other than the runtime's: values and buffers are always there.
- Hello, clock-sample and identity fields of the companion protocol: fixed layouts without further state.
- The imaging library under the digit tiles: cropping and pasting are copies of a rectangle between grids of bits.
- Reading fonts from BDF files, glyph outlines and rasterisation: library work.
- The serial port behind the packet client, its sessions and file transfers: the stream of bytes is given.
- Device drivers, Wi-Fi and BLE stacks, and the glue in `main/`: foreign calls.
