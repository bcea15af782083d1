# Verified model of the AIQA device core

This project models the parts of the AIQA firmware and its browser client whose
correctness is hardest to see from the code, and proves what they promise. Each
module stands for one component:

| module | component |
|---|---|
| `ConfigRecord`, `Nvs`, `ConfigStore`, `ConfigHistory` | the A/B configuration store in NVS: record layout, two slots and a 64-bit head, legacy migration, reset behind a tombstone |
| `ConfigTransaction`, `ConfigRuns`, `ConfigResurrection` | the Wi-Fi update as one transaction over memory, flash and network; whole lives of the device; the one way a reset is undone |
| `ManagementOperation`, `ManagementProgress` | the management service's reservation, completion and sequence lock, as atomic steps; what each call achieves undisturbed |
| `TtsPool`, `TtsOutput`, `TtsProgress` | the text-to-speech playback pool: one producer, one consumer, two queues, one atomic count; the audio output; that it gets somewhere |
| `PairingWorld`, `PairingLifecycle` | the pairing state machine with its durable attempt counter, display, clock and random ports |
| `SecureChannel` | the AEAD record channel in both directions |
| `WireFraming` | the management frame codec, in C and in TypeScript |
| `Handshake` | the pairing transcript, the round order and the two sessions |
| `EventStream` | the server-sent event splitter and the answer collector |
| `WavUpload` | the chunked base64 WAV upload |
| `Utf8` | UTF-8 decoding, names, truncation and the conversation ring |
| `Button` | the push-to-talk button and the boot gesture |
| `JsonString` | JSON string escaping and unescaping |
| `Common`, `Bytes`, `PairingRoles` | shared value types, big-endian numbers, and the two ends of a session with their result codes |

Code that changes things step by step is a class or a loop here too, proved
against functions whose own properties are proved as lemmas. Concurrent code is
a transition function over atomic steps, and its theorems hold for every
schedule. Ports (flash, network, display, clock, random source, HTTP client,
crypto library) answer nondeterministically and may fail at every call. A power
cut is a position in the flash's history of durable states in the configuration
store, and an explicit loss of power at any port call in the pairing lifecycle.

Five statements one might expect are false of the code, and are proved so, each
with the exact condition under which it holds:

* "A present head always names a complete record" fails in one window. The last
  step of a reset erases the namespace that holds head and tombstone. If the
  tombstone key goes first and power is cut, a head is left that names an empty
  slot. `ConfigHistory.CrashConsistency` proves that the promise holds over a run
  exactly when no write removes the tombstone before the head,
  `StrandedHeadReachable` gives the writes, and `StrandedHeadIsEmpty` shows that
  even then a load reports no record.
* "After a reset nothing stored before it is reported" therefore fails for a
  transaction object that was loaded before such a cut reset and lives on in
  memory: it can commit its own copy over the stranded head.
  `ConfigRuns.ResetSafety` proves that this is the only way,
  `ConfigResurrection` shows it happening, and `ConfigRuns.FirmwareLife` that the
  firmware's own network task, which loads before every update, excludes it.
* A transaction whose active record is still in the legacy namespace never
  commits: the adapter wants revision 1 for the first slot record, and the
  transaction always asks for the next revision, which is at least 2.
  `ConfigTransaction.Transaction.ApplyWifi` says that when nothing fails an
  accepted update succeeds exactly if the durable head is the one in memory.
* "The browser's decoder hands over what the device's does" fails for a chunk
  that completes a frame and then holds a bad header, and only then
  (`WireFraming.KeptAreAll`).
* "The decoder counts the bytes it drops" fails when a first magic byte is lost
  that no other first magic byte directly follows, and only then
  (`WireFraming.CountsLostBytes`).

## Model

| member | source | states |
|---|---|---|
| ConfigRecord.PreparedIsValid | components/config_store/src/aiqa_config.c:308-367 | an accepted Wi-Fi update keeps the secrets valid, takes exactly the next revision, changes SSID and password as asked and touches no API key |
| ConfigRecord.PreparedExactly | components/config_store/src/aiqa_config.c:308-367 | an update is accepted exactly for the current, not exhausted revision, an SSID of 1 to 32 characters, and a password that suits what is asked for; every refusal is the first one that fits |
| ConfigRecord.CheckSecrets | components/config_store/src/aiqa_config.c:188-269 | secrets pass exactly with an SSID, no password or one of 8 to 63 characters, a chat key of at least 6 and no speech key or one of at least 6; otherwise the first fault is named |
| ConfigRecord.KeyLists | components/config_store/src/aiqa_config_nvs_ab.c:79-140 | the keys written and erased one by one are exactly the keys a record consists of |
| ConfigRecord.DecodeEncode | components/config_store/src/aiqa_config_nvs_ab.c:79-240 | a namespace holding every key of a valid record reads back as exactly that record |
| ConfigRecord.DecodeIsComplete | components/config_store/src/aiqa_config_nvs_ab.c:142-257 | a readable record has all twenty keys and is valid; one missing key makes the slot unreadable |
| ConfigRecord.DecodeAgrees | components/config_store/src/aiqa_config_nvs_ab.c:142-240 | what a slot reads as depends on nothing but the record's own keys |
| ConfigRecord.LegacyAgrees | components/config_store/src/aiqa_config_nvs.c:169-304 | what the legacy namespace reads as depends on nothing but its configuration and secret keys |
| ConfigRecord.DecodeExactly | components/config_store/src/aiqa_config_nvs_ab.c:142-257 | a slot decodes to a record exactly if it holds the layout marker, that revision and every field of that valid record, key by key |
| ConfigRecord.LegacyExactly | components/config_store/src/aiqa_config_nvs.c:169-304 | the legacy namespace is unreadable exactly if some present field has the wrong type or does not fit; else there is a record exactly if the version is stored, each stored key gives its field that value, and each absent one leaves the built-in default |
| ConfigRecord.LegacyOf | components/config_store/src/aiqa_config_nvs.c:169-304 | a legacy namespace with every field of a record reads as exactly that record |
| Nvs.HeadRoundTrip | components/config_store/src/aiqa_config_nvs_ab.c:52-67 | the 64-bit head names one slot and revision and decodes back to them, in both directions, and a higher revision gives a higher word |
| Nvs.InvStep | components/config_store/src/aiqa_config_nvs_ab.c:581-776 | every durable write the adapter makes keeps the invariant: head well formed, slot fixed by revision parity, record complete unless a reset is at work |
| Nvs.Flash.Set | components/config_store/src/aiqa_config_nvs_ab.c:79-140 | one key is written atomically or not at all, a failed write may have taken effect, and every durable state is recorded |
| Nvs.Flash.EraseKey | components/config_store/src/aiqa_config_nvs_ab.c:713-776 | one key is erased atomically or not at all |
| Nvs.Flash.EraseAll | components/config_store/src/aiqa_config_nvs_ab.c:824-838 | a namespace is erased key by key; after a failure or a power cut any part of it may be left |
| ConfigStore.Store.ReadHead | components/config_store/src/aiqa_config_nvs_ab.c:321-331 | a present head decodes, an absent one is reported as absent, and a read error is told apart from both |
| ConfigStore.Store.ResetIsPending | components/config_store/src/aiqa_config_nvs_ab.c:333-354 | the tombstone is seen exactly when it is durable |
| ConfigStore.Store.LoadSlotRecord | components/config_store/src/aiqa_config_nvs_ab.c:243-257 | success returns exactly the record the slot decodes to |
| ConfigStore.Store.VerifyRecord | components/config_store/src/aiqa_config_nvs_ab.c:565-579 | success means the slot holds exactly the given record |
| ConfigStore.Store.StageRecord | components/config_store/src/aiqa_config_nvs_ab.c:581-639 | success means the inactive slot durably holds exactly the record; no other namespace changes, and the slot the head names is never touched; without a fault it succeeds |
| ConfigStore.Store.ActivateRecord | components/config_store/src/aiqa_config_nvs_ab.c:641-711 | compare-and-set of the head: flash ends on the old or the new head, the answers committed and not-committed are always true, and it commits only a valid successor of the expected head whose slot holds the whole candidate; without a fault it does |
| ConfigStore.Store.DiscardRecord | components/config_store/src/aiqa_config_nvs_ab.c:713-776 | a discarded slot is empty, the slot the head names is never discarded, and a legacy record goes only once a head exists |
| ConfigStore.Store.CompletePendingReset | components/config_store/src/aiqa_config_nvs_ab.c:840-863 | success leaves an empty store; at every power cut in between the tombstone is still durable or the records are already gone |
| ConfigStore.Store.WriteResetTombstone | components/config_store/src/aiqa_config_nvs_ab.c:865-884 | success means the tombstone is durable, and at most the tombstone was written |
| ConfigStore.Store.EraseEverything | components/config_store/src/aiqa_config_nvs_ab.c:886-902 | a full reset either leaves the store empty, or fails with the tombstone durable, the records gone, or nothing changed |
| ConfigStore.Store.LoadLegacy | components/config_store/src/aiqa_config_nvs.c:169-304 | the legacy namespace is reported as absent, unreadable or exactly the record it holds, with revision 1 |
| ConfigStore.Store.Migrate | components/config_store/src/aiqa_config_nvs_ab.c:415-455 | migration reports the legacy content only, and at every power cut that content is still held whole, so a load would report it or nothing; without a fault it ends at head (A,1) with the legacy copy gone |
| ConfigStore.Store.LoadWithoutHead | components/config_store/src/aiqa_config_nvs_ab.c:390-458 | a half-written slot without a head fails closed with no record; otherwise the legacy content is reported, never a mixture |
| ConfigStore.Store.LoadFromHead | components/config_store/src/aiqa_config_nvs_ab.c:463-482 | a present head is answered with its record of exactly that revision, and what later loads see does not change |
| ConfigStore.Store.LoadActive | components/config_store/src/aiqa_config_nvs_ab.c:371-482 | a reported record is the one that was visible before the call and still is; at every power cut in between its content is held whole, and what was not visible does not become so; a pending reset reports none; without a fault a visible record is reported, and a device that was never migrated gets exactly the fields of its legacy namespace, now in slot A |
| ConfigStore.Store.LoadActiveRecord | components/config_store/src/aiqa_config_nvs_ab.c:484-498 | the same behind the lifecycle lock, which it always gives back |
| ConfigStore.VisibleAfterCommit | components/config_store/src/aiqa_config_nvs_ab.c:641-711 | right after the head moves, the candidate is what a load sees, whole |
| ConfigHistory.RunInvariant | components/config_store/src/aiqa_config_nvs_ab.c:371-482 | every durable state of every run, cut anywhere, satisfies the invariant |
| ConfigHistory.CrashConsistency | components/config_store/src/aiqa_config_nvs_ab.c:371-482 | over a run a head not being reset always names a complete record of its revision, if and only if no write removed the tombstone before the head |
| ConfigHistory.StrandedHeadIsEmpty | components/config_store/src/aiqa_config_nvs_ab.c:824-853 | where that promise is broken the head names an empty slot and a load reports no record |
| ConfigHistory.StrandedHeadReachable | components/config_store/src/aiqa_config_nvs_ab.c:824-853 | from any store provisioned with one record, the writes of a full reset (tombstone, the record's keys one by one, the tombstone key before the head key) strand the head |
| ConfigHistory.HeadLineage | components/config_store/src/aiqa_config_nvs_ab.c:52-67 | from no head, the committed heads are exactly (A,1), (B,2), (A,3) and so on |
| ConfigHistory.OneCommitPerBase | components/config_store/src/aiqa_config_nvs_ab.c:641-711 | two commits never share a base and the encoded head strictly grows, so of the requests prepared against one revision at most one becomes durable |
| ConfigHistory.ParityFixesSlot | components/config_store/src/aiqa_config_nvs_ab.c:52-67 | the revision's parity fixes the slot of any durable head |
| ConfigHistory.ResetForgets | components/config_store/src/aiqa_config_nvs_ab.c:840-902 | from a durable tombstone on, no load at any later power cut can report a record, if and only if no later write moves the head while no tombstone is durable |
| ConfigTransaction.Transaction.Init | components/config_store/src/aiqa_config_transaction.c:123-144 | a transaction starts on exactly a valid record, unlocked and without recovery flag, or stays as it was |
| ConfigTransaction.Transaction.CopyActive | components/config_store/src/aiqa_config_transaction.c:146-172 | the record is handed out exactly when the transaction is idle and no recovery is required |
| ConfigTransaction.Transaction.ApplyWifi | components/config_store/src/aiqa_config_transaction.c:174-300 | an idle transaction with no recovery required gets past its checks exactly for an acceptable request and refuses with the error that fits; then the candidate is what was asked for, and the outcome table says what every result means for memory, durable head, slots, network and recovery flag; each power cut is before or after the one head move, and the old or the new record is visible when memory and flash agreed; recovery is sticky and blocks everything; without a fault an accepted update succeeds exactly if the durable head is the one in memory, so never from a legacy record |
| ConfigTransaction.CandidateExactly | components/config_store/src/aiqa_config_transaction.c:198-213 | there is a candidate exactly for an acceptable request, and it has the same configuration and API keys, the next revision, the other slot, and the SSID and password asked for |
| ConfigTransaction.Transaction.Execute | components/config_store/src/aiqa_config_transaction.c:224-300 | the same outcome table for the part behind the checks |
| ConfigTransaction.Transaction.CommitAndRetire | components/config_store/src/aiqa_config_transaction.c:255-292 | after the trial connection, success means the candidate is durable and the retired slot empty; failure rolls the network back or raises the recovery flag |
| ConfigTransaction.Transaction.RollBack | components/config_store/src/aiqa_config_transaction.c:241-281 | a rolled-back update leaves no trace of the candidate and the old credentials in use |
| ConfigTransaction.AgreesIsVisible | components/config_store/src/aiqa_config_transaction.c:146-172 | the transaction's record agrees with flash exactly if it is the record a load would report, outside the legacy namespace |
| ConfigTransaction.PhaseShows | components/config_store/src/aiqa_config_transaction.c:224-300 | before the head moves a load reports the old record, after it the whole candidate |
| ConfigRuns.AnyLife | components/config_store/src/aiqa_config_nvs_ab.c:371-902 | any boots, loads, updates, resets and reads by the real adapter and transaction, failing anywhere, form a life in which memory and flash agree whenever they should, every visible record is known, and resets are undone only in the one stated way |
| ConfigRuns.AlwaysAgrees | components/config_store/src/aiqa_config_transaction.c:123-300 | after every call of every life, from the load on and through every update, an initialized transaction with no recovery required agrees with flash, unless its record is a legacy one or a reset has written something since |
| ConfigRuns.UpdatesAreAtomic | components/config_store/src/aiqa_config_transaction.c:174-300 | so in every life each accepted update of such a transaction shows the old or the new record at every power cut, and succeeds when nothing fails |
| ConfigRuns.ReportsAreKnown | components/config_store/src/aiqa_config_nvs_ab.c:371-482 | whatever a load reports, or could report at any power cut of any life, is the record visible at the beginning or the candidate of an update whose head was committed before |
| ConfigRuns.ResetSafety | components/config_store/src/aiqa_config_nvs_ab.c:840-902 | from a durable tombstone on, in every life, no load can report a record, if and only if no transaction loaded before a reset that was cut between tombstone key and head key committed an update after it in the same boot |
| ConfigRuns.FreshTransactionsForget | components/app_runtime/src/aiqa_runtime.c:1868-1925 | the exception cannot occur when every update loads its record first |
| ConfigRuns.FirmwareLife | components/app_runtime/src/aiqa_runtime.c:1868-1981 | the network task does exactly that, one job after another: after its resets no record from before is ever reported again, whatever fails and wherever power is cut |
| ConfigResurrection.SurvivorCommits | components/config_store/src/aiqa_config_nvs_ab.c:886-902 | with the real calls: if a full reset is cut when only the head is left and nothing fails after that, the surviving transaction's next update succeeds and a load reports the API keys from before the reset |
| ConfigResurrection.ResetIsUndone | components/config_store/src/aiqa_config_nvs_ab.c:840-902 | for every provisioned record and every update it accepts there is such a life, write by write |
| ManagementOperation.StepKeeps | components/management_service/src/aiqa_management_service.c:37-90 | every atomic step of every thread keeps the protocol invariant |
| ManagementOperation.ExecKeeps | components/management_service/src/aiqa_management_service.c:210-301 | every interleaving of any number of submitters, completers and readers keeps it |
| ManagementOperation.OneWriter | components/management_service/src/aiqa_management_service.c:79-90 | the sequence lock never has two writers, racing completers included |
| ManagementOperation.AcceptedIsLatest | components/management_service/src/aiqa_management_service.c:49-77 | a copy that passes the final sequence check is what was last published, at that very moment |
| ManagementOperation.ReadsAreWholeAndMonotonic | components/management_service/src/aiqa_management_service.c:49-77 | an accepted read is one published operation, whole, and later accepted reads are never older |
| ManagementOperation.ReservesOnlyWhenIdle | components/management_service/src/aiqa_management_service.c:235-249 | the reservation is taken only when no operation is pending and nobody else works on one |
| ManagementOperation.AtMostOneOutcome | components/management_service/src/aiqa_management_service.c:266-301 | each admission of an id gets at most one terminal result, however many completers race |
| ManagementOperation.IdsAreFresh | components/management_service/src/aiqa_management_service.c:244-249 | an id is never zero and never reused within 2^32 - 1 admissions, the wrap past zero included |
| ManagementProgress.CompletionRun | components/management_service/src/aiqa_management_service.c:266-301 | from any reachable state with nobody at work, a completion run by one thread ends the pending operation with that id as the result says and frees the service; with any other id it changes nothing |
| ManagementProgress.SubmissionRun | components/management_service/src/aiqa_management_service.c:210-264 | a submission run by one thread publishes the next id as pending and reserves the service, unless an operation is pending; then it changes nothing |
| ManagementProgress.RefusalRun | components/management_service/src/aiqa_management_service.c:253-262 | a submission the port refuses is withdrawn and the service is free again |
| ManagementProgress.ReadRun | components/management_service/src/aiqa_management_service.c:49-77 | a read run by one thread accepts the latest published operation, unless a writer was stopped half way; then it gives up after its 64 attempts |
| TtsPool.StepKeeps | components/app_runtime/src/aiqa_runtime.c:2221-2591 | every step of producer, consumer, cancellation and timeouts keeps the pool invariant |
| TtsPool.RunKeeps | components/app_runtime/src/aiqa_runtime.c:2324-2591 | every state of every interleaving satisfies it |
| TtsPool.EverySlotInOnePlace | components/app_runtime/src/aiqa_runtime.c:2193-2286 | each of the 96 slots is in exactly one of free queue, play queue, producer and consumer |
| TtsPool.CountIsExact | components/app_runtime/src/aiqa_runtime.c:2221-2253 | the atomic count is the bytes queued plus the producer's one pending add plus the consumer's one pending removal |
| TtsPool.RemovalNeverFails | components/app_runtime/src/aiqa_runtime.c:2232-2253 | removing a received slot's bytes never underflows |
| TtsPool.QueuesNeverFull | components/app_runtime/src/aiqa_runtime.c:2275-2286 | neither queue is full when something is sent to it, so no send times out and no slot is lost |
| TtsPool.PlayedIsPrefix | components/app_runtime/src/aiqa_runtime.c:2446-2475 | at any moment the PCM played is a prefix of the PCM produced |
| TtsPool.CleanFinishPlaysAll | components/app_runtime/src/aiqa_runtime.c:2574-2591 | when both sides finished without failure everything the synthesizer delivered was played and the count is zero |
| TtsPool.UntouchedOnceFinished | components/app_runtime/src/aiqa_runtime.c:2574-2616 | once the producer has finished, whatever the status, the consumer has ended and neither side touches the pool again, so it can be freed |
| TtsOutput.PlaysOnlyWhenStarted | components/app_runtime/src/aiqa_runtime.c:2404-2475 | in every run the output was started before anything is written to it, and a started one is not asked to start again |
| TtsOutput.StartsOnce | components/app_runtime/src/aiqa_runtime.c:2404-2423 | the output is asked to start at most once |
| TtsOutput.StartedExactly | components/app_runtime/src/aiqa_runtime.c:2414-2423 | it counts as started exactly when an attempt was answered with success |
| TtsOutput.FailedStartPlaysNothing | components/app_runtime/src/aiqa_runtime.c:2414-2422 | after a failed start nothing is ever played and the run ends with a failure |
| TtsOutput.StopsBeforeDone | components/app_runtime/src/aiqa_runtime.c:2495-2502 | a consumer that has ended went through the step that stops a started output, and a failing stop becomes the status |
| TtsProgress.FailsOnlyForCause | components/app_runtime/src/aiqa_runtime.c:2324-2591 | as long as the turn is current, samples are whole, no wait times out and the hardware obeys, no run has a failure |
| TtsProgress.NoDeadlock | components/app_runtime/src/aiqa_runtime.c:2275-2286 | whenever the producer waits for a slot or for the end the consumer has something to do |
| TtsProgress.GetsThrough | components/app_runtime/src/aiqa_runtime.c:2505-2591 | every run, failed or not, can be continued until the producer is through with its callback or with everything |
| TtsProgress.PlaysEverything | components/app_runtime/src/aiqa_runtime.c:2324-2591 | for all callbacks of whole samples there is a run in which both sides end with success and exactly what was delivered is played |
| PairingWorld.RecordRoundTrip | components/management_session_esp/src/aiqa_pairing_esp_nvs.c:10-25 | the encoded lock record decodes to itself exactly when it is acceptable |
| PairingWorld.RecordIsUnique | components/management_session_esp/src/aiqa_pairing_esp_nvs.c:14-25 | only one 64-bit word stands for a record, so the read-back comparison is exact |
| PairingWorld.World.Load | components/management_session_esp/src/aiqa_pairing_esp_nvs.c:28-49 | a loaded record is the durable one; only a missing namespace counts as no record |
| PairingWorld.World.Store | components/management_session_esp/src/aiqa_pairing_esp_nvs.c:51-76 | success means exactly this record is durable; a failed store may have taken effect |
| PairingWorld.AttemptBound | components/management_session/src/aiqa_pairing_lifecycle.c:288-335 | between two requests to zero the record at most max_attempts codes are released, power cuts and restarts included |
| PairingWorld.RevokedOnce | components/management_session/src/aiqa_pairing_lifecycle.c:81-97 | within one power cycle a connection is revoked exactly once before another one opens |
| PairingLifecycle.DigitsAreEven | components/management_session/src/aiqa_pairing_lifecycle.c:228-245 | each digit comes from equally many of the accepted byte values |
| PairingLifecycle.Lifecycle.constructor | components/management_session/src/aiqa_pairing_lifecycle.c:180-217 | the durable counter decides between inactive and locked; a record that is unreadable or beyond the limit is a fault, and unless a port fails nothing else is |
| PairingLifecycle.Lifecycle.ReadClock | components/management_session/src/aiqa_pairing_lifecycle.c:123-134 | a failing or backward clock ends in fault with everything cleared; otherwise time moves on and nothing else changes |
| PairingLifecycle.Lifecycle.Refresh | components/management_session/src/aiqa_pairing_lifecycle.c:137-177 | the view is aged to the present: closed if and only if a deadline of its state has passed |
| PairingLifecycle.Lifecycle.GenerateCode | components/management_session/src/aiqa_pairing_lifecycle.c:228-245 | at most 256 bytes are rejected; on success the code is exactly the bytes drawn in this call with those from 250 on skipped, each taken modulo ten; it fails, with the code wiped, exactly if the random source refused or the limit was reached |
| PairingLifecycle.Lifecycle.LocalOpen | components/management_session/src/aiqa_pairing_lifecycle.c:248-279 | each result's exact condition and new state, faults included; each failure blames exactly the port that refused; a window opens only from inactive, with someone at the device, its code drawn in this call, and its deadline fixed from the current time |
| PairingLifecycle.Lifecycle.Begin | components/management_session/src/aiqa_pairing_lifecycle.c:288-335 | each result's exact condition and new state, faults included; each failure blames exactly the port that refused, the display before the consumer; success has released the displayed code once and then cleared it, and the attempt was durable before |
| PairingLifecycle.Lifecycle.HandshakeProgress | components/management_session/src/aiqa_pairing_lifecycle.c:338-353 | the step deadline moves on but never past the window |
| PairingLifecycle.Lifecycle.ClientFinishedVerified | components/management_session/src/aiqa_pairing_lifecycle.c:355-365 | only a matching handshake moves on to waiting for the device's proof |
| PairingLifecycle.Lifecycle.DeviceFinishedSent | components/management_session/src/aiqa_pairing_lifecycle.c:368-395 | a matching session becomes active, its deadlines are fixed and the durable counter is zero |
| PairingLifecycle.Lifecycle.AuthenticatedActivity | components/management_session/src/aiqa_pairing_lifecycle.c:397-411 | activity moves only the idle deadline, never past the absolute one |
| PairingLifecycle.ActivityNeverExtends | components/management_session/src/aiqa_pairing_lifecycle.c:397-411 | however busy a session is, its absolute end stays where it was fixed |
| PairingLifecycle.PolicyBounds | components/management_session/src/aiqa_pairing_lifecycle.c:36-70 | whatever the policy, no window is open two minutes after it was opened and no session is active half an hour after it began |
| PairingLifecycle.DeadlineFacts | components/management_session/src/aiqa_pairing_lifecycle.c:36-42 | a deadline is the sum, saturating at the end of time, and the earlier of two is the one that passes first |
| PairingLifecycle.Lifecycle.ProtocolFailed | components/management_session/src/aiqa_pairing_lifecycle.c:414-428 | a matching handshake is closed, anything else is left alone |
| PairingLifecycle.Lifecycle.Disconnect | components/management_session/src/aiqa_pairing_lifecycle.c:431-443 | the open connection is closed, anything else is left alone |
| PairingLifecycle.Lifecycle.LocalReset | components/management_session/src/aiqa_pairing_lifecycle.c:451-471 | with someone at the device and every port obeying the device is inactive with a zeroed counter, whatever state it was in; otherwise the result blames exactly the port that refused, and what was changed is stated |
| PairingLifecycle.Lifecycle.GetStatus | components/management_session/src/aiqa_pairing_lifecycle.c:474-505 | the remaining time is exactly how long until the state expires, and the remaining attempts complement the used ones |
| PairingLifecycle.AnyCall | components/management_session/src/aiqa_pairing_lifecycle.c:158-471 | any call keeps the invariant, and fault is left only towards inactive |
| PairingLifecycle.AnyRun | components/management_session/src/aiqa_pairing_lifecycle.c:180-471 | any calls, power cuts at any port call, destructions and restarts keep all the rules about connections and released codes, and between two requests to zero the record at most the allowed number of codes is released |
| PairingLifecycle.RefusedStartKeepsDeadlines | components/management_session/src/aiqa_pairing_lifecycle.c:328-333 | a refused start leaves old deadlines behind in the inactive state |
| Bytes.GetPut | components/management_session/src/aiqa_secure_channel.c:60-82 | big-endian writing and reading are inverse for every value that fits |
| Bytes.PutGet | components/management_session/src/aiqa_secure_channel.c:60-82 | and the other way round, for every byte string |
| SecureChannel.NonceIsInjective | components/management_session/src/aiqa_secure_channel.c:84-88 | different counters give different nonces |
| SecureChannel.NonceParts | components/management_session/src/aiqa_secure_channel.c:84-88 | a nonce is the direction's prefix followed by the big-endian counter |
| SecureChannel.OuterIsWireHeader | components/management_session/src/aiqa_secure_channel.c:90-98 | what is authenticated as the outer header is the frame header on the wire, for the same kinds and sizes |
| SecureChannel.KindsHaveOneSender | components/management_session/src/aiqa_secure_channel.c:40-58 | each valid kind is sent by one role and received by the other: requests by clients, responses and events by devices |
| SecureChannel.HeaderRoundTrip | components/management_session/src/aiqa_secure_channel.c:184-193 | a record header reads back field by field |
| SecureChannel.CheckedHeader | components/management_session/src/aiqa_secure_channel.c:225-252 | a header that passes the receiver's checks is the one the peer writes for that counter and length |
| SecureChannel.KindIsBound | components/management_session/src/aiqa_secure_channel.c:90-98 | equal additional data means equal frame kind and header |
| SecureChannel.Channel.Encrypt | components/management_session/src/aiqa_secure_channel.c:157-205 | success seals the message under the next counter value and uses it up; any refusal changes nothing |
| SecureChannel.Channel.Decrypt | components/management_session/src/aiqa_secure_channel.c:207-271 | accepts exactly the admissible record with the expected counter that opens; every rejection wipes the output and leaves the state unchanged |
| SecureChannel.AcceptedIsNext | components/management_session/src/aiqa_secure_channel.c:207-271 | whatever the network delivers, what is accepted is the sender's next message |
| SecureChannel.NextIsAdmissible | components/management_session/src/aiqa_secure_channel.c:207-252 | the sender's next record, delivered unchanged, passes every test |
| SecureChannel.NoncesNeverRepeat | components/management_session/src/aiqa_secure_channel.c:84-88 | no key is used twice with one nonce |
| SecureChannel.AnyTraffic | components/management_session/src/aiqa_secure_channel.c:101-271 | any run against any network: each end accepts a prefix of what the other sent, and no (key, nonce) pair repeats |
| WireFraming.FeedConcat | components/management_transport/src/aiqa_management_wire.c:107-142 | feeding two pieces is feeding them one after the other |
| WireFraming.ChunkInvariance | components/management_transport/src/aiqa_management_wire.c:107-142 | without a bad header the cutting into chunks makes no difference |
| WireFraming.RoundTrip | components/management_transport/src/aiqa_management_wire.c:42-142 | any list of frames, its encoding cut anyhow, comes out exactly and leaves the decoder in its first state |
| WireFraming.HuntsOn | components/management_transport/src/aiqa_management_wire.c:72-85 | during the hunt the decoder remembers the longest end of the input that could start the magic word; each mismatch loses one to four bytes |
| WireFraming.LocksOntoFirst | components/management_transport/src/aiqa_management_wire.c:72-85 | the decoder locks onto the first occurrence of the magic word after any garbage |
| WireFraming.CounterIsNotLostBytes | components/management_transport/src/aiqa_management_wire.c:79-83 | the dropped counter counts mismatches: four bytes lost at once are counted as one |
| WireFraming.CountsLostBytes | components/management_transport/src/aiqa_management_wire.c:79-83 | in bytes without the magic word, the counter equals the number of lost bytes if and only if every lost first magic byte is directly followed by another one |
| WireFraming.WireDecoder.ResetFrame | components/management_transport/src/aiqa_management_wire.c:23-32 | the decoder is back in its first framing state |
| WireFraming.WireDecoder.HuntByte | components/management_transport/src/aiqa_management_wire.c:72-85 | one byte of the hunt, against the transition function |
| WireFraming.WireDecoder.HeaderByte | components/management_transport/src/aiqa_management_wire.c:87-105 | one byte of the fixed header part, its checks and the empty frame, against the transition function |
| WireFraming.WireDecoder.FeedData | components/management_transport/src/aiqa_management_wire.c:107-142 | the C loop computes exactly the specified feed: state, frames, verdict and both wrapping counters |
| WireFraming.FrameDecoder.Push | client/src/device/serialFrameCodec.ts:49-117 | the TypeScript loop computes the same feed, but an exception returns none of the chunk's frames |
| WireFraming.KeptAreAll | client/src/device/serialFrameCodec.ts:49-69 | both decoders hand over the same frames if and only if no chunk completes a frame and then holds a bad header |
| WireFraming.KeptLosesDelivered | client/src/device/serialFrameCodec.ts:80-103 | a good frame followed by a bad header in one chunk is delivered in C and lost in TypeScript |
| WireFraming.SideBySide | client/src/device/serialFrameCodec.ts:42-117 | both decoders on any chunks stand at the same framing state throughout, and hand over the same frames exactly under that condition |
| WireFraming.EncodeHeader | components/management_transport/src/aiqa_management_wire.c:42-63 | the C header encoder writes exactly the specified header, or refuses and writes nothing |
| WireFraming.EncodeFrame | client/src/device/serialFrameCodec.ts:26-40 | the TypeScript encoder builds exactly the specified frame, or refuses an oversized payload |
| Handshake.TranscriptIsInjective | components/management_session/src/aiqa_pairing_crypto.c:120-173 | equal transcript strings mean equal ids, device id, nonces and all four messages |
| Handshake.Context.FeedTranscript | components/management_session/src/aiqa_pairing_crypto.c:120-173 | feeding the hash field by field, any update free to fail, hashes exactly the transcript |
| Handshake.Context.StoreRound | components/management_session/src/aiqa_pairing_crypto.c:73-92 | the message reads back as its sender's round of that number, and the other three are unchanged |
| Handshake.Context.WriteRound | components/management_session/src/aiqa_pairing_crypto.c:247-316 | a round is written exactly when its turn has come and it was not written before, unless the buffer is too small or the library fails, and is then on record as sent |
| Handshake.Context.ReadRound | components/management_session/src/aiqa_pairing_crypto.c:272-338 | a round is read exactly when its turn has come and it was not read before, unless it is empty or too long or the library fails, and is then on record as received |
| Handshake.Context.DeriveKeys | components/management_session/src/aiqa_pairing_crypto.c:340-422 | keys exist exactly when all four messages are there, once per context, unless the library fails, and stand for exactly this transcript |
| Handshake.PairingKeys.CreateFinished | components/management_session/src/aiqa_pairing_crypto.c:453-467 | the first request for the own role gets the proof unless the library fails; any other is refused |
| Handshake.PairingKeys.VerifyFinished | components/management_session/src/aiqa_pairing_crypto.c:469-496 | the first proof asked about passes exactly if it is the peer's over the same secret and transcript, unless the library fails; a wrong one spoils the keys |
| Handshake.PairingKeys.MakeChannel | components/management_session/src/aiqa_pairing_crypto.c:499-512 | a channel comes up exactly if both proofs are there, unless the library fails; the client sends with the client-to-device key and prefix, the device with the other two |
| Handshake.DeviceSession.CompleteRoundTwo | components/management_session/src/aiqa_pairing_device_session.c:83-109 | the client's second round is read, the device's written, and keys derived from both; in turn and without a library failure it succeeds |
| Handshake.DeviceSession.Confirm | components/management_session/src/aiqa_pairing_device_session.c:111-142 | without a library failure the device's channel comes up exactly on the client's valid proof; whatever happens the keys are destroyed |
| Handshake.DeviceSession.TakeChannel | components/management_session/src/aiqa_pairing_device_session.c:144-167 | the channel changes hands once |
| Handshake.ClientSession.CreateFinished | components/management_session/src/aiqa_pairing_client_session.c:115-138 | the client's proof is made once, over its own finished transcript, as soon as all messages are there and unless the library fails |
| Handshake.ClientSession.VerifyFinished | components/management_session/src/aiqa_pairing_client_session.c:140-157 | without a library failure the client's channel comes up exactly on the device's valid proof, and only after its own |
| Handshake.Agreement | components/management_session/src/aiqa_secure_channel.c:101-154 | two channels resting on one proof agree on code, facts and messages and have mirrored keys |
| Handshake.AcceptedMeansSame | components/management_session/src/aiqa_pairing_crypto.c:469-496 | a device that accepts this client's proof saw the same code, facts and messages |
| Handshake.HonestDelivery | components/management_session/src/aiqa_pairing_device_session.c:83-142 | with every message delivered and the library failing where it likes, a channel comes up only between equal codes and facts, and two channels always fit; if nothing fails both come up exactly when code and facts are equal |
| EventStream.FirstStays | components/chat_client/src/aiqa_chat_client.c:107-129 | more bytes never move the leftmost complete separator |
| EventStream.SplitAppend | components/chat_client/src/aiqa_chat_client.c:131-160 | splitting what came so far and carrying the rest over splits the whole stream |
| EventStream.SplitRebuilds | components/chat_client/src/aiqa_chat_client.c:87-129 | nothing is lost by splitting but one LF LF or CR LF CR LF behind each event |
| EventStream.EventBuffer.FindSeparator | components/chat_client/src/aiqa_chat_client.c:107-129 | the loop finds exactly the leftmost separator and its length |
| EventStream.EventBuffer.ProcessEvent | components/chat_client/src/aiqa_chat_client.c:87-105 | an empty event is ignored, an oversized one raises the flag, any other one is processed |
| EventStream.EventBuffer.ProcessChunk | components/chat_client/src/aiqa_chat_client.c:131-160 | a chunk that fits yields exactly the events of carry plus chunk and leaves no complete separator behind; one that does not is dropped and flagged |
| EventStream.EventBuffer.ProcessRemainder | components/chat_client/src/aiqa_chat_client.c:162-171 | what follows the last separator is processed too |
| EventStream.ReadStream | components/chat_client/src/aiqa_chat_client.c:87-171 | unless a chunk was dropped, any chunking yields the leftmost split of the whole stream |
| EventStream.Answer.AppendDelta | components/chat_client/src/aiqa_chat_client.c:62-85 | a delta is appended up to the capacity and the flag is raised if any of it was cut |
| EventStream.CollectAnswer | components/chat_client/src/aiqa_chat_client.c:62-85 | the text is the longest prefix of all deltas that fits, and the flag says whether anything was cut |
| WavUpload.Base64RoundTrip | components/asr_client/src/aiqa_asr_client.c:819-830 | the encoding can be read back for every byte string |
| WavUpload.SymbolIsStandard | components/asr_client/src/aiqa_asr_client.c:819-830 | the 64 symbols are those of Table 1 of RFC 4648 |
| WavUpload.StandardVectors | components/asr_client/src/aiqa_asr_client.c:819-830 | test vectors of section 10 of RFC 4648 |
| WavUpload.Base64Concat | components/asr_client/src/aiqa_asr_client.c:805-841 | pieces of a length divisible by three encode to what the whole encodes to |
| WavUpload.EncodedLengthIsExact | components/asr_client/src/aiqa_asr_protocol.c:256-262 | the length function is exact, and refuses a length precisely when the encoding would not fit 32 bits |
| WavUpload.HeaderSizes | components/asr_client/src/aiqa_asr_protocol.c:286-320 | the two sizes in the WAV header describe the file they stand in |
| WavUpload.HeaderFormat | components/asr_client/src/aiqa_asr_protocol.c:286-320 | format tag, channels, sample rate, byte rate, block alignment and sample size read back from the header at their offsets |
| WavUpload.Uploader.WriteAll | components/asr_client/src/aiqa_asr_client.c:271-311 | success sends all of the data in however many writes; any error leaves a prefix of it on the wire |
| WavUpload.Uploader.CopyVirtualChunk | components/asr_client/src/aiqa_asr_client.c:475-494 | a window of header plus PCM, without building the file |
| WavUpload.Uploader.UploadFile | components/asr_client/src/aiqa_asr_client.c:804-841 | the chunk loop sends exactly the encoding of header plus PCM, or a prefix of it |
| WavUpload.Uploader.Upload | components/asr_client/src/aiqa_asr_client.c:731-855 | on success the wire holds prefix, encoded file, quote and suffix, exactly as long as declared; on failure a prefix of that |
| Utf8.AcceptedIsEncoded | components/app_core/src/aiqa_assistant_profile.c:19-66 | what the decoder accepts is the encoding of the value it reports |
| Utf8.EncodedIsAccepted | components/app_core/src/aiqa_assistant_profile.c:19-66 | every encoding is accepted at its full length with its own value |
| Utf8.EncodingIsUnique | components/app_core/src/aiqa_assistant_profile.c:19-66 | no encoding starts with another one |
| Utf8.DecodeCodepoint | components/app_core/src/aiqa_assistant_profile.c:19-66 | accepts exactly the well-formed sequences and undoes the encoder |
| Utf8.NameIsSafe | components/app_core/src/aiqa_assistant_profile.c:86-101 | accepts exactly the strings of allowed code points that neither start nor end with a space |
| Utf8.Profile.IsValid | components/app_core/src/aiqa_assistant_profile.c:112-123 | a profile is valid exactly when its gender is known and its name is safe |
| Utf8.Profile.SetName | components/app_core/src/aiqa_assistant_profile.c:125-140 | a safe name is stored, an unsafe one changes nothing, and the answer also depends on the gender |
| Utf8.PrefixLength | components/app_core/src/aiqa_conversation_memory.c:5-43 | the truncation loop stays within text and limit and computes the specified walk |
| Utf8.LongestBoundary | components/app_core/src/aiqa_conversation_memory.c:5-43 | on well-formed text the result is the longest run of whole characters within the limit |
| Utf8.Memory.AddTurn | components/app_core/src/aiqa_conversation_memory.c:90-111 | the ring holds the newest three turns, each clipped, oldest first |
| Utf8.KeptIsNotEmpty | components/app_core/src/aiqa_conversation_memory.c:45-60 | a non-empty text never clips to nothing |
| Button.PttButton.Update | components/app_core/src/aiqa_ptt_button.c:49-105 | debounce and outputs with their exact timing, and every field's new value: nothing early and nothing overdue, in time modulo 2^32 |
| Button.ElapsedIsModular | components/app_core/src/aiqa_ptt_button.c:3-6 | elapsed time is right over the wrap of the counter |
| Button.CheckPolicy | components/app_core/src/aiqa_ptt_button.c:19-40 | the checks one after the other accept exactly the safe policies |
| Button.BootGesture.Update | components/app_core/src/aiqa_boot_gesture.c:19-61 | one sample yields an output or an action, never both; a recording implies zero counted taps; every edge, output and action fits the story so far |
| Button.OutputsAlternate | components/app_core/src/aiqa_ptt_button.c:82-102 | the outputs have the form (START (END | TOO_LONG))* with at most one START open |
| Button.StartNeedsRelease | components/app_core/src/aiqa_ptt_button.c:74-95 | after TOO_LONG a new START needs a release |
| Button.ActionsNeedTaps | components/app_core/src/aiqa_boot_gesture.c:42-59 | pairing needs exactly three taps since the last clearing event and reset exactly five |
| Button.AnySamples | components/app_core/src/aiqa_boot_gesture.c:19-61 | any samples at any times produce such outputs and such a story |
| JsonString.ReadEscaped | components/chat_client/src/aiqa_chat_protocol.c:279-325 | an escaped text before a quote is read back and ends at that quote |
| JsonString.RoundTrip | components/chat_client/src/aiqa_chat_protocol.c:93-106 | reading what was written gives the text back and stops at the closing quote written for it, whatever stands around it |
| JsonString.EscapesAreStandard | components/chat_client/src/aiqa_chat_protocol.c:61-91 | the escapes written and read are those of section 7 of RFC 8259, character by character |
| JsonString.Writer.AppendRaw | components/chat_client/src/aiqa_chat_protocol.c:44-59 | all of the value is appended or nothing, exactly by whether it fits with its NUL |
| JsonString.Writer.AppendEscapedContent | components/chat_client/src/aiqa_chat_protocol.c:61-91 | the loop appends exactly the escaped text if it fits, and a prefix of it otherwise |
| JsonString.Writer.AppendEscapedString | components/asr_client/src/aiqa_asr_protocol.c:42-76 | the same with quotes, as both clients write it |
| JsonString.CopyStringValue | components/asr_client/src/aiqa_asr_protocol.c:322-368 | succeeds exactly when the string is complete, uses known escapes and fits |
| JsonString.WriteThenRead | components/chat_client/src/aiqa_chat_protocol.c:32-106 | writing any NUL-free text and reading it back with large enough buffers is the identity |

## Left out

* Flash details: a key is written or erased atomically, a failed write may still have taken effect, reads are honest or fail with their own code, commit adds no durability of its own, and the order in which a namespace erase removes keys is left open. Wear levelling and flash corruption are not modelled.
* The provider allow-lists behind the configuration validator and the built-in defaults are a parameter (`Rules`); everything is proved for every choice of them.
* Preference keys, the configuration snapshot with user preferences, and the status-name tables; so a preference that cannot be read, which fails the load of a legacy device, is not modelled.
* NULL-pointer checks and caller buffers that are too small where the model returns a value instead of filling a buffer.
* The trial connection's timing and the HTTP, TLS, Wi-Fi, USB, audio and display drivers behind the ports.
* Weak memory: atomic accesses are sequentially consistent, and the 32-bit sequence counter of the management service is unbounded, so a reader sleeping through 2^31 writes is not modelled.
* A refused Wi-Fi submission in the management service is assumed to mean that nobody completes that operation; without it the submitter's withdrawal could race a completer.
* The playback pool's starvation statistics, prebuffer timing and log output; whether a queue starved is a free choice of the model. Its buffer policy has constant arguments that are accepted.
* The generation number of a conversation turn and the request epoch of an upload are flags that, once stale, stay stale.
* The pairing lifecycle's policy is fixed for all restarts of a run. Creating it with an unsafe policy is a refused call and yields no object.
* EC-JPAKE, HKDF, SHA-256, HMAC and AES-GCM are ideal: a secret, key or proof is the term of its inputs, and only what was sealed opens. The two directions' keys are assumed to differ, as distinct HKDF labels make them. A round message that the library refuses counts as a failure of the library. No computational claims.
* Overlapping input and output buffers in the secure channel: inputs are values here, so the overlap checks have nothing to refuse.
* Arguments that make creating a pairing context fail are preconditions of its constructor.
* Parsing one event into a delta, HTTP request composition, the URL and header builders, and the language prompts.
* The conversation memory's context string and the assistant profile's context string.
* Secure zeroing, except where an invariant needs a buffer to be zero.
* The loops that read and write big-endian numbers are recursive functions here, with the same bytes in the same order.
