# TRI-SYNC, modelled and proved in Dafny

TRI-SYNC is a deterministic event-sourcing runtime. Events form a digest chain in an
append-only log; replaying the log gives a Binary State Map; TICK_SEAL events state the
digest of that map, and a snapshot taken at a seal lets verification start there instead of
at the first event. This project models the runtime's core and proves what it is for:

- **The segmented log** (`Segments`, `LogInvariant`, `LogWrites`, `AppendSafety`,
  `AppendSteps`, `AppendResult`, `Migration`, `LogRuns`, `StuckLog`, `StuckRuns`, `Refinement`,
  `Specimens`, `ShaLog`, `EventLog`). A disk is a catalog, segment files made of lines, and
  the old single file. Each write is one step, and an append call is described with every
  disk state it goes through, buffered lines included. Main results: after any run of append
  calls, rejected batches, migrations and crashes between any two writes the log opens to the
  accepted events and a prefix of each interrupted batch, but for one case (see Findings),
  which is characterised by an if-and-only-if over whole runs, crashes included; recovery
  sees a line that reached the active file exactly as if the catalog had recorded it; the log
  refines the flat list of the in-memory backend. `ShaLog` states the main results for the
  program's own rules; the modules before it prove them for any rules that meet `Genuine`.
  `EventLog.AppendOnlyEventLog` is the program form: a disk changed in place, proved equal to
  the functions write by write.
- **Replay and checkpoints** (`Replay`, `ReplayFacts`, `ReplayEngine`, `LastWrites`,
  `ReplayExactly`, `TamperEvidence`, `Checkpoints`, `SealedRoots`, `TickZero`,
  `StateInvariant`, `SnapshotStore`). Exactly when a log replays, which violation is reported
  when it does not, and what the state then holds, all read off the events; when the
  checkpoint shortcut agrees with full replay, for which roots, why cached snapshots never
  matter, what the digest of the last event pins down, and what every step keeps.
- **The wire format** (`Wire`, `StateMap`, `Codec`, `StateStore`, `Snapshots`, `Diff`). The
  codec is a bijection onto the bytes it accepts; differences between states are exact and
  invertible.
- **Canonical text** (`Utf8`, `KeyOrder`, `Hex`, `Key`, `Decimal`, `CanonicalJson`,
  `JsonReader`, `Records`, `Events`, `EventDigests`, `EventRules`). Decimal canonicalisation
  keeps the number its characters spell; a reader of RFC 8259 gets back what was printed, so
  canonical JSON is unambiguous; hence an event digest commits to every digested field, under
  the names of the protocol.

## Conventions

- SHA-256 (FIPS 180-4) is an arbitrary function from byte strings to 32 bytes. Theorems that
  need it to be free of collisions say so of the digest inputs they speak about.
- Machine integers are subset types of `int`; the narrowing casts to 32 and 16 bits are
  written out, and `Codec.RoundTripIffEncodable` says exactly when they lose nothing. The
  successor of a sequence number is not reduced modulo 2^64.
- Strings are sequences of Unicode scalar values, with UTF-8 (RFC 3629) as an explicit codec.
- Clocks, and the moments at which a buffered writer hands lines over early, are arbitrary
  inputs (`Env`); theorems hold for all of them.
- Parameters of function type stand in for the digest check, the line length and the header
  digest (`Rules`, `Integrity`). `ShaLog.ShaSettingIsGenuine` shows that the rules of the
  program satisfy what the log theorems ask of them.
- Some predicates (`Genuine`, `Durable`, `DiskOk`, `Tracked`, `Ready`, `EndsOk`, `Ahead`) wrap
  their meaning in a trivially true trigger so that proofs look inside on request only; each
  has a lemma that opens it.
- `Bounded(lineMax)` says that segments may hold at least one event and at least `lineMax`
  bytes and that lines are no longer than that; `Loose` says nothing about the limits.

## Findings

- **A log can stop opening.** A crash between the first catalog write and the first line
  leaves an empty segment at 0. If the next accepted event does not fit in it (its line
  exceeds the byte limit, or the event limit is 0), a second segment at 0 is made, and `load`
  refuses overlapping segments from then on: `seq_end` saturates at 0, so the empty first
  segment seems to hold event 0. `ShaLog.LogStopsOpening` and `ShaLog.DefaultLogStopsOpening`
  give two concrete events that do this to an empty log, under any limits and under the
  default ones. `StuckRuns.AttemptOpensIff` says exactly when a log opens after a call,
  finished or cut short: always, unless the call meets such a segment with such an event and
  gets past its first write. `StuckRuns.RunOpensIff` says it of whole runs, and
  `StuckRuns.BrokenForever` that nothing repairs the log.
- **The checkpoint shortcut is weaker than full replay** when a seal at tick 0 follows events
  with higher ticks: the snapshot carries only the seal's tick
  (`TickZero.ShortcutMissesTickRegression`). `Checkpoints.CheckpointIffFull` gives the exact
  condition.
- **A STATE_BATCH can change a key's type** by deleting and rewriting it
  (`StateInvariant.BatchCanChangeType`). A batch keeps the type of a key if and only if its
  last operation on the key, where that is a write to a present key, names the type the key
  has (`StateInvariant.BatchKeepsTypeIff`); no other event can change a type
  (`StateInvariant.ApplyKeepsTypes`).

## Model

| member | source | states |
|---|---|---|
| LogRuns.RunSurvives | src/event_log.rs:168-194 | Crash safety over whole runs: after any calls, rejected or cut short between any two writes, migration included, the log opens to what finished calls took and a prefix of what each interrupted one would have taken, and next sequence, head digest and namespace are those of the last event; the one thing excluded is a call that meets the stuck state and gets past its first write |
| LogRuns.BoundedRunSurvives | src/event_log.rs:168-194 | With room for every line and for one event a segment, no run needs any further hypothesis, and the catalog recovery computes at the end is exact and within both limits |
| LogRuns.CallSafe | src/event_log.rs:292-458 | One call: events taken and error are those of the flat list, the final disk holds all of them, and every intermediate disk holds the old events and a prefix of the new |
| LogRuns.ShortRunIsSafe | src/event_log.rs:512-522 | Under limits with room for every line no call of any run meets the stuck state |
| LogRuns.BoundedNeverSticks | src/event_log.rs:512-522 | Under such limits an empty first segment always takes the next line |
| LogRuns.CallMigrates | src/event_log.rs:292-315 | A call on an old single file makes all the writes of the migration first, each of which leaves exactly the old events, and then exactly those of the append to the migrated disk, which ends as any append does |
| AppendResult.AppendSegmentedSafe | src/event_log.rs:317-458 | Crash safety and refinement of one append call without migration, from any durable disk that is not stuck |
| AppendResult.ReadyTurn | src/event_log.rs:334-447 | One turn of the loop: a rejected event changes nothing, an accepted one is accounted for by disk, buffer and catalog together |
| AppendResult.SameVerdict | src/event_log.rs:335-370 | The catalog answers the sequence, chain, digest and namespace checks exactly as the list of events would |
| AppendSteps.RollingKeeps | src/event_log.rs:375-390 | Going over to a new segment (header, old lines, catalog, in this order) keeps every intermediate disk durable and ends with an exact catalog |
| AppendSteps.WriteKeeps | src/event_log.rs:392-440 | Buffering a line, however much of the buffer spills at once, keeps disk plus buffer equal to the catalog in memory |
| AppendSteps.HeaderVisitKeeps | src/event_log.rs:671-685 | The truncating header write of a new segment changes nothing the catalog on disk can see |
| AppendSafety.SpillKeeps | src/event_log.rs:412-422 | Any number of buffered lines handed over leaves a durable disk after each of them |
| AppendSafety.FlushKeeps | src/event_log.rs:449-451 | After a flush the disk, reconciled, is exactly the catalog in memory |
| LogWrites.LineIsRecorded | src/event_log.rs:787-819 | Recovery sees a line that reached the active file exactly as if its event had been recorded in the catalog |
| LogWrites.RecordKeeps | src/event_log.rs:424-439 | Recording the next event keeps the catalog exact: ranges, counts, sizes, digests, seals, header links, limits |
| LogWrites.RollKeeps | src/event_log.rs:506-556 | Adding a segment keeps the catalog exact, the new segment's link being the digest of the previous entry's final header |
| LogWrites.HeaderKeeps | src/event_log.rs:534-552 | The file name of a new segment is never that of a cataloged one, so its truncation erases nothing |
| LogInvariant.SegmentIdInjective | src/event_log.rs:783-785 | Segment file names determine start and position |
| LogInvariant.StaleTailForgotten | src/event_log.rs:787-819 | Whatever tail the catalog recorded, reconciling gives the same catalog once the active file holds an event; before that, whatever next number it recorded |
| LogInvariant.ReconcileExact | src/event_log.rs:787-819 | Reconciling an exact catalog changes nothing |
| LogInvariant.DurableLoads | src/event_log.rs:208-270 | A durable disk opens to exactly its events, and its tail metadata is that of the last event |
| LogInvariant.OrderedExact | src/event_log.rs:761-781 | Segments of an exact catalog are in order and do not overlap |
| Migration.MigrationSafe | src/event_log.rs:612-669 | Migration keeps the content and may stop after any of its steps, between the two renames too; the finished catalog is exact for the old events and within the limits |
| Migration.MoveKeeps | src/event_log.rs:631-652 | Moving one event extends the segments being built by it and leaves the old file in charge |
| Migration.PublishKeeps | src/event_log.rs:654-668 | Each of the renames that publish the moved segments leaves the log holding the same events |
| StuckLog.StuckSegmented | src/event_log.rs:512-541 | A call that meets the stuck state: after its first write, a header, the log still opens and is empty; after each later write, and at the end, two segments start at 0 |
| StuckLog.BrokenNeverLoads | src/event_log.rs:768-778 | Two segments that start at 0 make load fail |
| StuckRuns.AttemptOpensIff | src/event_log.rs:512-541 | A log opens after a call, finished or cut short anywhere, if and only if the call did not meet a lone empty segment with a line it cannot take, or was cut short before its second write |
| StuckRuns.RunOpensIff | src/event_log.rs:168-219 | A log opens after a run of calls and crashes if and only if that holds of every call of the run |
| StuckRuns.LoadsIffNotStuck | src/event_log.rs:512-541 | For a finished call: the log opens if and only if the call did not meet the stuck state |
| StuckRuns.BrokenForever | src/event_log.rs:761-781 | A log broken that way stays broken under every later call, and at every point where that call may be cut short |
| StuckRuns.BrokenRun | src/event_log.rs:761-781 | It stays broken under every run of calls and crashes |
| StuckRuns.CrashLeavesGenesis | src/event_log.rs:381-390 | A crash after the second write of the first append leaves a log that opens, holds nothing, and is stuck for the next event exactly when that event's line is over the byte limit or the event limit is 0 |
| StuckRuns.GenesisCrashBreaksIff | src/event_log.rs:381-390 | From an empty log: after that crash the log opens, and after the next append it fails to open exactly under that condition on the event's line |
| Refinement.RunRefinesMemory | src/backend.rs:100-119 | For any sequence of finished calls, rejected batches included and any segment limits, the file log holds what the in-memory backend holds and expects the same next sequence number |
| Refinement.CallRefines | src/backend.rs:105-107 | One call to the file backend takes the same events and reports the same error as the in-memory backend |
| Refinement.CallStaysFresh | src/event_log.rs:524-555 | A call that is not cut short leaves no lone empty segment, so without crashes the stuck state never arises |
| Refinement.CallSucceedsIff | src/event_log.rs:317-458 | On a chained log that is not stuck a call succeeds if and only if the batch continues the chain and every event has a canonical line; the log then holds the old events and the batch |
| ShaLog.ShaRunSurvives | src/event_log.rs:168-194 | Crash safety over whole runs, for the program's own digests, lines and headers and any limits |
| ShaLog.ShaRunOpensIff | src/event_log.rs:168-219 | When the log opens after a run, for the program's own rules and any limits |
| ShaLog.ShaRunRefinesMemory | src/backend.rs:100-119 | From an empty log, without interruptions, the file log holds what the in-memory backend holds, for the program's own rules and any limits |
| ShaLog.ShaCallSucceedsIff | src/event_log.rs:317-458 | The same for the program's own rules and any limits |
| ShaLog.HeaderShows | src/event_log.rs:26-44 | The names and values of the members from which a header's digest is computed |
| ShaLog.LogStopsOpening | src/event_log.rs:512-541 | Under any limits: two concrete events, each acceptable on an empty log; a crash in the append of the first leaves a log that opens, the append of the second one that does not |
| ShaLog.DefaultLogStopsOpening | src/event_log.rs:22-23 | The same two calls as a run, under the default limits |
| ShaLog.RunReplays | src/event_log.rs:168-219 | From an empty log, through appends and crashes that do not meet the stuck state and under any limits, the log opens to a list built by appending, in whose chain replay finds nothing wrong |
| ShaLog.BoundedRunReplays | src/event_log.rs:168-219 | The same for every run, under limits with room for every line |
| ShaLog.AppendedReplays | src/backend.rs:146-199 | Whatever append accepts, replay's integrity guards accept, and no warning is given |
| ShaLog.ShaSettingIsGenuine | src/event_log.rs:38-44 | Every segment header has a digest, so the log theorems hold of the program's own rules |
| EventLog.AppendOnlyEventLog.AppendBatch | src/event_log.rs:173-190 | The whole call in place: final disk, order of all writes and error are those of the specification function |
| EventLog.AppendOnlyEventLog.AppendSegmentedUnderLock | src/event_log.rs:317-458 | The append loop with its catalog, writer and dirty flag does what the specification says, write by write |
| EventLog.AppendOnlyEventLog.AppendEvent | src/event_log.rs:334-447 | One turn of that loop: which error each failing field gives, first to last, that nothing changes on an error, and that the catalog speaks of the event once it is accepted |
| EventLog.AppendOnlyEventLog.RollSegmentIfNeeded | src/event_log.rs:506-556 | Rolls exactly when the active segment is missing, full or too small for the line; the new segment is empty, open, active and starts with the event, and the others stay as they were but for the seal |
| EventLog.AppendOnlyEventLog.WriteLine | src/event_log.rs:392-440 | Opens the segment, buffers the line and updates the active entry and the catalog |
| EventLog.AppendOnlyEventLog.MigrateLegacyLogUnderLock | src/event_log.rs:612-669 | The migration loop and its renames, step by step |
| EventLog.AppendOnlyEventLog.ReadCatalogReconciled | src/event_log.rs:787-819 | The tail scan and the field updates of recovery |
| EventLog.AppendOnlyEventLog.Load | src/event_log.rs:208-219 | Load with its loops over segments and lines |
| EventLog.AppendOnlyEventLog.TailMetadata | src/event_log.rs:248-270 | Tail metadata from the reconciled catalog or the last line of the old file |
| EventLog.ScanSegmentTail | src/event_log.rs:895-919 | The scan finds the last event, the number of events and their bytes |
| EventLog.OrderedSegments | src/event_log.rs:761-781 | The segments in ascending order, none lost or added, if no two neighbours overlap; else an error |
| LogInvariant.SortIsStable | src/event_log.rs:763-766 | The sort by start is a stable sort: ascending, a permutation, equal starts in their old order |
| Backend.InMemoryBackend.Append | src/backend.rs:146-199 | An event joins the list exactly when it has the next sequence number, points back to the last digest, validates, and has the namespace of the last event; else the error names the first of these that fails |
| Backend.AppendedIffChained | src/backend.rs:146-199 | The lists that appending can build are exactly the chained ones: sequence numbers 0, 1, 2 and so on, valid digests, each event pointing back to the one before, one namespace |
| Backend.InMemoryBackend.AppendBatch | src/backend.rs:201-256 | Events before the first rejection stay; the error is the first rejection |
| Backend.TakenIsFirstRejection | src/backend.rs:201-256 | The events taken are those before the first one that is rejected after its predecessors, and that rejection is the error |
| Backend.InMemoryBackend.NextSequence | src/backend.rs:270-280 | The only sequence number the next append can succeed with, whatever the digest check; on a list built by appending, the number of events |
| Backend.BatchKeeps | src/backend.rs:201-256 | A batch, rejected midway or not, leaves a list every event of which was accepted after the ones before it |
| Backend.AppendedIsSequenced | src/backend.rs:155-195 | In such a list event i has sequence number i, a valid digest, the digest of its predecessor and the namespace of the first |
| Checkpoints.CheckpointIffFull | src/replay.rs:470-561 | With one seal for the root and no digest collisions, full verification succeeds if and only if checkpointed verification does and the first nonzero tick after the seal is not below the largest before it; then both end in one state |
| Checkpoints.CheckpointAgreesAtLargestTick | src/replay.rs:470-561 | When the seal's tick is the largest of its prefix, both verifications accept the same logs |
| SealedRoots.UnsealedRootIsMissing | src/replay.rs:486-491 | Verification with a root that no TICK_SEAL carries reports a missing seal |
| SealedRoots.RootSealedTwiceFails | src/replay.rs:493-503 | Verification with a root that two seals carry fails as ambiguous |
| SealedRoots.VerifiedRootIsSealedOnce | src/replay.rs:470-536 | When verification with a root succeeds exactly one seal carries it, the total is the length of the log and the verified events are those after the seal |
| SealedRoots.VerifiesFromSeal | src/replay.rs:505-561 | With one seal and no cached snapshot the outcome is that of replaying the prefix and then the rest from the seal, its tick, its timestamp and the state reached |
| SealedRoots.VerifiesFromCache | src/replay.rs:509-580 | A cached snapshot that records the seal in every field, under a seal with a valid digest, decides the outcome with no look at earlier events; any other has no effect |
| SealedRoots.CheckpointExactly | src/replay.rs:470-561 | For any root: checkpointed verification succeeds only if exactly one seal carries the root, and then against full replay as in CheckpointIffFull |
| Checkpoints.ResumeRun | src/replay.rs:30-206 | A run resumed with less memory of ticks and digests goes on exactly as the full one but for the tick guard on the first nonzero tick |
| Checkpoints.CacheTransparent | src/replay.rs:505-526 | Once rebuilding succeeds with a state whose lengths fit the format, no snapshot the decoder accepted changes the outcome of verification, if its root digest does not collide with the rebuilt one; repeated events do not matter |
| Checkpoints.MatchingSnapshotIsRebuilt | src/replay.rs:563-578 | Under the same conditions a cached snapshot that matches the seal equals the rebuilt one field by field, its state included |
| TickZero.ShortcutMissesTickRegression | src/replay.rs:538-561 | A concrete log the shortcut accepts and full replay rejects |
| TamperEvidence.HeadDigestCommits | src/replay.rs:91-138 | Two logs that replay from genesis and end in one digest have one length, agree on every digested field of every event and reach one outcome |
| TamperEvidence.ChainBackwards | src/replay.rs:110-127 | Equal digests at one position mean equal digests at all earlier ones |
| TamperEvidence.LinkedLogReplays | src/replay.rs:73-158 | On a linked log no integrity guard fires, and without collisions the duplicate branch is dead and no warning is given |
| ReplayFacts.LinkedDistinct | src/replay.rs:140-158 | The digest covers the sequence number, so events of one log never share a digest |
| ReplayEngine.ReplayEvents | src/replay.rs:30-206 | The guarded loop over its running variables computes the specification fold |
| ReplayEngine.ApplyBatch | src/replay.rs:293-379 | A batch works on a staged copy; a failing batch leaves the live state as it was |
| ReplayEngine.ApplyEvent | src/replay.rs:208-460 | Applying an event in place gives the specified state, or leaves the state unchanged on failure |
| LastWrites.RunIsLastWriter | src/replay.rs:30-206 | Last writer wins over whole replays: under each key the state holds the value carried by the last write to it that no delete follows, read off the events; keys no operation names are as before |
| LastWrites.BatchIsLastWriter | src/replay.rs:293-379 | The same for the operations of one batch |
| LastWrites.PayloadIff | src/event.rs:498-532 | Which JSON value under which type tag stands for which value of the map |
| LastWrites.RepeatIff | src/replay.rs:140-158 | A linked event whose digest has been seen is skipped, with a warning, exactly if it is an idempotent write or delete; else it is a duplicate |
| LastWrites.RunWarns | src/replay.rs:140-158 | A replay warns of exactly the events that repeat a digest |
| ReplayExactly.ReplayIff | src/replay.rs:30-206 | A log of distinct events replays if and only if each event fits after the ones before it: position, chain, digest, namespace, seals in time order, ticks in order, operations that apply to what the earlier ones leave, recorded digests that are those of the state, no protocol error |
| ReplayExactly.ShaReplayIff | src/replay.rs:30-206 | The same for SHA-256 digests that do not collide, without assuming distinct events |
| ReplayExactly.ReplayBlames | src/replay.rs:73-206 | When a log of distinct events does not replay, the violation reported is the first thing wrong with the first event that does not fit |
| ReplayExactly.BatchSucceedsIff | src/replay.rs:293-379 | A batch succeeds if and only if every operation names a valid key, carries a value if it is a write, and suits the type or the presence the operations before it leave |
| ReplayExactly.AfterUnique | src/replay.rs:208-460 | The operations determine the state they leave |
| StateInvariant.RunKeepsGood | src/replay.rs:208-460 | At every step all keys are valid for the log's one namespace and all decimals are canonical |
| StateInvariant.BatchKeepsTypeIff | src/replay.rs:293-379 | A batch that succeeds keeps the type of a key if and only if its last operation on the key, where that is a write and the key was present, names the type the key had |
| StateInvariant.ApplyKeepsTypes | src/state_map.rs:270-284 | An event that succeeds keeps the type of a key if and only if it is no batch or meets that condition |
| StateInvariant.ApplyKeepsKeyIff | src/replay.rs:208-460 | A present key is still there with its type after an event if and only if the event does not delete it and, if a batch, ends by writing that type or leaves it alone |
| StateInvariant.RunKeepsTypeIff | src/replay.rs:30-206 | A key is there with one type at every step of a replay if and only if that holds of every event that is not skipped as a duplicate |
| StateInvariant.BatchCanChangeType | src/replay.rs:293-379 | A delete followed by a null write fails that condition, succeeds, and changes the type |
| StateInvariant.GoodStateEncodes | src/state_map.rs:154-170 | A replayed state always has an encoding |
| StateInvariant.NamespacesShareNoKey | src/key.rs:57-81 | States of different valid namespaces share no key |
| SnapshotStore.PersistenceWorks | src/event_log.rs:460-504 | When the prefix through the first seal of a root replays to a state whose lengths fit the format, its snapshot is written, decodes to itself and matches the seal, whatever the hash function |
| SnapshotStore.PersistedIsStable | src/event_log.rs:467-474 | Later appends write identical bytes to the snapshot file of a root |
| Snapshots.SnapshotRoundTrip | src/state_map.rs:295-352 | An encoded snapshot decodes to itself |
| Snapshots.SnapshotBytesCanonical | src/state_map.rs:320-352 | Accepted snapshot bytes are the encoding of what they decode to |
| Snapshots.DecodedSnapshot | src/state_map.rs:332-350 | Decoding guarantees an encodable state of the namespace with the recorded root digest |
| Codec.DecodeEncoded | src/state_map.rs:154-204 | Decoding an encoded map gives the map |
| Codec.EncodeDecoded | src/state_map.rs:172-204 | Re-encoding any accepted byte string gives back those bytes, and what is accepted fits the format |
| Codec.RoundTripIffEncodable | src/state_map.rs:154-170 | A map that encodes comes back if and only if no length is cut by its field |
| Codec.EncodeInjective | src/state_map.rs:206-208 | One byte string encodes one state |
| Codec.FlagVector | src/state_map.rs:720-738 | The frozen bytes of a map with one flag |
| Codec.CounterVector | src/state_map.rs:746-764 | The frozen bytes of a map with one counter |
| StateStore.BinaryStateMap.SetValidated | src/state_map.rs:136-138 | Succeeds exactly when the value is valid and a present key keeps its type; the key then holds the value and every other key what it held |
| StateStore.BinaryStateMap.Set | src/state_map.rs:125-134 | As above, for keys valid in the namespace |
| StateStore.BinaryStateMap.Delete | src/state_map.rs:140-144 | Removes a valid key and nothing else; an absent one is no error |
| StateStore.BinaryStateMap.ToBytes | src/state_map.rs:154-170 | The encoding loop computes the specified encoding |
| StateStore.FromBytes | src/state_map.rs:172-204 | The cursor loop decodes as specified; its second test for duplicate keys cannot fire |
| StateStore.TransactionalStateMap.ApplyBatch | src/state_map.rs:92-102 | Whatever the caller's closure does to the staged copy is kept if it succeeds; if it fails, the live map is as it was, even if the copy was altered |
| Diff.ComputeDiff | src/state_map.rs:236-268 | The two loops and the sort list the differences |
| Diff.DiffIsExact | src/state_map.rs:236-268 | Applying the difference of a and b to a gives b |
| Diff.DiffKeys | src/state_map.rs:236-268 | One entry for each differing key, strictly increasing |
| Diff.DiffEmptyIffEqual | src/state_map.rs:236-268 | The list is empty if and only if the maps are equal |
| Diff.DiffMirrors | src/state_map.rs:236-268 | The difference the other way is its mirror image |
| EventDigests.DigestCommits | src/event.rs:363-408 | Two events valid under one digest agree on every digested field unless the hash collides on them |
| EventDigests.ValidDigestDecodes | src/event.rs:387-397 | A valid digest is the lowercase hex of 32 bytes |
| EventDigests.ValueRoundTrip | src/event.rs:484-496 | A state value fits an event exactly when it is valid, and writes back unchanged |
| EventDigests.EventValueRoundTrip | src/event.rs:498-532 | An accepted payload is valid and comes back as it was, but for the case of hex digits |
| Digests.ZeroDigest | src/event.rs:10-11 | The digest before the first event is the text of 32 zero bytes |
| EventRules.PayloadRulesIff | src/event.rs:434-482 | The payload rules accept exactly the events in a valid namespace that carry what their type needs |
| EventRules.ValidDigestIff | src/event.rs:363-397 | A digest is valid if and only if the payload is, the event prints, and the digest is the lowercase hex of the hash of the printed bytes |
| EventRules.PreimageReads | src/event.rs:363-380 | What is hashed is UTF-8 JSON text that reads, by RFC 8259, as the event with its digest zeroed and its metadata left out |
| EventRules.EventShowsType | src/event.rs:13-27 | The six event types under their protocol words |
| EventRules.EventShowsPlace | src/event.rs:54-56 | Members seq and tick |
| EventRules.EventShowsKey | src/event.rs:57-60 | Members namespace and key, the latter left out when absent |
| EventRules.EventShowsValue | src/event.rs:61-66 | Members value_type, value and prev_value_digest |
| EventRules.EventShowsBatch | src/event.rs:67-71 | Members idempotent and ops |
| EventRules.EventShowsSeal | src/event.rs:73-81 | Members event_count, root_digest, timestamp_ms and snapshot_digest |
| EventRules.EventShowsArchive | src/event.rs:82-87 | Members archived_seq_start, archived_seq_end and archive_uri |
| EventRules.EventShowsError | src/event.rs:89-94 | Members error_code, offending_seq and detail |
| EventRules.EventShowsChain | src/event.rs:96-100 | Members prev_digest, digest and metadata |
| EventRules.OpShows | src/event.rs:37-49 | Members of an operation of a batch |
| JsonReader.ReadPrint | src/canonical_json.rs:5-53 | A reader of RFC 8259, given a printed value and a delimiter, stops at the delimiter and returns the value: objects as maps with keys in ascending byte order, numbers as canonical decimals of the same number |
| JsonReader.ReadQuoted | src/canonical_json.rs:64-86 | The reader, with its own table of escapes, gets every string back from its quoted form |
| JsonReader.EscapeIsShortest | src/canonical_json.rs:66-83 | Characters are escaped only where they must be, with the short escape where there is one, else with lower case hexadecimal |
| JsonReader.PrintIffEquivalent | src/canonical_json.rs:5-62 | Two printable values print alike if and only if they are the same value: objects as maps, numbers up to the rational they denote |
| CanonicalJson.InsertionOrderIrrelevant | src/canonical_json.rs:5-49 | Values that differ only in the order of object members, at any depth, print the same, or fail with the same error |
| CanonicalJson.MembersInAnyOrder | src/canonical_json.rs:32-49 | In particular, objects with the same members under distinct keys do, in whatever order the members were inserted |
| JsonReader.PrintUnique | src/canonical_json.rs:11-49 | A printed value followed by a delimiter determines the value and where it ends |
| JsonReader.QuoteUnique | src/canonical_json.rs:64-94 | A quoted string determines the string and ends at its own closing quote |
| CanonicalJson.ToCanonicalString | src/canonical_json.rs:5-9 | Writing into the shared buffer produces the specified text |
| CanonicalJson.WriteMembers | src/canonical_json.rs:32-49 | The member loop appends the specified text to what the buffer held |
| CanonicalJson.WriteJsonString | src/canonical_json.rs:64-86 | The character loop appends the quoted string |
| Decimal.CanonicalizeKeepsValue | src/decimal.rs:22-138 | Canonicalisation preserves the exact rational number that the characters of the text spell: sign, digits around the point, signed exponent |
| Decimal.AcceptedLanguage | src/decimal.rs:22-192 | The texts accepted are exactly those that spell a number whose significant digits and their distance from the point stay within 256, zero without a sign, exponent within 64 bits |
| Decimal.DenotesWritten | src/decimal.rs:140-192 | A text spells one number, however it is taken apart |
| Decimal.SameTextIffSameNumber | src/decimal.rs:22-138 | Accepted inputs have one canonical text if and only if they spell one number |
| Decimal.CanonicalizeIdempotent | src/decimal.rs:7-16 | Canonical output canonicalises to itself and validates |
| Decimal.ValidateLanguage | src/decimal.rs:7-16 | The exact accepted language of validation |
| Decimal.CanonicalLength | src/decimal.rs:66-138 | Canonical text has at most 259 characters |
| Decimal.ExpandedParts | src/decimal.rs:97-138 | The rejections after trimming are unreachable: the parts are canonical |
| Decimal.IntCanonical | src/canonical_json.rs:51-62 | Machine integers print in canonical form |
| Decimal.IntDenotes | src/canonical_json.rs:51-53 | The text of an integer spells that integer |
| Hex.DecodeHex | src/hex.rs:10-23 | The loop decodes as specified and never reads past its characters |
| Hex.EncodeHex | src/hex.rs:1-8 | The loop encodes as specified |
| Hex.DigitIff | src/hex.rs:25-38 | Which characters are which hexadecimal digit, in either case |
| Hex.DecodeEncode | src/hex.rs:1-23 | Decoding inverts encoding |
| Hex.NormalizeIsDecodeEncode | src/hex.rs:44-52 | Decoding and normalising accept the same texts, and re-encoding what was decoded is normalisation |
| Hex.PairInRange | src/hex.rs:11-19 | A leading hex digit in a text of even byte length always has a character after it |
| Key.ValidKeyIff | src/key.rs:57-81 | A key is valid exactly when it is the namespace, a colon and a suffix not empty and not starting with a colon, at most 512 bytes long and without a null character |
| Key.ValidNamespaceIff | src/key.rs:19-55 | The exact language of namespaces |
| Key.NamespacesAreDisjoint | src/key.rs:57-81 | No key is valid for two valid namespaces |
| Prelude.LessIff | src/canonical_json.rs:33-36 | What the byte order of keys is: the first difference decides, and a proper prefix comes first |

## Left out

- The bytes of a line and its parsing: a line is an event with a length, and a crash stops between lines, never inside one. Every result about what a log opens to assumes that a line reads back as the event that was written; serde is not part of this model.
- ShaLog.RunReplays: the assumption that a line reads back as written may fail for one kind of event. `value` is an `Option` without a deserialiser of its own (src/event.rs:63-64, and src/event.rs:44-45 for operations of a batch), so a write of null, whose line has `"value":null`, probably reads back without a value and then no longer matches its digest; the theorem speaks of the events as written.
- Input and output errors, file locks, fsync, path names and the removal of a directory file by file; appends are one at a time.
- The post-append loop over sealed roots in `append_batch`: snapshot files do not touch the log, and what is written to them is `SnapshotStore`.
- `load_header` and the reading of header lines; the header a segment file starts with is modelled as written.
- Legacy logs whose sequence numbers are not 0, 1, 2 and so on: migration does not check them, and the theorems about migration and the append that follows assume them.
- The `first_digest` and `namespace` recorded for a segment: after a crash an empty segment may name an event that was lost, so nothing is claimed of them.
- Wrap-around of a sequence number at 2^64.
- Texts of error messages; errors are enumerations that tell the guards apart.
- Floats other than by the text they print to, and duplicate keys in JSON text, which serde resolves before this code.
- `Event` is a value and `refresh_digest` a function to a new value; the constructors of events are not modelled.
- `to_canonical_json` and `value_digest_hex` of the state map, which add only easy members.
- SHA-256 itself, Ed25519 and licences, the command line, WebAssembly, the TypeScript client and benchmarks.
- Refinement.RunRefinesMemory: assumes that every event of the batches has a canonical line, since only the file log serialises metadata.
