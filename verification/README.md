# Blossom: verified storage, lifecycle and topology

Blossom is a consensus library. This project models the parts of it whose
correctness rests on long chains of cases, and proves what they promise for
every input, every run and every crash:

- **Embedded log** (`Log*.dfy`): a write-ahead log of hash-committed chunk
  groups with commit and abort records, full-state checkpoints, compaction and a
  recovery interpreter. An append may stop after any number of records, a
  checkpoint at any of its stages, and a reopen at any of its own.
- **Accepted-write lifecycle** (`Ha*.dfy`, `LifecycleLaws.dfy`, `LoadLaws.dfy`):
  accept, complete, begin a cutover, recertify, abort, cancel, activate and
  install, with a running count, byte total and XOR commitment, and a
  journal-plus-checkpoint layout in the tables of the log.
- **Two-store coordinator** (`Coordinator*.dfy`, `OrderedModel.dfy`,
  `GlobalCompletion.dfy`, `CompletionRetries.dfy`): the ordered store commits
  first, the lifecycle second; building the coordinator repairs what a crash left
  in between, and accepted writes are released once their batch is applied.
- **Quorum topology** (`Topology.dfy`, `Dissemination.dfy`,
  `QuorumSelection.dfy`, `Participation.dfy`, `KeyDissemination.dfy`): mixed-radix
  lines with a partial top dimension and a tail, the seeded shuffle, and
  all-to-all dissemination.
- **Reducers and codecs**: the message matrix (`MessageMatrix.dfy`,
  `MatrixLaws.dfy`, `QuorumRegister.dfy`), round-skip evidence (`RoundSkip.dfy`),
  verifier removal and admission (`NodeRemoval.dfy`, `NodeAdmission.dfy`,
  `MembershipLaws.dfy`), parallel networks (`ParallelNetworks.dfy`,
  `NetworkLaws.dfy`, `ParallelReducer.dfy`) and the canonical block body
  (`BlockBytes.dfy`, `BlockLayout.dfy`, `BlockHashing.dfy`).

Each operation is specified by a function that the methods are proved against,
and each specification is pinned down in turn by laws that do not mention it: when
it succeeds, field by field, and what the state is afterwards, or what that means
for whole runs.

Hashes, signatures and the Borsh codecs of whole values are parameters; codecs
are assumed to round trip, hashes are assumed to be nothing but functions. What
the outside world decides is a parameter as well: how far an append, a sync, a
compaction or a durable write got (`AppendFate`, `CheckpointFate`,
`PersistFate`, `Progress`, `Attempt`), and the runtime's current membership. The
lifecycle engine writes tables; `HaOverLog.dfy` proves that each such write, made
as one transaction of the log, has exactly the modelled fates and is atomic under
recovery. A failed durable write ends an engine, as a poisoned log refuses every
later one. Maps are walked in key order where the source walks a `BTreeMap`.
Automatic induction is off: every lemma carries `{:induction false}`, so each
proof is the one written down.

Five promises turn out to hold only under a condition, and each has a lemma for
both sides:

- A stored lifecycle reloads exactly when its encoded bytes are within the load
  bound (`HaReload.LoadsWhatWasStored`); the bounds checked while writing do not
  imply it (`HaLoadBound.CheckpointCanExceedLoadBound`).
- A coordinated activation whose guards pass at quiescence, run to its end, leaves
  the two stores together exactly when the manifest is the engine's own, every
  write is resolved and membership is unchanged
  (`CoordinatorModel.StoresPartExactlyWhen`); one refused by its guards leaves
  them as they were. The comment on `activate_application_cutover` promises repair
  at recovery without these conditions; a manifest kept across a cancellation is a
  counterexample (`CoordinatorModel.StaleManifestPartsStores`). Parted stores are
  joined exactly by a rebuild that finds every write resolved and membership as
  recorded (`CoordinatorRuns.ApartUntilRepaired`).
- A batch that reaches the applied milestone is released exactly when all its
  writes are still pending (`CompletionRetries.ReleasedExactlyWhenPending`). The
  comment on `complete_globally_applied` describes the release without it; a write
  recertified meanwhile is applied and kept (`CompletionRetries.AppliedButKept`).
  With the writes pending, retrying over any crashes is idempotent as promised
  (`CompletionRetries.RetryCompletes`).
- The canonical bytes determine a body exactly as long as no text reaches 2^32
  bytes (`BlockBytes.InjectiveExactlyBelowLimit`, with the colliding pair in
  `BlockBytes.BodiesCollide`).
- The cached matrix verdict is the full one except for a quorum of a single key
  before its first update (`MessageMatrix.VerdictIsFullVerdict`).

## Model

| member | source | states |
|---|---|---|
| `LogTables.Decides` | src/log_store.rs:302-339 | which operation of a staged list decides a key, and that the committed effect of that operation on the key is what the backward read returns |
| `LogTables.RemoveKeysInRange` | src/log_store.rs:1332-1348 | removing the keys of a range one by one leaves exactly the entries outside it |
| `LogTables.ApplyOperations` | src/log_store.rs:1318-1354 | the in-place loop over a logged list has the effect of the operations in program order, on every table |
| `LogTables.ApplyToTableAgrees` | src/log_store.rs:1356-1394 | replaying an operation on one table alone gives that table of the full replay |
| `LogLaws.EffectAt` | src/log_store.rs:1318-1398 | under every key of every table an insert leaves its value, a removal, a range that covers the key or a clear nothing, and every other operation what was there |
| `LogLaws.LessByFirstDifference` | src/log_store.rs:1396-1398 | keys are ordered by their first differing byte, a prefix before its extensions |
| `LogTables.ScanTable` | src/log_store.rs:642-659 | a scan lists every entry once in strictly increasing key order |
| `LogTables.ScanUnique` | src/log_store.rs:642-659 | a table has only one such scan |
| `LogTransaction.Transaction.Get` | src/log_store.rs:302-339 | a staged read equals a lookup in what the transaction will commit, for every base and operation list; malformed names and keys are refused |
| `LogTransaction.Transaction.Scan` | src/log_store.rs:342-359 | a staged scan is the scan of the table the transaction will commit |
| `LogTransaction.Transaction.ScanRange` | src/log_store.rs:362-374 | the staged range scan is exactly the committed entries with keys in the range |
| `LogTransaction.Transaction.Stage` | src/log_store.rs:377-441 | staging appends one operation iff it passes the staging checks, and extends the view by its effect |
| `LogLaws.StagesExactly` | src/log_store.rs:377-441 | staging admits exactly the operations recovery accepts, names, keys and values within their limits, except for ranges that are empty |
| `LogLaws.NameExactly` | src/log_store.rs:1400-1412 | a table name is accepted iff it has one to 128 bytes, each a letter, a digit, an underscore, a hyphen or a dot |
| `LogRecovery.Recover` | src/log_store.rs:966-1213 | the recovery loop computes the fold of the record interpreter, rejection included; what that fold accepts is stated without it by `LogAuthenticity.CommitsExactly` and `LogAuthenticity.AbortsExactly` |
| `LogRecovery.Rejected` | src/log_store.rs:966-1213 | a record that cannot be interpreted rejects every log that continues past it |
| `LogRecovery.ReplaySplit` | src/log_store.rs:966-1213 | interpreting a log in two parts is interpreting it whole |
| `LogRecovery.JoinChunks` | src/log_store.rs:1097-1100 | joining collected chunks is their concatenation in index order |
| `LogRecovery.TakeCommit` | src/log_store.rs:1053-1176 | the checks of a commit record made in the order of the source have the outcome of the interpreter, which `LogAuthenticity.CommitsExactly` states without it |
| `LogRecovery.ChunksJoin` | src/log_store.rs:823-860 | cutting a body into chunks and joining them gives the body back |
| `LogAuthenticity.CommitsExactly` | src/log_store.rs:966-1213 | chunks followed by a commit replay iff the chunks belong to one group, fill every place once, are named by the commit, join to a body within its bound that hashes to the committed digest and decodes to operations that continue the current revision or to a checkpoint of this store; the result is then exactly that body applied |
| `LogAuthenticity.AbortsExactly` | src/log_store.rs:1177-1213 | chunks followed by an abort replay iff the abort names their group, and lead back to where they began |
| `LogAuthenticity.AlteredGroupRejected` | src/log_store.rs:1053-1120 | a written group whose chunk bytes are replaced so that the digest of the body changes is rejected |
| `LogGroups.BuildGroup` | src/log_store.rs:823-889 | the records appended for a body are its chunks in order, each carrying the group's hash, length and position, then one commit; bodies needing too many chunks are refused |
| `LogLaws.ChunkableExactly` | src/log_store.rs:823-860 | a body can be appended iff it is not empty and not longer than the greatest number of whole chunks |
| `LogGroups.PrefixLeavesPending` | src/log_store.rs:966-1213 | after any proper prefix of a group recovery is where it was before the group, with that group pending |
| `LogGroups.GroupCommits` | src/log_store.rs:966-1213 | interpreting a whole group with nothing pending commits exactly its body |
| `LogGroups.PendingBlocksGroup` | src/log_store.rs:1002-1052 | a group begun while a different group is pending, or over its own first chunk, is rejected |
| `LogGroups.AbortIsNeeded` | src/log_store.rs:1215-1230 | behind any part of a group every further group is rejected; behind that part and its abort record every further group replays as if the part had never been written |
| `LogStore.Store.PersistGroup` | src/log_store.rs:823-889 | the handle after an append of any fate: which records are durable, the next sequence number, the byte count, poisoning on failure |
| `LogStore.Store.WriteCheckpoint` | src/log_store.rs:907-963 | size checks first, then seal, append and compaction, with the handle after a stop at each stage |
| `LogStore.Store.MaybeCheckpoint` | src/log_store.rs:891-900 | an automatic checkpoint happens exactly when a threshold is reached, and its failure only poisons |
| `LogStore.Store.Commit` | src/log_store.rs:689-747 | the staged operations become visible exactly when their group is durable and acknowledged, at the next revision; what becomes visible is the view the transaction read from, and the handle stays in step with replay of the log |
| `LogStore.Store.Checkpoint` | src/log_store.rs:750-756 | an explicit checkpoint writes the current state, refused on a poisoned or closed handle |
| `LogStore.Store.ReplaceFromCheckpoint` | src/log_store.rs:758-783 | the state becomes a snapshot of the same identity exactly when its checkpoint was appended and compacted without failure; a failure once writing began keeps the old state in memory and poisons the handle, with either state durable |
| `LogStore.Store.Shutdown` | src/log_store.rs:798-808 | closing is idempotent and poisons on a failed sync |
| `LogStore.Open` | src/log_store.rs:554-605 | opening recovers, aborts an incomplete tail and writes the first checkpoint, with the directory contents after a failure at each step |
| `LogLaws.CommitsExactlyWhen` | src/log_store.rs:689-747 | a commit succeeds iff the handle is neither closed nor poisoned and nothing is staged or the operations fit and their append is acknowledged; it then advances the revision by one and applies them, and a failed append leaves the state and poisons |
| `LogLaws.NoEarlyCheckpoint` | src/log_store.rs:891-900 | below both thresholds a commit appends its group and counts it, and nothing else |
| `LogLaws.CheckpointFollows` | src/log_store.rs:891-963 | a commit that reaches the transaction threshold checkpoints: on success the counts restart, the log is the checkpoint and the handle stays usable, on failure it is poisoned, and the commit stands either way |
| `LogLaws.LogStaysShort` | src/log_store.rs:891-963 | in every reachable state a usable handle has fewer transactions and fewer bytes behind its last checkpoint than the thresholds |
| `LogLaws.ChecksPointExactly` | src/log_store.rs:907-963 | a checkpoint is written iff every name, key and value is within its limits, the encoding fits and can be cut, and sealing, appending and compacting succeed; the log is then that one group |
| `LogLaws.ReplacesExactly` | src/log_store.rs:758-783 | a snapshot replaces the state iff the handle is usable, the identity is the store's own and the checkpoint succeeds |
| `LogLaws.UnusableNeverWrites` | src/log_store.rs:810-821 | a poisoned or closed handle leaves records and state as they are on every run until the directory is opened anew |
| `LogLaws.ClosesOnce` | src/log_store.rs:798-808 | closing is final, succeeds when repeated, and otherwise reports whether the sync succeeded |
| `LogRuns.TransactStep` | src/log_store.rs:689-747 | a transaction of any fate keeps the handle in step with replay of the log, or poisons it with the old or the new state durable |
| `LogRuns.CheckpointStep` | src/log_store.rs:907-963 | so does a checkpoint, compaction included |
| `LogRuns.ReopenStep` | src/log_store.rs:554-605 | so does an open, whatever stopped before it |
| `LogRuns.RunKeepsInv` | src/log_store.rs:554-963 | in every reachable state a usable handle's log ends on a group boundary and its state is the replay of the log |
| `LogRuns.RecoveryIsExact` | src/log_store.rs:823-1213 | after every run and every crash, recovery accepts the log and returns exactly the state after the last complete group; with the incomplete tail aborted a second recovery returns the same with nothing pending; and a reopen succeeds iff there is a checkpoint or the first one can be written, in that state and on a group boundary |
| `LogRuns.AcknowledgedIsDurable` | src/log_store.rs:689-747 | right after an acknowledged transaction the durable state is the old one with its operations applied; a refused one that leaves the handle writable changed nothing |
| `LogRuns.AcknowledgedSurvives` | src/log_store.rs:689-963 | over every later run of transactions, checkpoints, crashes and reopens without a snapshot replacement, recovery returns the tables with the acknowledged operations and then those of later durable transactions applied |
| `HaTypes.SumCommandBytes` | src/active_active_ha.rs:1831-1845 | the byte fold gives the order-independent total over records and translations |
| `HaTypes.FoldCommitment` | src/active_active_ha.rs:1865-1884 | the XOR fold gives the order-independent commitment |
| `HaTypes.SummariesReplace` | src/active_active_ha.rs:1339-1360 | XORing out the old record and in the new one, and adjusting the byte total, gives the summaries of the changed map |
| `HaRuns.RunKeepsInv` | src/active_active_ha.rs:1102-1795 | in every reachable state count and bytes are within bounds and every record is valid under its own identity, the engine's contract and the active cutover |
| `HaRuns.ManifestCoversWrites` | src/active_active_ha.rs:1512-1553 | an accepted manifest names every write exactly once, by counting and strict order |
| `HaRuns.ActivationKeepsSurvivors` | src/active_active_ha.rs:1554-1593 | activation leaves exactly the recertified writes, each as the command and hash its resolution records, pending under the target contract; nothing was pending |
| `HaRuns.StepLosesNothing` | src/active_active_ha.rs:1102-1795 | in one action a write leaves iff it is completed by its current hash while pending or resolved as aborted by the activating manifest, and a write that stays keeps its command except for its own recorded translation |
| `HaRuns.NoSilentLoss` | src/active_active_ha.rs:1102-1795 | over every run a write is still there or left in one of those two ways |
| `HaRuns.FencedAccept` | src/active_active_ha.rs:1133-1155 | while a cutover is active an accepted admission changes nothing |
| `HaRuns.CancelRestores` | src/active_active_ha.rs:1236-1475 | begin, any preparation, cancel gives back every write not completed meanwhile as it was, and with no completion the whole state |
| `LifecycleLaws.HeldWritesMean` | src/active_active_ha.rs:1909-1964 | in every valid state a held write is filed under its own identity with its own hash, was accepted under the current contract, and is pending unless the active cutover resolved it; counts and bytes are within bounds |
| `LifecycleLaws.RecordValidExactly` | src/active_active_ha.rs:88-145 | a record is valid iff command, hash and contract fit and its resolution translates the same identity to a later contract or gives a bounded reason under its own |
| `LifecycleLaws.AdditionsMean` | src/active_active_ha.rs:1130-1173 | the admission fold accepts exactly the lists that contradict neither an accepted write nor themselves by hash, and adds exactly the new commands as pending writes of the engine's contract, with their count and bytes |
| `LifecycleLaws.AcceptsExactly` | src/active_active_ha.rs:1102-1201 | a batch is accepted iff it is small enough, every command is valid, none contradicts an accepted one or another of the batch, nothing is new while a cutover is active, and the count and bytes of what is new fit |
| `LifecycleLaws.AcceptedIsHeld` | src/active_active_ha.rs:1102-1212 | after an accepted batch every command of it is held by its hash, new ones pending under the current contract, beside every write that was there, and nothing else is |
| `LifecycleLaws.CompletesExactly` | src/active_active_ha.rs:1604-1679 | a completion is accepted iff every entry names a held pending write by its hash, and removes exactly the named writes |
| `LifecycleLaws.BeginsExactly` | src/active_active_ha.rs:1236-1269 | a cutover begins iff none is active and the target is valid with a later route generation and no earlier command spec |
| `LifecycleLaws.RecertifiesExactly` | src/active_active_ha.rs:1294-1378 | a write is recertified iff a cutover is active, the translation is valid and keeps the identity, and the write is so resolved already or pending with room for the translation; it then carries the translation and its hash |
| `LifecycleLaws.AbortsExactly` | src/active_active_ha.rs:1380-1445 | a write is aborted iff a cutover is active, the reason is bounded and not empty, and the write is so resolved already or pending |
| `LifecycleLaws.CancelsExactly` | src/active_active_ha.rs:1450-1475 | cancelling needs an active cutover and leaves every write pending with its original command |
| `LifecycleLaws.ActivationOutcome` | src/active_active_ha.rs:1554-1593 | after an activation the writes are exactly the recertified ones, each with the command and hash it was recertified to and pending under the target contract; every other write had been aborted and is gone |
| `LifecycleLaws.SameCommandSurvives` | src/active_active_ha.rs:1271-1292 | a write recertified as itself comes out of the cutover with its own command and hash |
| `HaManifest.CutoverManifest` | src/active_active_ha.rs:1477-1510 | a manifest is produced iff a cutover is active and no write is pending, and it is the valid manifest of the state |
| `HaManifest.OwnManifestExists` | src/active_active_ha.rs:1477-1510 | a state has a manifest to hand out iff a cutover is active and every write is resolved |
| `HaManifest.ValidateManifest` | src/active_active_ha.rs:797-856 | the single pass that remembers the previous identity decides validity, strict order throughout included |
| `HaManifest.OwnManifestActivates` | src/active_active_ha.rs:1512-1593 | the engine's own manifest activates iff membership is the recorded one, to an outcome that does not depend on the manifest |
| `HaManifest.ActivationAcceptsExactly` | src/active_active_ha.rs:1512-1553 | a manifest is accepted iff it is the state's own, every write is resolved and membership is unchanged |
| `HaManifest.ManifestUnique` | src/active_active_ha.rs:1477-1510 | a state has one manifest |
| `HaManifest.ManifestMeans` | src/active_active_ha.rs:1477-1510 | the manifest of a state carries its cutover and command spec, in strict order exactly one resolution per write with that write's hash and disposition, and the hash of its contents |
| `HaManifest.ValidManifestMeans` | src/active_active_ha.rs:797-856 | a manifest that validates is one of a cutover to a later contract, with strictly ordered resolutions that all belong to it, none pending, no translation beyond the byte bound, under the hash of its contents |
| `HaStore.IdentityInjective` | src/active_active_ha.rs:509-515 | different identities have different record keys |
| `BigEndian.KeepsOrder` | src/active_active_ha.rs:642-647 | fixed-width big-endian keys sort as their numbers |
| `BigEndian.RoundTrip` | src/active_active_ha.rs:727-734 | a journal key decodes to its sequence number |
| `HaReload.LoadRecords` | src/active_active_ha.rs:486-524 | the record loop with its running byte bound accepts iff every row decodes, validates and sits under its own key and the total is within bound |
| `HaReload.LoadJournal` | src/active_active_ha.rs:525-568 | the journal loop replays contiguous valid deltas in order, within the same bound |
| `HaReload.ValidateWrites` | src/active_active_ha.rs:1909-1964 | the accepted-write checks are exactly the engine invariant |
| `HaReload.Load` | src/active_active_ha.rs:464-602 | loading is the stated function of the metadata entry and of the only two scans the tables have, and whatever loads satisfies the engine invariant |
| `HaReload.ReadStoredRecords` | src/active_active_ha.rs:486-524 | the record table reads back as the writes it was built from |
| `HaReload.JournalScan` | src/active_active_ha.rs:525-568 | a key-ordered scan of the journal meets the deltas in the order they were written |
| `HaReload.LoadsWhatWasStored` | src/active_active_ha.rs:464-602 | stored tables load to exactly the stored contract, writes, cutover, summaries and counters iff the stored bytes are within the bound, and are refused otherwise |
| `LoadLaws.RecordsReadExactly` | src/active_active_ha.rs:486-524 | the record table reads iff every row holds a valid record under the key of its own identity and no two the same identity; it then holds exactly those records |
| `LoadLaws.JournalReadsExactly` | src/active_active_ha.rs:525-568 | the journal reads iff every row holds a valid delta under the next sequence number |
| `LoadLaws.DeltaValidExactly` | src/active_active_ha.rs:280-322 | a delta is valid iff it has the version, bounded and strictly ordered lists, valid records and the hash of its contents |
| `LoadLaws.DeltaEffect` | src/active_active_ha.rs:356-363 | a delta leaves under each identity the record it upserts, nothing where it only removes, and otherwise what was there |
| `LoadLaws.LoadsExactly` | src/active_active_ha.rs:464-602 | tables load to a state iff metadata and rows are within the load bound, every row is good, and the metadata describes the resulting writes, which satisfy the engine invariant; it is then that state |
| `HaLoadBound.CheckpointCanExceedLoadBound` | src/active_active_ha.rs:486-501 | a run of successful operations reaches a state whose checkpoint every load refuses |
| `HaPersist.Diff` | src/active_active_ha.rs:1036-1049 | the computed upserts and removals are the ordered difference of the two maps |
| `HaPersist.DiffApplies` | src/active_active_ha.rs:356-363 | applying the difference to the old map gives the new one |
| `HaPersist.DeltaStores` | src/active_active_ha.rs:604-658 | committing one journal row and the metadata stores the next state |
| `HaPersist.CheckpointStores` | src/active_active_ha.rs:670-724 | clearing, rewriting the record table and clearing the journal stores the state with no deltas |
| `HaPersist.WriteStores` | src/active_active_ha.rs:604-724 | either of the two write transactions, applied to tables that store the old state, stores the next one |
| `HaPersist.PersistNext` | src/active_active_ha.rs:996-1027 | the thresholds choose between a journal row and a checkpoint; an acknowledged write stores the next state whichever it was, a failed one the old or the next |
| `HaPlans.Prepare` | src/active_active_ha.rs:385-399 | a batch is prepared iff it is small enough and every command is valid |
| `HaPlans.FoldAdditions` | src/active_active_ha.rs:1130-1173 | the admission loop collects exactly the additions that `LifecycleLaws.AdditionsMean` characterises, while keeping byte total and commitment of the combined map |
| `HaPlans.PlanAccept` | src/active_active_ha.rs:1110-1201 | an admission is planned exactly in the cases of `LifecycleLaws.AcceptsExactly`, with summaries and delta of the next state |
| `HaPlans.PlanState` | src/active_active_ha.rs:1029-1060 | any next state is reached by a canonical delta with its exact summaries |
| `HaPlans.PlanResolution` | src/active_active_ha.rs:1331-1378 | a resolution is planned iff the write is pending and the translated bytes fit, replacing one record in the summaries |
| `HaCompletion.SortCompletions` | src/active_active_ha.rs:1616-1619 | sorting yields an ordered permutation |
| `HaCompletion.FoldRemovals` | src/active_active_ha.rs:1620-1658 | walking the ordered batch accepts iff every entry names a pending write by its current hash, drops repeats and keeps the summaries of what remains |
| `HaCompletion.PlanComplete` | src/active_active_ha.rs:1604-1679 | a completion batch is planned iff specified |
| `HaCutover.PlanCancel` | src/active_active_ha.rs:1450-1475 | cancelling returns every source-contract write to pending |
| `HaCutover.PlanActivation` | src/active_active_ha.rs:1512-1593 | the counting, confirming and carrying-out loops plan the activation whose acceptance is `HaManifest.ActivationAcceptsExactly` and whose outcome is `LifecycleLaws.ActivationOutcome` |
| `HaCutover.ValidateIncoming` | src/active_active_ha.rs:1909-1964 | the single pass over another replica's list decides its validity, order, records and byte bound included |
| `HaCutover.MergeIncoming` | src/active_active_ha.rs:1742-1756 | merging refuses iff some identity differs locally, and otherwise adds exactly the missing writes |
| `HaCutover.PlanInstall` | src/active_active_ha.rs:1727-1768 | a recovery list is installed iff specified, within count and byte bounds |
| `HaEngine.Engine.Commit` | src/active_active_ha.rs:996-1027 | memory follows the tables: an acknowledged commit moves both, a failed one leaves memory and ends the engine; the tables change by one of the two write transactions or not at all |
| `HaEngine.Engine.Accept` | src/active_active_ha.rs:1102-1212 | an accepted batch is held, every command of every lane by its hash, and the hashes are returned in input order; a refused one leaves memory unchanged |
| `HaEngine.Engine.Complete` | src/active_active_ha.rs:1604-1691 | completion performs the specified action or leaves memory unchanged |
| `HaEngine.Engine.Begin` | src/active_active_ha.rs:1236-1269 | beginning records the advancing contract and the membership |
| `HaEngine.Engine.ResolveAs` | src/active_active_ha.rs:1312-1378 | one resolution per write; the same one again succeeds without effect, another is refused |
| `HaEngine.Engine.RecertifyAcceptedAs` | src/active_active_ha.rs:1294-1378 | a translation must keep the identity and is recorded with its hash |
| `HaEngine.Engine.RecertifyAccepted` | src/active_active_ha.rs:1271-1292 | recertifying as is needs an unchanged command spec |
| `HaEngine.RecertifiesSameExactly` | src/active_active_ha.rs:1271-1292 | recertifying as is succeeds iff a cutover to the same command spec is active and the write is held and so resolved already or pending with room for its bytes, and records the command under its own hash |
| `HaEngine.Engine.AbortAccepted` | src/active_active_ha.rs:1380-1445 | aborting records a bounded non-empty reason |
| `HaEngine.Engine.Cancel` | src/active_active_ha.rs:1450-1475 | cancelling performs the specified action or leaves memory unchanged |
| `HaEngine.Engine.Activate` | src/active_active_ha.rs:1512-1593 | activation performs the action of `LifecycleLaws.ActivationOutcome` or leaves memory unchanged |
| `HaEngine.Engine.Install` | src/active_active_ha.rs:1727-1785 | installing a valid recovery manifest of the same contract performs the specified merge or leaves memory unchanged |
| `HaEngine.Engine.RecoveryManifest` | src/active_active_ha.rs:1712-1725 | the manifest handed out is the valid one of the current state |
| `HaCatchUp.ValidateRecovery` | src/active_active_ha.rs:751-776 | version, contract, writes and hash decide the validity of a recovery manifest |
| `HaCatchUp.ValidIffOfSomeState` | src/active_active_ha.rs:751-776 | a recovery manifest validates iff it is the manifest of some state that satisfies the engine invariant |
| `HaCatchUp.InstallsUnion` | src/active_active_ha.rs:1727-1768 | another replica's manifest is installed iff contracts agree, an active cutover is the other's too, no write differs and the union fits; the replica then has exactly the union |
| `HaCatchUp.CatchUpCopies` | src/active_active_ha.rs:1727-1768 | a replica that holds nothing the other lacks, a fresh one in particular, becomes an exact copy |
| `HaCatchUp.ExchangeConverges` | src/active_active_ha.rs:1712-1768 | two replicas that install each other's manifests end in the same state |
| `HaEngine.Create` | src/active_active_ha.rs:950-979 | a new engine stores the empty state before it is returned; a failed first write leaves no tables or the stored empty state |
| `HaEngine.Reopen` | src/active_active_ha.rs:911-948 | a reopened engine has exactly the stored state; it opens iff the stored bytes are within bound and the requested contract is the stored one or the cutover target |
| `HaOverLog.LogGivesFate` | src/active_active_ha.rs:604-724 | a durable write made as one log transaction has one of the three modelled fates: the recovered tables are unchanged or have the operations applied, and after an acknowledgement they have |
| `HaOverLog.RunKeepsStored` | src/active_active_ha.rs:996-1027 | over every run of commits, log checkpoints, shutdowns, crashes and restarts the log replays to tables that store a lifecycle state |
| `HaOverLog.CommitIsAtomic` | src/active_active_ha.rs:996-1027 | after every such run and one more commit that stops after any number of log records, recovering the log and loading the lifecycle gives the state before the commit or after it, and after it if it was acknowledged |
| `HaOverLog.FirstCommitIsAtomic` | src/active_active_ha.rs:950-979 | a first open stopped anywhere leaves a store that loads as empty or a valid one |
| `CoordinatorModel.CrashIsRepaired` | src/active_active_coordinator.rs:312-352 | wherever an activation of the engine's own manifest stops, rebuilding leaves both stores on the source with the cutover pending or both on the target with the writes of the uninterrupted run |
| `CoordinatorModel.RepairIffResolved` | src/active_active_coordinator.rs:332-352 | activating the lifecycle's own manifest repairs an interrupted cutover iff every write is resolved and membership is unchanged; repair gives the stores of the uninterrupted run and keeps the lifecycle invariant |
| `CoordinatorModel.StoresPartExactlyWhen` | src/active_active_coordinator.rs:312-330 | an activation that ran to its end leaves the stores apart iff its guards passed at quiescence and the manifest was not the engine's own, a write was pending, or membership had moved |
| `CoordinatorRuns.JoinedExactlyByRepair` | src/active_active_coordinator.rs:290-352 | one event joins parted stores iff it is a rebuild that finds every write resolved and membership as recorded; every other event leaves them apart over the same cutover |
| `CoordinatorRuns.ApartUntilRepaired` | src/active_active_coordinator.rs:53-352 | parted stores agree at some point of a run iff some rebuild of the run finds that |
| `CoordinatorRuns.ApartWhileMembershipMoved` | src/active_active_coordinator.rs:53-352 | on every run whose rebuilds all see another membership than the recorded one the stores stay apart over the same cutover |
| `CoordinatorModel.StaleManifestPartsStores` | src/active_active_coordinator.rs:312-330 | for every state with a write, a manifest kept across cancel and an equal begin passes the guards and parts the stores; an immediate rebuild and a cancellation are refused |
| `CoordinatorRuns.StoresNeverDiverge` | src/active_active_coordinator.rs:53-352 | on every run of actions, completions and activations stopped anywhere and rebuilds the stores agree or the ordered one is on the recorded target |
| `CoordinatorRuns.AppliedForever` | src/active_active/engine.rs:1040-1042 | a reference that is durably applied at some point of a run is applied at its end |
| `CoordinatorRuns.ReleasedOnlyWhenApplied` | src/active_active_coordinator.rs:171-252 | on every run an accepted write is still there, was aborted by a finished cutover, or was released pending and by its current hash with a batch whose reference is durably applied, then and ever after |
| `CoordinatorProgress.BatchCanFinish` | src/active_active_coordinator.rs:171-252 | from every reachable state without a cutover a batch the lifecycle accepts can be accepted, ordered, applied and released, leaving every other write as it was |
| `CoordinatorProgress.CutoverCanFinish` | src/active_active_coordinator.rs:254-330 | with nothing left to apply and room for the translations a cutover to any later contract can be carried through with any choice of writes to keep; both stores end on the target with exactly those writes pending |
| `OrderedModel.RankNeverFalls` | src/active_active/engine.rs:426-955 | over every run of the ordered engine a reference has one position, is available until it is applied, and never falls back on its way from unknown over available and finalized to applied |
| `OrderedModel.StepsMean` | src/active_active/engine.rs:150-955 | what marking, finalizing, applying and moving each change, field by field, and when they change nothing |
| `OrderedModel.DriveOutcome` | src/active_active/engine.rs:1063-1110 | waiting for a reference only applies more references, in memory and in the store, and succeeds iff the reference is then applied |
| `OrderedModel.DriveReaches` | src/active_active/engine.rs:957-983 | as many undisturbed attempts as there are unapplied references up to it reach a finalized reference |
| `OrderedModel.MovesExactly` | src/active_active/engine.rs:150-190 | the ordered contract moves iff nothing is available or finalized and unapplied, and the new one is valid, falls back in neither route generation nor command spec and advances one of them |
| `OrderedModel.AvailableUnderContract` | src/active_active/engine.rs:150-520 | over every run from an engine with nothing available, whatever is available was marked after the last contract change |
| `OrderedModel.DriveFailsOnlyBy` | src/active_active/engine.rs:1063-1110 | waiting reports a failed write only for a finalized reference and an attempt whose durable write failed |
| `Coordinator.OrderedEngine.ActivateContract` | src/active_active/engine.rs:150-190 | the ordered contract moves iff valid, advancing and with no available or unapplied reference, memory only after an acknowledged write |
| `Coordinator.OrderedEngine.ApplyContiguous` | src/active_active/engine.rs:885-955 | applying the next finalized reference moves the store and then memory, with every durable outcome |
| `Coordinator.OrderedEngine.CompleteWrite` | src/active_active/engine.rs:1063-1110 | the polling loop is the stated driving of the reference |
| `Coordinator.Coordinator.ActivateApplicationCutover` | src/active_active_coordinator.rs:312-330 | it succeeds iff the guards pass, the lifecycle accepts and both writes are acknowledged, and whatever fails the durable stores are those of an activation that got just that far |
| `Coordinator.Coordinator.Reconcile` | src/active_active_coordinator.rs:332-352 | repair through the engine's own manifest performs the specified reconciliation |
| `Coordinator.Coordinator.CancelApplicationCutover` | src/active_active_coordinator.rs:290-300 | cancelling is refused once the ordered engine has moved |
| `Coordinator.Coordinator.CompleteGloballyApplied` | src/active_active_coordinator.rs:176-252 | the exact condition of success for released and for retained batches; the writes of the batch leave memory iff it returns that the batch is applied, and the durable stores are as specified at every stop |
| `Coordinator.Rebuild` | src/active_active_coordinator.rs:53-62 | a coordinator exists only over stores that agree |
| `GlobalCompletion.Inspect` | src/active_active_coordinator.rs:194-231 | the counting loop decides whether a batch is wholly retained, wholly released or refused, and collects its completions |
| `GlobalCompletion.PresenceMeans` | src/active_active_coordinator.rs:194-231 | a batch of valid commands that agree on repeated identities is found retained iff every command is held by its hash and released iff none of its identities is held; every other batch is refused |
| `GlobalCompletion.BatchCompletes` | src/active_active_coordinator.rs:241-250 | the completions of a retained batch are accepted iff every write of it is pending, and then release exactly the batch |
| `GlobalCompletion.ReleaseIsIdempotent` | src/active_active_coordinator.rs:226-234 | a retained batch once released is found released |
| `CompletionRetries.RetryCompletes` | src/active_active_coordinator.rs:171-175 | after any number of requests cut short anywhere, one that reaches the applied milestone and stores the release succeeds with exactly the writes of one undisturbed request, and every request after it succeeds and changes nothing |
| `CompletionRetries.ReleasedExactlyWhenPending` | src/active_active_coordinator.rs:235-252 | a request that reaches the applied milestone releases its batch and succeeds iff every write of it is still pending; otherwise the batch is applied and the lifecycle kept |
| `CompletionRetries.AppliedButKept` | src/active_active_coordinator.rs:241-250 | a recertified write whose batch is applied before the cutover is activated is not released and survives as its translation, pending under the target, with the reference applied |
| `CompletionRetries.RefusedRequests` | src/active_active_coordinator.rs:176-193 | a request that does not match its reference, is empty, was made under another contract or asks to wait too long changes nothing |
| `Topology.CheckedPow` | src/algorithm.rs:454-460 | the power, or overflow exactly when it does not fit |
| `Topology.FindRoundNumber` | src/algorithm.rs:427-452 | the largest covered network size that is a multiple of the largest fitting power, and the number of rounds |
| `Topology.ExponentUnique` | src/algorithm.rs:427-452 | the exponent is the only one whose power brackets the size |
| `Topology.QuorumsPartition` | src/algorithm.rs:293-394 | in every round a quorum contains its owner and all its members have that same quorum, so each round partitions the nodes |
| `Dissemination.HeldAfterCompleteRounds` | src/algorithm.rs:293-394 | after r complete rounds a node holds exactly the blocks of its group of q^r positions and of the tail nodes shadowing it |
| `Dissemination.AllToAll` | src/algorithm.rs:293-394 | after the last round every node holds every block iff the network has at least q nodes or only one |
| `KeyDissemination.HeldIffHolds` | src/algorithm.rs:228-271 | unioning over the computed key lists moves blocks exactly as the positions do |
| `KeyDissemination.EveryKeyReachesEveryNode` | src/algorithm.rs:228-394 | for every size of at least q and every ordering, every node ends up with the block of every key |
| `QuorumSelection.PushQuorumMembers` | src/algorithm.rs:370-394 | one strided walk collects exactly the keys of its in-range points |
| `QuorumSelection.SegmentsAreQuorum` | src/algorithm.rs:322-366 | the line and its tail segment are exactly the quorum |
| `QuorumSelection.DeterministicShuffle` | src/algorithm.rs:408-421 | the in-place shuffle is the specified function of the seed, characterised by `QuorumSelection.ShufflePicks` and `QuorumSelection.ShufflePermutes` |
| `QuorumSelection.ShufflePermutes` | src/algorithm.rs:408-421 | the shuffle is a permutation |
| `QuorumSelection.ShufflePicks` | src/algorithm.rs:414-420 | the last open place gets the entry that the generator's next word selects by its remainder, and places already filled stay |
| `QuorumSelection.GeneratorNeverSticks` | src/algorithm.rs:409-417 | from every seed, zero included, the generator never reaches the zero state in which it would stay |
| `QuorumSelection.OrderingExactly` | src/algorithm.rs:228-271 | without shuffling the nodes keep their order; with it the last place goes to the node the first word after the seed picks, a zero seed replaced |
| `QuorumSelection.Algorithm` | src/algorithm.rs:293-368 | one sorted duplicate-free list per round with at most 2q keys, exactly the quorum of the node |
| `Participation.SelectQuorums` | src/algorithm.rs:228-271 | a member gets the quorum lists of its position under the epoch's ordering, a non-member none |
| `Participation.QuorumsAgree` | src/algorithm.rs:228-271 | members of one list compute the identical list; others compute disjoint ones |
| `Participation.SelectPrefillRecipients` | src/algorithm.rs:200-214 | the recipients are the other keys of all the node's quorums, sorted and without repeats, and exactly e(q-1) of them when there are q^e keys |
| `Participation.RecipientListsMutual` | src/algorithm.rs:185-214 | one member is on another's recipient list iff the other is on its own |
| `Participation.IdealRoundsMeetOnce` | src/algorithm.rs:293-368 | in a network of q^e nodes two quorums of one node from different rounds meet only in the node |
| `Participation.IdealRecipientList` | src/algorithm.rs:185-214 | in a network of q^e keys every member's recipient list has exactly e(q-1) keys |
| `MessageMatrix.LastUpdateDecides` | src/register.rs:149-169 | after any updates a receipt and the message stored for it come from the same update, the last one recorded there, and other cells are as at the start |
| `MessageMatrix.RunKeepsCached` | src/register.rs:149-253 | after any updates every touched node is cached as recomputation gives, every other is as at the start |
| `MessageMatrix.VerdictIsFullVerdict` | src/register.rs:84-253 | the cached verdict is the one of full recomputation, except exactly for a single-key quorum before its first update; what that verdict means is `MatrixLaws.VerdictExactly` |
| `MatrixLaws.CellCounts` | src/register.rs:181-217 | a cell counts towards its node iff it is the node's own or the last update recorded there was a valid receipt |
| `MatrixLaws.StatusExactly` | src/register.rs:181-253 | the status a node is recomputed to, passed, void or pending, each by an exact condition on the receipts last recorded |
| `MatrixLaws.VerdictExactly` | src/register.rs:171-253 | after any updates the verdict is true iff all but a third of the nodes each have valid last receipts in all but a third of their column and of their row, and their dispatch unless it is this node, but for a single key before its first update, where it is false |
| `MatrixLaws.FullRoundPasses` | src/register.rs:119-253 | after any updates at whose end every dispatch and every echo of the quorum was last recorded as valid, the verdict is true |
| `QuorumRegister.Matrix.constructor` | src/register.rs:85-117 | the initial matrix and cache |
| `QuorumRegister.Matrix.RefreshNode` | src/register.rs:181-230 | the counting loops over column and row give the recomputed status, whose meaning is `MatrixLaws.CellCounts` and `MatrixLaws.VerdictExactly` |
| `QuorumRegister.Matrix.Passed` | src/register.rs:171-179 | the count of passed nodes decides the verdict that `MatrixLaws.VerdictExactly` states over the messages received |
| `QuorumRegister.Matrix.UpdateCell` | src/register.rs:149-169 | one cell and its message change and its two nodes are refreshed; unknown keys change nothing and report false |
| `QuorumRegister.Matrix.Update` | src/register.rs:119-137 | a dispatch is recorded by its sender at this node, an echo by the echoed sender at the echoing node, any other message not at all |
| `Supermajority.OverlapExceedsFaults` | src/algorithm.rs:508-529 | two supermajorities overlap in more than the Byzantine bound, for every population |
| `Supermajority.FaultBoundIsGreatest` | src/algorithm.rs:507-510 | the numbers of which three are fewer than the population are exactly those up to the fault bound |
| `Supermajority.ThresholdIsLeast` | src/algorithm.rs:462-529 | a count reaches the supermajority iff two sets of that size overlap in more than every such number, so no smaller threshold would do and no larger one is asked |
| `RoundSkip.SurvivesWithholding` | src/round_skip.rs:187-258 | a manifest accepted with f replicas to spare stays reconstructible whichever f sources withhold |
| `RoundSkip.WithholdingNeedsThreshold` | src/round_skip.rs:152-258 | surviving every f withholders holds iff every carried block has f+1 holders |
| `RoundSkip.FullHoldersServeAlone` | src/round_skip.rs:260-275 | the full-data holders are exactly the sources that can serve alone |
| `RoundSkip.AcceptedExactly` | src/round_skip.rs:205-258 | a manifest is accepted iff it lists holders for exactly the carried blocks, none of them dropped, each with at least one holder and as many as the threshold asks, all of them sources that are current validators |
| `RoundSkip.CertifiesExactly` | src/round_skip.rs:443-501 | a certificate is valid for an epoch iff it names the epoch and a later round and there are current validators, all but at most a third, each with a verifying vote for exactly what it certifies |
| `RoundSkip.CertificatesOverlap` | src/round_skip.rs:443-501 | two certificates valid for one epoch and validator list share more voters than the Byzantine bound |
| `RoundSkip.CertificatesAgree` | src/round_skip.rs:443-501 | if validators outside a faulty set within the bound sign once per round, valid certificates out of one round agree |
| `NodeRemoval.CollectEvidence` | src/membership.rs:711-741 | the nested loops file exactly the admissible accusations, one vote per observer, invalid over missing |
| `NodeRemoval.DeriveRemovalPlan` | src/membership.rs:688-791 | the plan is the best-ranked accused verifiers within budget, with their exact counts |
| `NodeRemoval.RemovalPlanUnique` | src/membership.rs:688-791 | the set of accusations determines the plan, whatever the order of blocks |
| `NodeRemoval.RemovalIsSafe` | src/membership.rs:688-791 | whoever is removed is accused by a supermajority of distinct other verifiers, and at least the minimum is kept |
| `MembershipLaws.AccuserMeans` | src/membership.rs:711-741 | a verifier counts as accuser iff its own block holds a verifying record of this epoch by it against another current verifier, and as invalid-signature accuser iff one such record says so |
| `MembershipLaws.RemovalPlanMeans` | src/membership.rs:688-791 | each decision has exactly the counts of those accusers, at least all but a third of the verifiers and the policy's own minimum; decisions are ordered by accusers, invalid signatures and key; nobody with enough accusers is left out unless the budget is used up by better ranked ones |
| `NodeAdmission.CollectAdmissions` | src/membership.rs:816-850 | the nested loops collect exactly the distinct sponsoring verifiers of each admission, one per block and hash |
| `NodeAdmission.DeriveAdmissionPlan` | src/membership.rs:801-884 | per new key the best eligible admission is chosen |
| `NodeAdmission.AdmissionIsBest` | src/membership.rs:852-901 | every admitted key is new and supermajority-sponsored, and none of its eligible admissions has more sponsors or equally many and a smaller hash |
| `MembershipLaws.SponsorSetMeans` | src/membership.rs:816-850 | a verifier sponsors an admission iff the first genuine admission of that hash in a block of its own names a key that is not a verifier |
| `MembershipLaws.NodeOfMeans` | src/membership.rs:833-850 | the node admitted under a hash is the one the first sponsoring block names |
| `MembershipLaws.AdmissionPlanMeans` | src/membership.rs:801-901 | exactly the keys of admissions sponsored by all but at most a third of the verifiers are admitted, each with the node, hash and count of the one with most sponsors, the smaller hash on a tie |
| `NodeAdmission.AdmissionPlanUnique` | src/membership.rs:801-884 | the blocks determine the admissions |
| `NodeAdmission.EpochTransition` | src/membership.rs:931-946 | the next verifiers are the current ones without the removed and with the admitted; no key is removed and readmitted |
| `ParallelNetworks.HeadsFormOneChain` | src/parallel_networks.rs:586-648 | over every run each group's published references form one chain from its first to its current head; what links it is `NetworkLaws.HistoryLinksUp` |
| `ParallelNetworks.ChainCounts` | src/parallel_networks.rs:620-637 | along the chain sequences count up by one until they saturate and sealed nonces rise strictly; the hash links are in `NetworkLaws.HistoryLinksUp` |
| `NetworkLaws.PublishesExactly` | src/parallel_networks.rs:597-646 | a reference is accepted iff its group is registered, it is genuine, and it repeats the current head, continues it by sequence, previous hash and a later sealed epoch, or opens a history with sequence one and no predecessor |
| `NetworkLaws.RegistersExactly` | src/parallel_networks.rs:588-596 | a registration is accepted iff it is valid for the scope and its group is new or registered the same |
| `NetworkLaws.DeliversExactly` | src/parallel_networks.rs:511-584 | a checkpoint is applied iff it is one of this scope with its own hash and vertices, follows the last one or is the first, every event belongs to a listed vertex that committed it, and the events apply in vertex order |
| `NetworkLaws.HistoryLinksUp` | src/parallel_networks.rs:586-648 | over every run each group's references start with sequence one and no predecessor, each later one names the hash of the one before it, sequences count up until they saturate, sealed epochs rise, and the last one is the head |
| `NetworkLaws.RegistrationIsPermanent` | src/parallel_networks.rs:588-596 | a registered group keeps its registration over every run |
| `NetworkLaws.HeadsAreGenuine` | src/parallel_networks.rs:597-646 | in every reachable state every head is a genuine reference of its registered group |
| `ParallelNetworks.CheckpointsAreContiguous` | src/parallel_networks.rs:531-551 | accepted checkpoints start at nonce one and each names the one before it |
| `ParallelNetworks.SnapshotRestores` | src/parallel_networks.rs:472-506 | the snapshot of a sound state validates and restores exactly that state |
| `ParallelNetworks.ValidSnapshotIsSound` | src/parallel_networks.rs:375-417 | whatever snapshot validates restores a sound state of which it is the snapshot |
| `ParallelNetworks.RestoreThenReplay` | src/parallel_networks.rs:472-584 | restoring mid-run and replaying the rest is the uninterrupted run |
| `ParallelReducer.Reducer.Apply` | src/parallel_networks.rs:586-648 | one event applied in place exactly when `NetworkLaws.PublishesExactly` or `NetworkLaws.RegistersExactly` accepts it, or refused without effect |
| `ParallelReducer.Reducer.ApplyGlobalCheckpoint` | src/parallel_networks.rs:511-584 | a checkpoint applies as a whole or changes nothing, and returns its events in order |
| `ParallelReducer.Reducer.TakeSnapshot` | src/parallel_networks.rs:472-485 | the snapshot lists the state in group order, commits to it and validates |
| `ParallelReducer.ValidateSnapshot` | src/parallel_networks.rs:375-417 | the two passes that remember the previous group decide validity |
| `ParallelReducer.FromSnapshot` | src/parallel_networks.rs:487-506 | a reducer is restored iff the snapshot validates |
| `BlockBytes.EncounterSelfDelimiting` | src/encounter.rs:123-143 | the bytes of a record followed by anything determine the record and the rest |
| `BlockBytes.AdmissionSelfDelimiting` | src/admission.rs:84-98 | so do those of an admission, if its texts are shorter than 2^32 bytes |
| `BlockBytes.BodiesCollide` | src/admission.rs:84-98 | two different bodies whose one admission has a text of 2^32 zero bytes in different places have the same bytes |
| `BlockBytes.InjectiveExactlyBelowLimit` | src/admission.rs:227-230 | the bytes determine the body for all texts of up to n bytes iff n is below 2^32 |
| `BlockBytes.BodyBytesDetermineBody` | src/block.rs:991-1014 | different bodies have different bytes, although transactions carry no count |
| `BlockHashing.EncodedLenExact` | src/block.rs:1078-1103 | the precomputed length is the length of the bytes |
| `BlockLayout.EncounterLayout` | src/encounter.rs:123-143 | every field of an encounter record stands at its offset with its tag numbers, a missing evidence as zeros behind a zero flag |
| `BlockLayout.AdmissionLayout` | src/admission.rs:84-98 | so does every field of an admission, texts behind their four-byte lengths |
| `BlockLayout.BodyLayout` | src/block.rs:991-1014 | so does every field of a body, the state behind its length, records and admissions behind their counts, each entry after the ones before it, transactions to the end |
| `BlockLayout.TransactionLayout` | src/block.rs:1005-1014 | a transaction is its hash, the length of its payload and the payload |
| `BlockLayout.MerkleInput` | src/block.rs:1132-1163 | the Merkle root digests the transaction hashes, 32 bytes each, in order |
| `BlockHashing.AppendEncounter` | src/encounter.rs:123-143 | appending writes exactly the canonical bytes of a record |
| `BlockHashing.SigningBytes` | src/admission.rs:78-98 | the signed part and the signature are the canonical bytes of an admission |
| `BlockHashing.AppendBody` | src/block.rs:991-1014 | appending writes exactly the canonical bytes |
| `BlockHashing.Hasher.UpdateEncounter` | src/encounter.rs:145-165 | feeding a record field by field feeds its canonical bytes |
| `BlockHashing.HashBody` | src/block.rs:1105-1130 | the streaming hash is the hash of the canonical bytes |
| `BlockHashing.HashAndMerkleRoot` | src/block.rs:1132-1163 | the fused pass gives that hash and the Merkle root |

## Left out

- `src/high_availability.rs`, `src/active_active.rs`, `src/runtime.rs` and networking: the lifecycle needs only the membership they report and the ordered contract.
- ShardLog, Borsh and the hash and signature schemes: an append log with drop-prefix compaction, round-tripping codecs and arbitrary functions stand in for them.
- Record-level encoding of the log and its u64 sequence numbers: records are values and sequence numbers do not overflow.
- LogStore.Store.WriteCheckpoint: the size estimate made before encoding is an arbitrary predicate (`estimateFits`).
- QuorumSelection.Algorithm: networks have fewer than 2^64 - 1 nodes, the most a vector of indices can hold.
- HaEngine.Engine.Install: the runtime snapshot that travels with the writes is opaque bytes under the manifest hash; whether the runtime takes it is a parameter.
- HaEngine.Create: the in-memory engine without a store is not modelled.
- OrderedModel.RankNeverFalls: which references become available and are finalized is decided outside; origin chains, certificates and committee transitions are not modelled, and a reference is finalized at one position.
- Coordinator.Coordinator.CompleteGloballyApplied: whether the batch matches its reference is a parameter, and so is what each attempt to apply meets before the deadline.
- The lifecycle classes own their tables directly; sharing one log store between several users is not modelled.
- QuorumRegister.Matrix.Update: messages are reduced to the keys that decide their cell; the queue of matrices is not modelled.
- RoundSkip.CertificatesAgree: that honest validators sign once per round is a hypothesis; the code does not enforce it.
- `future_round_assist_decision` in `src/round_skip.rs` and filtered or fairly ordered transactions in `src/block.rs`: case tables and optional features.
- `MemberSet` status operations: not needed for the epoch transition.
- ParallelNetworks.HeadsFormOneChain: what makes a registration valid is a parameter.
- `src/latency_topology.rs`, `src/overlay.rs`, `src/harness.rs`, `src/active_passive.rs`, telemetry, clocks, locks and file permissions.
