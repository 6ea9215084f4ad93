# pgVolvra, modelled and proved

pgVolvra is row-level undo for PostgreSQL. A trigger records every row change as
a before and an after image; a selection of that history can be undone or
replayed under a guard; the history is sealed with a hash chain that retention
and erasure may lawfully shorten; and a companion process archives the write-ahead
log into chained segments that outlive the database. This project models those
three machines in Dafny and proves what they are for. Run `dafny verify
dfyconfig.toml`.

## How it is built

**Capture, plan, undo, replay** (`sql/volvra.sql`).
`JsonValues` has jsonb values and the containment operator `@>` of section 8.14.3
of the PostgreSQL documentation. `Tables` has tables as a map from an address
(table and key) to a row, the row writes PostgreSQL lets through, and the three
guarded statements as state transformers. `Capture` says what the trigger records
about one write, and `Plans` which statement each change is paired with and what
the apply loop does. `Engine` holds the class `Volvra`, whose methods update its
tables and its history in place, each proved against those functions.
`UndoTheorems`, `ReplayTheorems`, `Deltas`, `Duality`, `Interleaving`, `Guards`,
`PreviewTheorems`, `PreviewExact`, `OwnPreview`, `Locks` and `PartitionTruncate` hold the
results.

**Seal, verify, retention, erasure** (`sql/volvra.sql`).
`Hashing` has text, decimal numbers and folded digests; `Sealing` the canonical text
of a change, the loops of `_hash_span` and `verify`, and seals; `SealTheorems`,
`SealVerdicts`, `Retention`, `Erasure` and `Partitions` the results. `ChangeLog.Log` is the history as an
object, and `Partitions.Table` is where its rows are kept.

**The companion** (`companion/*.go`).
`Archive` is the class that writes segments and the manifest; `Decoding` turns
pgoutput tuples into images and messages into records; `Streaming.Streamer` is the
receive loop; `Delivery` is the protocol between server and companion as a state
machine with crashes, restarts and the safety valve. The loop is proved to refine
the protocol: every turn is shown to be steps the protocol allows, given only what
the server does. `Sessions` joins any number of lives of the process, each ended by
a crash or a stop, into one run of the protocol. `CommitOrder` makes the stream from the
server's log, transaction by transaction as they commit. `ExactlyOnce`, `SafetyValve`, `Valve`, `SegmentSize`,
`ArchiveTheorems` and `Recovery` hold the results, with `Scanning`, `ArchiveVerify`
and `Lsn` for reading an archive back. What those theorems ask of an archive on disk, `Archive.Honest`, is the invariant every
method of the class keeps.

A hash is any function from text to text. Theorems that need it to behave like
SHA-256 say so: `HexDigest` (64 characters, none a separator) holds of it for every
input, and `CollisionFree` asks that no two different texts among those *actually
hashed* collide. No statement assumes a hash that cannot exist.

## What does not hold, and exactly when it does

The code was followed where it and its documentation part ways. Each of these is
proved, with the condition under which the promise does hold.

- The guard `@>` means "the captured columns still have the captured values" if and
  only if every captured value is a scalar (`JsonValues.GuardIsExactIffScalar`).
- A step that overwrites or deletes a row proves, in every state, that the row held
  the image its change recorded of it if and only if that image is still there and
  all scalars, or says nothing but the key (`Guards.StepIsGuardedIff`). A redacted
  insert, and an archived update without its old row, have lost the image: undoing
  the one deletes, and replaying the other overwrites, whatever row now has the key
  (`Guards.UndoneInsertIsGuardedIff`, `Guards.ReplayedUpdateIsGuardedIff`, from
  `Interleaving.ErasedInsertIsUndoneUnguarded` and
  `ReplayTheorems.UpdateWithoutBeforeIsUnguarded`).
- Replaying a history onto the state it started from recovers the later state if and
  only if no update moved a key; otherwise it refuses
  (`ReplayTheorems.ReplayRecoversIffKeyStable`). Undo has no such limit.
- A preview without a flag means that every step applies, in every state, if and only
  if each later change to a row is determined by the selected ones before it
  (`PreviewExact.PreviewIsExactIff`). Two delta updates of different columns are not:
  `PreviewExact.DeltaPreviewMissesConflict` is the smallest case. One change to each
  row always is.
- On selections that keep their keys a flag is never a false alarm
  (`PreviewTheorems.FlagMeansRefusal`). When keys move it can be: previewing the undo of
  exactly a captured run, right after it, shows no flag if and only if no update moved a
  row away from a key that an earlier entry is about and no later one; and that undo
  applies every step either way (`OwnPreview.OwnPreviewIff`).
- Where table names hold no `|`, and whatever keys and images hold, a change's canonical
  text is its own if and only if neither actor nor database user contains `|`
  (`Sealing.ReprIsExactIffSeparable`). A separator-free change is told from every
  other row, whatever that row holds (`Sealing.ReprInjective`).
- Where table names may hold `|` as well, its text is its own if and only if, besides,
  it reads as the rest of a row behind no separator but the one after its table's name
  (`Sealing.ReprIsExactIffOneParse`). A key that holds the text of a whole row gives such
  a second reading (`Sealing.TableNameCollision`); without one the verdicts are exact
  whatever names are found (`SealTheorems.VerdictIsExactWithOneParse`).
- A change whose writer drew its id before a seal and commits after it falls into the
  sealed range, and `verify` then reads 'TAMPERED'. In every run of capture in any commit
  order, sealing, retention and erasure, a seal over separator-free rows reads so if and
  only if a change came late into its range and no later ledger entry overlaps
  (`Retention.AlarmIffLate`, and for one late change `Retention.LateWriterAlarm`).
- A seal taken while an erasure or a purge is uncommitted gives a false 'TAMPERED'
  under an exact condition that can be read off before the commit
  (`Retention.LateErasureAlarm`, `Retention.LateRemovalAlarm`), and relocating the
  default partition gives one if and only if it moved a redacted row of the span
  (`Retention.RelocateAlarmIffStamped`).
- With `seal_max_rows` 0 sealing never advances (`SealTheorems.SealAdvancesIffCapped`),
  and its seals end in one id, by which alone they are ordered: in one order of the two
  the chain holds, in the other it reads as broken (`Retention.ZeroCapOrderIsOpen`).
- Archiving is exactly-once if and only if the stream's positions strictly increase
  and it has no truncate (`ExactlyOnce.ExactlyOnceIff`). The server sends transactions as
  they commit, each change at the position of its log record, so positions increase if
  and only if no committed record carries two rows (as COPY writes them) and no two
  committed transactions interleave, one writing before the other's last change and
  committing after it (`CommitOrder.IncreasingIff`, `CommitOrder.ExactlyOnceIffSerial`).
  With one row to a record, every change sent is on record if and only if none
  interleave; otherwise a restart drops one as archived that never was
  (`CommitOrder.SentIsRecordedIffSerial`).
- Archive verification compares positions as text and reads lines through a 64 MiB
  buffer, while records of any length are written. An archive kept exactly as
  written has no fatal finding if and only if no two neighbours' positions are
  inverted as text and every line fits (`ArchiveTheorems.HonestIsCleanIffTextOrdered`,
  `ArchiveTheorems.HonestArchiveAlarms`); and it can be restored if and only if every
  line fits (`Recovery.RestoreLoadsRecords`).
- It hashes scanned lines, not bytes: an edit is seen if and only if the lines
  differ or one no longer fits, and a carriage return before a line break is not seen
  (`ArchiveTheorems.EditSeenIffLinesDiffer`, `ArchiveTheorems.CarriageReturnUnseen`).
- A TRUNCATE below a covered table is attributed to it if and only if the relation is
  at most 32 levels down (`PartitionTruncate.OwnedIffWithinBound`).

## Model

| member | source | states |
|---|---|---|
| `JsonValues.GuardIsExactIffScalar` | sql/volvra.sql:1773-1777 | passing the containment guard implies the live row still has every captured value, for every row, if and only if all captured values are scalars |
| `JsonValues.MatchingRowPassesGuard` | sql/volvra.sql:1773-1777 | a row that still has the captured values is never refused, nested values included |
| `UndoTheorems.CapturedImages` | sql/volvra.sql:959-1024 | delta or full, the two captured images of an update are over the same non-empty columns, true of the row then, and enough to turn either row into the other |
| `Capture.UpdateLeaves` | sql/volvra.sql:978-998 | an update leaves no entry exactly if it changed nothing and no-op capture is off; in delta mode both images hold exactly the columns whose values differ, in full mode all of them, with the values of the two rows |
| `Deltas.UpdateUndoAppliesIff` | sql/volvra.sql:2097-2153 | on any later row at its key, undoing a captured update applies, and a preview shows no conflict, if the row still has what the update left in the columns its mode captured, whatever the other columns hold; it takes back the changed cells and no others; and for scalar rows it applies only then |
| `Plans.PlannedIffShapeFits` | sql/volvra.sql:1679-1710 | a change with an image can be planned if and only if no captured column is gone and, but for an update, every required one was captured |
| `Plans.PlannedWithoutImage` | sql/volvra.sql:1998-2066 | the refusals: an uncaptured truncate, a table gone or without key, nothing to replay; and what an erased insert or delete can still be undone to |
| `Plans.StatusTells` | sql/volvra.sql:2622-2671 | a step is applied exactly if it wrote a row, satisfied exactly if it is a replayed delete of a row that is gone, skipped exactly if it found no row otherwise and conflicts are skipped; otherwise the run stops |
| `UndoTheorems.UndoStmtInvertsWrite` | sql/volvra.sql:2097-2124 | right after a write, the guarded statement planned for its entry is exactly the inverse write, key-changing updates included; a write that left no entry changed nothing |
| `UndoTheorems.UndoInvertsCapture` | sql/volvra.sql:2438-2473 | for every start state and run, under any mix of delta and full capture, undoing exactly the captured log meets no conflict, applies every step and returns the start state |
| `UndoTheorems.AppliedWritesAreARun` | sql/volvra.sql:2438-2473 | whatever plan is applied and however many steps it skips, the writes it made are a run from the state before to the state after |
| `UndoTheorems.UndoOfAnUndo` | sql/volvra.sql:2438-2473 | undoing what any committed undo or replay itself captured, with either setting of skip_conflicts, restores the state before it |
| `ReplayTheorems.ReplayStmtRepeatsWrite` | sql/volvra.sql:2069-2095 | before a write, the replay statement of its entry is that write, unless the update moves the key: then it finds no row |
| `ReplayTheorems.ReplayRecoversIffKeyStable` | sql/volvra.sql:2610-2671 | replaying a captured run onto its start state applies every step and reaches the end state if no update moved a key, and refuses if one did |
| `ReplayTheorems.ReplayTells` | sql/volvra.sql:2610-2671 | a replay that succeeds from any state leaves at every address what the history says of the row it found there, satisfied deletes included |
| `ReplayTheorems.ToldAgrees` | sql/volvra.sql:2069-2095 | two rows that go through one history agree on everything it writes, and each keeps what it does not write |
| `ReplayTheorems.ReplayConfluence` | sql/volvra.sql:2610-2671 | if a key-stable history replays from any state, the result agrees with the recorded end state on every row and cell the log writes, and with the start elsewhere |
| `ReplayTheorems.ReplayTwiceChangesNothing` | sql/volvra.sql:2610-2671 | a second replay, from the state already reached, refuses or ends in that same state |
| `Duality.UndoPlanIsMirroredReplayPlan` | sql/volvra.sql:1970-2124 | the undo plan of an unredacted history is, statement for statement and error for error, the replay plan of the reversed history with images exchanged |
| `Duality.ReplayPlanIsMirroredUndoPlan` | sql/volvra.sql:1970-2124 | the replay plan of an unredacted history is the undo plan of its mirror image, statement for statement and error for error |
| `Duality.DirectionsDiffer` | sql/volvra.sql:2636-2646 | one statement list run in both directions makes the same writes; they part only at a replayed delete that finds its row gone |
| `Duality.UndoIsMirroredReplay` | sql/volvra.sql:2048-2124 | undo and mirrored replay end in the same state and outcomes up to the satisfied case, and a replay without one succeeds only where the undo does |
| `Interleaving.PlanAmongWriters` | sql/volvra.sql:2418-2473 | under any interleaving of an undo or a replay with other writers, rolling it back leaves exactly what the others alone made, and every cell no applied step assigned is as they left it |
| `Interleaving.AppliedStepOverwritesOnlyCaptured` | sql/volvra.sql:1761-1806 | at the instant a step of either direction applies, each existing cell it changes or removes held the value its guard image has, for unredacted scalar images |
| `Interleaving.NoLostUpdateAmongWriters` | sql/volvra.sql:2418-2473 | the same for every step of a plan in every run among other writers, at the state that step meets |
| `Interleaving.NoLostUpdateIffScalar` | sql/volvra.sql:1773-1806 | an applied undo of a whole-row update proves the row held the captured values, in every state, if and only if they are scalars |
| `Interleaving.AloneIsApply` | sql/volvra.sql:2438-2473 | with no other writer about, the interleaved loop ends in the tables the apply loop ends in, or is stopped exactly where that one is |
| `Guards.StepIsGuardedIff` | sql/volvra.sql:1761-1806 | an applied step that overwrites or deletes proves the row held its recorded image, in every state, if and only if the image is there and all scalars, or is only the key; both directions, delta images included |
| `Guards.ReplayedUpdateIsGuardedIff` | sql/volvra.sql:2061-2095 | a replayed update whose before image is the row it changed, or missing, cannot write over a different row if and only if the image is there and all scalars, or the table has only key columns; missing, it writes over whatever row has the key |
| `Guards.UndoneInsertIsGuardedIff` | sql/volvra.sql:2097-2100 | likewise an undone insert whose after image is the inserted row, or erased; erased, it deletes whatever row has the key |
| `PreviewTheorems.FlagMeansRefusal` | sql/volvra.sql:2126-2153 | on a key-stable selection, redacted changes included, a flagged step makes undo or replay without skipping refuse, wherever it stands, but for a replayed delete of an absent row |
| `PreviewTheorems.NoFlagMeansApplied` | sql/volvra.sql:2126-2153 | with whole-row images and no missing change, no flag means every step applies, in either direction |
| `PreviewTheorems.PreviewIsExact` | sql/volvra.sql:2126-2153 | under those conditions a strict undo succeeds if and only if no step is flagged |
| `PreviewExact.StepAppliesIff` | sql/volvra.sql:2126-2153 | a step of a scalar key-stable selection applies if and only if its row is as it expects, and then leaves exactly its image there |
| `PreviewExact.PreviewIsExactIff` | sql/volvra.sql:2126-2153 | for scalar key-stable selections in either direction: in every state no flag implies every step applies, if and only if each later change to a row is determined by the selected ones before it |
| `PreviewExact.MissedConflict` | sql/volvra.sql:2133-2137 | for every selection that is not so determined, a state that shows no flag and where not every step applies |
| `PreviewExact.OneChangePerRow` | sql/volvra.sql:1987-1993 | a selection with one change to each row is so determined, delta images or not |
| `OwnPreview.OwnPreviewIff` | sql/volvra.sql:2126-2153 | for every captured run, key changes included: previewing its own undo right after it shows no flag if and only if no update moved a row away from a key that an earlier entry is about and no later one, though that undo always applies every step |
| `Engine.Volvra.CaptureRow` | sql/volvra.sql:901-1028 | appends exactly the entry the images call for, with the next id; for an update none if nothing changed and no-op capture is off, and otherwise images over exactly the columns that the table's mode keeps |
| `Engine.Volvra.WriteRow` | sql/volvra.sql:901-1028 | a write that goes through and its trigger leave the written tables and one captured entry; a refused one leaves everything as it was |
| `Engine.Volvra.Truncate` | sql/volvra.sql:1039-1127 | block, cap and allow as configured; a captured TRUNCATE leaves the tables and the history of deleting each row |
| `Engine.TruncateIsDeletes` | sql/volvra.sql:1095-1114 | emptying a table is the run of deletes of any scan of it, so undo inversion covers truncates |
| `Engine.Volvra.Plan` | sql/volvra.sql:1936-2158 | every selected change once, newest first to undo and oldest first to replay, with its statement and its conflict column, or the error of the first change that cannot be planned |
| `Engine.Volvra.ApplySteps` | sql/volvra.sql:2438-2473 | the loop with its triggers ends in the specified tables, statuses and own history, or in the state it started from |
| `Engine.Volvra.Run` | sql/volvra.sql:2338-2480 | a window that ends where it starts or before, an unplannable selection, a cap exceeded or a conflict changes nothing, the audit row included; otherwise one audit row, and the tables, statuses and captured history of the plan, or only the plan when unconfirmed |
| `Engine.SelectedSince` | sql/volvra.sql:1986-1995 | selecting what came after a point selects exactly the entries added since |
| `Engine.PlanOrder` | sql/volvra.sql:1975-1993 | a plan holds exactly the selected changes; their ids strictly fall in an undo and strictly rise in a replay |
| `Engine.ReplaySinceRepeats` | sql/volvra.sql:2507-2680 | replaying, through the selection, whatever the history gained by a run, onto the state before it, applies every step and reaches the state after it if no update moved a key, and refuses if one did |
| `Engine.EmptyWindowHoldsNothing` | sql/volvra.sql:1863-1864 | the windows refused as empty are exactly those no change can lie in |
| `Engine.UndoSinceRestores` | sql/volvra.sql:2507-2680 | after any committed undo or replay, undoing what the history gained since restores every row |
| `Locks.NoDeadlock` | sql/volvra.sql:2418-2425 | with any number of concurrent undos and replays, in every reachable state with an unfinished one, one can take its next lock or end |
| `Locks.AllCanFinish` | sql/volvra.sql:2418-2425 | from every reachable state all calls can end, none cancelled, in exactly as many steps as there are locks and calls left; and without new calls no run is longer |
| `Locks.CallsBeginAndGiveUp` | sql/volvra.sql:2396-2425 | a call can always begin, with one lock to take for each of its tables, and until it ends can always be given up, which frees all it holds |
| `Locks.ApplyLoopsAreDisjoint` | sql/volvra.sql:2593-2597 | two transactions in their apply loops never share a table |
| `PartitionTruncate.TruncateRelations` | sql/volvra.sql:1039-1127 | the statement's triggers, relation by relation, record what the specification says or abort with the first error |
| `PartitionTruncate.OwnedIffWithinBound` | sql/volvra.sql:878-899 | a relation of a covered table's tree is attributed to that table if and only if it is within the walk's bound |
| `PartitionTruncate.TruncateRecordsEachRow` | sql/volvra.sql:1052-1114 | for any relations of the tree in any order, capture succeeds if and only if all are within bound and cap, and records one delete image per row under the covered name, none for inner relations |
| `PartitionTruncate.RefusedByFirst` | sql/volvra.sql:1066-1109 | in each mode the statement fails exactly if some relation is too deep, or stores rows and is blocked or over the cap, and with the reason of the first that is |
| `PartitionTruncate.AllowedLeavesMarkers` | sql/volvra.sql:1117-1123 | let through uncaptured, one marker for each relation that stores rows, under the covered name, with consecutive ids |
| `PartitionTruncate.BlockedLeavesNothing` | sql/volvra.sql:1079-1090 | a blocked statement that goes through reached no relation that stores rows and leaves nothing |
| `PartitionTruncate.MarkersStopPlans` | sql/volvra.sql:1996-2005 | no selection that holds a marker can be undone or replayed |
| `PartitionTruncate.TreeIsUnder` | sql/volvra.sql:1216-1259 | every relation of a partition tree with one covered root is under that root |
| `PartitionTruncate.AnyOrderSameRows` | sql/volvra.sql:1079-1084 | whatever order the relations are visited in, the same rows are read, each as often |
| `PartitionTruncate.TruncatedSubtreeIsUndone` | sql/volvra.sql:1052-1114 | the images of a truncated subtree are its stored rows, no more and no fewer, and undoing them puts every row back |
| `Hashing.FoldInjective` | sql/volvra.sql:3351-3378 | equal folded digests mean equal lists of texts, barring a collision on texts that were hashed |
| `Hashing.JoinInjective` | sql/volvra.sql:3335-3340 | equally many separator-free fields are determined by their joined text |
| `Hashing.DecInjective` | sql/volvra.sql:3428-3430 | a number is determined by its decimal text |
| `Sealing.ReprInjective` | sql/volvra.sql:3327-3341 | no other row, whatever its fields hold, has the canonical text of a separator-free one |
| `Sealing.TidyInjective` | sql/volvra.sql:3327-3341 | object texts delimit themselves, so a change whose images hold separators is still determined by its text if its names do not |
| `Sealing.ReprIsExactIffSeparable` | sql/volvra.sql:3327-3341 | with keys and images that may hold the separator: among rows whose table names do not, a change's canonical text is no other change's if and only if neither its actor nor its database user holds it |
| `Sealing.ReprIsExactIffOneParse` | sql/volvra.sql:3327-3341 | with nothing asked of any name: a change's canonical text is no other change's if and only if neither actor nor database user holds the separator and the text has no second reading as a row |
| `Sealing.TableNameCollision` | sql/volvra.sql:3327-3341 | a change with clean names whose key text makes it share its canonical text with a row of another table name |
| `Sealing.HashSpan` | sql/volvra.sql:3351-3378 | folding row by row yields the digest and the count of the rows in the id range |
| `Sealing.CountLawful` | sql/volvra.sql:3501-3516 | the count is positive exactly when a ledger entry recorded after the seal overlaps its range |
| `Sealing.Verify` | sql/volvra.sql:3451-3545 | one finding per seal, with the verdict, the kind of change and the rows found; a seal reads as out of its place exactly if it does not name the chain hash before it, as forged exactly if it does and its chain hash is not that of its own fields, and no seal reads so exactly if the whole chain is sound |
| `Sealing.VerdictsDecideChain` | sql/volvra.sql:3496-3507 | the same of the findings, for every seal table and whatever rows and ledgers |
| `SealTheorems.VerdictIsExact` | sql/volvra.sql:3475-3543 | for an unaltered seal over separator-free rows, whatever rows are found now: 'ok' if and only if they are exactly those sealed, 'TAMPERED' if and only if they differ and no later ledger entry overlaps |
| `SealTheorems.VerdictIsExactWithImages` | sql/volvra.sql:3475-3543 | the same when sealed keys and images hold separators, as soon as the sealed names and the table names found do not |
| `SealTheorems.VerdictIsExactWithOneParse` | sql/volvra.sql:3475-3543 | the same with nothing asked of the names found, as soon as no sealed text has a second reading |
| `SealTheorems.ChainDeterminesSeals` | sql/volvra.sql:3428-3436 | two seal tables that pass the link and seal-hash checks and end in one chain_hash are the same seals, in number and content |
| `SealVerdicts.CleanFindingsDetermineSeals` | sql/volvra.sql:3496-3507 | two seal tables on which verify reports nothing broken or forged, and which end in one chain hash, are the same seals |
| `SealVerdicts.EditedSealIsSeen` | sql/volvra.sql:3499-3507 | a seal edited in place with its chain hash left alone reads as out of its place exactly if its link was changed, and as forged exactly if only its range, count or content was |
| `SealVerdicts.KindTellsWhatChanged` | sql/volvra.sql:3491-3511 | against the rows the seal was taken over: removed exactly if there are fewer, inserted if more, altered if as many and not the same, and no kind exactly if they are the same |
| `SealTheorems.SealAdvancesIffCapped` | sql/volvra.sql:3401-3426 | a seal starts right after the last one, and covers at least one id if and only if the cap is at least one |
| `SealTheorems.SealKeepsTiling` | sql/volvra.sql:3401-3436 | one call keeps the spans consecutive from id 1, without gap or overlap |
| `SealTheorems.EachIdSealedOnce` | sql/volvra.sql:3401-3436 | every id up to the last sealed lies in exactly one span |
| `SealTheorems.OneCallCatchesUp` | sql/volvra.sql:3401-3443 | one call advances the last sealed id by the cap, or to the newest row |
| `SealTheorems.SealingCatchesUp` | sql/volvra.sql:3412-3426 | n calls seal any backlog whose id distance is at most n caps |
| `Retention.StepKeepsInv` | sql/volvra.sql:2979-3096 | capture in any order of ids, sealing, deletion and redaction all keep: every seal's span is as sealed, or a change came late into it, or a later ledger entry overlaps it |
| `Retention.NoFalseAlarms` | sql/volvra.sql:3501-3539 | in every run of capture in any commit order, sealing with caps of at least one, retention and erasure, verify says 'ok' or 'changed by recorded erasure or retention' of every seal that no change came late into |
| `Retention.EntryCoversIff` | sql/volvra.sql:3518-3530 | a ledger entry accounts for a seal exactly if it is later and the rows it is about do not all lie before the sealed range, nor all behind it |
| `Retention.AlarmIffLate` | sql/volvra.sql:3501-3539 | in every such run, a seal over separator-free rows reads 'TAMPERED' if and only if a change came into its range after it was taken and no later ledger entry overlaps |
| `Retention.LateWriterAlarm` | sql/volvra.sql:3401-3426 | a change committed after a seal, wherever it belongs among the rows, makes that seal read 'TAMPERED' if and only if its id is in the sealed range and no later ledger entry overlaps |
| `Retention.ZeroCapOrderIsOpen` | sql/volvra.sql:3475-3478 | with a cap of zero two seals end in one id, and the chain holds in one order of them and is broken in the other |
| `Retention.SealsTileEveryRun` | sql/volvra.sql:3401-3436 | in every run of capture, sealing with caps of at least one, retention and erasure the spans are consecutive, and each id from 1 to the last sealed lies in exactly one |
| `Retention.LateErasureAlarm` | sql/volvra.sql:3160-3187 | when a seal was taken during an uncommitted redaction, committing it reads as tampering if and only if a row of the span is the subject's and not yet redacted, no later ledger entry overlaps already, and the stamp is not later than the seal |
| `Retention.LateRemovalAlarm` | sql/volvra.sql:3016-3034 | the same race with a purge or a hard erasure: if and only if it removes a row of the span, none overlaps already, and the ledger time is not later than the seal |
| `Retention.RelocateKeepsRowsIffUnstamped` | sql/volvra.sql:567-570 | relocation leaves the rows as they were, one by one and as a multiset, if and only if no moved row had been redacted |
| `Retention.RelocateAlarmIffStamped` | sql/volvra.sql:535-585 | after relocation an unexplained seal reads 'TAMPERED' if and only if a moved row of its span had been redacted |
| `ChangeLog.Log.Append` | sql/volvra.sql:901-1028 | one captured row joins the others and takes its place by id, late or not; the seals it is late for are exactly those whose range holds its id; every seal stays accounted for |
| `ChangeLog.Log.SealOnceNow` | sql/volvra.sql:3382-3443 | writes exactly the next bounded, linked seal, or none |
| `ChangeLog.Log.RemoveRows` | sql/volvra.sql:3016-3034 | what is deleted behind the guard is ledgered with its id range and counted |
| `ChangeLog.Log.DropBehind` | sql/volvra.sql:2993-3015 | every partition behind the cutoff, and no other, is dropped, counted with the rows it held and ledgered, empty or not |
| `ChangeLog.Log.PurgeOlder` | sql/volvra.sql:2979-3037 | dropping partitions and then deleting rows leaves exactly the rows at or after the cutoff; each partition behind the cutoff is counted with the rows it held and ledgered, empty or not, and the rest with one entry if there was any; and the audit rows of that age go too |
| `ChangeLog.Log.PurgeByPolicy` | sql/volvra.sql:3052-3084 | a row stays if and only if no policy of its own table has a cutoff later than it, and the counts add up |
| `ChangeLog.Log.ForgetSubject` | sql/volvra.sql:3139-3199 | redacting leaves every row in its place, the subject's rows not erased before without images, with actor 'erased' and this call's stamp and nothing else changed, and every other row as it was; a hard erasure leaves exactly the other rows; the range of the subject's rows is ledgered |
| `Erasure.ForgottenAreEmpty` | sql/volvra.sql:3181-3189 | after any run and a redaction, no row of the subject has an image or an actor, whether it was erased now or before |
| `Erasure.ForgetTwice` | sql/volvra.sql:3181-3189 | forgetting a subject again changes no row |
| `Erasure.HardForgetLeavesNone` | sql/volvra.sql:3177-3180 | a hard erasure leaves no row of the subject and every other |
| `ChangeLog.Log.VerifyAll` | sql/volvra.sql:3451-3545 | of a history changed only by these procedures, each seal that no change came late into reads 'ok' if its span is unchanged and 'explained' if not |
| `Partitions.Table.Insert` | sql/volvra.sql:449-457 | a row is added once, to its month if there is one, and no row ends up in a wrong month |
| `Partitions.Table.CreatePartition` | sql/volvra.sql:463-494 | created, already there, or blocked by rows of that month in the default partition; no row moves |
| `Partitions.Table.RelocateDefault` | sql/volvra.sql:535-585 | the default partition ends empty, every row of it is in its month, and the rows are those before with the moved ones copied without their stamp |
| `Partitions.Table.DropExpired` | sql/volvra.sql:2993-3015 | no partition is dropped that holds a row the cutoff keeps |
| `Partitions.Table.DeleteOlder` | sql/volvra.sql:3017-3023 | row by row, exactly the rows before the cutoff go, from every partition |
| `Partitions.Table.Purge` | sql/volvra.sql:2993-3034 | for any placement of rows, partitioned purge is the filter by time, and its counts sum to the rows removed |
| `Archive.Archive.constructor` | companion/archive.go:79-115 | a new archive is empty and honest |
| `Archive.Archive.Reopen` | companion/archive.go:79-115 | after a crash the closed segments are all there and the open one is gone, whatever its file holds |
| `Archive.Archive.ResumeLSN` | companion/archive.go:117-124 | the position of the last record of the last manifested segment, if any |
| `Archive.Archive.Open` | companion/archive.go:148-160 | starts the next file empty without touching a manifested one |
| `Archive.Archive.WriteLine` | companion/archive.go:162-182 | one line, and running totals that are those of the open segment |
| `Archive.Archive.Append` | companion/archive.go:162-188 | adds one record, and closes the segment exactly if its lines then reach the size limit; the manifest stays honest |
| `Archive.Archive.Rotate` | companion/archive.go:192-225 | closes the open segment and enters it, chained, in the manifest |
| `Archive.CloseKeepsHonest` | companion/archive.go:205-225 | a manifest stays an exact, chained account of the closed files when one more segment is entered |
| `SegmentSize.SegmentsStayNearLimit` | companion/archive.go:182-188 | over every run, crashes and the valve included, a segment without its last line is below the limit |
| `Decoding.TupleToMap` | companion/stream.go:362-387 | the loop yields the specified image |
| `Decoding.DecodedColumn` | companion/stream.go:362-387 | what the image has in each column: null, value, the old row's value, or nothing |
| `Decoding.UpdateDecodesWhole` | companion/stream.go:272-284 | with the old tuple at hand an update decodes to both whole rows, whatever unchanged columns were left unsent |
| `Decoding.WithoutOldTupleIff` | companion/stream.go:359-381 | without it, the loaded row is the real one if and only if every unsent column was null |
| `Decoding.DecodesToRecord` | companion/stream.go:264-352 | a write's message becomes exactly the record of that write: operation, key and both whole images |
| `Decoding.RecordsAre` | companion/stream.go:237-313 | only a change on a table not yet described is an error; bookkeeping makes no record, a row change one, a TRUNCATE one for each described table, all at the message's position |
| `Decoding.KeyedIffAddressable` | companion/stream.go:315-353 | a change is recorded as one exactly if the image that identifies it has a key column, with just the key columns it has; otherwise as a gap of its table |
| `Decoding.UpdateWithoutOldTuple` | companion/stream.go:272-284 | an update without its old row has no before image, and an after image that lacks what was not sent |
| `Decoding.OneGapPerKnownTable` | companion/stream.go:294-311 | a TRUNCATE is one gap for each listed table that has been described, in order |
| `Streaming.Streamer.constructor` | companion/stream.go:68-71 | starts with no filter and no known relation |
| `Streaming.Streamer.IsReplayed` | companion/stream.go:412-429 | true exactly at or below the resume point, and counted |
| `Streaming.Streamer.Emit` | companion/stream.go:315-353 | records the change, or a gap if it has no key, unless it was archived before; both counters follow |
| `Streaming.Streamer.HandleTruncate` | companion/stream.go:294-311 | one gap per known table, whatever the filter |
| `Streaming.Streamer.Handle` | companion/stream.go:237-313 | the archive gains exactly the message's unfiltered records; an unknown relation is an error and changes nothing |
| `Streaming.DescribedIsUnderstood` | companion/stream.go:245-258 | after a relation message changes of that table are understood as it describes it, and what was known of the others stays |
| `Streaming.Streamer.Tick` | companion/stream.go:175-190 | only what is in the manifest after rotating is acknowledged, and never less than before |
| `Streaming.Streamer.Check` | companion/safety.go:32-91 | the archive or the told position changes only if the ceiling is positive and at least that many bytes are retained; then the skipped range is a gap at the end of the last manifested segment before the position is acknowledged; a vanished slot or a failed report ends the run; below it only the warning flag follows |
| `Streaming.Streamer.OneTurn` | companion/stream.go:170-233 | one turn of the loop is the specified turn |
| `Streaming.Streamer.Run` | companion/stream.go:140-235 | the filter is the resume point found at start, and the loop ends in the state its turns specify |
| `Streaming.FeedIsDeliveries` | companion/stream.go:223-233 | receiving changes is one delivery step of the protocol for each |
| `Streaming.LoopIsProtocol` | companion/stream.go:140-235 | whatever turns the loop takes, if the messages carry the stream and the server's position is ahead of what it was told whenever the valve opens, its steps are ones the protocol allows and it ends in the protocol's state, with an error exactly if a check failed |
| `Valve.ValveOpensIff` | companion/safety.go:54-56 | over any turns, the loop's steps include an opened valve if and only if the slot reported the ceiling or more, and the ceiling is positive, in a turn the run got to |
| `Valve.TurnTells` | companion/safety.go:76-79 | a turn tells the server what is durable, and the server's own position only if it reached the ceiling and the gap was reported |
| `Valve.RunEndsIff` | companion/stream.go:194-233 | the run ends at a turn exactly if the slot is gone, a gap could not be reported, or a change is of a table not yet described, and then nothing later happens |
| `Sessions.RunSession` | companion/main.go:102-180 | one life of the process, from opening the directory to its end, leaves what the specification says is durable and told |
| `Sessions.RunSessions` | companion/main.go:102-180 | likewise any number of lives on one directory, whatever each crash left in an open file |
| `Sessions.StopKeepsAllCrashKeepsClosed` | companion/main.go:112-171 | a clean stop or an error leaves all that was archived in the manifest; a crash leaves what was closed by then, with which the next life starts |
| `Sessions.SessionsAreProtocol` | companion/stream.go:151-197 | any number of sessions, each ended by a crash, a stop or an error, are one run of the protocol with a restart before each, and are all without error exactly if no check of theirs failed |
| `Sessions.SessionsRecover` | companion/restore.go:15-22 | the directory they leave, restored and replayed onto the backup, yields exactly the state after the writes it holds, if its lines fit the scanner |
| `Sessions.SessionsExplain` | companion/safety.go:54-79 | after any sessions with the valve every change the server was told of is archived or in a recorded gap, and the archive verifies |
| `ExactlyOnce.StepKeepsInv` | companion/stream.go:151-197 | delivery, rotation, acknowledgement, shutdown, crash and restart anywhere allowed keep the records an exact prefix |
| `ExactlyOnce.ExactlyOnceIff` | companion/stream.go:409-429 | in every reachable state the records are exactly the stream so far, if and only if positions strictly increase and there is no truncate |
| `ExactlyOnce.FaultBreaksExactPrefix` | companion/stream.go:294-311 | for every other stream, a run with one crash after which they are not |
| `ExactlyOnce.SentIsRecordedIff` | companion/stream.go:409-429 | in a stream of distinct row changes, whatever crashes and restarts, every change sent is on record if and only if positions strictly increase |
| `ExactlyOnce.ManifestIsPrefix` | companion/main.go:123-134 | what is manifested is then a prefix of the stream too |
| `CommitOrder.IncreasingIff` | companion/stream.go:151-157 | of a stream sent in commit order: positions strictly increase if and only if no committed log record carries two rows and no two committed transactions' rows interleave |
| `CommitOrder.ExactlyOnceIffSerial` | companion/stream.go:409-429 | for every log, archiving what it sends is exactly-once in every reachable state if and only if both hold and nothing is truncated |
| `CommitOrder.SentIsRecordedIffSerial` | companion/stream.go:409-429 | for every log with one row to a record, the filter never drops a change that was not archived if and only if no two committed transactions' rows interleave |
| `SafetyValve.ValveFollowsTick` | companion/stream.go:175-195 | the state the valve is checked in has nothing unrotated and acknowledges at least the resume point |
| `SafetyValve.StepKeepsInv` | companion/safety.go:32-91 | every step, the valve and crashes included, keeps every told position explained |
| `SafetyValve.AcknowledgedIsExplained` | companion/safety.go:54-79 | every change at or below any position the server was told is in a manifested segment or gap, and archived changes strictly increase |
| `Lsn.TextOrder` | companion/verify.go:94-95 | between positions whose texts have the same widths, text order is position order |
| `Lsn.TextOrderFailsAcrossWidths` | companion/verify.go:94-95 | two positions whose texts are in the opposite order |
| `Lsn.TextReadsBack` | companion/stream.go:242 | the text of a position is two hexadecimal numbers around the only slash, and reads back as the position |
| `Scanning.ScanText` | companion/verify.go:49-57 | a scan of lines written one by one reaches the end if and only if all fit the buffer, and then reads them in number and order, each less one trailing carriage return |
| `Scanning.ScanStopsAtLongLine` | companion/restore.go:77-79 | a line that does not fit ends the scan: the lines before it were read, and no later one is |
| `Scanning.TextInjective` | companion/verify.go:53-56 | lines without breaks are determined by the text hashed for them |
| `ArchiveVerify.ReadSegment` | companion/verify.go:48-61 | the text hashed, the lines, the unreadable lines of a segment, and whether the scan failed |
| `ArchiveVerify.CheckContent` | companion/verify.go:62-90 | whether the scan failed, and if not the first failing check of a segment, in order |
| `ArchiveVerify.ContentVerdictTells` | companion/verify.go:73-90 | what each verdict says of a segment that could be read: its text, its place in the chain, its entry, its number of lines, or a line that is no record, each with the checks before it passed |
| `ArchiveVerify.FindGap` | companion/verify.go:143-164 | whether the segment or the one before it records a gap |
| `ArchiveVerify.ListUnrecorded` | companion/verify.go:111-141 | one non-fatal notice per file no manifest entry covers |
| `ArchiveVerify.OneNoticeEach` | companion/verify.go:111-141 | as many notices as there are files the manifest does not cover, and nothing else |
| `ArchiveVerify.VerifyArchive` | companion/verify.go:29-106 | exactly the specified findings, in order |
| `ArchiveTheorems.HonestFindings` | companion/verify.go:29-106 | a segment of an honest archive whose lines fit has no finding but the order one, exactly where neighbouring positions are inverted as text |
| `ArchiveTheorems.HonestIsCleanIffTextOrdered` | companion/verify.go:62-98 | an honest archive has no fatal finding if and only if every line fits the scanner and no neighbours are inverted as text |
| `ArchiveTheorems.LongLineIsUnreadable` | companion/verify.go:62-68 | a segment with a line that does not fit, kept as written, is reported unreadable |
| `ArchiveTheorems.RunIsClean` | companion/verify.go:29-106 | the archive of any run, crashes and valve included, has no fatal finding when positions have one text width and lines fit |
| `ArchiveTheorems.HonestArchiveAlarms` | companion/verify.go:94-98 | otherwise an untouched archive of two increasing changes is reported |
| `ArchiveTheorems.SameChainSameLines` | companion/verify.go:70-90 | two archives without fatal finding that end in one chain value have the same segments, line for line |
| `ArchiveTheorems.EditSeenIffLinesDiffer` | companion/verify.go:62-76 | a replaced file is reported as unreadable if and only if a line no longer fits, and as tampered if and only if all fit and its lines differ |
| `ArchiveTheorems.OnlyLinesMatter` | companion/verify.go:49-60 | the findings depend on the files' lines and on nothing else |
| `ArchiveTheorems.CarriageReturnUnseen` | companion/verify.go:49-57 | a carriage return at the end of any line that still fits changes the file and no finding |
| `Recovery.RestoreArchive` | companion/restore.go:59-123 | loads segment by segment in manifest order, counting loaded and skipped; what was loaded before an error stays |
| `Recovery.RestoreFile` | companion/restore.go:80-119 | one file's lines, each its own statement, up to the first error |
| `Recovery.CountsTell` | companion/restore.go:80-112 | a restore counts each line once, row changes as loaded and broken lines, gaps and truncates as skipped, and the history grows by those loaded, or not at all in a dry run |
| `Recovery.RestoresIff` | companion/restore.go:74-119 | a restore gets through exactly if every manifested file is there and readable to its end and every table its row changes name exists; a dry run does not ask the last |
| `Recovery.DryRunForecasts` | companion/restore.go:92-95 | a dry run counts what the real one would, and always gets through; the real one does if and only if every table named is there |
| `Recovery.RestoreLoadsRecords` | companion/restore.go:74-122 | restoring an honest archive of row changes gets through if and only if every line fits the scanner, and then loads all of them, in order, and skips none |
| `Recovery.LoadedIsLog` | companion/restore.go:31-43 | what is loaded is the history the trigger with full images would have written |
| `Recovery.RecoversPrefix` | companion/restore.go:15-22 | restoring the first m writes of a run gets through if and only if every line fits, and replaying them onto the backup then applies every step and ends in the state after them |
| `Recovery.EndToEnd` | companion/stream.go:264-352 | from messages through crashes, restarts, archive, restore and replay: whatever state the companion died in, if the lines fit the backup is brought exactly to the state after the manifested writes, and if not the restore stops |

## Left out

- Roles, grants, row-level security and the `_require*` checks: catalog lookups.
- SQL text assembly, identifier and literal quoting, and the selector arguments: statements are state transformers and a selection is any predicate on entries.
- Foreign keys, cascades, deferrable and secondary unique constraints and user triggers: server behaviour. What remains of them is that a replayed delete of an absent row is satisfied.
- Generated, identity and excluded columns, and schema changes between capture and undo beyond the image check: there is no per-column flag.
- Conversion between rows, jsonb and pgoutput text is the identity, and a restored key is taken as archived.
- Notices, marks, health, status, installation, migration and the command line.
- Sockets, timeouts, file sync and rename, and input/output errors: atomic steps, a crash, and files that are there or not.
- Engine.Volvra.Run: the time window is only checked, being one of the things a selection may be made of. The method stands for both undo and replay, which differ in direction, texts and the satisfied case; the direction selects.
- Engine.Volvra.CaptureRow: excluded columns are not stripped, and the table is taken to be registered, by itself or through an ancestor, under the name given.
- Engine.Volvra.WriteRow: as for the trigger it fires.
- Engine.Volvra.Truncate: an ordinary table. Partition trees are `PartitionTruncate`, whose history is returned as a value, not kept in the object.
- Plans.PlannedIffShapeFits: column defaults are not modelled, so every NOT NULL column counts as required.
- Interleaving.PlanAmongWriters: other writers' row writes are atomic, and the plan sees each at once; isolation levels and waiting are not modelled.
- Interleaving.AppliedStepOverwritesOnlyCaptured: an update that also moves the key carries the row's other cells to the new key unchanged, which its contract allows.
- Locks.NoDeadlock: the lock key is taken to be injective in the table name, and only the tables' transaction locks are modelled.
- ReplayTheorems.ReplayConfluence: needs updates that keep the key; without that the replay refuses, which is proved separately.
- SealTheorems.VerdictIsExact: asks that the sealed rows be separator-free, or that only their images are not, because without that two changes share a text.
- Sealing.ReprIsExactIffSeparable: among rows whose table names hold no separator; `Sealing.ReprIsExactIffOneParse` is without that.
- SealTheorems.VerdictIsExactWithImages: asks that of the table names found; `SealTheorems.VerdictIsExactWithOneParse` does not.
- Retention.NoFalseAlarms: sealing, retention and erasure do not overlap in time; overlap is the subject of `Retention.LateErasureAlarm` and `Retention.LateRemovalAlarm`. Caps are at least one.
- ChangeLog.Log.VerifyAll: seals are read in the order written, which is the order of `to_id` while caps are at least one; `Retention.ZeroCapOrderIsOpen` is the other case.
- CommitOrder.IncreasingIff: subtransactions and the server's own memory of restarts are not modelled; a log is rows and commits.
- ChangeLog.Log.PurgeOlder: keeps the rows in id order and knows a partition by its range; where rows are stored is `Partitions.Table`, which in turn keeps no ledger. Dropping empty partitions is not modelled.
- Partitions.Table.CreatePartition: month names and time zones are not modelled; a calendar is any assignment of times to consecutive months.
- Streaming.Streamer.Check: a failed report of the gap and a failed acknowledgement are one outcome, since both leave the position unacknowledged and end the run.
- Streaming.Streamer.Emit: transaction id, commit time and the reason texts of gaps are not part of a record.
- ExactlyOnce.ExactlyOnceIff: runs without the safety valve; with it the promise is `SafetyValve.AcknowledgedIsExplained`.
- SafetyValve.AcknowledgedIsExplained: the valve's threshold is the loop's; the protocol lets it open after any acknowledgement.
- ArchiveVerify.VerifyArchive: positions in a manifest are numbers, printed the way the companion prints them, and its entries are already sorted; the texts of findings are left out.
- Recovery.RestoreArchive: the only database error is an unknown table.
- Recovery.EndToEnd: tables have keys, updates keep them, and the run has no truncates and no valve step.
