# Xenoteer verification

A Dafny model of the parts of Xenoteer whose correctness is hardest to see from any one
function, with proofs about all inputs, all interleavings and all failures.

| part | files |
|---|---|
| Artifact store: admission, streaming, publication, rollback, deletion, cleanup, quota ledger, crashes | `Quota`, `UsageLedger`, `QuotaOverflow`, `Sums`, `DigestText`, `ArtifactTypes`, `AdmissionRules`, `StoreMachine`, `StoreInvariant`, `StoreAccounting`, `StoreSafety`, `StoreCrash`, `StoreReopen`, `StoreLives`, `StoreOverflow`, `StorePublication`, `ScopeIsolation`, `BoundedCopy`, `ArtifactStore` |
| Window geometry: partial requests, frame and client coordinates, bounds policies | `WindowGeometry` |
| WebSocket clients: framing, buffering, fragment reassembly | `WebSocketFraming`, `WebSocketWire`, `WebSocketTransport`, `WebSocketMessages`, `ProbeSocket`, `StrictMessages`, `StrictSocket` |
| Release qualification: seven lanes, evidence files, exception handlers | `Qualification`, `LaneOutput` |
| Public package boundary: worklist over the resolve graph | `DependencyClosure` |
| Cursor query: budgets, restarts, one transaction | `CursorQuery` |
| Canonical uint64 text | `Uint64Text` |
| Shared: results and options, counted failures | `Wrappers`, `Faults` |

`dafny verify dfyconfig.toml` checks the whole project.

## How the store is modelled

`StoreMachine` is a state machine. A step is what one thread does between two points at which
another may run: admission, one write of a body stream, the rename, each directory sync, each
entry a cleanup visits, each half of a rollback. Every step that does I/O may fail, and the event
says how. `StoreInvariant` states what every step keeps; `StoreSafety`, `StoreCrash` and
`StorePublication` draw the consequences for whole runs. `ArtifactStore` is the imperative store:
a class whose methods, with their failure points, are each proved to perform a run of the machine.

The ledger is compared with definitions that do not mention it: sums over the records under final
names, over the creates in flight, and over *phantoms*, charges whose record has gone. A crash may
undo any removal, and drop any publication, that no directory sync followed. `StoreLives` chains
processes: a kill leaves the root as it is with everything unsynced still unsynced, a power loss leaves
what had reached the disk, and the next process opens what it finds.

## How failures are modelled

Whatever may fail without the code's doing asks a `Faults` object, or counts on the reader, writer or
socket itself. Contracts then say both that an I/O error is reported only when there was a fault, and
exactly which inputs succeed without one. The qualification run takes a `Plan` instead, which says for
every step whether it raises and on which side of its effect.

## Where the code falls short of a property

- Quota arithmetic (`QuotaOverflow.OverflowsIff`): the admission check saturates and the addition
  that follows does not. It overflows for records a store can hold exactly when the byte ceiling is
  `u64::MAX` and the object ceiling leaves room to fill it. `StoreOverflow.NeverOverflows`: no
  reachable store does otherwise.
- Crash and quota (`StoreCrash.IdleCleanupOvercommits`, `StoreLives.IdleOpeningOvercommits`): a
  cleanup, or an opening after a kill, that removes nothing does not sync the root, yet leaves an
  earlier unsynced removal out of the ledger. A power loss can then bring that record back beside its
  replacement. `StoreCrash.StrayOnlyFromIdleCleanup` and `StoreLives.StrayOnlyFromIdleOpening` say
  exactly when a removal is off the ledger, and `StoreCrash.CoveredIffNothingStray` that this is
  exactly when a crash can exceed it.
- Durability after a restart (`StoreLives.UncertainAfterReopening`): a record kept with uncertain
  durability is as uncertain after a kill and an opening that removes nothing.
- Scope isolation (`ScopeIsolation.OutsideScopeIsAbsent`): a record that does not load is reported
  as corrupt before its scope is known.
- Repeated geometry requests (`WindowGeometry.RepeatedRequestMayOverflow`): with clamping and a
  root at the far end of the coordinates, repeating a request can overflow.
- Viewer probe (`WebSocketMessages.PingBetweenFragmentsIsRefused`,
  `WebSocketMessages.StrayContinuationIsRead`): against section 5.4 of RFC 6455 it refuses control
  frames between fragments and reads a continuation that continues nothing.
  `WebSocketMessages.ConformingReadIff` says exactly what it can read.
- Qualification evidence (`Qualification.FailedLaneReadsPassedIff`): a lane with exit 0 and no log is
  recorded as passed inside an attempt that is rejected because of it, and no other failed lane is.
- Qualification certificate (`Qualification.Qualifier.Qualify`,
  `Qualification.CertificateMayOutliveFailure`): a run that reports failure leaves its certificate
  exactly when the removal in the handler raised first or when only the release of the session lock
  failed. The certificate is truthful even then.
- Qualification record (`Qualification.Qualifier.Finish`): a signal while the dictionary is cleared, behind
  the certificate, makes the recording of that failure raise. The certificate is gone then, and the
  attempt on file still reads as passed.

## Model

| member | source | states |
|---|---|---|
| StoreSafety.RunKeepsInv | crates/xenoteer-artifacts/src/store.rs:383-759 | after every interleaving of any number of creates, opens, deletes and cleanups, with any step failing, the whole store invariant holds: every figure of the ledger, store-wide and per owner, is exactly the records under final names plus the creates in flight plus the charges whose record has gone; totals are the sums over owners; every create agrees with its reservation, its staging directory and its final name |
| StoreSafety.StepKeepsInv | crates/xenoteer-artifacts/src/store.rs:383-759 | each of the twenty steps keeps that invariant |
| StoreSafety.NeverUnderstated | crates/xenoteer-artifacts/src/store.rs:654-726 | the ledger never understates what is held; with the operation lock free, held is durable plus reserved; with no charge left over, the ledger is exactly that |
| StoreSafety.QuotaSafety | crates/xenoteer-artifacts/src/store.rs:456-475 | over every run no figure ends above both its ceiling and its starting value, and what is held never exceeds the ledger: a store within its limits stays within them, one above them never grows further above, in the uncertain-durability branches too |
| StoreSafety.OverQuotaRefuses | crates/xenoteer-artifacts/src/store.rs:673-699 | a request that would take any figure it touches above its ceiling is never admitted |
| StoreSafety.FaultFreeIsExact | crates/xenoteer-artifacts/src/store.rs:383-623 | runs without a failed removal or sync keep the ledger exactly equal to durable plus reserved usage whenever the lock is free |
| StoreSafety.StepStaysSettled | crates/xenoteer-artifacts/src/store.rs:383-623 | every step but those failures leaves no charge without a record behind |
| StoreSafety.CleanupRestoresExactness | crates/xenoteer-artifacts/src/store.rs:943-996 | a completed cleanup makes the ledger exact whatever faults came before, leaves no expired record and no temporary directory without a create, and keeps every reservation and create |
| StoreSafety.StagingIsPrivate | crates/xenoteer-artifacts/src/store.rs:943-996 | no step of anybody else, cleanup included, touches the staging directory or the reservation of a create being streamed or described |
| StoreSafety.StepUsage | crates/xenoteer-artifacts/src/store.rs:673-720 | a step raises a figure only by admitting a request, and then not above its ceiling |
| StoreSafety.CleanEndUsage | crates/xenoteer-artifacts/src/store.rs:549-560 | replacing the ledger at the end of a cleanup never raises a figure and makes it durable plus reserved usage |
| StoreSafety.StepShape | crates/xenoteer-artifacts/src/store.rs:383-759 | each step keeps the structural half of the invariant |
| StoreSafety.StepAccounting | crates/xenoteer-artifacts/src/store.rs:383-759 | each step keeps the accounting half of the invariant |
| StoreCrash.CrashAtomic | crates/xenoteer-artifacts/src/store.rs:425-476 | at every crash point of every run, each entry under a final name is a complete record whose length and digest match its metadata, whichever unsynced additions and removals reached the disk |
| StoreLives.CrashAndReopen | crates/xenoteer-artifacts/src/store.rs:336-361 | stop at any point of any run, by a kill with the machine up or by a power loss, and reopen by a pass over the root in any order: no temporary entry is left, the records are exactly the unexpired ones found, the ledger is their total, the invariant holds again, and a store within its limits is within them again unless the power failed with an unsynced removal off the ledger |
| StoreLives.CrashSafety | crates/xenoteer-artifacts/src/store.rs:336-560 | over whole histories: any number of processes, each opening the root it finds, working under any interleaving and any failures, and killed or cut off at any point, the opening included; from a root within limits the ledger of the process now running is within them at every point and covers what is held, provided the power never failed while an unsynced removal was off the ledger |
| StoreLives.StrayOnlyFromIdleOpening | crates/xenoteer-artifacts/src/store.rs:336-361 | an opening takes an unsynced removal off the ledger if and only if the process before was killed with such a removal outstanding and the pass finds nothing to remove, and so does not sync |
| StoreLives.IdleOpeningOvercommits | crates/xenoteer-artifacts/src/store.rs:983-994 | that failing case in any store with room for one record, without any cleanup: delete without a successful sync, kill, reopen, publish again; a power loss can leave two records |
| StoreLives.UncertainAfterReopening | crates/xenoteer-artifacts/src/store.rs:336-361 | a record of the reopened store can still be lost to a power loss if and only if its name was unsynced at a kill and the pass found nothing to remove |
| StoreLives.LeftWithinBooks | crates/xenoteer-artifacts/src/store.rs:336-361 | what a stop leaves adds up to at most the ledger, unless an unsynced removal was off it when the power failed |
| StoreLives.LeftIsSane | crates/xenoteer-artifacts/src/store.rs:336-361 | every root a stop leaves can be reopened, if its records add up to at most u64::MAX where an unsynced removal was off the ledger |
| StoreLives.RecordOutlives | crates/xenoteer-artifacts/src/store.rs:336-560 | an acknowledged record is still there, and synced, after any number of processes, however each ended, unless deleted in its scope or expired |
| StoreLives.PublishedOutlives | crates/xenoteer-artifacts/src/store.rs:336-545 | from the stream to a reader many processes later: before expiry an open with owner, purpose, generation and provenance of the request returns exactly the bytes streamed and the request's metadata, and any other open finds nothing |
| StoreReopen.PassOpens | crates/xenoteer-artifacts/src/store.rs:943-996 | a pass over a root as found, whatever is staged in it and in whatever order it is visited, ends in exactly the opened store; names and removals that were unsynced still are if and only if the pass removed nothing |
| StoreReopen.PassExists | crates/xenoteer-artifacts/src/store.rs:943-996 | and every root of complete records within range has such a pass, so reopening it fails only by a fault |
| StoreReopen.FoundInv | crates/xenoteer-artifacts/src/store.rs:336-361 | a root as found, with its staging directories and what is unsynced in it, satisfies the invariant with a ledger of all its records |
| StoreReopen.VisitsSweep | crates/xenoteer-artifacts/src/store.rs:943-990 | in any order of visits, what is left is what is unvisited plus the unexpired records among the visited |
| StoreReopen.SweepCompletes | crates/xenoteer-artifacts/src/store.rs:943-990 | from any point of the pass it can be completed |
| StoreReopen.SweepEnds | crates/xenoteer-artifacts/src/store.rs:991-996 | its end is the opened store, ledger and unsynced entries included |
| StoreCrash.CrashWithinBooks | crates/xenoteer-artifacts/src/store.rs:456-475 | no figure of what a crash may leave exceeds the ledger just before it, unless an unsynced removal was taken off the ledger |
| StoreCrash.StrayOnlyFromIdleCleanup | crates/xenoteer-artifacts/src/store.rs:983-994 | after a step an unsynced removal is off the ledger if and only if the step ends a cleanup that removed nothing while such a removal was outstanding, or one was off it before and the step does not sync the root |
| StoreCrash.CoveredIffNothingStray | crates/xenoteer-artifacts/src/store.rs:983-994 | at rest the ledger covers every possible crash if and only if no unsynced removal was taken off it |
| StoreCrash.IdleCleanupOvercommits | crates/xenoteer-artifacts/src/store.rs:983-994 | the failing case in any store with room for one record: delete without a successful sync, clean up, publish again; a crash can leave two records |
| StoreCrash.RemovalIsForgotten | crates/xenoteer-artifacts/src/store.rs:983-994 | that run up to the cleanup: the ledger is empty while a crash may still bring the record back |
| StoreCrash.OpenedInv | crates/xenoteer-artifacts/src/store.rs:336-361 | a store opened on complete records satisfies the invariant with a ledger equal to its unexpired records, whatever is unsynced in the root |
| StoreCrash.RevivedTotal | crates/xenoteer-artifacts/src/store.rs:616-623 | what a crash leaves adds up to at most the records under final names plus the removals it may undo |
| StorePublication.CreatePublishes | crates/xenoteer-artifacts/src/store.rs:383-476 | a create admitted and committed after any interleaving publishes exactly the bytes streamed to it with the metadata of its request, field by field, at the time it was described; opens before expiry return exactly that to owner, purpose, generation and provenance of the request, and nothing to anybody else |
| StorePublication.AcknowledgedSurvives | crates/xenoteer-artifacts/src/store.rs:383-560 | a published record stays as it is through every other operation and every crash until it expires or is deleted in its scope |
| StorePublication.PublishedStaysReadable | crates/xenoteer-artifacts/src/store.rs:383-545 | admitted, run among anything, committed, and then anything that neither deletes the record in its scope nor outlives it: before expiry, on the running store and on what a crash there leaves, an open with owner, purpose, generation and provenance of the request returns exactly the bytes streamed and the request's metadata, and any other open finds nothing |
| StorePublication.NoCorruption | crates/xenoteer-artifacts/src/store.rs:480-505 | in every reachable store an open can be refused as absent or expired but never finds corruption |
| StorePublication.RunTracks | crates/xenoteer-artifacts/src/store.rs:413-445 | throughout any interleaving a create's staging directory holds exactly the bytes given to its own stream, and once described, the full record |
| StorePublication.StepKeepsRecord | crates/xenoteer-artifacts/src/store.rs:383-560 | one step leaves an acknowledged record alone unless it deletes it or it has expired |
| StorePublication.CarriedOpens | crates/xenoteer-artifacts/src/store.rs:480-505 | a record that carries a request is what an open with the request's four attributes returns until its expiry, and no other open |
| ArtifactTypes.StagedLoads | crates/xenoteer-artifacts/src/types.rs:484-502 | everything `create` stages passes every check of the reader, for every valid request, and comes back unchanged |
| ArtifactTypes.LoadsIff | crates/xenoteer-artifacts/src/store.rs:1063-1128 | a record loads if and only if both files are there, the metadata file is at most 64 KiB of version 1 for this id with well-formed fields, an expiry after its creation, an allowed size equal to the body's, and a digest text; and then as the files say, field by field |
| ArtifactTypes.ValidateCommonIff | crates/xenoteer-artifacts/src/types.rs:400-408 | exactly the well-formed owners, generations, capabilities, policies and content types pass |
| ArtifactTypes.ValidateTimeAndSizeIff | crates/xenoteer-artifacts/src/store.rs:562-582 | exactly requests that are not empty, no larger than store and purpose allow and expire within the retention time pass, and each other failure is named |
| ArtifactTypes.ValidContentTypeIff | crates/xenoteer-artifacts/src/types.rs:567-591 | a content type is accepted if and only if it is 1 to 128 printable characters that are a type, a slash, a subtype and perhaps parameters behind a semicolon |
| ArtifactTypes.Utf8LengthIs | crates/xenoteer-artifacts/src/types.rs:541-550 | the length a text is measured by is that of its encoding in section 3 of RFC 3629 |
| ScopeIsolation.Isolation | crates/xenoteer-artifacts/src/store.rs:480-545 | two-run property: stores that agree on the records of a scope answer every sequence of opens and deletes in it alike, whatever else they hold and whichever removals fail |
| ScopeIsolation.PerformsOnView | crates/xenoteer-artifacts/src/store.rs:480-545 | one operation answers from the records of its scope alone and changes only those |
| ScopeIsolation.OthersUntouched | crates/xenoteer-artifacts/src/store.rs:480-545 | no sequence of operations in one scope changes a record outside it |
| ScopeIsolation.OutsideScopeIsAbsent | crates/xenoteer-artifacts/src/types.rs:336-341 | a record whose owner, generation, purpose or provenance is not the scope's, expired or not, is never changed and is indistinguishable from an absent one if and only if it loads; a corrupt record is reported before its scope is known |
| ScopeIsolation.OnlyItsScope | crates/xenoteer-artifacts/src/store.rs:480-545 | a complete record is there for the four attributes it was stored with and for nobody else: any other scope is told that there is nothing and changes nothing; with all four, an open returns it, a delete removes exactly it, and after expiry both remove it |
| ScopeIsolation.PerformTells | crates/xenoteer-artifacts/src/store.rs:480-545 | the answer and the records left, by the record's own attributes, in every case and with every fault |
| ScopeIsolation.ViewIff | crates/xenoteer-artifacts/src/types.rs:336-341 | the records a scope sees are exactly those with its owner, generation, purpose and provenance |
| ArtifactStores.ArtifactStore.Create | crates/xenoteer-artifacts/src/store.rs:383-476 | imperative `create`: its effect is a run of the machine; without a fault it succeeds if and only if the request is well-formed and timely at both times, the id is new, every ceiling still holds with it, and the source has the declared size and digest; success publishes exactly the source's bytes with the request's metadata, field by field, and adds exactly its size and one object to the ledger; failure leaves records, reservations and ledger as they were unless durability is uncertain, and then keeps the charge |
| ArtifactStores.ArtifactStore.CreateChecked | crates/xenoteer-artifacts/src/store.rs:394-475 | `create` behind its first checks: the same promises for a request that is valid, timely and does not overflow |
| ArtifactStores.ArtifactStore.OpenBody | crates/xenoteer-artifacts/src/store.rs:480-505 | imperative `open_body`: a run of the machine; the answer is told by the record's own attributes: nothing unless owner, generation, purpose and provenance are all its own, expired and removed at its time, corrupt, or its contents; the ledger loses exactly the charge of a record removed |
| ArtifactStores.ArtifactStore.DeleteWithMetadata | crates/xenoteer-artifacts/src/store.rs:517-545 | imperative `delete_with_metadata`: a run of the machine; nothing is found or removed unless owner, generation, purpose and provenance are all the record's own; otherwise exactly that record goes, with its charge, and its metadata is the answer; a failure only where there was a fault |
| ArtifactStores.ArtifactStore.CleanupExpired | crates/xenoteer-artifacts/src/store.rs:549-560 | imperative `cleanup_expired`: a run of the machine that succeeds exactly without a fault; then exactly the records whose own metadata have not expired and the creates' own staging directories remain, the ledger is exact, and the report counts exactly what was removed; otherwise the ledger is untouched |
| ArtifactStores.ArtifactStore.Sweep | crates/xenoteer-artifacts/src/store.rs:943-991 | the pass over the root, in any order and interrupted anywhere: it is complete exactly without a fault, everything was visited then, what it reports plus what is left is what was there, and it stays a run of the machine, the record whose removal failed half-way included |
| ArtifactStores.ArtifactStore.FinishCleanup | crates/xenoteer-artifacts/src/store.rs:549-560 | sync only if something changed, then replace the ledger by the tally plus the reservations |
| ArtifactStores.ArtifactStore.RemoveKnown | crates/xenoteer-artifacts/src/store.rs:616-623 | entry first, then the root sync, and only then the ledger; every failure point is a run of the machine |
| ArtifactStores.ArtifactStore.Rollback | crates/xenoteer-artifacts/src/store.rs:728-858 | dropping a staged artifact gives up the directory before the reservation and releases exactly its charge |
| ArtifactStores.ArtifactStore.Admission | crates/xenoteer-artifacts/src/store.rs:394-411 | admission reserves and stages, or leaves nothing reserved |
| ArtifactStores.ArtifactStore.ReserveFor | crates/xenoteer-artifacts/src/store.rs:584-614 | quota and registration together, or neither, with the quota that was exceeded |
| AdmissionRules.AdmittedIff | crates/xenoteer-artifacts/src/store.rs:394-411 | a request is admitted if and only if it is well-formed, of an allowed size, expires within the retention time, has a fresh identifier, and leaves total bytes, total objects and both figures of its owner within their ceilings |
| AdmissionRules.AdmittedCharge | crates/xenoteer-artifacts/src/store.rs:673-699 | admission adds the request's size and one object to the figures of the store and of its owner, and to no other |
| ArtifactStores.RemovalSettles | crates/xenoteer-artifacts/src/store.rs:616-623 | taking a record off takes exactly its size and one object off the figures of the store and of its owner |
| ArtifactStores.UnexpiredByMetadata | crates/xenoteer-artifacts/src/store.rs:943-996 | the records a pass keeps are those whose own metadata say that they have not expired |
| ArtifactStores.ArtifactStore.StreamBody | crates/xenoteer-artifacts/src/store.rs:413-418 | the staging directory receives a prefix of the source, all of it on success |
| ArtifactStores.ArtifactStore.Publish | crates/xenoteer-artifacts/src/store.rs:449-475 | rename, sync, and on a failed sync withdrawal; every branch is a run of the machine |
| ArtifactStores.ArtifactStore.StageAndPublish | crates/xenoteer-artifacts/src/store.rs:413-475 | everything after admission: success publishes the described record, other ends give the reservation back |
| ArtifactStores.OpenStore | crates/xenoteer-artifacts/src/store.rs:336-361 | without a fault opening succeeds if and only if every record loads; it yields exactly the unexpired records, nothing staged and their total as the ledger; what was unsynced still is if and only if nothing was removed; and, where the bodies match their digests, that state is the end of a machine pass over the root and its staging directories |
| ArtifactStores.Reconcile | crates/xenoteer-artifacts/src/store.rs:943-996 | the reconciliation loop at opening, over records and staging directories: without a fault it succeeds if and only if every record loads, keeps exactly the unexpired ones, removes everything staged, counts exactly what it keeps, and syncs the root if and only if there was something to remove |
| Quota.ReserveExact | crates/xenoteer-artifacts/src/store.rs:673-699 | admission adds exactly the charge to every figure it touches; a charge is admitted if and only if every ceiling it counts against holds afterwards, and below saturation the store's quota is named exactly when a store total is exceeded |
| Quota.ReserveNeverOverflows | crates/xenoteer-artifacts/src/store.rs:673-699 | for any ledger and any charge, comparing with a saturating sum and then adding plainly never overflows while no store ceiling is u64::MAX |
| QuotaOverflow.OverflowsIff | crates/xenoteer-artifacts/src/store.rs:673-699 | over the ledgers a store can hold, totals of records of 1 byte up to the largest size a purpose allows, and the requests it can be asked for: the addition overflows for some if and only if the byte ceiling is u64::MAX and the object ceiling leaves room for records that fill it |
| QuotaOverflow.OverflowNeedsRoom | crates/xenoteer-artifacts/src/store.rs:673-699 | an overflow on figures that such records can add up to needs that room |
| QuotaOverflow.RoomOverflows | crates/xenoteer-artifacts/src/store.rs:673-699 | with that room: the records, their balanced ledger and the request that overflow |
| StoreOverflow.NeverOverflows | crates/xenoteer-artifacts/src/store.rs:394-411 | in every reachable store without that room, no request that passes the checks before it overflows the ledger |
| StoreOverflow.StoreIsPlausible | crates/xenoteer-artifacts/src/types.rs:134-143 | in every reachable store the figures, charges without a record included, are ones that records of an allowed size can add up to, and no owner is above the total |
| Quota.AddExistingExact | crates/xenoteer-artifacts/src/store.rs:701-707 | within range, saturating additions are exact additions |
| Quota.RemoveExact | crates/xenoteer-artifacts/src/store.rs:709-720 | when the charge is on the ledger no saturating subtraction truncates, and an owner at zero is dropped |
| Quota.ReserveThenRemove | crates/xenoteer-artifacts/src/store.rs:673-720 | releasing a reservation restores the ledger it was taken from |
| Quota.UpdatesKeepBalance | crates/xenoteer-artifacts/src/store.rs:673-720 | every update keeps the store totals equal to the sums over owners |
| Quota.SameFigures | crates/xenoteer-artifacts/src/store.rs:666-726 | two pruned ledgers with the same figures are the same ledger |
| UsageLedger.Usage.Reserve | crates/xenoteer-artifacts/src/store.rs:674-699 | the in-place ledger does what the specification does, refusals unchanged |
| UsageLedger.Usage.AddExisting | crates/xenoteer-artifacts/src/store.rs:701-707 | the in-place ledger does what the specification does |
| UsageLedger.Usage.Remove | crates/xenoteer-artifacts/src/store.rs:709-720 | the in-place ledger does what the specification does |
| DigestText.PrintThenParse | crates/xenoteer-artifacts/src/types.rs:261-289 | parsing a printed digest gives the digest back |
| DigestText.ParseThenPrint | crates/xenoteer-artifacts/src/types.rs:261-289 | printing a parsed digest gives the text back: only lowercase hex of 64 characters is accepted |
| DigestText.Display | crates/xenoteer-artifacts/src/types.rs:261-268 | the printing loop writes 64 characters, two for each byte, the high half first, in lowercase hex |
| DigestText.FromStr | crates/xenoteer-artifacts/src/types.rs:270-289 | the parsing loop accepts exactly 64 lowercase hex characters and fills the array with the bytes they spell |
| BoundedCopy.CopyBounded | crates/xenoteer-artifacts/src/store.rs:1146-1179 | for every splitting of the source: without a fault it succeeds if and only if the source has exactly the declared size and that is within the maximum; an I/O error needs a fault; success copies and digests the whole source; at most one byte too many is read; the destination always holds a prefix |
| BoundedCopy.VerifyBodyDigest | crates/xenoteer-artifacts/src/store.rs:1181-1211 | without a fault it accepts if and only if size and digest are the recorded ones, an I/O error needs a fault, and a refusal names which of the two is wrong |
| WindowGeometry.ResolvedRequestReachesTarget | crates/xenoteer-core/src/window_geometry.rs:91-129 | applying the minimal request to the current client rectangle gives exactly the resolved client rectangle; for a frame request, adding the extents back gives exactly the effective frame |
| WindowGeometry.ResolvesIff | crates/xenoteer-core/src/window_geometry.rs:91-129 | exactly when a request resolves, to what, and otherwise why not: under clamping the effective rectangle is as much of the wished size as fits the root, on each axis nowhere nearer to the wished origin possible; otherwise it is the wish; the client rectangle is that less the extents, and the request names exactly the fields asked for or changed, with their new values |
| WindowGeometry.ChangedFieldsSuffice | crates/xenoteer-core/src/window_geometry.rs:294-316 | the minimal request names a field exactly when it was asked for or changes, and carries the one rectangle to the other |
| WindowGeometry.FrameClientInverse | crates/xenoteer-core/src/window_geometry.rs:242-292 | deriving the frame and taking the client out of it are mutually inverse wherever defined |
| WindowGeometry.ClampRectIsNearest | crates/xenoteer-core/src/window_geometry.rs:200-220 | clamping a rectangle never fails, lands inside the root, keeps the largest size that fits, is nearest on each axis among placements of that size, is idempotent, and moves exactly the rectangles containment would refuse |
| WindowGeometry.ClampPointIsNearest | crates/xenoteer-core/src/window_geometry.rs:349-361 | clamping a point never fails, gives the nearest root pixel, is idempotent, and moves exactly the points containment would refuse |
| WindowGeometry.ConstrainedIffOutside | crates/xenoteer-core/src/window_geometry.rs:91-129 | the flag is raised exactly when clamping was asked for and containment would have been refused; otherwise the request takes effect as given; under clamping the effective rectangle is the nearest to the wish inside the root |
| WindowGeometry.RepeatedRequestConverges | crates/xenoteer-core/src/window_geometry.rs:91-129 | repeating a request after it took effect gives the same effective and client rectangle if and only if the requested fields laid over the effective rectangle are still a rectangle; otherwise it overflows, and only under clamping |
| WindowGeometry.RepeatedRequestMayOverflow | crates/xenoteer-core/src/window_geometry.rs:200-220 | that failing case exists: a root at the far end of the coordinate range |
| WindowGeometry.FramePointIsShiftedClientPoint | crates/xenoteer-core/src/window_geometry.rs:132-168 | a client-local point and the same point shifted by the left and top extents in frame space resolve identically under every policy, errors included |
| WindowGeometry.ResolvedPointIsNearest | crates/xenoteer-core/src/window_geometry.rs:132-168 | exactly when a point in client or frame coordinates resolves, where to, when it counts as constrained, and which error it meets otherwise |
| WindowGeometry.NewContextValid | crates/xenoteer-core/src/window_geometry.rs:70-88 | a context exists exactly for valid root-physical geometry whose frame is the client plus its extents |
| WebSocketFraming.DecodeEncode | container/spikes/novnc/rfb_websocket_probe.py:132-162 | decoding undoes encoding for every opcode, mask, payload and length form; a receiver turns a well-formed frame away exactly for its bound and, if strict, for a mask, a longer length than needed or a misshapen control frame |
| WebSocketFraming.DecodeSound | container/spikes/novnc/rfb_websocket_probe.py:132-150 | nothing else is accepted: a decoded frame is, byte for byte, an encoding of that frame |
| WebSocketFraming.StrictIffCanonical | scripts/container/test-phase3-websocket.py:227-245 | the strict receiver accepts a frame if and only if the stream starts with its unmasked, minimal encoding, control frames being final and at most 125 bytes |
| WebSocketFraming.StreamRoundTrip | container/spikes/novnc/rfb_websocket_probe.py:132-162 | any list of frames, each encoded in any accepted way, is read back in order |
| WebSocketWire.EncodedIff | container/spikes/novnc/rfb_websocket_probe.py:152-162 | bytes are the encoding of a frame if and only if they are, one by one, its final bit and opcode, its length in network order, its mask and its payload combined with the mask |
| WebSocketWire.DecodedIff | container/spikes/novnc/rfb_websocket_probe.py:132-150 | a stream is decoded as a frame if and only if it starts with such bytes in a form the receiver accepts |
| WebSocketFraming.UnpackPack | container/spikes/novnc/rfb_websocket_probe.py:140-160 | network-order lengths survive packing and unpacking |
| WebSocketFraming.PackUnpack | container/spikes/novnc/rfb_websocket_probe.py:140-160 | and unpacking and packing |
| WebSocketFraming.MaskTwice | container/spikes/novnc/rfb_websocket_probe.py:149-161 | masking combines byte i with byte i mod 4 of the mask, and twice with the same mask is the identity |
| WebSocketFraming.CarriesOneMore | container/spikes/novnc/rfb_websocket_probe.py:152-162 | a frame written behind whole frames is read back behind them |
| WebSocketTransport.FrameBytes | container/spikes/novnc/rfb_websocket_probe.py:152-162 | the bytes assembled for sending, one by one: final bit and opcode, mask bit and the length in seven bits, two or eight bytes with the highest first, the four mask bytes, and payload byte k combined with mask byte k mod 4, in the shortest length form |
| ProbeSocket.ExtendBounded | container/spikes/novnc/rfb_websocket_probe.py:37-44 | a buffer is extended exactly when the result stays within the bound |
| ProbeSocket.WebSocket.RecvTcp | container/spikes/novnc/rfb_websocket_probe.py:120-130 | the next bytes of the connection, however it is chunked, and nothing lost on failure |
| ProbeSocket.WebSocket.RecvFrame | container/spikes/novnc/rfb_websocket_probe.py:132-150 | the next frame of the byte stream, however it is chunked, with end of stream and malformed frame told apart |
| ProbeSocket.WebSocket.SendFrame | container/spikes/novnc/rfb_websocket_probe.py:152-162 | what is sent is a final frame behind some mask, byte by byte as the frame format has it, in the shortest length form |
| ProbeSocket.WebSocket.CollectFragments | container/spikes/novnc/rfb_websocket_probe.py:209-217 | continuation frames are appended up to the final one, within the bound |
| ProbeSocket.WebSocket.RecvRfb | container/spikes/novnc/rfb_websocket_probe.py:195-221 | for every chunking, fragmentation and ping or pong between messages: without a fault a read succeeds if and only if the frame-level account does; what is returned is the next bytes of the concatenated binary payloads, what is left is the stream without them, each ping was answered once in order with its own payload, and the buffer stays within its bound |
| ProbeSocket.WebSocket.RecvMessage | container/spikes/novnc/rfb_websocket_probe.py:170-193 | without a fault a message is delivered if and only if the frame-level account does; it is the concatenation of its fragments, pings answered in order |
| WebSocketMessages.PullIsNextSlice | container/spikes/novnc/rfb_websocket_probe.py:195-221 | one read is the next slice of the stream of buffer and payloads to come, and conserves it |
| WebSocketMessages.ReadsAreConsecutiveSlices | container/spikes/novnc/rfb_websocket_probe.py:195-221 | successive reads are consecutive slices of the concatenated payloads |
| WebSocketMessages.ReceiveConserves | container/spikes/novnc/rfb_websocket_probe.py:170-193 | receiving a message neither loses nor reorders payload or pings, and its opcode is that of the first frame behind pings and pongs |
| WebSocketMessages.PullNeedsEnough | container/spikes/novnc/rfb_websocket_probe.py:195-221 | a read succeeds only across whole messages with control frames between them that hold enough data, and no more of it than fits the bound |
| WebSocketMessages.PullKeepsBound | container/spikes/novnc/rfb_websocket_probe.py:37-44 | what a read returns and what it leaves in the buffer are within the bound together |
| WebSocketMessages.EnoughIsPulled | container/spikes/novnc/rfb_websocket_probe.py:195-221 | and always succeeds where such messages lie ahead within the bound |
| WebSocketMessages.StopsAt | container/spikes/novnc/rfb_websocket_probe.py:195-221 | a read that still wants data crosses whole messages and stops at the first frame it cannot use, with the reason that frame gives |
| WebSocketMessages.ConformingReadIff | container/spikes/novnc/rfb_websocket_probe.py:195-221 | on every sequence conforming to sections 5.4 and 5.5 of RFC 6455, close frames included, a read succeeds if and only if some prefix of it is whole messages with control frames only between them and no close, with enough data in it and no more than fits the bound |
| WebSocketMessages.PingBetweenFragmentsIsRefused | container/spikes/novnc/rfb_websocket_probe.py:212-216 | the failing case: a ping between fragments, which section 5.4 of RFC 6455 allows, ends the probe's read |
| WebSocketMessages.StrayContinuationIsRead | container/spikes/novnc/rfb_websocket_probe.py:207-208 | a continuation with nothing to continue, which that section forbids, is read as data |
| StrictMessages.OneTextIsDelivered | scripts/container/test-phase3-websocket.py:177-216 | every text message within the bound, however fragmented and with any control frames between its fragments, is delivered as exactly the concatenated payload with every ping answered in order |
| StrictMessages.DeliveredIsOneText | scripts/container/test-phase3-websocket.py:177-216 | nothing else is delivered: a delivered message is the payload of exactly one text message |
| StrictMessages.NextFrameDecides | scripts/container/test-phase3-websocket.py:177-225 | what the next frame that is neither ping nor pong does: a close with no code or its two-byte code and reason, the message it completes, the objection to it, or a fragment that goes on |
| StrictMessages.ReceiveAfter | scripts/container/test-phase3-websocket.py:177-216 | a beginning of pings, pongs and fragments in order answers its pings in order and goes on with the message under way |
| StrictMessages.OpenAfterHolds | scripts/container/test-phase3-websocket.py:205-216 | the message under way is the concatenation of the fragments so far |
| StrictSocket.WebSocket.Recv | scripts/container/test-phase3-websocket.py:177-216 | imperative `recv`: whatever the chunking, it delivers, closes or objects as the frame-level account says, a timeout or unsent answer needs a fault, no fragment is left behind a delivered message, and exactly one pong per ping was sent in order |
| StrictSocket.WebSocket.RecvFrame | scripts/container/test-phase3-websocket.py:227-245 | the next canonically encoded frame of the byte stream, however it is chunked |
| StrictSocket.WebSocket.RecvHead | scripts/container/test-phase3-websocket.py:228-241 | the head of a frame in its only accepted form, with everything but the body decoded |
| StrictSocket.WebSocket.ReadExact | scripts/container/test-phase3-websocket.py:247-263 | the next bytes of the connection, however it is chunked |
| StrictSocket.WebSocket.SendFrame | scripts/container/test-phase3-websocket.py:162-175 | what is sent is the frame behind some mask, byte by byte as the frame format has it, in the shortest length form |
| Qualification.Qualifier.Qualify | scripts/container/qualify-phase6.py:1590-1797 | in every run, with an exception or interrupt at any step, every state the evidence directory passes through is honest; the run succeeds if and only if every lane is good and nothing is raised, and then file and certificate hold the passed lanes and the quick-start summary; a run that fails on a lane or in the guarded end, with its recording undisturbed, leaves `attempt.json` rejected for that lane with that exit behind the lanes that passed; a failed run leaves the certificate if and only if it was put in place and the removal in the handler raised before taking effect, or what failed was the release of the session lock |
| Qualification.Qualifier.UnderLock | scripts/container/qualify-phase6.py:1619-1797 | the same inside the session lock: it ends well if and only if every lane is good and nothing is raised in the guarded end, and what is on file afterwards in every case |
| Qualification.CertificateMayOutliveFailure | scripts/container/qualify-phase6.py:859-873 | both failing cases: all lanes passed, and the session lock cannot be released, or a second signal reaches the handler before its removal |
| Qualification.CertificateMeansAllLanesPassed | scripts/container/qualify-phase6.py:1740-1775 | an honest directory with a certificate: all seven lanes ran once each in table order with exit 0, a hashed log and an unchanged source, and the certificate carries the hash of the attempt then on disk |
| Qualification.FailedLaneReadsPassedIff | scripts/container/qualify-phase6.py:1682-1702 | in an honest directory the failed lane of a rejected attempt reads as passed if and only if it exited with 0 and has no log |
| Qualification.FailedLaneMayReadPassed | scripts/container/qualify-phase6.py:1682-1702 | that case exists in an honest directory |
| Qualification.Qualifier.RunLane | scripts/container/qualify-phase6.py:1633-1739 | one lane with its two exception handlers: the next lane is ready if and only if the plan is good for this one; a failure that is reported, with its recording undisturbed, is on file as this lane's rejection with its exit and log and raised as a qualification error or the interrupt; a signal between the guarded blocks leaves the file alone |
| Qualification.Qualifier.RecordLane | scripts/container/qualify-phase6.py:1670-1702 | the lane is recorded with its exit and log and goes on if and only if it exited with 0, left a log and no signal came behind the recording; without a signal the attempt is otherwise rejected, and undisturbed the rejection with this exit is on file, reading as passed exactly on exit 0; after a signal it is left to the handler |
| Qualification.Qualifier.AdmitLane | scripts/container/qualify-phase6.py:1703-1717 | the attempt is saved with the lane if and only if the summary, the source identity and the write are in order |
| Qualification.Qualifier.Certify | scripts/container/qualify-phase6.py:1741-1775 | the admitted attempt is on disk before the certificate that hashes it and carries the summary; it ends well if and only if there is a summary and nothing is raised; interrupted anywhere, the records in memory still fit the lanes |
| Qualification.Qualifier.Finish | scripts/container/qualify-phase6.py:1740-1797 | on any failure the certificate goes before the attempt is rejected; it stays if and only if it was put in place and the guarded end held or the removal raised before taking effect; the rejection of the last lane is on file when its recording was undisturbed, except after a signal while the dictionary was cleared, which leaves the attempt as passed |
| Qualification.Qualifier.RecordRunnerFailure | scripts/container/qualify-phase6.py:1461-1492 | a lane whose runner raised is rejected on file behind the lanes before it, with this exit and the log found, if and only if the recording is undisturbed |
| Qualification.Qualifier.RecordPostLaneFailure | scripts/container/qualify-phase6.py:1495-1534 | the lane's own record is amended, or added when there is none, keeping its log; the rejection is on file if and only if there is an attempt and the recording is undisturbed |
| Qualification.Qualifier.WriteAttempt | scripts/container/qualify-phase6.py:1162-1191 | an atomic replacement that raises before or after it leaves exactly the old or the new attempt, and an honest directory |
| Qualification.Qualifier.LinkCertificate | scripts/container/qualify-phase6.py:1162-1191 | an exclusive link that raises before or after it leaves exactly the old or the new certificate, never replaces one, and keeps the directory honest |
| Qualification.JudgedIsFaithful | scripts/container/qualify-phase6.py:1495-1534 | a record that is not passing, put down for a failed lane, makes a faithful rejected attempt: a prefix of the table, all attested but the last, which is the failed one |
| LaneOutput.Drain | scripts/container/qualify-phase6.py:1328-1364 | however output is split and writes are cut short, the log is a prefix of the output within the limit; a fault is reported if and only if there was one; without one the loop ends well if and only if the output fits, and otherwise keeps exactly the first bytes up to the limit |
| DependencyClosure.ValidateClosure | scripts/packages/verify-boundaries.py:187-254 | ends on every graph, cyclic ones included, and accepts if and only if every package reachable along dependency paths meets the known-node, licence, workspace, allowlist and canonical-root conditions and the reachable local names equal the allowlist |
| DependencyClosure.Inspect | scripts/packages/verify-boundaries.py:195-247 | the checks on one package accept exactly the allowed ones and yield exactly its dependencies; unknown, nodeless, nameless and BUSL-licensed packages are named as such |
| DependencyClosure.MentionsIff | scripts/packages/verify-boundaries.py:207-211 | a licence mentions a text exactly when it holds it somewhere |
| DependencyClosure.ExpectedRootsIff | scripts/packages/verify-boundaries.py:161-165 | a name is expected exactly where a boundary has it, and in the root of the last such boundary |
| DependencyClosure.ClosedSetHoldsReachable | scripts/packages/verify-boundaries.py:190-247 | a visited set closed under dependencies holds everything reachable |
| DependencyClosure.ValidateDependencyClosures | scripts/packages/verify-boundaries.py:130-257 | metadata is accepted if and only if its ids are unique and every boundary has exactly one root in its place with an allowed closure |
| DependencyClosure.FindRoot | scripts/packages/verify-boundaries.py:169-185 | finds the only workspace package of that name in its expected directory, or there is none |
| DependencyClosure.IndexPackages | scripts/packages/verify-boundaries.py:145-150 | indexing succeeds exactly on present, distinct ids and maps each to its package |
| DependencyClosure.IndexNodes | scripts/packages/verify-boundaries.py:152-159 | indexing succeeds exactly on present, distinct ids and maps each to its node |
| CursorQuery.ApiClient.CollectNamePrefix | scripts/container/test-phase5-atspi-live.py:1179-1351 | for every server: requests, transactions and pages stay within their budgets, each request continues the page before it or restarts because the response asked for that; while the clock allows, the query succeeds if and only if the transaction sent last is complete; names returned are those of one complete transaction of one generation and revision, all with the prefix, ascending, with pairwise distinct identities; and every failure is explained by the last response, by a budget it would have needed, or by the clock |
| CursorQuery.ApiClient.Transaction | scripts/container/test-phase5-atspi-live.py:1211-1350 | one transaction: every request counted, restarted only when the server asked for it with budget left, complete when it returns names, and every failure explained by what its last response still needed |
| CursorQuery.ApiClient.Ask | scripts/container/test-phase5-atspi-live.py:1220-1314 | one request: sent only within the budgets and in sequence, then an answer, a restart the response asked for by status, problem code, advice and header, or a failure explained by it |
| CursorQuery.ApiClient.TakePage | scripts/container/test-phase5-atspi-live.py:1316-1344 | a page is added to the transaction, or nothing could make these pages one transaction, or its continuation is unusable |
| CursorQuery.ApiClient.Advance | scripts/container/test-phase5-atspi-live.py:1211-1349 | one pass of the inner loop: a page further, finished, told to restart, or ended with an explained failure |
| CursorQuery.ApiClient.Accept | scripts/container/test-phase5-atspi-live.py:1316-1349 | what an accepted page leads to: the next cursor, the complete transaction, or a refusal of a page that had a continuation |
| CursorQuery.ExplainedIsIncomplete | scripts/container/test-phase5-atspi-live.py:1220-1349 | no failure but one by the clock is reported on a complete transaction |
| CursorQuery.RefusedPage | scripts/container/test-phase5-atspi-live.py:413-482 | a page refused behind accepted ones fits no transaction of any generation and revision with them |
| CursorQuery.OneMoreInSequence | scripts/container/test-phase5-atspi-live.py:1211-1349 | a request that continues the last page or restarts when asked keeps the sequence |
| CursorQuery.ApiClient.RequirePage | scripts/container/test-phase5-atspi-live.py:413-482 | a page is accepted if and only if its scope, transaction, bounds and every entry pass, and the running state is that of reading all entries in order |
| CursorQuery.ReadConcat | scripts/container/test-phase5-atspi-live.py:456-482 | reading page after page is reading the concatenated entries |
| CursorQuery.ReadIsOrderly | scripts/container/test-phase5-atspi-live.py:456-482 | entries read in full have one prefixed name each, in ascending order, and pairwise distinct identities |
| CursorQuery.CompleteIsOrderly | scripts/container/test-phase5-atspi-live.py:1320-1335 | a complete transaction's names are orderly and all its pages are of one transaction |
| CursorQuery.CompleteIff | scripts/container/test-phase5-atspi-live.py:413-482 | a complete transaction, spelled out: pages of this desktop and of one generation and revision, whole and within the bounds, each fetched with the cursor of the one before, the last without one, and all entries in good order |
| CursorQuery.OrderlyIsRead | scripts/container/test-phase5-atspi-live.py:456-482 | nothing in good order is refused |
| CursorQuery.PageIff | scripts/container/test-phase5-atspi-live.py:413-455 | a page's header and bounds are accepted if and only if each field is as asked for |
| CursorQuery.NotAfterIff | scripts/container/test-phase5-atspi-live.py:475-480 | the order of names is by the first character where they differ, a prefix before its extensions |
| CursorQuery.OneMoreRequest | scripts/container/test-phase5-atspi-live.py:1262-1268 | how one more request moves the transaction and page budgets |
| Uint64Text.DecodersAgree | scripts/conformance/validate.py:207-217 | the character tests and the regular expression decode every value alike for every minimum, and the reference agrees with minimum 0 or 1 |
| Uint64Text.DecodesExactlyCanonicalText | scripts/api/validate-docs.py:116-126 | a number is decoded exactly from its canonical decimal text, for all numbers from the minimum to 2^64-1, so printing gives the text back |
| Uint64Text.MatchesIffCanonical | scripts/container/test-phase5-atspi-live.py:152-158 | the regular expression matches exactly the canonical decimals of at most twenty digits |
| Uint64Text.CharactersIffCanonical | scripts/container/test-phase3-websocket.py:44-57 | the character tests accept exactly the canonical decimals, whatever counts as a digit outside ASCII |
| Uint64Text.PrintIsCanonical | scripts/conformance/validate.py:207-217 | printed numbers are canonical and read back as themselves |
| Uint64Text.CanonicalIsPrinted | scripts/conformance/validate.py:207-217 | a canonical text is what its number prints as |
| ArtifactStores.ArtifactStore.DescribeStaged | crates/xenoteer-artifacts/src/store.rs:419-445 | digest check, second time check and metadata: on success the staged record is the one described, on failure nothing changed |
| ArtifactStores.ArtifactStore.DescribeAndPublish | crates/xenoteer-artifacts/src/store.rs:419-475 | from a streamed body to its end: published as described, rolled back, or uncertain |
| ArtifactStores.ArtifactStore.PublishOrRollBack | crates/xenoteer-artifacts/src/store.rs:449-475 | a rename that never happened rolls the create back |
| ArtifactStores.ArtifactStore.Unpublish | crates/xenoteer-artifacts/src/store.rs:456-472 | a failed root sync: the entry is withdrawn and the create rolled back, or the charge is kept and durability reported uncertain |
| ArtifactStores.ArtifactStore.SyncWithdrawal | crates/xenoteer-artifacts/src/store.rs:464-471 | the second sync decides between a clean withdrawal and uncertain durability |
| ArtifactStores.ArtifactStore.RenameStaged | crates/xenoteer-artifacts/src/store.rs:453-454 | the staging directory becomes the record under the final name |
| ArtifactStores.ArtifactStore.WithdrawEntry | crates/xenoteer-artifacts/src/store.rs:457-463 | the renamed entry is gone and its removal not yet synced |
| ArtifactStores.ArtifactStore.CommitReservation | crates/xenoteer-artifacts/src/store.rs:734-744 | the reservation ends without giving its charge back |
| ArtifactStores.ArtifactStore.DropReservation | crates/xenoteer-artifacts/src/store.rs:746-759 | the reservation ends and its charge is given back |
| ArtifactStores.ArtifactStore.DropStaging | crates/xenoteer-artifacts/src/store.rs:851-858 | removal of the staging directory is attempted and its failure ignored |
| ArtifactStores.ArtifactStore.SweepTemporary | crates/xenoteer-artifacts/src/store.rs:961-973 | a temporary entry is removed exactly when no create owns it |
| ArtifactStores.ArtifactStore.SweepRecord | crates/xenoteer-artifacts/src/store.rs:982-990 | a record is removed exactly when expired and otherwise counted |
| ArtifactStores.ArtifactStore.AddReservations | crates/xenoteer-artifacts/src/store.rs:555-557 | every reservation in flight is added to the finished tally once |
| ArtifactStores.ArtifactStore.StopCleanup | crates/xenoteer-artifacts/src/store.rs:549-560 | an error ends the pass as the machine says: reservations and ledger untouched, and the record whose removal failed either still there or gone with its charge kept |
| ArtifactStores.ArtifactStore.VisitNext | crates/xenoteer-artifacts/src/store.rs:951-990 | one more entry is visited, whichever it is; what it removed and what is left add up |
| ArtifactStores.ArtifactStore.SyncAndFinish | crates/xenoteer-artifacts/src/store.rs:549-560 | with everything visited the cleanup ends exactly without a fault in the sync, and otherwise stops with the ledger object untouched |
| ArtifactStores.ArtifactStore.Casualty | crates/xenoteer-artifacts/src/store.rs:982-988 | a failed removal may take an expired, still unvisited record with it, and no other |
| StoreAccounting.AdmitAccounting | crates/xenoteer-artifacts/src/store.rs:394-411 | the ledger equation, and the running tally of a cleanup, survive admission |
| StoreAccounting.RestageAccounting | crates/xenoteer-artifacts/src/store.rs:413-445 | the ledger equation, and the running tally of a cleanup, survive writing into the staging directory |
| StoreAccounting.AbandonAccounting | crates/xenoteer-artifacts/src/store.rs:851-858 | the ledger equation, and the running tally of a cleanup, survive giving the staging directory up |
| StoreAccounting.ReleaseAccounting | crates/xenoteer-artifacts/src/store.rs:746-759 | the ledger equation, and the running tally of a cleanup, survive releasing the reservation |
| StoreAccounting.RenameAccounting | crates/xenoteer-artifacts/src/store.rs:453-454 | the ledger equation, and the running tally of a cleanup, survive the rename |
| StoreAccounting.CommitAccounting | crates/xenoteer-artifacts/src/store.rs:474-475 | the ledger equation, and the running tally of a cleanup, survive the commit |
| StoreAccounting.KeepAccounting | crates/xenoteer-artifacts/src/store.rs:457-463 | the ledger equation, and the running tally of a cleanup, survive keeping the charge of an entry that could not be withdrawn |
| StoreAccounting.WithdrawAccounting | crates/xenoteer-artifacts/src/store.rs:456-463 | the ledger equation, and the running tally of a cleanup, survive withdrawing the entry |
| StoreAccounting.WithdrawUncertainAccounting | crates/xenoteer-artifacts/src/store.rs:464-470 | the ledger equation, and the running tally of a cleanup, survive a second sync that fails |
| StoreAccounting.WithdrawDoneAccounting | crates/xenoteer-artifacts/src/store.rs:464-471 | the ledger equation, and the running tally of a cleanup, survive a second sync that succeeds |
| StoreAccounting.VanishAccounting | crates/xenoteer-artifacts/src/store.rs:616-623 | the ledger equation, and the running tally of a cleanup, survive a record that goes before the ledger is told |
| StoreAccounting.RemovedAccounting | crates/xenoteer-artifacts/src/store.rs:616-623 | the ledger equation, and the running tally of a cleanup, survive the sync and the ledger after a removal |
| StoreAccounting.CleanStartAccounting | crates/xenoteer-artifacts/src/store.rs:549-554 | the ledger equation, and the running tally of a cleanup, survive starting a cleanup |
| StoreAccounting.CleanTemporaryAccounting | crates/xenoteer-artifacts/src/store.rs:961-973 | the ledger equation, and the running tally of a cleanup, survive visiting a temporary entry |
| StoreAccounting.CleanExpiredAccounting | crates/xenoteer-artifacts/src/store.rs:982-988 | the ledger equation, and the running tally of a cleanup, survive removing an expired record |
| StoreAccounting.CleanCountedAccounting | crates/xenoteer-artifacts/src/store.rs:988-990 | the ledger equation, and the running tally of a cleanup, survive counting an unexpired record |
| StoreAccounting.CleanStopAccounting | crates/xenoteer-artifacts/src/store.rs:943-996 | the ledger equation, and the running tally of a cleanup, survive an error during the pass |
| StoreAccounting.CleanEndAccounting | crates/xenoteer-artifacts/src/store.rs:549-560 | the ledger equation, and the running tally of a cleanup, survive replacing the ledger |
| StoreInvariant.AdmitShape | crates/xenoteer-artifacts/src/store.rs:394-411 | creates, reservations, staging directories, final names and complete records still agree after admission |
| StoreInvariant.RefuseShape | crates/xenoteer-artifacts/src/store.rs:394-411 | creates, reservations, staging directories, final names and complete records still agree after a refused admission |
| StoreInvariant.WriteShape | crates/xenoteer-artifacts/src/store.rs:413-418 | creates, reservations, staging directories, final names and complete records still agree after a write of the stream |
| StoreInvariant.FinishShape | crates/xenoteer-artifacts/src/store.rs:419-445 | creates, reservations, staging directories, final names and complete records still agree after describing the record |
| StoreInvariant.AbandonShape | crates/xenoteer-artifacts/src/store.rs:851-858 | creates, reservations, staging directories, final names and complete records still agree after giving the staging directory up |
| StoreInvariant.ReleaseShape | crates/xenoteer-artifacts/src/store.rs:746-759 | creates, reservations, staging directories, final names and complete records still agree after releasing the reservation |
| StoreInvariant.RenameShape | crates/xenoteer-artifacts/src/store.rs:453-454 | creates, reservations, staging directories, final names and complete records still agree after the rename |
| StoreInvariant.CommitShape | crates/xenoteer-artifacts/src/store.rs:474-475 | creates, reservations, staging directories, final names and complete records still agree after the commit |
| StoreInvariant.KeepShape | crates/xenoteer-artifacts/src/store.rs:457-463 | creates, reservations, staging directories, final names and complete records still agree after keeping an entry that could not be withdrawn |
| StoreInvariant.WithdrawShape | crates/xenoteer-artifacts/src/store.rs:456-463 | creates, reservations, staging directories, final names and complete records still agree after withdrawing the entry |
| StoreInvariant.WithdrawUncertainShape | crates/xenoteer-artifacts/src/store.rs:464-470 | creates, reservations, staging directories, final names and complete records still agree after a second sync that fails |
| StoreInvariant.WithdrawDoneShape | crates/xenoteer-artifacts/src/store.rs:464-471 | creates, reservations, staging directories, final names and complete records still agree after a second sync that succeeds |
| StoreInvariant.VanishShape | crates/xenoteer-artifacts/src/store.rs:616-623 | creates, reservations, staging directories, final names and complete records still agree after the loss of a record |
| StoreInvariant.RemovedShape | crates/xenoteer-artifacts/src/store.rs:616-623 | creates, reservations, staging directories, final names and complete records still agree after the end of a removal |
| StoreInvariant.CleanStartShape | crates/xenoteer-artifacts/src/store.rs:549-554 | creates, reservations, staging directories, final names and complete records still agree after starting a cleanup |
| StoreInvariant.CleanTemporaryShape | crates/xenoteer-artifacts/src/store.rs:961-973 | creates, reservations, staging directories, final names and complete records still agree after visiting a temporary entry |
| StoreInvariant.CleanRecordShape | crates/xenoteer-artifacts/src/store.rs:982-990 | creates, reservations, staging directories, final names and complete records still agree after visiting a record |
| StoreInvariant.CleanStopShape | crates/xenoteer-artifacts/src/store.rs:943-996 | creates, reservations, staging directories, final names and complete records still agree after an error during the pass |
| StoreInvariant.CleanEndShape | crates/xenoteer-artifacts/src/store.rs:549-560 | creates, reservations, staging directories, final names and complete records still agree after the end of a cleanup |
| StorePublication.StepTracks | crates/xenoteer-artifacts/src/store.rs:413-445 | one step of anybody adds to a create's body exactly what its own stream writes |
| StorePublication.StepMoves | crates/xenoteer-artifacts/src/store.rs:413-475 | whoever takes a step, a create's own record changes only by its own writes and along its phases |
| StorePublication.FinishCarries | crates/xenoteer-artifacts/src/store.rs:428-445 | the described record has the request's fields, the time of description and the digest of the streamed bytes |
| StorePublication.CommitPublishes | crates/xenoteer-artifacts/src/store.rs:449-475 | committing leaves that record synced under its final name with the reservation gone |
| ProbeSocket.WebSocket.RecvLength | container/spikes/novnc/rfb_websocket_probe.py:139-143 | the length field is read in whichever form it has |
| ProbeSocket.WebSocket.RecvBody | container/spikes/novnc/rfb_websocket_probe.py:146-150 | the payload is unmasked exactly when a mask was announced |
| ProbeSocket.WebSocket.Answer | container/spikes/novnc/rfb_websocket_probe.py:202-204 | one more pong, with the ping's payload, behind those already sent |
| StrictSocket.WebSocket.ReadStrictLength | scripts/container/test-phase3-websocket.py:233-241 | a length field is accepted exactly in its shortest form and below 2^63 |
| StrictSocket.WebSocket.Answer | scripts/container/test-phase3-websocket.py:191-193 | one more pong, with the ping's payload, behind those already sent |
| StrictSocket.WebSocket.DecodeJson | scripts/container/test-phase3-websocket.py:218-225 | a complete payload is delivered or refused for size or content |
| StrictSocket.WebSocket.DecodeClose | scripts/container/test-phase3-websocket.py:181-190 | a close carries no code, or a code and a decodable reason |
| Qualification.Qualifier.CallRunner | scripts/container/qualify-phase6.py:1636-1648 | the runner is called at most once for the lane, after the lock where the table asks for it, and its result stands exactly when lock, runner and release did not raise |
| Qualification.Qualifier.JudgeLane | scripts/container/qualify-phase6.py:1670-1717 | the guarded part ends with the next lane ready if and only if the lane exited with 0 and has a log, no signal came, and summary where due, source identity and saving are in order; otherwise the attempt is rejected or still to be judged |
| Qualification.Qualifier.WriteRejection | scripts/container/qualify-phase6.py:1411-1421 | the attempt is rejected in memory first; undisturbed, the file holds exactly this rejection, and what reaches the disk is faithful in any case |
| Qualification.Qualifier.RemoveCertificate | scripts/container/qualify-phase6.py:1776-1777 | whatever is raised, the certificate is unchanged if it came before the removal and gone otherwise, and the directory stays honest |
| Qualification.CallKeepsHonest | scripts/container/qualify-phase6.py:1646-1648 | calling the next lane's runner keeps every written claim true |
| LaneOutput.LogFile.WriteAll | scripts/container/qualify-phase6.py:1355-1358 | partial writes add up to the whole chunk, or to a prefix exactly when one fails |
| DependencyClosure.ValidateBoundary | scripts/packages/verify-boundaries.py:168-255 | a boundary is accepted if and only if it has its one root in place and an allowed closure |
| DependencyClosure.ProgressDone | scripts/packages/verify-boundaries.py:249-254 | with an empty worklist the visited packages are exactly the reachable ones and the names found exactly theirs |
| DependencyClosure.VisitKeepsProgress | scripts/packages/verify-boundaries.py:190-247 | visiting a package keeps everything visited reachable and allowed, with its dependencies visited or pending |
| CursorQuery.PagesGrow | scripts/container/test-phase5-atspi-live.py:1320-1332 | a page fetched with the previous page's cursor extends the transaction |

## Left out

- Ownership, mode, inode, symbolic-link and `flock` checks of the store and the runners: each is one
  nondeterministic failure of the step that performs it.
- SHA-256, JSON and UUID generation: functions or values given from outside. JSON documents are values,
  and the size of `metadata.json` is a parameter.
- Crash points inside the removal of a directory: a removal is one step, because the code removes in
  place and makes no promise there.
- Staging directories whose removal failed after a rollback: they stay until the next cleanup and are
  not charged, as in the code.
- Clocks, deadlines and sleeps: a time is a parameter and a timeout may happen at any wait.
- ArtifactStores.ArtifactStore.Create: requires that the ceilings leave no room to overflow, because what
  an overflowing addition does depends on the build profile. The machine results take any valid ceilings
  and are about runs in which no addition overflows.
- ArtifactStores.OpenStore: requires that the records of a root add up to at most `u64::MAX`.
- StoreLives.CrashAndReopen: asks the same of a root left by a power loss while an unsynced removal was off
  the ledger; every other root is proved to be in that range.
- StoreLives.CrashSafety: all processes of a history are given the same limits.
- `probe`, the default limits and the root marker of the store: the probe changes nothing, limits are a
  parameter, and the marker is skipped by every pass.
- The HTTP upgrade of both WebSocket clients, and the RFB protocol carried by the probe.
- A peer that never stops sending: the bytes a connection will deliver are finite, however many.
- State after a failed receive: both clients give up the connection, so nothing is claimed about their
  buffers then, except that the probe's RFB buffer stays within its bound.
- Image and source inspection, locks and process handling of the qualification run: outcomes in its plan.
  Its dictionaries are values; the list shared by the attempt and its admitted copy is only changed after
  both were written.
- The boundary table of the package check is a parameter; the two public crates are one instance of it.
- Extraction of an accessibility entry's identity and name, and the warnings check of a page: parameters
  of the cursor query.
- Coordinator, leases, command ledger, event hub, accessibility cache and window model: other crates,
  not part of this model.
- Documentation validators, CI contracts, SDK and browser drivers: string matching and I/O around the
  programs modelled here, which none of the properties depends on.
