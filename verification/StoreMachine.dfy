/**
 The artifact store as a state machine (`ArtifactStore` in store.rs).

 Any number of creates are in flight at once.  One event is one step of one thread between
 two points at which another thread may run: admission, one write of the body stream, the
 rename, each directory sync, each entry a cleanup visits, each half of a rollback.  Every
 I/O step may fail, and the event says how.  The state mutex is held for a whole cleanup,
 so a rollback cannot release its reservation while one is in progress.
 */
module StoreMachine {
  import opened Wrappers
  import opened Quota
  import opened DigestText
  import opened ArtifactTypes

  /** How far one create has come; it holds its reservation in every phase. */
  datatype Phase =
    | Streaming    // the body is being copied into the staging directory
    | Described    // body and metadata are written and synced
    | Renamed      // under its final name, the root directory not yet synced
    | Withdrawn    // removed again after the root could not be synced
    | Abandoned    // the staging directory has been given up

  /** A create in flight, with the contents of its staging directory. */
  datatype Flight = Flight(request: ArtifactCreate, staged: Entry, phase: Phase)

  /** A record that is gone from the root but still on the books. */
  datatype Phantom = Phantom(id: Uuid, entry: Entry, unsynced: bool)

  /** Who holds the operation lock. */
  datatype Holder =
    | Free
    | Publishing(id: Uuid)
    | Removing
    | Cleaning(now: Millis, todo: set<Uuid>, temporaries: set<Uuid>, tally: Ledger, changed: bool)

  datatype Store = Store(
    limits: Limits,
    hash: seq<byte> -> Digest,
    usage: Ledger,
    active: map<Uuid, Charge>,      // reservations, by staging identifier
    flights: map<Uuid, Flight>,     // the creates holding them
    durable: map<Uuid, Entry>,      // root/<id>
    temporary: map<Uuid, Entry>,    // root/.tmp-<id>
    recent: set<Uuid>,               // final names added since the root was last synced
    phantoms: seq<Phantom>,         // charged, no longer in the root
    stray: seq<Phantom>,            // not charged, but a crash may bring them back
    holder: Holder)

  function ChargeOf(entry: Entry): Charge {
    if entry.metadata.Some? && entry.metadata.value.Json? then
      Charge(entry.metadata.value.artifact.owner, entry.metadata.value.artifact.size)
    else Charge("", 0)
  }

  function ExpiresAt(entry: Entry): Millis {
    if entry.metadata.Some? && entry.metadata.value.Json?
    then entry.metadata.value.artifact.expiresAt else 0
  }

  const NO_BODY: Entry := Entry(Some([]), None)

  datatype Removal = Removal(id: Uuid, scope: Scope, now: Millis, delete: bool)

  datatype Event =
    | Admit(id: Uuid, request: ArtifactCreate, now: Millis)
    | Refuse(id: Uuid, leftover: bool)
    | Write(id: Uuid, chunk: seq<byte>)
    | Finish(id: Uuid, now: Millis, length: nat)
    | Rename(id: Uuid)
    | Commit(id: Uuid)                              // root synced
    | Keep(id: Uuid, vanished: bool)                // root not synced, removal failed
    | Withdraw(id: Uuid)                            // root not synced, entry removed
    | WithdrawUncertain(id: Uuid)                   // second sync failed
    | WithdrawDone(id: Uuid)                        // second sync succeeded
    | Abandon(id: Uuid, left: Option<Entry>)
    | Release(id: Uuid)
    | Remove(removal: Removal)
    | RemoveFailed(removal: Removal, vanished: bool)
    | Removed(synced: bool)
    | CleanStart(now: Millis)
    | CleanTemporary(id: Uuid)
    | CleanRecord(id: Uuid)
    | CleanStop(gone: Option<Uuid>)
    | CleanEnd

  // ------------------------------------------------------------ guards

  predicate InPhase(s: Store, id: Uuid, phase: Phase) {
    id in s.flights && s.flights[id].phase == phase
  }

  function Body(s: Store, id: Uuid): seq<byte>
    requires id in s.flights
  {
    if s.flights[id].staged.body.Some? then s.flights[id].staged.body.value else []
  }

  // ------------------------------------------------------------ admission, staging, rollback

  predicate CanAdmit(s: Store, id: Uuid, request: ArtifactCreate, now: Millis) {
    && s.holder.Free?
    && request.Validate().Success?
    && ValidateTimeAndSize(request, s.limits, now).Success?
    && id !in s.temporary
    && id !in s.active
    && Reserve(s.usage, request.Charge(), s.limits).Reserved?
  }

  function DoAdmit(s: Store, id: Uuid, request: ArtifactCreate, now: Millis): Store
    requires CanAdmit(s, id, request, now)
  {
    s.(usage := Reserve(s.usage, request.Charge(), s.limits).ledger,
       active := s.active[id := request.Charge()],
       flights := s.flights[id := Flight(request, NO_BODY, Streaming)],
       temporary := s.temporary[id := NO_BODY])
  }

  /** A failed admission reserves nothing; at worst its empty staging directory stays behind. */
  predicate CanRefuse(s: Store, id: Uuid, leftover: bool) {
    s.holder.Free? && (leftover ==> id !in s.temporary)
  }

  function DoRefuse(s: Store, id: Uuid, leftover: bool): Store {
    if leftover then s.(temporary := s.temporary[id := Entry(None, None)]) else s
  }

  /** New contents of a staging directory. */
  function Restage(s: Store, id: Uuid, entry: Entry, phase: Phase): Store
    requires id in s.flights
  {
    s.(flights := s.flights[id := s.flights[id].(staged := entry, phase := phase)],
       temporary := s.temporary[id := entry])
  }

  predicate CanWrite(s: Store, id: Uuid, chunk: seq<byte>) {
    InPhase(s, id, Streaming) && |Body(s, id)| + |chunk| <= s.flights[id].request.expectedSize
  }

  function DoWrite(s: Store, id: Uuid, chunk: seq<byte>): Store
    requires CanWrite(s, id, chunk)
  {
    Restage(s, id, Entry(Some(Body(s, id) + chunk), None), Streaming)
  }

  predicate CanFinish(s: Store, id: Uuid, now: Millis, length: nat) {
    && InPhase(s, id, Streaming)
    && var request := s.flights[id].request;
       && |Body(s, id)| == request.expectedSize
       && (request.expectedSha256.None? || request.expectedSha256.value == s.hash(Body(s, id)))
       && ValidateTimeAndSize(request, s.limits, now).Success?
       && length <= MAX_METADATA_BYTES
  }

  function DoFinish(s: Store, id: Uuid, now: Millis, length: nat): Store
    requires CanFinish(s, id, now, length)
  {
    var metadata := Describe(s.flights[id].request, id, now, s.hash(Body(s, id)));
    Restage(s, id, StagedEntry(metadata, Body(s, id), length), Described)
  }

  predicate CanAbandon(s: Store, id: Uuid) {
    InPhase(s, id, Streaming) || InPhase(s, id, Described)
  }

  /** `TemporaryDirectory::drop`: removal is attempted, and may leave anything behind. */
  function DoAbandon(s: Store, id: Uuid, left: Option<Entry>): Store
    requires CanAbandon(s, id)
  {
    s.(flights := s.flights[id := s.flights[id].(phase := Abandoned)],
       temporary := if left.Some? then s.temporary[id := left.value] else s.temporary - {id})
  }

  predicate CanRelease(s: Store, id: Uuid) {
    !s.holder.Cleaning? && InPhase(s, id, Abandoned) && id in s.active
  }

  /** `Reservation::drop` without a commit. */
  function DoRelease(s: Store, id: Uuid): Store
    requires CanRelease(s, id)
  {
    s.(usage := Quota.Remove(s.usage, s.active[id]),
       active := s.active - {id},
       flights := s.flights - {id})
  }

  // ------------------------------------------------------------ directory syncs

  function MarkSynced(phantoms: seq<Phantom>): seq<Phantom> {
    seq(|phantoms|, i requires 0 <= i < |phantoms| => phantoms[i].(unsynced := false))
  }

  function Unsynced(phantoms: seq<Phantom>): seq<Phantom> {
    if phantoms == [] then []
    else Unsynced(phantoms[..|phantoms| - 1])
         + (if phantoms[|phantoms| - 1].unsynced then [phantoms[|phantoms| - 1]] else [])
  }

  /** A successful sync of the root directory. */
  function Synced(s: Store): Store {
    s.(recent := {}, phantoms := MarkSynced(s.phantoms), stray := [])
  }

  /** The record under a final name disappears; its charge stays on the books. */
  function Vanish(s: Store, id: Uuid): Store
    requires id in s.durable
  {
    s.(durable := s.durable - {id},
       recent := s.recent - {id},
       phantoms := s.phantoms + [Phantom(id, s.durable[id], true)])
  }

  // ------------------------------------------------------------ publication

  predicate CanRename(s: Store, id: Uuid) {
    s.holder.Free? && InPhase(s, id, Described) && id !in s.durable
  }

  function DoRename(s: Store, id: Uuid): Store
    requires CanRename(s, id)
  {
    s.(flights := s.flights[id := s.flights[id].(phase := Renamed)],
       durable := s.durable[id := s.flights[id].staged],
       temporary := s.temporary - {id},
       recent := s.recent + {id},
       holder := Publishing(id))
  }

  predicate IsPublishing(s: Store, id: Uuid, phase: Phase) {
    s.holder == Publishing(id) && InPhase(s, id, phase)
  }

  /** `Reservation::commit`: the create ends and leaves its charge behind. */
  function Unregister(s: Store, id: Uuid): Store {
    s.(active := s.active - {id}, flights := s.flights - {id}, holder := Free)
  }

  function DoKeep(s: Store, id: Uuid, vanished: bool): Store {
    Unregister(if vanished && id in s.durable then Vanish(s, id) else s, id)
  }

  function DoWithdraw(s: Store, id: Uuid): Store
    requires IsPublishing(s, id, Renamed)
  {
    s.(flights := s.flights[id := s.flights[id].(phase := Withdrawn)],
       durable := s.durable - {id},
       recent := s.recent - {id})
  }

  function DoWithdrawUncertain(s: Store, id: Uuid): Store
    requires IsPublishing(s, id, Withdrawn)
  {
    Unregister(s.(phantoms := s.phantoms + [Phantom(id, s.flights[id].staged, true)]), id)
  }

  function DoWithdrawDone(s: Store, id: Uuid): Store
    requires IsPublishing(s, id, Withdrawn)
  {
    Synced(s.(flights := s.flights[id := s.flights[id].(phase := Abandoned)], holder := Free))
  }

  // ------------------------------------------------------------ removal

  /** A lookup in the right scope that goes on to remove: a delete, or an open after expiry. */
  predicate CanRemove(s: Store, r: Removal) {
    && s.holder.Free?
    && r.id in s.durable
    && Load(s.durable[r.id], r.id).Success?
    && r.scope.Matches(Load(s.durable[r.id], r.id).value.0)
    && (r.delete || ExpiresAt(s.durable[r.id]) <= r.now)
  }

  function DoRemove(s: Store, id: Uuid): Store
    requires id in s.durable
  {
    Vanish(s, id).(holder := Removing)
  }

  function DoRemoved(s: Store, synced: bool): Store
    requires s.phantoms != []
  {
    if !synced then s.(holder := Free)
    else
      var last := s.phantoms[|s.phantoms| - 1];
      Synced(s.(usage := Quota.Remove(s.usage, ChargeOf(last.entry)),
                phantoms := s.phantoms[..|s.phantoms| - 1],
                holder := Free))
  }

  // ------------------------------------------------------------ cleanup

  function DoCleanStart(s: Store, now: Millis): Store {
    s.(holder := Cleaning(now, s.durable.Keys, s.temporary.Keys, EMPTY, false))
  }

  predicate CanCleanTemporary(s: Store, id: Uuid) {
    s.holder.Cleaning? && id in s.holder.temporaries
  }

  function DoCleanTemporary(s: Store, id: Uuid): Store
    requires CanCleanTemporary(s, id)
  {
    var h := s.holder.(temporaries := s.holder.temporaries - {id});
    if id in s.active then s.(holder := h)
    else s.(temporary := s.temporary - {id}, holder := h.(changed := true))
  }

  predicate CanCleanRecord(s: Store, id: Uuid) {
    && s.holder.Cleaning? && id in s.holder.todo && id in s.durable
    && Load(s.durable[id], id).Success?
  }

  function DoCleanRecord(s: Store, id: Uuid): Store
    requires CanCleanRecord(s, id)
  {
    var h := s.holder.(todo := s.holder.todo - {id});
    if ExpiresAt(s.durable[id]) <= h.now then Vanish(s, id).(holder := h.(changed := true))
    else s.(holder := h.(tally := AddExisting(h.tally, ChargeOf(s.durable[id]))))
  }

  /** An error ends the pass early; the entry it happened on may be gone. */
  predicate CanCleanStop(s: Store, gone: Option<Uuid>) {
    && s.holder.Cleaning?
    && (gone.Some? ==> && gone.value in s.holder.todo && gone.value in s.durable
                       && ExpiresAt(s.durable[gone.value]) <= s.holder.now)
  }

  function DoCleanStop(s: Store, gone: Option<Uuid>): Store
    requires CanCleanStop(s, gone)
  {
    (if gone.Some? then Vanish(s, gone.value) else s).(holder := Free)
  }

  predicate CanCleanEnd(s: Store) {
    s.holder.Cleaning? && s.holder.todo == {} && s.holder.temporaries == {}
  }

  /** `add_existing` for every reservation, in some order. */
  ghost function AddAll(u: Ledger, charges: map<Uuid, Charge>): Ledger
    decreases |charges|
  {
    if charges == map[] then u
    else
      var id :| id in charges;
      AddAll(AddExisting(u, charges[id]), charges - {id})
  }

  ghost function DoCleanEnd(s: Store): Store
    requires CanCleanEnd(s)
  {
    var swept := if s.holder.changed then Synced(s) else s;
    swept.(
      usage := AddAll(s.holder.tally, s.active),
      phantoms := [],
      stray := swept.stray + Unsynced(swept.phantoms),
      holder := Free)
  }

  // ------------------------------------------------------------ steps

  predicate Enabled(s: Store, e: Event) {
    match e
    case Admit(id, request, now) => CanAdmit(s, id, request, now)
    case Refuse(id, leftover) => CanRefuse(s, id, leftover)
    case Write(id, chunk) => CanWrite(s, id, chunk)
    case Finish(id, now, length) => CanFinish(s, id, now, length)
    case Rename(id) => CanRename(s, id)
    case Commit(id) => IsPublishing(s, id, Renamed)
    case Keep(id, _) => IsPublishing(s, id, Renamed)
    case Withdraw(id) => IsPublishing(s, id, Renamed)
    case WithdrawUncertain(id) => IsPublishing(s, id, Withdrawn)
    case WithdrawDone(id) => IsPublishing(s, id, Withdrawn)
    case Abandon(id, _) => CanAbandon(s, id)
    case Release(id) => CanRelease(s, id)
    case Remove(r) => CanRemove(s, r)
    case RemoveFailed(r, _) => CanRemove(s, r)
    case Removed(_) => s.holder.Removing? && s.phantoms != []
    case CleanStart(_) => s.holder.Free?
    case CleanTemporary(id) => CanCleanTemporary(s, id)
    case CleanRecord(id) => CanCleanRecord(s, id)
    case CleanStop(gone) => CanCleanStop(s, gone)
    case CleanEnd => CanCleanEnd(s)
  }

  ghost function Apply(s: Store, e: Event): Store
    requires Enabled(s, e)
  {
    match e
    case Admit(id, request, now) => DoAdmit(s, id, request, now)
    case Refuse(id, leftover) => DoRefuse(s, id, leftover)
    case Write(id, chunk) => DoWrite(s, id, chunk)
    case Finish(id, now, length) => DoFinish(s, id, now, length)
    case Rename(id) => DoRename(s, id)
    case Commit(id) => Unregister(Synced(s), id)
    case Keep(id, vanished) => DoKeep(s, id, vanished)
    case Withdraw(id) => DoWithdraw(s, id)
    case WithdrawUncertain(id) => DoWithdrawUncertain(s, id)
    case WithdrawDone(id) => DoWithdrawDone(s, id)
    case Abandon(id, left) => DoAbandon(s, id, left)
    case Release(id) => DoRelease(s, id)
    case Remove(r) => DoRemove(s, r.id)
    case RemoveFailed(r, vanished) => if vanished then Vanish(s, r.id) else s
    case Removed(synced) => DoRemoved(s, synced)
    case CleanStart(now) => DoCleanStart(s, now)
    case CleanTemporary(id) => DoCleanTemporary(s, id)
    case CleanRecord(id) => DoCleanRecord(s, id)
    case CleanStop(gone) => DoCleanStop(s, gone)
    case CleanEnd => DoCleanEnd(s)
  }

  // ------------------------------------------------------------ runs

  ghost predicate Runs(s: Store, events: seq<Event>)
    decreases |events|
  {
    events == [] || (Enabled(s, events[0]) && Runs(Apply(s, events[0]), events[1..]))
  }

  ghost function After(s: Store, events: seq<Event>): Store
    requires Runs(s, events)
    decreases |events|
  {
    if events == [] then s else After(Apply(s, events[0]), events[1..])
  }
}
