/** What every step of the artifact store keeps. */
module StoreInvariant {
  import opened Wrappers
  import opened Quota
  import opened DigestText
  import opened ArtifactTypes
  import opened StoreMachine

  // ------------------------------------------------------------ what the books should say

  function Charges(entries: map<Uuid, Entry>): map<Uuid, Charge> {
    map id | id in entries :: ChargeOf(entries[id])
  }

  predicate IsRenamed(flights: map<Uuid, Flight>, id: Uuid) {
    id in flights && flights[id].phase == Renamed
  }

  /** Reservations of creates that are not yet under their final name. */
  function Inflight(s: Store): map<Uuid, Charge> {
    map id | id in s.active && !IsRenamed(s.flights, id) :: s.active[id]
  }

  function PhantomTotal(phantoms: seq<Phantom>, q: Query): nat {
    if phantoms == [] then 0
    else PhantomTotal(phantoms[..|phantoms| - 1], q)
         + Weight(ChargeOf(phantoms[|phantoms| - 1].entry), q)
  }

  /** The records in the root plus the creates in flight, added up from scratch. */
  ghost function Held(s: Store, q: Query): nat {
    Total(Charges(s.durable), q) + Total(Inflight(s), q)
  }

  // ------------------------------------------------------------ the invariant

  function Find<V>(m: map<Uuid, V>, id: Uuid): Option<V> {
    if id in m then Some(m[id]) else None
  }

  /** A staged record ready for publication under its own identifier and charge. */
  ghost predicate StagedOk(hash: seq<byte> -> Digest, id: Uuid, f: Flight) {
    Complete(hash, f.staged, id) && ChargeOf(f.staged) == f.request.Charge()
  }

  /** One create against its reservation, its staging directory and its final name. */
  ghost predicate Consistent(hash: seq<byte> -> Digest, id: Uuid, f: Flight, charge: Option<Charge>,
                             staging: Option<Entry>, final: Option<Entry>, publishing: bool) {
    && f.request.Validate().Success?
    && 1 <= f.request.expectedSize <= MAX_RECORD_BYTES
    && charge == Some(f.request.Charge())
    && (f.phase == Streaming || f.phase == Described ==> staging == Some(f.staged))
    && (f.phase == Streaming ==>
          && f.staged.body.Some? && f.staged.metadata.None?
          && |f.staged.body.value| <= f.request.expectedSize)
    && (f.phase == Renamed || f.phase == Withdrawn ==> publishing)
    && (f.phase == Renamed ==> final == Some(f.staged))
    && (f.phase == Described || f.phase == Renamed || f.phase == Withdrawn ==> StagedOk(hash, id, f))
  }

  ghost predicate FlightOk(s: Store, id: Uuid)
    requires id in s.flights
  {
    Consistent(s.hash, id, s.flights[id], Find(s.active, id), Find(s.temporary, id),
               Find(s.durable, id), s.holder == Publishing(id))
  }

  ghost predicate AllComplete(s: Store, phantoms: seq<Phantom>) {
    forall i :: 0 <= i < |phantoms| ==> Complete(s.hash, phantoms[i].entry, phantoms[i].id)
  }

  ghost predicate HolderOk(s: Store) {
    match s.holder
    case Free => true
    case Publishing(id) => InPhase(s, id, Renamed) || InPhase(s, id, Withdrawn)
    case Removing => s.phantoms != []
    case Cleaning(now, todo, temporaries, _, _) =>
      && todo <= s.durable.Keys
      && (forall id :: id in s.durable && id !in todo ==> now < ExpiresAt(s.durable[id]))
      && (forall id :: id in s.temporary && id !in temporaries ==> id in s.active)
  }

  ghost predicate Shape(s: Store) {
    && s.limits.Valid()
    && s.active.Keys == s.flights.Keys
    && (forall id :: id in s.flights ==> FlightOk(s, id))
    && (forall id :: id in s.durable ==> Complete(s.hash, s.durable[id], id))
    && AllComplete(s, s.phantoms) && AllComplete(s, s.stray)
    && s.recent <= s.durable.Keys
    && HolderOk(s)
  }

  ghost predicate Sound(u: Ledger) {
    u.Pruned() && Balanced(u) && forall q :: u.At(q) <= U64_MAX
  }

  ghost predicate Accounting(s: Store) {
    && Sound(s.usage)
    && (forall q :: s.usage.At(q) == Held(s, q) + PhantomTotal(s.phantoms, q))
    && (s.holder.Cleaning? ==>
          && Sound(s.holder.tally)
          && forall q :: s.holder.tally.At(q) == Total(Charges(s.durable - s.holder.todo), q))
  }

  ghost predicate Inv(s: Store) {
    Shape(s) && Accounting(s)
  }

  // ------------------------------------------------------------ every step keeps the shape

  lemma AdmitShape(s: Store, id: Uuid, request: ArtifactCreate, now: Millis)
    requires Shape(s) && CanAdmit(s, id, request, now)
    ensures Shape(DoAdmit(s, id, request, now))
  {
    hide ValidateCommon;
    hide Complete;
    var t := DoAdmit(s, id, request, now);
    forall k | k in t.flights ensures FlightOk(t, k) {
      if k != id { assert FlightOk(s, k); }
    }
  }

  lemma RefuseShape(s: Store, id: Uuid, leftover: bool)
    requires Shape(s) && CanRefuse(s, id, leftover)
    ensures Shape(DoRefuse(s, id, leftover))
  {
    hide ValidateCommon;
    hide Complete;
    var t := DoRefuse(s, id, leftover);
    forall k | k in t.flights ensures FlightOk(t, k) {
      assert FlightOk(s, k);
    }
  }

  lemma WriteShape(s: Store, id: Uuid, chunk: seq<byte>)
    requires Shape(s) && CanWrite(s, id, chunk)
    ensures Shape(DoWrite(s, id, chunk))
  {
    hide ValidateCommon;
    hide Complete;
    var t := DoWrite(s, id, chunk);
    forall k | k in t.flights ensures FlightOk(t, k) {
      assert FlightOk(s, k);
    }
  }

  lemma FinishFlight(s: Store, id: Uuid, now: Millis, length: nat, k: Uuid)
    requires CanFinish(s, id, now, length)
    requires k in DoFinish(s, id, now, length).flights && k in s.flights && FlightOk(s, k)
    ensures FlightOk(DoFinish(s, id, now, length), k)
  {
    hide ValidateCommon;
    hide Complete;
    if k == id {
      StagedLoads(s.hash, s.flights[id].request, s.limits, id, now, Body(s, id), length);
    }
  }

  lemma FinishShape(s: Store, id: Uuid, now: Millis, length: nat)
    requires Shape(s) && CanFinish(s, id, now, length)
    ensures Shape(DoFinish(s, id, now, length))
  {
    hide ValidateCommon;
    hide Complete;
    hide FlightOk;
    hide ValidateTimeAndSize;
    assert id in s.active;
    var t := DoFinish(s, id, now, length);
    forall k | k in t.flights ensures FlightOk(t, k) {
      FinishFlight(s, id, now, length, k);
    }
  }

  lemma AbandonFlight(s: Store, id: Uuid, left: Option<Entry>, k: Uuid)
    requires CanAbandon(s, id) && k in s.flights && FlightOk(s, k)
    ensures FlightOk(DoAbandon(s, id, left), k)
  {
    hide ValidateCommon;
    hide StagedOk;
  }

  lemma AbandonShape(s: Store, id: Uuid, left: Option<Entry>)
    requires Shape(s) && CanAbandon(s, id)
    ensures Shape(DoAbandon(s, id, left))
  {
    hide ValidateCommon;
    hide Complete;
    hide FlightOk;
    var t := DoAbandon(s, id, left);
    assert id in s.active;
    forall k | k in t.flights ensures FlightOk(t, k) {
      AbandonFlight(s, id, left, k);
    }
  }

  lemma ReleaseShape(s: Store, id: Uuid)
    requires Shape(s) && CanRelease(s, id)
    ensures Shape(DoRelease(s, id))
  {
    hide ValidateCommon;
    hide Complete;
    var t := DoRelease(s, id);
    forall k | k in t.flights ensures FlightOk(t, k) {
      assert FlightOk(s, k);
    }
  }

  lemma DescribedIsComplete(s: Store, id: Uuid)
    requires id in s.flights && FlightOk(s, id) && s.flights[id].phase == Described
    ensures Complete(s.hash, s.flights[id].staged, id)
  {
    hide Complete;
  }

  lemma RenameFlight(s: Store, id: Uuid, k: Uuid)
    requires CanRename(s, id)
    requires k in DoRename(s, id).flights && k in s.flights && FlightOk(s, k)
    ensures FlightOk(DoRename(s, id), k)
  {
    hide ValidateCommon;
    hide Complete;
  }

  lemma RenameShape(s: Store, id: Uuid)
    requires Shape(s) && CanRename(s, id)
    ensures Shape(DoRename(s, id))
  {
    hide ValidateCommon;
    hide Complete;
    hide FlightOk;
    DescribedIsComplete(s, id);
    var t := DoRename(s, id);
    forall k | k in t.flights ensures FlightOk(t, k) {
      RenameFlight(s, id, k);
    }
  }

  lemma CommitFlight(s: Store, id: Uuid, k: Uuid)
    requires IsPublishing(s, id, Renamed)
    requires k in Unregister(Synced(s), id).flights && k in s.flights && FlightOk(s, k)
    ensures FlightOk(Unregister(Synced(s), id), k)
  {
    hide ValidateCommon;
    hide StagedOk;
  }

  lemma CommitShape(s: Store, id: Uuid)
    requires Shape(s) && IsPublishing(s, id, Renamed)
    ensures Shape(Unregister(Synced(s), id))
  {
    hide ValidateCommon;
    hide Complete;
    hide FlightOk;
    var t := Unregister(Synced(s), id);
    forall k | k in t.flights ensures FlightOk(t, k) {
      CommitFlight(s, id, k);
    }
  }

  lemma KeepShape(s: Store, id: Uuid, vanished: bool)
    requires Shape(s) && IsPublishing(s, id, Renamed)
    ensures Shape(DoKeep(s, id, vanished))
  {
    hide ValidateCommon;
    hide Complete;
    var t := DoKeep(s, id, vanished);
    forall k | k in t.flights ensures FlightOk(t, k) {
      assert FlightOk(s, k);
    }
  }

  lemma WithdrawShape(s: Store, id: Uuid)
    requires Shape(s) && IsPublishing(s, id, Renamed)
    ensures Shape(DoWithdraw(s, id))
  {
    hide ValidateCommon;
    hide Complete;
    var t := DoWithdraw(s, id);
    forall k | k in t.flights ensures FlightOk(t, k) {
      assert FlightOk(s, k);
    }
  }

  lemma WithdrawUncertainShape(s: Store, id: Uuid)
    requires Shape(s) && IsPublishing(s, id, Withdrawn)
    ensures Shape(DoWithdrawUncertain(s, id))
  {
    hide ValidateCommon;
    hide Complete;
    var t := DoWithdrawUncertain(s, id);
    forall k | k in t.flights ensures FlightOk(t, k) {
      assert FlightOk(s, k);
    }
  }

  lemma WithdrawDoneShape(s: Store, id: Uuid)
    requires Shape(s) && IsPublishing(s, id, Withdrawn)
    ensures Shape(DoWithdrawDone(s, id))
  {
    hide ValidateCommon;
    hide Complete;
    var t := DoWithdrawDone(s, id);
    forall k | k in t.flights ensures FlightOk(t, k) {
      assert FlightOk(s, k);
    }
  }

  lemma VanishShape(s: Store, id: Uuid, holder: Holder)
    requires Shape(s) && id in s.durable && s.holder.Free? && (holder.Free? || holder.Removing?)
    ensures Shape(Vanish(s, id).(holder := holder))
  {
    hide ValidateCommon;
    hide Complete;
    var t := Vanish(s, id).(holder := holder);
    forall k | k in t.flights ensures FlightOk(t, k) {
      assert FlightOk(s, k);
    }
  }

  lemma RemovedShape(s: Store, synced: bool)
    requires Shape(s) && s.holder.Removing?
    ensures Shape(DoRemoved(s, synced))
  {
    hide ValidateCommon;
    hide Complete;
    var t := DoRemoved(s, synced);
    forall k | k in t.flights ensures FlightOk(t, k) {
      assert FlightOk(s, k);
    }
  }

  lemma CleanStartShape(s: Store, now: Millis)
    requires Shape(s) && s.holder.Free?
    ensures Shape(DoCleanStart(s, now))
  {
    hide ValidateCommon;
    hide Complete;
    var t := DoCleanStart(s, now);
    forall k | k in t.flights ensures FlightOk(t, k) {
      assert FlightOk(s, k);
    }
  }

  lemma CleanTemporaryShape(s: Store, id: Uuid)
    requires Shape(s) && CanCleanTemporary(s, id)
    ensures Shape(DoCleanTemporary(s, id))
  {
    hide ValidateCommon;
    hide Complete;
    var t := DoCleanTemporary(s, id);
    forall k | k in t.flights ensures FlightOk(t, k) {
      assert FlightOk(s, k);
    }
  }

  lemma CleanRecordFlight(s: Store, id: Uuid, k: Uuid)
    requires CanCleanRecord(s, id)
    requires k in DoCleanRecord(s, id).flights && k in s.flights && FlightOk(s, k)
    ensures FlightOk(DoCleanRecord(s, id), k)
  {
    hide ValidateCommon;
    hide StagedOk;
  }

  lemma CleanRecordShape(s: Store, id: Uuid)
    requires Shape(s) && CanCleanRecord(s, id)
    ensures Shape(DoCleanRecord(s, id))
  {
    hide ValidateCommon;
    hide Complete;
    hide FlightOk;
    var t := DoCleanRecord(s, id);
    forall k | k in t.flights ensures FlightOk(t, k) {
      CleanRecordFlight(s, id, k);
    }
  }

  lemma CleanStopShape(s: Store, gone: Option<Uuid>)
    requires Shape(s) && CanCleanStop(s, gone)
    ensures Shape(DoCleanStop(s, gone))
  {
    hide ValidateCommon;
    hide Complete;
    var t := DoCleanStop(s, gone);
    forall k | k in t.flights ensures FlightOk(t, k) {
      assert FlightOk(s, k);
    }
  }

  lemma {:induction false} UnsyncedComplete(s: Store, phantoms: seq<Phantom>)
    requires AllComplete(s, phantoms)
    ensures AllComplete(s, Unsynced(phantoms))
  {
    hide Complete;
    if phantoms != [] {
      UnsyncedComplete(s, phantoms[..|phantoms| - 1]);
    }
  }

  lemma CleanEndShape(s: Store)
    requires Shape(s) && CanCleanEnd(s)
    ensures Shape(DoCleanEnd(s))
  {
    hide ValidateCommon;
    hide Complete;
    var t := DoCleanEnd(s);
    UnsyncedComplete(s, s.phantoms);
    UnsyncedComplete(s, MarkSynced(s.phantoms));
    forall k | k in t.flights ensures FlightOk(t, k) {
      assert FlightOk(s, k);
    }
  }
}
