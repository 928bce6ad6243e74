/**
 The store as the object its callers use (`ArtifactStore` in store.rs).

 Each method works on the store's fields step by step, any I/O step may fail, and each method
 is proved to be a run of the state machine, so that everything shown of runs holds of it.
 */
module ArtifactStores {
  import opened Wrappers
  import opened Quota
  import opened UsageLedger
  import opened DigestText
  import opened ArtifactTypes
  import opened BoundedCopy
  import opened FaultInjection
  import opened ScopeIsolation
  import opened StoreMachine
  import opened StoreInvariant
  import opened StoreAccounting
  import opened StoreSafety
  import opened StoreCrash
  import opened StoreReopen
  import opened StoreOverflow
  import opened AdmissionRules
  import opened QuotaOverflow

  lemma OneStep(s: Store, e: Event)
    requires Enabled(s, e)
    ensures Runs(s, [e]) && After(s, [e]) == Apply(s, e)
  {
    hide Enabled;
    hide Apply;
    assert [e][1..] == [] && Runs(Apply(s, e), []);
  }

  /** A run continued by one more step. */
  lemma Then(s: Store, events: seq<Event>, e: Event)
    requires Runs(s, events) && Enabled(After(s, events), e)
    ensures Runs(s, events + [e]) && After(s, events + [e]) == Apply(After(s, events), e)
  {
    hide Enabled;
    hide Apply;
    OneStep(After(s, events), e);
    RunsConcat(s, events, [e]);
  }

  class ArtifactStore {
    const limits: Limits
    const hash: seq<byte> -> Digest
    const io: Faults
    var usage: Usage
    var active: map<Uuid, Charge>
    var durable: map<Uuid, Entry>
    var temporary: map<Uuid, Entry>
    ghost var flights: map<Uuid, Flight>
    ghost var recent: set<Uuid>
    ghost var phantoms: seq<Phantom>
    ghost var stray: seq<Phantom>
    ghost var holder: Holder

    /**
     A store over a reconciled root: the entries left there, their total usage, and what no sync
     has followed.
     */
    constructor (limits: Limits, hash: seq<byte> -> Digest, io: Faults, records: map<Uuid, Entry>,
                 staging: map<Uuid, Entry>, usage: Usage, ghost recent: set<Uuid>, ghost removals: seq<Phantom>)
      ensures this.limits == limits && this.hash == hash && this.io == io && this.usage == usage
      ensures durable == records && active == map[] && temporary == staging && flights == map[]
      ensures this.recent == recent && phantoms == [] && stray == removals && holder == Free
    {
      this.limits, this.hash, this.io, this.usage := limits, hash, io, usage;
      active, durable, temporary := map[], records, staging;
      flights, this.recent, phantoms, stray, holder := map[], recent, [], removals, Free;
    }

    ghost function State(): Store
      reads this, usage
    {
      Store(limits, hash, usage.Model(), active, flights, durable, temporary, recent, phantoms,
            stray, holder)
    }

    /** The store between operations of its caller. */
    ghost predicate Valid()
      reads this, usage
    {
      Inv(State()) && holder.Free?
    }

    // ---------------------------------------------------------- steps of the file system

    /** A successful sync of the root directory. */
    ghost method NoteSync()
      modifies this`recent, this`phantoms, this`stray
      ensures State() == Synced(old(State()))
    {
      recent, phantoms, stray := {}, MarkSynced(phantoms), [];
    }

    /** An entry under a final name is gone. */
    method RemoveEntry(id: Uuid)
      requires id in durable
      modifies this`durable, this`recent, this`phantoms
      ensures State() == Vanish(old(State()), id)
    {
      phantoms := phantoms + [Phantom(id, durable[id], true)];
      recent := recent - {id};
      durable := durable - {id};
    }

    // ---------------------------------------------------------- rollback

    /** `TemporaryDirectory::drop`: removal is attempted and its failure ignored. */
    method DropStaging(id: Uuid) returns (ghost left: Option<Entry>)
      requires CanAbandon(State(), id)
      modifies this`temporary, this`flights, io
      ensures io.count >= old(io.count)
      ensures State() == DoAbandon(old(State()), id, left)
    {
      var failed := io.Trips();
      left := if failed then Some(NO_BODY) else None;
      temporary := if failed then temporary[id := NO_BODY] else temporary - {id};
      flights := flights[id := flights[id].(phase := Abandoned)];
    }

    /** `Reservation::drop`. */
    method DropReservation(id: Uuid)
      requires CanRelease(State(), id)
      modifies this`active, this`flights, usage
      ensures State() == DoRelease(old(State()), id)
    {
      usage.Remove(active[id].owner, active[id].bytes);
      active := active - {id};
      flights := flights - {id};
    }

    /** `StagedArtifact::drop`: the staging directory goes first, then the reservation. */
    method Rollback(id: Uuid) returns (ghost trace: seq<Event>)
      requires holder.Free? && id in active && CanAbandon(State(), id)
      modifies this`temporary, this`active, this`flights, usage, io
      ensures io.count >= old(io.count)
      ensures Runs(old(State()), trace) && State() == After(old(State()), trace)
      ensures active == old(active) - {id} && flights == old(flights) - {id}
      ensures usage.Model() == Quota.Remove(old(usage.Model()), old(active[id]))
      ensures forall e :: e in trace ==> e.Abandon? || e.Release?
    {
      ghost var s := State();
      ghost var left := DropStaging(id);
      ghost var t := State();
      DropReservation(id);
      RollbackRun(s, t, State(), id, left);
      trace := [Abandon(id, left), Release(id)];
    }

    // ---------------------------------------------------------- create

    /** Best-effort removal of a staging directory that never got a reservation. */
    method Discard(id: Uuid) returns (ghost leftover: bool)
      requires id in temporary && temporary[id] == Entry(None, None)
      modifies this`temporary, io
      ensures io.count >= old(io.count)
      ensures temporary == if leftover then old(temporary) else old(temporary) - {id}
    {
      var failed := io.Trips();
      leftover := failed;
      if !failed {
        temporary := temporary - {id};
      }
    }

    /** `reserve`: quota and registration of the staging identifier, or no change. */
    method ReserveFor(request: ArtifactCreate, id: Uuid) returns (r: Result<(), StoreError>)
      requires limits.Valid() && usage.Model().Pruned()
      requires !Reserve(usage.Model(), request.Charge(), limits).Overflow?
      modifies this`active, usage
      ensures r.Success? ==>
        && id !in old(active) && active == old(active)[id := request.Charge()]
        && Reserve(old(usage.Model()), request.Charge(), limits) == Reserved(usage.Model())
      ensures r.Failure? ==> active == old(active) && usage.Model() == old(usage.Model())
      ensures r.Success? <==>
        id !in old(active) && Reserve(old(usage.Model()), request.Charge(), limits).Reserved?
      ensures r == Failure(StoreError.StoreQuotaExceeded) <==>
        id !in old(active) && Reserve(old(usage.Model()), request.Charge(), limits).StoreQuota?
      ensures r == Failure(StoreError.OwnerQuotaExceeded) <==>
        id !in old(active) && Reserve(old(usage.Model()), request.Charge(), limits).OwnerQuota?
      ensures r.Failure? ==> r.error in {Io, StoreError.StoreQuotaExceeded, StoreError.OwnerQuotaExceeded}
    {
      if id in active {
        return Failure(Io);
      }
      ReserveExact(usage.Model(), request.Charge(), limits);
      var reserved := usage.Reserve(request.owner, request.expectedSize, limits);
      if reserved.Failure? {
        return Failure(if reserved.error.StoreQuotaExceeded? then StoreError.StoreQuotaExceeded
                       else StoreError.OwnerQuotaExceeded);
      }
      active := active[id := request.Charge()];
      return Success(());
    }

    /** The admission section: directory, body file and reservation, or nothing reserved. */
    method Admission(request: ArtifactCreate, id: Uuid, now: Millis)
      returns (r: Result<(), StoreError>, ghost leftover: bool)
      requires holder.Free? && limits.Valid() && usage.Model().Pruned()
      requires !Reserve(usage.Model(), request.Charge(), limits).Overflow?
      requires request.Validate().Success? && ValidateTimeAndSize(request, limits, now).Success?
      modifies this`temporary, this`active, this`flights, usage, io
      ensures io.count >= old(io.count)
      ensures io.count == old(io.count) ==> (r.Success? <==> CanAdmit(old(State()), id, request, now))
      ensures r.Success? ==>
        CanAdmit(old(State()), id, request, now) && State() == DoAdmit(old(State()), id, request, now)
      ensures r.Failure? ==> r.error in {Io, StoreError.StoreQuotaExceeded, StoreError.OwnerQuotaExceeded}
      ensures r.Failure? ==>
        CanRefuse(old(State()), id, leftover) && State() == DoRefuse(old(State()), id, leftover)
    {
      hide ValidateCommon;
      hide ValidateTimeAndSize;
      hide Reserve;
      ghost var before := temporary;
      leftover := false;
      var fault := io.Trips();
      if fault || id in temporary {
        return Failure(Io), false;
      }
      temporary := temporary[id := Entry(None, None)];
      fault := io.Trips();
      if fault {
        leftover := Discard(id);
        assert before[id := Entry(None, None)] - {id} == before;
        return Failure(Io), leftover;
      }
      r := ReserveFor(request, id);
      if r.Failure? {
        leftover := Discard(id);
        assert before[id := Entry(None, None)] - {id} == before;
        return r, leftover;
      }
      flights := flights[id := Flight(request, NO_BODY, Streaming)];
      temporary := temporary[id := NO_BODY];
      assert temporary == before[id := NO_BODY];
    }

    /** The body stream, copied without the operation lock into the staging directory. */
    method StreamBody(id: Uuid, request: ArtifactCreate, source: Reader)
      returns (r: Result<Digest, StoreError>, ghost chunk: seq<byte>)
      requires InPhase(State(), id, Streaming) && Body(State(), id) == []
      requires flights[id].request == request
      modifies this`temporary, this`flights, source, io
      ensures io.count >= old(io.count) && source.faults >= old(source.faults)
      ensures io.count == old(io.count) && source.faults == old(source.faults) ==>
        (r.Success? <==>
           request.expectedSize <= limits.maxObjectBytes && |old(source.remaining)| == request.expectedSize)
      ensures CanWrite(old(State()), id, chunk) && State() == DoWrite(old(State()), id, chunk)
      ensures id in flights && flights[id] == Flight(request, Entry(Some(chunk), None), Streaming)
      ensures id in temporary && temporary[id] == flights[id].staged
      ensures chunk <= old(source.remaining)
      ensures r.Success? ==> chunk == old(source.remaining) && r.value == hash(chunk)
      ensures r.Success? ==> |chunk| == request.expectedSize
      ensures r.Failure? ==> r.error in {TooLarge, Io, SizeMismatch}
      ensures r == Failure(SizeMismatch) ==> |old(source.remaining)| != request.expectedSize
    {
      var destination := new Writer();
      r := CopyBounded(source, destination, request.expectedSize, limits.maxObjectBytes, hash);
      chunk := destination.written;
      io.count := io.count + destination.faults;
      temporary := temporary[id := Entry(Some(destination.written), None)];
      flights := flights[id := flights[id].(staged := Entry(Some(chunk), None))];
      assert [] + chunk == chunk;
    }

    /** Digest check, second time check and `write_metadata`; a failure leaves the body only. */
    method DescribeStaged(id: Uuid, request: ArtifactCreate, digest: Digest, publishedAt: Millis, length: nat)
      returns (r: Result<ArtifactMetadata, StoreError>)
      requires InPhase(State(), id, Streaming) && flights[id].request == request
      requires id in temporary && temporary[id] == flights[id].staged
      requires |Body(State(), id)| == request.expectedSize && digest == hash(Body(State(), id))
      requires temporary[id].body.Some?
      modifies this`temporary, this`flights, io
      ensures io.count >= old(io.count)
      ensures io.count == old(io.count) ==> (r.Success? <==> CanFinish(old(State()), id, publishedAt, length))
      ensures r.Success? ==>
        && CanFinish(old(State()), id, publishedAt, length)
        && State() == DoFinish(old(State()), id, publishedAt, length)
        && r.value == Describe(request, id, publishedAt, digest)
      ensures r.Failure? ==> State() == old(State()) && !r.error.DurabilityUncertain?
      ensures r == Failure(DigestMismatch) ==> request.expectedSha256.Some? && request.expectedSha256.value != digest
      ensures r.Failure? ==> r.error !in {SizeMismatch, NotFound}
    {
      if request.expectedSha256.Some? && request.expectedSha256.value != digest {
        return Failure(DigestMismatch);
      }
      var fault := io.Trips();
      if fault {
        return Failure(Io);
      }
      ValidateTimeAndSizeIff(request, limits, publishedAt);
      var checked := ValidateTimeAndSize(request, limits, publishedAt);
      if checked.Failure? {
        return Failure(checked.error);
      }
      var metadata := Describe(request, id, publishedAt, digest);
      var text := Display(digest);
      if length > MAX_METADATA_BYTES {
        return Failure(CorruptArtifact(id, MetadataTooLarge));
      }
      var file := Json(METADATA_FORMAT_VERSION, metadata.With(text), length);
      var staged := Entry(temporary[id].body, Some(file));
      temporary := temporary[id := staged];
      flights := flights[id := flights[id].(staged := staged, phase := Described)];
      return Success(metadata);
    }

    // ---------------------------------------------------------- publication

    method RenameStaged(id: Uuid)
      requires CanRename(State(), id) && id in temporary && temporary[id] == flights[id].staged
      modifies this`durable, this`temporary, this`flights, this`recent, this`holder
      ensures State() == DoRename(old(State()), id)
    {
      durable := durable[id := temporary[id]];
      temporary := temporary - {id};
      flights := flights[id := flights[id].(phase := Renamed)];
      recent := recent + {id};
      holder := Publishing(id);
    }

    /** `Reservation::commit`, and the operation lock released. */
    method CommitReservation(id: Uuid)
      modifies this`active, this`flights, this`holder
      ensures State() == Unregister(old(State()), id)
    {
      active := active - {id};
      flights := flights - {id};
      holder := Free;
    }

    method WithdrawEntry(id: Uuid)
      requires IsPublishing(State(), id, Renamed)
      modifies this`durable, this`flights, this`recent
      ensures State() == DoWithdraw(old(State()), id)
    {
      durable := durable - {id};
      recent := recent - {id};
      flights := flights[id := flights[id].(phase := Withdrawn)];
    }

    /** The second sync after a withdrawal. */
    method SyncWithdrawal(id: Uuid) returns (outcome: Publication, ghost trace: seq<Event>)
      requires IsPublishing(State(), id, Withdrawn) && id in active
      modifies this, usage, io
      ensures io.count >= old(io.count)
      ensures usage == old(usage)
      ensures Runs(old(State()), trace) && State() == After(old(State()), trace)
      ensures holder.Free? && durable == old(durable)
      ensures active == old(active) - {id} && flights == old(flights) - {id}
      ensures outcome == Uncertain || outcome == TakenBack
      ensures outcome.Uncertain? ==> usage.Model() == old(usage.Model()) && temporary == old(temporary)
      ensures outcome.TakenBack? ==>
        usage.Model() == Quota.Remove(old(usage.Model()), old(active[id]))
    {
      ghost var s := State();
      var unsynced := io.Trips();
      if unsynced {
        phantoms := phantoms + [Phantom(id, flights[id].staged, true)];
        CommitReservation(id);
        UncertainRun(s, State(), id);
        return Uncertain, [WithdrawUncertain(id)];
      }
      flights := flights[id := flights[id].(phase := Abandoned)];
      holder := Free;
      NoteSync();
      ghost var done := State();
      DropReservation(id);
      TakenBackRun(s, done, State(), id);
      return TakenBack, [WithdrawDone(id), Release(id)];
    }

    /** What happens when the root cannot be synced after the rename. */
    method Unpublish(id: Uuid) returns (outcome: Publication, ghost trace: seq<Event>)
      requires IsPublishing(State(), id, Renamed) && id in active && id in durable
      modifies this, usage, io
      ensures io.count >= old(io.count)
      ensures usage == old(usage)
      ensures Runs(old(State()), trace) && State() == After(old(State()), trace)
      ensures holder.Free?
      ensures active == old(active) - {id} && flights == old(flights) - {id}
      ensures outcome == Uncertain || outcome == TakenBack
      ensures outcome.Uncertain? ==> usage.Model() == old(usage.Model())
      ensures outcome.TakenBack? ==>
        && durable == old(durable) - {id}
        && usage.Model() == Quota.Remove(old(usage.Model()), old(active[id]))
    {
      ghost var s := State();
      var failed := io.Trips();
      if failed {
        var vanished: bool := *;
        if vanished {
          RemoveEntry(id);
        }
        CommitReservation(id);
        KeptRun(s, State(), id, vanished);
        return Uncertain, [Keep(id, vanished)];
      }
      WithdrawEntry(id);
      ghost var withdrawn, rest := State(), [];
      outcome, rest := SyncWithdrawal(id);
      WithdrawnRun(s, withdrawn, rest, id);
      trace := [Withdraw(id)] + rest;
    }

    /** The publication section, under the operation lock. */
    method Publish(id: Uuid) returns (outcome: Publication, ghost trace: seq<Event>)
      requires holder.Free? && InPhase(State(), id, Described) && id in active
      requires id in temporary && temporary[id] == flights[id].staged
      modifies this, usage, io
      ensures io.count >= old(io.count)
      ensures usage == old(usage)
      ensures Runs(old(State()), trace) && State() == After(old(State()), trace)
      ensures io.count == old(io.count) ==> outcome == if id in old(durable) then NotRenamed else Published
      ensures holder.Free?
      ensures outcome.NotRenamed? ==> State() == old(State())
      ensures !outcome.NotRenamed? ==> active == old(active) - {id} && flights == old(flights) - {id}
      ensures outcome.Published? ==>
        id !in old(durable) && State() == Unregister(Synced(DoRename(old(State()), id)), id)
      ensures outcome.Uncertain? ==> usage.Model() == old(usage.Model())
      ensures outcome.TakenBack? ==>
        durable == old(durable) && usage.Model() == Quota.Remove(old(usage.Model()), old(active[id]))
    {
      ghost var s := State();
      var fault := io.Trips();
      if fault || id in durable {
        return NotRenamed, [];
      }
      RenameStaged(id);
      ghost var renamed, rest := State(), [];
      var unsynced := io.Trips();
      if !unsynced {
        NoteSync();
        CommitReservation(id);
        PublishedRun(s, renamed, State(), id);
        return Published, [Rename(id), Commit(id)];
      }
      assert renamed.durable - {id} == s.durable;
      outcome, rest := Unpublish(id);
      RenamedRun(s, renamed, rest, id);
      trace := [Rename(id)] + rest;
    }

    /** Publication of a described record, with the rollback when the rename never happened. */
    method PublishOrRollBack(id: Uuid) returns (outcome: Publication, ghost trace: seq<Event>)
      requires holder.Free? && InPhase(State(), id, Described) && id in active
      requires id in temporary && temporary[id] == flights[id].staged
      modifies this, usage, io
      ensures io.count >= old(io.count)
      ensures usage == old(usage) && holder.Free?
      ensures io.count == old(io.count) ==> (outcome.Published? <==> id !in old(durable))
      ensures Runs(old(State()), trace) && State() == After(old(State()), trace)
      ensures active == old(active) - {id} && flights == old(flights) - {id}
      ensures outcome.Published? ==>
        id !in old(durable) && State() == Unregister(Synced(DoRename(old(State()), id)), id)
      ensures outcome.Uncertain? ==> usage.Model() == old(usage.Model())
      ensures outcome.NotRenamed? || outcome.TakenBack? ==>
        durable == old(durable) && usage.Model() == Quota.Remove(old(usage.Model()), old(active[id]))
    {
      outcome, trace := Publish(id);
      if outcome.NotRenamed? {
        trace := Rollback(id);
      }
    }

    /** The end of a create whose body has been streamed in full. */
    method DescribeAndPublish(id: Uuid, request: ArtifactCreate, digest: Digest, publishedAt: Millis, length: nat)
      returns (r: Result<ArtifactMetadata, StoreError>, ghost trace: seq<Event>)
      requires holder.Free? && id in active && InPhase(State(), id, Streaming)
      requires flights[id].request == request && flights[id].staged.body.Some?
      requires id in temporary && temporary[id] == flights[id].staged
      requires |Body(State(), id)| == request.expectedSize && digest == hash(Body(State(), id))
      modifies this, usage, io
      ensures io.count >= old(io.count)
      ensures usage == old(usage) && holder.Free?
      ensures io.count == old(io.count) ==>
        (r.Success? <==> CanFinish(old(State()), id, publishedAt, length) && id !in old(durable))
      ensures Runs(old(State()), trace) && State() == After(old(State()), trace)
      ensures active == old(active) - {id} && flights == old(flights) - {id}
      ensures r.Success? ==>
        && CanFinish(old(State()), id, publishedAt, length)
        && r.value == Describe(request, id, publishedAt, digest)
        && id !in old(durable) && recent == {}
        && durable == old(durable)[id := StagedEntry(r.value, old(Body(State(), id)), length)]
      ensures r.Success? ==> usage.Model() == old(usage.Model()) && temporary == old(temporary) - {id}
      ensures r.Failure? && r.error.DurabilityUncertain? ==>
        r.error.artifactId == id && usage.Model() == old(usage.Model())
      ensures r == Failure(DigestMismatch) ==> request.expectedSha256.Some? && request.expectedSha256.value != digest
      ensures r.Failure? ==> r.error !in {SizeMismatch, NotFound}
      ensures r.Failure? && !r.error.DurabilityUncertain? ==>
        durable == old(durable) && usage.Model() == Quota.Remove(old(usage.Model()), old(active[id]))
    {
      ghost var s, rest := State(), [];
      r := DescribeStaged(id, request, digest, publishedAt, length);
      if r.Failure? {
        trace := Rollback(id);
        return;
      }
      FinishRun(s, State(), id, publishedAt, length);
      var outcome;
      outcome, rest := PublishOrRollBack(id);
      RunsConcat(s, [Finish(id, publishedAt, length)], rest);
      trace := [Finish(id, publishedAt, length)] + rest;
      if outcome.Uncertain? {
        r := Failure(DurabilityUncertain(id));
      } else if !outcome.Published? {
        r := Failure(Io);
      }
    }

    /** What an admitted create needs of its body, its metadata and the time it is published. */
    ghost predicate Streamable(request: ArtifactCreate, body: seq<byte>, publishedAt: Millis, length: nat) {
      && |body| == request.expectedSize
      && (request.expectedSha256.None? || request.expectedSha256.value == hash(body))
      && Timely(request, limits, publishedAt)
      && length <= 0x1_0000
    }

    /** Everything after admission: stream, describe, publish, or roll back. */
    method StageAndPublish(id: Uuid, request: ArtifactCreate, body: Reader, publishedAt: Millis, length: nat)
      returns (r: Result<ArtifactMetadata, StoreError>, ghost trace: seq<Event>)
      requires holder.Free? && id in active && id in temporary && temporary[id] == NO_BODY
      requires id in flights && flights[id] == Flight(request, NO_BODY, Streaming)
      modifies this, usage, body, io
      ensures io.count >= old(io.count) && body.faults >= old(body.faults)
      ensures io.count == old(io.count) && body.faults == old(body.faults) ==>
        (r.Success? <==> Streamable(request, old(body.remaining), publishedAt, length) && id !in old(durable))
      ensures usage == old(usage) && holder.Free?
      ensures Runs(old(State()), trace) && State() == After(old(State()), trace)
      ensures active == old(active) - {id} && flights == old(flights) - {id}
      ensures r.Success? ==>
        && |old(body.remaining)| == request.expectedSize && length <= MAX_METADATA_BYTES
        && ValidateTimeAndSize(request, limits, publishedAt).Success?
        && r.value == Describe(request, id, publishedAt, hash(old(body.remaining)))
        && id !in old(durable) && recent == {}
        && durable == old(durable)[id := StagedEntry(r.value, old(body.remaining), length)]
      ensures r.Success? ==> usage.Model() == old(usage.Model()) && temporary == old(temporary) - {id}
      ensures r.Failure? && r.error.DurabilityUncertain? ==>
        r.error.artifactId == id && usage.Model() == old(usage.Model())
      ensures r == Failure(SizeMismatch) ==> |old(body.remaining)| != request.expectedSize
      ensures r == Failure(DigestMismatch) ==>
        request.expectedSha256.Some? && request.expectedSha256.value != hash(old(body.remaining))
      ensures r.Failure? && !r.error.DurabilityUncertain? ==>
        durable == old(durable) && usage.Model() == Quota.Remove(old(usage.Model()), old(active[id]))
    {
      ghost var s, rest := State(), [];
      ValidateTimeAndSizeIff(request, limits, publishedAt);
      hide ValidateTimeAndSize, Timely;
      var digest;
      ghost var chunk;
      digest, chunk := StreamBody(id, request, body);
      WriteRun(s, State(), id, chunk);
      if digest.Failure? {
        r := Failure(digest.error);
        rest := Rollback(id);
      } else {
        assert Body(State(), id) == chunk;
        r, rest := DescribeAndPublish(id, request, digest.value, publishedAt, length);
      }
      RunsConcat(s, [Write(id, chunk)], rest);
      trace := [Write(id, chunk)] + rest;
      assert flights == s.flights - {id};
    }

    /** `create` behind its first checks: admission, then everything after it. */
    method CreateChecked(
      request: ArtifactCreate, body: Reader, id: Uuid, admittedAt: Millis, publishedAt: Millis, length: nat)
      returns (r: Result<ArtifactMetadata, StoreError>, ghost trace: seq<Event>)
      requires Valid() && !Reserve(usage.Model(), request.Charge(), limits).Overflow?
      requires request.Validate().Success? && ValidateTimeAndSize(request, limits, admittedAt).Success?
      modifies this, usage, body, io
      ensures io.count == old(io.count) && body.faults == old(body.faults) ==>
        (r.Success? <==>
           && CanAdmit(old(State()), id, request, admittedAt) && id !in old(durable)
           && Streamable(request, old(body.remaining), publishedAt, length))
      ensures Valid() && usage == old(usage)
      ensures Runs(old(State()), trace) && State() == After(old(State()), trace)
      ensures r.Success? ==>
        && id !in old(durable) && id in durable && durable == old(durable)[id := durable[id]]
        && Load(durable[id], id) == Success((r.value, old(body.remaining)))
        && MetadataOf(r.value, id, request, publishedAt, hash(old(body.remaining)))
        && active == old(active) && temporary == old(temporary) && recent == {}
      ensures r.Success? || (r.Failure? && r.error.DurabilityUncertain?) ==>
        forall q :: usage.Model().At(q)
                 == old(usage.Model()).At(q) + Weight(Charge(request.owner, request.expectedSize), q)
      ensures r.Failure? && r.error.DurabilityUncertain? ==> r.error.artifactId == id
      ensures r == Failure(SizeMismatch) ==> |old(body.remaining)| != request.expectedSize
      ensures r == Failure(DigestMismatch) ==>
        request.expectedSha256.Some? && request.expectedSha256.value != hash(old(body.remaining))
      ensures r.Failure? && !r.error.DurabilityUncertain? ==>
        durable == old(durable) && active == old(active) && usage.Model() == old(usage.Model())
    {
      hide Inv, Load, Reserve, ValidateCommon, ValidateTimeAndSize, Streamable, CanRefuse, Describe;
      hide Runs, After, StagedEntry, Quota.Remove, CanAdmit, DoAdmit;
      ghost var s := State();
      assert holder.Free?;
      assert limits.Valid() && usage.Model().Pruned() && Paired(s) by {
        InvLimits(s);
        InvFacts(s);
      }
      var admitted;
      ghost var leftover;
      admitted, leftover := Admission(request, id, admittedAt);
      if admitted.Failure? {
        RefusedRun(s, State(), id, leftover);
        return Failure(admitted.error), [Refuse(id, leftover)];
      }
      ghost var t, rest := State(), [];
      AdmittedFacts(s, t, id, request, admittedAt);
      AdmittedCharge(s, id, request, admittedAt);
      r, rest := StageAndPublish(id, request, body, publishedAt, length);
      AdmittedRun(s, t, id, request, admittedAt, rest);
      trace := [Admit(id, request, admittedAt)] + rest;
      if r.Success? {
        StagedLoads(hash, request, limits, id, publishedAt, old(body.remaining), length);
      }
    }

    /**
     Streams one body into the store.  Success publishes exactly the streamed bytes under the
     given identifier; failure leaves records, reservations and books as they were, unless
     the durability of the published directory is uncertain.  Where nothing fails, it succeeds
     exactly when the request is valid at both times, the identifier is new, the quota allows it
     and the body is as declared.  `length` is the size of the encoded metadata.
     */
    method Create(request: ArtifactCreate, body: Reader, id: Uuid, admittedAt: Millis, publishedAt: Millis, length: nat)
      returns (r: Result<ArtifactMetadata, StoreError>, ghost trace: seq<Event>)
      requires Valid() && !RoomToOverflow(limits, MAX_RECORD_BYTES)
      modifies this, usage, body, io
      ensures io.count == old(io.count) && body.faults == old(body.faults) ==>
        (r.Success? <==>
           && Admissible(old(State()), id, request, admittedAt) && id !in old(durable)
           && Streamable(request, old(body.remaining), publishedAt, length))
      ensures Valid() && usage == old(usage)
      ensures Runs(old(State()), trace) && State() == After(old(State()), trace)
      ensures r.Success? ==>
        && id !in old(durable) && id in durable && durable == old(durable)[id := durable[id]]
        && Load(durable[id], id) == Success((r.value, old(body.remaining)))
        && MetadataOf(r.value, id, request, publishedAt, hash(old(body.remaining)))
        && active == old(active) && temporary == old(temporary) && recent == {}
      ensures r.Success? || (r.Failure? && r.error.DurabilityUncertain?) ==>
        forall q :: usage.Model().At(q)
                 == old(usage.Model()).At(q) + Weight(Charge(request.owner, request.expectedSize), q)
      ensures r.Failure? && r.error.DurabilityUncertain? ==> r.error.artifactId == id
      ensures r == Failure(SizeMismatch) ==> |old(body.remaining)| != request.expectedSize
      ensures r == Failure(DigestMismatch) ==>
        request.expectedSha256.Some? && request.expectedSha256.value != hash(old(body.remaining))
      ensures r.Failure? && !r.error.DurabilityUncertain? ==>
        durable == old(durable) && active == old(active) && usage.Model() == old(usage.Model())
    {
      hide Inv, Load, Reserve, ValidateCommon, ValidateTimeAndSize, Timely, Streamable, RoomToOverflow, Describe;
      hide Runs, After, Admissible, CanAdmit;
      NoRun(State());
      InvLimits(State());
      AdmittedIff(State(), id, request, admittedAt);
      CheckedFirst(State(), id, request, admittedAt);
      ValidateTimeAndSizeIff(request, limits, admittedAt);
      var validated := request.Validate();
      if validated.Failure? {
        return Failure(Validation(validated.error)), [];
      }
      var timely := ValidateTimeAndSize(request, limits, admittedAt);
      if timely.Failure? {
        return Failure(timely.error), [];
      }
      NeverOverflows(State(), request, admittedAt);
      r, trace := CreateChecked(request, body, id, admittedAt, publishedAt, length);
    }

    // ---------------------------------------------------------- open and delete

    /** `remove_known`: the entry, the root sync, and only then the books. */
    method RemoveKnown(removal: Removal, metadata: ArtifactMetadata)
      returns (ok: bool, ghost fault: Fault, ghost trace: seq<Event>)
      requires Valid() && CanRemove(State(), removal)
      requires ChargeOf(durable[removal.id]) == Charge(metadata.owner, metadata.size)
      modifies this, usage, io
      ensures io.count >= old(io.count)
      ensures Valid() && usage == old(usage)
      ensures Runs(old(State()), trace) && State() == After(old(State()), trace)
      ensures !fault.Unavailable? && (ok <==> fault.NoFault?) && (ok || io.count > old(io.count))
      ensures usage.Model() == if ok then Quota.Remove(old(usage.Model()), Charge(metadata.owner, metadata.size))
                               else old(usage.Model())
      ensures durable == if fault == RemoveFails(false) then old(durable) else old(durable) - {removal.id}
    {
      hide Inv, Runs, After, Quota.Remove, MarkSynced;
      hide CanRemove;
      ghost var s := State();
      var failed := io.Trips();
      if failed {
        var vanished: bool := *;
        assert removal.id in durable by {
          RemovalFacts(s, removal);
        }
        if vanished {
          RemoveEntry(removal.id);
        }
        RemoveFailedRun(s, State(), removal, vanished);
        return false, RemoveFails(vanished), [RemoveFailed(removal, vanished)];
      }
      RemovalFacts(s, removal);
      RemoveEntry(removal.id);
      holder := Removing;
      ghost var t := State();
      var unsynced := io.Trips();
      var synced := !unsynced;
      if synced {
        usage.Remove(metadata.owner, metadata.size);
        phantoms := phantoms[..|phantoms| - 1];
        NoteSync();
      }
      holder := Free;
      RemovedRun(s, t, State(), removal, synced);
      return synced, if synced then NoFault else SyncFails, [Remove(removal), Removed(synced)];
    }

    /** Answers from the records in scope; an expired one is removed on the way. */
    method OpenBody(id: Uuid, scope: Scope, now: Millis)
      returns (response: Response, ghost fault: Fault, ghost trace: seq<Event>)
      requires Valid()
      modifies this, usage, io
      ensures io.count >= old(io.count)
      ensures Valid() && usage == old(usage)
      ensures Runs(old(State()), trace) && State() == After(old(State()), trace)
      ensures Step(response, durable)
           == Perform(hash, old(durable), scope, Operation(id, now, false, fault))
      ensures Tells(hash, old(durable), scope, Operation(id, now, false, fault), response, durable)
      ensures usage.Model() == old(usage.Model()) || Settles(old(usage.Model()), usage.Model(), old(durable), durable, id)
      ensures fault == NoFault && id in old(durable) && id !in durable ==>
        Settles(old(usage.Model()), usage.Model(), old(durable), durable, id)
      ensures fault.NoFault? || io.count > old(io.count)
    {
      hide Inv, Load, Runs, After, Tells, Settles, Quota.Remove;
      NoRun(State());
      PerformsTell(hash, durable, scope, id, now, false);
      var unavailable := io.Trips();
      if unavailable {
        return Refused(Io), Unavailable, [];
      }
      if id !in durable {
        return Refused(NotFound), NoFault, [];
      }
      var loaded := Load(durable[id], id);
      if loaded.Failure? {
        return Refused(loaded.error), NoFault, [];
      }
      LoadFacts(durable[id], id);
      var (metadata, body) := loaded.value;
      if !scope.Matches(metadata) {
        return Refused(NotFound), NoFault, [];
      }
      if metadata.expiresAt <= now {
        var ok;
        RemovalSettles(State(), id);
        ok, fault, trace := RemoveKnown(Removal(id, scope, now, false), metadata);
        return Refused(if ok then Expired else Io), fault, trace;
      }
      var reader := new Reader(body);
      var verified := VerifyBodyDigest(reader, metadata, hash);
      io.count := io.count + reader.faults;
      if verified.Failure? {
        return Refused(verified.error), if verified.error == Io then Unavailable else NoFault, [];
      }
      return Contents(metadata, body), NoFault, [];
    }

    /** Removes a record in scope and returns its former metadata. */
    method DeleteWithMetadata(id: Uuid, scope: Scope, now: Millis)
      returns (response: Response, ghost fault: Fault, ghost trace: seq<Event>)
      requires Valid()
      modifies this, usage, io
      ensures io.count >= old(io.count)
      ensures Valid() && usage == old(usage)
      ensures Runs(old(State()), trace) && State() == After(old(State()), trace)
      ensures Step(response, durable)
           == Perform(hash, old(durable), scope, Operation(id, now, true, fault))
      ensures Tells(hash, old(durable), scope, Operation(id, now, true, fault), response, durable)
      ensures usage.Model() == old(usage.Model()) || Settles(old(usage.Model()), usage.Model(), old(durable), durable, id)
      ensures fault == NoFault && id in old(durable) && id !in durable ==>
        Settles(old(usage.Model()), usage.Model(), old(durable), durable, id)
      ensures fault.NoFault? || io.count > old(io.count)
    {
      hide Inv, Load, Runs, After, Tells, Settles, Quota.Remove;
      NoRun(State());
      PerformsTell(hash, durable, scope, id, now, true);
      var unavailable := io.Trips();
      if unavailable {
        return Refused(Io), Unavailable, [];
      }
      if id !in durable {
        return Refused(NotFound), NoFault, [];
      }
      var loaded := Load(durable[id], id);
      if loaded.Failure? {
        return Refused(loaded.error), NoFault, [];
      }
      LoadFacts(durable[id], id);
      var (metadata, body) := loaded.value;
      if !scope.Matches(metadata) {
        return Refused(NotFound), NoFault, [];
      }
      var expired := metadata.expiresAt <= now;
      if !expired {
        var reader := new Reader(body);
        var verified := VerifyBodyDigest(reader, metadata, hash);
        io.count := io.count + reader.faults;
        if verified.Failure? {
          return Refused(verified.error), if verified.error == Io then Unavailable else NoFault, [];
        }
      }
      var ok;
      RemovalSettles(State(), id);
      ok, fault, trace := RemoveKnown(Removal(id, scope, now, true), metadata);
      response := if !ok then Refused(Io) else if expired then Refused(Expired) else Gone(metadata);
    }

    // ---------------------------------------------------------- cleanup

    /** One temporary entry of the root: kept if a create owns it, removed otherwise. */
    method SweepTemporary(id: Uuid) returns (removed: bool)
      requires CanCleanTemporary(State(), id)
      modifies this`temporary, this`holder
      ensures State() == DoCleanTemporary(old(State()), id)
      ensures removed == (id !in active)
    {
      holder := holder.(temporaries := holder.temporaries - {id});
      if id in active {
        return false;
      }
      temporary := temporary - {id};
      holder := holder.(changed := true);
      return true;
    }

    /** One record of the root: removed if expired, counted otherwise. */
    method SweepRecord(id: Uuid, now: Millis, reconciled: Usage) returns (removed: Option<nat>)
      requires CanCleanRecord(State(), id) && holder.now == now
      requires reconciled != usage && reconciled.Model() == holder.tally
      modifies this`durable, this`recent, this`phantoms, this`holder, reconciled
      ensures State() == DoCleanRecord(old(State()), id) && reconciled.Model() == holder.tally
      ensures removed == if old(ExpiresAt(durable[id])) <= now then Some(old(ChargeOf(durable[id]).bytes))
                         else None
    {
      hide Load;
      LoadFacts(durable[id], id);
      var metadata := Load(durable[id], id).value.0;
      if metadata.expiresAt <= now {
        RemoveEntry(id);
        holder := holder.(todo := holder.todo - {id}, changed := true);
        return Some(metadata.size);
      }
      reconciled.AddExisting(metadata.owner, metadata.size);
      holder := holder.(todo := holder.todo - {id}, tally := reconciled.Model());
      return None;
    }

    /** The reservations in flight, added to a finished tally. */
    method AddReservations(reconciled: Usage)
      requires limits.Valid() && Sound(reconciled.Model())
      requires forall q :: reconciled.Model().At(q) + Total(active, q) <= U64_MAX
      modifies reconciled
      ensures reconciled.Model() == AddAll(old(reconciled.Model()), active)
    {
      ghost var tally := reconciled.Model();
      AddAllSound(tally, active, limits);
      var rest := active;
      while rest != map[]
        invariant Sound(reconciled.Model())
        invariant forall q :: reconciled.Model().At(q) + Total(rest, q) == tally.At(q) + Total(active, q)
        decreases |rest|
      {
        var id :| id in rest;
        ghost var before := reconciled.Model();
        forall q
          ensures Total(rest, q) == Total(rest - {id}, q) + Weight(rest[id], q)
          ensures before.At(q) + Weight(rest[id], q) <= U64_MAX
        {
          TotalRemove(rest, id, q);
          assert before.At(q) + Total(rest, q) == tally.At(q) + Total(active, q);
          assert tally.At(q) + Total(active, q) <= U64_MAX;
        }
        AddSound(before, rest[id], limits);
        reconciled.AddExisting(rest[id].owner, rest[id].bytes);
        rest := rest - {id};
      }
      forall q ensures reconciled.Model().At(q) == AddAll(tally, active).At(q) {
        assert reconciled.Model().At(q) + Total(rest, q) == tally.At(q) + Total(active, q);
      }
      SameFigures(reconciled.Model(), AddAll(tally, active));
    }

    /** An error ends the pass with the books untouched; the entry it happened on may be gone. */
    method StopCleanup(gone: Option<Uuid>, ghost s: Store, ghost trace: seq<Event>) returns (ghost stopped: seq<Event>)
      requires Runs(s, trace) && After(s, trace) == State() && Inv(State()) && CanCleanStop(State(), gone)
      modifies this`durable, this`recent, this`phantoms, this`holder
      ensures State() == DoCleanStop(old(State()), gone)
      ensures Runs(s, stopped) && After(s, stopped) == State() && Valid()
    {
      hide Inv;
      hide Runs;
      hide After;
      ghost var before := State();
      if gone.Some? {
        RemoveEntry(gone.value);
      }
      holder := Free;
      CleanStopRun(s, trace, before, State(), gone);
      stopped := trace + [CleanStop(gone)];
    }

    /** The end of a pass over the whole root: sync if anything changed, then replace the books. */
    method FinishCleanup(reconciled: Usage, changed: bool, ghost s: Store, ghost trace: seq<Event>)
      returns (ghost finished: seq<Event>)
      requires Runs(s, trace) && After(s, trace) == State() && Inv(State())
      requires CanCleanEnd(State()) && holder.changed == changed
      requires reconciled != usage && reconciled.Model() == holder.tally
      modifies this, reconciled
      ensures usage == reconciled
      ensures Runs(s, finished) && After(s, finished) == State() && Valid()
      ensures State() == DoCleanEnd(old(State()))
    {
      hide Inv;
      hide Runs;
      hide After;
      hide AddAll;
      ghost var before := State();
      if changed {
        NoteSync();
      }
      assert limits.Valid() && Sound(reconciled.Model())
          && forall q :: reconciled.Model().At(q) + Total(active, q) <= U64_MAX by {
        TallyFits(before);
      }
      AddReservations(reconciled);
      usage := reconciled;
      stray := stray + Unsynced(phantoms);
      phantoms := [];
      holder := Free;
      CleanEndRun(s, trace, before, State());
      finished := trace + [CleanEnd];
    }

    /** The end of a pass, or a stop when the sync it needs fails. */
    method SyncAndFinish(reconciled: Usage, changed: bool, ghost s: Store, ghost trace: seq<Event>)
      returns (finished: bool, ghost ended: seq<Event>)
      requires Runs(s, trace) && After(s, trace) == State() && Inv(State())
      requires CanCleanEnd(State()) && holder.changed == changed
      requires reconciled != usage && reconciled.Model() == holder.tally
      modifies this, reconciled, io
      ensures finished <==> io.count == old(io.count)
      ensures Runs(s, ended) && After(s, ended) == State() && Valid()
      ensures usage == if finished then reconciled else old(usage)
      ensures finished ==> State() == DoCleanEnd(old(State()))
      ensures !finished ==> active == old(active) && flights == old(flights)
    {
      hide Inv, Runs, After, DoCleanEnd;
      if changed {
        var unsynced := io.Trips();
        if unsynced {
          ended := StopCleanup(None, s, trace);
          return false, ended;
        }
      }
      ended := FinishCleanup(reconciled, changed, s, trace);
      finished := true;
    }

    /** The pass of `s` has reached this state with these sets still to visit. */
    ghost predicate Reached(s: Store, trace: seq<Event>, now: Millis, todo: set<Uuid>,
                            temporaries: set<Uuid>, tally: Ledger, changed: bool)
      reads this, usage
    {
      && Runs(s, trace) && After(s, trace) == State() && Inv(State())
      && holder == Cleaning(now, todo, temporaries, tally, changed)
      && active == s.active && flights == s.flights && usage.Model() == s.usage
      && todo <= s.durable.Keys && durable == Swept(s.durable, todo, now)
      && temporaries <= temporary.Keys
    }

    lemma ReachedHolder(s: Store, trace: seq<Event>, now: Millis, todo: set<Uuid>,
                        temporaries: set<Uuid>, tally: Ledger, changed: bool)
      requires Reached(s, trace, now, todo, temporaries, tally, changed)
      ensures holder.Cleaning? && holder.todo == todo && holder.now == now
      ensures CanCleanStop(State(), None)
    {
    }

    /** The pass has just begun. */
    lemma ReachedAtStart(s: Store, now: Millis)
      requires Inv(s) && s.holder.Free? && State() == DoCleanStart(s, now)
      ensures Reached(s, [CleanStart(now)], now, durable.Keys, temporary.Keys, EMPTY, false)
    {
      hide Inv, Runs, After;
      CleanStartRun(s, now);
      SweptAtStart(durable, now);
    }

    /** Nothing is left to visit. */
    lemma ReachedAtEnd(s: Store, trace: seq<Event>, now: Millis, tally: Ledger, changed: bool)
      requires Reached(s, trace, now, {}, {}, tally, changed)
      ensures Runs(s, trace) && After(s, trace) == State() && Inv(State()) && CanCleanEnd(State())
      ensures holder.tally == tally && holder.changed == changed
      ensures active == s.active && flights == s.flights && usage.Model() == s.usage
      ensures durable == Unexpired(s.durable, now)
    {
      hide Inv, Runs, After;
      assert Swept(s.durable, {}, now) == Unexpired(s.durable, now);
    }

    /** A pass that stops has kept the creates and the books. */
    lemma ReachedKeeps(s: Store, trace: seq<Event>, now: Millis, todo: set<Uuid>,
                       temporaries: set<Uuid>, tally: Ledger, changed: bool)
      requires Reached(s, trace, now, todo, temporaries, tally, changed)
      ensures Runs(s, trace) && After(s, trace) == State() && Inv(State())
      ensures active == s.active && flights == s.flights
    {
    }

    method VisitTemporary(id: Uuid, ghost s: Store, ghost trace: seq<Event>, ghost now: Millis,
                          ghost todo: set<Uuid>, ghost temporaries: set<Uuid>, ghost tally: Ledger,
                          ghost changed: bool) returns (removed: bool)
      requires Reached(s, trace, now, todo, temporaries, tally, changed) && id in temporaries
      modifies this`temporary, this`holder
      ensures Reached(s, trace + [CleanTemporary(id)], now, todo, temporaries - {id}, tally,
                      changed || removed)
      ensures |temporary| == |old(temporary)| - if removed then 1 else 0
    {
      hide Inv;
      hide Runs;
      hide After;
      ghost var before := State();
      removed := SweepTemporary(id);
      CleanTemporaryRun(s, trace, before, State(), id);
    }

    method VisitRecord(id: Uuid, now: Millis, reconciled: Usage, ghost s: Store, ghost trace: seq<Event>,
                       ghost todo: set<Uuid>, ghost temporaries: set<Uuid>, ghost changed: bool)
      returns (removed: Option<nat>)
      requires Reached(s, trace, now, todo, temporaries, reconciled.Model(), changed) && id in todo
      requires reconciled != usage
      modifies this`durable, this`recent, this`phantoms, this`holder, reconciled
      ensures Reached(s, trace + [CleanRecord(id)], now, todo - {id}, temporaries, reconciled.Model(),
                      changed || removed.Some?)
      ensures |durable| == |old(durable)| - if removed.Some? then 1 else 0
      ensures BytesIn(old(durable)) == BytesIn(durable) + if removed.Some? then removed.value else 0
    {
      hide Inv;
      hide Runs;
      hide After;
      hide Load;
      ghost var before := State();
      Sweepable(before, id);
      removed := SweepRecord(id, now, reconciled);
      CleanRecordRun(s, trace, before, State(), id);
      SweptNext(s.durable, todo, now, id);
      ChargesRemove(before.durable, id, Query(None, Bytes));
    }

    /** The entry a failing removal took with it: none, or a record that was to go. */
    method Casualty(records: set<Uuid>, now: Millis) returns (gone: Option<Uuid>)
      requires holder.Cleaning? && holder.todo == records && holder.now == now
      ensures CanCleanStop(State(), gone)
    {
      gone := None;
      var taken: bool := *;
      if taken && exists id :: id in records && id in durable && ExpiresAt(durable[id]) <= now {
        var id :| id in records && id in durable && ExpiresAt(durable[id]) <= now;
        gone := Some(id);
      }
    }

    /** One entry of the root, whichever the directory lists next, and what it adds to the report. */
    method VisitNext(now: Millis, reconciled: Usage, records: set<Uuid>, staging: set<Uuid>, changed: bool,
                     ghost s: Store, ghost trace: seq<Event>)
      returns (recordsLeft: set<Uuid>, stagingLeft: set<Uuid>, objects: nat, bytes: nat, entries: nat,
               changedNow: bool, ghost longer: seq<Event>)
      requires Reached(s, trace, now, records, staging, reconciled.Model(), changed)
      requires reconciled != usage && (records != {} || staging != {})
      modifies this`durable, this`temporary, this`recent, this`phantoms, this`holder, reconciled
      ensures Reached(s, longer, now, recordsLeft, stagingLeft, reconciled.Model(), changedNow)
      ensures |recordsLeft| + |stagingLeft| < |records| + |staging|
      ensures objects + |durable| == |old(durable)|
      ensures bytes + BytesIn(durable) == BytesIn(old(durable))
      ensures entries + |temporary| == |old(temporary)|
    {
      hide Reached, BytesIn;
      var stagingNext: bool := *;
      if staging != {} && (records == {} || stagingNext) {
        var id :| id in staging;
        var removed := VisitTemporary(id, s, trace, now, records, staging, reconciled.Model(), changed);
        return records, staging - {id}, 0, 0, if removed then 1 else 0, changed || removed, trace + [CleanTemporary(id)];
      }
      var id :| id in records;
      var removed := VisitRecord(id, now, reconciled, s, trace, records, staging, changed);
      return records - {id}, staging, if removed.Some? then 1 else 0, if removed.Some? then removed.value else 0, 0,
        changed || removed.Some?, trace + [CleanRecord(id)];
    }

    /** `reconcile_root`: visits the entries in any order and stops at the first error. */
    method Sweep(now: Millis, reconciled: Usage, ghost s: Store, todo: set<Uuid>, temporaries: set<Uuid>)
      returns (complete: bool, gone: Option<Uuid>, report: CleanupReport, changed: bool, ghost trace: seq<Event>,
               ghost todoLeft: set<Uuid>, ghost temporariesLeft: set<Uuid>)
      requires Reached(s, [CleanStart(now)], now, todo, temporaries, reconciled.Model(), false)
      requires reconciled != usage && BytesIn(durable) <= U64_MAX
      modifies this`durable, this`temporary, this`recent, this`phantoms, this`holder, reconciled, io
      ensures complete <==> io.count == old(io.count)
      ensures io.count >= old(io.count)
      ensures Reached(s, trace, now, todoLeft, temporariesLeft, reconciled.Model(), changed)
      ensures complete ==> todoLeft == {} && temporariesLeft == {}
      ensures CanCleanStop(State(), gone)
      ensures report.removedObjects + |durable| == |old(durable)|
      ensures report.removedBytes + BytesIn(durable) == BytesIn(old(durable))
      ensures report.removedTemporaryEntries + |temporary| == |old(temporary)|
    {
      hide Reached, BytesIn, CanCleanStop;
      todoLeft, temporariesLeft := todo, temporaries;
      var records, staging := todo, temporaries;
      trace, changed := [CleanStart(now)], false;
      var objects: nat, bytes: nat, entries: nat := 0, 0, 0;
      complete, gone := true, None;
      while complete && (records != {} || staging != {})
        invariant Reached(s, trace, now, records, staging, reconciled.Model(), changed)
        invariant objects + |durable| == |old(durable)|
        invariant bytes + BytesIn(durable) == BytesIn(old(durable))
        invariant entries + |temporary| == |old(temporary)|
        invariant complete <==> io.count == old(io.count)
        invariant io.count >= old(io.count)
        invariant complete ==> gone.None?
        invariant !complete ==> CanCleanStop(State(), gone)
        decreases complete, |records| + |staging|
      {
        var fault := io.Trips();
        if fault {
          ReachedHolder(s, trace, now, records, staging, reconciled.Model(), changed);
          complete := false;
          gone := Casualty(records, now);
        } else {
          var o, b, e;
          records, staging, o, b, e, changed, trace := VisitNext(now, reconciled, records, staging, changed, s, trace);
          objects, bytes, entries := objects + o, SaturatingAdd(bytes, b), entries + e;
        }
      }
      if complete {
        ReachedHolder(s, trace, now, records, staging, reconciled.Model(), changed);
      }
      todoLeft, temporariesLeft := records, staging;
      report := CleanupReport(objects, bytes, entries);
    }

    /**
     A pass over the whole root.  When it succeeds, exactly the unexpired records remain, no
     staging directory without a create is left, and the books are exact; the report counts
     what was removed.
     */
    method CleanupExpired(now: Millis) returns (r: Result<CleanupReport, StoreError>, ghost trace: seq<Event>)
      requires Valid()
      modifies this, io
      ensures r.Success? <==> io.count == old(io.count)
      ensures Valid() && (usage == old(usage) || fresh(usage))
      ensures Runs(old(State()), trace) && State() == After(old(State()), trace)
      ensures active == old(active) && flights == old(flights)
      ensures r.Failure? ==> usage == old(usage)
      ensures r.Success? ==>
        && durable == Unexpired(old(durable), now) && KeepsUnexpired(old(durable), durable, now)
        && temporary.Keys <= active.Keys
        && (forall q :: usage.Model().At(q) == InUse(State(), q))
        && r.value.removedObjects == |old(durable)| - |durable|
        && r.value.removedBytes == BytesIn(old(durable)) - BytesIn(durable)
        && r.value.removedTemporaryEntries == |old(temporary)| - |temporary|
    {
      hide Inv;
      hide Runs;
      hide After;
      hide AddAll;
      hide BytesIn;
      hide InUse;
      hide Reached, CanCleanStop, CanCleanEnd, DoCleanEnd, Unexpired;
      hide KeepsUnexpired;
      ghost var s := State();
      RecordsLoad(s);
      UnexpiredByMetadata(durable, now);
      BytesFit(s);
      var reconciled := new Usage();
      holder := Cleaning(now, durable.Keys, temporary.Keys, reconciled.Model(), false);
      ReachedAtStart(s, now);
      var complete, gone, report, changed;
      ghost var todoLeft, temporariesLeft;
      complete, gone, report, changed, trace, todoLeft, temporariesLeft :=
        Sweep(now, reconciled, s, durable.Keys, temporary.Keys);
      if !complete {
        ReachedKeeps(s, trace, now, todoLeft, temporariesLeft, reconciled.Model(), changed);
        trace := StopCleanup(gone, s, trace);
        return Failure(Io), trace;
      }
      ReachedAtEnd(s, trace, now, reconciled.Model(), changed);
      CleanedFacts(State());
      var finished;
      finished, trace := SyncAndFinish(reconciled, changed, s, trace);
      r := if finished then Success(report) else Failure(Io);
    }
  }

  /** The record is gone and its size and its object are off every figure of its owner and the store. */
  ghost predicate Settles(u: Ledger, v: Ledger, before: map<Uuid, Entry>, after: map<Uuid, Entry>, id: Uuid) {
    && id in before && after == before - {id} && Load(before[id], id).Success?
    && var m := Load(before[id], id).value.0;
       forall q :: v.At(q) + Weight(Charge(m.owner, m.size), q) == u.At(q)
  }

  /** Taking a record and its charge off settles the books. */
  lemma RemovalSettles(s: Store, id: Uuid)
    requires Inv(s) && id in s.durable && Load(s.durable[id], id).Success?
    ensures var m := Load(s.durable[id], id).value.0;
      Settles(s.usage, Quota.Remove(s.usage, Charge(m.owner, m.size)), s.durable, s.durable - {id}, id)
  {
    hide Inv, Load, Quota.Remove, Total;
    LoadFacts(s.durable[id], id);
    var c := ChargeOf(s.durable[id]);
    forall q ensures Weight(c, q) <= s.usage.At(q) {
      NeverUnderstated(s, q);
      ChargesRemove(s.durable, id, q);
    }
    RemoveExact(s.usage, c);
  }

  lemma PerformsTell(hash: seq<byte> -> Digest, disk: Disk, scope: Scope, id: Uuid, now: Millis, delete: bool)
    ensures forall fault :: var step := Perform(hash, disk, scope, Operation(id, now, delete, fault));
      Tells(hash, disk, scope, Operation(id, now, delete, fault), step.response, step.disk)
  {
    hide Tells, Perform;
    forall fault ensures var step := Perform(hash, disk, scope, Operation(id, now, delete, fault));
      Tells(hash, disk, scope, Operation(id, now, delete, fault), step.response, step.disk)
    {
      PerformTells(hash, disk, scope, Operation(id, now, delete, fault));
    }
  }

  /** What is left of these records is exactly those whose own metadata say that they have not expired. */
  predicate KeepsUnexpired(before: map<Uuid, Entry>, after: map<Uuid, Entry>, now: Millis) {
    && (forall id :: id in after ==> id in before && after[id] == before[id])
    && forall id :: id in before ==>
         Load(before[id], id).Success? && (id in after <==> now < Load(before[id], id).value.0.expiresAt)
  }

  lemma UnexpiredByMetadata(records: map<Uuid, Entry>, now: Millis)
    requires Uncorrupted(records)
    ensures KeepsUnexpired(records, Unexpired(records, now), now)
  {
    hide Load;
    forall id | id in records ensures ExpiresAt(records[id]) == Load(records[id], id).value.0.expiresAt {
      LoadFacts(records[id], id);
    }
  }

  lemma RecordsLoad(s: Store)
    requires Inv(s)
    ensures Uncorrupted(s.durable)
  {
    hide Accounting, FlightOk, Load;
  }

  ghost function BytesIn(records: map<Uuid, Entry>): nat {
    Total(Charges(records), Query(None, Bytes))
  }

  lemma BytesFit(s: Store)
    requires Inv(s)
    ensures BytesIn(s.durable) <= U64_MAX
  {
    hide Inv;
    InvFacts(s);
    NeverUnderstated(s, Query(None, Bytes));
    assert s.usage.At(Query(None, Bytes)) <= U64_MAX;
  }

  /** Aggregate counts of a cleanup. */
  datatype CleanupReport = CleanupReport(
    removedObjects: nat, removedBytes: nat, removedTemporaryEntries: nat)

  lemma Sweepable(s: Store, id: Uuid)
    requires Inv(s) && s.holder.Cleaning? && id in s.holder.todo
    ensures CanCleanRecord(s, id)
  {
    hide Load;
    hide Accounting;
    hide FlightOk;
  }

  lemma CleanedFacts(s: Store)
    requires Inv(s) && CanCleanEnd(s)
    ensures var t := DoCleanEnd(s);
      && t.temporary.Keys <= t.active.Keys && t.durable == s.durable && t.temporary == s.temporary
      && t.active == s.active && t.flights == s.flights
      && (forall q :: t.usage.At(q) == InUse(t, q))
  {
    hide Inv;
    hide DoCleanEnd;
    assert Enabled(s, CleanEnd) && Apply(s, CleanEnd) == DoCleanEnd(s);
    CleanEndEffect(s);
    forall q ensures DoCleanEnd(s).usage.At(q) == InUse(DoCleanEnd(s), q) {
      CleanupRestoresExactness(s, q);
    }
    CleanupRestoresExactness(s, Query(None, Bytes));
  }

  lemma TallyFits(s: Store)
    requires Inv(s) && CanCleanEnd(s)
    ensures s.limits.Valid() && Sound(s.holder.tally)
    ensures forall q :: s.holder.tally.At(q) + Total(s.active, q) <= U64_MAX
  {
    hide Inv;
    hide FlightOk;
    InvFacts(s);
    assert Inflight(s) == s.active && s.durable - s.holder.todo == s.durable;
    forall q ensures s.holder.tally.At(q) + Total(s.active, q) <= U64_MAX {
      assert s.usage.At(q) == Held(s, q) + PhantomTotal(s.phantoms, q) && s.usage.At(q) <= U64_MAX;
      assert s.holder.tally.At(q) == Total(Charges(s.durable - s.holder.todo), q);
    }
  }

  /** A run of the machine that reached `t` goes on with one more step. */
  lemma Onward(s: Store, trace: seq<Event>, t: Store, e: Event)
    requires Runs(s, trace) && After(s, trace) == t && Inv(t) && Enabled(t, e)
    ensures Runs(s, trace + [e]) && After(s, trace + [e]) == Apply(t, e) && Inv(Apply(t, e))
  {
    hide Inv;
    hide Enabled;
    hide Apply;
    Then(s, trace, e);
    StepKeepsInv(t, e);
  }

  lemma CleanStopRun(s: Store, trace: seq<Event>, t: Store, u: Store, gone: Option<Uuid>)
    requires Runs(s, trace) && After(s, trace) == t && Inv(t)
    requires CanCleanStop(t, gone) && u == DoCleanStop(t, gone)
    ensures Runs(s, trace + [CleanStop(gone)]) && After(s, trace + [CleanStop(gone)]) == u && Inv(u)
  {
    hide Inv;
    hide Runs;
    hide After;
    Onward(s, trace, t, CleanStop(gone));
  }

  lemma CleanEndRun(s: Store, trace: seq<Event>, t: Store, u: Store)
    requires Runs(s, trace) && After(s, trace) == t && Inv(t)
    requires CanCleanEnd(t) && u == DoCleanEnd(t)
    ensures Runs(s, trace + [CleanEnd]) && After(s, trace + [CleanEnd]) == u && Inv(u)
  {
    hide Inv;
    hide Runs;
    hide After;
    Onward(s, trace, t, CleanEnd);
  }

  lemma CleanTemporaryRun(s: Store, trace: seq<Event>, t: Store, u: Store, id: Uuid)
    requires Runs(s, trace) && After(s, trace) == t && Inv(t)
    requires CanCleanTemporary(t, id) && u == DoCleanTemporary(t, id)
    ensures Runs(s, trace + [CleanTemporary(id)]) && After(s, trace + [CleanTemporary(id)]) == u
    ensures Inv(u)
  {
    hide Inv;
    hide Runs;
    hide After;
    Onward(s, trace, t, CleanTemporary(id));
  }

  lemma CleanRecordRun(s: Store, trace: seq<Event>, t: Store, u: Store, id: Uuid)
    requires Runs(s, trace) && After(s, trace) == t && Inv(t)
    requires CanCleanRecord(t, id) && u == DoCleanRecord(t, id)
    ensures Runs(s, trace + [CleanRecord(id)]) && After(s, trace + [CleanRecord(id)]) == u && Inv(u)
  {
    hide Inv;
    hide Runs;
    hide After;
    hide Load;
    Onward(s, trace, t, CleanRecord(id));
  }

  lemma CleanStartRun(s: Store, now: Millis)
    requires Inv(s) && s.holder.Free?
    ensures Runs(s, [CleanStart(now)]) && After(s, [CleanStart(now)]) == DoCleanStart(s, now)
    ensures Inv(DoCleanStart(s, now))
  {
    hide Inv;
    OneStep(s, CleanStart(now));
    StepKeepsInv(s, CleanStart(now));
  }

  lemma NoRun(s: Store)
    ensures Runs(s, []) && After(s, []) == s
  {
    hide Enabled;
    hide Apply;
  }

  /** What the books read off a loaded record. */
  lemma LoadFacts(entry: Entry, id: Uuid)
    requires Load(entry, id).Success?
    ensures var m := Load(entry, id).value.0;
      ChargeOf(entry) == Charge(m.owner, m.size) && ExpiresAt(entry) == m.expiresAt
    ensures |Load(entry, id).value.1| == Load(entry, id).value.0.size
    ensures Load(entry, id).value.0.id == id
  {
    hide ValidateCommon;
    hide ParseDigest;
  }

  lemma RemovalFacts(s: Store, removal: Removal)
    requires CanRemove(s, removal)
    ensures removal.id in s.durable && s.holder.Free?
  {
    hide Load;
  }

  lemma RemoveFailedRun(s: Store, t: Store, removal: Removal, vanished: bool)
    requires Inv(s) && CanRemove(s, removal)
    requires t == if vanished then Vanish(s, removal.id) else s
    ensures Runs(s, [RemoveFailed(removal, vanished)])
    ensures After(s, [RemoveFailed(removal, vanished)]) == t && Inv(t)
  {
    hide Inv;
    hide Load;
    OneStep(s, RemoveFailed(removal, vanished));
    StepKeepsInv(s, RemoveFailed(removal, vanished));
  }

  lemma RemovedRun(s: Store, t: Store, u: Store, removal: Removal, synced: bool)
    requires Inv(s) && CanRemove(s, removal) && t == DoRemove(s, removal.id) && u == DoRemoved(t, synced)
    ensures Runs(s, [Remove(removal), Removed(synced)])
    ensures After(s, [Remove(removal), Removed(synced)]) == u && Inv(u)
  {
    hide Inv;
    hide Load;
    TwoSteps(s, Remove(removal), Removed(synced));
    RunKeepsInv(s, [Remove(removal), Removed(synced)]);
  }

  lemma RefusedRun(s: Store, t: Store, id: Uuid, leftover: bool)
    requires Inv(s) && CanRefuse(s, id, leftover) && t == DoRefuse(s, id, leftover)
    ensures Runs(s, [Refuse(id, leftover)]) && After(s, [Refuse(id, leftover)]) == t && Inv(t)
  {
    hide Inv;
    OneStep(s, Refuse(id, leftover));
    StepKeepsInv(s, Refuse(id, leftover));
  }

  lemma CheckedFirst(s: Store, id: Uuid, request: ArtifactCreate, now: Millis)
    ensures CanAdmit(s, id, request, now) ==>
      request.Validate().Success? && ValidateTimeAndSize(request, s.limits, now).Success?
  {
    hide Reserve, ValidateCommon, ValidateTimeAndSize;
  }

  /** What admission changes, and that giving the charge back undoes it. */
  lemma AdmittedFacts(s: Store, t: Store, id: Uuid, request: ArtifactCreate, now: Millis)
    requires CanAdmit(s, id, request, now) && t == DoAdmit(s, id, request, now)
    requires s.limits.Valid() && s.usage.Pruned()
    ensures t.holder.Free? && t.durable == s.durable && id in t.active && t.active - {id} == s.active
    ensures id in t.temporary && t.temporary[id] == NO_BODY && t.temporary - {id} == s.temporary
    ensures id in t.flights && t.flights[id] == Flight(request, NO_BODY, Streaming)
    ensures Quota.Remove(t.usage, t.active[id]) == s.usage
  {
    hide Reserve, ValidateCommon, ValidateTimeAndSize, Quota.Remove;
    ReserveThenRemove(s.usage, request.Charge(), s.limits);
  }

  lemma AdmittedRun(s: Store, t: Store, id: Uuid, request: ArtifactCreate, now: Millis, rest: seq<Event>)
    requires Inv(s) && CanAdmit(s, id, request, now) && t == DoAdmit(s, id, request, now)
    requires Runs(t, rest)
    ensures var events := [Admit(id, request, now)] + rest;
      Runs(s, events) && After(s, events) == After(t, rest) && Inv(After(t, rest))
  {
    hide Inv;
    hide CanAdmit;
    hide DoAdmit;
    OneStep(s, Admit(id, request, now));
    RunsConcat(s, [Admit(id, request, now)], rest);
    RunKeepsInv(s, [Admit(id, request, now)] + rest);
  }

  lemma WriteRun(s: Store, t: Store, id: Uuid, chunk: seq<byte>)
    requires CanWrite(s, id, chunk) && t == DoWrite(s, id, chunk)
    ensures Runs(s, [Write(id, chunk)]) && After(s, [Write(id, chunk)]) == t
  {
    OneStep(s, Write(id, chunk));
  }

  lemma FinishRun(s: Store, t: Store, id: Uuid, now: Millis, length: nat)
    requires CanFinish(s, id, now, length) && t == DoFinish(s, id, now, length)
    ensures Runs(s, [Finish(id, now, length)]) && After(s, [Finish(id, now, length)]) == t
  {
    OneStep(s, Finish(id, now, length));
  }

  /** How the publication section ends. */
  datatype Publication = NotRenamed | Published | Uncertain | TakenBack

  lemma RenamedRun(s: Store, renamed: Store, rest: seq<Event>, id: Uuid)
    requires CanRename(s, id) && renamed == DoRename(s, id) && Runs(renamed, rest)
    ensures Runs(s, [Rename(id)] + rest) && After(s, [Rename(id)] + rest) == After(renamed, rest)
  {
    OneStep(s, Rename(id));
    RunsConcat(s, [Rename(id)], rest);
  }

  lemma PublishedRun(s: Store, renamed: Store, t: Store, id: Uuid)
    requires CanRename(s, id) && renamed == DoRename(s, id) && t == Unregister(Synced(renamed), id)
    ensures Runs(s, [Rename(id), Commit(id)]) && After(s, [Rename(id), Commit(id)]) == t
  {
    TwoSteps(s, Rename(id), Commit(id));
  }

  lemma KeptRun(s: Store, t: Store, id: Uuid, vanished: bool)
    requires IsPublishing(s, id, Renamed) && t == DoKeep(s, id, vanished)
    ensures Runs(s, [Keep(id, vanished)]) && After(s, [Keep(id, vanished)]) == t
  {
    OneStep(s, Keep(id, vanished));
  }

  lemma WithdrawnRun(s: Store, withdrawn: Store, rest: seq<Event>, id: Uuid)
    requires IsPublishing(s, id, Renamed) && withdrawn == DoWithdraw(s, id) && Runs(withdrawn, rest)
    ensures Runs(s, [Withdraw(id)] + rest)
    ensures After(s, [Withdraw(id)] + rest) == After(withdrawn, rest)
  {
    OneStep(s, Withdraw(id));
    RunsConcat(s, [Withdraw(id)], rest);
  }

  lemma UncertainRun(s: Store, t: Store, id: Uuid)
    requires IsPublishing(s, id, Withdrawn) && t == DoWithdrawUncertain(s, id)
    ensures Runs(s, [WithdrawUncertain(id)]) && After(s, [WithdrawUncertain(id)]) == t
  {
    OneStep(s, WithdrawUncertain(id));
  }

  lemma TakenBackRun(s: Store, done: Store, t: Store, id: Uuid)
    requires IsPublishing(s, id, Withdrawn)
    requires done == DoWithdrawDone(s, id) && CanRelease(done, id) && t == DoRelease(done, id)
    ensures Runs(s, [WithdrawDone(id), Release(id)])
    ensures After(s, [WithdrawDone(id), Release(id)]) == t
  {
    TwoSteps(s, WithdrawDone(id), Release(id));
  }

  lemma RollbackRun(s: Store, t: Store, u: Store, id: Uuid, left: Option<Entry>)
    requires s.holder.Free? && CanAbandon(s, id) && t == DoAbandon(s, id, left)
    requires CanRelease(t, id) && u == DoRelease(t, id)
    ensures Runs(s, [Abandon(id, left), Release(id)])
    ensures After(s, [Abandon(id, left), Release(id)]) == u
  {
    TwoSteps(s, Abandon(id, left), Release(id));
  }

  /**
   `reconcile_root` on a root nobody works in: temporary entries go, expired records go, the
   others are counted, in whatever order the directory lists them, and the root is synced if
   anything went.
   */
  method Reconcile(limits: Limits, root: map<Uuid, Entry>, staging: map<Uuid, Entry>, now: Millis, usage: Usage,
                   io: Faults)
    returns (r: Result<(map<Uuid, Entry>, map<Uuid, Entry>), StoreError>, ghost synced: bool)
    requires limits.Valid() && usage.Model() == EMPTY
    requires forall q :: Total(Charges(root), q) <= U64_MAX
    modifies usage, io
    ensures r.Success? ==> (synced <==> !Root(root, staging, {}, []).Idle(now))
    ensures io.count == old(io.count) ==> (r.Success? <==> Uncorrupted(root))
    ensures r.Success? ==>
      && Uncorrupted(root) && r.value == (Unexpired(root, now), map[])
      && Sound(usage.Model()) && forall q :: usage.Model().At(q) == Total(Charges(r.value.0), q)
    ensures r.Failure? && r.error != Io ==> !Uncorrupted(root)
  {
    hide Load;
    var durable, todo := root, root.Keys;
    var temporary, changed := staging, false;
    synced := false;
    TalliedAtStart(root, now);
    hide Tallied, Swept;
    assert durable == Swept(root, todo, now) && !AnyExpired(root, todo, now) by {
      SweptAtStart(root, now);
    }
    hide AnyExpired;
    while todo != {} || temporary != map[]
      invariant todo <= root.Keys && durable == Swept(root, todo, now)
      invariant forall id :: id in root && id !in todo ==> Load(root[id], id).Success?
      invariant Tallied(usage.Model(), root, todo, now) && io.count == old(io.count)
      invariant temporary.Keys <= staging.Keys && !synced
      invariant changed <==> temporary.Keys != staging.Keys || AnyExpired(root, todo, now)
      decreases |todo| + |temporary|
    {
      var fault := io.Trips();
      if fault {
        return Failure(Io), false;
      }
      var stagingNext: bool := *;
      if temporary != map[] && (todo == {} || stagingNext) {
        var id :| id in temporary;
        OneFewer(temporary, id);
        temporary, changed := temporary - {id}, true;
        continue;
      }
      var id :| id in todo;
      var loaded := Load(root[id], id);
      if loaded.Failure? {
        return Failure(loaded.error), false;
      }
      LoadFacts(root[id], id);
      var metadata := loaded.value.0;
      SweptNext(root, todo, now, id);
      ExpiredNext(root, todo, now, id);
      if metadata.expiresAt <= now {
        durable, changed := durable - {id}, true;
        TalliedExpired(usage.Model(), root, todo, now, id);
      } else {
        CountNext(root, todo, now, id, usage.Model(), limits);
        usage.AddExisting(metadata.owner, metadata.size);
      }
      todo := todo - {id};
    }
    TalliedAtEnd(usage.Model(), root, now);
    IdleIfNoneExpired(root, staging, now);
    if changed {
      var unsynced := io.Trips();
      if unsynced {
        return Failure(Io), false;
      }
      synced := true;
    }
    return Success((durable, temporary)), synced;
  }

  lemma OneFewer(entries: map<Uuid, Entry>, id: Uuid)
    requires id in entries
    ensures |entries - {id}| == |entries| - 1
  {
    assert entries.Keys == (entries - {id}).Keys + {id};
  }

  /**
   `with_clock`: reconciles a root holding these records and these staging directories.  Where
   nothing fails, it succeeds exactly when every record loads, and then the store is the one a
   pass of the machine over that root ends in.  Names and removals that no sync has followed are
   still so unless the pass removed something.
   */
  method OpenStore(limits: Limits, hash: seq<byte> -> Digest, root: map<Uuid, Entry>, staging: map<Uuid, Entry>,
                   now: Millis, io: Faults, ghost recent: set<Uuid>, ghost removals: seq<Phantom>)
    returns (r: Result<ArtifactStore, StoreError>)
    requires limits.Valid()
    requires forall q :: Total(Charges(root), q) <= U64_MAX
    modifies io
    ensures io.count == old(io.count) ==> (r.Success? <==> Uncorrupted(root))
    ensures r.Success? ==>
      && Uncorrupted(root)
      && r.value.State() == Opened(limits, hash, Root(root, staging, recent, removals), now)
      && fresh(r.value) && fresh(r.value.usage) && r.value.io == io
      && KeepsUnexpired(root, r.value.durable, now) && r.value.temporary == map[]
      && (forall q :: r.value.usage.Model().At(q) == Total(Charges(r.value.durable), q))
    ensures r.Success? && Sane(limits, hash, Root(root, staging, recent, removals)) ==>
      && r.value.Valid()
      && exists visits :: EndsIn(limits, hash, Root(root, staging, recent, removals), now, visits, r.value.State())
    ensures r.Failure? && r.error != Io ==> !Uncorrupted(root)
  {
    hide Uncorrupted, KeepsUnexpired;
    var usage := new Usage();
    var swept;
    ghost var synced;
    swept, synced := Reconcile(limits, root, staging, now, usage, io);
    if swept.Failure? {
      return Failure(swept.error);
    }
    var (durable, temporary) := swept.value;
    OpenedUsage(limits, root, now, usage.Model());
    UnexpiredByMetadata(root, now);
    var store := new ArtifactStore(limits, hash, io, durable, temporary, usage,
                                   if synced then {} else recent, if synced then [] else removals);
    OpenedByPass(limits, hash, Root(root, staging, recent, removals), now);
    r := Success(store);
  }

  lemma OpenedUsage(limits: Limits, root: map<Uuid, Entry>, now: Millis, u: Ledger)
    requires limits.Valid() && Sound(u)
    requires forall q :: Total(Charges(root), q) <= U64_MAX
    requires forall q :: u.At(q) == Total(Charges(Unexpired(root, now)), q)
    ensures u == AddAll(EMPTY, Charges(Unexpired(root, now)))
  {
    var durable := Unexpired(root, now);
    forall q ensures EMPTY.At(q) + Total(Charges(durable), q) <= U64_MAX {
      UnexpiredTotal(root, now, q);
      assert Total(Charges(root), q) <= U64_MAX;
    }
    EmptySound();
    AddAllSound(EMPTY, Charges(durable), limits);
    SameFigures(u, AddAll(EMPTY, Charges(durable)));
  }

  /** These visits make a pass of the machine over that root which ends in `s`. */
  ghost predicate EndsIn(limits: Limits, hash: seq<byte> -> Digest, root: Root, now: Millis, visits: seq<Event>, s: Store) {
    && Visits(visits) && Runs(Found(limits, hash, root), Pass(now, visits))
    && After(Found(limits, hash, root), Pass(now, visits)) == s
  }

  lemma OpenedByPass(limits: Limits, hash: seq<byte> -> Digest, root: Root, now: Millis)
    ensures Sane(limits, hash, root) ==>
      && Inv(Opened(limits, hash, root, now))
      && exists visits :: EndsIn(limits, hash, root, now, visits, Opened(limits, hash, root, now))
  {
    hide Inv, Sane, Visits, Runs, After, Pass, Found, Opened;
    if Sane(limits, hash, root) {
      OpenedInv(limits, hash, root, now);
      var visits := PassExists(limits, hash, root, now);
      PassOpens(limits, hash, root, now, visits);
      assert EndsIn(limits, hash, root, now, visits, Opened(limits, hash, root, now));
    }
  }

  /** Some record outside `todo` has expired. */
  predicate AnyExpired(root: map<Uuid, Entry>, todo: set<Uuid>, now: Millis) {
    exists id :: id in root && id !in todo && ExpiresAt(root[id]) <= now
  }

  lemma ExpiredNext(root: map<Uuid, Entry>, todo: set<Uuid>, now: Millis, id: Uuid)
    requires id in todo && id in root
    ensures AnyExpired(root, todo - {id}, now) <==> AnyExpired(root, todo, now) || ExpiresAt(root[id]) <= now
  {
  }

  lemma IdleIfNoneExpired(root: map<Uuid, Entry>, staging: map<Uuid, Entry>, now: Millis)
    ensures Root(root, staging, {}, []).Idle(now) <==> staging.Keys == {} && !AnyExpired(root, {}, now)
  {
    assert staging == map[] <==> staging.Keys == {};
  }

  /** The ledger is the total of the unexpired records outside `todo`. */
  ghost predicate Tallied(u: Ledger, root: map<Uuid, Entry>, todo: set<Uuid>, now: Millis) {
    Sound(u) && forall q :: u.At(q) == Total(Charges(Unexpired(root - todo, now)), q)
  }

  lemma TalliedAtStart(root: map<Uuid, Entry>, now: Millis)
    ensures Tallied(EMPTY, root, root.Keys, now)
  {
    EmptySound();
    assert root - root.Keys == map[];
    forall q ensures Total(Charges(Unexpired(root - root.Keys, now)), q) == 0 {
      UnexpiredTotal(root - root.Keys, now, q);
    }
  }

  lemma SweptAtStart(root: map<Uuid, Entry>, now: Millis)
    ensures Swept(root, root.Keys, now) == root
  {
  }

  lemma TalliedExpired(u: Ledger, root: map<Uuid, Entry>, todo: set<Uuid>, now: Millis, id: Uuid)
    requires Tallied(u, root, todo, now) && id in todo && id in root && ExpiresAt(root[id]) <= now
    ensures Tallied(u, root, todo - {id}, now)
  {
    assert Unexpired(root - (todo - {id}), now) == Unexpired(root - todo, now);
  }

  lemma TalliedAtEnd(u: Ledger, root: map<Uuid, Entry>, now: Millis)
    requires Tallied(u, root, {}, now)
    ensures Sound(u) && forall q :: u.At(q) == Total(Charges(Unexpired(root, now)), q)
    ensures Swept(root, {}, now) == Unexpired(root, now)
  {
    assert root - {} == root;
  }

  lemma CountNext(root: map<Uuid, Entry>, todo: set<Uuid>, now: Millis, id: Uuid, u: Ledger, limits: Limits)
    requires limits.Valid() && Tallied(u, root, todo, now) && id in todo && id in root && now < ExpiresAt(root[id])
    requires forall q :: Total(Charges(root), q) <= U64_MAX
    ensures Tallied(AddExisting(u, ChargeOf(root[id])), root, todo - {id}, now)
  {
    var before, after := Unexpired(root - todo, now), Unexpired(root - (todo - {id}), now);
    assert after == before[id := root[id]];
    forall q ensures Total(Charges(after), q) == u.At(q) + Weight(ChargeOf(root[id]), q) <= U64_MAX {
      ChargesInsert(before, id, root[id], q);
      var gone := root.Keys - after.Keys;
      TotalDrop(Charges(root), gone, q);
      assert Charges(root) - gone == Charges(after);
      assert Total(Charges(root), q) <= U64_MAX;
    }
    AddSound(u, ChargeOf(root[id]), limits);
  }
}
