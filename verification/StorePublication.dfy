/** What `create` publishes, and how long it stays. */
module StorePublication {
  import opened Wrappers
  import opened Quota
  import opened DigestText
  import opened ArtifactTypes
  import opened ScopeIsolation
  import opened StoreMachine
  import opened StoreInvariant
  import opened StoreSafety
  import opened StoreCrash

  // ------------------------------------------------------------ reading

  /** `open_body` on the records of the store. */
  function OpenBody(s: Store, id: Uuid, scope: Scope, now: Millis): Response {
    Perform(s.hash, s.durable, scope, Operation(id, now, false, NoFault)).response
  }

  /** In a reachable store, reading never finds corruption. */
  lemma NoCorruption(s: Store, id: Uuid, scope: Scope, now: Millis)
    requires Inv(s)
    ensures OpenBody(s, id, scope, now).Refused? ==>
      OpenBody(s, id, scope, now).error in {NotFound, Expired}
  {
    hide ValidateCommon;
    hide Load;
  }

  // ------------------------------------------------------------ publication

  /** The bytes handed to the stream of one create. */
  function Streamed(events: seq<Event>, id: Uuid): seq<byte> {
    if events == [] then []
    else (if events[0].Write? && events[0].id == id then events[0].chunk else [])
         + Streamed(events[1..], id)
  }

  /** The steps with which a create gives up its reservation. */
  predicate Ends(e: Event, id: Uuid) {
    (e.Commit? || e.Keep? || e.WithdrawUncertain? || e.Release?) && e.id == id
  }

  /** When the record of one create was described, if it was; `at` is what came before. */
  function FinishedAt(events: seq<Event>, id: Uuid, at: Option<Millis>): Option<Millis> {
    if events == [] then at
    else FinishedAt(events[1..], id, if events[0].Finish? && events[0].id == id then Some(events[0].now) else at)
  }

  /** A record for `request`, published at `at`, with this body. */
  ghost predicate Carries(hash: seq<byte> -> Digest, entry: Entry, id: Uuid, request: ArtifactCreate,
                          at: Option<Millis>, body: seq<byte>) {
    && |body| == request.expectedSize
    && (request.expectedSha256.None? || request.expectedSha256.value == hash(body))
    && Load(entry, id).Success? && Load(entry, id).value.1 == body
    && at.Some? && MetadataOf(Load(entry, id).value.0, id, request, at.value, hash(body))
  }

  /** Whoever has the four attributes of the request reads the record until it expires, and nobody else does. */
  predicate AnswersFor(request: ArtifactCreate, scope: Scope, now: Millis, metadata: ArtifactMetadata, body: seq<byte>,
                       response: Response) {
    if && scope.owner == request.owner && scope.purpose == request.purpose
       && scope.generation == request.generation && scope.provenance == request.provenance
    then now < request.expiresAt ==> response == Contents(metadata, body)
    else response == Refused(NotFound)
  }

  /** The create of `id` has so far been given exactly these bytes. */
  ghost predicate Tracks(s: Store, id: Uuid, request: ArtifactCreate, at: Option<Millis>, body: seq<byte>) {
    && id in s.flights && id in s.active
    && var f := s.flights[id];
       && f.request == request
       && (f.phase == Streaming ==> f.staged == Entry(Some(body), None))
       && (f.phase == Described || f.phase == Renamed || f.phase == Withdrawn ==>
             Carries(s.hash, f.staged, id, request, at, body))
  }

  lemma FinishCarries(s: Store, id: Uuid, now: Millis, length: nat, body: seq<byte>)
    requires CanFinish(s, id, now, length) && Body(s, id) == body
    requires s.flights[id].request.Validate().Success?
    ensures var t := DoFinish(s, id, now, length);
      Carries(s.hash, t.flights[id].staged, id, s.flights[id].request, Some(now), body)
  {
    hide ValidateCommon;
    hide Load;
    StagedLoads(s.hash, s.flights[id].request, s.limits, id, now, body, length);
  }

  lemma StepTracks(s: Store, e: Event, id: Uuid, request: ArtifactCreate, at: Option<Millis>, body: seq<byte>)
    requires Enabled(s, e) && !Ends(e, id)
    requires Tracks(s, id, request, at, body) && request.Validate().Success?
    ensures Tracks(Apply(s, e), id, request, if e.Finish? && e.id == id then Some(e.now) else at,
                   body + if e.Write? && e.id == id then e.chunk else [])
  {
    assert body + [] == body;
    if e.Finish? && e.id == id {
      FinishCarries(s, id, e.now, e.length, body);
      hide Carries, ValidateCommon, ValidateTimeAndSize, Load, StagedEntry, Describe;
      assert Apply(s, e) == DoFinish(s, id, e.now, e.length);
    } else {
      hide Carries, Enabled, Apply;
      StepMoves(s, e, id);
    }
  }

  /** A create's own record of itself changes only in its phase and by its own writes. */
  lemma StepMoves(s: Store, e: Event, id: Uuid)
    requires Enabled(s, e) && !Ends(e, id) && id in s.flights && id in s.active && !(e.Finish? && e.id == id)
    ensures Apply(s, e).hash == s.hash && id in Apply(s, e).flights && id in Apply(s, e).active
    ensures var f, g := s.flights[id], Apply(s, e).flights[id];
      && g.request == f.request
      && (if e.Write? && e.id == id
          then && f.phase == g.phase == Streaming
               && g.staged == Entry(Some(Body(s, id) + e.chunk), None)
          else && g.staged == f.staged
               && (g.phase == f.phase || g.phase == Abandoned
                   || (f.phase == Described && g.phase == Renamed) || (f.phase == Renamed && g.phase == Withdrawn)))
  {
    hide ValidateCommon, ValidateTimeAndSize, Load, Reserve, StagedEntry, Describe;
    hide Unsynced, MarkSynced, ChargeOf, AddAll, AddExisting, Quota.Remove, DigestMatches;
  }

  lemma {:induction false} RunTracks(s: Store, events: seq<Event>, id: Uuid, request: ArtifactCreate,
                                     at: Option<Millis>, body: seq<byte>)
    requires Runs(s, events) && (forall i :: 0 <= i < |events| ==> !Ends(events[i], id))
    requires Tracks(s, id, request, at, body) && request.Validate().Success?
    ensures Tracks(After(s, events), id, request, FinishedAt(events, id, at), body + Streamed(events, id))
    decreases |events|
  {
    hide Enabled;
    hide Apply;
    hide Tracks;
    if events == [] {
      assert body + [] == body;
    } else {
      var e := events[0];
      var more := if e.Write? && e.id == id then e.chunk else [];
      var next := if e.Finish? && e.id == id then Some(e.now) else at;
      StepTracks(s, e, id, request, at, body);
      RunTracks(Apply(s, e), events[1..], id, request, next, body + more);
      assert body + more + Streamed(events[1..], id) == body + Streamed(events, id);
    }
  }

  /** A record carrying a request is what an open with its attributes returns until it expires. */
  lemma CarriedOpens(s: Store, id: Uuid, request: ArtifactCreate, at: Option<Millis>, body: seq<byte>, scope: Scope,
                     now: Millis)
    requires id in s.durable && Carries(s.hash, s.durable[id], id, request, at, body)
    ensures AnswersFor(request, scope, now, Load(s.durable[id], id).value.0, body, OpenBody(s, id, scope, now))
  {
    hide ValidateCommon;
    hide Load;
  }

  lemma CommitPublishes(s: Store, id: Uuid, request: ArtifactCreate, at: Option<Millis>, body: seq<byte>)
    requires id in s.flights && FlightOk(s, id) && Tracks(s, id, request, at, body)
    requires Enabled(s, Commit(id))
    ensures var t := Apply(s, Commit(id));
      && id in t.durable && id !in t.recent && id !in t.active && t.holder.Free?
      && Carries(t.hash, t.durable[id], id, request, at, body)
  {
    hide ValidateCommon;
    hide Load;
    hide Carries;
  }

  /**
   A create that was admitted and, after any interleaving with other operations, commits: the
   record under its final name is exactly the bytes streamed and the metadata of the request,
   the root was synced after it, and opens return it before its expiry exactly to those with the
   owner, purpose, generation and provenance of the request.
   */
  lemma CreatePublishes(s: Store, id: Uuid, request: ArtifactCreate, now: Millis,
                        events: seq<Event>, scope: Scope, later: Millis)
    requires Inv(s) && Enabled(s, Admit(id, request, now))
    requires Runs(Apply(s, Admit(id, request, now)), events)
    requires forall i :: 0 <= i < |events| ==> !Ends(events[i], id)
    requires Enabled(After(Apply(s, Admit(id, request, now)), events), Commit(id))
    ensures var t := Apply(After(Apply(s, Admit(id, request, now)), events), Commit(id));
      && id in t.durable && id !in t.recent && id !in t.active && t.holder.Free?
      && Carries(t.hash, t.durable[id], id, request, FinishedAt(events, id, None), Streamed(events, id))
      && AnswersFor(request, scope, later, Load(t.durable[id], id).value.0, Streamed(events, id),
                    OpenBody(t, id, scope, later))
  {
    hide Inv;
    hide Apply;
    hide Load;
    hide OpenBody;
    var a := Apply(s, Admit(id, request, now));
    AdmitTracks(s, id, request, now);
    StepKeepsInv(s, Admit(id, request, now));
    RunTracks(a, events, id, request, None, []);
    RunKeepsInv(a, events);
    var u := After(a, events);
    assert [] + Streamed(events, id) == Streamed(events, id);
    assert id in u.flights && FlightOk(u, id) by {
      InvFacts(u);
    }
    CommitPublishes(u, id, request, FinishedAt(events, id, None), Streamed(events, id));
    CarriedOpens(Apply(u, Commit(id)), id, request, FinishedAt(events, id, None), Streamed(events, id), scope, later);
  }

  lemma AdmitTracks(s: Store, id: Uuid, request: ArtifactCreate, now: Millis)
    requires Enabled(s, Admit(id, request, now))
    ensures Tracks(Apply(s, Admit(id, request, now)), id, request, None, [])
    ensures request.Validate().Success?
  {
    hide ValidateCommon;
    hide Reserve;
  }

  // ------------------------------------------------------------ immutability

  /** No step of `e` may take the record away: it is not deleted, and it has not expired. */
  predicate Spares(e: Event, id: Uuid, expiresAt: Millis) {
    match e
    case Remove(r) => r.id == id ==> !r.delete && r.now < expiresAt
    case RemoveFailed(r, _) => r.id == id ==> !r.delete && r.now < expiresAt
    case CleanStart(now) => now < expiresAt
    case _ => true
  }

  /** A record that was acknowledged: synced, and not being withdrawn or swept. */
  predicate Established(s: Store, id: Uuid, entry: Entry) {
    && id in s.durable && s.durable[id] == entry && id !in s.recent
    && s.holder != Publishing(id)
    && (s.holder.Cleaning? ==> s.holder.now < ExpiresAt(entry))
  }

  lemma StepKeepsRecord(s: Store, e: Event, id: Uuid, entry: Entry)
    requires Enabled(s, e) && Established(s, id, entry) && Spares(e, id, ExpiresAt(entry))
    ensures Established(Apply(s, e), id, entry)
  {
    hide ValidateCommon, Load, Reserve, Unsynced, MarkSynced, ChargeOf, Describe, StagedEntry, AddAll;
    hide ValidateTimeAndSize, DigestMatches, AddExisting, Quota.Remove;
  }

  /**
   An acknowledged record stays as it is through every other operation, and through a crash
   at any point, until it expires or is deleted in its own scope.
   */
  lemma {:induction false} AcknowledgedSurvives(s: Store, events: seq<Event>, id: Uuid, entry: Entry)
    requires Runs(s, events) && Established(s, id, entry)
    requires forall i :: 0 <= i < |events| ==> Spares(events[i], id, ExpiresAt(entry))
    ensures Established(After(s, events), id, entry)
    ensures forall disk :: CrashDisk(After(s, events), disk) ==> id in disk && disk[id] == entry
    decreases |events|
  {
    hide Enabled;
    hide Apply;
    if events != [] {
      StepKeepsRecord(s, events[0], id, entry);
      AcknowledgedSurvives(Apply(s, events[0]), events[1..], id, entry);
    }
  }

  // ------------------------------------------------------------ from the first byte to the last reader

  lemma CarriedExpiry(hash: seq<byte> -> Digest, entry: Entry, id: Uuid, request: ArtifactCreate, at: Option<Millis>,
                      body: seq<byte>)
    requires Carries(hash, entry, id, request, at, body)
    ensures ExpiresAt(entry) == request.expiresAt
  {
    hide ValidateCommon, ParseDigest;
  }

  /**
   A create is admitted, runs among any other operations and commits; then anything happens that
   does not delete the record in its scope or outlive it. Before its expiry, an open with the owner,
   purpose, generation and provenance of the request returns exactly the bytes streamed and the
   metadata of the request, any other open finds nothing, and so on what a crash at that point
   leaves.
   */
  lemma PublishedStaysReadable(s: Store, id: Uuid, request: ArtifactCreate, now: Millis, events: seq<Event>,
                               after: seq<Event>, scope: Scope, later: Millis)
    requires Inv(s) && Enabled(s, Admit(id, request, now))
    requires Runs(Apply(s, Admit(id, request, now)), events)
    requires forall i :: 0 <= i < |events| ==> !Ends(events[i], id)
    requires Enabled(After(Apply(s, Admit(id, request, now)), events), Commit(id))
    requires Runs(Apply(After(Apply(s, Admit(id, request, now)), events), Commit(id)), after)
    requires forall i :: 0 <= i < |after| ==> Spares(after[i], id, request.expiresAt)
    ensures var t := Apply(After(Apply(s, Admit(id, request, now)), events), Commit(id));
      var u := After(t, after);
      && id in t.durable
      && Carries(u.hash, t.durable[id], id, request, FinishedAt(events, id, None), Streamed(events, id))
      && var metadata := Load(t.durable[id], id).value.0;
         && AnswersFor(request, scope, later, metadata, Streamed(events, id), OpenBody(u, id, scope, later))
         && forall disk :: CrashDisk(u, disk) ==>
              AnswersFor(request, scope, later, metadata, Streamed(events, id),
                         Perform(u.hash, disk, scope, Operation(id, later, false, NoFault)).response)
  {
    hide Inv, Enabled, Apply, Load, Runs, CrashDisk;
    CreatePublishes(s, id, request, now, events, scope, later);
    var t := Apply(After(Apply(s, Admit(id, request, now)), events), Commit(id));
    var u := After(t, after);
    var at, body := FinishedAt(events, id, None), Streamed(events, id);
    CarriedExpiry(t.hash, t.durable[id], id, request, at, body);
    AcknowledgedSurvives(t, after, id, t.durable[id]);
    RunKeepsHash(t, after);
    hide Carries, AnswersFor;
    CarriedOpens(u, id, request, at, body, scope, later);
    forall disk | CrashDisk(u, disk)
      ensures Perform(u.hash, disk, scope, Operation(id, later, false, NoFault)).response == OpenBody(u, id, scope, later)
    {
      SameRecordSameAnswer(u.hash, u.durable, disk, scope, Operation(id, later, false, NoFault));
    }
  }

  lemma {:induction false} RunKeepsHash(s: Store, events: seq<Event>)
    requires Runs(s, events)
    ensures After(s, events).hash == s.hash
    decreases |events|
  {
    hide Enabled, Apply;
    if events != [] {
      StepFrame(s, events[0]);
      RunKeepsHash(Apply(s, events[0]), events[1..]);
    }
  }

  lemma SameRecordSameAnswer(hash: seq<byte> -> Digest, left: Disk, right: Disk, scope: Scope, op: Operation)
    requires op.id in left && op.id in right && left[op.id] == right[op.id]
    ensures Perform(hash, left, scope, op).response == Perform(hash, right, scope, op).response
  {
    hide Load, DigestMatches;
  }
}
