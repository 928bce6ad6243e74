/**
 The artifact store through any number of processes. A process opens the root it finds, works, and
 ends: it is killed at any point, the opening included, with the machine still up, or the power
 fails. A kill leaves the root as it is and what was unsynced still unsynced; a power loss leaves
 what had reached the disk, and nothing of that is unsynced.
 */
module StoreLives {
  import opened Wrappers
  import opened Quota
  import opened DigestText
  import opened ArtifactTypes
  import opened ScopeIsolation
  import opened StoreMachine
  import opened StoreInvariant
  import opened StoreSafety
  import opened StoreCrash
  import opened StoreReopen
  import opened StorePublication

  datatype Stop =
    | Kill
    | PowerLoss(records: map<Uuid, Entry>, staging: map<Uuid, Entry>)

  ghost predicate CanStop(s: Store, stop: Stop) {
    stop.PowerLoss? ==> CrashDisk(s, stop.records)
  }

  /** The root the next process finds. */
  ghost function Left(s: Store, stop: Stop): Root {
    match stop
    case Kill => Root(s.durable, s.temporary, s.recent, Revivable(s))
    case PowerLoss(records, staging) => Root(records, staging, {}, [])
  }

  /** The power failed while an unsynced removal was off the books. */
  ghost predicate Uncovered(s: Store, stop: Stop) {
    stop.PowerLoss? && s.stray != []
  }

  /** The records found add up to at most u64::MAX, which only an uncovered power loss can break. */
  ghost predicate InRange(s: Store, stop: Stop) {
    Uncovered(s, stop) ==> forall q :: Total(Charges(Left(s, stop).records), q) <= U64_MAX
  }

  // ------------------------------------------------------------ one end and one opening

  /** The records found after a stop add up to what the books say, unless a removal was off them. */
  lemma LeftWithinBooks(s: Store, stop: Stop, q: Query)
    requires Inv(s) && CanStop(s, stop) && !Uncovered(s, stop)
    ensures Total(Charges(Left(s, stop).records), q) <= s.usage.At(q) <= U64_MAX
  {
    hide Inv, CrashDisk, Charges, Total, Revivable;
    InvFacts(s);
    assert s.usage.At(q) <= U64_MAX;
    if stop.Kill? {
      NeverUnderstated(s, q);
    } else {
      CrashWithinBooks(s, stop.records, q);
    }
  }

  lemma LeftIsSane(s: Store, stop: Stop)
    requires Inv(s) && CanStop(s, stop) && InRange(s, stop)
    ensures Sane(s.limits, s.hash, Left(s, stop))
  {
    hide CrashDisk, Complete, Revivable, Accounting, FlightOk;
    InvLimits(s);
    if !Uncovered(s, stop) {
      forall q ensures Total(Charges(Left(s, stop).records), q) <= U64_MAX {
        LeftWithinBooks(s, stop, q);
      }
    }
    if stop.Kill? {
      RevivableComplete(s);
    } else {
      CrashAtomic(s, stop.records);
    }
  }

  /**
   Stop at any point of any run and reopen by any pass: nothing is staged, the records are exactly
   the unexpired ones of those found, the books are their total, the invariant holds, and a store
   within its limits is within them again, unless the power failed with an unsynced removal off
   the books.
   */
  lemma CrashAndReopen(s: Store, stop: Stop, now: Millis, visits: seq<Event>)
    requires Inv(s) && CanStop(s, stop) && InRange(s, stop)
    requires Visits(visits) && Runs(Found(s.limits, s.hash, Left(s, stop)), Pass(now, visits))
    ensures var t := After(Found(s.limits, s.hash, Left(s, stop)), Pass(now, visits));
      && t == Opened(s.limits, s.hash, Left(s, stop), now)
      && Inv(t) && t.holder.Free? && t.temporary == map[]
      && t.durable == Unexpired(Left(s, stop).records, now)
      && (forall q :: t.usage.At(q) == Total(Charges(t.durable), q))
      && (s.usage.Within(s.limits) && !Uncovered(s, stop) ==> t.usage.Within(s.limits))
  {
    hide Inv, AddAll, CrashDisk, Found, Sane, Left;
    var root := Left(s, stop);
    LeftIsSane(s, stop);
    PassOpens(s.limits, s.hash, root, now, visits);
    OpenedInv(s.limits, s.hash, root, now);
    var t := Opened(s.limits, s.hash, root, now);
    if s.usage.Within(s.limits) && !Uncovered(s, stop) {
      forall q ensures t.usage.At(q) <= s.limits.Cap(q) {
        UnexpiredTotal(root.records, now, q);
        LeftWithinBooks(s, stop, q);
        assert s.usage.At(q) <= s.limits.Cap(q);
      }
    }
  }

  /**
   The one opening that takes an unsynced removal off the books: after a kill with such a removal
   outstanding, when the pass finds nothing to remove and so does not sync the root.
   */
  lemma StrayOnlyFromIdleOpening(s: Store, stop: Stop, now: Millis, visits: seq<Event>)
    requires Inv(s) && CanStop(s, stop) && InRange(s, stop)
    requires Visits(visits) && Runs(Found(s.limits, s.hash, Left(s, stop)), Pass(now, visits))
    ensures After(Found(s.limits, s.hash, Left(s, stop)), Pass(now, visits)).stray != []
       <==> stop.Kill? && Revivable(s) != [] && Left(s, stop).Idle(now)
  {
    hide Inv, CrashDisk, Found, Revivable, AddAll;
    CrashAndReopen(s, stop, now, visits);
  }

  /**
   A record of the reopened store may still be lost to a power failure exactly when its name had
   not been synced before a kill and the pass found nothing to remove.
   */
  lemma UncertainAfterReopening(s: Store, stop: Stop, now: Millis, visits: seq<Event>, id: Uuid)
    requires Inv(s) && CanStop(s, stop) && InRange(s, stop)
    requires Visits(visits) && Runs(Found(s.limits, s.hash, Left(s, stop)), Pass(now, visits))
    requires id in Unexpired(Left(s, stop).records, now)
    ensures var t := After(Found(s.limits, s.hash, Left(s, stop)), Pass(now, visits));
      (exists disk :: CrashDisk(t, disk) && id !in disk)
      <==> stop.Kill? && id in s.recent && Left(s, stop).Idle(now)
  {
    hide Inv, Found, AddAll, Revivable;
    CrashAndReopen(s, stop, now, visits);
    var t := After(Found(s.limits, s.hash, Left(s, stop)), Pass(now, visits));
    if id in t.recent {
      assert CrashDisk(t, t.durable - {id});
    }
  }

  // ------------------------------------------------------------ whole histories

  /**
   One process: it visits the root, and then is stopped in the middle of that, or gives up with an
   error, or completes the pass and goes on to any run.
   */
  datatype Life = Life(now: Millis, visits: seq<Event>, rest: seq<Event>, stop: Stop)
  {
    predicate Opens() {
      && Visits(visits)
      && (rest == [] || rest[0].CleanEnd? || (rest[0].CleanStop? && |rest| == 1))
    }

    function Events(): seq<Event> {
      [CleanStart(now)] + visits + rest
    }
  }

  ghost predicate Lived(limits: Limits, hash: seq<byte> -> Digest, root: Root, life: Life) {
    && life.Opens() && Runs(Found(limits, hash, root), life.Events())
    && CanStop(After(Found(limits, hash, root), life.Events()), life.stop)
  }

  ghost function Outlived(limits: Limits, hash: seq<byte> -> Digest, root: Root, life: Life): Root
    requires Lived(limits, hash, root, life)
  {
    Left(After(Found(limits, hash, root), life.Events()), life.stop)
  }

  ghost predicate Lives(limits: Limits, hash: seq<byte> -> Digest, root: Root, lives: seq<Life>)
    decreases |lives|
  {
    lives == [] ||
    (Lived(limits, hash, root, lives[0]) && Lives(limits, hash, Outlived(limits, hash, root, lives[0]), lives[1..]))
  }

  /** The root after all of them. */
  ghost function Remains(limits: Limits, hash: seq<byte> -> Digest, root: Root, lives: seq<Life>): Root
    requires Lives(limits, hash, root, lives)
    decreases |lives|
  {
    if lives == [] then root
    else Remains(limits, hash, Outlived(limits, hash, root, lives[0]), lives[1..])
  }

  /** The power never failed while an unsynced removal was off the books. */
  ghost predicate Covered(limits: Limits, hash: seq<byte> -> Digest, root: Root, lives: seq<Life>)
    requires Lives(limits, hash, root, lives)
    decreases |lives|
  {
    lives == [] ||
    (&& !Uncovered(After(Found(limits, hash, root), lives[0].Events()), lives[0].stop)
     && Covered(limits, hash, Outlived(limits, hash, root, lives[0]), lives[1..]))
  }

  /** The records of a root are within the limits. */
  ghost predicate Fits(limits: Limits, root: Root) {
    forall q :: Total(Charges(root.records), q) <= limits.Cap(q)
  }

  lemma LifeLeavesSane(limits: Limits, hash: seq<byte> -> Digest, root: Root, life: Life)
    requires Sane(limits, hash, root) && Lived(limits, hash, root, life)
    requires !Uncovered(After(Found(limits, hash, root), life.Events()), life.stop)
    ensures Sane(limits, hash, Outlived(limits, hash, root, life))
    ensures Inv(After(Found(limits, hash, root), life.Events()))
  {
    hide Inv, Sane, CanStop, Left, Uncovered;
    FoundInv(limits, hash, root);
    RunKeepsInv(Found(limits, hash, root), life.Events());
    RunKeepsHash(Found(limits, hash, root), life.Events());
    QuotaSafety(Found(limits, hash, root), life.Events(), Query(None, Objects));
    LeftIsSane(After(Found(limits, hash, root), life.Events()), life.stop);
  }

  /** A run in a root that fits stays within the limits, the opening included. */
  lemma LifeWithinLimits(limits: Limits, hash: seq<byte> -> Digest, root: Root, events: seq<Event>)
    requires Sane(limits, hash, root) && Fits(limits, root) && Runs(Found(limits, hash, root), events)
    ensures var t := After(Found(limits, hash, root), events);
      Inv(t) && t.limits == limits && t.usage.Within(limits) && forall q :: Held(t, q) <= t.usage.At(q)
  {
    hide Inv, Sane, Held;
    var s := Found(limits, hash, root);
    FoundInv(limits, hash, root);
    RunKeepsInv(s, events);
    var t := After(s, events);
    forall q ensures t.limits == limits && t.usage.At(q) <= limits.Cap(q) && Held(t, q) <= t.usage.At(q) {
      QuotaSafety(s, events, q);
      assert s.usage.At(q) == Total(Charges(root.records), q) <= limits.Cap(q);
    }
    assert t.limits == limits by {
      QuotaSafety(s, events, Query(None, Objects));
    }
  }

  lemma LifeLeavesFitting(limits: Limits, hash: seq<byte> -> Digest, root: Root, life: Life)
    requires Sane(limits, hash, root) && Fits(limits, root) && Lived(limits, hash, root, life)
    requires !Uncovered(After(Found(limits, hash, root), life.Events()), life.stop)
    ensures Fits(limits, Outlived(limits, hash, root, life))
  {
    hide Inv, Sane, CanStop, Left, Found;
    LifeWithinLimits(limits, hash, root, life.Events());
    var t := After(Found(limits, hash, root), life.Events());
    forall q ensures Total(Charges(Left(t, life.stop).records), q) <= limits.Cap(q) {
      LeftWithinBooks(t, life.stop, q);
      assert t.usage.At(q) <= limits.Cap(q);
    }
  }

  /**
   Crash safety over whole histories: from a root within the limits, through any number of
   processes with any interleaving and any failures in each, killed or cut off at any point, the
   books of the process now running are within the limits at every point and cover what is held,
   provided the power never failed while an unsynced removal was off the books.
   */
  lemma {:induction false} CrashSafety(
    limits: Limits, hash: seq<byte> -> Digest, root: Root, lives: seq<Life>, events: seq<Event>)
    requires Sane(limits, hash, root) && Fits(limits, root)
    requires Lives(limits, hash, root, lives) && Covered(limits, hash, root, lives)
    requires Runs(Found(limits, hash, Remains(limits, hash, root, lives)), events)
    ensures var t := After(Found(limits, hash, Remains(limits, hash, root, lives)), events);
      Inv(t) && t.usage.Within(limits) && forall q :: Held(t, q) <= t.usage.At(q)
    decreases |lives|
  {
    hide Inv, Sane, Fits, Lived, Found, Runs, After, Held;
    if lives == [] {
      LifeWithinLimits(limits, hash, root, events);
    } else {
      LifeLeavesSane(limits, hash, root, lives[0]);
      LifeLeavesFitting(limits, hash, root, lives[0]);
      CrashSafety(limits, hash, Outlived(limits, hash, root, lives[0]), lives[1..], events);
    }
  }

  // ------------------------------------------------------------ the failing case

  /**
   What goes wrong after an idle opening, with no cleanup anywhere: in any store with room for one
   record, delete that record without a successful sync, kill the process, open the root again and
   publish another. A power loss before the next sync may leave both.
   */
  lemma IdleOpeningOvercommits(s: Store, r: Removal, id: Uuid, request: ArtifactCreate,
                               body: seq<byte>, length: nat)
    requires s.limits.Valid() && s.limits.maxObjects == 1
    requires CanRemove(s, r) && s.durable.Keys == {r.id} && id != r.id
    requires s.temporary == map[] && s.active == map[] && s.phantoms == [] && s.stray == []
    requires request.Validate().Success? && request.expectedSha256.None?
    requires ValidateTimeAndSize(request, s.limits, r.now).Success?
    requires |body| == request.expectedSize && length <= MAX_METADATA_BYTES
    ensures Runs(s, [Remove(r), Removed(false)])
    ensures var u := After(s, [Remove(r), Removed(false)]);
      var f := Found(u.limits, u.hash, Left(u, Kill));
      var events := Pass(r.now, []) + UnsyncedCreate(id, request, body, r.now, length);
      && Runs(f, events)
      && exists disk :: && CrashDisk(After(f, events), disk)
                        && Total(Charges(disk), Query(None, Objects)) > s.limits.maxObjects
  {
    hide ValidateCommon, Load, CrashDisk, Total, Enabled, Apply, Runs, After, Charges, AddAll;
    hide UnsyncedCreate, ValidateTimeAndSize, Vanish, Unsynced;
    UnsyncedDelete(s, r);
    LastRecordVanishes(s, r.id);
    var u := Vanish(s, r.id);
    var f := Found(u.limits, u.hash, Left(u, Kill));
    IdleCleanup(f, r.now);
    assert Pass(r.now, []) == [CleanStart(r.now), CleanEnd];
    var t := After(f, Pass(r.now, []));
    assert Revivable(u) == [Phantom(r.id, s.durable[r.id], true)];
    NothingOutstanding(f);
    var create := UnsyncedCreate(id, request, body, r.now, length);
    PublishIntoEmpty(t, id, request, body, r.now, length);
    BothMayRemain(After(t, create), id, Phantom(r.id, s.durable[r.id], true));
    RunsConcat(f, Pass(r.now, []), create);
  }

  lemma NothingOutstanding(s: Store)
    requires s.phantoms == []
    ensures s.stray + Unsynced(s.phantoms) == s.stray
  {
  }

  // ------------------------------------------------------------ records outlive processes

  /** No process of these takes the record away: none deletes it, and none is later than its expiry. */
  predicate SparedBy(lives: seq<Life>, id: Uuid, expiresAt: Millis) {
    forall i :: 0 <= i < |lives| ==> SparedIn(lives[i].Events(), id, expiresAt)
  }

  predicate SparedIn(events: seq<Event>, id: Uuid, expiresAt: Millis) {
    forall i :: 0 <= i < |events| ==> Spares(events[i], id, expiresAt)
  }

  /** The root holds the record, and its name has been synced. */
  predicate Keeps(root: Root, id: Uuid, entry: Entry) {
    id in root.records && root.records[id] == entry && id !in root.recent
  }

  lemma StopKeeps(s: Store, stop: Stop, id: Uuid, entry: Entry)
    requires Established(s, id, entry) && CanStop(s, stop)
    ensures Keeps(Left(s, stop), id, entry)
  {
    hide Revivable;
  }

  /** An acknowledged record is still there after any number of processes, however each ended. */
  lemma {:induction false} RecordOutlives(
    limits: Limits, hash: seq<byte> -> Digest, root: Root, lives: seq<Life>, id: Uuid, entry: Entry)
    requires Keeps(root, id, entry) && Lives(limits, hash, root, lives) && SparedBy(lives, id, ExpiresAt(entry))
    ensures Keeps(Remains(limits, hash, root, lives), id, entry)
    decreases |lives|
  {
    hide Runs, After, CanStop, Left, Spares;
    if lives != [] {
      var life := lives[0];
      assert SparedIn(life.Events(), id, ExpiresAt(entry));
      AcknowledgedSurvives(Found(limits, hash, root), life.Events(), id, entry);
      StopKeeps(After(Found(limits, hash, root), life.Events()), life.stop, id, entry);
      RecordOutlives(limits, hash, Outlived(limits, hash, root, life), lives[1..], id, entry);
    }
  }

  /**
   From the stream to a reader many processes later: a create is admitted, runs among any other
   operations and commits; the process goes on and is stopped; others follow and are stopped. While
   none deletes the record in its scope and it has not expired, an open with the owner, purpose,
   generation and provenance of the request returns exactly the bytes streamed and the metadata of
   the request, and any other open finds nothing.
   */
  lemma PublishedOutlives(s: Store, id: Uuid, request: ArtifactCreate, now: Millis, events: seq<Event>,
                          after: seq<Event>, stop: Stop, lives: seq<Life>, scope: Scope, later: Millis)
    requires Inv(s) && Enabled(s, Admit(id, request, now))
    requires Runs(Apply(s, Admit(id, request, now)), events)
    requires forall i :: 0 <= i < |events| ==> !Ends(events[i], id)
    requires Enabled(After(Apply(s, Admit(id, request, now)), events), Commit(id))
    requires Runs(Apply(After(Apply(s, Admit(id, request, now)), events), Commit(id)), after)
    requires SparedIn(after, id, request.expiresAt) && SparedBy(lives, id, request.expiresAt)
    requires var u := After(Apply(After(Apply(s, Admit(id, request, now)), events), Commit(id)), after);
      CanStop(u, stop) && Lives(u.limits, u.hash, Left(u, stop), lives)
    ensures var t := Apply(After(Apply(s, Admit(id, request, now)), events), Commit(id));
      var u := After(t, after);
      && id in t.durable
      && Carries(u.hash, t.durable[id], id, request, FinishedAt(events, id, None), Streamed(events, id))
      && AnswersFor(request, scope, later, Load(t.durable[id], id).value.0, Streamed(events, id),
                    Perform(u.hash, Remains(u.limits, u.hash, Left(u, stop), lives).records, scope,
                            Operation(id, later, false, NoFault)).response)
  {
    hide Inv, Enabled, Apply, Load, Runs, CrashDisk, Lives, Left, CanStop, Perform, Remains, SparedBy;
    PublishedStaysReadable(s, id, request, now, events, after, scope, later);
    var t := Apply(After(Apply(s, Admit(id, request, now)), events), Commit(id));
    var u := After(t, after);
    var entry := t.durable[id];
    CreatePublishes(s, id, request, now, events, scope, later);
    CarriedExpiry(u.hash, entry, id, request, FinishedAt(events, id, None), Streamed(events, id));
    hide Carries, AnswersFor;
    AcknowledgedSurvives(t, after, id, entry);
    StopKeeps(u, stop, id, entry);
    RecordOutlives(u.limits, u.hash, Left(u, stop), lives, id, entry);
    SameRecordSameAnswer(u.hash, u.durable, Remains(u.limits, u.hash, Left(u, stop), lives).records, scope,
                         Operation(id, later, false, NoFault));
  }
}
