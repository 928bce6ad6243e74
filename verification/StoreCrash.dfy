/** Crashes of the artifact store at every point of every run, and reopening afterwards. */
module StoreCrash {
  import opened Wrappers
  import opened Quota
  import opened DigestText
  import opened ArtifactTypes
  import opened StoreMachine
  import opened StoreInvariant
  import opened StoreAccounting
  import opened StoreSafety

  // ------------------------------------------------------------ what a crash leaves behind

  /** Removals that a crash may undo: the root was not synced after them. */
  ghost function Revivable(s: Store): seq<Phantom> {
    s.stray + Unsynced(s.phantoms)
    + if s.holder.Publishing? && InPhase(s, s.holder.id, Withdrawn)
      then [Phantom(s.holder.id, s.flights[s.holder.id].staged, true)] else []
  }

  predicate ComesFrom(disk: map<Uuid, Entry>, durable: map<Uuid, Entry>, phantoms: seq<Phantom>) {
    forall id :: id in disk ==>
      || (id in durable && disk[id] == durable[id])
      || exists i :: 0 <= i < |phantoms| && phantoms[i].id == id && phantoms[i].entry == disk[id]
  }

  /**
   The records a crash in state `s` may leave under final names: everything synced is there,
   and each unsynced addition or removal may or may not have reached the disk.
   */
  ghost predicate CrashDisk(s: Store, disk: map<Uuid, Entry>) {
    && (forall id :: id in s.durable && id !in s.recent ==> id in disk && disk[id] == s.durable[id])
    && ComesFrom(disk, s.durable, Revivable(s))
  }

  /** At every crash point every entry under a final name is a complete record. */
  lemma CrashAtomic(s: Store, disk: map<Uuid, Entry>)
    requires Inv(s) && CrashDisk(s, disk)
    ensures forall id :: id in disk ==> Complete(s.hash, disk[id], id)
  {
    hide Complete;
    RevivableComplete(s);
  }

  lemma RevivableComplete(s: Store)
    requires Inv(s)
    ensures AllComplete(s, Revivable(s))
  {
    hide Complete, ValidateCommon, Unsynced;
    UnsyncedComplete(s, s.phantoms);
    var all := Revivable(s);
    forall i | 0 <= i < |all| ensures Complete(s.hash, all[i].entry, all[i].id) {
      if i >= |s.stray| + |Unsynced(s.phantoms)| {
        assert FlightOk(s, s.holder.id);
      }
    }
  }

  lemma {:induction false} UnsyncedTotal(phantoms: seq<Phantom>, q: Query)
    ensures PhantomTotal(Unsynced(phantoms), q) <= PhantomTotal(phantoms, q)
    decreases |phantoms|
  {
    if phantoms != [] {
      var front, last := phantoms[..|phantoms| - 1], phantoms[|phantoms| - 1];
      UnsyncedTotal(front, q);
      if last.unsynced {
        PhantomAppend(Unsynced(front), last, q);
      } else {
        assert Unsynced(phantoms) == Unsynced(front);
      }
    }
  }

  lemma {:induction false} RevivedTotal(disk: map<Uuid, Entry>, durable: map<Uuid, Entry>,
                                        phantoms: seq<Phantom>, q: Query)
    requires ComesFrom(disk, durable, phantoms)
    ensures Total(Charges(disk), q) <= Total(Charges(durable), q) + PhantomTotal(phantoms, q)
    decreases |phantoms|
  {
    if phantoms == [] {
      TotalDrop(Charges(durable), durable.Keys - disk.Keys, q);
      assert Charges(durable) - (durable.Keys - disk.Keys) == Charges(disk);
    } else {
      var front, p := phantoms[..|phantoms| - 1], phantoms[|phantoms| - 1];
      var rest := if p.id in disk && disk[p.id] == p.entry then disk - {p.id} else disk;
      forall id | id in rest && !(id in durable && rest[id] == durable[id])
        ensures exists i :: 0 <= i < |front| && front[i].id == id && front[i].entry == rest[id]
      {
        var i :| 0 <= i < |phantoms| && phantoms[i].id == id && phantoms[i].entry == disk[id];
        assert i < |front| && front[i] == phantoms[i];
      }
      RevivedTotal(rest, durable, front, q);
      if rest != disk {
        ChargesRemove(disk, p.id, q);
      }
    }
  }

  /**
   While no removal is both unsynced and off the books, no figure of the records left by a
   crash exceeds what the books said just before it.
   */
  lemma CrashWithinBooks(s: Store, disk: map<Uuid, Entry>, q: Query)
    requires Inv(s) && s.stray == [] && CrashDisk(s, disk)
    ensures Total(Charges(disk), q) <= s.usage.At(q)
  {
    hide Inv, ComesFrom, Total, PhantomTotal, Revivable, Charges, Inflight, FlightOk;
    RevivedTotal(disk, s.durable, Revivable(s), q);
    InvFacts(s);
    RevivableTotal(s, q);
    assert s.usage.At(q) == Held(s, q) + PhantomTotal(s.phantoms, q);
  }

  /** What may be revived is charged, as a phantom or with the create that is taking it back. */
  lemma RevivableTotal(s: Store, q: Query)
    requires Inv(s) && s.stray == []
    ensures PhantomTotal(Revivable(s), q) <= Total(Inflight(s), q) + PhantomTotal(s.phantoms, q)
  {
    hide Accounting, Complete, ValidateCommon, Unsynced, PhantomTotal, Total;
    UnsyncedTotal(s.phantoms, q);
    if s.holder.Publishing? && InPhase(s, s.holder.id, Withdrawn) {
      var id := s.holder.id;
      assert FlightOk(s, id);
      hide Shape;
      PhantomAppend(Unsynced(s.phantoms), Phantom(id, s.flights[id].staged, true), q);
      assert Revivable(s) == Unsynced(s.phantoms) + [Phantom(id, s.flights[id].staged, true)];
      TotalRemove(Inflight(s), id, q);
    } else {
      assert Revivable(s) == Unsynced(s.phantoms);
    }
  }

  // ------------------------------------------------------------ reopening

  function Unexpired(disk: map<Uuid, Entry>, now: Millis): map<Uuid, Entry> {
    map id | id in disk && now < ExpiresAt(disk[id]) :: disk[id]
  }

  /** The records left when all but `todo` have been visited by a pass. */
  function Swept(records: map<Uuid, Entry>, todo: set<Uuid>, now: Millis): map<Uuid, Entry> {
    map id | id in records && (id in todo || now < ExpiresAt(records[id])) :: records[id]
  }

  lemma SweptNext(records: map<Uuid, Entry>, todo: set<Uuid>, now: Millis, id: Uuid)
    requires id in todo && id in records
    ensures Swept(records, todo - {id}, now)
         == if ExpiresAt(records[id]) <= now then Swept(records, todo, now) - {id}
            else Swept(records, todo, now)
  {
  }

  /**
   A root directory as it is found: its records and staging directories, and what no sync has
   followed yet, names added and records removed.
   */
  datatype Root = Root(records: map<Uuid, Entry>, staging: map<Uuid, Entry>, recent: set<Uuid>,
                       removals: seq<Phantom>)
  {
    /** A pass at `now` finds nothing to remove, and so does not sync the root. */
    predicate Idle(now: Millis) {
      staging == map[] && forall id :: id in records ==> now < ExpiresAt(records[id])
    }
  }

  /**
   The store after `with_clock` has reconciled this root: what was unsynced still is if nothing
   was removed, and then the removals among it are off the books.
   */
  ghost function Opened(limits: Limits, hash: seq<byte> -> Digest, root: Root, now: Millis): Store {
    var durable := Unexpired(root.records, now);
    Store(limits, hash, AddAll(EMPTY, Charges(durable)), map[], map[], durable, map[],
          if root.Idle(now) then root.recent else {}, [],
          if root.Idle(now) then root.removals else [], Free)
  }

  /** A root that may be opened: complete records whose total is within range. */
  ghost predicate Sane(limits: Limits, hash: seq<byte> -> Digest, root: Root) {
    && limits.Valid()
    && (forall id :: id in root.records ==> Complete(hash, root.records[id], id))
    && (forall q :: Total(Charges(root.records), q) <= U64_MAX)
    && root.recent <= root.records.Keys
    && forall i :: 0 <= i < |root.removals| ==> Complete(hash, root.removals[i].entry, root.removals[i].id)
  }

  lemma EmptySound()
    ensures Sound(EMPTY)
  {
    BalancedEmpty();
  }

  lemma UnexpiredTotal(disk: map<Uuid, Entry>, now: Millis, q: Query)
    ensures Total(Charges(Unexpired(disk, now)), q) <= Total(Charges(disk), q)
  {
    var expired := disk.Keys - Unexpired(disk, now).Keys;
    TotalDrop(Charges(disk), expired, q);
    assert Charges(disk) - expired == Charges(Unexpired(disk, now));
  }

  lemma OpenedShape(limits: Limits, hash: seq<byte> -> Digest, root: Root, now: Millis)
    requires Sane(limits, hash, root)
    ensures Shape(Opened(limits, hash, root, now))
  {
    hide Complete;
    hide AddAll;
    hide FlightOk;
    if root.Idle(now) {
      assert Unexpired(root.records, now) == root.records;
    }
  }

  /** A reopened store satisfies the invariant, with books equal to its unexpired records. */
  lemma OpenedInv(limits: Limits, hash: seq<byte> -> Digest, root: Root, now: Millis)
    requires Sane(limits, hash, root)
    ensures Inv(Opened(limits, hash, root, now)) && Settled(Opened(limits, hash, root, now))
    ensures forall q :: Opened(limits, hash, root, now).usage.At(q)
                     == Total(Charges(Unexpired(root.records, now)), q)
  {
    hide Complete;
    hide Shape;
    hide AddAll;
    var s := Opened(limits, hash, root, now);
    OpenedShape(limits, hash, root, now);
    EmptySound();
    forall q ensures EMPTY.At(q) + Total(Charges(s.durable), q) <= U64_MAX {
      UnexpiredTotal(root.records, now, q);
      assert Total(Charges(root.records), q) <= U64_MAX;
    }
    AddAllSound(EMPTY, Charges(s.durable), limits);
    assert Inflight(s) == map[];
    forall q ensures s.usage.At(q) == Held(s, q) + PhantomTotal(s.phantoms, q) {
    }
  }

  lemma InvLimits(s: Store)
    requires Inv(s)
    ensures s.limits.Valid()
  {
    hide Complete;
    hide FlightOk;
    hide Accounting;
  }

  // ------------------------------------------------------------ the condition on stray removals

  /** A cleanup that is about to take an unsynced removal off the books. */
  predicate Forgets(s: Store, e: Event) {
    e.CleanEnd? && s.holder.Cleaning? && !s.holder.changed && Unsynced(s.phantoms) != []
  }

  /** A step that syncs the root. */
  predicate Syncs(s: Store, e: Event) {
    e.Commit? || e.WithdrawDone? || (e.Removed? && e.synced) || (e.CleanEnd? && s.holder.Cleaning? && s.holder.changed)
  }

  /**
   The one step that takes an unsynced removal off the books is a cleanup that found nothing to
   remove and therefore did not sync the root; the next sync settles it.
   */
  lemma StrayOnlyFromIdleCleanup(s: Store, e: Event)
    requires Enabled(s, e)
    ensures Apply(s, e).stray != [] <==> Forgets(s, e) || (s.stray != [] && !Syncs(s, e))
  {
    hide ValidateCommon, Load, Reserve, Unsynced, MarkSynced, ChargeOf, Describe, StagedEntry, AddAll;
    hide ValidateTimeAndSize, DigestMatches, AddExisting, Quota.Remove;
    if e.CleanEnd? && s.holder.changed {
      NothingUnsynced(s.phantoms);
    }
  }

  /**
   At rest, that is with no create in flight and no charge left without a record, the books cover
   every crash exactly when no unsynced removal was taken off them.
   */
  lemma CoveredIffNothingStray(s: Store)
    requires Inv(s) && s.holder.Free? && s.active == map[] && s.phantoms == []
    requires forall i :: 0 <= i < |s.stray| ==> s.stray[i].id !in s.durable
    ensures (forall disk, q :: CrashDisk(s, disk) ==> Total(Charges(disk), q) <= s.usage.At(q)) <==> s.stray == []
  {
    hide Inv, Charges, Complete, Load;
    if s.stray == [] {
      forall disk, q | CrashDisk(s, disk) ensures Total(Charges(disk), q) <= s.usage.At(q) {
        CrashWithinBooks(s, disk, q);
      }
    } else {
      var p, q := s.stray[0], Query(None, Objects);
      var disk := s.durable[p.id := p.entry];
      assert Revivable(s) == s.stray;
      assert CrashDisk(s, disk);
      ChargesInsert(s.durable, p.id, p.entry, q);
      InvFacts(s);
      assert Inflight(s) == map[];
      assert s.usage.At(q) == Held(s, q) + PhantomTotal(s.phantoms, q);
      assert Total(Charges(disk), q) > s.usage.At(q);
    }
  }

  lemma {:induction false} NothingUnsynced(phantoms: seq<Phantom>)
    ensures Unsynced(MarkSynced(phantoms)) == []
  {
    if phantoms != [] {
      NothingUnsynced(phantoms[..|phantoms| - 1]);
      assert MarkSynced(phantoms)[..|phantoms| - 1] == MarkSynced(phantoms[..|phantoms| - 1]);
    }
  }

  lemma TwoSteps(s: Store, e: Event, f: Event)
    requires Enabled(s, e) && Enabled(Apply(s, e), f)
    ensures Runs(s, [e, f]) && After(s, [e, f]) == Apply(Apply(s, e), f)
  {
    hide Enabled;
    hide Apply;
    var t := Apply(s, e);
    assert [f][1..] == [] && Runs(Apply(t, f), []) && After(Apply(t, f), []) == Apply(t, f);
    assert [e, f][1..] == [f] && Runs(t, [f]) && After(t, [f]) == Apply(t, f);
  }

  lemma {:induction false} RunsConcat(s: Store, first: seq<Event>, second: seq<Event>)
    requires Runs(s, first) && Runs(After(s, first), second)
    ensures Runs(s, first + second) && After(s, first + second) == After(After(s, first), second)
    decreases |first|
  {
    hide Enabled;
    hide Apply;
    if first == [] {
      assert first + second == second;
    } else {
      RunsConcat(Apply(s, first[0]), first[1..], second);
      assert (first + second)[1..] == first[1..] + second;
    }
  }

  /** A delete whose sync fails. */
  lemma UnsyncedDelete(s: Store, r: Removal)
    requires s.holder.Free? && CanRemove(s, r)
    ensures Runs(s, [Remove(r), Removed(false)])
    ensures After(s, [Remove(r), Removed(false)]) == Vanish(s, r.id)
  {
    hide Load;
    hide Quota.Remove;
    TwoSteps(s, Remove(r), Removed(false));
  }

  /** A cleanup of an empty root forgets what is still on the books. */
  lemma IdleCleanup(s: Store, now: Millis)
    requires s.holder.Free? && s.durable == map[] && s.temporary == map[] && s.active == map[]
    ensures Runs(s, [CleanStart(now), CleanEnd])
    ensures After(s, [CleanStart(now), CleanEnd])
         == s.(usage := EMPTY, phantoms := [], stray := s.stray + Unsynced(s.phantoms))
  {
    hide Unsynced;
    TwoSteps(s, CleanStart(now), CleanEnd);
  }

  lemma AdmitAndWrite(s: Store, id: Uuid, request: ArtifactCreate, body: seq<byte>, now: Millis)
    requires CanAdmit(s, id, request, now) && |body| == request.expectedSize
    ensures Runs(s, [Admit(id, request, now), Write(id, body)])
    ensures After(s, [Admit(id, request, now), Write(id, body)])
         == Restage(DoAdmit(s, id, request, now), id, Entry(Some(body), None), Streaming)
  {
    hide ValidateCommon;
    hide Reserve;
    var t := DoAdmit(s, id, request, now);
    assert Body(t, id) + body == body;
    TwoSteps(s, Admit(id, request, now), Write(id, body));
  }

  lemma FinishAndRename(s: Store, id: Uuid, now: Millis, length: nat)
    requires s.holder.Free? && CanFinish(s, id, now, length) && id !in s.durable
    ensures Runs(s, [Finish(id, now, length), Rename(id)])
    ensures After(s, [Finish(id, now, length), Rename(id)])
         == DoRename(DoFinish(s, id, now, length), id)
  {
    hide ValidateCommon;
    TwoSteps(s, Finish(id, now, length), Rename(id));
  }

  /** An empty store admits any request that passes the checks of `create`. */
  lemma EmptyAdmits(s: Store, id: Uuid, request: ArtifactCreate, now: Millis)
    requires s.holder.Free? && s.limits.Valid()
    requires s.usage == EMPTY && s.temporary == map[] && s.active == map[]
    requires request.Validate().Success? && ValidateTimeAndSize(request, s.limits, now).Success?
    ensures CanAdmit(s, id, request, now)
  {
    hide ValidateCommon;
  }

  /** Delete without a successful sync, then clean up. */
  function ForgottenRemoval(r: Removal): seq<Event> {
    [Remove(r), Removed(false)] + [CleanStart(r.now), CleanEnd]
  }

  /** The steps of a create up to the point before the root is synced. */
  function UnsyncedCreate(id: Uuid, request: ArtifactCreate, body: seq<byte>, now: Millis, length: nat): seq<Event> {
    [Admit(id, request, now), Write(id, body)] + [Finish(id, now, length), Rename(id)]
  }

  /** After the only record was so removed, the books are empty and the removal is off them. */
  lemma RemovalIsForgotten(s: Store, r: Removal)
    requires CanRemove(s, r) && s.durable.Keys == {r.id}
    requires s.temporary == map[] && s.active == map[] && s.phantoms == [] && s.stray == []
    ensures Runs(s, ForgottenRemoval(r))
    ensures After(s, ForgottenRemoval(r))
         == Vanish(s, r.id).(usage := EMPTY, phantoms := [], stray := [Phantom(r.id, s.durable[r.id], true)])
  {
    hide Load, Enabled, Apply, Runs, After, Vanish, Unsynced;
    UnsyncedDelete(s, r);
    LastRecordVanishes(s, r.id);
    IdleCleanup(Vanish(s, r.id), r.now);
    RunsConcat(s, [Remove(r), Removed(false)], [CleanStart(r.now), CleanEnd]);
  }

  lemma LastRecordVanishes(s: Store, id: Uuid)
    requires s.durable.Keys == {id} && s.phantoms == [] && s.stray == []
    ensures var t := Vanish(s, id);
      && t == s.(durable := t.durable, recent := t.recent, phantoms := t.phantoms)
      && t.durable == map[] && t.stray + Unsynced(t.phantoms) == [Phantom(id, s.durable[id], true)]
  {
    hide Unsynced;
    var p := Phantom(id, s.durable[id], true);
    OneUnsynced(p);
    assert s.phantoms + [p] == [p];
    assert [] + Unsynced([p]) == [p];
  }

  lemma OneUnsynced(p: Phantom)
    requires p.unsynced
    ensures Unsynced([p]) == [p]
  {
    assert [p][..0] == [] && Unsynced([]) == [];
  }

  /** Publication into an empty root, up to the point before the root is synced. */
  lemma PublishIntoEmpty(s: Store, id: Uuid, request: ArtifactCreate, body: seq<byte>, now: Millis,
                         length: nat)
    requires s.holder.Free? && s.limits.Valid()
    requires s.usage == EMPTY && s.durable == map[] && s.temporary == map[] && s.active == map[]
    requires request.Validate().Success? && request.expectedSha256.None?
    requires ValidateTimeAndSize(request, s.limits, now).Success?
    requires |body| == request.expectedSize && length <= MAX_METADATA_BYTES
    ensures var events := UnsyncedCreate(id, request, body, now, length);
      && Runs(s, events)
      && var t := After(s, events);
         && t.durable.Keys == {id} && t.recent == s.recent + {id}
         && t.phantoms == s.phantoms && t.stray == s.stray
         && t.holder == Publishing(id) && InPhase(t, id, Renamed)
  {
    hide ValidateCommon;
    hide Reserve;
    EmptyAdmits(s, id, request, now);
    AdmitAndWrite(s, id, request, body, now);
    FinishAndRename(Restage(DoAdmit(s, id, request, now), id, Entry(Some(body), None), Streaming),
                    id, now, length);
    RunsConcat(s, [Admit(id, request, now), Write(id, body)], [Finish(id, now, length), Rename(id)]);
  }

  /** A crash may leave a new record and an old one whose removal was never synced. */
  lemma BothMayRemain(s: Store, id: Uuid, p: Phantom)
    requires s.durable.Keys == {id} && id in s.recent && id != p.id
    requires s.phantoms == [] && s.stray == [p]
    requires s.holder == Publishing(id) && InPhase(s, id, Renamed)
    ensures exists disk :: CrashDisk(s, disk) && Total(Charges(disk), Query(None, Objects)) == 2
  {
    var disk := s.durable[p.id := p.entry];
    assert Revivable(s)[0] == p;
    assert CrashDisk(s, disk);
    var q := Query(None, Objects);
    ChargesRemove(disk, p.id, q);
    ChargesRemove(disk - {p.id}, id, q);
    assert disk - {p.id} - {id} == map[];
    assert Charges(disk - {p.id} - {id}) == map[];
  }

  /**
   What goes wrong after an idle cleanup: in any store with room for one record, delete that
   record without a successful sync, clean up, and publish another.  A crash before the next
   sync may leave both, one more than the ceiling allows.
   */
  lemma IdleCleanupOvercommits(s: Store, r: Removal, id: Uuid, request: ArtifactCreate,
                               body: seq<byte>, length: nat)
    requires s.limits.Valid() && s.limits.maxObjects == 1
    requires CanRemove(s, r) && s.durable.Keys == {r.id} && id != r.id
    requires s.temporary == map[] && s.active == map[] && s.phantoms == [] && s.stray == []
    requires request.Validate().Success? && request.expectedSha256.None?
    requires ValidateTimeAndSize(request, s.limits, r.now).Success?
    requires |body| == request.expectedSize && length <= MAX_METADATA_BYTES
    ensures var events := ForgottenRemoval(r) + UnsyncedCreate(id, request, body, r.now, length);
      && Runs(s, events)
      && exists disk :: && CrashDisk(After(s, events), disk)
                        && Total(Charges(disk), Query(None, Objects)) > s.limits.maxObjects
  {
    hide ValidateCommon, Load, CrashDisk, Total, Enabled, Apply, Runs, After, Charges;
    hide ForgottenRemoval, UnsyncedCreate, ValidateTimeAndSize;
    var create := UnsyncedCreate(id, request, body, r.now, length);
    RemovalIsForgotten(s, r);
    var t := After(s, ForgottenRemoval(r));
    PublishIntoEmpty(t, id, request, body, r.now, length);
    BothMayRemain(After(t, create), id, Phantom(r.id, s.durable[r.id], true));
    RunsConcat(s, ForgottenRemoval(r), create);
  }
}
