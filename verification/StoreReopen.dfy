/**
 Reopening the artifact store (`with_clock` in store.rs): one cleanup pass over the records and the
 staging directories that are found, before anybody is at work. It syncs the root only if it removed
 something.
 */
module StoreReopen {
  import opened Quota
  import opened DigestText
  import opened ArtifactTypes
  import opened StoreMachine
  import opened StoreInvariant
  import opened StoreAccounting
  import opened StoreSafety
  import opened StoreCrash

  /** A root as it is found, with no create in flight and all its records on the books. */
  ghost function Found(limits: Limits, hash: seq<byte> -> Digest, root: Root): Store {
    Store(limits, hash, AddAll(EMPTY, Charges(root.records)), map[], map[], root.records, root.staging, root.recent, [],
          root.removals, Free)
  }

  /** The visits of a pass, in any order. */
  predicate Visits(events: seq<Event>) {
    forall i :: 0 <= i < |events| ==> events[i].CleanTemporary? || events[i].CleanRecord?
  }

  function Pass(now: Millis, visits: seq<Event>): seq<Event> {
    [CleanStart(now)] + visits + [CleanEnd]
  }

  lemma FoundInv(limits: Limits, hash: seq<byte> -> Digest, root: Root)
    requires Sane(limits, hash, root)
    ensures Inv(Found(limits, hash, root))
    ensures forall q :: Found(limits, hash, root).usage.At(q) == Total(Charges(root.records), q)
  {
    hide Complete, AddAll;
    var s := Found(limits, hash, root);
    EmptySound();
    forall q ensures EMPTY.At(q) + Total(Charges(root.records), q) <= U64_MAX {
      assert Total(Charges(root.records), q) <= U64_MAX;
    }
    AddAllSound(EMPTY, Charges(root.records), limits);
    assert Inflight(s) == map[];
    forall q ensures s.usage.At(q) == Held(s, q) + PhantomTotal(s.phantoms, q) {
    }
  }

  // ------------------------------------------------------------ a pass with nobody at work

  /** What is left to do in a pass over a found root. */
  ghost predicate Sweeping(s: Store, limits: Limits, hash: seq<byte> -> Digest, root: Root, now: Millis) {
    && s.limits == limits && s.hash == hash && s.active == map[] && s.flights == map[]
    && s.stray == root.removals
    && s.holder.Cleaning? && s.holder.now == now
    && s.holder.todo <= root.records.Keys && s.durable == Swept(root.records, s.holder.todo, now)
    && s.temporary.Keys == s.holder.temporaries <= root.staging.Keys
    && (!s.holder.changed ==> s.phantoms == [] && s.recent == root.recent)
    && (s.holder.changed <==> s.durable.Keys != root.records.Keys || s.temporary.Keys != root.staging.Keys)
  }

  lemma VisitSweeps(s: Store, e: Event, limits: Limits, hash: seq<byte> -> Digest, root: Root, now: Millis)
    requires Sweeping(s, limits, hash, root, now) && Enabled(s, e) && (e.CleanTemporary? || e.CleanRecord?)
    ensures Sweeping(Apply(s, e), limits, hash, root, now)
    ensures var h, t := s.holder, Apply(s, e).holder;
      |t.todo| + |t.temporaries| < |h.todo| + |h.temporaries|
  {
    hide Load, AddExisting, Sweeping, DoCleanRecord, DoCleanTemporary, CanCleanRecord, CanCleanTemporary;
    if e.CleanRecord? {
      RecordSweeps(s, e.id, limits, hash, root, now);
    } else {
      TemporarySweeps(s, e.id, limits, hash, root, now);
    }
  }

  lemma RecordSweeps(s: Store, id: Uuid, limits: Limits, hash: seq<byte> -> Digest, root: Root, now: Millis)
    requires Sweeping(s, limits, hash, root, now) && CanCleanRecord(s, id)
    ensures var t := DoCleanRecord(s, id);
      && Sweeping(t, limits, hash, root, now)
      && |t.holder.todo| + |t.holder.temporaries| < |s.holder.todo| + |s.holder.temporaries|
  {
    hide Load, AddExisting;
    SweptNext(root.records, s.holder.todo, now, id);
    hide Swept;
    assert s.durable[id] == root.records[id];
    assert s.holder.todo == (s.holder.todo - {id}) + {id};
  }

  lemma TemporarySweeps(
    s: Store, id: Uuid, limits: Limits, hash: seq<byte> -> Digest, root: Root, now: Millis)
    requires Sweeping(s, limits, hash, root, now) && CanCleanTemporary(s, id)
    ensures var t := DoCleanTemporary(s, id);
      && Sweeping(t, limits, hash, root, now)
      && |t.holder.todo| + |t.holder.temporaries| < |s.holder.todo| + |s.holder.temporaries|
  {
    assert s.holder.temporaries == (s.holder.temporaries - {id}) + {id};
  }

  lemma {:induction false} VisitsSweep(
    s: Store, visits: seq<Event>, limits: Limits, hash: seq<byte> -> Digest, root: Root, now: Millis)
    requires Sweeping(s, limits, hash, root, now) && Visits(visits) && Runs(s, visits)
    ensures Sweeping(After(s, visits), limits, hash, root, now)
    decreases |visits|
  {
    hide Enabled, Apply, Sweeping;
    if visits != [] {
      VisitSweeps(s, visits[0], limits, hash, root, now);
      VisitsSweep(Apply(s, visits[0]), visits[1..], limits, hash, root, now);
    }
  }

  /** From any point of the pass it can be completed. */
  lemma {:induction false} SweepCompletes(
    s: Store, limits: Limits, hash: seq<byte> -> Digest, root: Root, now: Millis)
    returns (visits: seq<Event>)
    requires Inv(s) && Sweeping(s, limits, hash, root, now)
    ensures Visits(visits) && Runs(s, visits) && Enabled(After(s, visits), CleanEnd)
    decreases |s.holder.todo| + |s.holder.temporaries|
  {
    hide Inv, Apply, Load;
    if s.holder.todo == {} && s.holder.temporaries == {} {
      visits := [];
    } else {
      var e := NextVisit(s, limits, hash, root, now);
      VisitSweeps(s, e, limits, hash, root, now);
      StepKeepsInv(s, e);
      var later := SweepCompletes(Apply(s, e), limits, hash, root, now);
      visits := [e] + later;
      assert visits[1..] == later;
    }
  }

  lemma NextVisit(s: Store, limits: Limits, hash: seq<byte> -> Digest, root: Root, now: Millis)
    returns (e: Event)
    requires Inv(s) && Sweeping(s, limits, hash, root, now)
    requires s.holder.todo != {} || s.holder.temporaries != {}
    ensures Enabled(s, e) && (e.CleanTemporary? || e.CleanRecord?)
  {
    hide Load, Accounting, FlightOk;
    if s.holder.todo != {} {
      var id :| id in s.holder.todo;
      assert id in s.durable && Complete(s.hash, s.durable[id], id);
      e := CleanRecord(id);
    } else {
      var id :| id in s.holder.temporaries;
      e := CleanTemporary(id);
    }
  }

  /** The end of the pass is the opened store. */
  lemma SweepEnds(s: Store, limits: Limits, hash: seq<byte> -> Digest, root: Root, now: Millis)
    requires Inv(s) && Sweeping(s, limits, hash, root, now) && Sane(limits, hash, root)
    requires Enabled(s, CleanEnd)
    ensures Apply(s, CleanEnd) == Opened(limits, hash, root, now)
  {
    hide Inv, AddAll, Complete, Enabled, Apply;
    var t, o := Apply(s, CleanEnd), Opened(limits, hash, root, now);
    EndFields(s, limits, hash, root, now);
    StepKeepsInv(s, CleanEnd);
    OpenedInv(limits, hash, root, now);
    InvFacts(t);
    InvFacts(o);
    forall q ensures t.usage.At(q) == o.usage.At(q) {
      CleanupRestoresExactness(s, q);
      assert o.usage.At(q) == Total(Charges(Unexpired(root.records, now)), q);
      assert Total(t.active, q) == 0;
    }
    SameFigures(t.usage, o.usage);
  }

  lemma EndFields(s: Store, limits: Limits, hash: seq<byte> -> Digest, root: Root, now: Millis)
    requires Sweeping(s, limits, hash, root, now) && Enabled(s, CleanEnd)
    ensures var t := Apply(s, CleanEnd);
      t == Opened(limits, hash, root, now).(usage := t.usage)
  {
    hide AddAll;
    assert Swept(root.records, {}, now) == Unexpired(root.records, now);
    assert s.temporary == map[];
    IdleIff(root, now);
    NothingUnsynced(s.phantoms);
  }

  /** A pass removes nothing exactly when all records stay and there is no staging directory. */
  lemma IdleIff(root: Root, now: Millis)
    ensures root.Idle(now) <==> Unexpired(root.records, now).Keys == root.records.Keys && root.staging.Keys == {}
    ensures root.Idle(now) ==> Unexpired(root.records, now) == root.records
  {
    if Unexpired(root.records, now).Keys == root.records.Keys {
      forall id | id in root.records ensures now < ExpiresAt(root.records[id]) {
        assert id in Unexpired(root.records, now).Keys;
      }
    }
  }

  // ------------------------------------------------------------ reopening

  /** A pass over a found root ends in the opened store, whatever was staged and in whatever order. */
  lemma PassOpens(limits: Limits, hash: seq<byte> -> Digest, root: Root, now: Millis, visits: seq<Event>)
    requires Sane(limits, hash, root)
    requires Visits(visits) && Runs(Found(limits, hash, root), Pass(now, visits))
    ensures After(Found(limits, hash, root), Pass(now, visits)) == Opened(limits, hash, root, now)
  {
    hide Inv, AddAll, Complete, Sane, Sweeping, Opened;
    var s := Found(limits, hash, root);
    FoundInv(limits, hash, root);
    var t := StartSweeps(limits, hash, root, now);
    SplitPass(s, now, visits);
    StepKeepsInv(s, CleanStart(now));
    VisitsSweep(t, visits, limits, hash, root, now);
    RunKeepsInv(t, visits);
    SweepEnds(After(t, visits), limits, hash, root, now);
  }

  lemma StartSweeps(limits: Limits, hash: seq<byte> -> Digest, root: Root, now: Millis) returns (t: Store)
    ensures Enabled(Found(limits, hash, root), CleanStart(now))
    ensures t == Apply(Found(limits, hash, root), CleanStart(now)) && Sweeping(t, limits, hash, root, now)
  {
    hide AddAll;
    t := Apply(Found(limits, hash, root), CleanStart(now));
    assert Swept(root.records, root.records.Keys, now) == root.records;
  }

  lemma SplitPass(s: Store, now: Millis, visits: seq<Event>)
    requires s.holder.Free?
    ensures var t := Apply(s, CleanStart(now));
      && (Runs(s, Pass(now, visits)) <==> Runs(t, visits) && Enabled(After(t, visits), CleanEnd))
      && (Runs(s, Pass(now, visits)) ==> After(s, Pass(now, visits)) == Apply(After(t, visits), CleanEnd))
  {
    hide Apply;
    var t := Apply(s, CleanStart(now));
    assert Pass(now, visits)[1..] == visits + [CleanEnd];
    RunsLast(t, visits, CleanEnd);
  }

  lemma {:induction false} RunsLast(s: Store, events: seq<Event>, e: Event)
    ensures Runs(s, events + [e]) <==> Runs(s, events) && Enabled(After(s, events), e)
    ensures Runs(s, events + [e]) ==> After(s, events + [e]) == Apply(After(s, events), e)
    decreases |events|
  {
    hide Enabled, Apply;
    if events == [] {
      assert events + [e] == [e] && [e][1..] == [];
    } else {
      assert (events + [e])[0] == events[0] && (events + [e])[1..] == events[1..] + [e];
      if Enabled(s, events[0]) {
        RunsLast(Apply(s, events[0]), events[1..], e);
      }
    }
  }

  /** And such a pass exists: reopening a sane root fails only by a fault. */
  lemma PassExists(limits: Limits, hash: seq<byte> -> Digest, root: Root, now: Millis) returns (visits: seq<Event>)
    requires Sane(limits, hash, root)
    ensures Visits(visits) && Runs(Found(limits, hash, root), Pass(now, visits))
  {
    hide Inv, AddAll, Complete, Sane, Sweeping, Apply, Enabled, Runs, After;
    FoundInv(limits, hash, root);
    var t := StartSweeps(limits, hash, root, now);
    StepKeepsInv(Found(limits, hash, root), CleanStart(now));
    visits := SweepCompletes(t, limits, hash, root, now);
    SplitPass(Found(limits, hash, root), now, visits);
  }
}
