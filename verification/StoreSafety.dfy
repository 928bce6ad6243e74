/** Safety of the artifact store over every interleaving, every failure and every crash. */
module StoreSafety {
  import opened Wrappers
  import opened Quota
  import opened ArtifactTypes
  import opened StoreMachine
  import opened StoreInvariant
  import opened StoreAccounting

  // ------------------------------------------------------------ every step, every run

  lemma StepShape(s: Store, e: Event)
    requires Shape(s) && Enabled(s, e)
    ensures Shape(Apply(s, e))
  {
    hide Shape;
    hide Complete;
    match e {
      case Admit(id, request, now) => AdmitShape(s, id, request, now);
      case Refuse(id, leftover) => RefuseShape(s, id, leftover);
      case Write(id, chunk) => WriteShape(s, id, chunk);
      case Finish(id, now, length) => FinishShape(s, id, now, length);
      case Rename(id) => RenameShape(s, id);
      case Commit(id) => CommitShape(s, id);
      case Keep(id, vanished) => KeepShape(s, id, vanished);
      case Withdraw(id) => WithdrawShape(s, id);
      case WithdrawUncertain(id) => WithdrawUncertainShape(s, id);
      case WithdrawDone(id) => WithdrawDoneShape(s, id);
      case Abandon(id, left) => AbandonShape(s, id, left);
      case Release(id) => ReleaseShape(s, id);
      case Remove(r) => VanishShape(s, r.id, Removing);
      case RemoveFailed(r, vanished) =>
        if vanished {
          VanishShape(s, r.id, Free);
          assert Vanish(s, r.id).(holder := Free) == Vanish(s, r.id);
        }
      case Removed(synced) => RemovedShape(s, synced);
      case CleanStart(now) => CleanStartShape(s, now);
      case CleanTemporary(id) => CleanTemporaryShape(s, id);
      case CleanRecord(id) => CleanRecordShape(s, id);
      case CleanStop(gone) => CleanStopShape(s, gone);
      case CleanEnd => CleanEndShape(s);
    }
  }

  /** The part of the shape the books rest on. */
  ghost predicate Tidy(s: Store) {
    && Paired(s)
    && (forall id :: id in s.flights ==> FlightOk(s, id))
    && (!s.holder.Publishing? ==> forall id :: id in s.flights ==> s.flights[id].phase != Renamed)
    && (s.holder.Removing? ==> s.phantoms != [])
  }

  lemma ShapeIsTidy(s: Store)
    requires Shape(s)
    ensures Tidy(s)
  {
    hide Complete;
    forall id | id in s.flights && !s.holder.Publishing? ensures s.flights[id].phase != Renamed {
      assert FlightOk(s, id);
    }
  }

  lemma SameBooks(s: Store, t: Store)
    requires Accounting(s)
    requires t == s.(temporary := t.temporary)
    ensures Accounting(t)
  {
    assert Inflight(t) == Inflight(s);
    forall q ensures t.usage.At(q) == Held(t, q) + PhantomTotal(t.phantoms, q) {
      assert s.usage.At(q) == Held(s, q) + PhantomTotal(s.phantoms, q);
    }
  }

  lemma StepAccounting(s: Store, e: Event)
    requires Tidy(s) && Accounting(s) && Enabled(s, e)
    ensures Accounting(Apply(s, e))
  {
    hide Accounting;
    hide FlightOk;
    hide ValidateCommon;
    hide Load;
    match e {
      case Admit(id, request, now) => AdmitAccounting(s, id, request, now);
      case Refuse(id, leftover) => SameBooks(s, DoRefuse(s, id, leftover));
      case Write(id, chunk) =>
        RestageAccounting(s, id, Entry(Some(Body(s, id) + chunk), None), Streaming);
      case Finish(id, now, length) =>
        var metadata := Describe(s.flights[id].request, id, now, s.hash(Body(s, id)));
        RestageAccounting(s, id, StagedEntry(metadata, Body(s, id), length), Described);
      case Rename(id) => RenameAccounting(s, id);
      case Commit(id) => CommitAccounting(s, id);
      case Keep(id, vanished) => KeepAccounting(s, id, vanished);
      case Withdraw(id) => WithdrawAccounting(s, id);
      case WithdrawUncertain(id) => WithdrawUncertainAccounting(s, id);
      case WithdrawDone(id) => WithdrawDoneAccounting(s, id);
      case Abandon(id, left) => AbandonAccounting(s, id, left);
      case Release(id) => ReleaseAccounting(s, id);
      case Remove(r) => VanishAccounting(s, r.id, Removing);
      case RemoveFailed(r, vanished) =>
        if vanished {
          VanishAccounting(s, r.id, Free);
          assert Vanish(s, r.id).(holder := Free) == Vanish(s, r.id);
        }
      case Removed(synced) => RemovedAccounting(s, synced);
      case CleanStart(now) => CleanStartAccounting(s, now);
      case CleanTemporary(id) => CleanTemporaryAccounting(s, id);
      case CleanRecord(id) =>
        if ExpiresAt(s.durable[id]) <= s.holder.now {
          CleanExpiredAccounting(s, id);
        } else {
          CleanCountedAccounting(s, id);
        }
      case CleanStop(gone) => CleanStopAccounting(s, gone);
      case CleanEnd => CleanEndAccounting(s);
    }
  }

  lemma StepKeepsInv(s: Store, e: Event)
    requires Inv(s) && Enabled(s, e)
    ensures Inv(Apply(s, e))
  {
    hide Shape;
    hide Accounting;
    ShapeIsTidy(s);
    StepShape(s, e);
    StepAccounting(s, e);
  }

  /** The invariant holds after every run from a state in which it holds. */
  lemma {:induction false} RunKeepsInv(s: Store, events: seq<Event>)
    requires Inv(s) && Runs(s, events)
    ensures Inv(After(s, events))
    decreases |events|
  {
    hide Inv;
    hide Apply;
    hide Enabled;
    if events != [] {
      StepKeepsInv(s, events[0]);
      RunKeepsInv(Apply(s, events[0]), events[1..]);
    }
  }

  lemma InvFacts(s: Store)
    requires Inv(s)
    ensures Tidy(s) && Accounting(s)
  {
    hide Shape;
    hide Accounting;
    ShapeIsTidy(s);
  }

  // ------------------------------------------------------------ quota

  /** Durable records and reservations, whoever holds the lock. */
  ghost function InUse(s: Store, q: Query): nat {
    Total(Charges(s.durable), q) + Total(s.active, q)
  }

  /** The books never understate what is held, and the totals are the sums over owners. */
  lemma NeverUnderstated(s: Store, q: Query)
    requires Inv(s)
    ensures Held(s, q) <= s.usage.At(q)
    ensures s.holder.Free? ==> Held(s, q) == InUse(s, q)
    ensures s.phantoms == [] ==> s.usage.At(q) == Held(s, q)
    ensures Balanced(s.usage)
  {
    hide Inv;
    hide FlightOk;
    InvFacts(s);
    if s.holder.Free? {
      assert Inflight(s) == s.active;
    }
    assert s.usage.At(q) == Held(s, q) + PhantomTotal(s.phantoms, q);
  }

  lemma StepFrame(s: Store, e: Event)
    requires Enabled(s, e)
    ensures Apply(s, e).limits == s.limits && Apply(s, e).hash == s.hash
    ensures !e.Admit? && !e.Release? && !e.Removed? && !e.CleanEnd? ==>
      Apply(s, e).usage == s.usage
    ensures e.Admit? || e.Release? || e.Removed? ==>
      || Apply(s, e).usage == s.usage
      || (exists c :: Apply(s, e).usage == Quota.Remove(s.usage, c))
      || (e.Admit? && Reserve(s.usage, e.request.Charge(), s.limits) == Reserved(Apply(s, e).usage))
  {
    hide ValidateCommon;
    hide Load;
    hide Reserve;
    hide ValidateTimeAndSize, StagedEntry, Describe, DigestMatches, Unsynced, MarkSynced;
  }

  lemma CleanEndUsage(s: Store, q: Query)
    requires Inv(s) && CanCleanEnd(s)
    ensures DoCleanEnd(s).usage.At(q) <= s.usage.At(q)
    ensures DoCleanEnd(s).usage.At(q) == InUse(s, q)
  {
    hide Inv;
    hide FlightOk;
    InvFacts(s);
    CleanEndAccounting(s);
    var t := DoCleanEnd(s);
    assert Inflight(t) == Inflight(s) == s.active;
    assert t.usage.At(q) == Held(t, q) + PhantomTotal(t.phantoms, q);
    assert s.usage.At(q) == Held(s, q) + PhantomTotal(s.phantoms, q);
  }

  /** A step raises a figure only by an admission, and then not above its ceiling. */
  lemma StepUsage(s: Store, e: Event, q: Query)
    requires Inv(s) && Enabled(s, e)
    ensures Apply(s, e).limits == s.limits
    ensures Apply(s, e).usage.At(q) <= s.usage.At(q)
         || (e.Admit? && Apply(s, e).usage.At(q) <= s.limits.Cap(q))
  {
    hide Inv;
    hide Reserve;
    hide CanAdmit;
    hide DoCleanEnd;
    StepFrame(s, e);
    if e.Admit? {
      assert s.limits.Valid() && s.usage.Pruned() by {
        InvFacts(s);
      }
      ReserveExact(s.usage, e.request.Charge(), s.limits);
    } else if e.CleanEnd? {
      CleanEndUsage(s, q);
    }
  }

  /**
   Quota safety over whole runs.  However creates interleave, fail or end uncertain, no
   figure of the records and creates held ever exceeds the larger of its ceiling and what the
   books said at the start.  A store that starts within its limits therefore stays there, and
   one that starts above them never grows further above.
   */
  lemma {:induction false} QuotaSafety(s: Store, events: seq<Event>, q: Query)
    requires Inv(s) && Runs(s, events)
    ensures After(s, events).limits == s.limits
    ensures After(s, events).usage.At(q) <= s.usage.At(q)
         || After(s, events).usage.At(q) <= s.limits.Cap(q)
    ensures Held(After(s, events), q) <= After(s, events).usage.At(q)
    decreases |events|
  {
    hide Inv;
    hide Apply;
    hide Enabled;
    if events == [] {
      NeverUnderstated(s, q);
    } else {
      StepKeepsInv(s, events[0]);
      StepUsage(s, events[0], q);
      QuotaSafety(Apply(s, events[0]), events[1..], q);
    }
  }

  /** Above a ceiling that it would touch, a request is not admitted. */
  lemma OverQuotaRefuses(s: Store, id: Uuid, request: ArtifactCreate, now: Millis, q: Query)
    requires Inv(s)
    requires Weight(request.Charge(), q) > 0
    requires s.usage.At(q) + Weight(request.Charge(), q) > s.limits.Cap(q)
    ensures !Enabled(s, Admit(id, request, now))
  {
    hide Inv;
    assert s.limits.Valid() && s.usage.Pruned() by {
      InvFacts(s);
    }
    ReserveExact(s.usage, request.Charge(), s.limits);
  }

  // ------------------------------------------------------------ exactness without faults

  /** Steps after which a charge may be left with nothing behind it. */
  predicate LosesTrack(e: Event) {
    || (e.Keep? && e.vanished)
    || e.WithdrawUncertain?
    || (e.RemoveFailed? && e.vanished)
    || (e.Removed? && !e.synced)
    || e.CleanStop?
  }

  /** No phantom is on the books, apart from what the lock holder is about to settle. */
  predicate Settled(s: Store) {
    match s.holder
    case Free => s.phantoms == []
    case Publishing(_) => s.phantoms == []
    case Removing => |s.phantoms| == 1
    case Cleaning(_, _, _, _, _) => true
  }

  lemma StepStaysSettled(s: Store, e: Event)
    requires Settled(s) && Enabled(s, e) && !LosesTrack(e)
    ensures Settled(Apply(s, e))
  {
    hide ValidateCommon;
    hide Load;
    hide Reserve;
  }

  /** Runs without such a step keep the books exact whenever the operation lock is free. */
  lemma {:induction false} FaultFreeIsExact(s: Store, events: seq<Event>, q: Query)
    requires Inv(s) && Settled(s) && Runs(s, events)
    requires forall i :: 0 <= i < |events| ==> !LosesTrack(events[i])
    ensures Settled(After(s, events))
    ensures var t := After(s, events); t.holder.Free? ==> t.usage.At(q) == InUse(t, q)
    decreases |events|
  {
    hide Inv;
    hide Apply;
    hide Enabled;
    if events == [] {
      NeverUnderstated(s, q);
    } else {
      StepKeepsInv(s, events[0]);
      StepStaysSettled(s, events[0]);
      FaultFreeIsExact(Apply(s, events[0]), events[1..], q);
    }
  }

  // ------------------------------------------------------------ cleanup

  /**
   A completed cleanup leaves books that are exact whatever happened before, no expired
   record, no staging directory without a create behind it, and every reservation in place.
   */
  lemma CleanupRestoresExactness(s: Store, q: Query)
    requires Inv(s) && Enabled(s, CleanEnd)
    ensures var t := Apply(s, CleanEnd);
      && t.holder.Free? && t.phantoms == []
      && t.usage.At(q) == InUse(t, q)
      && t.active == s.active && t.flights == s.flights
      && t.temporary.Keys <= t.active.Keys
      && forall id :: id in t.durable ==> s.holder.now < ExpiresAt(t.durable[id])
  {
    hide Inv;
    assert HolderOk(s) by {
      InvHolder(s);
    }
    CleanEndUsage(s, q);
    CleanEndEffect(s);
  }

  lemma InvHolder(s: Store)
    requires Inv(s)
    ensures HolderOk(s)
  {
    hide Complete;
    hide FlightOk;
    hide Accounting;
  }

  lemma CleanEndEffect(s: Store)
    requires CanCleanEnd(s)
    ensures var t := Apply(s, CleanEnd);
      t == s.(usage := t.usage, recent := t.recent, phantoms := [], stray := t.stray, holder := Free)
  {
  }

  /** The staging directory and the reservation of a create change only by its own steps. */
  lemma StagingIsPrivate(s: Store, e: Event, id: Uuid)
    requires Inv(s) && Enabled(s, e) && (InPhase(s, id, Streaming) || InPhase(s, id, Described))
    requires !((e.Write? || e.Finish? || e.Rename? || e.Abandon?) && e.id == id)
    ensures var t := Apply(s, e);
      && id in t.flights && t.flights[id] == s.flights[id]
      && id in t.active && t.active[id] == s.flights[id].request.Charge()
      && id in t.temporary && t.temporary[id] == s.flights[id].staged
  {
    assert FlightOk(s, id);
    StepKeepsInv(s, e);
    StagingFrame(s, e, id);
    assert FlightOk(Apply(s, e), id);
  }

  lemma StagingFrame(s: Store, e: Event, id: Uuid)
    requires Enabled(s, e) && (InPhase(s, id, Streaming) || InPhase(s, id, Described))
    requires id in s.active && id in s.temporary
    requires !((e.Write? || e.Finish? || e.Rename? || e.Abandon?) && e.id == id)
    ensures id in Apply(s, e).flights && Apply(s, e).flights[id] == s.flights[id]
  {
    hide ValidateCommon;
    hide Load;
    hide Reserve;
  }
}
