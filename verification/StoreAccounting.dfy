/** The ledger agrees with the simple definition after every step of the artifact store. */
module StoreAccounting {
  import opened Wrappers
  import opened Quota
  import opened ArtifactTypes
  import opened StoreMachine
  import opened StoreInvariant

  // ------------------------------------------------------------ sums over records and phantoms

  lemma ChargesInsert(entries: map<Uuid, Entry>, id: Uuid, entry: Entry, q: Query)
    requires id !in entries
    ensures Total(Charges(entries[id := entry]), q)
         == Total(Charges(entries), q) + Weight(ChargeOf(entry), q)
  {
    TotalInsert(Charges(entries), id, ChargeOf(entry), q);
    assert Charges(entries[id := entry]) == Charges(entries)[id := ChargeOf(entry)];
  }

  lemma ChargesRemove(entries: map<Uuid, Entry>, id: Uuid, q: Query)
    requires id in entries
    ensures Total(Charges(entries), q)
         == Total(Charges(entries - {id}), q) + Weight(ChargeOf(entries[id]), q)
  {
    TotalRemove(Charges(entries), id, q);
    assert Charges(entries - {id}) == Charges(entries) - {id};
  }

  lemma {:induction false} TotalDrop(charges: map<Uuid, Charge>, keys: set<Uuid>, q: Query)
    ensures Total(charges - keys, q) <= Total(charges, q)
  {
    if keys == {} {
      assert charges - keys == charges;
    } else {
      var k :| k in keys;
      TotalDrop(charges, keys - {k}, q);
      var rest := charges - (keys - {k});
      if k in rest {
        TotalRemove(rest, k, q);
        assert rest - {k} == charges - keys;
      } else {
        assert rest == charges - keys;
      }
    }
  }

  lemma PhantomAppend(phantoms: seq<Phantom>, p: Phantom, q: Query)
    ensures PhantomTotal(phantoms + [p], q) == PhantomTotal(phantoms, q) + Weight(ChargeOf(p.entry), q)
  {
    assert (phantoms + [p])[..|phantoms|] == phantoms;
  }

  lemma {:induction false} PhantomSynced(phantoms: seq<Phantom>, q: Query)
    ensures PhantomTotal(MarkSynced(phantoms), q) == PhantomTotal(phantoms, q)
  {
    if phantoms != [] {
      var front := phantoms[..|phantoms| - 1];
      PhantomSynced(front, q);
      assert MarkSynced(phantoms)[..|phantoms| - 1] == MarkSynced(front);
    }
  }

  // ------------------------------------------------------------ sound ledgers

  lemma ReserveSound(u: Ledger, c: Charge, limits: Limits)
    requires Sound(u) && limits.Valid() && Reserve(u, c, limits).Reserved?
    ensures Sound(Reserve(u, c, limits).ledger)
  {
    ReserveExact(u, c, limits);
    UpdatesKeepBalance(u, c, limits);
    var v := Reserve(u, c, limits).ledger;
    forall q ensures v.At(q) <= U64_MAX {
      assert v.At(q) == u.At(q) + Weight(c, q) && u.At(q) <= U64_MAX;
      if Weight(c, q) > 0 {
        assert v.At(q) <= limits.Cap(q);
      }
    }
  }

  lemma RemoveSound(u: Ledger, c: Charge, limits: Limits)
    requires Sound(u) && limits.Valid() && forall q :: Weight(c, q) <= u.At(q)
    ensures Sound(Quota.Remove(u, c))
    ensures forall q :: Quota.Remove(u, c).At(q) == u.At(q) - Weight(c, q)
  {
    RemoveExact(u, c);
    UpdatesKeepBalance(u, c, limits);
    forall q ensures Quota.Remove(u, c).At(q) <= U64_MAX {
      assert u.At(q) <= U64_MAX;
    }
  }

  lemma AddSound(u: Ledger, c: Charge, limits: Limits)
    requires Sound(u) && limits.Valid() && forall q :: u.At(q) + Weight(c, q) <= U64_MAX
    ensures Sound(AddExisting(u, c))
    ensures forall q :: AddExisting(u, c).At(q) == u.At(q) + Weight(c, q)
  {
    AddExistingExact(u, c);
    UpdatesKeepBalance(u, c, limits);
    forall q ensures AddExisting(u, c).At(q) <= U64_MAX {
      assert u.At(q) + Weight(c, q) <= U64_MAX;
    }
  }

  /** Adding the reservations to a tally, in whatever order, adds their total. */
  lemma {:induction false} AddAllSound(u: Ledger, charges: map<Uuid, Charge>, limits: Limits)
    requires Sound(u) && limits.Valid()
    requires forall q :: u.At(q) + Total(charges, q) <= U64_MAX
    ensures Sound(AddAll(u, charges))
    ensures forall q :: AddAll(u, charges).At(q) == u.At(q) + Total(charges, q)
    decreases |charges|
  {
    if charges == map[] {
      forall q ensures Total(charges, q) == 0 {
      }
    } else {
      var id :| id in charges
             && AddAll(u, charges) == AddAll(AddExisting(u, charges[id]), charges - {id});
      var v := AddExisting(u, charges[id]);
      forall q ensures u.At(q) + Weight(charges[id], q) + Total(charges - {id}, q) <= U64_MAX {
        TotalRemove(charges, id, q);
        assert u.At(q) + Total(charges, q) <= U64_MAX;
      }
      AddSound(u, charges[id], limits);
      forall q ensures v.At(q) + Total(charges - {id}, q) <= U64_MAX {
        assert u.At(q) + Weight(charges[id], q) + Total(charges - {id}, q) <= U64_MAX;
      }
      AddAllSound(v, charges - {id}, limits);
      forall q ensures AddAll(u, charges).At(q) == u.At(q) + Total(charges, q) {
        TotalRemove(charges, id, q);
      }
    }
  }

  /** Every create in flight has a reservation and the other way round. */
  ghost predicate Paired(s: Store) {
    s.limits.Valid() && s.active.Keys == s.flights.Keys
  }

  // ------------------------------------------------------------ steps on staging directories

  lemma AdmitAccounting(s: Store, id: Uuid, request: ArtifactCreate, now: Millis)
    requires Accounting(s) && Paired(s) && CanAdmit(s, id, request, now)
    ensures Accounting(DoAdmit(s, id, request, now))
  {
    hide ValidateCommon;
    hide Complete;
    var t := DoAdmit(s, id, request, now);
    hide Quota.Reserve;
    ReserveSound(s.usage, request.Charge(), s.limits);
    ReserveExact(s.usage, request.Charge(), s.limits);
    assert Inflight(t) == Inflight(s)[id := request.Charge()];
    forall q ensures t.usage.At(q) == Held(t, q) + PhantomTotal(t.phantoms, q) {
      assert s.usage.At(q) == Held(s, q) + PhantomTotal(s.phantoms, q);
      TotalInsert(Inflight(s), id, request.Charge(), q);
    }
  }

  lemma RestageAccounting(s: Store, id: Uuid, entry: Entry, phase: Phase)
    requires Accounting(s) && Paired(s) && CanAbandon(s, id) && (phase == Streaming || phase == Described)
    ensures Accounting(Restage(s, id, entry, phase))
  {
    hide ValidateCommon;
    hide Complete;
    var t := Restage(s, id, entry, phase);
    assert Inflight(t) == Inflight(s);
    forall q ensures t.usage.At(q) == Held(t, q) + PhantomTotal(t.phantoms, q) {
      assert s.usage.At(q) == Held(s, q) + PhantomTotal(s.phantoms, q);
    }
  }

  lemma AbandonAccounting(s: Store, id: Uuid, left: Option<Entry>)
    requires Accounting(s) && Paired(s) && CanAbandon(s, id)
    ensures Accounting(DoAbandon(s, id, left))
  {
    hide ValidateCommon;
    hide Complete;
    var t := DoAbandon(s, id, left);
    assert Inflight(t) == Inflight(s);
    forall q ensures t.usage.At(q) == Held(t, q) + PhantomTotal(t.phantoms, q) {
      assert s.usage.At(q) == Held(s, q) + PhantomTotal(s.phantoms, q);
    }
  }

  lemma ReleaseAccounting(s: Store, id: Uuid)
    requires Accounting(s) && Paired(s) && CanRelease(s, id)
    ensures Accounting(DoRelease(s, id))
  {
    hide ValidateCommon;
    hide Complete;
    var t := DoRelease(s, id);
    assert Inflight(t) == Inflight(s) - {id};
    forall q ensures Weight(s.active[id], q) <= s.usage.At(q) {
      TotalRemove(Inflight(s), id, q);
      assert s.usage.At(q) == Held(s, q) + PhantomTotal(s.phantoms, q);
    }
    RemoveSound(s.usage, s.active[id], s.limits);
    forall q ensures t.usage.At(q) == Held(t, q) + PhantomTotal(t.phantoms, q) {
      assert s.usage.At(q) == Held(s, q) + PhantomTotal(s.phantoms, q);
      TotalRemove(Inflight(s), id, q);
    }
  }

  // ------------------------------------------------------------ publication

  lemma RenameAccounting(s: Store, id: Uuid)
    requires Accounting(s) && Paired(s) && CanRename(s, id)
    requires FlightOk(s, id)
    ensures Accounting(DoRename(s, id))
  {
    hide ValidateCommon;
    hide Complete;
    var t := DoRename(s, id);
    assert Inflight(t) == Inflight(s) - {id};
    forall q ensures t.usage.At(q) == Held(t, q) + PhantomTotal(t.phantoms, q) {
      assert s.usage.At(q) == Held(s, q) + PhantomTotal(s.phantoms, q);
      TotalRemove(Inflight(s), id, q);
      ChargesInsert(s.durable, id, s.flights[id].staged, q);
    }
  }

  lemma CommitAccounting(s: Store, id: Uuid)
    requires Accounting(s) && Paired(s) && IsPublishing(s, id, Renamed)
    ensures Accounting(Unregister(Synced(s), id))
  {
    hide ValidateCommon;
    hide Complete;
    var t := Unregister(Synced(s), id);
    assert Inflight(t) == Inflight(s);
    forall q ensures t.usage.At(q) == Held(t, q) + PhantomTotal(t.phantoms, q) {
      assert s.usage.At(q) == Held(s, q) + PhantomTotal(s.phantoms, q);
      PhantomSynced(s.phantoms, q);
    }
  }

  lemma KeepAccounting(s: Store, id: Uuid, vanished: bool)
    requires Accounting(s) && Paired(s) && IsPublishing(s, id, Renamed)
    requires FlightOk(s, id)
    ensures Accounting(DoKeep(s, id, vanished))
  {
    hide ValidateCommon;
    hide Complete;
    var t := DoKeep(s, id, vanished);
    assert Inflight(t) == Inflight(s);
    forall q ensures t.usage.At(q) == Held(t, q) + PhantomTotal(t.phantoms, q) {
      assert s.usage.At(q) == Held(s, q) + PhantomTotal(s.phantoms, q);
      if vanished {
        ChargesRemove(s.durable, id, q);
        PhantomAppend(s.phantoms, Phantom(id, s.durable[id], true), q);
      }
    }
  }

  lemma WithdrawAccounting(s: Store, id: Uuid)
    requires Accounting(s) && Paired(s) && IsPublishing(s, id, Renamed)
    requires FlightOk(s, id)
    ensures Accounting(DoWithdraw(s, id))
  {
    hide ValidateCommon;
    hide Complete;
    var t := DoWithdraw(s, id);
    assert Inflight(t) == Inflight(s)[id := s.active[id]];
    forall q ensures t.usage.At(q) == Held(t, q) + PhantomTotal(t.phantoms, q) {
      assert s.usage.At(q) == Held(s, q) + PhantomTotal(s.phantoms, q);
      TotalInsert(Inflight(s), id, s.active[id], q);
      ChargesRemove(s.durable, id, q);
    }
  }

  lemma WithdrawUncertainAccounting(s: Store, id: Uuid)
    requires Accounting(s) && Paired(s) && IsPublishing(s, id, Withdrawn)
    requires FlightOk(s, id)
    ensures Accounting(DoWithdrawUncertain(s, id))
  {
    hide ValidateCommon;
    hide Complete;
    var t := DoWithdrawUncertain(s, id);
    assert Inflight(t) == Inflight(s) - {id};
    forall q ensures t.usage.At(q) == Held(t, q) + PhantomTotal(t.phantoms, q) {
      assert s.usage.At(q) == Held(s, q) + PhantomTotal(s.phantoms, q);
      TotalRemove(Inflight(s), id, q);
      PhantomAppend(s.phantoms, Phantom(id, s.flights[id].staged, true), q);
    }
  }

  lemma WithdrawDoneAccounting(s: Store, id: Uuid)
    requires Accounting(s) && Paired(s) && IsPublishing(s, id, Withdrawn)
    ensures Accounting(DoWithdrawDone(s, id))
  {
    hide ValidateCommon;
    hide Complete;
    var t := DoWithdrawDone(s, id);
    assert Inflight(t) == Inflight(s);
    forall q ensures t.usage.At(q) == Held(t, q) + PhantomTotal(t.phantoms, q) {
      assert s.usage.At(q) == Held(s, q) + PhantomTotal(s.phantoms, q);
      PhantomSynced(s.phantoms, q);
    }
  }

  // ------------------------------------------------------------ removal and cleanup

  lemma VanishAccounting(s: Store, id: Uuid, holder: Holder)
    requires Accounting(s) && Paired(s) && id in s.durable && !s.holder.Publishing? && !holder.Cleaning?
    ensures Accounting(Vanish(s, id).(holder := holder))
  {
    hide ValidateCommon;
    hide Complete;
    var t := Vanish(s, id).(holder := holder);
    assert Inflight(t) == Inflight(s);
    forall q ensures t.usage.At(q) == Held(t, q) + PhantomTotal(t.phantoms, q) {
      assert s.usage.At(q) == Held(s, q) + PhantomTotal(s.phantoms, q);
      ChargesRemove(s.durable, id, q);
      PhantomAppend(s.phantoms, Phantom(id, s.durable[id], true), q);
    }
  }

  lemma RemovedAccounting(s: Store, synced: bool)
    requires Accounting(s) && Paired(s) && s.holder.Removing?
    requires s.phantoms != []
    ensures Accounting(DoRemoved(s, synced))
  {
    hide ValidateCommon;
    hide Complete;
    var t := DoRemoved(s, synced);
    assert Inflight(t) == Inflight(s);
    var front, c := s.phantoms[..|s.phantoms| - 1], ChargeOf(s.phantoms[|s.phantoms| - 1].entry);
    forall q ensures Weight(c, q) <= s.usage.At(q) {
      assert s.usage.At(q) == Held(s, q) + PhantomTotal(s.phantoms, q);
    }
    RemoveSound(s.usage, c, s.limits);
    forall q ensures t.usage.At(q) == Held(t, q) + PhantomTotal(t.phantoms, q) {
      assert s.usage.At(q) == Held(s, q) + PhantomTotal(s.phantoms, q);
      PhantomSynced(front, q);
    }
  }

  lemma CleanStartAccounting(s: Store, now: Millis)
    requires Accounting(s) && Paired(s) && s.holder.Free?
    ensures Accounting(DoCleanStart(s, now))
  {
    hide Complete;
    hide ValidateCommon;
    var t := DoCleanStart(s, now);
    assert Inflight(t) == Inflight(s);
    BalancedEmpty();
    var none := s.durable - t.holder.todo;
    assert none == map[];
    forall q ensures Total(Charges(none), q) == 0 {
    }
    forall q ensures t.usage.At(q) == Held(t, q) + PhantomTotal(t.phantoms, q) {
      assert s.usage.At(q) == Held(s, q) + PhantomTotal(s.phantoms, q);
    }
  }

  lemma CleanTemporaryAccounting(s: Store, id: Uuid)
    requires Accounting(s) && Paired(s) && CanCleanTemporary(s, id)
    ensures Accounting(DoCleanTemporary(s, id))
  {
    hide Complete;
    hide ValidateCommon;
    var t := DoCleanTemporary(s, id);
    assert Inflight(t) == Inflight(s);
    forall q ensures t.usage.At(q) == Held(t, q) + PhantomTotal(t.phantoms, q) {
      assert s.usage.At(q) == Held(s, q) + PhantomTotal(s.phantoms, q);
    }
  }

  lemma CleanExpiredAccounting(s: Store, id: Uuid)
    requires Accounting(s) && Paired(s) && CanCleanRecord(s, id) && ExpiresAt(s.durable[id]) <= s.holder.now
    ensures Accounting(DoCleanRecord(s, id))
  {
    hide Complete;
    hide ValidateCommon;
    var t := DoCleanRecord(s, id);
    VanishAccounting(s, id, Free);
    assert Inflight(t) == Inflight(s) == Inflight(Vanish(s, id).(holder := Free));
    assert t.durable - t.holder.todo == s.durable - s.holder.todo;
    forall q ensures t.usage.At(q) == Held(t, q) + PhantomTotal(t.phantoms, q) {
      var v := Vanish(s, id).(holder := Free);
      assert v.usage.At(q) == Held(v, q) + PhantomTotal(v.phantoms, q);
    }
  }

  lemma CleanCountedAccounting(s: Store, id: Uuid)
    requires Accounting(s) && Paired(s) && CanCleanRecord(s, id) && s.holder.now < ExpiresAt(s.durable[id])
    ensures Accounting(DoCleanRecord(s, id))
  {
    hide Complete;
    hide ValidateCommon;
    var t := DoCleanRecord(s, id);
    assert Inflight(t) == Inflight(s);
    var before, c := s.durable - s.holder.todo, ChargeOf(s.durable[id]);
    assert t.durable - t.holder.todo == before[id := s.durable[id]];
    forall q ensures Total(Charges(before), q) + Weight(c, q) <= U64_MAX {
      ChargesInsert(before, id, s.durable[id], q);
      TotalDrop(Charges(s.durable), t.holder.todo, q);
      assert Charges(s.durable) - t.holder.todo == Charges(before[id := s.durable[id]]);
      assert s.usage.At(q) == Held(s, q) + PhantomTotal(s.phantoms, q);
      assert s.usage.At(q) <= U64_MAX;
    }
    forall q ensures s.holder.tally.At(q) + Weight(c, q) <= U64_MAX {
      assert Total(Charges(before), q) + Weight(c, q) <= U64_MAX;
    }
    AddSound(s.holder.tally, c, s.limits);
    forall q ensures t.holder.tally.At(q) == Total(Charges(t.durable - t.holder.todo), q) {
      ChargesInsert(before, id, s.durable[id], q);
      assert s.holder.tally.At(q) == Total(Charges(before), q);
    }
    forall q ensures t.usage.At(q) == Held(t, q) + PhantomTotal(t.phantoms, q) {
      assert s.usage.At(q) == Held(s, q) + PhantomTotal(s.phantoms, q);
    }
  }

  lemma CleanStopAccounting(s: Store, gone: Option<Uuid>)
    requires Accounting(s) && Paired(s) && CanCleanStop(s, gone)
    ensures Accounting(DoCleanStop(s, gone))
  {
    hide Complete;
    hide ValidateCommon;
    var t := DoCleanStop(s, gone);
    if gone.Some? {
      VanishAccounting(s, gone.value, Free);
    } else {
      assert Inflight(t) == Inflight(s);
      forall q ensures t.usage.At(q) == Held(t, q) + PhantomTotal(t.phantoms, q) {
        assert s.usage.At(q) == Held(s, q) + PhantomTotal(s.phantoms, q);
      }
    }
  }

  /** The tally of a complete pass plus the reservations is what the root and the flights hold. */
  lemma CleanEndAccounting(s: Store)
    requires Accounting(s) && Paired(s) && CanCleanEnd(s)
    requires forall id :: id in s.flights ==> s.flights[id].phase != Renamed
    ensures Accounting(DoCleanEnd(s))
  {
    hide Complete;
    hide ValidateCommon;
    var t := DoCleanEnd(s);
    assert Inflight(t) == Inflight(s) == s.active;
    assert s.durable - s.holder.todo == s.durable;
    forall q ensures s.holder.tally.At(q) + Total(s.active, q) == Held(s, q) <= U64_MAX {
      assert s.usage.At(q) == Held(s, q) + PhantomTotal(s.phantoms, q);
      assert s.holder.tally.At(q) == Total(Charges(s.durable - s.holder.todo), q);
      assert s.usage.At(q) <= U64_MAX;
    }
    AddAllSound(s.holder.tally, s.active, s.limits);
    forall q ensures t.usage.At(q) == Held(t, q) + PhantomTotal(t.phantoms, q) {
      assert s.holder.tally.At(q) + Total(s.active, q) == Held(s, q);
    }
  }
}
