/** The quota ledger of a running store never overflows where its ceilings leave no room for that. */
module StoreOverflow {
  import opened Wrappers
  import opened Quota
  import opened QuotaOverflow
  import opened DigestText
  import opened ArtifactTypes
  import opened StoreMachine
  import opened StoreInvariant

  predicate Recordable(c: Charge) {
    1 <= c.bytes <= MAX_RECORD_BYTES
  }

  /** A complete record has a size its purpose allows. */
  lemma CompleteIsRecordable(hash: seq<byte> -> Digest, entry: Entry, id: Uuid)
    requires Complete(hash, entry, id)
    ensures Recordable(ChargeOf(entry))
  {
    hide ValidateCommon, ParseDigest;
  }

  lemma {:induction false} PhantomFigures(phantoms: seq<Phantom>, o: Owner)
    requires forall i :: 0 <= i < |phantoms| ==> Recordable(ChargeOf(phantoms[i].entry))
    ensures PhantomTotal(phantoms, Query(None, Objects)) == |phantoms|
    ensures |phantoms| <= PhantomTotal(phantoms, Query(None, Bytes)) <= |phantoms| * MAX_RECORD_BYTES
    ensures forall unit :: PhantomTotal(phantoms, Query(Some(o), unit)) <= PhantomTotal(phantoms, Query(None, unit))
    decreases |phantoms|
  {
    if phantoms != [] {
      hide ChargeOf;
      var front := phantoms[..|phantoms| - 1];
      assert Recordable(ChargeOf(phantoms[|phantoms| - 1].entry));
      PhantomFigures(front, o);
      forall unit ensures PhantomTotal(phantoms, Query(Some(o), unit)) <= PhantomTotal(phantoms, Query(None, unit)) {
        assert PhantomTotal(front, Query(Some(o), unit)) <= PhantomTotal(front, Query(None, unit));
      }
    }
  }

  /** Everything on the books is a record or a reservation of a size some purpose allows. */
  lemma ChargesAreRecordable(s: Store)
    requires Inv(s)
    ensures forall id :: id in Charges(s.durable) ==> Recordable(Charges(s.durable)[id])
    ensures forall id :: id in Inflight(s) ==> Recordable(Inflight(s)[id])
    ensures forall i :: 0 <= i < |s.phantoms| ==> Recordable(ChargeOf(s.phantoms[i].entry))
  {
    hide Complete, Accounting, ChargeOf;
    forall id | id in s.durable ensures Recordable(ChargeOf(s.durable[id])) {
      CompleteIsRecordable(s.hash, s.durable[id], id);
    }
    forall i | 0 <= i < |s.phantoms| ensures Recordable(ChargeOf(s.phantoms[i].entry)) {
      CompleteIsRecordable(s.hash, s.phantoms[i].entry, s.phantoms[i].id);
    }
    forall id | id in s.active ensures Recordable(s.active[id]) {
      assert FlightOk(s, id);
    }
  }

  /** Each figure of the ledger is the sum over the records, the reservations and the phantoms. */
  lemma FigureSplits(s: Store, q: Query)
    requires Inv(s)
    ensures s.usage.At(q) == Total(Charges(s.durable), q) + Total(Inflight(s), q) + PhantomTotal(s.phantoms, q) <= U64_MAX
  {
    hide Total, PhantomTotal, Charges, Inflight, Shape;
    assert Accounting(s);
    assert s.usage.At(q) == Held(s, q) + PhantomTotal(s.phantoms, q);
  }

  lemma OwnerWithinTotal(s: Store, o: Owner, unit: Unit)
    requires Inv(s)
    requires forall i :: 0 <= i < |s.phantoms| ==> Recordable(ChargeOf(s.phantoms[i].entry))
    ensures s.usage.At(Query(Some(o), unit)) <= s.usage.At(Query(None, unit))
  {
    hide Inv, Total, PhantomTotal, Charges, Inflight;
    FigureSplits(s, Query(Some(o), unit));
    FigureSplits(s, Query(None, unit));
    ObjectsOfRecords(Charges(s.durable), o);
    ObjectsOfRecords(Inflight(s), o);
    PhantomFigures(s.phantoms, o);
  }

  lemma RecordFigures<K>(records: map<K, Charge>)
    requires forall k :: k in records ==> Recordable(records[k])
    ensures var objects := Total(records, Query(None, Objects));
      objects <= Total(records, Query(None, Bytes)) <= objects * MAX_RECORD_BYTES
  {
    hide Total;
    BytesOfRecords(records, MAX_RECORD_BYTES);
    ObjectsOfRecords(records, "");
  }

  /** So the figures of a store are always ones that records can add up to. */
  lemma StoreIsPlausible(s: Store)
    requires Inv(s)
    ensures Plausible(s.usage, MAX_RECORD_BYTES)
  {
    hide Inv, Total, PhantomTotal, Charges, Inflight, Recordable;
    ChargesAreRecordable(s);
    forall o ensures s.usage.Of(o).bytes <= s.usage.totalBytes && s.usage.Of(o).objects <= s.usage.totalObjects {
      OwnerWithinTotal(s, o, Bytes);
      OwnerWithinTotal(s, o, Objects);
    }
    FigureSplits(s, Query(None, Bytes));
    FigureSplits(s, Query(None, Objects));
    RecordFigures(Charges(s.durable));
    RecordFigures(Inflight(s));
    PhantomFigures(s.phantoms, "");
  }

  /**
   In every reachable state, and for every request that passes the checks before it, reserving
   never overflows unless the ceilings leave room for it.
   */
  lemma NeverOverflows(s: Store, request: ArtifactCreate, now: Millis)
    requires Inv(s) && !RoomToOverflow(s.limits, MAX_RECORD_BYTES)
    requires ValidateTimeAndSize(request, s.limits, now).Success?
    ensures !Reserve(s.usage, request.Charge(), s.limits).Overflow?
  {
    assert s.limits.Valid();
    StoreIsPlausible(s);
    hide Inv, Reserve, Plausible, RoomToOverflow;
    if Reserve(s.usage, request.Charge(), s.limits).Overflow? {
      OverflowNeedsRoom(s.usage, request.Charge(), s.limits, MAX_RECORD_BYTES);
    }
  }
}
