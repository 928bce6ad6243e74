/**
 When the admission check of the quota ledger lets an addition overflow (`Usage::reserve` in
 store.rs): it compares with `saturating_add` and then adds with `+=`.

 The ledgers are the ones a store can hold: the totals of records of 1 to `record` bytes each,
 `record` being the largest size any purpose allows. A store without room to overflow never does,
 whatever happens to it.
 */
module QuotaOverflow {
  import opened Wrappers
  import opened Quota

  function Min(a: nat, b: nat): nat {
    if a < b then a else b
  }

  /** The ledger is the total of these records. */
  ghost predicate Books(u: Ledger, records: map<nat, Charge>, record: nat) {
    && u.Pruned()
    && (forall k :: k in records ==> 1 <= records[k].bytes <= record)
    && (forall q :: u.At(q) == Total(records, q) <= U64_MAX)
  }

  /** The ceilings leave room for records that fill the whole range of u64. */
  predicate RoomToOverflow(limits: Limits, record: nat) {
    && limits.maxTotalBytes == U64_MAX
    && (|| limits.maxObjects == U64_MAX
        || (limits.maxObjects - 1) * record + Min(record, limits.maxObjectBytes) > U64_MAX)
  }

  /** A store can overflow: some ledger it can hold meets some request it can be asked for. */
  ghost predicate Overflows(limits: Limits, record: nat) {
    exists u: Ledger, records: map<nat, Charge>, c: Charge ::
      Books(u, records, record) && 1 <= c.bytes <= Min(record, limits.maxObjectBytes)
      && Reserve(u, c, limits).Overflow?
  }

  // ------------------------------------------------------------ figures of real records

  /** Every record is one object, and an owner's figure is part of the total. */
  lemma {:induction false} ObjectsOfRecords<K>(records: map<K, Charge>, o: Owner)
    ensures Total(records, Query(None, Objects)) == |records|
    ensures forall unit :: Total(records, Query(Some(o), unit)) <= Total(records, Query(None, unit))
    decreases |records|
  {
    if records == map[] {
      forall q ensures Total(records, q) == 0 {
      }
    } else {
      hide Total;
      var k :| k in records;
      ObjectsOfRecords(records - {k}, o);
      OneLess(records, k);
      TotalRemove(records, k, Query(None, Objects));
      forall unit ensures Total(records, Query(Some(o), unit)) <= Total(records, Query(None, unit)) {
        TotalRemove(records, k, Query(Some(o), unit));
        TotalRemove(records, k, Query(None, unit));
        assert Total(records - {k}, Query(Some(o), unit)) <= Total(records - {k}, Query(None, unit));
      }
    }
  }

  /** Every record has 1 to `record` bytes. */
  lemma {:induction false} BytesOfRecords<K>(records: map<K, Charge>, record: nat)
    requires forall k :: k in records ==> 1 <= records[k].bytes <= record
    ensures |records| <= Total(records, Query(None, Bytes)) <= |records| * record
    decreases |records|
  {
    if records == map[] {
      assert Total(records, Query(None, Bytes)) == 0;
    } else {
      hide Total;
      var k :| k in records;
      BytesOfRecords(records - {k}, record);
      OneLess(records, k);
      TotalRemove(records, k, Query(None, Bytes));
      OneMore(|records - {k}|, record);
    }
  }

  lemma OneLess<K>(records: map<K, Charge>, k: K)
    requires k in records
    ensures |records| == |records - {k}| + 1
  {
    assert records.Keys == (records - {k}).Keys + {k};
  }

  lemma OneMore(n: nat, record: nat)
    ensures (n + 1) * record == n * record + record
  {
  }

  lemma FilledFits(count: nat, bytes: nat, record: nat)
    requires 1 <= record && 1 <= count <= bytes <= count * record
    ensures var last := Min(record, bytes - (count - 1));
      1 <= last <= record && count - 1 <= bytes - last <= (count - 1) * record
  {
    OneMore(count - 1, record);
    MoreThanOne(count - 1, record);
    LastFits(count, bytes, record, (count - 1) * record);
  }

  lemma LastFits(count: nat, bytes: nat, record: nat, room: nat)
    requires 1 <= record && 1 <= count <= bytes <= room + record && count - 1 <= room
    ensures var last := Min(record, bytes - (count - 1));
      1 <= last <= record && count - 1 <= bytes - last <= room
  {
  }

  /** The figure `q` of so many records of one owner with so many bytes between them. */
  function Share(q: Query, o: Owner, count: nat, bytes: nat): nat {
    if q.owner == None || q.owner == Some(o) then if q.unit == Bytes then bytes else count else 0
  }

  /** There are so many records of one owner with so many bytes between them. */
  lemma {:induction false} MakeRecords(o: Owner, count: nat, bytes: nat, record: nat)
    returns (records: map<nat, Charge>)
    requires 1 <= record && count <= bytes <= count * record
    ensures forall k :: k in records ==> k <= count && records[k].owner == o && 1 <= records[k].bytes <= record
    ensures forall q :: Total(records, q) == Share(q, o, count, bytes)
    decreases count
  {
    if count == 0 {
      records := map[];
      forall q ensures Total(records, q) == 0 {
      }
    } else {
      hide Total;
      FilledFits(count, bytes, record);
      var last := Min(record, bytes - (count - 1));
      var rest := MakeRecords(o, count - 1, bytes - last, record);
      records := rest[count := Charge(o, last)];
      forall q ensures Total(records, q) == Total(rest, q) + Weight(Charge(o, last), q) {
        TotalInsert(rest, count, Charge(o, last), q);
      }
    }
  }

  // ------------------------------------------------------------ the exact condition

  /** Figures that records of 1 to `record` bytes can add up to. */
  ghost predicate Plausible(u: Ledger, record: nat) {
    && u.totalObjects <= u.totalBytes <= u.totalObjects * record
    && u.totalBytes <= U64_MAX && u.totalObjects <= U64_MAX
    && forall o :: u.Of(o).bytes <= u.totalBytes && u.Of(o).objects <= u.totalObjects
  }

  lemma BooksArePlausible(u: Ledger, records: map<nat, Charge>, record: nat)
    requires Books(u, records, record)
    ensures Plausible(u, record)
  {
    BytesOfRecords(records, record);
    assert u.At(Query(None, Bytes)) == Total(records, Query(None, Bytes)) <= U64_MAX;
    assert u.At(Query(None, Objects)) == Total(records, Query(None, Objects)) <= U64_MAX;
    forall o ensures u.Of(o).bytes <= u.totalBytes && u.Of(o).objects <= u.totalObjects {
      ObjectsOfRecords(records, o);
      assert u.At(Query(Some(o), Bytes)) == Total(records, Query(Some(o), Bytes));
      assert u.At(Query(Some(o), Objects)) == Total(records, Query(Some(o), Objects));
    }
    ObjectsOfRecords(records, "");
  }

  /** Room is needed. */
  lemma OverflowNeedsRoom(u: Ledger, c: Charge, limits: Limits, record: nat)
    requires limits.Valid() && Plausible(u, record)
    requires 1 <= c.bytes <= Min(record, limits.maxObjectBytes) && Reserve(u, c, limits).Overflow?
    ensures RoomToOverflow(limits, record)
  {
    assert u.Of(c.owner).bytes <= u.totalBytes && u.Of(c.owner).objects <= u.totalObjects;
    assert u.totalBytes + c.bytes > U64_MAX;
    if limits.maxObjects < U64_MAX {
      MoreRecords(u.totalObjects, limits.maxObjects - 1, record);
    }
  }

  lemma MoreRecords(m: nat, n: nat, record: nat)
    requires m <= n
    ensures m * record <= n * record
  {
  }

  /** Room suffices: the records and the request that overflow, in a balanced ledger. */
  lemma RoomOverflows(limits: Limits, record: nat) returns (u: Ledger, records: map<nat, Charge>, c: Charge)
    requires limits.Valid() && 1 <= record && RoomToOverflow(limits, record)
    ensures Books(u, records, record) && Balanced(u)
    ensures 1 <= c.bytes <= Min(record, limits.maxObjectBytes) && Reserve(u, c, limits).Overflow?
  {
    var count := if limits.maxObjects == U64_MAX then U64_MAX else limits.maxObjects - 1;
    MoreThanOne(count, record);
    var bytes := Min(count * record, U64_MAX);
    c := Charge("b", if limits.maxObjects == U64_MAX then 1 else Min(record, limits.maxObjectBytes));
    records := MakeRecords("a", count, bytes, record);
    u := Ledger(bytes, count, map["a" := OwnerUsage(bytes, count)]);
    assert limits.maxObjects != U64_MAX ==> count > 0;
    OneOwnerBalanced("a", bytes, count);
    assert "a" != "b";
    assert u.Of("b") == OwnerUsage(0, 0);
  }

  lemma MoreThanOne(count: nat, record: nat)
    requires 1 <= record
    ensures count <= count * record
  {
  }

  lemma OneOwnerBalanced(o: Owner, bytes: nat, objects: nat)
    ensures Balanced(Ledger(bytes, objects, map[o := OwnerUsage(bytes, objects)]))
  {
    var owners := map[o := OwnerUsage(bytes, objects)];
    forall unit ensures OwnerSum(owners, unit) == Amount(owners[o], unit) {
      OwnerSumChange(owners, o, unit);
      assert owners - {o} == map[];
    }
  }

  /**
   Over the ledgers and requests a store can meet, the addition overflows exactly when the byte
   ceiling is u64::MAX and the object ceiling leaves room for records that fill it.
   */
  lemma OverflowsIff(limits: Limits, record: nat)
    requires limits.Valid() && 1 <= record
    ensures Overflows(limits, record) <==> RoomToOverflow(limits, record)
  {
    if Overflows(limits, record) {
      var u: Ledger, records: map<nat, Charge>, c: Charge :|
        Books(u, records, record) && 1 <= c.bytes <= Min(record, limits.maxObjectBytes)
        && Reserve(u, c, limits).Overflow?;
      BooksArePlausible(u, records, record);
      OverflowNeedsRoom(u, c, limits, record);
    }
    if RoomToOverflow(limits, record) {
      var u, records, c := RoomOverflows(limits, record);
    }
  }
}
