/**
 Quota accounting of the artifact store (`Usage` in store.rs).

 A `Query` names one of the figures the ledger keeps: bytes or objects, store-wide or for
 one owner.  Every statement about the ledger is made for all queries at once, so it covers
 the four figures together.
 */
module Quota {
  import opened Sums
  import opened Wrappers

  const U64_MAX: nat := 0xFFFF_FFFF_FFFF_FFFF

  type Owner = string

  /** What one artifact costs: a number of bytes and one object, billed to one owner. */
  datatype Charge = Charge(owner: Owner, bytes: nat)

  datatype Unit = Bytes | Objects

  datatype Query = Query(owner: Option<Owner>, unit: Unit)

  datatype Limits = Limits(
    maxObjectBytes: nat,
    maxTotalBytes: nat,
    maxObjects: nat,
    maxOwnerBytes: nat,
    maxOwnerObjects: nat,
    maxRetentionMillis: nat)
  {
    /** `ArtifactLimits::new` accepts exactly these six ceilings. */
    predicate Valid() {
      && 0 < maxObjectBytes && 0 < maxTotalBytes && 0 < maxObjects
      && 0 < maxOwnerBytes && 0 < maxOwnerObjects && 0 < maxRetentionMillis
      && maxObjectBytes <= maxTotalBytes
      && maxObjectBytes <= maxOwnerBytes
      && maxOwnerBytes <= maxTotalBytes
      && maxOwnerObjects <= maxObjects
      && maxTotalBytes <= U64_MAX && maxObjects <= U64_MAX && maxRetentionMillis <= U64_MAX
    }

    /** No ceiling coincides with the value at which `saturating_add` saturates. */
    predicate BelowSaturation() {
      maxTotalBytes < U64_MAX && maxObjects < U64_MAX
    }

    function Cap(q: Query): nat {
      match (q.owner, q.unit)
      case (None, Bytes) => maxTotalBytes
      case (None, Objects) => maxObjects
      case (Some(_), Bytes) => maxOwnerBytes
      case (Some(_), Objects) => maxOwnerObjects
    }
  }

  datatype OwnerUsage = OwnerUsage(bytes: nat, objects: nat)

  datatype Ledger = Ledger(totalBytes: nat, totalObjects: nat, owners: map<Owner, OwnerUsage>)
  {
    function Of(owner: Owner): OwnerUsage {
      if owner in owners then owners[owner] else OwnerUsage(0, 0)
    }

    function At(q: Query): nat {
      match (q.owner, q.unit)
      case (None, Bytes) => totalBytes
      case (None, Objects) => totalObjects
      case (Some(o), Bytes) => Of(o).bytes
      case (Some(o), Objects) => Of(o).objects
    }

    /** Owners without usage are pruned, so that an idle owner leaves no trace in the map. */
    ghost predicate Pruned() {
      forall o :: o in owners ==> owners[o] != OwnerUsage(0, 0)
    }

    ghost predicate Within(limits: Limits) {
      forall q :: At(q) <= limits.Cap(q)
    }
  }

  const EMPTY: Ledger := Ledger(0, 0, map[])

  function Weight(c: Charge, q: Query): nat {
    if q.owner == None || q.owner == Some(c.owner) then
      if q.unit == Bytes then c.bytes else 1
    else 0
  }

  function SaturatingAdd(a: nat, b: nat): nat {
    if a + b > U64_MAX then U64_MAX else a + b
  }

  function SaturatingSub(a: nat, b: nat): nat {
    if a < b then 0 else a - b
  }

  // ------------------------------------------------------------ the three ledger updates

  /** `Overflow` stands for the unchecked `+=` leaving the u64 range. */
  datatype ReserveOutcome =
    | Reserved(ledger: Ledger)
    | StoreQuota
    | OwnerQuota(ledger: Ledger)
    | Overflow

  function Reserve(u: Ledger, c: Charge, limits: Limits): ReserveOutcome {
    if || SaturatingAdd(u.totalBytes, c.bytes) > limits.maxTotalBytes
       || SaturatingAdd(u.totalObjects, 1) > limits.maxObjects
    then StoreQuota
    else
      var before := u.Of(c.owner);
      if || SaturatingAdd(before.bytes, c.bytes) > limits.maxOwnerBytes
         || SaturatingAdd(before.objects, 1) > limits.maxOwnerObjects
      then
        if before == OwnerUsage(0, 0) then OwnerQuota(u.(owners := u.owners - {c.owner}))
        else OwnerQuota(u)
      else if || u.totalBytes + c.bytes > U64_MAX || u.totalObjects + 1 > U64_MAX
              || before.bytes + c.bytes > U64_MAX || before.objects + 1 > U64_MAX
      then Overflow
      else Reserved(Ledger(
        u.totalBytes + c.bytes,
        u.totalObjects + 1,
        u.owners[c.owner := OwnerUsage(before.bytes + c.bytes, before.objects + 1)]))
  }

  function AddExisting(u: Ledger, c: Charge): Ledger {
    var before := u.Of(c.owner);
    Ledger(
      SaturatingAdd(u.totalBytes, c.bytes),
      SaturatingAdd(u.totalObjects, 1),
      u.owners[c.owner := OwnerUsage(SaturatingAdd(before.bytes, c.bytes),
                                     SaturatingAdd(before.objects, 1))])
  }

  function Remove(u: Ledger, c: Charge): Ledger {
    var bytes := SaturatingSub(u.totalBytes, c.bytes);
    var objects := SaturatingSub(u.totalObjects, 1);
    if c.owner !in u.owners then Ledger(bytes, objects, u.owners)
    else
      var after := OwnerUsage(SaturatingSub(u.owners[c.owner].bytes, c.bytes),
                              SaturatingSub(u.owners[c.owner].objects, 1));
      Ledger(bytes, objects,
             if after == OwnerUsage(0, 0) then u.owners - {c.owner}
             else u.owners[c.owner := after])
  }

  /** Admission charges exactly the request, and only when every ceiling still holds after it. */
  lemma ReserveExact(u: Ledger, c: Charge, limits: Limits)
    requires limits.Valid() && u.Pruned()
    ensures Reserve(u, c, limits).Reserved? ==>
      var v := Reserve(u, c, limits).ledger;
      && v.Pruned()
      && (forall q :: v.At(q) == u.At(q) + Weight(c, q))
      && (forall q :: Weight(c, q) > 0 ==> v.At(q) <= limits.Cap(q))
    ensures Reserve(u, c, limits).OwnerQuota? ==> Reserve(u, c, limits).ledger == u
    ensures Reserve(u, c, limits).Reserved? ==> forall q :: Weight(c, q) > 0 ==> u.At(q) + Weight(c, q) <= limits.Cap(q)
    ensures c.bytes > 0 && (forall q :: Weight(c, q) > 0 ==> u.At(q) + Weight(c, q) <= limits.Cap(q)) ==>
      Reserve(u, c, limits).Reserved?
    ensures limits.BelowSaturation() ==>
      (Reserve(u, c, limits).StoreQuota? <==> u.totalBytes + c.bytes > limits.maxTotalBytes
                                              || u.totalObjects + 1 > limits.maxObjects)
  {
    if c.bytes > 0 && forall q :: Weight(c, q) > 0 ==> u.At(q) + Weight(c, q) <= limits.Cap(q) {
      var own, all := Query(Some(c.owner), Objects), Query(None, Objects);
      assert u.At(own) + Weight(c, own) <= limits.Cap(own) && u.At(all) + Weight(c, all) <= limits.Cap(all);
      var ownBytes, allBytes := Query(Some(c.owner), Bytes), Query(None, Bytes);
      assert u.At(ownBytes) + Weight(c, ownBytes) <= limits.Cap(ownBytes);
      assert u.At(allBytes) + Weight(c, allBytes) <= limits.Cap(allBytes);
    }
    if Reserve(u, c, limits).OwnerQuota? {
      assert u.Of(c.owner) == OwnerUsage(0, 0) ==> c.owner !in u.owners;
    }
  }

  /**
   Comparing with `saturating_add` and then adding with `+=` is exact for every ledger and
   every charge when no ceiling equals u64::MAX.
   */
  lemma ReserveNeverOverflows(u: Ledger, c: Charge, limits: Limits)
    requires limits.Valid() && limits.BelowSaturation()
    ensures !Reserve(u, c, limits).Overflow?
  {
  }

  lemma AddExistingExact(u: Ledger, c: Charge)
    requires forall q :: u.At(q) + Weight(c, q) <= U64_MAX
    ensures forall q :: AddExisting(u, c).At(q) == u.At(q) + Weight(c, q)
    ensures u.Pruned() ==> AddExisting(u, c).Pruned()
  {
    forall q ensures AddExisting(u, c).At(q) == u.At(q) + Weight(c, q) {
      assert u.At(q) + Weight(c, q) <= U64_MAX;
    }
    var own := Query(Some(c.owner), Objects);
    assert u.At(own) + Weight(c, own) <= U64_MAX;
  }

  /** Releasing a charge that is on the books truncates nothing. */
  lemma RemoveExact(u: Ledger, c: Charge)
    requires forall q :: Weight(c, q) <= u.At(q)
    ensures forall q :: Remove(u, c).At(q) == u.At(q) - Weight(c, q)
    ensures u.Pruned() ==> Remove(u, c).Pruned()
  {
    var own := Query(Some(c.owner), Objects);
    assert Weight(c, own) <= u.At(own);
    forall q ensures Remove(u, c).At(q) == u.At(q) - Weight(c, q) {
      assert Weight(c, q) <= u.At(q);
    }
  }

  /** Pruned ledgers with the same figures are the same ledger. */
  lemma SameFigures(u: Ledger, v: Ledger)
    requires u.Pruned() && v.Pruned() && forall q :: u.At(q) == v.At(q)
    ensures u == v
  {
    assert u.At(Query(None, Bytes)) == v.At(Query(None, Bytes));
    assert u.At(Query(None, Objects)) == v.At(Query(None, Objects));
    forall o ensures u.Of(o) == v.Of(o) && (o in u.owners <==> o in v.owners) {
      assert u.At(Query(Some(o), Bytes)) == v.At(Query(Some(o), Bytes));
      assert u.At(Query(Some(o), Objects)) == v.At(Query(Some(o), Objects));
    }
  }

  /** Releasing what was just reserved restores the ledger, owners map included. */
  lemma ReserveThenRemove(u: Ledger, c: Charge, limits: Limits)
    requires limits.Valid() && u.Pruned() && Reserve(u, c, limits).Reserved?
    ensures Remove(Reserve(u, c, limits).ledger, c) == u
  {
    ReserveExact(u, c, limits);
    RemoveExact(Reserve(u, c, limits).ledger, c);
    SameFigures(Remove(Reserve(u, c, limits).ledger, c), u);
  }

  // ------------------------------------------------------------ the simple definition

  /** The figure `q` of a collection of charges, added up from scratch. */
  ghost function Total<K>(charges: map<K, Charge>, q: Query): nat {
    Sum(map k | k in charges :: Weight(charges[k], q))
  }

  lemma TotalRemove<K>(charges: map<K, Charge>, k: K, q: Query)
    requires k in charges
    ensures Total(charges, q) == Total(charges - {k}, q) + Weight(charges[k], q)
  {
    var weights := map j | j in charges :: Weight(charges[j], q);
    SumRemove(weights, k);
    assert weights - {k} == map j | j in charges - {k} :: Weight((charges - {k})[j], q);
  }

  lemma TotalInsert<K>(charges: map<K, Charge>, k: K, c: Charge, q: Query)
    requires k !in charges
    ensures Total(charges[k := c], q) == Total(charges, q) + Weight(c, q)
  {
    TotalRemove(charges[k := c], k, q);
    assert charges[k := c] - {k} == charges;
  }

  // ------------------------------------------------------------ totals against owners

  function Amount(o: OwnerUsage, unit: Unit): nat {
    if unit == Bytes then o.bytes else o.objects
  }

  ghost function OwnerSum(owners: map<Owner, OwnerUsage>, unit: Unit): nat {
    Sum(map o | o in owners :: Amount(owners[o], unit))
  }

  /** The store-wide figures are the sums of the owners' figures. */
  ghost predicate Balanced(u: Ledger) {
    forall unit :: u.At(Query(None, unit)) == OwnerSum(u.owners, unit)
  }

  lemma OwnerSumChange(owners: map<Owner, OwnerUsage>, o: Owner, unit: Unit)
    ensures OwnerSum(owners, unit) == OwnerSum(owners - {o}, unit)
                                      + (if o in owners then Amount(owners[o], unit) else 0)
  {
    var amounts := map p | p in owners :: Amount(owners[p], unit);
    var rest := owners - {o};
    assert amounts - {o} == map p | p in rest :: Amount(rest[p], unit);
    if o in owners {
      SumRemove(amounts, o);
    } else {
      assert rest == owners;
    }
  }

  lemma BalancedEmpty()
    ensures Balanced(EMPTY)
  {
    forall unit ensures OwnerSum(EMPTY.owners, unit) == 0 {
    }
  }

  lemma BalancedChange(u: Ledger, v: Ledger, o: Owner)
    requires Balanced(u)
    requires u.owners - {o} == v.owners - {o}
    requires forall unit ::
      v.At(Query(None, unit)) + u.At(Query(Some(o), unit))
      == u.At(Query(None, unit)) + v.At(Query(Some(o), unit))
    ensures Balanced(v)
  {
    forall unit ensures v.At(Query(None, unit)) == OwnerSum(v.owners, unit) {
      OwnerSumChange(u.owners, o, unit);
      OwnerSumChange(v.owners, o, unit);
      assert v.At(Query(None, unit)) + u.At(Query(Some(o), unit))
          == u.At(Query(None, unit)) + v.At(Query(Some(o), unit));
      assert u.At(Query(None, unit)) == OwnerSum(u.owners, unit);
    }
  }

  /** Every exact update of the ledger keeps the totals equal to the sum over owners. */
  lemma UpdatesKeepBalance(u: Ledger, c: Charge, limits: Limits)
    requires Balanced(u) && u.Pruned() && limits.Valid()
    ensures Reserve(u, c, limits).Reserved? ==> Balanced(Reserve(u, c, limits).ledger)
    ensures (forall q :: u.At(q) + Weight(c, q) <= U64_MAX) ==> Balanced(AddExisting(u, c))
    ensures (forall q :: Weight(c, q) <= u.At(q)) ==> Balanced(Remove(u, c))
  {
    if Reserve(u, c, limits).Reserved? {
      ReserveExact(u, c, limits);
      BalancedChange(u, Reserve(u, c, limits).ledger, c.owner);
    }
    if forall q :: u.At(q) + Weight(c, q) <= U64_MAX {
      AddExistingExact(u, c);
      BalancedChange(u, AddExisting(u, c), c.owner);
    }
    if forall q :: Weight(c, q) <= u.At(q) {
      RemoveExact(u, c);
      BalancedChange(u, Remove(u, c), c.owner);
    }
  }
}
