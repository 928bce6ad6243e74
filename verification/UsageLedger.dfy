/** The ledger as the store holds it: three fields updated in place (`Usage` in store.rs). */
module UsageLedger {
  import opened Wrappers
  import opened Quota

  datatype QuotaError = StoreQuotaExceeded | OwnerQuotaExceeded

  class Usage {
    var totalBytes: nat
    var totalObjects: nat
    var owners: map<Owner, OwnerUsage>

    ghost function Model(): Ledger
      reads this
    {
      Ledger(totalBytes, totalObjects, owners)
    }

    constructor ()
      ensures Model() == EMPTY
    {
      totalBytes, totalObjects, owners := 0, 0, map[];
    }

    method Reserve(owner: Owner, bytes: nat, limits: Limits) returns (r: Result<(), QuotaError>)
      requires limits.Valid() && !Quota.Reserve(Model(), Charge(owner, bytes), limits).Overflow?
      modifies this
      ensures match Quota.Reserve(old(Model()), Charge(owner, bytes), limits)
              case StoreQuota => r == Failure(StoreQuotaExceeded) && Model() == old(Model())
              case OwnerQuota(after) => r == Failure(OwnerQuotaExceeded) && Model() == after
              case Reserved(after) => r == Success(()) && Model() == after
              case Overflow => false
    {
      if SaturatingAdd(totalBytes, bytes) > limits.maxTotalBytes
         || SaturatingAdd(totalObjects, 1) > limits.maxObjects {
        return Failure(StoreQuotaExceeded);
      }
      ghost var before := Model();
      if owner !in owners {
        owners := owners[owner := OwnerUsage(0, 0)];
      }
      var usage := owners[owner];
      if SaturatingAdd(usage.bytes, bytes) > limits.maxOwnerBytes
         || SaturatingAdd(usage.objects, 1) > limits.maxOwnerObjects {
        if usage.bytes == 0 && usage.objects == 0 {
          owners := owners - {owner};
        }
        assert Model() == Quota.Reserve(before, Charge(owner, bytes), limits).ledger;
        return Failure(OwnerQuotaExceeded);
      }
      totalBytes := totalBytes + bytes;
      totalObjects := totalObjects + 1;
      owners := owners[owner := OwnerUsage(usage.bytes + bytes, usage.objects + 1)];
      assert Model().owners == Quota.Reserve(before, Charge(owner, bytes), limits).ledger.owners;
      return Success(());
    }

    method AddExisting(owner: Owner, bytes: nat)
      modifies this
      ensures Model() == Quota.AddExisting(old(Model()), Charge(owner, bytes))
    {
      totalBytes := SaturatingAdd(totalBytes, bytes);
      totalObjects := SaturatingAdd(totalObjects, 1);
      var usage := if owner in owners then owners[owner] else OwnerUsage(0, 0);
      owners := owners[owner := OwnerUsage(SaturatingAdd(usage.bytes, bytes),
                                           SaturatingAdd(usage.objects, 1))];
    }

    method Remove(owner: Owner, bytes: nat)
      modifies this
      ensures Model() == Quota.Remove(old(Model()), Charge(owner, bytes))
    {
      totalBytes := SaturatingSub(totalBytes, bytes);
      totalObjects := SaturatingSub(totalObjects, 1);
      if owner in owners {
        var usage := owners[owner];
        owners := owners[owner := OwnerUsage(SaturatingSub(usage.bytes, bytes),
                                             SaturatingSub(usage.objects, 1))];
        if owners[owner].bytes == 0 && owners[owner].objects == 0 {
          owners := owners - {owner};
        }
      }
    }
  }
}
