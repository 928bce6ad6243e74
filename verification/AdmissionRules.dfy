/** When `create` admits a request (store.rs), spelled out. */
module AdmissionRules {
  import opened Quota
  import opened ArtifactTypes
  import opened StoreMachine

  /** Well-formed, timely, under a fresh identifier, and within every ceiling it counts against. */
  ghost predicate Admissible(s: Store, id: Uuid, request: ArtifactCreate, now: Millis) {
    && WellFormed(request.owner, request.generation, request.provenance, request.redaction, request.contentType)
    && Timely(request, s.limits, now)
    && id !in s.temporary && id !in s.active
    && s.usage.totalBytes + request.expectedSize <= s.limits.maxTotalBytes
    && s.usage.totalObjects + 1 <= s.limits.maxObjects
    && s.usage.Of(request.owner).bytes + request.expectedSize <= s.limits.maxOwnerBytes
    && s.usage.Of(request.owner).objects + 1 <= s.limits.maxOwnerObjects
  }

  lemma AdmittedIff(s: Store, id: Uuid, request: ArtifactCreate, now: Millis)
    requires s.holder.Free? && s.limits.Valid()
    ensures CanAdmit(s, id, request, now) <==> Admissible(s, id, request, now)
  {
    hide WellFormed, ValidateCommon, ValidateTimeAndSize, Timely;
    ValidateCommonIff(request.owner, request.generation, request.provenance, request.redaction, request.contentType);
    ValidateTimeAndSizeIff(request, s.limits, now);
  }

  /** The ledger after admission holds the request on every figure it counts against, and nothing else changed. */
  lemma AdmittedCharge(s: Store, id: Uuid, request: ArtifactCreate, now: Millis)
    requires CanAdmit(s, id, request, now) && s.limits.Valid() && s.usage.Pruned()
    ensures forall q :: DoAdmit(s, id, request, now).usage.At(q)
                     == s.usage.At(q) + Weight(Charge(request.owner, request.expectedSize), q)
  {
    hide ValidateCommon, ValidateTimeAndSize, Reserve;
    ReserveExact(s.usage, request.Charge(), s.limits);
  }
}
