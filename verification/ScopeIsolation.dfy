/** Scoped opens and deletes (`open_body`, `delete_with_metadata` in store.rs) as a two-run property. */
module ScopeIsolation {
  import opened DigestText
  import opened ArtifactTypes

  type Disk = map<Uuid, Entry>

  /** How an operation fails: before it looks, or in the removal if it gets that far. */
  datatype Fault = NoFault | Unavailable | RemoveFails(vanished: bool) | SyncFails

  datatype Operation = Operation(id: Uuid, now: Millis, delete: bool, fault: Fault)

  datatype Response = Contents(metadata: ArtifactMetadata, body: seq<byte>)
                    | Gone(metadata: ArtifactMetadata)
                    | Refused(error: StoreError)

  datatype Step = Step(response: Response, disk: Disk)

  /** `remove_known` and the answer the caller gives when it succeeds. */
  function Removing(disk: Disk, op: Operation, answer: Response): Step {
    match op.fault
    case NoFault => Step(answer, disk - {op.id})
    case Unavailable => Step(Refused(Io), disk)
    case RemoveFails(vanished) => Step(Refused(Io), if vanished then disk - {op.id} else disk)
    case SyncFails => Step(Refused(Io), disk - {op.id})
  }

  function Perform(hash: seq<byte> -> Digest, disk: Disk, scope: Scope, op: Operation): Step {
    if op.fault.Unavailable? then Step(Refused(Io), disk)
    else if op.id !in disk then Step(Refused(NotFound), disk)
    else
      var loaded := Load(disk[op.id], op.id);
      if loaded.Failure? then Step(Refused(loaded.error), disk)
      else
        var (metadata, body) := loaded.value;
        if !scope.Matches(metadata) then Step(Refused(NotFound), disk)
        else if metadata.expiresAt <= op.now then Removing(disk, op, Refused(Expired))
        else if !DigestMatches(hash, metadata, body)
        then Step(Refused(CorruptArtifact(op.id, BodyDigest)), disk)
        else if op.delete then Removing(disk, op, Gone(metadata))
        else Step(Contents(metadata, body), disk)
  }

  /**
   What an open or a delete answers and leaves behind, by the record's own attributes: only its
   owner, with its generation, purpose and provenance, learns of it or removes it.
   */
  predicate Tells(hash: seq<byte> -> Digest, before: Disk, scope: Scope, op: Operation, response: Response, after: Disk) {
    if op.fault == Unavailable then response == Refused(Io) && after == before
    else if op.id !in before then response == Refused(NotFound) && after == before
    else if Load(before[op.id], op.id).Failure? then
      response == Refused(Load(before[op.id], op.id).error) && after == before
    else
      var (m, body) := Load(before[op.id], op.id).value;
      if m.owner != scope.owner || m.generation != scope.generation || m.purpose != scope.purpose
         || m.provenance != scope.provenance then
        response == Refused(NotFound) && after == before
      else if op.now < m.expiresAt && hash(body) != m.sha256 then
        response == Refused(CorruptArtifact(op.id, BodyDigest)) && after == before
      else if op.now < m.expiresAt && !op.delete then
        response == Contents(m, body) && after == before
      else
        && after == (if op.fault == RemoveFails(false) then before else before - {op.id})
        && response == (if op.fault != NoFault then Refused(Io)
                        else if m.expiresAt <= op.now then Refused(Expired) else Gone(m))
  }

  lemma PerformTells(hash: seq<byte> -> Digest, disk: Disk, scope: Scope, op: Operation)
    ensures Tells(hash, disk, scope, op, Perform(hash, disk, scope, op).response, Perform(hash, disk, scope, op).disk)
  {
    hide Load;
  }

  /**
   A complete record is there for the four attributes it was stored with and for nobody else: any
   scope that differs in one of them is told that there is nothing and changes nothing.
   */
  lemma OnlyItsScope(hash: seq<byte> -> Digest, disk: Disk, scope: Scope, op: Operation)
    requires op.id in disk && Complete(hash, disk[op.id], op.id) && op.fault == NoFault
    ensures var (m, body) := Load(disk[op.id], op.id).value;
      var step := Perform(hash, disk, scope, op);
      if scope != Scope(m.owner, m.generation, m.purpose, m.provenance) then step == Step(Refused(NotFound), disk)
      else if m.expiresAt <= op.now then step == Step(Refused(Expired), disk - {op.id})
      else if op.delete then step == Step(Gone(m), disk - {op.id})
      else step == Step(Contents(m, body), disk)
  {
    hide Load;
    PerformTells(hash, disk, scope, op);
  }

  /** The answers to a sequence of operations in one scope. */
  function Answers(hash: seq<byte> -> Digest, disk: Disk, scope: Scope, ops: seq<Operation>)
    : seq<Response>
  {
    if ops == [] then []
    else
      var step := Perform(hash, disk, scope, ops[0]);
      [step.response] + Answers(hash, step.disk, scope, ops[1..])
  }

  predicate Uncorrupted(disk: Disk) {
    forall id :: id in disk ==> Load(disk[id], id).Success?
  }

  /** The records a scope may see. */
  function View(disk: Disk, scope: Scope): Disk {
    map id | id in disk && Load(disk[id], id).Success? && scope.Matches(Load(disk[id], id).value.0)
      :: disk[id]
  }

  /** The record loads and has the owner, generation, purpose and provenance of the scope. */
  predicate HoldsFor(disk: Disk, scope: Scope, id: Uuid)
    requires id in disk
  {
    && Load(disk[id], id).Success?
    && var m := Load(disk[id], id).value.0;
       && m.owner == scope.owner && m.generation == scope.generation
       && m.purpose == scope.purpose && m.provenance == scope.provenance
  }

  lemma ViewIff(disk: Disk, scope: Scope)
    ensures forall id :: id in View(disk, scope) <==> id in disk && HoldsFor(disk, scope, id)
    ensures forall id :: id in View(disk, scope) ==> View(disk, scope)[id] == disk[id]
  {
    hide Load;
  }

  /** An operation answers from the view alone, changes the view alone and corrupts nothing. */
  lemma PerformsOnView(hash: seq<byte> -> Digest, disk: Disk, scope: Scope, op: Operation)
    requires Uncorrupted(disk)
    ensures Perform(hash, disk, scope, op).response
         == Perform(hash, View(disk, scope), scope, op).response
    ensures View(Perform(hash, disk, scope, op).disk, scope)
         == Perform(hash, View(disk, scope), scope, op).disk
    ensures Uncorrupted(Perform(hash, disk, scope, op).disk)
  {
    hide Load;
  }

  /**
   Two stores that agree on the records of one scope answer every sequence of opens and
   deletes in that scope alike, whatever else they hold and whichever removals fail.
   */
  lemma {:induction false} Isolation(hash: seq<byte> -> Digest, left: Disk, right: Disk, scope: Scope,
                                     ops: seq<Operation>)
    requires Uncorrupted(left) && Uncorrupted(right)
    requires View(left, scope) == View(right, scope)
    ensures Answers(hash, left, scope, ops) == Answers(hash, right, scope, ops)
  {
    hide Load;
    if ops != [] {
      PerformsOnView(hash, left, scope, ops[0]);
      PerformsOnView(hash, right, scope, ops[0]);
      Isolation(hash, Perform(hash, left, scope, ops[0]).disk,
                Perform(hash, right, scope, ops[0]).disk, scope, ops[1..]);
    }
  }

  /** No sequence of operations in one scope touches a record of another. */
  lemma {:induction false} OthersUntouched(hash: seq<byte> -> Digest, disk: Disk, scope: Scope,
                                           ops: seq<Operation>, id: Uuid)
    requires id in disk && !HoldsFor(disk, scope, id)
    ensures id in Final(hash, disk, scope, ops) && Final(hash, disk, scope, ops)[id] == disk[id]
  {
    hide Load;
    if ops != [] {
      PerformTells(hash, disk, scope, ops[0]);
      OthersUntouched(hash, Perform(hash, disk, scope, ops[0]).disk, scope, ops[1..], id);
    }
  }

  function Final(hash: seq<byte> -> Digest, disk: Disk, scope: Scope, ops: seq<Operation>): Disk {
    if ops == [] then disk
    else Final(hash, Perform(hash, disk, scope, ops[0]).disk, scope, ops[1..])
  }

  /**
   A record outside the scope, expired or not, is never changed, and it cannot be told from an
   absent one exactly when it loads: a corrupt record is reported before its scope is known.
   */
  lemma OutsideScopeIsAbsent(hash: seq<byte> -> Digest, disk: Disk, scope: Scope, op: Operation)
    requires op.id in disk && !HoldsFor(disk, scope, op.id) && !op.fault.Unavailable?
    ensures Perform(hash, disk, scope, op).disk == disk
    ensures Perform(hash, disk, scope, op).response
              == Perform(hash, disk - {op.id}, scope, op).response
       <==> Load(disk[op.id], op.id).Success?
  {
    hide ValidateCommon;
    hide ParseDigest;
    ViewIff(disk, scope);
  }
}
