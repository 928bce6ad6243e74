/** Artifact requests, metadata and their validation (types.rs), and the record format (store.rs). */
module ArtifactTypes {
  import opened Wrappers
  import opened Quota
  import opened DigestText

  const MAX_OWNER_BYTES := 256
  const MAX_CAPABILITY_BYTES := 128
  const MAX_POLICY_REVISION_BYTES := 256
  const MAX_CONTENT_TYPE_BYTES := 128
  const MAX_REDACTION_POLICY_BYTES := 256
  const MAX_METADATA_BYTES := 64 * 1024

  /** The largest body any purpose allows. */
  const MAX_RECORD_BYTES: nat := 32 * 1024 * 1024
  const METADATA_FORMAT_VERSION := 1

  /** A UUID as a number; the nil UUID is 0. */
  type Uuid = nat

  type Millis = nat

  datatype ValidationError =
    | ArtifactId | OwnerName | DesktopGeneration | Capability | PolicyRevision
    | ContentType | RedactionPolicy | Expiry | BodySize

  type Checked = Result<(), ValidationError>

  // ------------------------------------------------------------ text validators

  function Utf8Length(text: string): nat {
    if text == "" then 0
    else (if text[0] < '\U{80}' then 1 else if text[0] < '\U{800}' then 2
          else if text[0] < '\U{10000}' then 3 else 4) + Utf8Length(text[1..])
  }

  /** The UTF-8 encoding of one character (section 3 of RFC 3629). */
  function Utf8Char(c: char): seq<nat> {
    var n := c as int;
    if n <= 0x7F then [n]
    else if n <= 0x7FF then [0xC0 + n / 0x40, 0x80 + n % 0x40]
    else if n <= 0xFFFF then [0xE0 + n / 0x1000, 0x80 + n / 0x40 % 0x40, 0x80 + n % 0x40]
    else [0xF0 + n / 0x4_0000, 0x80 + n / 0x1000 % 0x40, 0x80 + n / 0x40 % 0x40, 0x80 + n % 0x40]
  }

  function Utf8(text: string): seq<nat> {
    if text == "" then [] else Utf8Char(text[0]) + Utf8(text[1..])
  }

  /** The length in bytes is that of the encoding. */
  lemma {:induction false} Utf8LengthIs(text: string)
    ensures Utf8Length(text) == |Utf8(text)|
  {
    if text != "" {
      Utf8LengthIs(text[1..]);
    }
  }

  predicate IsControl(c: char) {
    c < ' ' || '\U{7F}' <= c <= '\U{9F}'
  }

  predicate ValidText(text: string, maxBytes: nat) {
    text != "" && Utf8Length(text) <= maxBytes && forall c :: c in text ==> !IsControl(c)
  }

  predicate IsCapabilityChar(c: char) {
    'a' <= c <= 'z' || '0' <= c <= '9' || c == '_' || c == ':' || c == '-'
  }

  predicate ValidCapability(text: string) {
    && text != "" && |text| <= MAX_CAPABILITY_BYTES
    && text[0] != ':' && text[|text| - 1] != ':' && ':' in text
    && forall c :: c in text ==> IsCapabilityChar(c)
  }

  predicate IsMediaTokenChar(c: char) {
    || 'a' <= c <= 'z' || 'A' <= c <= 'Z' || '0' <= c <= '9'
    || c in "!#$&^_.+-"
  }

  /** The part before the first occurrence of `separator`, or all of the text. */
  function Before(text: string, separator: char): string {
    if text == "" || text[0] == separator then "" else [text[0]] + Before(text[1..], separator)
  }

  predicate ValidContentType(text: string) {
    && text != "" && |text| <= MAX_CONTENT_TYPE_BYTES
    && text[0] != ' ' && text[|text| - 1] != ' ' && text[|text| - 1] != ';'
    && (forall c :: c in text ==> ' ' <= c <= '~')
    && Essential(text)
  }

  predicate MediaToken(text: string) {
    text != "" && forall i :: 0 <= i < |text| ==> IsMediaTokenChar(text[i])
  }

  /** A type and a subtype, and parameters behind a semicolon, if any. */
  predicate TypeAndSubtype(text: string, major: string, minor: string, parameters: string) {
    && text == major + "/" + minor + parameters && MediaToken(major) && MediaToken(minor)
    && (parameters == "" || parameters[0] == ';')
  }

  lemma {:induction false} BeforeIs(a: string, b: string, separator: char)
    requires separator !in a && (b == "" || b[0] == separator)
    ensures Before(a + b, separator) == a
  {
    if a == "" {
      assert a + b == b;
    } else {
      BeforeIs(a[1..], b, separator);
      assert (a + b)[1..] == a[1..] + b;
    }
  }

  lemma {:induction false} BeforeSplits(text: string, separator: char) returns (rest: string)
    ensures text == Before(text, separator) + rest && (rest == "" || rest[0] == separator)
    ensures separator !in Before(text, separator)
  {
    if text == "" || text[0] == separator {
      rest := text;
    } else {
      rest := BeforeSplits(text[1..], separator);
    }
  }

  lemma SeparatorsAreNoTokens()
    ensures !IsMediaTokenChar(';') && !IsMediaTokenChar('/')
  {
  }

  /** The part of a content type before its parameters is a type and a subtype. */
  predicate Essential(text: string) {
    var essence := Before(text, ';');
    var major := Before(essence, '/');
    && '/' in essence && major != "" && |major| + 1 < |essence|
    && (forall i :: 0 <= i < |major| ==> IsMediaTokenChar(major[i]))
    && (forall i :: |major| < i < |essence| ==> IsMediaTokenChar(essence[i]))
  }

  lemma MinorIsToken(essence: string, major: string, minor: string)
    requires essence == major + ("/" + minor) && |major| + 1 < |essence|
    requires forall i :: |major| < i < |essence| ==> IsMediaTokenChar(essence[i])
    ensures MediaToken(minor)
  {
    hide IsMediaTokenChar;
    forall i | 0 <= i < |minor| ensures IsMediaTokenChar(minor[i]) {
      assert minor[i] == essence[|major| + 1 + i];
    }
  }

  lemma SplitAtSlash(essence: string) returns (minor: string)
    requires '/' in essence
    ensures essence == Before(essence, '/') + ("/" + minor)
  {
    var rest := BeforeSplits(essence, '/');
    hide Before;
    assert rest != "";
    minor := rest[1..];
    assert rest == "/" + minor;
  }

  lemma EssentialSplits(text: string) returns (major: string, minor: string, parameters: string)
    requires Essential(text)
    ensures TypeAndSubtype(text, major, minor, parameters)
  {
    hide IsMediaTokenChar, Before;
    parameters := BeforeSplits(text, ';');
    var essence := Before(text, ';');
    minor := SplitAtSlash(essence);
    major := Before(essence, '/');
    MinorIsToken(essence, major, minor);
    assert major + ("/" + minor) == major + "/" + minor;
  }

  lemma TokenHasNot(token: string, c: char)
    requires MediaToken(token) && !IsMediaTokenChar(c)
    ensures c !in token
  {
    hide IsMediaTokenChar;
  }

  lemma SplitIsEssential(text: string, major: string, minor: string, parameters: string)
    requires TypeAndSubtype(text, major, minor, parameters)
    ensures Essential(text)
  {
    hide IsMediaTokenChar, Before;
    SeparatorsAreNoTokens();
    TokenHasNot(major, ';');
    TokenHasNot(minor, ';');
    TokenHasNot(major, '/');
    var essence := major + "/" + minor;
    assert ';' !in essence;
    BeforeIs(essence, parameters, ';');
    BeforeIs(major, "/" + minor, '/');
    assert major + ("/" + minor) == essence && essence[|major|] == '/';
    assert forall i :: |major| < i < |essence| ==> essence[i] == minor[i - |major| - 1];
  }

  /** A content type is 1 to 128 printable characters that are a type, a subtype and perhaps parameters. */
  lemma ValidContentTypeIff(text: string)
    ensures ValidContentType(text)
       <==> && 1 <= |text| <= 128 && text[0] != ' ' && text[|text| - 1] != ' ' && text[|text| - 1] != ';'
            && (forall c :: c in text ==> ' ' <= c <= '~')
            && exists major, minor, parameters :: TypeAndSubtype(text, major, minor, parameters)
  {
    hide IsMediaTokenChar, Before, TypeAndSubtype;
    if Essential(text) {
      var major, minor, parameters := EssentialSplits(text);
    }
    forall major, minor, parameters | TypeAndSubtype(text, major, minor, parameters) ensures Essential(text) {
      SplitIsEssential(text, major, minor, parameters);
    }
  }

  // ------------------------------------------------------------ requests, metadata, scopes

  datatype Purpose = ClipboardInput | ClipboardOutput | Screenshot | ActionTrace | SupportBundle
  {
    function MaximumBytes(): nat {
      if ClipboardInput? || ClipboardOutput? then 16 * 1024 * 1024 else 32 * 1024 * 1024
    }
  }

  datatype Provenance = Provenance(capability: string, policyRevision: Option<string>)
  {
    function Validate(): Checked {
      if !ValidCapability(capability) then Failure(Capability)
      else if policyRevision.Some? && !ValidText(policyRevision.value, MAX_POLICY_REVISION_BYTES)
      then Failure(PolicyRevision)
      else Success(())
    }
  }

  datatype Redaction = Redaction(applied: bool, policy: Option<string>)
  {
    function Validate(): Checked {
      if policy.Some? && !ValidText(policy.value, MAX_REDACTION_POLICY_BYTES)
      then Failure(RedactionPolicy) else Success(())
    }
  }

  function ValidateCommon(owner: Owner, generation: Uuid, provenance: Provenance,
                          redaction: Redaction, contentType: string): Checked {
    if !ValidText(owner, MAX_OWNER_BYTES) then Failure(OwnerName)
    else if generation == 0 then Failure(DesktopGeneration)
    else if provenance.Validate().Failure? then provenance.Validate()
    else if redaction.Validate().Failure? then redaction.Validate()
    else if !ValidContentType(contentType) then Failure(ContentType)
    else Success(())
  }

  /** What every request and every record must satisfy. */
  predicate WellFormed(owner: Owner, generation: Uuid, provenance: Provenance, redaction: Redaction, contentType: string) {
    && ValidText(owner, 256) && generation != 0
    && ValidCapability(provenance.capability)
    && (provenance.policyRevision.Some? ==> ValidText(provenance.policyRevision.value, 256))
    && (redaction.policy.Some? ==> ValidText(redaction.policy.value, 256))
    && ValidContentType(contentType)
  }

  lemma ValidateCommonIff(owner: Owner, generation: Uuid, provenance: Provenance, redaction: Redaction, contentType: string)
    ensures ValidateCommon(owner, generation, provenance, redaction, contentType).Success?
       <==> WellFormed(owner, generation, provenance, redaction, contentType)
  {
    hide ValidText, ValidCapability, ValidContentType;
  }

  datatype ArtifactCreate = ArtifactCreate(
    owner: Owner,
    purpose: Purpose,
    generation: Uuid,
    provenance: Provenance,
    contentType: string,
    expectedSize: nat,
    expectedSha256: Option<Digest>,
    expiresAt: Millis,
    redaction: Redaction)
  {
    function Validate(): Checked {
      ValidateCommon(owner, generation, provenance, redaction, contentType)
    }

    function Charge(): Charge {
      Quota.Charge(owner, expectedSize)
    }
  }

  /** `D` is a digest in memory and its text in the metadata file. */
  datatype Metadata<D> = Metadata(
    id: Uuid,
    owner: Owner,
    purpose: Purpose,
    generation: Uuid,
    provenance: Provenance,
    contentType: string,
    createdAt: Millis,
    expiresAt: Millis,
    size: nat,
    sha256: D,
    redaction: Redaction)
  {
    function Validate(directoryId: Uuid): Checked {
      if id != directoryId then Failure(ArtifactId)
      else if ValidateCommon(owner, generation, provenance, redaction, contentType).Failure?
      then ValidateCommon(owner, generation, provenance, redaction, contentType)
      else if createdAt >= expiresAt then Failure(Expiry)
      else if size == 0 || size > purpose.MaximumBytes() then Failure(BodySize)
      else Success(())
    }

    function With<E>(digest: E): Metadata<E> {
      Metadata(id, owner, purpose, generation, provenance, contentType, createdAt, expiresAt,
               size, digest, redaction)
    }
  }

  type ArtifactMetadata = Metadata<Digest>

  datatype Scope = Scope(owner: Owner, generation: Uuid, purpose: Purpose, provenance: Provenance)
  {
    predicate Matches<D>(m: Metadata<D>) {
      && owner == m.owner
      && generation == m.generation
      && purpose == m.purpose
      && provenance == m.provenance
    }
  }

  // ------------------------------------------------------------ errors

  datatype Corruption =
    | IncompleteRecord | MetadataTooLarge | MetadataInvalid | MetadataFormat | MetadataInvariant
    | CorruptBodySize | BodyDigest

  datatype StoreError =
    | Validation(error: ValidationError)
    | NotFound
    | Expired
    | TooLarge
    | EmptyBody
    | StoreQuotaExceeded
    | OwnerQuotaExceeded
    | SizeMismatch
    | DigestMismatch
    | UnexpectedEntry
    | CorruptArtifact(id: Uuid, kind: Corruption)
    | DurabilityUncertain(artifactId: Uuid)
    | Io

  /** `validate_time_and_size`: the checks made before admission and again before publication. */
  function ValidateTimeAndSize(request: ArtifactCreate, limits: Limits, now: Millis)
    : Result<(), StoreError>
  {
    if request.expectedSize == 0 then Failure(EmptyBody)
    else if request.expectedSize > limits.maxObjectBytes
            || request.expectedSize > request.purpose.MaximumBytes() then Failure(TooLarge)
    else if now + limits.maxRetentionMillis > U64_MAX then Failure(Validation(Expiry))
    else if request.expiresAt <= now || request.expiresAt > now + limits.maxRetentionMillis
    then Failure(Validation(Expiry))
    else Success(())
  }

  /** The largest body of a purpose: 16 MiB for clipboard contents, 32 MiB otherwise. */
  function SizeLimit(purpose: Purpose): nat {
    match purpose
    case ClipboardInput => 0x100_0000
    case ClipboardOutput => 0x100_0000
    case Screenshot => 0x200_0000
    case ActionTrace => 0x200_0000
    case SupportBundle => 0x200_0000
  }

  /** Not empty, no larger than store and purpose allow, and expiring within the retention time. */
  predicate Timely(request: ArtifactCreate, limits: Limits, now: Millis) {
    && 1 <= request.expectedSize <= limits.maxObjectBytes && request.expectedSize <= SizeLimit(request.purpose)
    && now < request.expiresAt <= now + limits.maxRetentionMillis <= U64_MAX
  }

  /** The checks accept exactly timely requests, and name what is wrong with the others. */
  lemma ValidateTimeAndSizeIff(request: ArtifactCreate, limits: Limits, now: Millis)
    ensures var r := ValidateTimeAndSize(request, limits, now);
      var fits := request.expectedSize <= limits.maxObjectBytes && request.expectedSize <= SizeLimit(request.purpose);
      && (r.Success? <==> Timely(request, limits, now))
      && (r == Failure(EmptyBody) <==> request.expectedSize == 0)
      && (r == Failure(TooLarge) <==> request.expectedSize > 0 && !fits)
      && (r == Failure(Validation(Expiry)) <==> request.expectedSize > 0 && fits && !Timely(request, limits, now))
  {
  }

  // ------------------------------------------------------------ the record on disk

  /** Contents of `metadata.json`: decodable or not, and of some length. */
  datatype MetadataFile =
    | Json(formatVersion: nat, artifact: Metadata<string>, length: nat)
    | Undecodable(length: nat)

  /** One directory of the store: the body file and the metadata file, each possibly missing. */
  datatype Entry = Entry(body: Option<seq<byte>>, metadata: Option<MetadataFile>)

  /** `load_checked_artifact`. */
  function Load(entry: Entry, id: Uuid): Result<(ArtifactMetadata, seq<byte>), StoreError> {
    if entry.body.None? || entry.metadata.None? then Failure(CorruptArtifact(id, IncompleteRecord))
    else
      var file := entry.metadata.value;
      if file.length > MAX_METADATA_BYTES then Failure(CorruptArtifact(id, MetadataTooLarge))
      else if file.Undecodable? || ParseDigest(file.artifact.sha256).None?
      then Failure(CorruptArtifact(id, MetadataInvalid))
      else if file.formatVersion != METADATA_FORMAT_VERSION
      then Failure(CorruptArtifact(id, MetadataFormat))
      else
        var metadata := file.artifact.With(ParseDigest(file.artifact.sha256).value);
        if metadata.Validate(id).Failure? then Failure(CorruptArtifact(id, MetadataInvariant))
        else if |entry.body.value| != metadata.size then Failure(CorruptArtifact(id, CorruptBodySize))
        else Success((metadata, entry.body.value))
  }

  /** The file of a record that a reader accepts under this name with this body. */
  predicate Acceptable(file: MetadataFile, id: Uuid, body: seq<byte>) {
    && file.Json? && file.length <= 0x1_0000 && file.formatVersion == 1
    && var a := file.artifact;
       && a.id == id && WellFormed(a.owner, a.generation, a.provenance, a.redaction, a.contentType)
       && a.createdAt < a.expiresAt && 1 <= a.size <= SizeLimit(a.purpose) && a.size == |body|
       && IsDigestText(a.sha256)
  }

  /** Metadata read from a file says what the file says. */
  predicate SameMetadata(m: ArtifactMetadata, a: Metadata<string>) {
    && m.id == a.id && m.owner == a.owner && m.purpose == a.purpose && m.generation == a.generation
    && m.provenance == a.provenance && m.contentType == a.contentType && m.redaction == a.redaction
    && m.createdAt == a.createdAt && m.expiresAt == a.expiresAt && m.size == a.size
    && HexText(m.sha256) == a.sha256
  }

  /** A record loads exactly when both its files are there and acceptable, and then as they are. */
  lemma LoadsIff(entry: Entry, id: Uuid)
    ensures Load(entry, id).Success?
       <==> entry.body.Some? && entry.metadata.Some? && Acceptable(entry.metadata.value, id, entry.body.value)
    ensures Load(entry, id).Success? ==>
      && Load(entry, id).value.1 == entry.body.value
      && SameMetadata(Load(entry, id).value.0, entry.metadata.value.artifact)
    ensures Load(entry, id).Failure? ==> Load(entry, id).error.CorruptArtifact? && Load(entry, id).error.id == id
  {
    hide HexText, WellFormed, ValidateCommon;
    if entry.metadata.Some? && entry.metadata.value.Json? {
      var a := entry.metadata.value.artifact;
      ValidateCommonIff(a.owner, a.generation, a.provenance, a.redaction, a.contentType);
      if ParseDigest(a.sha256).Some? {
        ParseThenPrint(a.sha256);
      }
    }
  }

  /** `verify_body_digest` accepts. */
  predicate DigestMatches(hash: seq<byte> -> Digest, metadata: ArtifactMetadata, body: seq<byte>) {
    hash(body) == metadata.sha256
  }

  /** A record that every reader accepts: it loads and its body has the recorded digest. */
  predicate Complete(hash: seq<byte> -> Digest, entry: Entry, id: Uuid) {
    && Load(entry, id).Success?
    && DigestMatches(hash, Load(entry, id).value.0, Load(entry, id).value.1)
  }

  /** The metadata is that of `request`, field by field, as published at `at` with this digest. */
  predicate MetadataOf(m: ArtifactMetadata, id: Uuid, request: ArtifactCreate, at: Millis, digest: Digest) {
    && m.id == id && m.owner == request.owner && m.purpose == request.purpose
    && m.generation == request.generation && m.provenance == request.provenance
    && m.contentType == request.contentType && m.redaction == request.redaction
    && m.size == request.expectedSize && m.sha256 == digest
    && m.createdAt == at && m.expiresAt == request.expiresAt
  }

  /** The metadata `create` attaches to a body streamed for `request`. */
  function Describe(request: ArtifactCreate, id: Uuid, publishedAt: Millis, digest: Digest)
    : ArtifactMetadata
  {
    Metadata(id, request.owner, request.purpose, request.generation, request.provenance,
             request.contentType, publishedAt, request.expiresAt, request.expectedSize, digest,
             request.redaction)
  }

  /** The record `create` stages: the body and `write_metadata`'s file of the given length. */
  function StagedEntry(metadata: ArtifactMetadata, body: seq<byte>, length: nat): Entry {
    Entry(Some(body),
          Some(Json(METADATA_FORMAT_VERSION, metadata.With(HexText(metadata.sha256)), length)))
  }

  /** Everything `create` stages passes every check of the readers and comes back unchanged. */
  lemma StagedLoads(hash: seq<byte> -> Digest, request: ArtifactCreate, limits: Limits, id: Uuid,
                    publishedAt: Millis, body: seq<byte>, length: nat)
    requires request.Validate().Success?
    requires ValidateTimeAndSize(request, limits, publishedAt).Success?
    requires |body| == request.expectedSize && length <= MAX_METADATA_BYTES
    ensures var metadata := Describe(request, id, publishedAt, hash(body));
            && Complete(hash, StagedEntry(metadata, body, length), id)
            && Load(StagedEntry(metadata, body, length), id) == Success((metadata, body))
            && MetadataOf(metadata, id, request, publishedAt, hash(body))
  {
    PrintThenParse(hash(body));
  }
}
