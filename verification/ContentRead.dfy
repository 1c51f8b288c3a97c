/**
  Reading one content object through the event that refers to it: authorization by the event's scope,
  sensitivity and reference, and then a verified read from the vault.
 */
module ContentRead {
  import opened Wrappers
  import opened Evidence
  import Retrieval
  import WirePage
  import Vault

  const MAX_TEXT_CONTENT_BYTES := 96 * 1024
  const MAX_MEDIA_TYPE_BYTES := 128

  /** A stored row: its own columns, of which the sensitivity may be unreadable, and its envelope. */
  datatype Lookup = Lookup(version: nat, scope: string, sensitivity: Option<SensitivityClass>, envelope: Envelope)

  type Repository = map<Id, Lookup>

  datatype AuthorizedContentRef = AuthorizedContentRef(eventId: Id, scope: string, sensitivity: SensitivityClass,
                                                       reference: ContentRef)

  datatype AccessError = UnsupportedVersion | MalformedIndexedSensitivity | MalformedRawEvent | EnvelopeMetadataMismatch

  // ---------------------------------------------------------------- authorize_reference

  function EnvelopeOf(raw: Lookup): Result<Envelope, AccessError> {
    if raw.version !in {1, 2} then Err(UnsupportedVersion)
    else if (raw.version == 1 && raw.envelope.EnvelopeV1?) || (raw.version == 2 && raw.envelope.EnvelopeV2?)
    then Ok(raw.envelope)
    else Err(MalformedRawEvent)
  }

  /** The first reference with the digest. */
  function Find(refs: seq<ContentRef>, sha256: string): Option<ContentRef> {
    if |refs| == 0 then None else if refs[0].sha256 == sha256 then Some(refs[0]) else Find(refs[1..], sha256)
  }

  function AuthorizeReference(repo: Repository, id: Id, sha256: string, grant: RetrievalGrant, scopes: set<string>)
    : Result<Option<AuthorizedContentRef>, AccessError>
  {
    if id !in repo || repo[id].scope !in scopes then Ok(None)
    else
      var raw := repo[id];
      if raw.sensitivity.None? then Err(MalformedIndexedSensitivity)
      else if SensitivityRank(raw.sensitivity.value) > SensitivityRank(grant.maxEventSensitivity) then Ok(None)
      else
        match EnvelopeOf(raw)
        case Err(e) => Err(e)
        case Ok(envelope) =>
          if envelope.header.eventId != id || envelope.header.scope != raw.scope
             || envelope.header.sensitivity != raw.sensitivity.value
          then Err(EnvelopeMetadataMismatch)
          else
            match Find(Retrieval.RefsOf(envelope), sha256)
            case None => Ok(None)
            case Some(reference) =>
              if RetrievalRank(reference.retrievalClass) > RetrievalRank(grant.maxContentRetrieval) then Ok(None)
              else Ok(Some(AuthorizedContentRef(id, raw.scope, raw.sensitivity.value, reference)))
  }

  // ---------------------------------------------------------------- read_text_content_with_policy

  datatype ReadError = NotAuthorized | UnsupportedContent | TooLarge | Unavailable

  datatype LocalTextContent = LocalTextContent(eventId: Id, sha256: string, mediaType: string, byteLength: nat,
                                               text: string)

  /** What the model leaves open: the digest, UTF-8 decoding and lengths, and which media types are plain text. */
  datatype Host = Host(hash: Vault.Bytes -> string, fromUtf8: Vault.Bytes -> Option<string>, utf8Length: string -> nat,
                       plainText: string -> bool)

  /** The object under a digest, as the vault's two looks at it find it. */
  datatype Objects = Objects(looked: map<Vault.Path, Vault.Entry>, read: map<Vault.Path, Vault.Entry>)

  function ReadObject(host: Host, objects: Objects, sha256: string): Result<Vault.Bytes, Vault.VaultError> {
    Vault.ReadVerified(host.hash, Vault.Lookup(objects.looked, sha256), Vault.Lookup(objects.read, sha256), sha256,
                       MAX_TEXT_CONTENT_BYTES)
  }

  predicate Supported(host: Host, reference: ContentRef) {
    && reference.storageClass == "local_vault" && reference.compression.None?
    && host.utf8Length(reference.mediaType) <= MAX_MEDIA_TYPE_BYTES && host.plainText(reference.mediaType)
  }

  function ReadTextContent(repo: Repository, host: Host, objects: Objects, policy: WirePage.Policy, token: string,
                           id: Id, sha256: string)
    : Result<LocalTextContent, ReadError>
  {
    if token != policy.token || !policy.allowTextContent || !Vault.IsDigest(sha256) then Err(NotAuthorized)
    else
      match AuthorizeReference(repo, id, sha256, policy.grant, policy.allowedScopes)
      case Err(_) => Err(Unavailable)
      case Ok(None) => Err(NotAuthorized)
      case Ok(Some(authorized)) =>
        var reference := authorized.reference;
        if reference.retrievalClass.Secret? then Err(NotAuthorized)
        else if !Supported(host, reference) then Err(UnsupportedContent)
        else if reference.byteLength > MAX_TEXT_CONTENT_BYTES then Err(TooLarge)
        else
          match ReadObject(host, objects, reference.sha256)
          case Err(e) => Err(if e.TooLarge? then TooLarge else Unavailable)
          case Ok(bytes) =>
            if |bytes| != reference.byteLength || host.fromUtf8(bytes).None? then Err(Unavailable)
            else Ok(LocalTextContent(id, reference.sha256, reference.mediaType, reference.byteLength,
                                     host.fromUtf8(bytes).value))
  }

  // ---------------------------------------------------------------- what a successful read means

  lemma {:induction false} FindFirst(refs: seq<ContentRef>, sha256: string)
    ensures Find(refs, sha256).None? <==> forall r <- refs :: r.sha256 != sha256
    ensures Find(refs, sha256).Some? ==> Find(refs, sha256).value in refs && Find(refs, sha256).value.sha256 == sha256
    ensures forall i ::
              (0 <= i < |refs| && refs[i].sha256 == sha256 && (forall j :: 0 <= j < i ==> refs[j].sha256 != sha256)) ==>
                Find(refs, sha256) == Some(refs[i])
  {
    if |refs| > 0 {
      FindFirst(refs[1..], sha256);
      assert forall i :: 1 <= i < |refs| ==> refs[1..][i - 1] == refs[i];
    }
  }

  /** The event may be shown to the reader, and its columns agree with its envelope. */
  ghost predicate Readable(repo: Repository, id: Id, grant: RetrievalGrant, scopes: set<string>) {
    && id in repo && repo[id].scope in scopes
    && repo[id].sensitivity.Some?
    && MaySee(grant.maxEventSensitivity, repo[id].sensitivity.value)
    && EnvelopeOf(repo[id]).Ok?
    && var header := EnvelopeOf(repo[id]).value.header;
       header.eventId == id && header.scope == repo[id].scope && header.sensitivity == repo[id].sensitivity.value
  }

  /** The event's first reference to the digest is within the grant, and the event is readable. */
  ghost predicate Releases(repo: Repository, id: Id, sha256: string, grant: RetrievalGrant, scopes: set<string>,
                           reference: ContentRef) {
    && Readable(repo, id, grant, scopes)
    && Find(Retrieval.RefsOf(EnvelopeOf(repo[id]).value), sha256) == Some(reference)
    && MayShow(grant.maxContentRetrieval, reference.retrievalClass)
  }

  lemma ReferenceIsReleased(repo: Repository, id: Id, sha256: string, grant: RetrievalGrant, scopes: set<string>,
                            a: AuthorizedContentRef)
    ensures AuthorizeReference(repo, id, sha256, grant, scopes) == Ok(Some(a)) <==>
            (Releases(repo, id, sha256, grant, scopes, a.reference)
             && a.eventId == id && a.scope == repo[id].scope && a.sensitivity == repo[id].sensitivity.value)
  {
    RanksAreMeaning();
  }

  /** A released reference belongs to an event of an allowed scope that the grant lets be seen, and its own class is one
      the grant lets be shown. */
  lemma ReleasedRespectsGrant(repo: Repository, id: Id, sha256: string, grant: RetrievalGrant, scopes: set<string>)
    ensures var r := AuthorizeReference(repo, id, sha256, grant, scopes);
      r.Ok? && r.value.Some? ==>
        var a := r.value.value;
        && id in repo && repo[id].scope in scopes && a.scope == repo[id].scope && a.eventId == id
        && repo[id].sensitivity == Some(a.sensitivity) && a.reference.sha256 == sha256
        && (a.sensitivity.SensitiveEvent? ==> grant.maxEventSensitivity.SensitiveEvent?)
        && (a.sensitivity.ContentDerived? ==> !grant.maxEventSensitivity.Metadata?)
        && (a.reference.retrievalClass.Secret? ==> grant.maxContentRetrieval.Secret?)
        && (a.reference.retrievalClass.SensitiveContent? ==> !grant.maxContentRetrieval.Normal?)
  {
    var r := AuthorizeReference(repo, id, sha256, grant, scopes);
    if r.Ok? && r.value.Some? {
      ReferenceIsReleased(repo, id, sha256, grant, scopes, r.value.value);
      ReleasedDigest(repo, id, sha256, grant, scopes, r.value.value.reference);
    }
  }

  /** A wider grant and more scopes release whatever fewer released. */
  lemma WiderGrantReleasesMore(repo: Repository, id: Id, sha256: string, wide: RetrievalGrant, narrow: RetrievalGrant,
                               more: set<string>, fewer: set<string>, a: AuthorizedContentRef)
    requires Retrieval.Wider(wide, narrow) && fewer <= more
    requires AuthorizeReference(repo, id, sha256, narrow, fewer) == Ok(Some(a))
    ensures AuthorizeReference(repo, id, sha256, wide, more) == Ok(Some(a))
  {
    hide AuthorizeReference, Find;
    ReferenceIsReleased(repo, id, sha256, narrow, fewer, a);
    ReferenceIsReleased(repo, id, sha256, wide, more, a);
  }

  lemma ReleasedDigest(repo: Repository, id: Id, sha256: string, grant: RetrievalGrant, scopes: set<string>,
                       reference: ContentRef)
    requires Releases(repo, id, sha256, grant, scopes, reference)
    ensures id in repo && repo[id].sensitivity.Some? && reference.sha256 == sha256
    ensures repo[id].scope in scopes && !repo[id].envelope.Undecodable?
    ensures reference in Retrieval.RefsOf(repo[id].envelope)
  {
    hide Find;
    FindFirst(Retrieval.RefsOf(repo[id].envelope), sha256);
  }

  /** The bytes behind a text: what the vault holds under the reference's digest, decoded. */
  ghost predicate Backed(host: Host, objects: Objects, reference: ContentRef, bytes: Vault.Bytes, text: string) {
    && ReadObject(host, objects, reference.sha256) == Ok(bytes)
    && |bytes| == reference.byteLength && host.fromUtf8(bytes) == Some(text)
  }

  ghost predicate Requested(policy: WirePage.Policy, token: string, sha256: string) {
    token == policy.token && policy.allowTextContent && Vault.IsDigest(sha256)
  }

  /** A read succeeds exactly when the caller may read text, the event releases a reference to the digest that is
      not secret, the reference is to supported text of at most 96 KiB, and the vault holds its bytes. */
  ghost predicate Delivers(repo: Repository, host: Host, objects: Objects, policy: WirePage.Policy, token: string,
                           id: Id, sha256: string,
                           reference: ContentRef, bytes: Vault.Bytes, content: LocalTextContent)
  {
    && Requested(policy, token, sha256)
    && Releases(repo, id, sha256, policy.grant, policy.allowedScopes, reference)
    && !reference.retrievalClass.Secret? && Supported(host, reference) && reference.byteLength <= MAX_TEXT_CONTENT_BYTES
    && Backed(host, objects, reference, bytes, content.text)
    && content == LocalTextContent(id, sha256, reference.mediaType, reference.byteLength, content.text)
  }

  lemma DeliveredTextIsRead(repo: Repository, host: Host, objects: Objects, policy: WirePage.Policy, token: string,
                            id: Id, sha256: string,
                            reference: ContentRef, bytes: Vault.Bytes, content: LocalTextContent)
    requires Delivers(repo, host, objects, policy, token, id, sha256, reference, bytes, content)
    ensures ReadTextContent(repo, host, objects, policy, token, id, sha256) == Ok(content)
  {
    hide ReadObject, Supported, AuthorizeReference, Vault.IsDigest, Releases;
    ReleasedDigest(repo, id, sha256, policy.grant, policy.allowedScopes, reference);
    ReferenceIsReleased(repo, id, sha256, policy.grant, policy.allowedScopes,
                        AuthorizedContentRef(id, repo[id].scope, repo[id].sensitivity.value, reference));
  }

  /** What is returned was released by the event, has the digest asked for and fits the limit, whatever
      happened to the vault's files. */
  lemma ReturnedTextIsVerified(repo: Repository, host: Host, objects: Objects, policy: WirePage.Policy, token: string,
                               id: Id, sha256: string)
    returns (reference: ContentRef, bytes: Vault.Bytes)
    requires ReadTextContent(repo, host, objects, policy, token, id, sha256).Ok?
    ensures var content := ReadTextContent(repo, host, objects, policy, token, id, sha256).value;
      && Delivers(repo, host, objects, policy, token, id, sha256, reference, bytes, content)
      && host.hash(bytes) == sha256 && |bytes| == content.byteLength <= 98_304
      && content.eventId == id && content.sha256 == sha256 && content.mediaType == reference.mediaType
      && host.fromUtf8(bytes) == Some(content.text)
    ensures token == policy.token && policy.allowTextContent && |sha256| == 64
    ensures reference.sha256 == sha256 && !reference.retrievalClass.Secret? && reference.byteLength == |bytes|
    ensures reference.storageClass == "local_vault" && reference.compression.None?
    ensures host.utf8Length(reference.mediaType) <= 128 && host.plainText(reference.mediaType)
    ensures id in repo && repo[id].scope in policy.allowedScopes && !repo[id].envelope.Undecodable?
    ensures reference in Retrieval.RefsOf(repo[id].envelope)
  {
    hide AuthorizeReference, Releases, Vault.Lookup, Vault.ReadVerified;
    var authorized := AuthorizeReference(repo, id, sha256, policy.grant, policy.allowedScopes).value.value;
    reference := authorized.reference;
    ReferenceIsReleased(repo, id, sha256, policy.grant, policy.allowedScopes, authorized);
    ReleasedDigest(repo, id, sha256, policy.grant, policy.allowedScopes, reference);
    bytes := ReadObject(host, objects, reference.sha256).value;
    Vault.ReadIsVerified(host.hash, Vault.Lookup(objects.looked, sha256), Vault.Lookup(objects.read, sha256), sha256,
                         MAX_TEXT_CONTENT_BYTES);
  }

  /** Both directions together. */
  lemma TextIsReadExactly(repo: Repository, host: Host, objects: Objects, policy: WirePage.Policy, token: string,
                          id: Id, sha256: string,
                          content: LocalTextContent)
    ensures ReadTextContent(repo, host, objects, policy, token, id, sha256) == Ok(content) <==>
            (exists reference, bytes ::
               Delivers(repo, host, objects, policy, token, id, sha256, reference, bytes, content))
  {
    hide ReadTextContent, Delivers;
    if ReadTextContent(repo, host, objects, policy, token, id, sha256) == Ok(content) {
      var reference, bytes := ReturnedTextIsVerified(repo, host, objects, policy, token, id, sha256);
    }
    if reference, bytes :| Delivers(repo, host, objects, policy, token, id, sha256, reference, bytes, content) {
      DeliveredTextIsRead(repo, host, objects, policy, token, id, sha256, reference, bytes, content);
    }
  }

  // ---------------------------------------------------------------- what a reader cannot tell

  /** A row the reader may know of: in an allowed scope, and not known to be above the grant. */
  predicate Concerns(raw: Lookup, policy: WirePage.Policy) {
    && raw.scope in policy.allowedScopes
    && (raw.sensitivity.Some? ==> MaySee(policy.grant.maxEventSensitivity, raw.sensitivity.value))
  }

  ghost predicate SameView(s: Repository, t: Repository, policy: WirePage.Policy) {
    && (forall id <- s :: Concerns(s[id], policy) ==> id in t && t[id] == s[id])
    && (forall id <- t :: Concerns(t[id], policy) ==> id in s && s[id] == t[id])
  }

  /** Two stores that differ only in rows outside the allowed scopes or above the grant answer every text
      read alike, errors included. */
  lemma HiddenRowsDoNotMatter(s: Repository, t: Repository, host: Host, objects: Objects, policy: WirePage.Policy,
                              token: string,
                              id: Id, sha256: string)
    requires SameView(s, t, policy)
    ensures ReadTextContent(s, host, objects, policy, token, id, sha256) ==
              ReadTextContent(t, host, objects, policy, token, id, sha256)
  {
    RanksAreMeaning();
    hide ReadObject, Supported, EnvelopeOf, Find;
  }

  // ---------------------------------------------------------------- refusals

  /** A row of an allowed scope that cannot be checked: its sensitivity is unreadable, or it is within the
      grant but its envelope cannot be read or contradicts the row's columns. */
  ghost predicate Damaged(repo: Repository, id: Id, policy: WirePage.Policy) {
    && id in repo && Concerns(repo[id], policy)
    && !Readable(repo, id, policy.grant, policy.allowedScopes)
  }

  /** Every request that releases nothing gets the one not-authorized answer, except for a damaged row of an
      allowed scope, which is reported as unavailable although nothing was authorized. */
  lemma RefusalsLookAlike(repo: Repository, host: Host, objects: Objects, policy: WirePage.Policy, token: string,
                          id: Id, sha256: string)
    requires Requested(policy, token, sha256)
    requires forall reference :: !Releases(repo, id, sha256, policy.grant, policy.allowedScopes, reference)
    ensures ReadTextContent(repo, host, objects, policy, token, id, sha256) ==
            Err(if Damaged(repo, id, policy) then Unavailable else NotAuthorized)
  {
    RanksAreMeaning();
    hide ReadObject, Supported, Find, Releases;
    var r := AuthorizeReference(repo, id, sha256, policy.grant, policy.allowedScopes);
    if r.Ok? && r.value.Some? {
      ReferenceIsReleased(repo, id, sha256, policy.grant, policy.allowedScopes, r.value.value);
    }
  }

  /** How a released reference that is not delivered is refused: a secret as if nothing were there, then other content
      than plain text in the vault, then content over the limit, then
          content that is not there as the reference says. */
  lemma ReleasedRefusals(repo: Repository, host: Host, objects: Objects, policy: WirePage.Policy, token: string,
                         id: Id, sha256: string, reference: ContentRef)
    requires Requested(policy, token, sha256)
    requires Releases(repo, id, sha256, policy.grant, policy.allowedScopes, reference)
    ensures var r := ReadTextContent(repo, host, objects, policy, token, id, sha256);
      && (r == Err(ReadError.NotAuthorized) <==> reference.retrievalClass.Secret?)
      && (r == Err(UnsupportedContent) <==>
            && !reference.retrievalClass.Secret?
            && !(reference.storageClass == "local_vault" && reference.compression.None?
                 && host.utf8Length(reference.mediaType) <= 128 && host.plainText(reference.mediaType)))
      && (r == Err(TooLarge) ==>
            (reference.byteLength > 98_304 || ReadObject(host, objects, sha256) == Err(Vault.TooLarge(98_304))))
  {
    hide AuthorizeReference, Releases, Vault.Lookup, Vault.ReadVerified;
    ReleasedDigest(repo, id, sha256, policy.grant, policy.allowedScopes, reference);
    ReferenceIsReleased(repo, id, sha256, policy.grant, policy.allowedScopes,
                        AuthorizedContentRef(id, repo[id].scope, repo[id].sensitivity.value, reference));
    TooLargeLimit(host, objects, sha256);
  }

  lemma TooLargeLimit(host: Host, objects: Objects, sha256: string)
    ensures var r := ReadObject(host, objects, sha256); r.Err? && r.error.TooLarge? ==> r.error.limit == 98_304
  {
    hide Vault.Lookup;
  }

  /** Nothing refers to the digest, yet the answer is not the not-authorized one. */
  lemma DamagedRowIsTold(host: Host, objects: Objects, policy: WirePage.Policy, sha256: string)
    requires Vault.IsDigest(sha256) && policy.allowTextContent && "scope.personal" in policy.allowedScopes
    ensures var repo := map[1 := Lookup(2, "scope.personal", None, Undecodable)];
      ReadTextContent(repo, host, objects, policy, policy.token, 1, sha256) == Err(Unavailable)
  {
    RanksAreMeaning();
    hide Vault.IsDigest;
  }

  // ---------------------------------------------------------------- from put to read

  /** Text that a put completed is returned for an event that releases a reference to it, however many puts,
      failures and crashes came in between. */
  lemma CompletedTextIsReturned(repo: Repository, host: Host, steps: seq<Vault.Step>, more: seq<Vault.Step>,
                                policy: WirePage.Policy, token: string, id: Id,
                                bytes: Vault.Bytes, reference: ContentRef, text: string)
    requires bytes in Vault.RunSteps(host.hash, Vault.START, steps).completed
    requires Vault.NoCollision(host.hash, Vault.RunSteps(host.hash, Vault.START, steps + more).given)
    requires Requested(policy, token, host.hash(bytes))
    requires Releases(repo, id, host.hash(bytes), policy.grant, policy.allowedScopes, reference)
    requires !reference.retrievalClass.Secret? && Supported(host, reference)
    requires reference.byteLength == |bytes| <= MAX_TEXT_CONTENT_BYTES && host.fromUtf8(bytes) == Some(text)
    ensures var files := Vault.RunSteps(host.hash, Vault.START, steps + more).files;
      ReadTextContent(repo, host, Objects(files, files), policy, token, id, host.hash(bytes)) ==
      Ok(LocalTextContent(id, host.hash(bytes), reference.mediaType, |bytes|, text))
  {
    hide Releases, Supported, ReadTextContent, Vault.RunSteps, Vault.ReadVerified, Vault.Lookup, Vault.IsDigest;
    var files := Vault.RunSteps(host.hash, Vault.START, steps + more).files;
    Vault.CompletedReadsBack(host.hash, steps, more, bytes, MAX_TEXT_CONTENT_BYTES);
    ReleasedDigest(repo, id, host.hash(bytes), policy.grant, policy.allowedScopes, reference);
    var content := LocalTextContent(id, host.hash(bytes), reference.mediaType, |bytes|, text);
    assert Delivers(repo, host, Objects(files, files), policy, token, id, host.hash(bytes), reference, bytes, content);
    TextIsReadExactly(repo, host, Objects(files, files), policy, token, id, host.hash(bytes), content);
  }
}
