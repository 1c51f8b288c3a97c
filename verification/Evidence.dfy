/** The stored envelopes of raw events, as far as reading them back is concerned. */
module Evidence {
  import opened Wrappers
  import opened SortKey

  type Id = nat

  datatype SensitivityClass = Metadata | ContentDerived | SensitiveEvent
  datatype RetrievalClass = Normal | SensitiveContent | Secret

  datatype ContentRef = ContentRef(
    sha256: string, mediaType: string, byteLength: nat, compression: Option<string>,
    storageClass: string, retrievalClass: RetrievalClass)

  /** The fields both envelope versions share; `other` stands for the ones that are only copied through. */
  datatype Header = Header(eventId: Id, observedAt: Instant, scope: string, sensitivity: SensitivityClass,
                           other: string)

  datatype PayloadV1 =
    | ContentObserved(kind: string, refs: seq<ContentRef>)
    | OtherPayload(json: string)

  /** What the stored JSON text decodes to. */
  datatype Envelope =
    | EnvelopeV1(header: Header, payload: PayloadV1)
    | EnvelopeV2(header: Header, contentRefs: seq<ContentRef>, json: string)
    | Undecodable

  function SensitivityRank(s: SensitivityClass): nat {
    match s case Metadata => 0 case ContentDerived => 1 case SensitiveEvent => 2
  }

  function RetrievalRank(c: RetrievalClass): nat {
    match c case Normal => 0 case SensitiveContent => 1 case Secret => 2
  }

  /** What trusted composition code allows a reader to see. */
  datatype RetrievalGrant = RetrievalGrant(
    maxEventSensitivity: SensitivityClass, maxContentRetrieval: RetrievalClass, includePayload: bool)

  // ---------------------------------------------------------------- what the classes mean

  /** Metadata is for everyone, derived content for all but metadata readers, sensitive events for sensitive readers. */
  predicate MaySee(maximum: SensitivityClass, s: SensitivityClass) {
    match s
    case Metadata => true
    case ContentDerived => maximum.ContentDerived? || maximum.SensitiveEvent?
    case SensitiveEvent => maximum.SensitiveEvent?
  }

  /** Normal references are for everyone, sensitive ones for sensitive and secret readers, secret ones for the latter.
      */
  predicate MayShow(maximum: RetrievalClass, c: RetrievalClass) {
    match c
    case Normal => true
    case SensitiveContent => maximum.SensitiveContent? || maximum.Secret?
    case Secret => maximum.Secret?
  }

  /** The ranks order the classes as their meaning does. */
  lemma RanksAreMeaning()
    ensures forall maximum, s :: SensitivityRank(s) <= SensitivityRank(maximum) <==> MaySee(maximum, s)
    ensures forall maximum, c :: RetrievalRank(c) <= RetrievalRank(maximum) <==> MayShow(maximum, c)
  {
  }
}
