/** Event envelopes and the ids in them, as the storage layer and the projections read them. */
module Contracts {
  import opened Wrappers
  import opened Octets

  /** UUIDs. */
  type Id = nat

  /** A timestamp column: the stored RFC 3339 text, whose text order is not chronological, and its instant. */
  datatype Time = Time(text: string, nanos: int)

  datatype FileIdentity = FileIdentity(provider: string, nameSpace: string, opaqueId: seq<byte>)

  datatype FileChange = Created | Modified | Renamed | Moved | Deleted

  datatype EventPayload =
    | TaskStarted(taskId: Id, name: string)
    | FileObserved(identity: FileIdentity, path: string, change: FileChange)
    | BrowserDownloadObserved(downloadId: Id, url: string, referrer: Option<string>, finalPath: string)
    | ContentObserved(contentKind: string)
    | DownloadMatched(downloadId: Id, identity: FileIdentity, url: string, sourceEventIds: seq<Id>)
    | CollectorGap(collector: string, lastSequence: Option<nat>, reason: string)

  const CURRENT_SCHEMA_VERSION := 1
  const CURRENT_ENVELOPE_VERSION := 2

  datatype EventEnvelope = EventEnvelope(
    eventId: Id, schemaVersion: nat, source: string, sourceSequence: Option<nat>, observedAt: Time,
    scopeId: string, correlationId: Option<Id>, payload: EventPayload)

  /** The JSON payloads of the collectors modelled here, by their fields. */
  datatype PayloadV2 =
    | ActivePage(tabId: nat, windowId: nat, url: string, title: string, pinned: bool, windowFocused: bool,
                 trigger: string)
    | ScreenFrame(frameId: nat, appName: Option<string>, windowName: Option<string>, focused: Option<bool>,
                  textSource: string)
    | OtherJson(text: string)

  datatype EventEnvelopeV2 = EventEnvelopeV2(
    eventId: Id, envelopeVersion: nat, eventType: string, payloadVersion: nat, source: string,
    sourceSequence: Option<nat>, occurredAt: Option<Time>, observedAt: Time, scopeId: string, payload: PayloadV2)

  /** A row of the raw event table. */
  datatype RawRow = V1(event: EventEnvelope) | V2(event2: EventEnvelopeV2)
  {
    function EventId(): Id { match this case V1(e) => e.eventId case V2(e) => e.eventId }
    function Source(): string { match this case V1(e) => e.source case V2(e) => e.source }
    function Scope(): string { match this case V1(e) => e.scopeId case V2(e) => e.scopeId }
    function Sequence(): Option<nat> { match this case V1(e) => e.sourceSequence case V2(e) => e.sourceSequence }
  }
}
