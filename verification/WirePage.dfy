/**
  The Local API boundary of the timeline: the read policy, the wire form of an entry, and the page
  that is cut again to the response budget with a cursor of its own.
 */
module WirePage {
  import opened Wrappers
  import opened Evidence
  import opened RawTimeline
  import opened Retrieval

  const MAX_LOCAL_PAGE_ENTRIES := 20
  const MAX_WIRE_CONTENT_REFS := 32
  const MAX_WIRE_PAYLOAD_BYTES := 32 * 1024
  const MAX_WIRE_PAGE_BYTES := 768 * 1024
  const MAX_U32 := 0xFFFF_FFFF

  datatype WireEntry = WireEntry(
    header: Header, schemaVersion: nat, contentRefs: seq<ContentRef>, contentRefsOmitted: nat,
    payload: Option<EntryPayload>, payloadOmittedReason: Option<string>)

  datatype LocalPage = LocalPage(entries: seq<WireEntry>, nextCursor: Option<Cursor>)

  datatype ReadError = NotAuthorized | InvalidQuery | QueryFailed

  datatype Policy = Policy(token: string, allowedScopes: set<string>, grant: RetrievalGrant, allowTextContent: bool)

  /** Serialized lengths, which the model leaves open. */
  datatype Sizes = Sizes(payload: EntryPayload -> nat, entry: WireEntry -> nat)

  function WirePosition(e: WireEntry): Cursor {
    Cursor(e.header.observedAt, e.header.eventId)
  }

  /** `map_wire_entry`. */
  function MapWireEntry(entry: TimelineEntry, grant: RetrievalGrant, sizes: Sizes): (w: WireEntry)
    ensures w.header == entry.header && w.schemaVersion == entry.schemaVersion
    ensures |entry.contentRefs| <= 32 ==> w.contentRefs == entry.contentRefs
    ensures |entry.contentRefs| > 32 ==>
        |w.contentRefs| == 32 && w.payloadOmittedReason == Some("content_ref_wire_limit")
    ensures |entry.contentRefs| <= 0xFFFF_FFFF ==> w.contentRefsOmitted == |entry.contentRefs| - |w.contentRefs|
    ensures w.payload.Some? <==>
        entry.payload.Some? && |entry.contentRefs| <= 32 && sizes.payload(entry.payload.value) <= 32 * 1024
    ensures |entry.contentRefs| <= 32 && entry.payload.None? ==>
        w.payloadOmittedReason == Some(if grant.includePayload then "policy" else "profile")
    ensures w.contentRefs <= entry.contentRefs && |w.contentRefs| <= MAX_WIRE_CONTENT_REFS
    ensures w.contentRefsOmitted == 0 <==> w.contentRefs == entry.contentRefs
    ensures w.payload.Some? <==> w.payloadOmittedReason.None?
    ensures w.payload.Some? ==>
        && w.payload == entry.payload && w.contentRefsOmitted == 0
        && sizes.payload(w.payload.value) <= MAX_WIRE_PAYLOAD_BYTES
  {
    var total := |entry.contentRefs|;
    var kept := if total > MAX_WIRE_CONTENT_REFS then entry.contentRefs[..MAX_WIRE_CONTENT_REFS] else entry.contentRefs;
    var omitted := total - |kept|;
    var absent := if grant.includePayload then "policy" else "profile";
    var (payload, reason) :=
      if omitted > 0 then (None, Some("content_ref_wire_limit"))
      else if entry.payload.None? then (None, Some(absent))
      else if sizes.payload(entry.payload.value) > MAX_WIRE_PAYLOAD_BYTES then (None, Some("payload_wire_limit"))
      else (entry.payload, None);
    WireEntry(entry.header, entry.schemaVersion, kept, if omitted > MAX_U32 then MAX_U32 else omitted, payload, reason)
  }

  function WireEntries(entries: seq<TimelineEntry>, grant: RetrievalGrant, sizes: Sizes): (w: seq<WireEntry>)
    ensures |w| == |entries|
    ensures forall i :: 0 <= i < |w| ==> w[i] == MapWireEntry(entries[i], grant, sizes)
  {
    if |entries| == 0 then []
    else [MapWireEntry(entries[0], grant, sizes)] + WireEntries(entries[1..], grant, sizes)
  }

  function EntriesBytes(w: seq<WireEntry>, sizes: Sizes): nat {
    if |w| == 0 then 0 else EntriesBytes(w[..|w| - 1], sizes) + sizes.entry(w[|w| - 1])
  }

  /** `{"entries":[e,...,e],"next_cursor":null}`. */
  function PageBytes(w: seq<WireEntry>, sizes: Sizes): nat {
    33 + EntriesBytes(w, sizes) + if |w| == 0 then 0 else |w| - 1
  }

  predicate FitsAlone(e: WireEntry, sizes: Sizes) {
    PageBytes([e], sizes) <= MAX_WIRE_PAGE_BYTES
  }

  /** The longest prefix of at least `from` entries that stays within the budget. */
  function FitCount(w: seq<WireEntry>, sizes: Sizes, from: nat): (k: nat)
    requires from <= |w|
    ensures from <= k <= |w|
    decreases |w| - from
  {
    if from < |w| && PageBytes(w[..from + 1], sizes) <= MAX_WIRE_PAGE_BYTES then FitCount(w, sizes, from + 1) else from
  }

  /** The wire page: everything with the core's cursor, or a non-empty prefix with the cursor of its last entry. */
  function WirePageOf(w: seq<WireEntry>, coreNextCursor: Option<Cursor>, sizes: Sizes): Result<LocalPage, ReadError> {
    var k := FitCount(w, sizes, 0);
    if k == |w| then Ok(LocalPage(w, coreNextCursor))
    else if k == 0 then Err(QueryFailed)
    else Ok(LocalPage(w[..k], Some(WirePosition(w[k - 1]))))
  }

  lemma {:induction false} FitCountFrom(w: seq<WireEntry>, sizes: Sizes, from: nat, k: nat)
    requires from <= k <= |w|
    requires forall i :: from < i <= k ==> PageBytes(w[..i], sizes) <= MAX_WIRE_PAGE_BYTES
    requires k < |w| ==> PageBytes(w[..k + 1], sizes) > MAX_WIRE_PAGE_BYTES
    ensures FitCount(w, sizes, from) == k
    decreases k - from
  {
    if from < k { FitCountFrom(w, sizes, from + 1, k); }
  }

  /** `map_wire_page`. */
  method MapWirePage(entries: seq<TimelineEntry>, coreNextCursor: Option<Cursor>, grant: RetrievalGrant, sizes: Sizes)
    returns (r: Result<LocalPage, ReadError>)
    ensures r == WirePageOf(WireEntries(entries, grant, sizes), coreNextCursor, sizes)
  {
    hide MapWireEntry, WireEntries, PageBytes, FitCount;
    ghost var all := WireEntries(entries, grant, sizes);
    var wireEntries: seq<WireEntry> := [];
    var wireTruncated := false;
    var index := 0;
    while index < |entries|
      invariant index <= |entries| && wireEntries == all[..index] && !wireTruncated
      invariant forall i :: 0 < i <= index ==> PageBytes(all[..i], sizes) <= MAX_WIRE_PAGE_BYTES
    {
      wireEntries := wireEntries + [MapWireEntry(entries[index], grant, sizes)];
      assert wireEntries == all[..index + 1];
      if PageBytes(wireEntries, sizes) > MAX_WIRE_PAGE_BYTES {
        FitCountFrom(all, sizes, 0, index);
        wireEntries := wireEntries[..|wireEntries| - 1];
        assert wireEntries == all[..index];
        if |wireEntries| == 0 { return Err(QueryFailed); }
        wireTruncated := true;
        break;
      }
      index := index + 1;
    }
    if wireTruncated {
      return Ok(LocalPage(wireEntries, Some(WirePosition(wireEntries[|wireEntries| - 1]))));
    }
    FitCountFrom(all, sizes, 0, |all|);
    assert wireEntries == all;
    return Ok(LocalPage(wireEntries, coreNextCursor));
  }

  // ---------------------------------------------------------------- query_timeline_with_policy

  function Authorize(policy: Policy, token: string, scope: string): Option<RetrievalGrant> {
    if scope in policy.allowedScopes && token == policy.token then Some(policy.grant) else None
  }

  ghost function WireTimeline(rows: seq<Row>, policy: Policy, token: string, q: TimelineQuery, sizes: Sizes)
    : Result<LocalPage, ReadError>
  {
    if !(1 <= q.limit <= MAX_LOCAL_PAGE_ENTRIES) then Err(InvalidQuery)
    else if Authorize(policy, token, q.raw.scope).None? then Err(NotAuthorized)
    else
      match Timeline(rows, q, policy.grant)
      case Err(_) => Err(QueryFailed)
      case Ok(page) => WirePageOf(WireEntries(page.entries, policy.grant, sizes), page.nextCursor, sizes)
  }

  /** `query_timeline_with_policy`. */
  method QueryTimelineWithPolicy(rows: seq<Row>, policy: Policy, token: string, q: TimelineQuery, sizes: Sizes)
    returns (r: Result<LocalPage, ReadError>)
    requires Table(rows)
    ensures r == WireTimeline(rows, policy, token, q, sizes)
    ensures r.Ok? ==> token == policy.token && q.raw.scope in policy.allowedScopes && 1 <= q.limit <= 20
    ensures 1 <= q.limit <= 20 && !(token == policy.token && q.raw.scope in policy.allowedScopes) ==>
              r == Err(NotAuthorized)
  {
    hide Timeline, WirePageOf, Table;
    if !(1 <= q.limit <= MAX_LOCAL_PAGE_ENTRIES) { return Err(InvalidQuery); }
    var grant := Authorize(policy, token, q.raw.scope);
    if grant.None? { return Err(NotAuthorized); }
    var page := QueryTimeline(rows, q, grant.value);
    if page.Err? { return Err(QueryFailed); }
    r := MapWirePage(page.value.entries, page.value.nextCursor, grant.value, sizes);
  }
}
