/**
  The policy-gated timeline query of the core: decoding and filtering of rows, and the batched scan
  with its page limit and scan budget, proved against a row-at-a-time walk of the log.
 */
module Retrieval {
  import opened Wrappers
  import opened Text
  import opened Evidence
  import opened RawTimeline

  const MAX_TIMELINE_PAGE_SIZE := 200
  const RAW_BATCH_SIZE := 200
  const MAX_RAW_SCAN_PER_QUERY := 5_000

  datatype TimelineQuery = TimelineQuery(raw: RawQuery, limit: nat)

  datatype EntryPayload = V1Payload(payload: PayloadV1) | V2Payload(json: string)

  datatype TimelineEntry = TimelineEntry(
    header: Header, schemaVersion: nat, contentRefs: seq<ContentRef>, payload: Option<EntryPayload>)

  datatype TimelinePage = TimelinePage(entries: seq<TimelineEntry>, nextCursor: Option<Cursor>)

  datatype RetrievalError =
    | EmptyScope
    | InvalidLimit
    | InvalidTimeRange
    | Repository
    | UnsupportedVersion(eventId: Id, version: nat)
    | MalformedRawEvent(eventId: Id)

  // ---------------------------------------------------------------- policy

  function FilterRefs(refs: seq<ContentRef>, maximum: RetrievalClass): seq<ContentRef> {
    if |refs| == 0 then []
    else if RetrievalRank(refs[0].retrievalClass) <= RetrievalRank(maximum)
    then [refs[0]] + FilterRefs(refs[1..], maximum)
    else FilterRefs(refs[1..], maximum)
  }

  /** Filtering keeps exactly the allowed references, and keeps the length only if all are allowed. */
  lemma {:induction false} FilterRefsMeaning(refs: seq<ContentRef>, maximum: RetrievalClass)
    ensures forall c :: c in FilterRefs(refs, maximum) <==> c in refs && MayShow(maximum, c.retrievalClass)
    ensures |FilterRefs(refs, maximum)| <= |refs|
    ensures |FilterRefs(refs, maximum)| == |refs| <==> forall c <- refs :: MayShow(maximum, c.retrievalClass)
  {
    RanksAreMeaning();
    if |refs| > 0 {
      FilterRefsMeaning(refs[1..], maximum);
      assert forall c :: c in refs <==> c == refs[0] || c in refs[1..];
    }
  }

  function Released(refs: seq<ContentRef>, payload: EntryPayload, grant: RetrievalGrant): Option<EntryPayload> {
    if grant.includePayload && |FilterRefs(refs, grant.maxContentRetrieval)| == |refs| then Some(payload) else None
  }

  function RefsOf(e: Envelope): seq<ContentRef>
    requires !e.Undecodable?
  {
    match e
    case EnvelopeV1(_, ContentObserved(_, refs)) => refs
    case EnvelopeV1(_, OtherPayload(_)) => []
    case EnvelopeV2(_, refs, _) => refs
  }

  /** `decode_visible_entry`: an error, a hidden row, or the entry the grant allows. */
  function DecodeVisibleEntry(r: Row, grant: RetrievalGrant): Result<Option<TimelineEntry>, RetrievalError> {
    match (r.version, r.envelope)
    case (1, EnvelopeV1(header, payload)) =>
      if SensitivityRank(header.sensitivity) > SensitivityRank(grant.maxEventSensitivity) then Ok(None)
      else
        var refs := RefsOf(r.envelope);
        Ok(Some(TimelineEntry(header, 1, FilterRefs(refs, grant.maxContentRetrieval),
                              Released(refs, V1Payload(payload), grant))))
    case (2, EnvelopeV2(header, refs, json)) =>
      if SensitivityRank(header.sensitivity) > SensitivityRank(grant.maxEventSensitivity) then Ok(None)
      else
        Ok(Some(TimelineEntry(header, 2, FilterRefs(refs, grant.maxContentRetrieval),
                              Released(refs, V2Payload(json), grant))))
    case _ =>
      if r.version in {1, 2} then Err(MalformedRawEvent(r.id)) else Err(UnsupportedVersion(r.id, r.version))
  }

  /** What an entry reveals: an allowed event as it was stored, its allowed references in order, and its payload exactly
      when the grant includes payloads and no reference of the event was held back. */
  lemma EntryRespectsGrant(r: Row, grant: RetrievalGrant)
    requires DecodeVisibleEntry(r, grant).Ok?
    ensures !r.envelope.Undecodable?
    ensures DecodeVisibleEntry(r, grant).value.Some? <==> MaySee(grant.maxEventSensitivity,
                                                                 r.envelope.header.sensitivity)
    ensures DecodeVisibleEntry(r, grant).value.Some? ==>
        var entry := DecodeVisibleEntry(r, grant).value.value;
        && entry.header == r.envelope.header && entry.schemaVersion == r.version
        && (r.envelope.EnvelopeV1? <==> r.version == 1) && (r.envelope.EnvelopeV2? <==> r.version == 2)
        && InOrder(entry.contentRefs, RefsOf(r.envelope))
        && (forall c :: c in entry.contentRefs <==>
              c in RefsOf(r.envelope) && MayShow(grant.maxContentRetrieval, c.retrievalClass))
        && (entry.payload.Some? <==>
            (grant.includePayload &&
             forall c <- RefsOf(r.envelope) :: MayShow(grant.maxContentRetrieval, c.retrievalClass)))
        && (entry.payload.Some? ==>
              entry.payload.value == if r.envelope.EnvelopeV1? then V1Payload(r.envelope.payload)
                  else V2Payload(r.envelope.json))
  {
    RanksAreMeaning();
    FilterRefsMeaning(RefsOf(r.envelope), grant.maxContentRetrieval);
    FilterRefsInOrder(RefsOf(r.envelope), grant.maxContentRetrieval);
  }

  /** The references of `some` are among those of `all`, in the same order. */
  ghost predicate InOrder(some: seq<ContentRef>, all: seq<ContentRef>) {
    if |some| == 0 then true
    else |all| > 0 && if some[0] == all[0] then InOrder(some[1..], all[1..]) else InOrder(some, all[1..])
  }

  lemma {:induction false} FilterRefsInOrder(refs: seq<ContentRef>, maximum: RetrievalClass)
    ensures InOrder(FilterRefs(refs, maximum), refs)
  {
    if |refs| > 0 {
      FilterRefsInOrder(refs[1..], maximum);
      var rest := FilterRefs(refs[1..], maximum);
      assert ([refs[0]] + rest)[1..] == rest;
      if |rest| > 0 && rest[0] == refs[0] { TailInOrder(rest, refs[1..]); }
    }
  }

  lemma {:induction false} TailInOrder(some: seq<ContentRef>, all: seq<ContentRef>)
    requires InOrder(some, all) && |some| > 0
    ensures InOrder(some[1..], all)
  {
    if some[0] == all[0] {
      if |some| > 1 && some[1] == all[0] { TailInOrder(some[1..], all[1..]); }
    } else {
      TailInOrder(some, all[1..]);
      if |some| > 1 && some[1] == all[0] { TailInOrder(some[1..], all[1..]); }
    }
  }

  /** Secrets are for secret readers only, normal references for everyone who sees the event. */
  lemma SecretsStaySecret(r: Row, grant: RetrievalGrant, c: ContentRef)
    requires DecodeVisibleEntry(r, grant).Ok? && DecodeVisibleEntry(r, grant).value.Some?
    ensures var shown := c in DecodeVisibleEntry(r, grant).value.value.contentRefs;
      && (c.retrievalClass.Secret? ==> (shown <==> c in RefsOf(r.envelope) && grant.maxContentRetrieval.Secret?))
      && (c.retrievalClass.SensitiveContent? ==>
            (shown <==> c in RefsOf(r.envelope) && !grant.maxContentRetrieval.Normal?))
      && (c.retrievalClass.Normal? ==> (shown <==> c in RefsOf(r.envelope)))
    ensures r.envelope.header.sensitivity.SensitiveEvent? ==> grant.maxEventSensitivity.SensitiveEvent?
    ensures r.envelope.header.sensitivity.ContentDerived? ==> !grant.maxEventSensitivity.Metadata?
  {
    EntryRespectsGrant(r, grant);
  }

  /** Whatever one grant lets be seen, the other does too. */
  ghost predicate Wider(wide: RetrievalGrant, narrow: RetrievalGrant) {
    && (narrow.maxEventSensitivity.SensitiveEvent? ==> wide.maxEventSensitivity.SensitiveEvent?)
    && (narrow.maxEventSensitivity.ContentDerived? ==> !wide.maxEventSensitivity.Metadata?)
    && (narrow.maxContentRetrieval.Secret? ==> wide.maxContentRetrieval.Secret?)
    && (narrow.maxContentRetrieval.SensitiveContent? ==> !wide.maxContentRetrieval.Normal?)
    && (narrow.includePayload ==> wide.includePayload)
  }

  /** A wider grant shows every entry a narrower one shows, with at least its references and payload. */
  lemma WiderGrantShowsMore(r: Row, wide: RetrievalGrant, narrow: RetrievalGrant)
    requires Wider(wide, narrow) && DecodeVisibleEntry(r, narrow).Ok? && DecodeVisibleEntry(r, narrow).value.Some?
    ensures DecodeVisibleEntry(r, wide).Ok? && DecodeVisibleEntry(r, wide).value.Some?
    ensures var less, more := DecodeVisibleEntry(r, narrow).value.value, DecodeVisibleEntry(r, wide).value.value;
      && more.header == less.header
      && (forall c :: c in less.contentRefs ==> c in more.contentRefs)
      && (less.payload.Some? ==> more.payload == less.payload)
  {
    DecodesAlike(r, wide, narrow);
    EntryRespectsGrant(r, narrow);
    EntryRespectsGrant(r, wide);
    hide DecodeVisibleEntry, RefsOf, InOrder;
  }

  lemma DecodesAlike(r: Row, g: RetrievalGrant, h: RetrievalGrant)
    ensures DecodeVisibleEntry(r, g).Ok? <==> DecodeVisibleEntry(r, h).Ok?
  {
  }

  // ---------------------------------------------------------------- specification of the scan

  datatype Scan = Scan(entries: seq<TimelineEntry>, consumed: nat)

  /** Walks the log one row at a time until the page is full, the budget is spent or the log ends. */
  function Walk(log: seq<Row>, grant: RetrievalGrant, limit: nat, budget: nat): Result<Scan, RetrievalError> {
    if |log| == 0 || limit == 0 || budget == 0 then Ok(Scan([], 0))
    else
      match DecodeVisibleEntry(log[0], grant)
      case Err(e) => Err(e)
      case Ok(None) => After([], Walk(log[1..], grant, limit, budget - 1), 1)
      case Ok(Some(entry)) => After([entry], Walk(log[1..], grant, limit - 1, budget - 1), 1)
  }

  function After(entries: seq<TimelineEntry>, rest: Result<Scan, RetrievalError>, rows: nat)
    : Result<Scan, RetrievalError>
  {
    match rest
    case Err(e) => Err(e)
    case Ok(scan) => Ok(Scan(entries + scan.entries, rows + scan.consumed))
  }

  /** The page of a walk. A cursor is returned exactly when rows are left or the budget ran out on an
      unfilled page, which includes running out exactly on the last row. */
  function PageOfScan(log: seq<Row>, scan: Scan, limit: nat): TimelinePage {
    var more := scan.consumed < |log| || (scan.consumed == MAX_RAW_SCAN_PER_QUERY && |scan.entries| < limit);
    TimelinePage(scan.entries, if more && 0 < scan.consumed <= |log| then Some(Position(log[scan.consumed - 1]))
                 else None)
  }

  function ValidateQuery(q: TimelineQuery): Option<RetrievalError> {
    if Blank(q.raw.scope) then Some(EmptyScope)
    else if !(1 <= q.limit <= MAX_TIMELINE_PAGE_SIZE) then Some(InvalidLimit)
    else if q.raw.startAt.Some? && q.raw.endAt.Some? && q.raw.startAt.value >= q.raw.endAt.value
    then Some(InvalidTimeRange)
    else None
  }

  ghost function Timeline(rows: seq<Row>, q: TimelineQuery, grant: RetrievalGrant)
    : Result<TimelinePage, RetrievalError>
  {
    if ValidateQuery(q).Some? then Err(ValidateQuery(q).value)
    else if !SortableBounds(q.raw) then Err(Repository)
    else
      match Walk(Log(rows, q.raw), grant, q.limit, MAX_RAW_SCAN_PER_QUERY)
      case Err(e) => Err(e)
      case Ok(scan) => Ok(PageOfScan(Log(rows, q.raw), scan, q.limit))
  }

  lemma {:induction false} WalkBounds(log: seq<Row>, grant: RetrievalGrant, limit: nat, budget: nat)
    requires Walk(log, grant, limit, budget).Ok?
    ensures var s := Walk(log, grant, limit, budget).value;
      && s.consumed <= |log| && s.consumed <= budget && |s.entries| <= limit && |s.entries| <= s.consumed
      && (s.consumed == |log| || s.consumed == budget || |s.entries| == limit)
  {
    if !(|log| == 0 || limit == 0 || budget == 0) {
      match DecodeVisibleEntry(log[0], grant)
      case Ok(None) => WalkBounds(log[1..], grant, limit, budget - 1);
      case Ok(Some(_)) => WalkBounds(log[1..], grant, limit - 1, budget - 1);
    }
  }

  // ---------------------------------------------------------------- the batched scan

  /** After `scanned` rows and `entries` visible ones, the walk still to be done is that of the rest. */
  ghost predicate Progress(log: seq<Row>, grant: RetrievalGrant, limit: nat, scanned: nat,
                           entries: seq<TimelineEntry>) {
    && scanned <= |log| && scanned <= MAX_RAW_SCAN_PER_QUERY && |entries| <= limit
    && Walk(log, grant, limit, MAX_RAW_SCAN_PER_QUERY) ==
       After(entries, Walk(log[scanned..], grant, limit - |entries|, MAX_RAW_SCAN_PER_QUERY - scanned), scanned)
  }

  lemma ProgressStart(log: seq<Row>, grant: RetrievalGrant, limit: nat)
    ensures Progress(log, grant, limit, 0, [])
  {
    assert log[0..] == log;
    var w := Walk(log, grant, limit, MAX_RAW_SCAN_PER_QUERY);
    if w.Ok? { assert [] + w.value.entries == w.value.entries; }
  }

  lemma ProgressStep(log: seq<Row>, grant: RetrievalGrant, limit: nat, scanned: nat, entries: seq<TimelineEntry>)
    requires Progress(log, grant, limit, scanned, entries)
    requires scanned < |log| && scanned < MAX_RAW_SCAN_PER_QUERY && |entries| < limit
    ensures var d := DecodeVisibleEntry(log[scanned], grant);
      match d
      case Err(e) => Walk(log, grant, limit, MAX_RAW_SCAN_PER_QUERY) == Err(e)
      case Ok(None) => Progress(log, grant, limit, scanned + 1, entries)
      case Ok(Some(entry)) => Progress(log, grant, limit, scanned + 1, entries + [entry])
  {
    hide DecodeVisibleEntry;
    var rest := log[scanned..];
    assert rest[0] == log[scanned] && rest[1..] == log[scanned + 1..];
    var d := DecodeVisibleEntry(log[scanned], grant);
    if d.Ok? {
      var left := limit - |entries| - if d.value.Some? then 1 else 0;
      var tail := Walk(log[scanned + 1..], grant, left, MAX_RAW_SCAN_PER_QUERY - scanned - 1);
      if tail.Ok? && d.value.Some? {
        assert entries + ([d.value.value] + tail.value.entries) == entries + [d.value.value] + tail.value.entries;
      } else if tail.Ok? {
        assert entries + ([] + tail.value.entries) == entries + tail.value.entries;
      }
    }
  }

  /** When the scan stops, what it collected is the whole walk. */
  lemma ProgressStop(log: seq<Row>, grant: RetrievalGrant, limit: nat, scanned: nat, entries: seq<TimelineEntry>)
    requires Progress(log, grant, limit, scanned, entries)
    requires scanned == |log| || scanned == MAX_RAW_SCAN_PER_QUERY || |entries| == limit
    ensures Walk(log, grant, limit, MAX_RAW_SCAN_PER_QUERY) == Ok(Scan(entries, scanned))
  {
    assert entries + [] == entries;
  }

  /** One batch: decodes rows until the page is full or the batch ends. */
  method ScanBatch(records: seq<Row>, grant: RetrievalGrant, limit: nat, already: seq<TimelineEntry>,
                   ghost log: seq<Row>, ghost start: nat)
    returns (r: Result<(seq<TimelineEntry>, nat), RetrievalError>)
    requires Progress(log, grant, limit, start, already) && |already| < limit
    requires start + |records| <= |log| && start + |records| <= MAX_RAW_SCAN_PER_QUERY
    requires records == log[start..start + |records|]
    ensures r.Err? ==> Walk(log, grant, limit, MAX_RAW_SCAN_PER_QUERY) == Err(r.error)
    ensures r.Ok? ==> r.value.1 <= |records| && Progress(log, grant, limit, start + r.value.1, r.value.0)
    ensures r.Ok? ==> |r.value.0| == limit || r.value.1 == |records|
    ensures r.Ok? && |records| > 0 ==> r.value.1 > 0
  {
    hide Progress, Walk, DecodeVisibleEntry;
    var entries := already;
    var index := 0;
    while index < |records|
      invariant index <= |records| && Progress(log, grant, limit, start + index, entries) && |entries| < limit
    {
      ProgressStep(log, grant, limit, start + index, entries);
      var decoded := DecodeVisibleEntry(records[index], grant);
      if decoded.Err? { return Err(decoded.error); }
      if decoded.value.Some? { entries := entries + [decoded.value.value]; }
      index := index + 1;
      if |entries| == limit { return Ok((entries, index)); }
    }
    return Ok((entries, index));
  }

  /** The next raw page of a scan that stands after `scanned` rows of the log. */
  method NextBatch(rows: seq<Row>, q: RawQuery, rawCursor: Option<Cursor>, rawLimit: nat,
                   ghost log: seq<Row>, ghost scanned: nat)
    returns (r: Option<RawPage>)
    requires Table(rows) && log == Log(rows, q) && scanned <= |log|
    requires rawCursor == if scanned == 0 then q.before else Some(Position(log[scanned - 1]))
    ensures SortableBounds(q) ==> r.Some?
    ensures r.Some? && scanned == 0 ==> SortableBounds(q)
    ensures r.Some? ==> scanned + |r.value.records| <= |log|
    ensures r.Some? ==> r.value.records == log[scanned..scanned + |r.value.records|]
    ensures r.Some? ==> (r.value.hasMore <==> scanned + |r.value.records| < |log|)
    ensures r.Some? ==> |r.value.records| <= rawLimit && (r.value.hasMore ==> |r.value.records| == rawLimit)
  {
    ResumedLog(rows, q, scanned, rawCursor);
    var page := QueryRawTimeline(rows, q.(before := rawCursor), rawLimit);
    return if page.Err? then None else Some(page.value);
  }

  lemma RowOfBatch(log: seq<Row>, start: nat, records: seq<Row>, k: nat)
    requires start + |records| <= |log| && records == log[start..start + |records|] && k < |records|
    ensures records[k] == log[start + k]
  {
  }

  /** `query_timeline`. */
  method QueryTimeline(rows: seq<Row>, q: TimelineQuery, grant: RetrievalGrant)
    returns (r: Result<TimelinePage, RetrievalError>)
    requires Table(rows)
    ensures r == Timeline(rows, q, grant)
  {
    hide Table, Log, Walk, SortableBounds, DecodeVisibleEntry, Blank;
    var invalid := ValidateQuery(q);
    if invalid.Some? { return Err(invalid.value); }
    ghost var log := Log(rows, q.raw);
    ghost var sortable := SortableBounds(q.raw);
    ghost var walk := Walk(log, grant, q.limit, MAX_RAW_SCAN_PER_QUERY);

    var entries: seq<TimelineEntry> := [];
    var rawCursor := q.raw.before;
    var scanned := 0;
    var nextCursor: Option<Cursor> := None;
    ProgressStart(log, grant, q.limit);
    while |entries| < q.limit && scanned < MAX_RAW_SCAN_PER_QUERY
      invariant Progress(log, grant, q.limit, scanned, entries)
      invariant rawCursor == if scanned == 0 then q.raw.before else Some(Position(log[scanned - 1]))
      invariant scanned == 0 ==> |entries| == 0
      invariant scanned > 0 ==> sortable && scanned < |log| && nextCursor == rawCursor && |entries| < q.limit
      decreases MAX_RAW_SCAN_PER_QUERY - scanned
    {
      var remainingScan := MAX_RAW_SCAN_PER_QUERY - scanned;
      var rawLimit := if RAW_BATCH_SIZE <= remainingScan then RAW_BATCH_SIZE else remainingScan;
      var rawPage := NextBatch(rows, q.raw, rawCursor, rawLimit, log, scanned);
      if rawPage.None? { return Err(Repository); }
      var records, hasMoreAfterPage := rawPage.value.records, rawPage.value.hasMore;
      if |records| == 0 {
        nextCursor := None;
        break;
      }
      var batch := ScanBatch(records, grant, q.limit, entries, log, scanned);
      if batch.Err? { return Err(batch.error); }
      var index := batch.value.1;
      RowOfBatch(log, scanned, records, index - 1);
      entries, rawCursor, scanned := batch.value.0, Some(Position(records[index - 1])), scanned + index;
      if |entries| == q.limit {
        ProgressStop(log, grant, q.limit, scanned, entries);
        return Ok(TimelinePage(entries, if index < |records| || hasMoreAfterPage then rawCursor else None));
      }
      if !hasMoreAfterPage {
        nextCursor := None;
        break;
      }
      nextCursor := rawCursor;
    }
    ProgressStop(log, grant, q.limit, scanned, entries);
    if scanned >= MAX_RAW_SCAN_PER_QUERY && |entries| < q.limit {
      nextCursor := rawCursor;
    }
    return Ok(TimelinePage(entries, nextCursor));
  }

  /** Which queries are refused for what they ask. */
  lemma RefusedQueries(rows: seq<Row>, q: TimelineQuery, grant: RetrievalGrant)
    ensures Timeline(rows, q, grant) == Err(EmptyScope) <==> Blank(q.raw.scope)
    ensures Timeline(rows, q, grant) == Err(InvalidLimit) <==> !Blank(q.raw.scope) && (q.limit < 1 || q.limit > 200)
    ensures Timeline(rows, q, grant) == Err(InvalidTimeRange) <==>
            && !Blank(q.raw.scope) && 1 <= q.limit <= 200
            && q.raw.startAt.Some? && q.raw.endAt.Some? && q.raw.startAt.value >= q.raw.endAt.value
  {
    hide Log, Blank, SortableBounds;
    if ValidateQuery(q).None? { WalkErrors(Log(rows, q.raw), grant, q.limit, MAX_RAW_SCAN_PER_QUERY); }
  }

  lemma {:induction false} WalkErrors(log: seq<Row>, grant: RetrievalGrant, limit: nat, budget: nat)
    ensures var r := Walk(log, grant, limit, budget);
      r.Err? ==> r.error.UnsupportedVersion? || r.error.MalformedRawEvent?
  {
    hide FilterRefs, Released;
    if !(|log| == 0 || limit == 0 || budget == 0) {
      WalkErrors(log[1..], grant, limit, budget - 1);
      if limit > 0 { WalkErrors(log[1..], grant, limit - 1, budget - 1); }
    }
  }

  /** The log seen from the loop's cursor is what is left of the query's log. */
  lemma ResumedLog(rows: seq<Row>, q: RawQuery, scanned: nat, cursor: Option<Cursor>)
    requires Table(rows) && scanned <= |Log(rows, q)|
    requires cursor == if scanned == 0 then q.before else Some(Position(Log(rows, q)[scanned - 1]))
    ensures Log(rows, q.(before := cursor)) == Log(rows, q)[scanned..]
    ensures SortableBounds(q) ==> SortableBounds(q.(before := cursor))
    ensures scanned == 0 ==> q.(before := cursor) == q
  {
    if scanned > 0 {
      ResumeIsSuffix(rows, q, scanned);
      LogMeaning(rows, q);
      var last := Log(rows, q)[scanned - 1];
      assert last in Log(rows, q) && last in rows;
    }
  }
}
