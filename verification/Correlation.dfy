/**
  Download correlation. The lookup as two SQL queries over the tables, one ingest as two transactions
  with the lookup in between, and what holds of every outcome: recovery after a crash between the
  transactions, consumption of pending downloads, and independence of arrival order.
 */
module Correlation {
  import opened Wrappers
  import opened Contracts
  import opened Projection
  import opened EventLog
  import SortKey

  const TOLERANCE_SECONDS := 180

  // ---------------------------------------------------------------- the lookup

  function LowerChar(c: char): char {
    if 'A' <= c <= 'Z' then 'a' + (c - 'A') else c
  }

  function Lower(s: string): string {
    seq(|s|, i requires 0 <= i < |s| => LowerChar(s[i]))
  }

  /** `COLLATE NOCASE`: ASCII letters compare without case. */
  predicate SamePath(a: string, b: string) {
    Lower(a) == Lower(b)
  }

  type LocationKey = (FileIdentity, string)

  predicate ActiveOn(t: Tables, k: LocationKey, path: string) {
    k in t.locations && t.locations[k].active && SamePath(k.1, path)
  }

  predicate UnmatchedOn(t: Tables, download: Id, path: string) {
    download in t.pending && t.pending[download].matchedAt.None? && SamePath(t.pending[download].finalPath, path)
  }

  /** A row of the join of unmatched downloads on the path with active locations on the download's path. */
  predicate JoinRow(t: Tables, path: string, download: Id, k: LocationKey) {
    UnmatchedOn(t, download, path) && ActiveOn(t, k, t.pending[download].finalPath)
  }

  /** A row the query may return first under `ORDER BY observed_at DESC`, which orders text. */
  ghost predicate FirstRow(t: Tables, path: string, download: Id, k: LocationKey) {
    && JoinRow(t, path, download, k)
    && forall other, l :: JoinRow(t, path, other, l) ==>
        !SortKey.TextLess(t.pending[download].observedAt.text, t.pending[other].observedAt.text)
  }

  datatype MatchCandidate = MatchCandidate(
    downloadId: Id, identity: FileIdentity, url: string, sourceEventIds: seq<Id>, observedAt: Time)

  function CandidateOf(t: Tables, download: Id, k: LocationKey): MatchCandidate
    requires download in t.pending && k in t.locations
  {
    var d, l := t.pending[download], t.locations[k];
    MatchCandidate(download, k.0, d.url, [d.sourceEventId, l.sourceEventId],
                   if SortKey.TextLess(d.observedAt.text, l.observedAt.text) then l.observedAt else d.observedAt)
  }

  /** `(a - b).whole_seconds().abs()`: truncated toward zero. */
  function WholeSeconds(a: Time, b: Time): nat {
    (if a.nanos >= b.nanos then a.nanos - b.nanos else b.nanos - a.nanos) / 1_000_000_000
  }

  /** At most 180 whole seconds apart is less than 181 seconds apart. */
  lemma WholeSecondsApart(a: Time, b: Time)
    ensures WholeSeconds(a, b) <= TOLERANCE_SECONDS <==> -181_000_000_000 < a.nanos - b.nanos < 181_000_000_000
  {
  }

  /** Outcome `r` of the lookup through rows `k` of the first query and `checked` of the second. */
  ghost predicate MatchVia(t: Tables, path: string, download: Id, k: LocationKey, checked: LocationKey,
                           r: Option<MatchCandidate>) {
    && FirstRow(t, path, download, k)
    && ActiveOn(t, checked, t.pending[download].finalPath)
    && r == if WholeSeconds(t.pending[download].observedAt, t.locations[checked].observedAt) > TOLERANCE_SECONDS
            then None else Some(CandidateOf(t, download, k))
  }

  /** The possible outcomes of `find_download_match`; the two queries may see different locations. */
  ghost predicate MatchResult(t: Tables, path: string, r: Option<MatchCandidate>) {
    || (r.None? && forall download, k :: !JoinRow(t, path, download, k))
    || (exists download, k, checked :: MatchVia(t, path, download, k, checked, r))
  }

  // ---------------------------------------------------------------- one ingest

  function LookupPath(e: EventEnvelope): Option<string> {
    match e.payload
    case FileObserved(_, path, change) => if change == Deleted then None else Some(path)
    case BrowserDownloadObserved(_, _, _, finalPath) => Some(finalPath)
    case _ => None
  }

  /** The event derived from a candidate while ingesting `e`. */
  function DerivedEvent(e: EventEnvelope, c: MatchCandidate, id: Id): EventEnvelope {
    EventEnvelope(id, CURRENT_SCHEMA_VERSION, "core.download-correlator", None, c.observedAt, e.scopeId,
                  Some(e.eventId),
                  DownloadMatched(c.downloadId, c.identity, c.url, c.sourceEventIds))
  }

  function Project(s: Store, e: EventEnvelope): Result<Appended, StoreError> {
    AppendV1(s, e, ProjectEvent(e))
  }

  /** The second half of an ingest, from the state after the first transaction. */
  ghost predicate Correlated(mid: Store, e: EventEnvelope, after: Store, derived: Option<EventEnvelope>) {
    if LookupPath(e).None? then after == mid && derived.None?
    else exists found :: MatchResult(mid.tables, LookupPath(e).value, found) && Derives(mid, e, found, after, derived)
  }

  ghost predicate Derives(mid: Store, e: EventEnvelope, found: Option<MatchCandidate>, after: Store,
                          derived: Option<EventEnvelope>) {
    if found.None? then after == mid && derived.None?
    else
      && derived.Some? && derived.value == DerivedEvent(e, found.value, derived.value.eventId)
      && derived.value.eventId !in Ids(mid.raw)
      && Project(mid, derived.value).Ok? && after == Project(mid, derived.value).value.store
  }

  /** A successful `ingest` of `e` may take `s` to `after`, deriving `derived`. */
  ghost predicate Ingested(s: Store, e: EventEnvelope, after: Store, derived: Option<EventEnvelope>) {
    && e.schemaVersion == CURRENT_SCHEMA_VERSION
    && Project(s, e).Ok?
    && Correlated(Project(s, e).value.store, e, after, derived)
  }

  /** In a consistent store the second transaction of an ingest cannot fail. */
  lemma DerivedAppendSucceeds(mid: Store, e: EventEnvelope, path: string, found: MatchCandidate, id: Id)
    requires Consistent(mid) && MatchResult(mid.tables, path, Some(found))
    ensures Project(mid, DerivedEvent(e, found, id)).Ok?
  {
    hide SortKey.Sortable, SortKey.TextLess, SamePath, ApplyAll, Advance, Rebuild;
    RebuildSortable(mid.raw);
    MatchIsUnmatched(mid.tables, path, found);
    var download, k :| JoinRow(mid.tables, path, download, k) && found == CandidateOf(mid.tables, download, k);
    assert SortKey.Sortable(found.observedAt.nanos);
  }

  // ---------------------------------------------------------------- crash recovery

  lemma AdvanceTwice(checkpoints: map<CollectorKey, Checkpoint>, key: CollectorKey, sequence: Option<nat>, gap: bool)
    ensures Advance(Advance(checkpoints, key, sequence, gap), key, sequence, gap) ==
              Advance(checkpoints, key, sequence, gap)
  {
  }

  /** The first transaction is idempotent. */
  lemma ProjectTwice(s: Store, e: EventEnvelope)
    requires Project(s, e).Ok?
    ensures var mid := Project(s, e).value.store; Project(mid, e) == Ok(Appended(mid, Duplicate))
  {
    hide ApplyChecked, ProjectEvent, SortKey.Sortable, Advance;
    var mid := Project(s, e).value.store;
    AdvanceTwice(s.checkpoints, (e.source, e.scopeId), e.sourceSequence, e.payload.CollectorGap?);
    assert e.eventId in Ids(mid.raw) by {
      if e.eventId !in Ids(s.raw) { assert V1(e) in mid.raw; }
    }
  }

  /** Stopping after the first transaction and ingesting the event again has exactly the outcomes of
      the uninterrupted ingest, derived event included. */
  lemma CrashRecovery(s: Store, e: EventEnvelope, after: Store, derived: Option<EventEnvelope>)
    requires e.schemaVersion == CURRENT_SCHEMA_VERSION && Project(s, e).Ok?
    ensures Ingested(Project(s, e).value.store, e, after, derived) <==> Ingested(s, e, after, derived)
  {
    ProjectTwice(s, e);
  }

  // ---------------------------------------------------------------- derivation is consuming

  function Unmatched(t: Tables): set<Id> {
    set d | d in t.pending && t.pending[d].matchedAt.None?
  }

  /** What a derived event does to the tables: the edge, and one pending download marked. */
  lemma DerivedTables(mid: Store, e: EventEnvelope, found: MatchCandidate, after: Store, derived: EventEnvelope)
    requires Derives(mid, e, Some(found), after, Some(derived))
    ensures after.tables == Apply(mid.tables,
              AddObservedDownloadEdge(found.downloadId, found.identity, found.url, found.sourceEventIds,
                                      found.observedAt))
    ensures after.raw == mid.raw + [V1(derived)]
  {
    hide Apply, SortKey.Sortable;
    ApplyProjected(mid.tables, derived);
  }

  lemma MatchIsUnmatched(t: Tables, path: string, found: MatchCandidate)
    requires MatchResult(t, path, Some(found))
    ensures found.downloadId in Unmatched(t)
    ensures exists download, k :: JoinRow(t, path, download, k) && found == CandidateOf(t, download, k)
  {
    var download, k, checked :| MatchVia(t, path, download, k, checked, Some(found));
    assert JoinRow(t, path, download, k);
  }

  /** Each derived event takes exactly one download out of the unmatched ones, and is backed by an
      unmatched download and an active location on its path. */
  lemma DerivationConsumes(mid: Store, e: EventEnvelope, after: Store, derived: EventEnvelope)
    requires Correlated(mid, e, after, Some(derived))
    ensures derived.payload.DownloadMatched?
    ensures derived.payload.downloadId in Unmatched(mid.tables)
    ensures Unmatched(after.tables) == Unmatched(mid.tables) - {derived.payload.downloadId}
    ensures (derived.payload.identity, derived.payload.url) in after.tables.edges
  {
    hide Project, MatchResult, SortKey.TextLess;
    var found :| MatchResult(mid.tables, LookupPath(e).value, found) && Derives(mid, e, found, after, Some(derived));
    MatchIsUnmatched(mid.tables, LookupPath(e).value, found.value);
    DerivedTables(mid, e, found.value, after, derived);
  }

  datatype Replay = Replay(event: EventEnvelope, derived: Option<EventEnvelope>, after: Store)

  /** A run of repeated deliveries: every event was stored before the run began. */
  ghost predicate Replays(s: Store, steps: seq<Replay>)
    decreases |steps|
  {
    |steps| == 0 || (
      && steps[0].event.eventId in Ids(s.raw)
      && Ingested(s, steps[0].event, steps[0].after, steps[0].derived)
      && Replays(steps[0].after, steps[1..]))
  }

  function DerivedCount(steps: seq<Replay>): nat {
    if |steps| == 0 then 0 else (if steps[0].derived.Some? then 1 else 0) + DerivedCount(steps[1..])
  }

  /** Over any run of repeated deliveries, derived events and remaining unmatched downloads add up to the
      unmatched downloads at the start; so replays derive only finitely often. */
  lemma {:induction false} ReplaysDeriveFinitely(s: Store, steps: seq<Replay>)
    requires Replays(s, steps)
    ensures var last := if |steps| == 0 then s else steps[|steps| - 1].after;
      DerivedCount(steps) + |Unmatched(last.tables)| == |Unmatched(s.tables)|
    decreases |steps|
  {
    hide Unmatched, Correlated, ApplyChecked, Advance;
    if |steps| > 0 {
      var e := steps[0].event;
      var mid := Project(s, e).value.store;
      assert mid.tables == s.tables;
      if steps[0].derived.Some? {
        DerivationConsumes(mid, e, steps[0].after, steps[0].derived.value);
      } else {
        NothingDerived(mid, e, steps[0].after);
      }
      ReplaysDeriveFinitely(steps[0].after, steps[1..]);
    }
  }

  lemma NothingDerived(mid: Store, e: EventEnvelope, after: Store)
    requires Correlated(mid, e, after, None)
    ensures after == mid
  {
  }

  // ---------------------------------------------------------------- arrival order

  /** A download and a file observation on the same path, in a store where nothing else is waiting there. */
  ghost predicate QuietPath(t: Tables, d: EventEnvelope, f: EventEnvelope) {
    && d.payload.BrowserDownloadObserved? && f.payload.FileObserved? && f.payload.change != Deleted
    && SamePath(d.payload.finalPath, f.payload.path)
    && (forall k :: !ActiveOn(t, k, f.payload.path))
    && (forall x :: !UnmatchedOn(t, x, f.payload.path))
    && d.payload.downloadId !in t.pending
  }

  function DownloadRow(d: EventEnvelope): PendingRow
    requires d.payload.BrowserDownloadObserved?
  {
    PendingRow(d.payload.url, d.payload.referrer, d.payload.finalPath, d.observedAt, d.eventId, None)
  }

  function FileRow(f: EventEnvelope): LocationRow
    requires f.payload.FileObserved?
  {
    LocationRow(f.scopeId, f.observedAt, true, f.payload.change, f.eventId)
  }

  /** The tables once both observations are in, before any match. */
  function BothObserved(t: Tables, d: EventEnvelope, f: EventEnvelope): Tables
    requires d.payload.BrowserDownloadObserved? && f.payload.FileObserved?
  {
    t.(pending := t.pending[d.payload.downloadId := DownloadRow(d)],
       artifacts := t.artifacts + {f.payload.identity},
       locations := Deactivate(t.locations, f.payload.identity)[(f.payload.identity, f.payload.path) := FileRow(f)])
  }

  /** A newly stored event applies its one command. */
  lemma ProjectNew(s: Store, e: EventEnvelope)
    requires Project(s, e).Ok? && e.eventId !in Ids(s.raw) && |ProjectEvent(e)| == 1
    ensures Project(s, e).value.store.tables == Apply(s.tables, ProjectEvent(e)[0])
    ensures Project(s, e).value.store.raw == s.raw + [V1(e)]
  {
    hide Apply, SortKey.Sortable;
    ApplyProjected(s.tables, e);
  }

  /** While only one of the two is there, the lookup finds nothing. */
  lemma FirstFindsNothing(t: Tables, d: EventEnvelope, f: EventEnvelope, path: string, download: Id, k: LocationKey)
    requires QuietPath(t, d, f) && SamePath(path, f.payload.path)
    ensures !JoinRow(Apply(t, ProjectEvent(d)[0]), path, download, k)
    ensures !JoinRow(Apply(t, ProjectEvent(f)[0]), path, download, k)
  {
    hide Lower;
    assert !ActiveOn(t, k, f.payload.path);
    assert !UnmatchedOn(t, download, f.payload.path);
  }

  /** Once both are there, they are the only row of the join. */
  lemma OnlyPair(t: Tables, d: EventEnvelope, f: EventEnvelope, path: string, download: Id, k: LocationKey)
    requires QuietPath(t, d, f) && SamePath(path, f.payload.path)
    ensures JoinRow(BothObserved(t, d, f), path, download, k) <==>
              download == d.payload.downloadId && k == (f.payload.identity, f.payload.path)
    ensures ActiveOn(BothObserved(t, d, f), k, d.payload.finalPath) <==> k == (f.payload.identity, f.payload.path)
  {
    hide Lower;
    assert !ActiveOn(t, k, f.payload.path);
    assert !UnmatchedOn(t, download, f.payload.path);
  }

  /** The lookup's one possible outcome once both are there. */
  function PairOutcome(t: Tables, d: EventEnvelope, f: EventEnvelope): Option<MatchCandidate>
    requires d.payload.BrowserDownloadObserved? && f.payload.FileObserved?
  {
    if WholeSeconds(d.observedAt, f.observedAt) > TOLERANCE_SECONDS then None
    else Some(CandidateOf(BothObserved(t, d, f), d.payload.downloadId, (f.payload.identity, f.payload.path)))
  }

  lemma PairIsDeterministic(t: Tables, d: EventEnvelope, f: EventEnvelope, path: string, r: Option<MatchCandidate>)
    requires QuietPath(t, d, f) && SamePath(path, f.payload.path)
    requires MatchResult(BothObserved(t, d, f), path, r)
    ensures r == PairOutcome(t, d, f)
  {
    hide Lower, SamePath, QuietPath, CandidateOf, UnmatchedOn, ActiveOn;
    QuietPaths(t, d, f);
    var both := BothObserved(t, d, f);
    var key := (f.payload.identity, f.payload.path);
    OnlyPair(t, d, f, path, d.payload.downloadId, key);
    assert JoinRow(both, path, d.payload.downloadId, key);
    var download, k, checked :| MatchVia(both, path, download, k, checked, r);
    OnlyPair(t, d, f, path, download, k);
    OnlyPair(t, d, f, path, download, checked);
  }

  /** One side arrives first: it finds nothing. */
  lemma FirstArrival(s: Store, d: EventEnvelope, f: EventEnvelope, e: EventEnvelope, after: Store,
                     derived: Option<EventEnvelope>)
    requires QuietPath(s.tables, d, f) && (e == d || e == f)
    requires e.eventId !in Ids(s.raw) && Ingested(s, e, after, derived)
    ensures derived.None? && after.tables == Apply(s.tables, ProjectEvent(e)[0]) && after.raw == s.raw + [V1(e)]
  {
    hide Apply, SamePath, FirstRow, Deactivate, JoinRow, QuietPath;
    QuietPaths(s.tables, d, f);
    ProjectNew(s, e);
    var mid := Project(s, e).value.store;
    var path := LookupPath(e).value;
    forall download, k ensures !JoinRow(mid.tables, path, download, k) {
      FirstFindsNothing(s.tables, d, f, path, download, k);
    }
    var found :| MatchResult(mid.tables, path, found) && Derives(mid, e, found, after, derived);
    NoRowsNoMatch(mid.tables, path, found);
  }

  lemma QuietPaths(t: Tables, d: EventEnvelope, f: EventEnvelope)
    requires QuietPath(t, d, f)
    ensures d.payload.BrowserDownloadObserved? && f.payload.FileObserved? && f.payload.change != Deleted
    ensures SamePath(d.payload.finalPath, f.payload.path) && SamePath(f.payload.path, f.payload.path)
  {
  }

  lemma NoRowsNoMatch(t: Tables, path: string, found: Option<MatchCandidate>)
    requires MatchResult(t, path, found) && forall download, k :: !JoinRow(t, path, download, k)
    ensures found.None?
  {
    hide JoinRow;
  }

  /** The other side arrives second: one derived event exactly when the two are close in time. */
  lemma SecondArrival(t: Tables, s: Store, d: EventEnvelope, f: EventEnvelope, e: EventEnvelope, after: Store,
                      derived: Option<EventEnvelope>)
    requires QuietPath(t, d, f) && (e == d || e == f)
    requires s.tables == Apply(t, ProjectEvent(if e == d then f else d)[0])
    requires e.eventId !in Ids(s.raw) && Ingested(s, e, after, derived)
    ensures derived.Some? <==> PairOutcome(t, d, f).Some?
    ensures after.tables == Settled(t, d, f)
  {
    hide SamePath, Deactivate, JoinRow, MatchResult, QuietPath, CandidateOf, Derives;
    QuietPaths(t, d, f);
    ProjectNew(s, e);
    var mid := Project(s, e).value.store;
    assert mid.tables == BothObserved(t, d, f);
    var path := LookupPath(e).value;
    var found :| MatchResult(mid.tables, path, found) && Derives(mid, e, found, after, derived);
    PairIsDeterministic(t, d, f, path, found);
    DerivesOutcome(mid, e, found, after, derived);
  }

  lemma DerivesOutcome(mid: Store, e: EventEnvelope, found: Option<MatchCandidate>, after: Store,
                       derived: Option<EventEnvelope>)
    requires Derives(mid, e, found, after, derived)
    ensures derived.Some? <==> found.Some?
    ensures after.tables == if found.None? then mid.tables else Apply(mid.tables, AddObservedDownloadEdge(
        found.value.downloadId, found.value.identity, found.value.url, found.value.sourceEventIds,
            found.value.observedAt))
  {
    hide Apply, Project;
    if found.Some? { DerivedTables(mid, e, found.value, after, derived.value); }
  }

  /** The tables after both observations and their correlation. */
  function Settled(t: Tables, d: EventEnvelope, f: EventEnvelope): Tables
    requires d.payload.BrowserDownloadObserved? && f.payload.FileObserved?
  {
    var both := BothObserved(t, d, f);
    match PairOutcome(t, d, f)
    case None => both
    case Some(c) => Apply(both, AddObservedDownloadEdge(c.downloadId, c.identity, c.url, c.sourceEventIds,
                                                        c.observedAt))
  }

  /** Whichever of the two arrives first, the tables end up the same, the first arrival derives nothing,
      and the second derives one event exactly when they lie at most 180 whole seconds, so less than 181
      seconds, apart. */
  lemma ArrivalOrderDoesNotMatter(
      s: Store, d: EventEnvelope, f: EventEnvelope,
      sd: Store, dFirst: Option<EventEnvelope>, sdf: Store, fSecond: Option<EventEnvelope>,
      sf: Store, fFirst: Option<EventEnvelope>, sfd: Store, dSecond: Option<EventEnvelope>)
    requires QuietPath(s.tables, d, f)
    requires d.eventId !in Ids(s.raw) && f.eventId !in Ids(s.raw) && d.eventId != f.eventId
    requires Ingested(s, d, sd, dFirst) && Ingested(sd, f, sdf, fSecond)
    requires Ingested(s, f, sf, fFirst) && Ingested(sf, d, sfd, dSecond)
    ensures sdf.tables == sfd.tables
    ensures dFirst.None? && fFirst.None?
    ensures fSecond.Some? <==> -181_000_000_000 < d.observedAt.nanos - f.observedAt.nanos < 181_000_000_000
    ensures dSecond.Some? <==> -181_000_000_000 < d.observedAt.nanos - f.observedAt.nanos < 181_000_000_000
  {
    WholeSecondsApart(d.observedAt, f.observedAt);
    hide WholeSeconds;
    hide QuietPath, Ingested, Apply, CandidateOf, BothObserved;
    QuietPaths(s.tables, d, f);
    FirstArrival(s, d, f, d, sd, dFirst);
    FirstArrival(s, d, f, f, sf, fFirst);
    SecondArrival(s.tables, sd, d, f, f, sdf, fSecond);
    SecondArrival(s.tables, sf, d, f, d, sfd, dSecond);
  }
}
