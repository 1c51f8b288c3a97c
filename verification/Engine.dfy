/**
  The context engine: `find_download_match`, `ingest` and `ingest_v2` over the repository, proved
  against EventLog and Correlation.
 */
module Engine {
  import opened Wrappers
  import opened Contracts
  import opened Projection
  import opened EventLog
  import opened Repository
  import opened Correlation
  import opened MatchEvidence
  import Text
  import SortKey

  datatype IngestError =
    | UnsupportedSchema
    | UnsupportedEnvelopeVersion
    | EmptyEventType
    | InvalidPayloadVersion
    | RepositoryFailed(error: StoreError)

  datatype IngestReport = IngestReport(outcome: IngestOutcome, derivedEventIds: seq<Id>)

  /** A row of the join over the physical tables: a download and a location key. */
  type PhysicalRow = (Id, (Id, string))

  class ContextEngine {
    const repository: SqliteRepository

    constructor (repository: SqliteRepository)
      ensures this.repository == repository
    {
      this.repository := repository;
    }

    method NewEventId() returns (id: Id)
      requires repository.Valid()
      ensures id !in Ids(repository.abs.raw)
    {
      id := NewUuid(Ids(repository.raw));
    }

    predicate IsJoinRow(path: string, row: PhysicalRow)
      reads repository
    {
      && row.0 in repository.pending && row.1 in repository.location
      && repository.pending[row.0].matchedAt.None?
      && SamePath(repository.pending[row.0].finalPath, path)
      && repository.location[row.1].active
      && SamePath(row.1.1, repository.pending[row.0].finalPath)
    }

    ghost function Logical(k: (Id, string)): LocationKey
      requires repository.Valid() && k in repository.location
      reads repository
    {
      (repository.owner[k.0], k.1)
    }

    /** The join over surrogate ids and the join over identities have the same rows. */
    lemma JoinRowsCorrespond(path: string)
      requires repository.Valid()
      ensures forall row: PhysicalRow :: IsJoinRow(path, row) ==>
          row.1 in repository.location && JoinRow(repository.abs.tables, path, row.0, Logical(row.1))
      ensures forall download, k :: JoinRow(repository.abs.tables, path, download, k) ==>
          k.0 in repository.artifact && IsJoinRow(path, (download, (repository.artifact[k.0], k.1)))
          && Logical((repository.artifact[k.0], k.1)) == k
    {
      hide SamePath, EdgesMatch;
    }

    lemma NoJoinRow(path: string)
      requires repository.Valid() && forall row: PhysicalRow :: !IsJoinRow(path, row)
      ensures MatchResult(repository.abs.tables, path, None)
    {
      JoinRowsCorrespond(path);
    }

    /** `ORDER BY observed_at DESC LIMIT 1` over the join. */
    method FirstJoinRow(path: string) returns (r: Option<PhysicalRow>)
      ensures r.None? ==> forall row: PhysicalRow :: !IsJoinRow(path, row)
      ensures r.Some? ==> IsJoinRow(path, r.value)
      ensures r.Some? ==> forall row: PhysicalRow :: IsJoinRow(path, row) ==>
          !SortKey.TextLess(repository.pending[r.value.0].observedAt.text, repository.pending[row.0].observedAt.text)
    {
      hide SamePath, SortKey.TextLess;
      var rows := set d, k | d in repository.pending && k in repository.location && IsJoinRow(path, (d, k)) :: (d, k);
      assert forall row: PhysicalRow :: IsJoinRow(path, row) ==> row in rows;
      r := None;
      ghost var seen: set<PhysicalRow> := {};
      while rows != {}
        invariant forall row: PhysicalRow :: IsJoinRow(path, row) <==> row in rows || row in seen
        invariant r.None? ==> seen == {}
        invariant r.Some? ==> r.value in seen
        invariant r.Some? ==> forall row <- seen ::
            row.0 in repository.pending && r.value.0 in repository.pending &&
            !SortKey.TextLess(repository.pending[r.value.0].observedAt.text, repository.pending[row.0].observedAt.text)
        decreases rows
      {
        var row :| row in rows;
        assert IsJoinRow(path, row);
        if r.None? {
          r := Some(row);
          SortKey.TextLessTrichotomy(repository.pending[row.0].observedAt.text, "");
          Irreflexive(repository.pending[row.0].observedAt.text);
        } else if SortKey.TextLess(repository.pending[r.value.0].observedAt.text,
                                   repository.pending[row.0].observedAt.text) {
          forall other | other in seen
            ensures !SortKey.TextLess(repository.pending[row.0].observedAt.text,
                                      repository.pending[other.0].observedAt.text)
          {
            NotAbove(repository.pending[r.value.0].observedAt.text, repository.pending[row.0].observedAt.text,
                     repository.pending[other.0].observedAt.text);
          }
          Irreflexive(repository.pending[row.0].observedAt.text);
          r := Some(row);
        }
        rows, seen := rows - {row}, seen + {row};
      }
    }

    lemma Irreflexive(s: string)
      ensures !SortKey.TextLess(s, s)
    {
      SortKey.TextLessTrichotomy(s, s);
    }

    lemma NotAbove(a: string, b: string, c: string)
      requires SortKey.TextLess(a, b) && !SortKey.TextLess(a, c)
      ensures !SortKey.TextLess(b, c)
    {
      if SortKey.TextLess(b, c) { SortKey.TextLessTransitive(a, b, c); }
    }

    /** `find_download_match`: the candidate's row first, then the tolerance on some location of the path. */
    method FindDownloadMatch(path: string) returns (r: Option<MatchCandidate>)
      requires repository.Valid()
      ensures MatchResult(repository.abs.tables, path, r)
      ensures Consistent(repository.abs) && r.Some? ==>
                Evidenced(repository.abs.raw, r.value.downloadId, r.value.identity, r.value.url, r.value.sourceEventIds,
                          r.value.observedAt)
    {
      hide SamePath, EdgesMatch, SortKey.TextLess, Evidenced, Rebuild;
      JoinRowsCorrespond(path);
      var first := FirstJoinRow(path);
      if first.None? {
        NoJoinRow(path);
        return None;
      }
      var (download, k) := first.value;
      var d, l := repository.pending[download], repository.location[k];
      assert FirstRow(repository.abs.tables, path, download, Logical(k));
      var checked :| checked in repository.location && repository.location[checked].active
          && SamePath(checked.1, d.finalPath);
      assert ActiveOn(repository.abs.tables, Logical(checked), d.finalPath);
      if WholeSeconds(d.observedAt, repository.location[checked].observedAt) > TOLERANCE_SECONDS {
        r := None;
      } else {
        var identity :| identity in repository.artifact && repository.artifact[identity] == k.0;
        r := Some(MatchCandidate(download, identity, d.url, [d.sourceEventId, l.sourceEventId],
                                 if SortKey.TextLess(d.observedAt.text, l.observedAt.text) then l.observedAt
                                 else d.observedAt));
      }
      assert MatchVia(repository.abs.tables, path, download, Logical(k), Logical(checked), r);
      if Consistent(repository.abs) && r.Some? { FoundIsEvidenced(repository.abs.raw, path, r.value); }
    }

    /** `ingest`: two transactions with a lookup in between. A failure of the second would leave the first,
        and does not happen in a consistent store. */
    method Ingest(e: EventEnvelope) returns (r: Result<IngestReport, IngestError>)
      requires repository.Valid()
      modifies repository
      ensures repository.Valid()
      ensures e.schemaVersion != CURRENT_SCHEMA_VERSION ==>
          r == Err(UnsupportedSchema) && repository.abs == old(repository.abs)
      ensures e.schemaVersion == CURRENT_SCHEMA_VERSION && Project(old(repository.abs), e).Err? ==>
          r == Err(RepositoryFailed(Project(old(repository.abs), e).error)) && repository.abs == old(repository.abs)
      ensures e.schemaVersion == CURRENT_SCHEMA_VERSION && Project(old(repository.abs), e).Ok? && r.Err? ==>
          repository.abs == Project(old(repository.abs), e).value.store
      ensures Consistent(old(repository.abs)) ==>
          (r.Ok? <==> e.schemaVersion == CURRENT_SCHEMA_VERSION && Project(old(repository.abs), e).Ok?)
      ensures r.Ok? ==> r.value.outcome == Project(old(repository.abs), e).value.outcome
      ensures r.Ok? ==> exists derived ::
          (Ingested(old(repository.abs), e, repository.abs, derived)
           && r.value.derivedEventIds == if derived.None? then [] else [derived.value.eventId])
    {
      hide MatchResult, ProjectEvent, ApplyChecked, SortKey.Sortable, Advance, SqliteRepository.TablesMatch, Consistent;
      if e.schemaVersion != CURRENT_SCHEMA_VERSION { return Err(UnsupportedSchema); }
      var outcome := repository.AppendWithProjection(e, ProjectEvent(e));
      if outcome.Err? { return Err(RepositoryFailed(outcome.error)); }
      ghost var mid := repository.abs;
      var path := LookupPath(e);
      if path.None? {
        assert Ingested(old(repository.abs), e, repository.abs, None);
        return Ok(IngestReport(outcome.value, []));
      }
      var candidate := FindDownloadMatch(path.value);
      if candidate.None? {
        assert Derives(mid, e, candidate, repository.abs, None);
        assert Ingested(old(repository.abs), e, repository.abs, None);
        return Ok(IngestReport(outcome.value, []));
      }
      var id := NewUuid(Ids(repository.raw));
      var derived := DerivedEvent(e, candidate.value, id);
      var appended := repository.AppendWithProjection(derived, ProjectEvent(derived));
      if Consistent(old(repository.abs)) {
        ExecuteKeepsConsistent(old(repository.abs), AppendEvent(e));
        DerivedAppendSucceeds(mid, e, path.value, candidate.value, id);
      }
      if appended.Err? { return Err(RepositoryFailed(appended.error)); }
      assert Derives(mid, e, candidate, repository.abs, Some(derived));
      assert Ingested(old(repository.abs), e, repository.abs, Some(derived));
      return Ok(IngestReport(outcome.value, [id]));
    }

    /** `ingest_v2`: validation, then one raw append; nothing is projected or derived. */
    method IngestV2(e: EventEnvelopeV2) returns (r: Result<IngestReport, IngestError>)
      requires repository.Valid()
      modifies repository
      ensures repository.Valid()
      ensures r.Ok? <==>
          (e.envelopeVersion == CURRENT_ENVELOPE_VERSION && !Text.Blank(e.eventType) && e.payloadVersion > 0
           && AppendV2(old(repository.abs), e).Ok?)
      ensures r.Ok? ==> repository.abs == AppendV2(old(repository.abs), e).value.store
      ensures r.Ok? ==> r.value == IngestReport(AppendV2(old(repository.abs), e).value.outcome, [])
      ensures r.Err? ==> repository.abs == old(repository.abs)
    {
      hide SortKey.Sortable, Advance, SqliteRepository.TablesMatch, Text.Blank;
      if e.envelopeVersion != CURRENT_ENVELOPE_VERSION { return Err(UnsupportedEnvelopeVersion); }
      if Text.Blank(e.eventType) { return Err(EmptyEventType); }
      if e.payloadVersion == 0 { return Err(InvalidPayloadVersion); }
      var outcome := repository.AppendRawV2(e);
      if outcome.Err? { return Err(RepositoryFailed(outcome.error)); }
      return Ok(IngestReport(outcome.value, []));
    }
  }
}
