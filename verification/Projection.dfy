/**
  The projections of the event log: commands, what each does to the tables, and the fold that rebuilds
  the tables from the log. Artifacts are named by their file identity; the surrogate ids that the
  database gives them are introduced in Repository.
 */
module Projection {
  import opened Wrappers
  import opened Contracts

  datatype ProjectionCommand =
    | UpsertTask(taskId: Id, name: string, startedAt: Time)
    | UpsertArtifactLocation(identity: FileIdentity, path: string, scopeId: string, observedAt: Time,
                             change: FileChange, sourceEventId: Id)
    | StorePendingDownload(downloadId: Id, url: string, referrer: Option<string>, finalPath: string,
                           observedAt: Time, sourceEventId: Id)
    | AddObservedDownloadEdge(downloadId: Id, identity: FileIdentity, url: string, sourceEventIds: seq<Id>,
                              observedAt: Time)
    | RecordCollectorGap(collector: string, lastSequence: Option<nat>, reason: string, observedAt: Time)

  /** `project_event`. */
  function ProjectEvent(e: EventEnvelope): seq<ProjectionCommand> {
    match e.payload
    case TaskStarted(taskId, name) => [UpsertTask(taskId, name, e.observedAt)]
    case FileObserved(identity, path, change) =>
      [UpsertArtifactLocation(identity, path, e.scopeId, e.observedAt, change, e.eventId)]
    case BrowserDownloadObserved(downloadId, url, referrer, finalPath) =>
      [StorePendingDownload(downloadId, url, referrer, finalPath, e.observedAt, e.eventId)]
    case ContentObserved(_) => []
    case DownloadMatched(downloadId, identity, url, sourceEventIds) =>
      [AddObservedDownloadEdge(downloadId, identity, url, sourceEventIds, e.observedAt)]
    case CollectorGap(collector, lastSequence, reason) =>
      [RecordCollectorGap(collector, lastSequence, reason, e.observedAt)]
  }

  // ---------------------------------------------------------------- tables

  datatype TaskRow = TaskRow(name: string, startedAt: Time)
  datatype LocationRow = LocationRow(scopeId: string, observedAt: Time, active: bool, lastChange: FileChange,
                                     sourceEventId: Id)
  datatype PendingRow = PendingRow(
    url: string, referrer: Option<string>, finalPath: string, observedAt: Time, sourceEventId: Id,
    matchedAt: Option<Time>)
  datatype EdgeRow = EdgeRow(evidence: seq<Id>, createdAt: Time)
  datatype GapRow = GapRow(collector: string, lastSequence: Option<nat>, reason: string, observedAt: Time)

  datatype Tables = Tables(
    tasks: map<Id, TaskRow>,
    artifacts: set<FileIdentity>,
    locations: map<(FileIdentity, string), LocationRow>,
    pending: map<Id, PendingRow>,
    edges: map<(FileIdentity, string), EdgeRow>,
    gaps: seq<GapRow>)

  const EMPTY := Tables(map[], {}, map[], map[], map[], [])

  function Deactivate(locations: map<(FileIdentity, string), LocationRow>, identity: FileIdentity)
    : map<(FileIdentity, string), LocationRow>
  {
    map k | k in locations :: if k.0 == identity then locations[k].(active := false) else locations[k]
  }

  function Apply(t: Tables, command: ProjectionCommand): Tables {
    match command
    case UpsertTask(taskId, name, startedAt) =>
      var row := if taskId in t.tasks then t.tasks[taskId].(name := name) else TaskRow(name, startedAt);
      t.(tasks := t.tasks[taskId := row])
    case UpsertArtifactLocation(identity, path, scopeId, observedAt, Deleted, sourceEventId) =>
      if identity in t.artifacts && (identity, path) in t.locations then
        t.(locations := t.locations[(identity, path) :=
             t.locations[(identity, path)].(observedAt := observedAt, active := false, lastChange := Deleted,
                                            sourceEventId := sourceEventId)])
      else t
    case UpsertArtifactLocation(identity, path, scopeId, observedAt, change, sourceEventId) =>
      t.(artifacts := t.artifacts + {identity},
         locations := Deactivate(t.locations, identity)[
           (identity, path) := LocationRow(scopeId, observedAt, true, change, sourceEventId)])
    case StorePendingDownload(downloadId, url, referrer, finalPath, observedAt, sourceEventId) =>
      t.(pending := t.pending[downloadId := PendingRow(url, referrer, finalPath, observedAt, sourceEventId, None)])
    case AddObservedDownloadEdge(downloadId, identity, url, sourceEventIds, observedAt) =>
      t.(artifacts := t.artifacts + {identity},
         edges := if (identity, url) in t.edges then t.edges
                  else t.edges[(identity, url) := EdgeRow(sourceEventIds, observedAt)],
         pending := if downloadId in t.pending
                    then t.pending[downloadId := t.pending[downloadId].(matchedAt := Some(observedAt))]
                    else t.pending)
    case RecordCollectorGap(collector, lastSequence, reason, observedAt) =>
      t.(gaps := t.gaps + [GapRow(collector, lastSequence, reason, observedAt)])
  }

  function ApplyAll(t: Tables, commands: seq<ProjectionCommand>): Tables {
    if |commands| == 0 then t else Apply(ApplyAll(t, commands[..|commands| - 1]), commands[|commands| - 1])
  }

  /** What one stored row contributes; v2 rows are raw evidence only. */
  function Contribute(t: Tables, row: RawRow): Tables {
    match row case V1(e) => ApplyAll(t, ProjectEvent(e)) case V2(_) => t
  }

  /** The projection of a log: a fold over its rows in insertion order. */
  function Rebuild(raw: seq<RawRow>): Tables {
    if |raw| == 0 then EMPTY else Contribute(Rebuild(raw[..|raw| - 1]), raw[|raw| - 1])
  }

  // ---------------------------------------------------------------- what every projection satisfies

  /** An artifact has at most one active location. */
  ghost predicate OneActive(locations: map<(FileIdentity, string), LocationRow>) {
    forall i, p, q :: (i, p) in locations && (i, q) in locations && locations[(i, p)].active && locations[(i, q)].active
      ==> p == q
  }

  /** One active location per artifact, and locations and edges only of known artifacts. */
  ghost predicate Sound(t: Tables) {
    && OneActive(t.locations)
    && (forall k <- t.locations :: k.0 in t.artifacts)
    && (forall k <- t.edges :: k.0 in t.artifacts)
  }

  /** Replacing one row of a key that stays inactive, or whose artifact is otherwise inactive, keeps one active. */
  lemma ReplaceKeepsOneActive(locations: map<(FileIdentity, string), LocationRow>, identity: FileIdentity,
                              path: string, row: LocationRow)
    requires OneActive(locations)
    requires row.active ==> forall p :: (identity, p) in locations && p != path ==> !locations[(identity, p)].active
    ensures OneActive(locations[(identity, path) := row])
  {
    var after := locations[(identity, path) := row];
    forall i, p, q | (i, p) in after && (i, q) in after && after[(i, p)].active && after[(i, q)].active
      ensures p == q
    {
      if (i, p) != (identity, path) { assert (i, p) in locations; }
      if (i, q) != (identity, path) { assert (i, q) in locations; }
    }
  }

  lemma ApplyKeepsSound(t: Tables, command: ProjectionCommand)
    requires Sound(t)
    ensures Sound(Apply(t, command))
  {
    hide OneActive;
    match command
    case UpsertArtifactLocation(_, _, _, _, _, _) => ObservationKeepsOneActive(t, command);
    case _ =>
  }

  lemma ObservationKeepsOneActive(t: Tables, command: ProjectionCommand)
    requires OneActive(t.locations) && command.UpsertArtifactLocation?
    ensures OneActive(Apply(t, command).locations)
  {
    var UpsertArtifactLocation(identity, path, scopeId, observedAt, change, sourceEventId) := command;
    ReplaceKeepsOneActive(Deactivate(t.locations, identity), identity, path,
                          LocationRow(scopeId, observedAt, true, change, sourceEventId));
    ReplaceKeepsOneActive(t.locations, identity, path, LocationRow(
      if (identity, path) in t.locations then t.locations[(identity, path)].scopeId else scopeId,
      observedAt, false, Deleted, sourceEventId));
  }

  lemma {:induction false} RebuildIsSound(raw: seq<RawRow>)
    ensures Sound(Rebuild(raw))
  {
    if |raw| > 0 {
      var before := Rebuild(raw[..|raw| - 1]);
      RebuildIsSound(raw[..|raw| - 1]);
      match raw[|raw| - 1]
      case V1(e) => ApplyProjected(before, e); if |ProjectEvent(e)| > 0 { ApplyKeepsSound(before, ProjectEvent(e)[0]); }
      case V2(_) =>
    }
  }

  /** An event has at most one command. */
  lemma ApplyProjected(t: Tables, e: EventEnvelope)
    ensures |ProjectEvent(e)| <= 1
    ensures ApplyAll(t, ProjectEvent(e)) == if |ProjectEvent(e)| == 0 then t else Apply(t, ProjectEvent(e)[0])
  {
    var commands := ProjectEvent(e);
    if |commands| == 1 { assert commands[..0] == []; assert ApplyAll(t, commands[..0]) == t; }
  }

  /** Row `row` is a stored match of this identity with this URL. */
  predicate Backs(row: RawRow, identity: FileIdentity, url: string) {
    row.V1? && row.event.payload.DownloadMatched?
    && row.event.payload.identity == identity && row.event.payload.url == url
  }

  lemma EdgeStep(t: Tables, row: RawRow, identity: FileIdentity, url: string)
    ensures (identity, url) in Contribute(t, row).edges <==> (identity, url) in t.edges || Backs(row, identity, url)
    ensures (identity, url) in t.edges ==> Contribute(t, row).edges[(identity, url)] == t.edges[(identity, url)]
    ensures (identity, url) !in t.edges && Backs(row, identity, url) ==>
        Contribute(t, row).edges[(identity, url)] == EdgeRow(row.event.payload.sourceEventIds, row.event.observedAt)
  {
    hide Deactivate;
    if row.V1? { ApplyProjected(t, row.event); }
  }

  /** The edges are exactly the matches in the log. */
  lemma {:induction false} EdgesAreBacked(raw: seq<RawRow>, identity: FileIdentity, url: string)
    ensures (identity, url) in Rebuild(raw).edges <==> exists row :: row in raw && Backs(row, identity, url)
  {
    hide Contribute, Backs;
    if |raw| > 0 {
      var init, last := raw[..|raw| - 1], raw[|raw| - 1];
      EdgesAreBacked(init, identity, url);
      assert forall row :: row in raw <==> row in init || row == last;
      EdgeStep(Rebuild(init), last, identity, url);
    }
  }

  /** An edge keeps the evidence of the first match that stated it. */
  lemma {:induction false} EdgeEvidenceIsFirst(raw: seq<RawRow>, identity: FileIdentity, url: string) returns (k: nat)
    requires (identity, url) in Rebuild(raw).edges
    ensures k < |raw| && Backs(raw[k], identity, url)
    ensures forall j :: 0 <= j < k ==> !Backs(raw[j], identity, url)
    ensures Rebuild(raw).edges[(identity, url)] == EdgeRow(raw[k].event.payload.sourceEventIds, raw[k].event.observedAt)
  {
    hide Contribute;
    var init, last := raw[..|raw| - 1], raw[|raw| - 1];
    EdgeStep(Rebuild(init), last, identity, url);
    if (identity, url) in Rebuild(init).edges {
      k := EdgeEvidenceIsFirst(init, identity, url);
    } else {
      EdgesAreBacked(init, identity, url);
      assert forall j :: 0 <= j < |init| ==> init[j] in init;
      k := |raw| - 1;
    }
  }
}
