/**
  What the rebuilt tables hold, told from the payloads of the stored events alone: which event each row and
  each of its fields comes from.
 */
module RebuiltTables {
  import opened Wrappers
  import opened Contracts
  import opened Projection

  // ---------------------------------------------------------------- events of one kind

  /** What an event may be about. A file is found by any observation but a deletion, and seen by every one. */
  datatype Kind =
    | TaskOf(taskId: Id)
    | DownloadOf(downloadId: Id)
    | MatchOf(downloadId: Id)
    | MatchedAs(identity: FileIdentity)
    | FoundAs(identity: FileIdentity)
    | FoundAt(identity: FileIdentity, path: string)
    | SeenAt(identity: FileIdentity, path: string)

  predicate Is(row: RawRow, kind: Kind) {
    && row.V1?
    && var p := row.event.payload;
       match kind
       case TaskOf(id) => p.TaskStarted? && p.taskId == id
       case DownloadOf(id) => p.BrowserDownloadObserved? && p.downloadId == id
       case MatchOf(id) => p.DownloadMatched? && p.downloadId == id
       case MatchedAs(identity) => p.DownloadMatched? && p.identity == identity
       case FoundAs(identity) => p.FileObserved? && p.identity == identity && p.change != Deleted
       case FoundAt(identity, path) => p.FileObserved? && p.identity == identity && p.path == path
           && p.change != Deleted
       case SeenAt(identity, path) => p.FileObserved? && p.identity == identity && p.path == path
  }

  /** The position of the last event of a kind. */
  function Last(raw: seq<RawRow>, kind: Kind): (r: Option<nat>)
    ensures r.Some? ==> r.value < |raw| && Is(raw[r.value], kind)
    ensures forall i :: 0 <= i < |raw| && Is(raw[i], kind) ==> r.Some? && i <= r.value
  {
    if |raw| == 0 then None
    else if Is(raw[|raw| - 1], kind) then Some(|raw| - 1)
    else Last(raw[..|raw| - 1], kind)
  }

  /** The position of the first event of a kind. */
  function First(raw: seq<RawRow>, kind: Kind): (r: Option<nat>)
    ensures r.Some? ==> r.value < |raw| && Is(raw[r.value], kind)
    ensures forall i :: 0 <= i < |raw| && Is(raw[i], kind) ==> r.Some? && r.value <= i
  {
    if |raw| == 0 then None
    else
      var earlier := First(raw[..|raw| - 1], kind);
      if earlier.Some? then earlier else if Is(raw[|raw| - 1], kind) then Some(|raw| - 1) else None
  }

  // ---------------------------------------------------------------- tasks

  /** A task has the name of its last start and the time of its first. */
  lemma {:induction false} TaskRows(raw: seq<RawRow>, id: Id)
    ensures id in Rebuild(raw).tasks <==> Last(raw, TaskOf(id)).Some?
    ensures id in Rebuild(raw).tasks ==>
              && First(raw, TaskOf(id)).Some?
              && Rebuild(raw).tasks[id].name == raw[Last(raw, TaskOf(id)).value].event.payload.name
              && Rebuild(raw).tasks[id].startedAt == raw[First(raw, TaskOf(id)).value].event.observedAt
  {
    hide Apply;
    if |raw| > 0 {
      TaskRows(raw[..|raw| - 1], id);
      TaskStep(Rebuild(raw[..|raw| - 1]), raw[|raw| - 1], id);
    }
  }

  lemma TaskStep(t: Tables, row: RawRow, id: Id)
    ensures var after := Contribute(t, row);
      if Is(row, TaskOf(id))
      then && id in after.tasks && after.tasks[id].name == row.event.payload.name
           && after.tasks[id].startedAt == (if id in t.tasks then t.tasks[id].startedAt else row.event.observedAt)
      else (id in after.tasks <==> id in t.tasks) && (id in t.tasks ==> after.tasks[id] == t.tasks[id])
  {
    hide Deactivate;
    if row.V1? { ApplyProjected(t, row.event); }
  }

  // ---------------------------------------------------------------- pending downloads

  /** When the download last observed at `i` was matched after that, if it was. */
  function MatchedSince(raw: seq<RawRow>, id: Id, i: nat): Option<Time> {
    var k := Last(raw, MatchOf(id));
    if k.Some? && k.value > i then Some(raw[k.value].event.observedAt) else None
  }

  /** A pending row carries the last observation of its download, and is unmatched unless a match follows that. */
  lemma {:induction false} PendingRows(raw: seq<RawRow>, id: Id)
    ensures id in Rebuild(raw).pending <==> Last(raw, DownloadOf(id)).Some?
    ensures id in Rebuild(raw).pending ==>
              var i := Last(raw, DownloadOf(id)).value; var e := raw[i].event; var row := Rebuild(raw).pending[id];
              && row.url == e.payload.url && row.referrer == e.payload.referrer && row.finalPath == e.payload.finalPath
              && row.observedAt == e.observedAt && row.sourceEventId == e.eventId
              && row.matchedAt == MatchedSince(raw, id, i)
  {
    hide Apply;
    if |raw| > 0 {
      PendingRows(raw[..|raw| - 1], id);
      PendingStep(Rebuild(raw[..|raw| - 1]), raw[|raw| - 1], id);
    }
  }

  lemma PendingStep(t: Tables, row: RawRow, id: Id)
    ensures var after := Contribute(t, row);
      if Is(row, DownloadOf(id))
      then
        && id in after.pending
        && after.pending[id] == PendingRow(row.event.payload.url, row.event.payload.referrer,
                                           row.event.payload.finalPath,
                                           row.event.observedAt, row.event.eventId, None)
      else
        && (id in after.pending <==> id in t.pending)
        && (id in t.pending ==>
              after.pending[id] == if Is(row, MatchOf(id)) then t.pending[id].(matchedAt := Some(row.event.observedAt))
                                   else t.pending[id])
  {
    if row.V1? {
      hide Apply;
      ApplyProjected(t, row.event);
      if |ProjectEvent(row.event)| == 1 { PendingCommand(t, row.event, id); }
    }
  }

  lemma PendingCommand(t: Tables, e: EventEnvelope, id: Id)
    requires |ProjectEvent(e)| == 1
    ensures var after, p := Apply(t, ProjectEvent(e)[0]).pending, e.payload;
      if p.BrowserDownloadObserved? && p.downloadId == id
      then
        id in after && after[id] == PendingRow(p.url, p.referrer, p.finalPath, e.observedAt, e.eventId, None)
      else
        && (id in after <==> id in t.pending)
        && (id in t.pending ==>
              after[id] == if p.DownloadMatched? && p.downloadId == id
                           then t.pending[id].(matchedAt := Some(e.observedAt)) else t.pending[id])
  {
    hide Deactivate;
  }

  // ---------------------------------------------------------------- gaps

  /** The stored gap events, in order. */
  function Gaps(raw: seq<RawRow>): seq<EventEnvelope> {
    if |raw| == 0 then []
    else
      var row := raw[|raw| - 1];
      Gaps(raw[..|raw| - 1]) + (if row.V1? && row.event.payload.CollectorGap? then [row.event] else [])
  }

  /** The gap table has one row for each stored gap event, in order, with what the event says. */
  lemma {:induction false} GapRows(raw: seq<RawRow>)
    ensures |Rebuild(raw).gaps| == |Gaps(raw)|
    ensures forall k :: 0 <= k < |Gaps(raw)| ==>
              && Gaps(raw)[k].payload.CollectorGap?
              && Rebuild(raw).gaps[k].collector == Gaps(raw)[k].payload.collector
              && Rebuild(raw).gaps[k].lastSequence == Gaps(raw)[k].payload.lastSequence
              && Rebuild(raw).gaps[k].reason == Gaps(raw)[k].payload.reason
              && Rebuild(raw).gaps[k].observedAt == Gaps(raw)[k].observedAt
  {
    hide Contribute;
    if |raw| > 0 {
      GapRows(raw[..|raw| - 1]);
      GapStep(Rebuild(raw[..|raw| - 1]), raw[|raw| - 1]);
    }
  }

  lemma GapStep(t: Tables, row: RawRow)
    ensures Contribute(t, row).gaps == t.gaps +
              (if row.V1? && row.event.payload.CollectorGap?
               then [GapRow(row.event.payload.collector, row.event.payload.lastSequence, row.event.payload.reason,
                            row.event.observedAt)]
               else [])
  {
    hide Deactivate;
    if row.V1? { ApplyProjected(t, row.event); }
  }

  // ---------------------------------------------------------------- artifacts and locations

  /** An artifact is a file that was found or matched. */
  lemma {:induction false} ArtifactRows(raw: seq<RawRow>, identity: FileIdentity)
    ensures identity in Rebuild(raw).artifacts <==>
            Last(raw, FoundAs(identity)).Some? || Last(raw, MatchedAs(identity)).Some?
  {
    hide Apply;
    if |raw| > 0 {
      ArtifactRows(raw[..|raw| - 1], identity);
      ArtifactStep(Rebuild(raw[..|raw| - 1]), raw[|raw| - 1], identity);
    }
  }

  lemma ArtifactStep(t: Tables, row: RawRow, identity: FileIdentity)
    ensures identity in Contribute(t, row).artifacts <==>
            identity in t.artifacts || Is(row, FoundAs(identity)) || Is(row, MatchedAs(identity))
  {
    if row.V1? {
      hide Apply;
      ApplyProjected(t, row.event);
      if |ProjectEvent(row.event)| == 1 { ArtifactCommand(t, row.event, identity); }
    }
  }

  lemma ArtifactCommand(t: Tables, e: EventEnvelope, identity: FileIdentity)
    requires |ProjectEvent(e)| == 1
    ensures var p := e.payload;
      identity in Apply(t, ProjectEvent(e)[0]).artifacts <==>
      || identity in t.artifacts
      || (p.FileObserved? && p.identity == identity && p.change != Deleted)
      || (p.DownloadMatched? && p.identity == identity)
  {
    hide Deactivate;
  }

  /** A location row exists once the file was found there. Its scope is that of the last finding, and its time, change
      and source those of the last observation. It is active if that was a finding, and the file was found nowhere
      else since. */
  lemma {:induction false} LocationRows(raw: seq<RawRow>, identity: FileIdentity, path: string)
    ensures (identity, path) in Rebuild(raw).locations <==> Last(raw, FoundAt(identity, path)).Some?
    ensures (identity, path) in Rebuild(raw).locations ==>
              var row := Rebuild(raw).locations[(identity, path)];
              var found, seen := Last(raw, FoundAt(identity, path)), Last(raw, SeenAt(identity, path));
              && seen.Some? && row.scopeId == raw[found.value].event.scopeId
              && row.observedAt == raw[seen.value].event.observedAt
              && row.lastChange == raw[seen.value].event.payload.change
              && row.sourceEventId == raw[seen.value].event.eventId
              && (row.active <==> seen == found == Last(raw, FoundAs(identity)))
  {
    hide Apply;
    if |raw| > 0 {
      var init, last := raw[..|raw| - 1], raw[|raw| - 1];
      LocationRows(init, identity, path);
      RebuildIsSound(init);
      LocationStep(Rebuild(init), last, identity, path);
    }
  }

  lemma LocationStep(t: Tables, row: RawRow, identity: FileIdentity, path: string)
    requires Sound(t)
    ensures var after, k := Contribute(t, row).locations, (identity, path);
      if Is(row, FoundAt(identity, path))
      then
        && k in after
        && after[k] == LocationRow(row.event.scopeId, row.event.observedAt, true, row.event.payload.change,
                                   row.event.eventId)
      else
        && (k in after <==> k in t.locations)
        && (k in t.locations ==>
              after[k] ==
              if Is(row, SeenAt(identity, path))
              then t.locations[k].(observedAt := row.event.observedAt, active := false, lastChange := Deleted,
                                   sourceEventId := row.event.eventId)
              else if Is(row, FoundAs(identity)) then t.locations[k].(active := false)
              else t.locations[k])
  {
    if row.V1? {
      hide Apply, Deactivate;
      ApplyProjected(t, row.event);
      if row.event.payload.FileObserved? {
        ObservationStep(t, row.event, identity, path);
      } else if |ProjectEvent(row.event)| == 1 {
        OtherStep(t, row.event);
      }
    }
  }

  lemma OtherStep(t: Tables, e: EventEnvelope)
    requires !e.payload.FileObserved? && |ProjectEvent(e)| == 1
    ensures Apply(t, ProjectEvent(e)[0]).locations == t.locations
  {
  }

  lemma ObservationStep(t: Tables, e: EventEnvelope, identity: FileIdentity, path: string)
    requires Sound(t) && e.payload.FileObserved?
    ensures var after, k := Apply(t, ProjectEvent(e)[0]).locations, (identity, path);
      var here := e.payload.identity == identity && e.payload.path == path;
      if here && e.payload.change != Deleted
      then k in after && after[k] == LocationRow(e.scopeId, e.observedAt, true, e.payload.change, e.eventId)
      else
        && (k in after <==> k in t.locations)
        && (k in t.locations ==>
              after[k] ==
              if here
              then t.locations[k].(observedAt := e.observedAt, active := false, lastChange := Deleted,
                                   sourceEventId := e.eventId)
              else if e.payload.identity == identity && e.payload.change != Deleted
              then t.locations[k].(active := false)
              else t.locations[k])
  {
  }
}
