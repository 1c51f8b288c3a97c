/**
  The SQLite repository: tables keyed by surrogate artifact ids, updated statement by statement inside
  transactions, and proved to carry out the transactions of EventLog.
 */
module Repository {
  import opened Wrappers
  import opened Contracts
  import opened Projection
  import opened EventLog
  import SortKey

  lemma {:induction false} SomeUnusedId(used: set<Id>) returns (bound: Id)
    ensures forall id <- used :: id < bound
  {
    if used == {} {
      bound := 0;
    } else {
      var id :| id in used;
      var rest := SomeUnusedId(used - {id});
      bound := if id < rest then rest else id + 1;
      assert forall other <- used :: other == id || other in used - {id};
    }
  }

  /** `Uuid::now_v7`: some id that is not in use. */
  method NewUuid(used: set<Id>) returns (id: Id)
    ensures id !in used
  {
    ghost var bound := SomeUnusedId(used);
    assert bound !in used;
    id :| id !in used;
  }

  /** Surrogate ids and identities correspond one to one. */
  ghost predicate OwnerIsInverse(artifact: map<FileIdentity, Id>, owner: map<Id, FileIdentity>) {
    && (forall i <- artifact :: artifact[i] in owner && owner[artifact[i]] == i)
    && (forall a <- owner :: owner[a] in artifact && artifact[owner[a]] == a)
  }

  ghost predicate LocationsMatch(artifact: map<FileIdentity, Id>, owner: map<Id, FileIdentity>,
                                 location: map<(Id, string), LocationRow>, view: map<(FileIdentity, string),
                                     LocationRow>)
  {
    && (forall k <- location :: k.0 in owner && (owner[k.0], k.1) in view && view[(owner[k.0], k.1)] == location[k])
    && (forall k <- view :: k.0 in artifact && (artifact[k.0], k.1) in location)
  }

  ghost predicate EdgesMatch(artifact: map<FileIdentity, Id>, owner: map<Id, FileIdentity>,
                             edge: map<(Id, string), EdgeRow>, view: map<(FileIdentity, string), EdgeRow>)
  {
    && (forall k <- edge :: k.0 in owner && (owner[k.0], k.1) in view && view[(owner[k.0], k.1)] == edge[k])
    && (forall k <- view :: k.0 in artifact && (artifact[k.0], k.1) in edge)
  }

  lemma LocationRowMatches(artifact: map<FileIdentity, Id>, owner: map<Id, FileIdentity>,
                           location: map<(Id, string), LocationRow>, view: map<(FileIdentity, string), LocationRow>,
                           identity: FileIdentity, path: string, row: LocationRow)
    requires OwnerIsInverse(artifact, owner) && LocationsMatch(artifact, owner, location, view) && identity in artifact
    ensures LocationsMatch(artifact, owner, location[(artifact[identity], path) := row], view[(identity, path) := row])
    ensures (artifact[identity], path) in location <==> (identity, path) in view
    ensures (identity, path) in view ==> location[(artifact[identity], path)] == view[(identity, path)]
  {
  }

  lemma DeactivationMatches(artifact: map<FileIdentity, Id>, owner: map<Id, FileIdentity>,
                            location: map<(Id, string), LocationRow>, view: map<(FileIdentity, string), LocationRow>,
                            identity: FileIdentity)
    requires OwnerIsInverse(artifact, owner) && LocationsMatch(artifact, owner, location, view) && identity in artifact
    ensures LocationsMatch(artifact, owner,
              map k | k in location :: if k.0 == artifact[identity] then location[k].(active := false) else location[k],
              Deactivate(view, identity))
  {
  }

  lemma EdgeRowMatches(artifact: map<FileIdentity, Id>, owner: map<Id, FileIdentity>,
                       edge: map<(Id, string), EdgeRow>, view: map<(FileIdentity, string), EdgeRow>,
                       identity: FileIdentity, url: string, row: EdgeRow)
    requires OwnerIsInverse(artifact, owner) && EdgesMatch(artifact, owner, edge, view) && identity in artifact
    ensures EdgesMatch(artifact, owner, edge[(artifact[identity], url) := row], view[(identity, url) := row])
    ensures (artifact[identity], url) in edge <==> (identity, url) in view
  {
  }

  /** The physical tables, as a transaction finds them and as a rollback leaves them. */
  datatype Physical = Physical(
    raw: seq<RawRow>, checkpoint: map<CollectorKey, Checkpoint>, task: map<Id, TaskRow>,
    artifact: map<FileIdentity, Id>, location: map<(Id, string), LocationRow>, pending: map<Id, PendingRow>,
    edge: map<(Id, string), EdgeRow>, gap: seq<GapRow>)

  /** The physical tables, with surrogate ids resolved through `owner`, hold the tables `t`. */
  ghost predicate Represents(p: Physical, owner: map<Id, FileIdentity>, t: Tables) {
    && p.task == t.tasks && p.pending == t.pending && p.gap == t.gaps
    && p.artifact.Keys == t.artifacts
    && OwnerIsInverse(p.artifact, owner)
    && LocationsMatch(p.artifact, owner, p.location, t.locations)
    && EdgesMatch(p.artifact, owner, p.edge, t.edges)
  }

  class SqliteRepository {
    var raw: seq<RawRow>
    var checkpoint: map<CollectorKey, Checkpoint>
    var task: map<Id, TaskRow>
    var artifact: map<FileIdentity, Id>
    var location: map<(Id, string), LocationRow>
    var pending: map<Id, PendingRow>
    var edge: map<(Id, string), EdgeRow>
    var gap: seq<GapRow>

    /** The artifact behind each surrogate id, and the store these tables represent. */
    ghost var owner: map<Id, FileIdentity>
    ghost var abs: Store

    function Snapshot(): Physical
      reads this
    {
      Physical(raw, checkpoint, task, artifact, location, pending, edge, gap)
    }

    ghost predicate TablesMatch()
      reads this
    {
      Represents(Snapshot(), owner, abs.tables)
    }

    ghost predicate Valid()
      reads this
    {
      raw == abs.raw && checkpoint == abs.checkpoints && TablesMatch()
    }

    constructor ()
      ensures Valid() && abs == NEW_STORE
    {
      raw, checkpoint, task, artifact, location, pending, edge, gap := [], map[], map[], map[], map[], map[], map[], [];
      owner, abs := map[], NEW_STORE;
    }

    // -------------------------------------------------------------- statements

    method GetOrCreateArtifact(identity: FileIdentity) returns (artifactId: Id)
      requires TablesMatch()
      modifies this`artifact, this`owner, this`abs
      ensures TablesMatch()
      ensures identity in artifact && artifact[identity] == artifactId
      ensures abs == old(abs).(tables := old(abs.tables).(artifacts := old(abs.tables.artifacts) + {identity}))
      ensures forall i <- old(artifact) :: i in artifact && artifact[i] == old(artifact)[i]
    {
      if identity in artifact {
        assert abs.tables.artifacts + {identity} == abs.tables.artifacts;
        return artifact[identity];
      }
      artifactId := NewUuid(artifact.Values);
      assert artifactId !in owner;
      artifact := artifact[identity := artifactId];
      owner := owner[artifactId := identity];
      abs := abs.(tables := abs.tables.(artifacts := abs.tables.artifacts + {identity}));
    }

    method UpsertTaskRow(command: ProjectionCommand)
      requires command.UpsertTask? && TablesMatch()
      modifies this`task, this`abs
      ensures TablesMatch() && abs == old(abs).(tables := Apply(old(abs.tables), command))
    {
      hide OwnerIsInverse, LocationsMatch, EdgesMatch;
      var UpsertTask(taskId, name, startedAt) := command;
      if taskId in task {
        task := task[taskId := task[taskId].(name := name)];
      } else {
        task := task[taskId := TaskRow(name, startedAt)];
      }
      abs := abs.(tables := Apply(abs.tables, command));
    }

    method MarkLocationDeleted(command: ProjectionCommand)
      requires command.UpsertArtifactLocation? && command.change == Deleted && TablesMatch()
      modifies this`location, this`abs
      ensures TablesMatch() && abs == old(abs).(tables := Apply(old(abs.tables), command))
    {
      hide OwnerIsInverse, LocationsMatch, EdgesMatch;
      var UpsertArtifactLocation(identity, path, _, observedAt, change, sourceEventId) := command;
      if identity in artifact {
        var key := (artifact[identity], path);
        ghost var view := abs.tables.locations;
        if key in location {
          LocationRowMatches(artifact, owner, location, view, identity, path, location[key].(
            observedAt := observedAt, active := false, lastChange := change, sourceEventId := sourceEventId));
          location := location[key := location[key].(
            observedAt := observedAt, active := false, lastChange := change, sourceEventId := sourceEventId)];
        } else {
          LocationRowMatches(artifact, owner, location, view, identity, path,
                             LocationRow("", observedAt, false, change, 0));
        }
      }
      abs := abs.(tables := Apply(abs.tables, command));
    }

    method DeactivateLocations(artifactId: Id, ghost identity: FileIdentity)
      requires TablesMatch() && identity in artifact && artifact[identity] == artifactId
      modifies this`location, this`abs
      ensures TablesMatch()
      ensures abs == old(abs).(tables := old(abs.tables).(locations := Deactivate(old(abs.tables.locations), identity)))
    {
      hide OwnerIsInverse, LocationsMatch, EdgesMatch, Deactivate;
      DeactivationMatches(artifact, owner, location, abs.tables.locations, identity);
      location := map k | k in location :: if k.0 == artifactId then location[k].(active := false) else location[k];
      abs := abs.(tables := abs.tables.(locations := Deactivate(abs.tables.locations, identity)));
    }

    method UpsertLocationRow(artifactId: Id, path: string, row: LocationRow, ghost identity: FileIdentity)
      requires TablesMatch() && identity in artifact && artifact[identity] == artifactId
      modifies this`location, this`abs
      ensures TablesMatch()
      ensures abs == old(abs).(tables := old(abs.tables).(
                                 locations := old(abs.tables.locations)[(identity, path) := row]))
    {
      hide OwnerIsInverse, LocationsMatch, EdgesMatch;
      LocationRowMatches(artifact, owner, location, abs.tables.locations, identity, path, row);
      location := location[(artifactId, path) := row];
      abs := abs.(tables := abs.tables.(locations := abs.tables.locations[(identity, path) := row]));
    }

    method UpsertLocation(command: ProjectionCommand)
      requires command.UpsertArtifactLocation? && TablesMatch()
      modifies this`artifact, this`owner, this`location, this`abs
      ensures TablesMatch() && abs == old(abs).(tables := Apply(old(abs.tables), command))
    {
      hide Deactivate, LocationsMatch, EdgesMatch, OwnerIsInverse;
      var UpsertArtifactLocation(identity, path, scopeId, observedAt, change, sourceEventId) := command;
      if change == Deleted {
        MarkLocationDeleted(command);
        return;
      }
      var artifactId := GetOrCreateArtifact(identity);
      DeactivateLocations(artifactId, identity);
      UpsertLocationRow(artifactId, path, LocationRow(scopeId, observedAt, true, change, sourceEventId), identity);
    }

    method StorePending(command: ProjectionCommand)
      requires command.StorePendingDownload? && TablesMatch()
      modifies this`pending, this`abs
      ensures TablesMatch() && abs == old(abs).(tables := Apply(old(abs.tables), command))
    {
      hide OwnerIsInverse, LocationsMatch, EdgesMatch;
      var StorePendingDownload(downloadId, url, referrer, finalPath, observedAt, sourceEventId) := command;
      pending := pending[downloadId := PendingRow(url, referrer, finalPath, observedAt, sourceEventId, None)];
      abs := abs.(tables := Apply(abs.tables, command));
    }

    method InsertEdgeRow(artifactId: Id, url: string, row: EdgeRow, ghost identity: FileIdentity)
      requires TablesMatch() && identity in artifact && artifact[identity] == artifactId
      modifies this`edge, this`abs
      ensures TablesMatch()
      ensures abs == old(abs).(tables := old(abs.tables).(edges :=
                if (identity, url) in old(abs.tables.edges) then old(abs.tables.edges)
                else old(abs.tables.edges)[(identity, url) := row]))
    {
      hide OwnerIsInverse, LocationsMatch, EdgesMatch;
      EdgeRowMatches(artifact, owner, edge, abs.tables.edges, identity, url, row);
      if (artifactId, url) !in edge {
        edge := edge[(artifactId, url) := row];
      }
      abs := abs.(tables := abs.tables.(edges :=
        if (identity, url) in abs.tables.edges then abs.tables.edges else abs.tables.edges[(identity, url) := row]));
    }

    method AddDownloadEdge(command: ProjectionCommand)
      requires command.AddObservedDownloadEdge? && TablesMatch()
      modifies this`artifact, this`owner, this`edge, this`pending, this`abs
      ensures TablesMatch() && abs == old(abs).(tables := Apply(old(abs.tables), command))
    {
      hide LocationsMatch, EdgesMatch, OwnerIsInverse;
      var AddObservedDownloadEdge(downloadId, identity, url, sourceEventIds, observedAt) := command;
      var artifactId := GetOrCreateArtifact(identity);
      InsertEdgeRow(artifactId, url, EdgeRow(sourceEventIds, observedAt), identity);
      MarkMatched(downloadId, observedAt);
    }

    method MarkMatched(downloadId: Id, observedAt: Time)
      requires TablesMatch()
      modifies this`pending, this`abs
      ensures TablesMatch()
      ensures abs == old(abs).(tables := old(abs.tables).(pending :=
                if downloadId in old(abs.tables.pending)
                then
                  old(abs.tables.pending)[
                    downloadId := old(abs.tables.pending)[downloadId].(matchedAt := Some(observedAt))]
                else old(abs.tables.pending)))
    {
      hide OwnerIsInverse, LocationsMatch, EdgesMatch;
      if downloadId in pending {
        pending := pending[downloadId := pending[downloadId].(matchedAt := Some(observedAt))];
      }
      abs := abs.(tables := abs.tables.(pending := pending));
    }

    /** `apply_command`; the one failing statement binds a gap's sequence number. */
    method ApplyCommand(command: ProjectionCommand) returns (ok: bool)
      requires TablesMatch()
      modifies this`task, this`artifact, this`owner, this`location, this`pending, this`edge, this`gap, this`abs
      ensures ok == CommandBindable(command)
      ensures ok ==> TablesMatch() && abs == old(abs).(tables := Apply(old(abs.tables), command))
    {
      hide Deactivate, LocationsMatch, EdgesMatch, OwnerIsInverse;
      match command {
        case UpsertTask(_, _, _) => UpsertTaskRow(command);
        case UpsertArtifactLocation(_, _, _, _, _, _) => UpsertLocation(command);
        case StorePendingDownload(_, _, _, _, _, _) => StorePending(command);
        case AddObservedDownloadEdge(_, _, _, _, _) => AddDownloadEdge(command);
        case RecordCollectorGap(_, _, _, _) =>
          if !Bindable(command.lastSequence) { return false; }
          RecordGapRow(command);
      }
      return true;
    }

    method RecordGapRow(command: ProjectionCommand)
      requires command.RecordCollectorGap? && TablesMatch()
      modifies this`gap, this`abs
      ensures TablesMatch() && abs == old(abs).(tables := Apply(old(abs.tables), command))
    {
      hide OwnerIsInverse, LocationsMatch, EdgesMatch;
      gap := gap + [GapRow(command.collector, command.lastSequence, command.reason, command.observedAt)];
      abs := abs.(tables := Apply(abs.tables, command));
    }

    // -------------------------------------------------------------- transactions

    method UpsertCheckpoint(key: CollectorKey, sequence: nat, requiresReconciliation: bool)
      modifies this`checkpoint
      ensures checkpoint == Advance(old(checkpoint), key, Some(sequence), requiresReconciliation)
    {
      if key in checkpoint {
        var row := checkpoint[key];
        if sequence > row.lastSequence { row := row.(lastSequence := sequence); }
        if requiresReconciliation { row := row.(reconciliationRequired := true); }
        checkpoint := checkpoint[key := row];
      } else {
        checkpoint := checkpoint[key := Checkpoint(sequence, requiresReconciliation)];
      }
    }

    /** Applies the commands in order, stopping at the first that fails. */
    method ApplyCommands(commands: seq<ProjectionCommand>) returns (r: Result<(), StoreError>)
      requires TablesMatch()
      modifies this`task, this`artifact, this`owner, this`location, this`pending, this`edge, this`gap, this`abs
      ensures r.Ok? <==> ApplyChecked(old(abs.tables), commands).Ok?
      ensures r.Ok? ==> TablesMatch() && abs == old(abs).(tables := ApplyAll(old(abs.tables), commands))
      ensures r.Err? ==> r.error == IntegerOverflow
    {
      hide Apply, LocationsMatch, EdgesMatch, OwnerIsInverse;
      var i := 0;
      while i < |commands|
        invariant i <= |commands| && TablesMatch()
        invariant forall k :: 0 <= k < i ==> CommandBindable(commands[k])
        invariant abs == old(abs).(tables := ApplyAll(old(abs.tables), commands[..i]))
      {
        var ok := ApplyCommand(commands[i]);
        if !ok { return Err(IntegerOverflow); }
        assert commands[..i + 1][..i] == commands[..i];
        i := i + 1;
      }
      assert commands[..i] == commands;
      return Ok(());
    }

    /** `INSERT OR IGNORE` of the row, and the checkpoint statement that follows it either way. */
    method RecordEvent(e: EventEnvelope) returns (inserted: bool)
      requires Valid()
      modifies this`raw, this`checkpoint, this`abs
      ensures Valid()
      ensures inserted == (e.eventId !in Ids(old(raw)))
      ensures abs == Store(if inserted then old(abs.raw) + [V1(e)] else old(abs.raw),
                           Advance(old(abs.checkpoints), (e.source, e.scopeId), e.sourceSequence,
                                   e.payload.CollectorGap?),
                           old(abs.tables))
    {
      hide OwnerIsInverse, LocationsMatch, EdgesMatch;
      inserted := e.eventId !in Ids(raw);
      if inserted { raw := raw + [V1(e)]; }
      if e.sourceSequence.Some? {
        UpsertCheckpoint((e.source, e.scopeId), e.sourceSequence.value, e.payload.CollectorGap?);
      }
      abs := abs.(raw := raw, checkpoints := checkpoint);
    }

    /** Applies the commands and commits, or puts every table back as it was when the transaction began. */
    method CommitOrRollBack(commands: seq<ProjectionCommand>, saved: Physical, ghost owner0: map<Id, FileIdentity>,
                            ghost abs0: Store)
      returns (r: Result<(), StoreError>)
      requires Valid() && abs.tables == abs0.tables
      requires saved.raw == abs0.raw && saved.checkpoint == abs0.checkpoints && Represents(saved, owner0, abs0.tables)
      modifies this
      ensures Valid()
      ensures match ApplyChecked(abs0.tables, commands)
              case Ok(tables) => r.Ok? && abs == old(abs).(tables := tables)
              case Err(error) => r == Err(error) && abs == abs0
    {
      hide ApplyAll, ApplyChecked, Represents;
      r := ApplyCommands(commands);
      if r.Err? {
        raw, checkpoint, task, artifact := saved.raw, saved.checkpoint, saved.task, saved.artifact;
        location, pending, edge, gap := saved.location, saved.pending, saved.edge, saved.gap;
        owner, abs := owner0, abs0;
        assert Snapshot() == saved;
      }
    }

    /** `append_with_projection`: the row, the checkpoint and the commands commit together or not at all. */
    method AppendWithProjection(e: EventEnvelope, commands: seq<ProjectionCommand>)
      returns (r: Result<IngestOutcome, StoreError>)
      requires Valid()
      modifies this
      ensures Valid()
      ensures match AppendV1(old(abs), e, commands)
              case Ok(appended) => r == Ok(appended.outcome) && abs == appended.store
              case Err(error) => r == Err(error) && abs == old(abs)
    {
      hide ApplyAll, ApplyChecked, Represents, SortKey.FormatSortKey, SortKey.Sortable, Advance, Ids;
      var observedKey := SortKey.FormatSortKey(e.observedAt.nanos);
      if observedKey.Err? { return Err(TimestampOutOfSortableRange); }
      if !Bindable(e.sourceSequence) { return Err(IntegerOverflow); }
      var tx := Snapshot();
      var inserted := RecordEvent(e);
      if !inserted { return Ok(Duplicate); }
      var committed := CommitOrRollBack(commands, tx, owner, old(abs));
      return if committed.Ok? then Ok(Inserted) else Err(committed.error);
    }

    /** `append_raw_v2`. */
    method AppendRawV2(e: EventEnvelopeV2) returns (r: Result<IngestOutcome, StoreError>)
      requires Valid()
      modifies this`raw, this`checkpoint, this`abs
      ensures Valid()
      ensures match AppendV2(old(abs), e)
              case Ok(appended) => r == Ok(appended.outcome) && abs == appended.store
              case Err(error) => r == Err(error) && abs == old(abs)
    {
      hide LocationsMatch, EdgesMatch, OwnerIsInverse, SortKey.FormatSortKey;
      var observedKey := SortKey.FormatSortKey(e.observedAt.nanos);
      if observedKey.Err? { return Err(TimestampOutOfSortableRange); }
      if !Bindable(e.sourceSequence) { return Err(IntegerOverflow); }
      if e.eventId in Ids(raw) { return Ok(Duplicate); }
      raw := raw + [V2(e)];
      if e.sourceSequence.Some? {
        UpsertCheckpoint((e.source, e.scopeId), e.sourceSequence.value, e.eventType == "collector.gap");
      }
      abs := abs.(raw := raw, checkpoints := checkpoint);
      return Ok(Inserted);
    }

    /** `mark_collector_reconciled`. */
    method MarkCollectorReconciled(key: CollectorKey, lastSequence: nat)
      requires Valid()
      modifies this`checkpoint, this`abs
      ensures Valid() && abs == MarkReconciled(old(abs), key, lastSequence)
    {
      hide LocationsMatch, EdgesMatch, OwnerIsInverse;
      var kept := if key in checkpoint && checkpoint[key].lastSequence > lastSequence
                  then checkpoint[key].lastSequence else lastSequence;
      checkpoint := checkpoint[key := Checkpoint(kept, false)];
      abs := abs.(checkpoints := checkpoint);
    }
  }
}
