/**
  The specification of the store: the append-only raw log, the collector checkpoints and the tables,
  and what each transaction does to them. A run is any sequence of transactions, so a crash between
  two transactions of one operation is a run as well.
 */
module EventLog {
  import opened Wrappers
  import opened Contracts
  import opened Projection
  import SortKey

  /** SQLite integers are signed 64-bit; a larger sequence number cannot be bound to a statement. */
  const MAX_I64 := 0x7FFF_FFFF_FFFF_FFFF

  datatype IngestOutcome = Inserted | Duplicate

  datatype StoreError = TimestampOutOfSortableRange | IntegerOverflow

  datatype Checkpoint = Checkpoint(lastSequence: nat, reconciliationRequired: bool)

  type CollectorKey = (string, string)

  datatype Store = Store(raw: seq<RawRow>, checkpoints: map<CollectorKey, Checkpoint>, tables: Tables)

  const NEW_STORE := Store([], map[], EMPTY)

  datatype Appended = Appended(store: Store, outcome: IngestOutcome)

  predicate Bindable(n: Option<nat>) {
    n.Some? ==> n.value <= MAX_I64
  }

  function Ids(raw: seq<RawRow>): set<Id> {
    set row | row in raw :: row.EventId()
  }

  /** The checkpoint upsert: the sequence never goes back, and the flag is only ever raised here. */
  function Advance(checkpoints: map<CollectorKey, Checkpoint>, key: CollectorKey, sequence: Option<nat>, gap: bool)
    : map<CollectorKey, Checkpoint>
  {
    if sequence.None? then checkpoints
    else if key !in checkpoints then checkpoints[key := Checkpoint(sequence.value, gap)]
    else
      var previous := checkpoints[key];
      checkpoints[key := Checkpoint(
                    if sequence.value > previous.lastSequence then sequence.value else previous.lastSequence,
                    previous.reconciliationRequired || gap)]
  }

  predicate CommandBindable(command: ProjectionCommand) {
    command.RecordCollectorGap? ==> Bindable(command.lastSequence)
  }

  function ApplyChecked(t: Tables, commands: seq<ProjectionCommand>): (r: Result<Tables, StoreError>)
    ensures r.Ok? ==> r.value == ApplyAll(t, commands)
    ensures r.Err? ==> r.error == IntegerOverflow
  {
    if exists k :: 0 <= k < |commands| && !CommandBindable(commands[k]) then Err(IntegerOverflow)
    else Ok(ApplyAll(t, commands))
  }

  /** One `append_with_projection` transaction. The checkpoint moves on a duplicate too; the tables do not. */
  function AppendV1(s: Store, e: EventEnvelope, commands: seq<ProjectionCommand>): Result<Appended, StoreError> {
    if !SortKey.Sortable(e.observedAt.nanos) then Err(TimestampOutOfSortableRange)
    else if !Bindable(e.sourceSequence) then Err(IntegerOverflow)
    else
      var checkpoints := Advance(s.checkpoints, (e.source, e.scopeId), e.sourceSequence, e.payload.CollectorGap?);
      if e.eventId in Ids(s.raw) then Ok(Appended(s.(checkpoints := checkpoints), Duplicate))
      else
        match ApplyChecked(s.tables, commands)
        case Err(error) => Err(error)
        case Ok(tables) => Ok(Appended(Store(s.raw + [V1(e)], checkpoints, tables), Inserted))
  }

  /** One `append_raw_v2` transaction. A duplicate changes nothing at all. */
  function AppendV2(s: Store, e: EventEnvelopeV2): Result<Appended, StoreError> {
    if !SortKey.Sortable(e.observedAt.nanos) then Err(TimestampOutOfSortableRange)
    else if !Bindable(e.sourceSequence) then Err(IntegerOverflow)
    else if e.eventId in Ids(s.raw) then Ok(Appended(s, Duplicate))
    else
      var checkpoints := Advance(s.checkpoints, (e.source, e.scopeId), e.sourceSequence,
                                 e.eventType == "collector.gap");
      Ok(Appended(Store(s.raw + [V2(e)], checkpoints, s.tables), Inserted))
  }

  /** `mark_collector_reconciled`. */
  function MarkReconciled(s: Store, key: CollectorKey, lastSequence: nat): Store {
    var previous := if key in s.checkpoints then s.checkpoints[key].lastSequence else 0;
    var kept := if lastSequence > previous then lastSequence else previous;
    s.(checkpoints := s.checkpoints[key := Checkpoint(kept, false)])
  }

  /** A store after a transaction: an error rolls everything back. */
  function Committed(s: Store, r: Result<Appended, StoreError>): Store {
    if r.Ok? then r.value.store else s
  }

  datatype Transaction =
    | AppendEvent(event: EventEnvelope)
    | AppendRawEvent(event2: EventEnvelopeV2)
    | Reconciled(key: CollectorKey, lastSequence: nat)

  function Execute(s: Store, tx: Transaction): Store {
    match tx
    case AppendEvent(e) => Committed(s, AppendV1(s, e, ProjectEvent(e)))
    case AppendRawEvent(e) => Committed(s, AppendV2(s, e))
    case Reconciled(key, lastSequence) => MarkReconciled(s, key, lastSequence)
  }

  function Run(s: Store, txs: seq<Transaction>): Store {
    if |txs| == 0 then s else Execute(Run(s, txs[..|txs| - 1]), txs[|txs| - 1])
  }

  /** What an event makes of its collector's checkpoint: the number never goes back, and the flag goes up with a gap. */
  ghost predicate CheckpointMoved(before: map<CollectorKey, Checkpoint>, after: map<CollectorKey, Checkpoint>,
                           key: CollectorKey, sequence: Option<nat>, gap: bool)
  {
    && (forall other :: other != key ==>
          (other in after <==> other in before) && (other in before ==> after[other] == before[other]))
    && (sequence.None? ==> after == before)
    && (sequence.Some? ==>
          && key in after
          && (after[key].reconciliationRequired <==> gap || (key in before && before[key].reconciliationRequired))
          && sequence.value <= after[key].lastSequence
          && (key in before ==> before[key].lastSequence <= after[key].lastSequence)
          && (after[key].lastSequence == sequence.value
              || (key in before && after[key].lastSequence == before[key].lastSequence)))
  }

  /** A v1 event moves its checkpoint, also when it is a duplicate; a v2 event only when it is new. Gap events of either
      version raise the flag, nothing else does. */
  lemma AppendsAdvance(s: Store, e: EventEnvelope, f: EventEnvelopeV2)
    ensures var r := AppendV1(s, e, ProjectEvent(e));
      r.Ok? ==> CheckpointMoved(s.checkpoints, r.value.store.checkpoints, (e.source, e.scopeId), e.sourceSequence,
                         e.payload.CollectorGap?)
    ensures var r := AppendV2(s, f);
      && (r.Ok? && f.eventId in Ids(s.raw) ==> r.value.outcome == Duplicate && r.value.store == s)
      && (r.Ok? && f.eventId !in Ids(s.raw) ==>
            && r.value.outcome == Inserted && r.value.store.raw == s.raw + [V2(f)] && r.value.store.tables == s.tables
            && CheckpointMoved(s.checkpoints, r.value.store.checkpoints, (f.source, f.scopeId), f.sourceSequence,
                        f.eventType == "collector.gap"))
  {
    hide ApplyChecked, ProjectEvent, SortKey.Sortable, Ids;
  }

  /** Marking a collector reconciled takes its flag down and leaves the others alone. */
  lemma MarkingAdvances(s: Store, key: CollectorKey, lastSequence: nat)
    ensures var after := MarkReconciled(s, key, lastSequence);
      && after.raw == s.raw && after.tables == s.tables && key in after.checkpoints
      && !after.checkpoints[key].reconciliationRequired && lastSequence <= after.checkpoints[key].lastSequence
      && (key in s.checkpoints ==> s.checkpoints[key].lastSequence <= after.checkpoints[key].lastSequence)
      && (forall other :: other != key ==>
            (other in after.checkpoints <==> other in s.checkpoints)
            && (other in s.checkpoints ==> after.checkpoints[other] == s.checkpoints[other]))
  {
  }

  // ---------------------------------------------------------------- the log and the tables agree

  ghost predicate DistinctIds(raw: seq<RawRow>) {
    forall i, j :: 0 <= i < j < |raw| ==> raw[i].EventId() != raw[j].EventId()
  }

  /** Every stored v1 event has a representable time; the append refuses the others. */
  ghost predicate RowsSortable(raw: seq<RawRow>) {
    forall row <- raw :: row.V1? ==> SortKey.Sortable(row.event.observedAt.nanos)
  }

  /** Event ids are unique, times are representable, and the tables are the fold of the stored rows. */
  ghost predicate Consistent(s: Store) {
    DistinctIds(s.raw) && RowsSortable(s.raw) && s.tables == Rebuild(s.raw)
  }

  /** The times of the stored v1 events. */
  function StoredTimes(raw: seq<RawRow>): set<Time> {
    set row | row in raw && row.V1? :: row.event.observedAt
  }

  /** Every time in the tables is one of these: of tasks, locations, downloads and their matches, edges, gaps. */
  ghost predicate TimesFrom(t: Tables, times: set<Time>) {
    && (forall k <- t.tasks :: t.tasks[k].startedAt in times)
    && (forall k <- t.locations :: t.locations[k].observedAt in times)
    && (forall d <- t.pending :: t.pending[d].observedAt in times)
    && (forall d <- t.pending :: t.pending[d].matchedAt.Some? ==> t.pending[d].matchedAt.value in times)
    && (forall k <- t.edges :: t.edges[k].createdAt in times)
    && (forall g <- t.gaps :: g.observedAt in times)
  }

  lemma ApplyKeepsTimes(t: Tables, e: EventEnvelope, times: set<Time>)
    requires TimesFrom(t, times) && e.observedAt in times && |ProjectEvent(e)| == 1
    ensures TimesFrom(Apply(t, ProjectEvent(e)[0]), times)
  {
    match e.payload
    case FileObserved(_, _, _) => ObservingKeepsTimes(t, ProjectEvent(e)[0], times);
    case DownloadMatched(_, _, _, _) => MatchingKeepsTimes(t, ProjectEvent(e)[0], times);
    case _ =>
  }

  lemma MatchingKeepsTimes(t: Tables, command: ProjectionCommand, times: set<Time>)
    requires TimesFrom(t, times) && command.AddObservedDownloadEdge? && command.observedAt in times
    ensures TimesFrom(Apply(t, command), times)
  {
  }

  lemma ObservingKeepsTimes(t: Tables, command: ProjectionCommand, times: set<Time>)
    requires TimesFrom(t, times) && command.UpsertArtifactLocation? && command.observedAt in times
    ensures TimesFrom(Apply(t, command), times)
  {
  }

  /** Every time in the rebuilt tables is the time of a stored v1 event. */
  lemma {:induction false} RebuildTimes(raw: seq<RawRow>)
    ensures TimesFrom(Rebuild(raw), StoredTimes(raw))
  {
    hide Apply, ProjectEvent, TimesFrom;
    if |raw| == 0 {
      EmptyTimes(StoredTimes(raw));
    } else {
      var init, last := raw[..|raw| - 1], raw[|raw| - 1];
      assert forall row :: row in init ==> row in raw;
      RebuildTimes(init);
      MoreTimes(Rebuild(init), StoredTimes(init), StoredTimes(raw));
      if last.V1? {
        assert last in raw && last.event.observedAt in StoredTimes(raw);
        ApplyProjected(Rebuild(init), last.event);
        if |ProjectEvent(last.event)| == 1 { ApplyKeepsTimes(Rebuild(init), last.event, StoredTimes(raw)); }
      }
    }
  }

  lemma EmptyTimes(times: set<Time>)
    ensures TimesFrom(EMPTY, times)
  {
  }

  lemma MoreTimes(t: Tables, times: set<Time>, more: set<Time>)
    requires TimesFrom(t, times) && times <= more
    ensures TimesFrom(t, more)
  {
  }

  /** So the times of downloads and locations can be stored again. */
  lemma RebuildSortable(raw: seq<RawRow>)
    requires RowsSortable(raw)
    ensures forall d <- Rebuild(raw).pending :: SortKey.Sortable(Rebuild(raw).pending[d].observedAt.nanos)
    ensures forall k <- Rebuild(raw).locations :: SortKey.Sortable(Rebuild(raw).locations[k].observedAt.nanos)
  {
    hide Rebuild, SortKey.Sortable;
    RebuildTimes(raw);
  }

  lemma AppendedRow(s: Store, row: RawRow)
    requires Consistent(s) && row.EventId() !in Ids(s.raw)
    requires row.V1? ==> SortKey.Sortable(row.event.observedAt.nanos)
    ensures DistinctIds(s.raw + [row]) && RowsSortable(s.raw + [row])
    ensures Rebuild(s.raw + [row]) == Contribute(s.tables, row)
  {
    assert (s.raw + [row])[..|s.raw|] == s.raw;
    forall i | 0 <= i < |s.raw| ensures s.raw[i].EventId() != row.EventId() {
      assert s.raw[i] in s.raw;
    }
  }

  lemma ExecuteKeepsConsistent(s: Store, tx: Transaction)
    requires Consistent(s)
    ensures Consistent(Execute(s, tx))
    ensures s.raw <= Execute(s, tx).raw
  {
    hide Rebuild, ApplyAll, ProjectEvent, SortKey.Sortable;
    match tx
    case AppendEvent(e) =>
      if e.eventId !in Ids(s.raw) && SortKey.Sortable(e.observedAt.nanos) { AppendedRow(s, V1(e)); }
    case AppendRawEvent(e) => if e.eventId !in Ids(s.raw) { AppendedRow(s, V2(e)); }
    case Reconciled(_, _) =>
  }

  /** In every state reachable from an empty store, whatever was appended, repeated or cut short, the
      tables are rebuildable from the raw log, and hold one active location per artifact. */
  lemma {:induction false} ProjectionsAreRebuildable(txs: seq<Transaction>)
    ensures Consistent(Run(NEW_STORE, txs))
    ensures Sound(Run(NEW_STORE, txs).tables)
    ensures Run(NEW_STORE, txs).tables == Rebuild(Run(NEW_STORE, txs).raw)
  {
    hide Rebuild, Execute;
    if |txs| == 0 {
      NewStoreIsConsistent();
    } else {
      ProjectionsAreRebuildable(txs[..|txs| - 1]);
      ExecuteKeepsConsistent(Run(NEW_STORE, txs[..|txs| - 1]), txs[|txs| - 1]);
    }
    RebuildIsSound(Run(NEW_STORE, txs).raw);
  }

  lemma NewStoreIsConsistent()
    ensures Consistent(NEW_STORE)
  {
  }

  /** Stored rows are never changed or removed, and checkpoints never go back. */
  lemma {:induction false} LogIsAppendOnly(s: Store, txs: seq<Transaction>, key: CollectorKey)
    requires Consistent(s)
    ensures s.raw <= Run(s, txs).raw
    ensures key in s.checkpoints ==>
        key in Run(s, txs).checkpoints && s.checkpoints[key].lastSequence <= Run(s, txs).checkpoints[key].lastSequence
    ensures Consistent(Run(s, txs))
  {
    hide Consistent, ApplyChecked, ProjectEvent, SortKey.Sortable;
    if |txs| > 0 {
      LogIsAppendOnly(s, txs[..|txs| - 1], key);
      ExecuteKeepsConsistent(Run(s, txs[..|txs| - 1]), txs[|txs| - 1]);
    }
  }
}
