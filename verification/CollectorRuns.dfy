/**
  Sequence numbers over whole runs of the collector: restarts, failed appends, crashes at any point and
  other writers in between.
 */
module CollectorRuns {
  import opened Wrappers
  import opened Contracts
  import opened Projection
  import opened EventLog
  import opened Correlation
  import opened Paths
  import opened Reconciliation
  import opened CollectorLog
  import SortKey

  /** The database, and the counter of the collector process while one is running. */
  datatype World = World(store: Store, live: Option<nat>)

  datatype Step =
    | Open
    | Append(event: EventEnvelope)
    | MarkClean
    | Other(tx: Transaction)
    | Crash

  function CheckpointOf(s: Store, key: CollectorKey): nat {
    if key in s.checkpoints then s.checkpoints[key].lastSequence else 0
  }

  function TransactionKey(tx: Transaction): CollectorKey {
    match tx
    case AppendEvent(e) => (e.source, e.scopeId)
    case AppendRawEvent(e) => (e.source, e.scopeId)
    case Reconciled(key, _) => key
  }

  /** The collector may append its next number under a fresh id; others write under other keys. */
  predicate Allowed(w: World, key: CollectorKey, step: Step) {
    match step
    case Open => true
    case Append(e) =>
      && w.live.Some? && (e.source, e.scopeId) == key && e.sourceSequence == Some(w.live.value + 1)
      && e.eventId !in Ids(w.store.raw)
    case MarkClean => w.live.Some?
    case Other(tx) => TransactionKey(tx) != key
    case Crash => true
  }

  /** One atomic step. A failed append ends the process; a crash may fall between any two steps. */
  function Next(w: World, key: CollectorKey, step: Step): World {
    if !Allowed(w, key, step) then w
    else
      match step
      case Open => w.(live := Some(CheckpointOf(w.store, key)))
      case Append(e) =>
        World(Execute(w.store, AppendEvent(e)), if Project(w.store, e).Ok? then Some(w.live.value + 1) else None)
      case MarkClean => w.(store := MarkReconciled(w.store, key, w.live.value))
      case Other(tx) => w.(store := Execute(w.store, tx))
      case Crash => w.(live := None)
  }

  function RunSteps(w: World, key: CollectorKey, steps: seq<Step>): World {
    if |steps| == 0 then w else Next(RunSteps(w, key, steps[..|steps| - 1]), key, steps[|steps| - 1])
  }

  /** The stored numbers are 1, 2, ..., n in this order, and n is the checkpoint and the live counter. */
  ghost predicate Contiguous(w: World, key: CollectorKey) {
    var items := Logged(w.store.raw, key);
    && (forall i :: 0 <= i < |items| ==> items[i].sequence == Some(i + 1))
    && CheckpointOf(w.store, key) == |items|
    && (w.live.Some? ==> w.live.value == |items|)
  }

  /** The collector's own append adds its next number to the log and the checkpoint, or changes nothing. */
  lemma OwnAppend(s: Store, e: EventEnvelope, key: CollectorKey)
    requires key == (e.source, e.scopeId) && e.sourceSequence == Some(CheckpointOf(s, key) + 1)
    requires e.eventId !in Ids(s.raw)
    ensures var after := Execute(s, AppendEvent(e));
      if Project(s, e).Ok?
      then Logged(after.raw, key) == Logged(s.raw, key) + [LogItem(e.sourceSequence, e.payload)]
           && CheckpointOf(after, key) == CheckpointOf(s, key) + 1
      else after == s
  {
    hide ApplyChecked, ProjectEvent, SortKey.Sortable, Ids, Logged;
    LoggedAppend(s.raw, V1(e), key);
  }

  /** Another writer's transaction leaves the collector's log and checkpoint alone. */
  lemma OtherWriter(s: Store, tx: Transaction, key: CollectorKey)
    requires TransactionKey(tx) != key
    ensures Logged(Execute(s, tx).raw, key) == Logged(s.raw, key)
    ensures CheckpointOf(Execute(s, tx), key) == CheckpointOf(s, key)
  {
    hide ApplyChecked, ProjectEvent, SortKey.Sortable, Ids, Logged;
    match tx
    case AppendEvent(e) => LoggedAppend(s.raw, V1(e), key);
    case AppendRawEvent(e) => LoggedAppend(s.raw, V2(e), key);
    case Reconciled(_, _) =>
  }

  lemma NextKeepsContiguous(w: World, key: CollectorKey, step: Step)
    requires Contiguous(w, key)
    ensures Contiguous(Next(w, key, step), key)
    ensures CheckpointOf(w.store, key) <= CheckpointOf(Next(w, key, step).store, key)
  {
    hide Execute, Project, Ids, Logged;
    if Allowed(w, key, step) {
      match step
      case Append(e) => OwnAppend(w.store, e, key);
      case Other(tx) => OtherWriter(w.store, tx, key);
      case _ =>
    }
  }

  /** In every reachable state the stored numbers are contiguous from 1, without repeats, and equal the checkpoint. */
  lemma {:induction false} SequencesAreContiguous(key: CollectorKey, steps: seq<Step>)
    ensures Contiguous(RunSteps(World(NEW_STORE, None), key, steps), key)
  {
    if |steps| > 0 {
      SequencesAreContiguous(key, steps[..|steps| - 1]);
      NextKeepsContiguous(RunSteps(World(NEW_STORE, None), key, steps[..|steps| - 1]), key, steps[|steps| - 1]);
    }
  }

  /** The checkpoint never decreases over a run. */
  lemma {:induction false} CheckpointIsMonotone(w: World, key: CollectorKey, steps: seq<Step>)
    requires Contiguous(w, key)
    ensures CheckpointOf(w.store, key) <= CheckpointOf(RunSteps(w, key, steps).store, key)
    ensures Contiguous(RunSteps(w, key, steps), key)
  {
    hide Next, Contiguous, CheckpointOf;
    if |steps| > 0 {
      CheckpointIsMonotone(w, key, steps[..|steps| - 1]);
      NextKeepsContiguous(RunSteps(w, key, steps[..|steps| - 1]), key, steps[|steps| - 1]);
    }
  }

  // ---------------------------------------------------------------- the paths that are stored

  /** The active locations of the scope are stored in contract form. */
  ghost predicate PlacesInForm(s: Store, scopeId: string) {
    forall x <- ActiveInScope(s.tables, scopeId) :: InForm(x.1)
  }

  /** A step that stores no file of the scope under a path that is not in contract form: the collector's own file
      events are in contract form, and nobody else writes file events of the scope. */
  predicate KeepsForm(key: CollectorKey, step: Step) {
    match step
    case Append(e) => e.payload.FileObserved? ==> InForm(e.payload.path)
    case Other(AppendEvent(e)) => e.payload.FileObserved? ==> e.scopeId != key.1
    case _ => true
  }

  ghost predicate Formed(key: CollectorKey, steps: seq<Step>) {
    forall step <- steps :: KeepsForm(key, step)
  }

  /** One event adds at most its own place to the active ones of its scope, and none to those of other scopes. */
  lemma NewPlaces(t: Tables, e: EventEnvelope, scopeId: string)
    ensures forall x :: x in ActiveInScope(ApplyAll(t, ProjectEvent(e)), scopeId) ==>
        x in ActiveInScope(t, scopeId)
        || (e.payload.FileObserved? && e.scopeId == scopeId && x == (e.payload.identity, e.payload.path))
  {
    ApplyProjected(t, e);
  }

  lemma NextKeepsForm(w: World, key: CollectorKey, step: Step)
    requires PlacesInForm(w.store, key.1) && KeepsForm(key, step)
    ensures PlacesInForm(Next(w, key, step).store, key.1)
  {
    hide ApplyAll, ProjectEvent, SortKey.Sortable, Advance, Ids, InForm, ActiveInScope;
    match step
    case Append(e) => NewPlaces(w.store.tables, e, key.1);
    case Other(AppendEvent(e)) => NewPlaces(w.store.tables, e, key.1);
    case _ =>
  }

  /** If only the collector writes file events of the scope, and those in contract form, every active location of
      the scope is in contract form, in every state of every run. */
  lemma {:induction false} RunKeepsForm(w: World, key: CollectorKey, steps: seq<Step>)
    requires PlacesInForm(w.store, key.1) && Formed(key, steps)
    ensures PlacesInForm(RunSteps(w, key, steps).store, key.1)
  {
    hide Next, KeepsForm, PlacesInForm;
    if |steps| > 0 {
      var init := steps[..|steps| - 1];
      assert forall step :: step in init ==> step in steps;
      assert steps[|steps| - 1] in steps;
      RunKeepsForm(w, key, init);
      NextKeepsForm(RunSteps(w, key, init), key, steps[|steps| - 1]);
    }
  }

  lemma NewStoreInForm(scopeId: string)
    ensures PlacesInForm(NEW_STORE, scopeId)
  {
  }

  lemma {:induction false} RunIsConsistent(key: CollectorKey, steps: seq<Step>)
    ensures Consistent(RunSteps(World(NEW_STORE, None), key, steps).store)
  {
    hide Consistent, Execute, MarkReconciled;
    if |steps| == 0 {
      NewStoreIsConsistent();
    } else {
      var w, step := RunSteps(World(NEW_STORE, None), key, steps[..|steps| - 1]), steps[|steps| - 1];
      RunIsConsistent(key, steps[..|steps| - 1]);
      match step
      case Append(e) => ExecuteKeepsConsistent(w.store, AppendEvent(e));
      case Other(tx) => ExecuteKeepsConsistent(w.store, tx);
      case MarkClean => if w.live.Some? { MarkKeepsConsistent(w.store, key, w.live.value); }
      case _ =>
    }
  }

  lemma MarkKeepsConsistent(s: Store, key: CollectorKey, n: nat)
    requires Consistent(s)
    ensures Consistent(MarkReconciled(s, key, n))
  {
  }

  // ---------------------------------------------------------------- operations as runs

  /** `after` is reached from `w` by steps of the collector and others, none of which spoils the stored paths. */
  ghost predicate Ran(w: World, key: CollectorKey, after: World, formed: bool) {
    exists steps :: RunSteps(w, key, steps) == after && (formed ==> Formed(key, steps))
  }

  lemma RanNothing(w: World, key: CollectorKey, formed: bool)
    ensures Ran(w, key, w, formed)
  {
    assert RunSteps(w, key, []) == w;
  }

  lemma RanStep(w: World, key: CollectorKey, step: Step, formed: bool)
    requires formed ==> KeepsForm(key, step)
    ensures Ran(w, key, Next(w, key, step), formed)
  {
    hide Next;
    assert [step][..0] == [];
    assert RunSteps(w, key, [step]) == Next(w, key, step);
  }

  lemma {:induction false} RunJoins(w: World, key: CollectorKey, first: seq<Step>, rest: seq<Step>)
    ensures RunSteps(w, key, first + rest) == RunSteps(RunSteps(w, key, first), key, rest)
  {
    hide Next;
    if |rest| == 0 {
      assert first + rest == first;
    } else {
      RunJoins(w, key, first, rest[..|rest| - 1]);
      assert (first + rest)[..|first + rest| - 1] == first + rest[..|rest| - 1];
    }
  }

  lemma RanThen(w: World, key: CollectorKey, mid: World, after: World, formed: bool)
    requires Ran(w, key, mid, formed) && Ran(mid, key, after, formed)
    ensures Ran(w, key, after, formed)
  {
    hide Next, KeepsForm;
    var first :| RunSteps(w, key, first) == mid && (formed ==> Formed(key, first));
    var rest :| RunSteps(mid, key, rest) == after && (formed ==> Formed(key, rest));
    RunJoins(w, key, first, rest);
    assert RunSteps(w, key, first + rest) == after;
  }

  /** What holds of runs holds of operations: contiguous numbers, a checkpoint that does not go back, and stored
      paths in contract form. */
  lemma RanKeeps(w: World, key: CollectorKey, after: World, formed: bool)
    requires Ran(w, key, after, formed)
    ensures Contiguous(w, key) ==>
              Contiguous(after, key) && CheckpointOf(w.store, key) <= CheckpointOf(after.store, key)
    ensures formed && PlacesInForm(w.store, key.1) ==> PlacesInForm(after.store, key.1)
  {
    hide RunSteps, Contiguous, PlacesInForm, Formed;
    var steps :| RunSteps(w, key, steps) == after && (formed ==> Formed(key, steps));
    if Contiguous(w, key) { CheckpointIsMonotone(w, key, steps); }
    if formed && PlacesInForm(w.store, key.1) { RunKeepsForm(w, key, steps); }
  }
}
