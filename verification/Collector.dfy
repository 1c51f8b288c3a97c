/**
  The directory collector: sequence numbers, batches, gaps and reconciliations over the engine.
 */
module Collector {
  import opened Wrappers
  import opened Contracts
  import opened Projection
  import opened EventLog
  import opened Repository
  import opened Correlation
  import opened Engine
  import opened Paths
  import opened ScopeScan
  import opened Reconciliation
  import opened CollectorLog
  import opened CollectorRuns
  import opened Octets
  import Watcher
  import ChangeBuffer
  import SortKey

  const MAX_U64 := 0xFFFF_FFFF_FFFF_FFFF

  // ---------------------------------------------------------------- one ingest

  /** The derived event is not the collector's, carries no sequence number and touches no location. */
  lemma DerivedIsForeign(mid: Store, e: EventEnvelope, after: Store, derived: Option<EventEnvelope>, key: CollectorKey)
    requires Correlated(mid, e, after, derived) && key.0 == SOURCE && Consistent(mid)
    ensures Logged(after.raw, key) == Logged(mid.raw, key)
    ensures after.checkpoints == mid.checkpoints && after.tables.locations == mid.tables.locations
    ensures Consistent(after)
  {
    hide MatchResult, SortKey.Sortable, ApplyChecked, Rebuild, ProjectEvent, CandidateOf;
    if derived.Some? {
      var found :| MatchResult(mid.tables, LookupPath(e).value, found) && Derives(mid, e, found, after, derived);
      var d := derived.value;
      assert d.source != SOURCE by { assert d.source[0] == 'c' && SOURCE[0] == 'w'; }
      DerivedTables(mid, e, found.value, after, d);
      LoggedAppend(mid.raw, V1(d), key);
      ExecuteKeepsConsistent(mid, AppendEvent(d));
      EdgeLeavesLocations(mid.tables, found.value);
    }
  }

  lemma EdgeLeavesLocations(t: Tables, c: MatchCandidate)
    ensures Apply(t, AddObservedDownloadEdge(c.downloadId, c.identity, c.url, c.sourceEventIds,
                                             c.observedAt)).locations == t.locations
  {
  }

  /** One collector event, ingested: one more log item, the checkpoint moved, the active locations observed. */
  lemma IngestedByCollector(s: Store, e: EventEnvelope, after: Store, derived: Option<EventEnvelope>, key: CollectorKey)
    requires Consistent(s) && Ingested(s, e, after, derived)
    requires key == (SOURCE, e.scopeId) && e.source == SOURCE && e.eventId !in Ids(s.raw)
    ensures Consistent(after)
    ensures Logged(after.raw, key) == Logged(s.raw, key) + [LogItem(e.sourceSequence, e.payload)]
    ensures after.checkpoints == Advance(s.checkpoints, key, e.sourceSequence, e.payload.CollectorGap?)
    ensures ActiveInScope(after.tables, e.scopeId) == Observe(ActiveInScope(s.tables, e.scopeId), e.payload)
  {
    hide Correlated, SortKey.Sortable, Rebuild, ProjectEvent, Observe, Sound;
    var mid := Project(s, e).value.store;
    ExecuteKeepsConsistent(s, AppendEvent(e));
    LoggedAppend(s.raw, V1(e), key);
    DerivedIsForeign(mid, e, after, derived, key);
    RebuildIsSound(s.raw);
    ApplyObserves(s.tables, e);
    assert mid.tables == ApplyAll(s.tables, ProjectEvent(e));
  }

  // ---------------------------------------------------------------- specification of the collector's runs

  /** Items for file events, numbered on from `n`. */
  function Numbered(payloads: seq<EventPayload>, n: nat): seq<LogItem> {
    if |payloads| == 0 then [] else [LogItem(Some(n + 1), payloads[0])] + Numbered(payloads[1..], n + 1)
  }

  function GapPayload(n: nat, reason: string): EventPayload {
    CollectorGap(SOURCE, Some(n), reason)
  }

  function IssueReason(issue: string): string {
    "scope reconciliation could not inspect " + issue
  }

  /** A gap records the number before its own. */
  function GapPayloads(issues: seq<string>, n: nat): seq<EventPayload> {
    if |issues| == 0 then [] else [GapPayload(n, IssueReason(issues[0]))] + GapPayloads(issues[1..], n + 1)
  }

  /** Everything one reconciliation writes. */
  function ReconcilePayloads(report: ReconcileReport, active: seq<Place>, n: nat): seq<EventPayload> {
    var events := FileEvents(report, active);
    events + GapPayloads(report.issues, n + |events|)
  }

  lemma {:induction false} NumberedConcat(a: seq<EventPayload>, b: seq<EventPayload>, n: nat)
    ensures Numbered(a + b, n) == Numbered(a, n) + Numbered(b, n + |a|)
    ensures |Numbered(a, n)| == |a|
    decreases |a|
  {
    if |a| == 0 {
      assert a + b == b;
    } else {
      assert (a + b)[1..] == a[1..] + b;
      NumberedConcat(a[1..], b, n + 1);
    }
  }

  /** The store and counter after the collector has written `payloads`. */
  ghost predicate Wrote(s: Store, n: nat, payloads: seq<EventPayload>, scopeId: string, after: Store, m: nat) {
    && m == n + |payloads|
    && Logged(after.raw, (SOURCE, scopeId)) == Logged(s.raw, (SOURCE, scopeId)) + Numbered(payloads, n)
    && ActiveInScope(after.tables, scopeId) == ObserveAll(ActiveInScope(s.tables, scopeId), payloads)
    && (|payloads| == 0 ==> after == s)
    && (FlagRaised(after, (SOURCE, scopeId)) <==>
          (FlagRaised(s, (SOURCE, scopeId)) || exists p :: p in payloads && p.CollectorGap?))
  }

  lemma WroteNothing(s: Store, n: nat, scopeId: string)
    ensures Wrote(s, n, [], scopeId, s, n)
  {
  }

  lemma WroteOneMore(s: Store, n: nat, payloads: seq<EventPayload>, scopeId: string, mid: Store, m: nat,
                     p: EventPayload, after: Store)
    requires Wrote(s, n, payloads, scopeId, mid, m) && Wrote(mid, m, [p], scopeId, after, m + 1)
    ensures Wrote(s, n, payloads + [p], scopeId, after, m + 1)
  {
    hide Observe, Logged, ActiveInScope, FlagRaised;
    NumberedConcat(payloads, [p], n);
    ObserveAllConcat(ActiveInScope(s.tables, scopeId), payloads, [p]);
    assert forall q :: q in payloads + [p] <==> q in payloads || q == p;
  }

  lemma WroteThen(s: Store, n: nat, a: seq<EventPayload>, scopeId: string, mid: Store, m: nat, b: seq<EventPayload>,
                  after: Store, k: nat)
    requires Wrote(s, n, a, scopeId, mid, m) && Wrote(mid, m, b, scopeId, after, k)
    ensures Wrote(s, n, a + b, scopeId, after, k)
  {
    hide Observe, Logged, ActiveInScope, FlagRaised;
    NumberedConcat(a, b, n);
    ObserveAllConcat(ActiveInScope(s.tables, scopeId), a, b);
    assert forall q :: q in a + b <==> q in a || q in b;
  }

  // ---------------------------------------------------------------- the collector

  /** `now_utc`: the clock shows a representable year. */
  method Now() returns (now: Time)
    ensures SortKey.Sortable(now.nanos)
  {
    assert SortKey.Sortable(0);
    var nanos: int :| SortKey.Sortable(nanos);
    var text: string := *;
    now := Time(text, nanos);
  }

  datatype ReconcileSummary = ReconcileSummary(observed: nat, inserted: nat, deleted: nat, issues: nat)

  datatype ChangeOutcome = IngestedChange(payload: EventPayload) | Ignored | NeedsReconciliation

  function FileChangeOf(action: Watcher.DirectoryAction): Option<FileChange> {
    match action
    case Added => Some(Created)
    case Modified => Some(FileChange.Modified)
    case RenamedTo => Some(Renamed)
    case Removed => Some(Deleted)
    case RenamedFrom => Some(Deleted)
    case Unknown(_) => None
  }

  /** What `ingest_change` makes of a change; `resolved` is what `file_identity` answers for its path. */
  function Interpret(root: string, c: Watcher.DirectoryChange, resolved: Option<FileIdentity>): ChangeOutcome {
    match FileChangeOf(c.action)
    case None => Ignored
    case Some(change) =>
      var identity := if c.identity.Some? then c.identity else if change == Deleted then None else resolved;
      if identity.None? then NeedsReconciliation
      else IngestedChange(FileObserved(identity.value, ContractPath(Join(root, c.relativePath)), change))
  }

  /** The answers of `file_identity`, by the position of the change in its batch. */
  type Answers = nat -> Option<FileIdentity>

  function ChangePayloads(root: string, changes: seq<Watcher.DirectoryChange>, resolved: Answers): seq<EventPayload> {
    if |changes| == 0 then []
    else
      var rest := ChangePayloads(root, changes[..|changes| - 1], resolved);
      match Interpret(root, changes[|changes| - 1], resolved(|changes| - 1))
      case IngestedChange(payload) => rest + [payload]
      case _ => rest
  }

  predicate Unresolved(root: string, changes: seq<Watcher.DirectoryChange>, resolved: Answers) {
    exists k :: 0 <= k < |changes| && Interpret(root, changes[k], resolved(k)) == NeedsReconciliation
  }

  /** What the event loop does for one batch: the answers of `file_identity`, and the trees that a reconciliation
      scans while and after the batch is ingested. */
  datatype BatchWork = BatchWork(batch: Watcher.DirectoryBatch, resolved: Answers, during: Node, later: Node)

  datatype Turn = OneBatch(work: BatchWork) | Foreign(tx: Transaction)

  // ---------------------------------------------------------------- what a batch does to the active files

  /** The identity a change is about: its own, or for a file that is there the one its path has. */
  function Subject(c: Watcher.DirectoryChange, resolved: Option<FileIdentity>): Option<FileIdentity> {
    match c.action
    case Added => if c.identity.Some? then c.identity else resolved
    case Modified => if c.identity.Some? then c.identity else resolved
    case RenamedTo => if c.identity.Some? then c.identity else resolved
    case Removed => c.identity
    case RenamedFrom => c.identity
    case Unknown(_) => None
  }

  /** What is stored for a change, by its action. */
  lemma ChangeIsStoredAs(root: string, c: Watcher.DirectoryChange, resolved: Option<FileIdentity>)
    ensures var outcome, subject := Interpret(root, c, resolved), Subject(c, resolved);
      var path := ContractPath(Join(root, c.relativePath));
      && (c.action.Unknown? <==> outcome.Ignored?)
      && (!c.action.Unknown? ==> (subject.None? <==> outcome.NeedsReconciliation?))
      && (subject.Some? <==> outcome.IngestedChange?)
      && (subject.Some? && c.action.Added? ==> outcome.payload == FileObserved(subject.value, path, Created))
      && (subject.Some? && c.action.Modified? ==>
            outcome.payload == FileObserved(subject.value, path, FileChange.Modified))
      && (subject.Some? && c.action.RenamedTo? ==> outcome.payload == FileObserved(subject.value, path, Renamed))
      && (subject.Some? && (c.action.Removed? || c.action.RenamedFrom?) ==>
            outcome.payload == FileObserved(subject.value, path, Deleted))
  {
  }

  /** A batch needs a reconciliation exactly if some known action names no file. */
  lemma UnresolvedMeaning(root: string, changes: seq<Watcher.DirectoryChange>, resolved: Answers)
    ensures Unresolved(root, changes, resolved) <==>
            exists k :: 0 <= k < |changes| && !changes[k].action.Unknown? && Subject(changes[k], resolved(k)).None?
  {
    hide Interpret, Subject;
    forall k | 0 <= k < |changes| { ChangeIsStoredAs(root, changes[k], resolved(k)); }
  }

  /** Change `k` is the last one of its batch about its subject. */
  ghost predicate LastAbout(changes: seq<Watcher.DirectoryChange>, resolved: Answers, k: int, identity: FileIdentity) {
    && 0 <= k < |changes| && Subject(changes[k], resolved(k)) == Some(identity)
    && forall j :: k < j < |changes| ==> Subject(changes[j], resolved(j)) != Some(identity)
  }

  /** The last change about a file decides: after an addition, a modification or the new name of a renaming its path is
      the file's one active place, after a removal or the old name of a renaming it is not active. */
  ghost predicate LastChangesDecide(root: string, changes: seq<Watcher.DirectoryChange>, resolved: Answers,
                                    after: set<Place>) {
    forall k, identity :: LastAbout(changes, resolved, k, identity) ==>
      var place := (identity, ContractPath(Join(root, changes[k].relativePath)));
      if changes[k].action.Removed? || changes[k].action.RenamedFrom? then place !in after
      else place in after && forall other <- after :: other.0 == identity ==> other == place
  }

  lemma {:induction false} ChangesDecide(root: string, changes: seq<Watcher.DirectoryChange>, resolved: Answers,
                                         before: set<Place>)
    ensures LastChangesDecide(root, changes, resolved, ObserveAll(before, ChangePayloads(root, changes, resolved)))
  {
    hide Interpret, ContractPath, Join, Observe, ObserveAll, LastChangesDecide, Subject;
    if |changes| == 0 {
      NothingToDecide(root, changes, resolved, ObserveAll(before, []));
    } else {
      var init, n := changes[..|changes| - 1], |changes| - 1;
      var middle := ObserveAll(before, ChangePayloads(root, init, resolved));
      ChangesDecide(root, init, resolved, before);
      var outcome := Interpret(root, changes[n], resolved(n));
      if outcome.IngestedChange? {
        ObserveAllConcat(before, ChangePayloads(root, init, resolved), [outcome.payload]);
        ObserveAllOfOne(middle, outcome.payload);
        OneMoreDecides(root, changes, resolved, middle, Observe(middle, outcome.payload));
      } else {
        OneMoreDecides(root, changes, resolved, middle, middle);
      }
    }
  }

  lemma NothingToDecide(root: string, changes: seq<Watcher.DirectoryChange>, resolved: Answers, after: set<Place>)
    requires |changes| == 0
    ensures LastChangesDecide(root, changes, resolved, after)
  {
  }

  lemma ObserveAllOfOne(places: set<Place>, payload: EventPayload)
    ensures ObserveAll(places, [payload]) == Observe(places, payload)
  {
    hide Observe;
    assert ObserveAll(Observe(places, payload), [payload][1..]) == Observe(places, payload);
  }

  lemma OneMoreDecides(root: string, changes: seq<Watcher.DirectoryChange>, resolved: Answers, middle: set<Place>,
                       after: set<Place>)
    requires |changes| > 0 && LastChangesDecide(root, changes[..|changes| - 1], resolved, middle)
    requires var outcome := Interpret(root, changes[|changes| - 1], resolved(|changes| - 1));
      after == if outcome.IngestedChange? then Observe(middle, outcome.payload) else middle
    ensures LastChangesDecide(root, changes, resolved, after)
  {
    hide ContractPath, Join, Interpret;
    var init, n := changes[..|changes| - 1], |changes| - 1;
    ChangeIsStoredAs(root, changes[n], resolved(n));
    hide Subject;
    forall k, identity | LastAbout(changes, resolved, k, identity)
      ensures var place := (identity, ContractPath(Join(root, changes[k].relativePath)));
        if changes[k].action.Removed? || changes[k].action.RenamedFrom? then place !in after
        else place in after && forall other <- after :: other.0 == identity ==> other == place
    {
      if k < n { assert LastAbout(init, resolved, k, identity); }
    }
  }

  // ---------------------------------------------------------------- one event as a run

  /** A stored event of the collector, with what was derived from it, is an append and a foreign transaction. */
  lemma IngestedIsARun(s: Store, n: nat, e: EventEnvelope, after: Store, derived: Option<EventEnvelope>, formed: bool)
    requires Ingested(s, e, after, derived) && e.source == SOURCE && e.sourceSequence == Some(n + 1)
    requires e.eventId !in Ids(s.raw) && (formed && e.payload.FileObserved? ==> InForm(e.payload.path))
    ensures Ran(World(s, Some(n)), (SOURCE, e.scopeId), World(after, Some(n + 1)), formed)
  {
    hide MatchResult, AppendV1, Ids, Ran, InForm;
    var key := (SOURCE, e.scopeId);
    var w, mid := World(s, Some(n)), World(Project(s, e).value.store, Some(n + 1));
    RanStep(w, key, Append(e), formed);
    if derived.Some? {
      var d := derived.value;
      assert d.source != SOURCE by { assert d.source[0] == 'c' && SOURCE[0] == 'w'; }
      RanStep(mid, key, Step.Other(AppendEvent(d)), formed);
      RanThen(w, key, mid, World(after, Some(n + 1)), formed);
    }
  }

  /** An event the store refuses ends the process and changes nothing. */
  lemma RefusedIsARun(s: Store, n: nat, e: EventEnvelope, formed: bool)
    requires Project(s, e).Err? && e.source == SOURCE && e.sourceSequence == Some(n + 1)
    requires e.eventId !in Ids(s.raw) && (formed && e.payload.FileObserved? ==> InForm(e.payload.path))
    ensures Ran(World(s, Some(n)), (SOURCE, e.scopeId), World(s, None), formed)
  {
    hide AppendV1, Ids, Ran, InForm;
    RanStep(World(s, Some(n)), (SOURCE, e.scopeId), Append(e), formed);
  }

  lemma CrashIsARun(w: World, key: CollectorKey, formed: bool)
    ensures Ran(w, key, World(w.store, None), formed)
  {
    hide Ran;
    RanStep(w, key, Crash, formed);
  }

  /** Marking a clean scan is a step. */
  lemma MarkIsARun(s: Store, n: nat, key: CollectorKey, formed: bool)
    ensures Ran(World(s, Some(n)), key, World(MarkReconciled(s, key, n), Some(n)), formed)
  {
    hide Ran, MarkReconciled;
    RanStep(World(s, Some(n)), key, MarkClean, formed);
  }

  class CollectorState {
    const engine: ContextEngine
    const root: string
    const scopeId: string
    var lastSequence: nat

    /** When the collector was opened its root was stable and the stored locations were in contract form. */
    ghost const formed: bool

    ghost predicate Valid()
      reads this, engine.repository
    {
      && engine.repository.Valid() && Consistent(engine.repository.abs) && scopeId == ContractPath(root)
      && (formed ==> StableRoot(root) && PlacesInForm(engine.repository.abs, scopeId))
    }

    /** From counter `n` on `s` the collector has come to `after`, where it is `live` or has ended, by steps of the
        collector's step system. */
    ghost predicate Moved(s: Store, n: nat, after: Store, live: Option<nat>) {
      Ran(World(s, Some(n)), Key(), World(after, live), formed)
    }

    function Key(): CollectorKey {
      (SOURCE, scopeId)
    }

    /** `open`: the counter continues from the persisted checkpoint. */
    constructor (root: string, engine: ContextEngine)
      requires engine.repository.Valid() && Consistent(engine.repository.abs)
      ensures Valid() && this.engine == engine && this.root == root && scopeId == ContractPath(root)
      ensures formed <==> StableRoot(root) && PlacesInForm(engine.repository.abs, scopeId)
      ensures lastSequence == if Key() in engine.repository.abs.checkpoints
                              then engine.repository.abs.checkpoints[Key()].lastSequence else 0
      ensures World(engine.repository.abs, Some(lastSequence)) == Next(World(engine.repository.abs, None), Key(), Open)
    {
      this.engine := engine;
      this.root := root;
      this.scopeId := ContractPath(root);
      this.formed := StableRoot(root) && PlacesInForm(engine.repository.abs, ContractPath(root));
      var key := (SOURCE, ContractPath(root));
      lastSequence := if key in engine.repository.checkpoint then engine.repository.checkpoint[key].lastSequence else 0;
    }

    /** `ingest`: the next number is taken before the event is stored. Only exhausted numbers make it fail. */
    method Ingest(payload: EventPayload) returns (ok: bool)
      requires Valid()
      requires payload.CollectorGap? ==> payload.lastSequence == Some(lastSequence)
      requires formed && payload.FileObserved? ==> InForm(payload.path)
      modifies this`lastSequence, engine.repository
      ensures Valid()
      ensures Moved(old(engine.repository.abs), old(lastSequence), engine.repository.abs,
                    if ok then Some(lastSequence) else None)
      ensures ok <==> old(lastSequence) < MAX_I64
      ensures !ok ==> lastSequence >= MAX_I64
      ensures ok ==> Wrote(old(engine.repository.abs), old(lastSequence), [payload], scopeId, engine.repository.abs,
                           lastSequence)
      ensures ok ==> (engine.repository.abs.checkpoints ==
          Advance(old(engine.repository.abs.checkpoints), Key(), Some(lastSequence), payload.CollectorGap?))
    {
      hide SqliteRepository.Valid, Consistent, Ids, Logged, ActiveInScope, Observe;
      hide Correlated, ProjectEvent, ApplyChecked;
      hide SortKey.Sortable, Ran, StableRoot, PlacesInForm, InForm, ContractPath;
      if lastSequence == MAX_U64 {
        CrashIsARun(World(engine.repository.abs, Some(lastSequence)), Key(), formed);
        return false;
      }
      lastSequence := lastSequence + 1;
      var id := engine.NewEventId();
      var now := Now();
      var event := EventEnvelope(id, CURRENT_SCHEMA_VERSION, SOURCE, Some(lastSequence), now, scopeId, None, payload);
      ghost var before := engine.repository.abs;
      CollectorEventProjects(before, event);
      var report := engine.Ingest(event);
      if report.Err? {
        RefusedIsARun(before, old(lastSequence), event, formed);
        return false;
      }
      ghost var derived :| Ingested(before, event, engine.repository.abs, derived);
      IngestedByCollector(before, event, engine.repository.abs, derived, Key());
      OnePayload(before, old(lastSequence), payload, engine.repository.abs);
      IngestedIsARun(before, old(lastSequence), event, engine.repository.abs, derived, formed);
      MovedKeepsForm(before, old(lastSequence), engine.repository.abs, Some(lastSequence));
      return true;
    }

    lemma CollectorEventProjects(s: Store, e: EventEnvelope)
      requires SortKey.Sortable(e.observedAt.nanos)
      requires e.sourceSequence.Some? && (e.payload.CollectorGap? ==>
          e.payload.lastSequence.Some? && e.payload.lastSequence.value < e.sourceSequence.value)
      ensures Project(s, e).Ok? <==> e.sourceSequence.value <= MAX_I64
    {
      hide SortKey.Sortable, ApplyAll, Advance;
    }

    lemma MovedKeepsForm(s: Store, n: nat, after: Store, live: Option<nat>)
      requires Moved(s, n, after, live) && (formed ==> PlacesInForm(s, scopeId))
      ensures formed ==> PlacesInForm(after, scopeId)
    {
      hide Ran, PlacesInForm, Contiguous;
      RanKeeps(World(s, Some(n)), Key(), World(after, live), formed);
    }

    lemma MovedThen(s: Store, n: nat, mid: Store, m: nat, after: Store, live: Option<nat>)
      requires Moved(s, n, mid, Some(m)) && Moved(mid, m, after, live)
      ensures Moved(s, n, after, live)
    {
      hide Ran;
      RanThen(World(s, Some(n)), Key(), World(mid, Some(m)), World(after, live), formed);
    }

    lemma MovedNowhere(s: Store, n: nat)
      ensures Moved(s, n, s, Some(n)) && Moved(s, n, s, None)
    {
      hide Ran;
      RanNothing(World(s, Some(n)), Key(), formed);
      CrashIsARun(World(s, Some(n)), Key(), formed);
    }

    lemma OnePayload(before: Store, n: nat, payload: EventPayload, after: Store)
      requires Logged(after.raw, Key()) == Logged(before.raw, Key()) + [LogItem(Some(n + 1), payload)]
      requires ActiveInScope(after.tables, scopeId) == Observe(ActiveInScope(before.tables, scopeId), payload)
      requires after.checkpoints == Advance(before.checkpoints, Key(), Some(n + 1), payload.CollectorGap?)
      ensures Wrote(before, n, [payload], scopeId, after, n + 1)
    {
      hide Observe, Logged, ActiveInScope;
      assert Numbered([payload], n) == [LogItem(Some(n + 1), payload)] + Numbered([payload][1..], n + 1);
      var active := ActiveInScope(before.tables, scopeId);
      assert ObserveAll(active, [payload]) == ObserveAll(Observe(active, payload), [payload][1..]);
      assert payload in [payload];
    }

    method IngestFile(identity: FileIdentity, path: string, change: FileChange) returns (ok: bool)
      requires Valid() && (formed ==> InForm(ContractPath(path)))
      modifies this`lastSequence, engine.repository
      ensures Valid()
      ensures Moved(old(engine.repository.abs), old(lastSequence), engine.repository.abs,
                    if ok then Some(lastSequence) else None)
      ensures !ok ==> lastSequence >= MAX_I64
      ensures ok ==> Wrote(old(engine.repository.abs), old(lastSequence),
                           [FileObserved(identity, ContractPath(path), change)],
                           scopeId, engine.repository.abs, lastSequence)
    {
      ok := Ingest(FileObserved(identity, ContractPath(path), change));
    }

    /** `record_gap`: names the last number issued before the gap event's own. */
    method RecordGap(reason: string) returns (ok: bool)
      requires Valid()
      modifies this`lastSequence, engine.repository
      ensures Valid()
      ensures Moved(old(engine.repository.abs), old(lastSequence), engine.repository.abs,
                    if ok then Some(lastSequence) else None)
      ensures !ok ==> lastSequence >= MAX_I64
      ensures ok ==> Wrote(old(engine.repository.abs), old(lastSequence), [GapPayload(old(lastSequence), reason)],
                           scopeId, engine.repository.abs, lastSequence)
    {
      ok := Ingest(CollectorGap(SOURCE, Some(lastSequence), reason));
    }

    /** `active_locations_in_scope`: the rows of the join, in an order of the database's choosing. */
    method ActiveLocationsInScope() returns (rows: seq<Place>)
      requires Valid()
      ensures Places(rows) == ActiveInScope(engine.repository.abs.tables, scopeId)
    {
      hide Consistent, EdgesMatch;
      var r := engine.repository;
      var keys := set k | k in r.location && r.location[k].active && r.location[k].scopeId == scopeId;
      rows := [];
      ghost var all := keys;
      while keys != {}
        invariant keys <= all
        invariant forall x: Place ::
                    x in rows <==> (exists k :: k in all - keys && k.0 in r.owner && x == (r.owner[k.0], k.1))
        decreases keys
      {
        var k :| k in keys;
        assert k in r.location;
        var identity :| identity in r.artifact && r.artifact[identity] == k.0;
        rows := rows + [(identity, k.1)];
        keys := keys - {k};
      }
      forall x: Place ensures x in rows <==> x in ActiveInScope(r.abs.tables, scopeId) {
        if x in ActiveInScope(r.abs.tables, scopeId) {
          assert (r.artifact[x.0], x.1) in all - keys;
        }
      }
    }

    /** The insertion loop of `reconcile`. */
    method InsertMissing(files: seq<ReconciledFile>, existing: set<Place>) returns (inserted: Option<nat>)
      requires Valid() && (formed ==> forall f <- files :: InForm(ContractPath(f.path)))
      modifies this`lastSequence, engine.repository
      ensures Valid()
      ensures Moved(old(engine.repository.abs), old(lastSequence), engine.repository.abs,
                    if inserted.Some? then Some(lastSequence) else None)
      ensures inserted.None? ==> lastSequence >= MAX_I64
      ensures inserted.Some? ==> inserted.value == |Insertions(files, existing)|
      ensures inserted.Some? ==> Wrote(old(engine.repository.abs), old(lastSequence), Insertions(files, existing),
                                       scopeId,
                                       engine.repository.abs, lastSequence)
    {
      hide Wrote, Insertions, SqliteRepository.Valid, Consistent, PlaceOf;
      hide Ran, StableRoot, PlacesInForm, InForm, ContractPath;
      var index, count := 0, 0;
      ghost var done: seq<EventPayload> := [];
      MovedNowhere(engine.repository.abs, lastSequence);
      WroteNothing(engine.repository.abs, lastSequence, scopeId);
      assert files[0..] == files && [] + Insertions(files, existing) == Insertions(files, existing);
      while index < |files|
        invariant index <= |files| && Valid()
        invariant Moved(old(engine.repository.abs), old(lastSequence), engine.repository.abs, Some(lastSequence))
        invariant Wrote(old(engine.repository.abs), old(lastSequence), done, scopeId, engine.repository.abs,
                        lastSequence)
        invariant count == |done|
        invariant done + Insertions(files[index..], existing) == Insertions(files, existing)
      {
        var f := files[index];
        InsertionsStep(files, index, existing);
        ghost var mid, m := engine.repository.abs, lastSequence;
        if PlaceOf(f) !in existing {
          var written := IngestFile(f.identity, f.path, Modified);
          MovedThen(old(engine.repository.abs), old(lastSequence), mid, m, engine.repository.abs,
                    if written then Some(lastSequence) else None);
          if !written { return None; }
          ghost var p := FileObserved(f.identity, ContractPath(f.path), Modified);
          LengthOfWrote(mid, m, [p], engine.repository.abs, lastSequence);
          WroteOneMore(old(engine.repository.abs), old(lastSequence), done, scopeId, mid, m, p, engine.repository.abs);
          done, count := done + [p], count + 1;
        }
        index := index + 1;
      }
      InsertionsEnd(files, existing);
      assert done + [] == done;
      return Some(count);
    }

    lemma LengthOfWrote(s: Store, n: nat, payloads: seq<EventPayload>, after: Store, m: nat)
      requires Wrote(s, n, payloads, scopeId, after, m)
      ensures m == n + |payloads|
    {
    }

    lemma InsertionsStep(files: seq<ReconciledFile>, index: nat, existing: set<Place>)
      requires index < |files|
      ensures Insertions(files[index..], existing) ==
        (if PlaceOf(files[index]) in existing then []
         else [FileObserved(files[index].identity, ContractPath(files[index].path), Modified)])
        + Insertions(files[index + 1..], existing)
    {
      assert files[index..][1..] == files[index + 1..];
    }

    lemma InsertionsEnd(files: seq<ReconciledFile>, existing: set<Place>)
      ensures Insertions(files[|files|..], existing) == []
    {
    }

    /** The deletion loop of `reconcile`. */
    method DeleteVanished(active: seq<Place>, current: set<Place>, issues: seq<string>) returns (deleted: Option<nat>)
      requires Valid() && (formed ==> forall x <- active :: InForm(x.1))
      modifies this`lastSequence, engine.repository
      ensures Valid()
      ensures Moved(old(engine.repository.abs), old(lastSequence), engine.repository.abs,
                    if deleted.Some? then Some(lastSequence) else None)
      ensures deleted.None? ==> lastSequence >= MAX_I64
      ensures deleted.Some? ==> deleted.value == |Deletions(active, current, issues)|
      ensures deleted.Some? ==> Wrote(old(engine.repository.abs), old(lastSequence),
                                      Deletions(active, current, issues), scopeId,
                                      engine.repository.abs, lastSequence)
    {
      hide Wrote, Deletions, SqliteRepository.Valid, Consistent, StartsWith;
      hide Ran, StableRoot, PlacesInForm, ContractPath;
      var index, count := 0, 0;
      ghost var done: seq<EventPayload> := [];
      MovedNowhere(engine.repository.abs, lastSequence);
      WroteNothing(engine.repository.abs, lastSequence, scopeId);
      assert active[0..] == active && [] + Deletions(active, current, issues) == Deletions(active, current, issues);
      while index < |active|
        invariant index <= |active| && Valid()
        invariant Moved(old(engine.repository.abs), old(lastSequence), engine.repository.abs, Some(lastSequence))
        invariant Wrote(old(engine.repository.abs), old(lastSequence), done, scopeId, engine.repository.abs,
                        lastSequence)
        invariant count == |done|
        invariant done + Deletions(active[index..], current, issues) == Deletions(active, current, issues)
      {
        var location := active[index];
        DeletionsStep(active, index, current, issues);
        ghost var mid, m := engine.repository.abs, lastSequence;
        if Vanished(location, current, issues) {
          var written := IngestFile(location.0, location.1, Deleted);
          MovedThen(old(engine.repository.abs), old(lastSequence), mid, m, engine.repository.abs,
                    if written then Some(lastSequence) else None);
          if !written { return None; }
          ghost var p := FileObserved(location.0, ContractPath(location.1), Deleted);
          LengthOfWrote(mid, m, [p], engine.repository.abs, lastSequence);
          WroteOneMore(old(engine.repository.abs), old(lastSequence), done, scopeId, mid, m, p, engine.repository.abs);
          done, count := done + [p], count + 1;
        }
        index := index + 1;
      }
      DeletionsEnd(active, current, issues);
      assert done + [] == done;
      return Some(count);
    }

    lemma DeletionsStep(active: seq<Place>, index: nat, current: set<Place>, issues: seq<string>)
      requires index < |active|
      ensures Deletions(active[index..], current, issues) ==
        (if Vanished(active[index], current, issues)
         then [FileObserved(active[index].0, ContractPath(active[index].1), Deleted)] else [])
        + Deletions(active[index + 1..], current, issues)
    {
      assert active[index..][1..] == active[index + 1..];
    }

    lemma DeletionsEnd(active: seq<Place>, current: set<Place>, issues: seq<string>)
      ensures Deletions(active[|active|..], current, issues) == []
    {
    }

    /** The issue loop of `reconcile`. */
    method RecordIssues(issues: seq<string>) returns (ok: bool)
      requires Valid()
      modifies this`lastSequence, engine.repository
      ensures Valid()
      ensures Moved(old(engine.repository.abs), old(lastSequence), engine.repository.abs,
                    if ok then Some(lastSequence) else None)
      ensures !ok ==> lastSequence >= MAX_I64
      ensures ok ==> Wrote(old(engine.repository.abs), old(lastSequence), GapPayloads(issues, old(lastSequence)),
                           scopeId,
                           engine.repository.abs, lastSequence)
    {
      hide Wrote, SqliteRepository.Valid, Consistent;
      hide Ran, StableRoot, PlacesInForm, ContractPath;
      var index := 0;
      ghost var done: seq<EventPayload> := [];
      ghost var all := GapPayloads(issues, lastSequence);
      MovedNowhere(engine.repository.abs, lastSequence);
      WroteNothing(engine.repository.abs, lastSequence, scopeId);
      assert issues[0..] == issues && [] + all == all;
      while index < |issues|
        invariant index <= |issues| && Valid()
        invariant Moved(old(engine.repository.abs), old(lastSequence), engine.repository.abs, Some(lastSequence))
        invariant Wrote(old(engine.repository.abs), old(lastSequence), done, scopeId, engine.repository.abs,
                        lastSequence)
        invariant done + GapPayloads(issues[index..], lastSequence) == all
      {
        assert issues[index..][1..] == issues[index + 1..];
        ghost var mid, m := engine.repository.abs, lastSequence;
        var written := RecordGap(IssueReason(issues[index]));
        MovedThen(old(engine.repository.abs), old(lastSequence), mid, m, engine.repository.abs,
                  if written then Some(lastSequence) else None);
        if !written { return false; }
        ghost var p := GapPayload(m, IssueReason(issues[index]));
        LengthOfWrote(mid, m, [p], engine.repository.abs, lastSequence);
        WroteOneMore(old(engine.repository.abs), old(lastSequence), done, scopeId, mid, m, p, engine.repository.abs);
        done := done + [p];
        index := index + 1;
      }
      assert done + [] == done;
      return true;
    }

    /** `reconcile`. From a stable root and locations in contract form, a clean scan leaves exactly the scanned files
        active. */
    method Reconcile(tree: Node)
      returns (r: Option<ReconcileSummary>, ghost report: ReconcileReport, ghost active: seq<Place>)
      requires Valid()
      modifies this`lastSequence, engine.repository
      ensures Valid()
      ensures Moved(old(engine.repository.abs), old(lastSequence), engine.repository.abs,
                    if r.Some? then Some(lastSequence) else None)
      ensures r.None? ==> !tree.Directory? || lastSequence >= MAX_I64
      ensures r.Some? ==> Places(active) == ActiveInScope(old(engine.repository.abs.tables), scopeId)
      ensures r.Some? ==> FileSet(report.files) == FilesBelow(root, tree)
      ensures r.Some? ==> IssueSet(report.issues) == IssuesBelow(root, tree)
      ensures r.Some? ==>
                Reconciled(old(engine.repository.abs), old(lastSequence), report, active, engine.repository.abs,
                           lastSequence)
      ensures r.Some? && formed && report.issues == [] && DistinctIdentities(report.files) ==>
                ActiveInScope(engine.repository.abs.tables, scopeId) == Current(report.files)
      ensures r.Some? ==> r.value == ReconcileSummary(
          |report.files|, |Insertions(report.files, Places(active))|,
          |Deletions(active, Current(report.files), report.issues)|, |report.issues|)
    {
      hide Reconciled, MarkReconciled, Wrote, SqliteRepository.Valid, Consistent, Insertions, Deletions;
      hide FilesBelow, IssuesBelow, ActiveInScope, Ran, StableRoot, PlacesInForm, InForm, ContractPath, Current;
      report, active := ReconcileReport([], []), [];
      ghost var s0, n0 := engine.repository.abs, lastSequence;
      MovedNowhere(s0, n0);
      var scanned := ScanScope(root, tree);
      if scanned.None? { return None, report, active; }
      report := scanned.value;
      var files, issues := scanned.value.files, scanned.value.issues;
      if formed { ScannedInForm(tree, files); }
      var rows := ActiveLocationsInScope();
      active := rows;
      if formed { RowsInForm(s0, rows); }
      var current, existing := Current(files), Places(rows);
      var inserted := InsertMissing(files, existing);
      if inserted.None? { return None, report, active; }
      ghost var s1, n1 := engine.repository.abs, lastSequence;
      var deleted := DeleteVanished(rows, current, issues);
      MovedThen(s0, n0, s1, n1, engine.repository.abs, if deleted.Some? then Some(lastSequence) else None);
      if deleted.None? { return None, report, active; }
      ghost var s2, n2 := engine.repository.abs, lastSequence;
      WroteThen(s0, n0, Insertions(files, existing), scopeId, s1, n1, Deletions(rows, current, issues), s2, n2);
      LengthOfWrote(s0, n0, FileEvents(report, active), s2, n2);
      var recorded := RecordIssues(issues);
      MovedThen(s0, n0, s2, n2, engine.repository.abs, if recorded then Some(lastSequence) else None);
      if !recorded { return None, report, active; }
      ghost var s3, n3 := engine.repository.abs, lastSequence;
      WroteThen(s0, n0, FileEvents(report, active), scopeId, s2, n2, GapPayloads(issues, n2), s3, n3);
      if |issues| == 0 {
        engine.repository.MarkCollectorReconciled(Key(), lastSequence);
        MarkingIsConsistent(s3, lastSequence);
        MarkIsARun(s3, n3, Key(), formed);
        MovedThen(s0, n0, s3, n3, engine.repository.abs, Some(lastSequence));
        MovedKeepsForm(s0, n0, engine.repository.abs, Some(lastSequence));
      }
      ReconciledBy(s0, n0, report, active, s3, n3);
      if formed && report.issues == [] && DistinctIdentities(report.files) {
        CollectorConverges(s0, n0, report, active, engine.repository.abs, lastSequence);
      }
      return Some(ReconcileSummary(|files|, inserted.value, deleted.value, |issues|)), report, active;
    }

    /** What a scan of a stable root reports is in contract form. */
    lemma ScannedInForm(tree: Node, files: seq<ReconciledFile>)
      requires StableRoot(root) && FileSet(files) == FilesBelow(root, tree)
      ensures forall f <- files :: InForm(ContractPath(f.path))
    {
      hide FilesBelow, StableRoot, InForm, ContractPath, Reaches;
      forall f | f in files ensures InForm(ContractPath(f.path)) {
        assert f in FileSet(files);
        var names := ReportedFileIsPresent(root, tree, f);
        StableBelow(root, names);
      }
    }

    lemma RowsInForm(s: Store, rows: seq<Place>)
      requires PlacesInForm(s, scopeId) && Places(rows) == ActiveInScope(s.tables, scopeId)
      ensures forall x <- rows :: InForm(x.1)
    {
      hide InForm, ActiveInScope;
      assert forall x <- rows :: x in Places(rows);
    }

    lemma ReconciledBy(s: Store, n: nat, report: ReconcileReport, active: seq<Place>, written: Store, m: nat)
      requires Wrote(s, n, FileEvents(report, active) + GapPayloads(report.issues, n + |FileEvents(report, active)|),
                     scopeId, written, m)
      ensures var after := if |report.issues| == 0 then MarkReconciled(written, Key(), m) else written;
        Reconciled(s, n, report, active, after, m)
    {
      hide Wrote;
      assert Wrote(s, n, ReconcilePayloads(report, active, n), scopeId, written, m);
    }

    lemma MarkingIsConsistent(s: Store, n: nat)
      requires Consistent(s)
      ensures Consistent(MarkReconciled(s, Key(), n))
    {
    }

    /** The state after a reconciliation: everything written, and the mark of a clean scan. */
    ghost predicate Reconciled(s: Store, n: nat, report: ReconcileReport, active: seq<Place>, after: Store, m: nat) {
      exists written: Store ::
        && Wrote(s, n, ReconcilePayloads(report, active, n), scopeId, written, m)
        && after == if |report.issues| == 0 then MarkReconciled(written, Key(), m) else written
    }

    /** The gap for each issue, in order: the collector's name, the number before the gap's own, and the issue. */
    lemma {:induction false} GapPayloadsMean(issues: seq<string>, n: nat, k: nat)
      requires k < |issues|
      ensures |GapPayloads(issues, n)| == |issues|
      ensures var gap := GapPayloads(issues, n)[k];
        && gap.CollectorGap? && gap.collector == "windows.directory-watcher" && gap.lastSequence == Some(n + k)
        && gap.reason == "scope reconciliation could not inspect " + issues[k]
    {
      if |issues| > 1 { GapPayloadsMean(issues[1..], n + 1, if k > 0 then k - 1 else 0); }
    }

    /** What a batch writes besides its changes: a gap first if the watcher lost some, and a gap last if an identity was
        unresolved, each with the number before its own. */
    lemma BatchGaps(batch: Watcher.DirectoryBatch, resolved: Answers, n: nat)
      ensures var written, changes := BatchPayloads(batch, resolved, n), ChangePayloads(root, batch.changes, resolved);
        && |written| == |changes| + (if batch.gapDetected then 1 else 0)
                        + (if Unresolved(root, batch.changes, resolved) then 1 else 0)
        && (batch.gapDetected ==>
              && written[0].CollectorGap? && written[0].collector == "windows.directory-watcher"
              && written[0].lastSequence == Some(n))
        && (Unresolved(root, batch.changes, resolved) ==>
              var last := written[|written| - 1];
              && last.CollectorGap? && last.collector == "windows.directory-watcher"
              && last.lastSequence == Some(n + |written| - 1))
    {
      hide ChangePayloads, Unresolved;
    }

    lemma {:induction false} GapPayloadsAreGaps(issues: seq<string>, n: nat)
      ensures |GapPayloads(issues, n)| == |issues|
      ensures |issues| > 0 ==> GapPayloads(issues, n)[0].CollectorGap?
    {
      if |issues| > 0 { GapPayloadsAreGaps(issues[1..], n + 1); }
    }

    /** After a reconciliation the flag says whether the scan had issues, the log has the file events and
        gaps in order, and the active locations are what those events leave. */
    lemma ReconciledFacts(s: Store, n: nat, report: ReconcileReport, active: seq<Place>, after: Store, m: nat)
      requires Reconciled(s, n, report, active, after, m)
      ensures FlagRaised(after, Key()) <==> report.issues != []
      ensures Logged(after.raw, Key()) == Logged(s.raw, Key()) + Numbered(ReconcilePayloads(report, active, n), n)
      ensures ActiveInScope(after.tables, scopeId)
           == ObserveAll(ActiveInScope(s.tables, scopeId), FileEvents(report, active))
      ensures FileEvents(report, active) == [] && report.issues == [] ==> after.raw == s.raw && after.tables == s.tables
    {
      hide Logged, ActiveInScope, Observe, FileEvents, Numbered;
      var written: Store :| Wrote(s, n, ReconcilePayloads(report, active, n), scopeId, written, m)
        && after == if |report.issues| == 0 then MarkReconciled(written, Key(), m) else written;
      var events := FileEvents(report, active);
      var gaps := GapPayloads(report.issues, n + |events|);
      GapPayloadsAreGaps(report.issues, n + |events|);
      var places := ActiveInScope(s.tables, scopeId);
      ObserveAllConcat(places, events, gaps);
      GapsObserveNothing(ObserveAll(places, events), report.issues, n + |events|);
      if |gaps| > 0 {
        assert gaps[0] in events + gaps by { assert (events + gaps)[|events|] == gaps[0]; }
      }
    }

    lemma {:induction false} GapsObserveNothing(places: set<Place>, issues: seq<string>, n: nat)
      ensures ObserveAll(places, GapPayloads(issues, n)) == places
      decreases |issues|
    {
      if |issues| > 0 {
        var gaps := GapPayloads(issues, n);
        assert gaps[1..] == GapPayloads(issues[1..], n + 1);
        GapsObserveNothing(places, issues[1..], n + 1);
      }
    }

    /** `ingest_change`. */
    method IngestChange(c: Watcher.DirectoryChange, resolved: Option<FileIdentity>) returns (r: Option<ChangeOutcome>)
      requires Valid()
      modifies this`lastSequence, engine.repository
      ensures Valid()
      ensures Moved(old(engine.repository.abs), old(lastSequence), engine.repository.abs,
                    if r.Some? then Some(lastSequence) else None)
      ensures r.None? ==> lastSequence >= MAX_I64
      ensures r.Some? ==> r.value == Interpret(root, c, resolved)
      ensures r.Some? && r.value.IngestedChange? ==>
                Wrote(old(engine.repository.abs), old(lastSequence), [r.value.payload], scopeId,
                      engine.repository.abs, lastSequence)
      ensures r.Some? && !r.value.IngestedChange? ==>
                engine.repository.abs == old(engine.repository.abs) && lastSequence == old(lastSequence)
    {
      hide Wrote, SqliteRepository.Valid, Consistent, Ran, StableRoot, PlacesInForm, InForm, ContractPath;
      MovedNowhere(engine.repository.abs, lastSequence);
      var change := FileChangeOf(c.action);
      if change.None? { return Some(Ignored); }
      var path := Join(root, c.relativePath);
      var identity := c.identity;
      if identity.None? {
        if change.value == Deleted { return Some(NeedsReconciliation); }
        identity := resolved;
        if identity.None? { return Some(NeedsReconciliation); }
      }
      if formed { StableJoin(root, c.relativePath); }
      var ok := IngestFile(identity.value, path, change.value);
      if !ok { return None; }
      return Some(IngestedChange(FileObserved(identity.value, ContractPath(path), change.value)));
    }

    /** The change loop of `ingest_batch`. */
    method IngestChanges(changes: seq<Watcher.DirectoryChange>, resolved: Answers) returns (r: Option<bool>)
      requires Valid()
      modifies this`lastSequence, engine.repository
      ensures Valid()
      ensures Moved(old(engine.repository.abs), old(lastSequence), engine.repository.abs,
                    if r.Some? then Some(lastSequence) else None)
      ensures r.None? ==> lastSequence >= MAX_I64
      ensures r.Some? ==> r.value == Unresolved(root, changes, resolved)
      ensures r.Some? ==>
                Wrote(old(engine.repository.abs), old(lastSequence), ChangePayloads(root, changes, resolved), scopeId,
                      engine.repository.abs, lastSequence)
    {
      hide Wrote, SqliteRepository.Valid, Consistent, Interpret, Ran, StableRoot, PlacesInForm;
      var index, unresolved := 0, false;
      MovedNowhere(engine.repository.abs, lastSequence);
      WroteNothing(engine.repository.abs, lastSequence, scopeId);
      while index < |changes|
        invariant index <= |changes| && Valid()
        invariant Moved(old(engine.repository.abs), old(lastSequence), engine.repository.abs, Some(lastSequence))
        invariant unresolved <==> Unresolved(root, changes[..index], resolved)
        invariant Wrote(old(engine.repository.abs), old(lastSequence), ChangePayloads(root, changes[..index], resolved),
                        scopeId, engine.repository.abs, lastSequence)
      {
        assert changes[..index + 1][..index] == changes[..index];
        ghost var mid, m := engine.repository.abs, lastSequence;
        var outcome := IngestChange(changes[index], resolved(index));
        MovedThen(old(engine.repository.abs), old(lastSequence), mid, m, engine.repository.abs,
                  if outcome.Some? then Some(lastSequence) else None);
        if outcome.None? { return None; }
        if outcome.value.NeedsReconciliation? { unresolved := true; }
        if outcome.value.IngestedChange? {
          LengthOfWrote(mid, m, [outcome.value.payload], engine.repository.abs, lastSequence);
          WroteOneMore(old(engine.repository.abs), old(lastSequence), ChangePayloads(root, changes[..index], resolved),
                       scopeId, mid, m, outcome.value.payload, engine.repository.abs);
        }
        UnresolvedStep(changes, resolved, index);
        index := index + 1;
      }
      assert changes[..index] == changes;
      return Some(unresolved);
    }

    lemma UnresolvedStep(changes: seq<Watcher.DirectoryChange>, resolved: Answers, index: nat)
      requires index < |changes|
      ensures Unresolved(root, changes[..index + 1], resolved) <==>
              Unresolved(root, changes[..index], resolved)
              || Interpret(root, changes[index], resolved(index)) == NeedsReconciliation
    {
      hide Interpret;
      var longer, shorter := changes[..index + 1], changes[..index];
      assert forall k :: 0 <= k < |shorter| ==> longer[k] == shorter[k];
      assert longer[index] == changes[index];
    }

    // -------------------------------------------------------------- convergence of the collector's own runs

    /** After a clean reconciliation the active locations of the scope are the scanned files, if and only if
        the stored locations were normal. */
    lemma ReconcileConverges(s: Store, n: nat, report: ReconcileReport, active: seq<Place>, after: Store, m: nat)
      requires Consistent(s) && Places(active) == ActiveInScope(s.tables, scopeId)
      requires Reconciled(s, n, report, active, after, m)
      requires report.issues == [] && DistinctIdentities(report.files)
      ensures ActiveInScope(after.tables, scopeId) == Current(report.files) <==>
          Normal(ActiveInScope(s.tables, scopeId), Current(report.files))
    {
      hide Sound, Reconciled, ActiveInScope, Normal, FileEvents, Observe;
      RebuildIsSound(s.raw);
      SoundTablesHaveOnePlaceEach(s.tables, scopeId);
      ReconciledFacts(s, n, report, active, after, m);
      ReconciliationConverges(report, active);
    }

    /** Locations in contract form are normal, so a clean reconciliation leaves exactly the scanned files active. */
    lemma CollectorConverges(s: Store, n: nat, report: ReconcileReport, active: seq<Place>, after: Store, m: nat)
      requires Consistent(s) && Places(active) == ActiveInScope(s.tables, scopeId) && PlacesInForm(s, scopeId)
      requires Reconciled(s, n, report, active, after, m)
      requires report.issues == [] && DistinctIdentities(report.files)
      ensures ActiveInScope(after.tables, scopeId) == Current(report.files)
    {
      hide Reconciled, ActiveInScope, Normal, Consistent;
      ReconcileConverges(s, n, report, active, after, m);
      ContractFormIsNormal(ActiveInScope(s.tables, scopeId), Current(report.files));
    }

    /** Reconciling a converged scope again, on the same scan, stores nothing. */
    lemma ReconcileAgainIsQuiet(s: Store, n: nat, report: ReconcileReport, active: seq<Place>, after: Store, m: nat)
      requires Places(active) == ActiveInScope(s.tables, scopeId) == Current(report.files)
      requires Reconciled(s, n, report, active, after, m) && report.issues == []
      ensures after.raw == s.raw && after.tables == s.tables && !FlagRaised(after, Key())
    {
      hide Reconciled, ActiveInScope;
      SecondReconciliationIsQuiet(report, active);
      ReconciledFacts(s, n, report, active, after, m);
    }

    // -------------------------------------------------------------- batches

    /** What a batch writes before any reconciliation. */
    function BatchPayloads(batch: Watcher.DirectoryBatch, resolved: Answers, n: nat): seq<EventPayload> {
      var gap := if batch.gapDetected then [GapPayload(n, BATCH_GAP)] else [];
      var changes := ChangePayloads(root, batch.changes, resolved);
      gap + changes +
      (if Unresolved(root, batch.changes, resolved) then [GapPayload(n + |gap + changes|, UNRESOLVED_IDENTITY)] else [])
    }

    static const BATCH_GAP := "ReadDirectoryChangesExW returned zero bytes; scope reconciliation required"
    static const UNRESOLVED_IDENTITY := "a directory change had no resolvable stable file identity"

    /** The state after a batch: its events, and a reconciliation if an identity was unresolved. */
    ghost predicate BatchIngested(
      s: Store, n: nat, batch: Watcher.DirectoryBatch, resolved: Answers, tree: Node, after: Store, m: nat)
    {
      exists mid: Store, k: nat ::
        && Wrote(s, n, BatchPayloads(batch, resolved, n), scopeId, mid, k)
        && (if Unresolved(root, batch.changes, resolved) then ReconciledOn(mid, k, tree, after, m)
            else after == mid && m == k)
    }

    /** Some reconciliation of the scanned tree. */
    ghost predicate ReconciledOn(s: Store, n: nat, tree: Node, after: Store, m: nat) {
      exists report: ReconcileReport, active: seq<Place> ::
        && FileSet(report.files) == FilesBelow(root, tree) && IssueSet(report.issues) == IssuesBelow(root, tree)
        && Places(active) == ActiveInScope(s.tables, scopeId)
        && Reconciled(s, n, report, active, after, m)
    }

    /** The state after one batch of the event loop: the batch, and a reconciliation if it was a gap. */
    ghost predicate Processed(s: Store, n: nat, work: BatchWork, after: Store, m: nat) {
      exists mid: Store, k: nat ::
        && BatchIngested(s, n, work.batch, work.resolved, work.during, mid, k)
        && (if work.batch.gapDetected then ReconciledOn(mid, k, work.later, after, m) else after == mid && m == k)
    }

    /** `ingest_batch`. */
    method IngestBatch(batch: Watcher.DirectoryBatch, resolved: Answers, tree: Node) returns (ok: bool)
      requires Valid()
      modifies this`lastSequence, engine.repository
      ensures Valid()
      ensures Moved(old(engine.repository.abs), old(lastSequence), engine.repository.abs,
                    if ok then Some(lastSequence) else None)
      ensures !ok ==> !tree.Directory? || lastSequence >= MAX_I64
      ensures ok ==>
                BatchIngested(old(engine.repository.abs), old(lastSequence), batch, resolved, tree,
                              engine.repository.abs, lastSequence)
      ensures ok && !Unresolved(root, batch.changes, resolved) ==>
                LastChangesDecide(root, batch.changes, resolved, ActiveInScope(engine.repository.abs.tables, scopeId))
    {
      hide Wrote, SqliteRepository.Valid, Consistent, Reconciled, Unresolved, Interpret, FilesBelow, IssuesBelow;
      hide ActiveInScope, Ran, StableRoot, PlacesInForm, Current, LastChangesDecide;
      ghost var s0, n0 := engine.repository.abs, lastSequence;
      ghost var gap: seq<EventPayload> := [];
      WroteNothing(s0, n0, scopeId);
      MovedNowhere(s0, n0);
      if batch.gapDetected {
        var recorded := RecordGap(BATCH_GAP);
        if !recorded { return false; }
        gap := [GapPayload(n0, BATCH_GAP)];
      }
      ghost var s1, n1 := engine.repository.abs, lastSequence;
      var unresolved := IngestChanges(batch.changes, resolved);
      MovedThen(s0, n0, s1, n1, engine.repository.abs, if unresolved.Some? then Some(lastSequence) else None);
      if unresolved.None? { return false; }
      ghost var s2, n2 := engine.repository.abs, lastSequence;
      ghost var changes := ChangePayloads(root, batch.changes, resolved);
      WroteThen(s0, n0, gap, scopeId, s1, n1, changes, s2, n2);
      LengthOfWrote(s0, n0, gap + changes, s2, n2);
      if !unresolved.value {
        assert BatchPayloads(batch, resolved, n0) == gap + changes + [] == gap + changes;
        BatchDecides(s0, n0, batch, resolved, tree, s2, n2);
        return true;
      }
      var recorded := RecordGap(UNRESOLVED_IDENTITY);
      MovedThen(s0, n0, s2, n2, engine.repository.abs, if recorded then Some(lastSequence) else None);
      if !recorded { return false; }
      ghost var s3, n3 := engine.repository.abs, lastSequence;
      WroteThen(s0, n0, gap + changes, scopeId, s2, n2, [GapPayload(n2, UNRESOLVED_IDENTITY)], s3, n3);
      var summary, report, active := Reconcile(tree);
      MovedThen(s0, n0, s3, n3, engine.repository.abs, if summary.Some? then Some(lastSequence) else None);
      if summary.None? { return false; }
      assert ReconciledOn(s3, n3, tree, engine.repository.abs, lastSequence);
      return true;
    }

    lemma BatchDecides(s: Store, n: nat, batch: Watcher.DirectoryBatch, resolved: Answers, tree: Node, after: Store,
                       m: nat)
      requires BatchIngested(s, n, batch, resolved, tree, after, m) && !Unresolved(root, batch.changes, resolved)
      ensures LastChangesDecide(root, batch.changes, resolved, ActiveInScope(after.tables, scopeId))
    {
      hide Unresolved, ActiveInScope, Logged, Observe, Numbered, LastChangesDecide, FlagRaised, ReconciledOn;
      var mid: Store, k: nat :| Wrote(s, n, BatchPayloads(batch, resolved, n), scopeId, mid, k) && after == mid
          && m == k;
      var gap := if batch.gapDetected then [GapPayload(n, BATCH_GAP)] else [];
      var changes := ChangePayloads(root, batch.changes, resolved);
      assert BatchPayloads(batch, resolved, n) == gap + changes;
      var before := ActiveInScope(s.tables, scopeId);
      ObserveAllConcat(before, gap, changes);
      ChangesDecide(root, batch.changes, resolved, ObserveAll(before, gap));
    }

    /** Unknown actions write nothing. */
    lemma UnknownActionsWriteNothing(s: Store, n: nat, batch: Watcher.DirectoryBatch, resolved: Answers, tree: Node,
                                     after: Store, m: nat)
      requires BatchIngested(s, n, batch, resolved, tree, after, m) && !batch.gapDetected
      requires forall c <- batch.changes :: c.action.Unknown?
      ensures after == s && m == n
    {
      hide ReconciledOn;
      NoPayloads(batch.changes, resolved);
    }

    lemma {:induction false} NoPayloads(changes: seq<Watcher.DirectoryChange>, resolved: Answers)
      requires forall c <- changes :: c.action.Unknown?
      ensures ChangePayloads(root, changes, resolved) == [] && !Unresolved(root, changes, resolved)
    {
      hide ContractPath, Join;
      if |changes| > 0 {
        assert changes[|changes| - 1] in changes;
        NoPayloads(changes[..|changes| - 1], resolved);
      }
    }

    /** One batch of the event loop: `ingest_batch`, then a reconciliation if the batch was a gap. */
    method ProcessBatch(work: BatchWork) returns (ok: bool)
      requires Valid()
      modifies this`lastSequence, engine.repository
      ensures Valid()
      ensures Moved(old(engine.repository.abs), old(lastSequence), engine.repository.abs,
                    if ok then Some(lastSequence) else None)
      ensures !ok ==> !work.during.Directory? || !work.later.Directory? || lastSequence >= MAX_I64
      ensures ok ==>
                Processed(old(engine.repository.abs), old(lastSequence), work, engine.repository.abs, lastSequence)
    {
      hide SqliteRepository.Valid, Consistent, BatchIngested, IssuesBelow, FilesBelow, Reconciled, ActiveInScope;
      hide Ran, StableRoot, PlacesInForm, Current;
      ghost var s0, n0 := engine.repository.abs, lastSequence;
      ok := IngestBatch(work.batch, work.resolved, work.during);
      if ok && work.batch.gapDetected {
        ghost var s, n := engine.repository.abs, lastSequence;
        var summary, report, active := Reconcile(work.later);
        MovedThen(s0, n0, s, n, engine.repository.abs, if summary.Some? then Some(lastSequence) else None);
        if summary.None? { return false; }
        assert ReconciledOn(s, n, work.later, engine.repository.abs, lastSequence);
      }
    }

    lemma FlagAfterReconcile(s: Store, n: nat, tree: Node, after: Store, m: nat)
      requires ReconciledOn(s, n, tree, after, m)
      ensures FlagRaised(after, Key()) <==> IssuesBelow(root, tree) != {}
    {
      hide Reconciled, FlagRaised, IssuesBelow, FilesBelow, ActiveInScope;
      var report: ReconcileReport, active: seq<Place> :|
        FileSet(report.files) == FilesBelow(root, tree) && IssueSet(report.issues) == IssuesBelow(root, tree)
        && Places(active) == ActiveInScope(s.tables, scopeId) && Reconciled(s, n, report, active, after, m);
      ReconciledFacts(s, n, report, active, after, m);
      if |report.issues| > 0 { assert report.issues[0] in IssueSet(report.issues); }
    }

    lemma FlagAfterIngest(s: Store, n: nat, work: BatchWork, after: Store, m: nat)
      requires BatchIngested(s, n, work.batch, work.resolved, work.during, after, m) && !work.batch.gapDetected
      ensures FlagRaised(after, Key()) <==>
              if Unresolved(root, work.batch.changes, work.resolved) then IssuesBelow(root, work.during) != {}
              else FlagRaised(s, Key())
    {
      hide ReconciledOn, FlagRaised, IssuesBelow, Unresolved, ActiveInScope, Logged, Observe, Numbered;
      var batch, resolved := work.batch, work.resolved;
      var mid: Store, k: nat :| Wrote(s, n, BatchPayloads(batch, resolved, n), scopeId, mid, k)
        && (if Unresolved(root, batch.changes, resolved) then ReconciledOn(mid, k, work.during, after, m)
            else after == mid && m == k);
      if Unresolved(root, batch.changes, resolved) {
        FlagAfterReconcile(mid, k, work.during, after, m);
      } else {
        ChangesAreNotGaps(batch.changes, resolved);
        assert BatchPayloads(batch, resolved, n) == ChangePayloads(root, batch.changes, resolved);
      }
    }

    lemma {:induction false} ChangesAreNotGaps(changes: seq<Watcher.DirectoryChange>, resolved: Answers)
      ensures forall p <- ChangePayloads(root, changes, resolved) :: p.FileObserved?
    {
      if |changes| > 0 { ChangesAreNotGaps(changes[..|changes| - 1], resolved); }
    }

    /** What one batch does to the flag: after a gap or an unresolved identity it says whether the last scan had
        issues, otherwise it stays. */
    lemma FlagAfterBatch(s: Store, n: nat, work: BatchWork, after: Store, m: nat)
      requires Processed(s, n, work, after, m)
      ensures FlagRaised(after, Key()) <==> IssuesAfter(work, FlagRaised(s, Key()))
    {
      hide BatchIngested, ReconciledOn, FlagRaised, IssuesBelow, Unresolved;
      var mid: Store, k: nat :| BatchIngested(s, n, work.batch, work.resolved, work.during, mid, k)
        && (if work.batch.gapDetected then ReconciledOn(mid, k, work.later, after, m) else after == mid && m == k);
      if work.batch.gapDetected {
        FlagAfterReconcile(mid, k, work.later, after, m);
      } else {
        FlagAfterIngest(s, n, work, mid, k);
      }
    }

    /** Whether the last scan up to and including this batch had issues, if `before` says so of the scans before it. */
    function IssuesAfter(work: BatchWork, before: bool): bool {
      if work.batch.gapDetected then IssuesBelow(root, work.later) != {}
      else if Unresolved(root, work.batch.changes, work.resolved) then IssuesBelow(root, work.during) != {}
      else before
    }

    // -------------------------------------------------------------- the event loop

    /** One turn of the loop: a batch, or a transaction of another writer. */
    ghost predicate Turned(s: Store, n: nat, turn: Turn, after: Store, m: nat) {
      match turn
      case OneBatch(work) => Processed(s, n, work, after, m)
      case Foreign(tx) => TransactionKey(tx) != Key() && after == Execute(s, tx) && m == n
    }

    ghost predicate Looped(s: Store, n: nat, turns: seq<Turn>, after: Store, m: nat)
      decreases |turns|, 0
    {
      if |turns| == 0 then after == s && m == n
      else TurnedAfter(s, n, turns[..|turns| - 1], turns[|turns| - 1], after, m)
    }

    ghost predicate TurnedAfter(s: Store, n: nat, turns: seq<Turn>, last: Turn, after: Store, m: nat)
      decreases |turns|, 1
    {
      exists mid: Store, k: nat :: Looped(s, n, turns, mid, k) && Turned(mid, k, last, after, m)
    }

    /** Whether the last scan of a run of the loop had issues. */
    function LastScanHadIssues(turns: seq<Turn>, before: bool): bool {
      if |turns| == 0 then before
      else
        var earlier := LastScanHadIssues(turns[..|turns| - 1], before);
        match turns[|turns| - 1]
        case OneBatch(work) => IssuesAfter(work, earlier)
        case Foreign(_) => earlier
    }

    /** Between batches the flag is raised exactly if the last reconciliation had issues, the one at the start
        included, whoever else writes in between. */
    lemma {:induction false} FlagSaysLastScan(
      s: Store, n: nat, start: Node, first: Store, k: nat, turns: seq<Turn>, after: Store, m: nat)
      requires ReconciledOn(s, n, start, first, k) && Looped(first, k, turns, after, m)
      ensures FlagRaised(after, Key()) <==> LastScanHadIssues(turns, IssuesBelow(root, start) != {})
      decreases |turns|
    {
      hide ReconciledOn, FlagRaised, IssuesBelow, Processed, IssuesAfter, Execute;
      FlagAfterReconcile(s, n, start, first, k);
      if |turns| > 0 {
        var init, last := turns[..|turns| - 1], turns[|turns| - 1];
        var mid: Store, j: nat :| Looped(first, k, init, mid, j) && Turned(mid, j, last, after, m);
        FlagSaysLastScan(s, n, start, first, k, init, mid, j);
        match last
        case OneBatch(work) => FlagAfterBatch(mid, j, work, after, m);
        case Foreign(tx) => ForeignLeavesFlag(mid, tx);
      }
    }

    lemma ForeignLeavesFlag(s: Store, tx: Transaction)
      requires TransactionKey(tx) != Key()
      ensures FlagRaised(Execute(s, tx), Key()) <==> FlagRaised(s, Key())
    {
      hide ApplyChecked, ProjectEvent, SortKey.Sortable, Ids;
    }

    // -------------------------------------------------------------- from the watcher's buffer

    /** One result of the watcher, parsed and processed; a buffer that does not parse ends the agent. */
    method ProcessBuffer(buffer: array<byte>, bytesReturned: nat, volume: string, resolved: Answers, during: Node,
                         later: Node)
      returns (ok: bool)
      requires Valid()
      modifies this`lastSequence, engine.repository
      ensures Valid()
      ensures Moved(old(engine.repository.abs), old(lastSequence), engine.repository.abs,
                    if ok then Some(lastSequence) else None)
      ensures !ok ==>
                || ChangeBuffer.ReadBuffer(buffer[..], bytesReturned, volume).Err?
                || !during.Directory? || !later.Directory? || lastSequence >= MAX_I64
      ensures ok ==>
                var parsed := ChangeBuffer.ReadBuffer(buffer[..], bytesReturned, volume);
                && parsed.Ok?
                && Processed(old(engine.repository.abs), old(lastSequence),
                             BatchWork(parsed.value, resolved, during, later), engine.repository.abs, lastSequence)
      ensures ok ==>
                (FlagRaised(engine.repository.abs, Key()) <==>
                 if bytesReturned == 0 then IssuesBelow(root, later) != {}
                 else old(FlagRaised(engine.repository.abs, Key())))
    {
      hide SqliteRepository.Valid, Consistent, Processed, FlagRaised, IssuesBelow, Ran, StableRoot, PlacesInForm;
      hide Unresolved, ChangeBuffer.ReadChain;
      ghost var s0, n0 := engine.repository.abs, lastSequence;
      MovedNowhere(s0, n0);
      var batch := ChangeBuffer.ParseExtendedChangeBuffer(buffer, bytesReturned, volume);
      if batch.Err? { return false; }
      var work := BatchWork(batch.value, resolved, during, later);
      ok := ProcessBatch(work);
      if ok {
        FlagAfterBatch(s0, n0, work, engine.repository.abs, lastSequence);
        if bytesReturned > 0 { ParsedChangesResolve(buffer[..bytesReturned], volume, resolved); }
      }
    }

    /** The watcher's records carry identities, so a parsed batch never has an unresolved one. */
    lemma {:induction false} ParsedChangesResolve(b: seq<byte>, volume: string, resolved: Answers)
      requires ChangeBuffer.ReadChain(b, volume).Ok?
      ensures !Unresolved(root, ChangeBuffer.ReadChain(b, volume).value, resolved)
    {
      hide ContractPath, Join;
      ParsedChangesHaveIdentities(b, volume);
    }

    lemma {:induction false} ParsedChangesHaveIdentities(b: seq<byte>, volume: string)
      requires ChangeBuffer.ReadChain(b, volume).Ok?
      ensures forall c <- ChangeBuffer.ReadChain(b, volume).value :: c.identity.Some?
      decreases |b|
    {
      hide ChangeBuffer.ReadHeader;
      ChangeBuffer.ChainStep(b, volume);
      var next := ChangeBuffer.ReadHeader(b).next;
      if ChangeBuffer.HEADER <= next <= |b| { ParsedChangesHaveIdentities(b[next..], volume); }
    }

    // -------------------------------------------------------------- over every run

    /** Every method that moves the collector keeps the numbers contiguous, equal to the checkpoint and, while it
        is live, to the counter; and the checkpoint does not go back. */
    lemma MovedKeepsContiguous(s: Store, n: nat, after: Store, live: Option<nat>)
      requires Moved(s, n, after, live) && Contiguous(World(s, Some(n)), Key())
      ensures Contiguous(World(after, live), Key()) && CheckpointOf(s, Key()) <= CheckpointOf(after, Key())
    {
      hide Ran, PlacesInForm, Contiguous;
      RanKeeps(World(s, Some(n)), Key(), World(after, live), formed);
    }

    /** A store that runs of the collector reach from an empty one while only it writes file events of its scope,
        and the counter if a collector is live. */
    ghost predicate Reached(s: Store, live: Option<nat>) {
      Ran(World(NEW_STORE, None), Key(), World(s, live), true)
    }

    /** Opening the collector, what its methods do, its end at any moment, and transactions of others reach on. */
    lemma ReachesOn(s: Store, live: Option<nat>)
      requires Reached(s, live)
      ensures Reached(s, Some(CheckpointOf(s, Key()))) && Reached(s, None)
      ensures forall after, end ::
                formed && live.Some? && Moved(s, live.value, after, end) ==> Reached(after, end)
      ensures forall tx :: TransactionKey(tx) != Key() && KeepsForm(Key(), Step.Other(tx)) ==>
                Reached(Execute(s, tx), live)
    {
      hide Ran, Execute, CheckpointOf;
      var start, w := World(NEW_STORE, None), World(s, live);
      RanStep(w, Key(), Open, true);
      RanThen(start, Key(), w, World(s, Some(CheckpointOf(s, Key()))), true);
      RanStep(w, Key(), Crash, true);
      RanThen(start, Key(), w, World(s, None), true);
      forall after, end | formed && live.Some? && Moved(s, live.value, after, end) ensures Reached(after, end) {
        RanThen(start, Key(), w, World(after, end), true);
      }
      forall tx | TransactionKey(tx) != Key() && KeepsForm(Key(), Step.Other(tx))
        ensures Reached(Execute(s, tx), live)
      {
        RanStep(w, Key(), Step.Other(tx), true);
        RanThen(start, Key(), w, World(Execute(s, tx), live), true);
      }
    }

    /** In every reached store the numbers are contiguous and every active location is in contract form. */
    lemma ReachedFacts(s: Store, live: Option<nat>)
      requires Reached(s, live)
      ensures Consistent(s) && Contiguous(World(s, live), Key()) && PlacesInForm(s, scopeId)
    {
      hide RunSteps, Formed, Consistent, PlacesInForm, Contiguous;
      var start := World(NEW_STORE, None);
      var steps :| RunSteps(start, Key(), steps) == World(s, live) && Formed(Key(), steps);
      NewStoreInForm(scopeId);
      RunKeepsForm(start, Key(), steps);
      RunIsConsistent(Key(), steps);
      SequencesAreContiguous(Key(), steps);
    }

    /** In every reached store a clean scan leaves exactly the scanned files active, and a second one stores nothing. */
    lemma CollectorRunsConverge(
      s: Store, n: nat, report: ReconcileReport, active: seq<Place>, after: Store, m: nat,
      again: ReconcileReport, rows: seq<Place>, last: Store, k: nat)
      requires Reached(s, Some(n))
      requires Places(active) == ActiveInScope(s.tables, scopeId) && Reconciled(s, n, report, active, after, m)
      requires report.issues == [] && DistinctIdentities(report.files)
      requires Places(rows) == ActiveInScope(after.tables, scopeId) && Reconciled(after, m, again, rows, last, k)
      requires again.issues == [] && FileSet(again.files) == FileSet(report.files)
      ensures ActiveInScope(after.tables, scopeId) == Current(report.files)
      ensures last.raw == after.raw && last.tables == after.tables && !FlagRaised(last, Key())
    {
      hide Reconciled, ActiveInScope, Reached, Consistent, PlacesInForm, FlagRaised;
      ReachedFacts(s, Some(n));
      CollectorConverges(s, n, report, active, after, m);
      SameCurrent(report.files, again.files);
      ReconcileAgainIsQuiet(after, m, again, rows, last, k);
    }

    lemma SameCurrent(files: seq<ReconciledFile>, again: seq<ReconciledFile>)
      requires FileSet(files) == FileSet(again)
      ensures Current(files) == Current(again)
    {
      hide PlaceOf;
      assert forall f :: f in files <==> f in FileSet(files);
      assert forall f :: f in again <==> f in FileSet(again);
    }

    /** A v1 event submitted with a verbatim path, and a clean scan that finds the file there: the file's place is
        gone. */
    lemma VerbatimSubmissionLosesFile(e: EventEnvelope, identity: FileIdentity, n: nat, active: seq<Place>,
                                      after: Store, m: nat)
      requires e.scopeId == scopeId && e.payload == FileObserved(identity, VERBATIM_FILE, Created)
      requires Project(NEW_STORE, e).Ok?
      requires var s := Execute(NEW_STORE, AppendEvent(e));
        && Places(active) == ActiveInScope(s.tables, scopeId)
        && Reconciled(s, n, ReconcileReport([ReconciledFile(VERBATIM_FILE, identity)], []), active, after, m)
      ensures Current([ReconciledFile(VERBATIM_FILE, identity)]) == {(identity, "C:\\a")}
      ensures ActiveInScope(after.tables, scopeId) == {}
    {
      hide Reconciled, ActiveInScope, Consistent, FileEvents, Current, ContractPath;
      var s := Execute(NEW_STORE, AppendEvent(e));
      var report := ReconcileReport([ReconciledFile(VERBATIM_FILE, identity)], []);
      assert ActiveInScope(s.tables, scopeId) == {(identity, VERBATIM_FILE)} by { SubmittedPlace(e, identity); }
      ReconciledFacts(s, n, report, active, after, m);
      VerbatimLocationLosesFile(identity, active);
    }

    lemma SubmittedPlace(e: EventEnvelope, identity: FileIdentity)
      requires e.scopeId == scopeId && e.payload == FileObserved(identity, VERBATIM_FILE, Created)
      requires Project(NEW_STORE, e).Ok?
      ensures ActiveInScope(Execute(NEW_STORE, AppendEvent(e)).tables, scopeId) == {(identity, VERBATIM_FILE)}
    {
      hide ActiveInScope, SortKey.Sortable, Advance, Apply;
      assert ActiveInScope(EMPTY, scopeId) == {} by { NoPlaces(); }
      EmptyIsSound();
      ApplyObserves(EMPTY, e);
      assert (set x: Place | x in {} && x.0 != identity) == {};
    }

    lemma NoPlaces()
      ensures ActiveInScope(EMPTY, scopeId) == {}
    {
    }

    lemma EmptyIsSound()
      ensures Sound(EMPTY)
    {
    }
  }
}
