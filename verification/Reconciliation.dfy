/**
  What a reconciliation of a scope ingests, as a function of the report and the active locations, and
  what that does to the active locations: convergence to the scanned files, with the exact condition,
  stability of a second run, and no deletion of a file that is still there.
 */
module Reconciliation {
  import opened Contracts
  import opened Projection
  import opened Paths
  import opened ScopeScan

  type Place = (FileIdentity, string)

  /** `active_locations_in_scope`. */
  function ActiveInScope(t: Tables, scopeId: string): set<Place> {
    set k | k in t.locations && t.locations[k].active && t.locations[k].scopeId == scopeId
  }

  /** The rows of the query as a set. */
  function Places(active: seq<Place>): set<Place> {
    set x | x in active
  }

  predicate OnePlaceEach(active: set<Place>) {
    forall x, y :: x in active && y in active && x.0 == y.0 ==> x == y
  }

  lemma SoundTablesHaveOnePlaceEach(t: Tables, scopeId: string)
    requires Sound(t)
    ensures OnePlaceEach(ActiveInScope(t, scopeId))
  {
    forall x, y | x in ActiveInScope(t, scopeId) && y in ActiveInScope(t, scopeId) && x.0 == y.0
      ensures x == y
    {
      assert (x.0, x.1) in t.locations && (x.0, y.1) in t.locations;
    }
  }

  /** What one event of this scope does to the scope's active locations. */
  function Observe(active: set<Place>, payload: EventPayload): set<Place> {
    match payload
    case FileObserved(identity, path, change) =>
      if change == Deleted then active - {(identity, path)}
      else (set x | x in active && x.0 != identity) + {(identity, path)}
    case _ => active
  }

  function ObserveAll(active: set<Place>, payloads: seq<EventPayload>): set<Place>
    decreases |payloads|
  {
    if |payloads| == 0 then active else ObserveAll(Observe(active, payloads[0]), payloads[1..])
  }

  lemma {:induction false} ObserveAllConcat(active: set<Place>, a: seq<EventPayload>, b: seq<EventPayload>)
    ensures ObserveAll(active, a + b) == ObserveAll(ObserveAll(active, a), b)
    decreases |a|
  {
    if |a| == 0 {
      assert a + b == b;
    } else {
      assert (a + b)[1..] == a[1..] + b;
      ObserveAllConcat(Observe(active, a[0]), a[1..], b);
    }
  }

  /** The projection of an event does to the tables what `Observe` says. */
  lemma ApplyObserves(t: Tables, e: EventEnvelope)
    requires Sound(t)
    ensures ActiveInScope(ApplyAll(t, ProjectEvent(e)), e.scopeId) == Observe(ActiveInScope(t, e.scopeId), e.payload)
  {
    hide Apply;
    ApplyProjected(t, e);
    if !e.payload.FileObserved? && |ProjectEvent(e)| == 1 { ProjectionOfOthers(t, e); }
    match e.payload
    case FileObserved(identity, path, change) =>
      if change == Deleted {
        DeletionObserved(t, identity, path, e);
      } else {
        ObservationObserved(t, identity, path, e);
      }
    case _ =>
  }

  /** Only file observations touch locations. */
  lemma ProjectionOfOthers(t: Tables, e: EventEnvelope)
    requires !e.payload.FileObserved? && |ProjectEvent(e)| == 1
    ensures Apply(t, ProjectEvent(e)[0]).locations == t.locations
  {
  }

  lemma DeletionObserved(t: Tables, identity: FileIdentity, path: string, e: EventEnvelope)
    requires Sound(t) && e.payload == FileObserved(identity, path, Deleted)
    ensures ActiveInScope(Apply(t, ProjectEvent(e)[0]), e.scopeId) == ActiveInScope(t, e.scopeId) - {(identity, path)}
  {
  }

  lemma ObservationObserved(t: Tables, identity: FileIdentity, path: string, e: EventEnvelope)
    requires e.payload.FileObserved? && e.payload.identity == identity && e.payload.path == path
    requires e.payload.change != Deleted
    ensures ActiveInScope(Apply(t, ProjectEvent(e)[0]), e.scopeId)
         == (set x | x in ActiveInScope(t, e.scopeId) && x.0 != identity) + {(identity, path)}
  {
    var before := ActiveInScope(t, e.scopeId);
    var after := ActiveInScope(Apply(t, ProjectEvent(e)[0]), e.scopeId);
    forall k: Place ensures k in after <==> (k in before && k.0 != identity) || k == (identity, path) {
      assert k in Deactivate(t.locations, identity) <==> k in t.locations;
    }
  }

  // ---------------------------------------------------------------- what a reconciliation ingests

  function PlaceOf(f: ReconciledFile): Place {
    (f.identity, ContractPath(f.path))
  }

  function Current(files: seq<ReconciledFile>): set<Place> {
    set f | f in files :: PlaceOf(f)
  }

  function Insertions(files: seq<ReconciledFile>, existing: set<Place>): seq<EventPayload> {
    if |files| == 0 then []
    else
      (if PlaceOf(files[0]) in existing then []
       else [FileObserved(files[0].identity, ContractPath(files[0].path), Modified)])
      + Insertions(files[1..], existing)
  }

  /** `path_is_under_issue`. */
  predicate UnderIssue(path: string, issues: seq<string>) {
    exists issue :: issue in issues && StartsWith(path, ContractPath(issue))
  }

  predicate Vanished(x: Place, current: set<Place>, issues: seq<string>) {
    x !in current && !UnderIssue(x.1, issues)
  }

  function Deletions(active: seq<Place>, current: set<Place>, issues: seq<string>): seq<EventPayload> {
    if |active| == 0 then []
    else
      (if Vanished(active[0], current, issues) then [FileObserved(active[0].0, ContractPath(active[0].1), Deleted)]
       else [])
      + Deletions(active[1..], current, issues)
  }

  /** The file events of one reconciliation: first what is there and unknown, then what is known and gone. */
  function FileEvents(report: ReconcileReport, active: seq<Place>): seq<EventPayload> {
    Insertions(report.files, Places(active)) + Deletions(active, Current(report.files), report.issues)
  }

  // ---------------------------------------------------------------- convergence

  predicate DistinctIdentities(files: seq<ReconciledFile>) {
    forall i, j :: 0 <= i < j < |files| ==> files[i].identity != files[j].identity
  }

  predicate Owns(places: set<Place>, identity: FileIdentity) {
    exists x :: x in places && x.0 == identity
  }

  /** The active places once every file of `files` has been observed. */
  function Replaced(active: set<Place>, files: seq<ReconciledFile>): set<Place> {
    (set x | x in active && !Owns(Current(files), x.0)) + Current(files)
  }

  lemma {:induction false} AfterInsertions(files: seq<ReconciledFile>, existing: set<Place>, active: set<Place>)
    requires DistinctIdentities(files)
    requires forall f <- files :: (forall x :: x in active && x.0 == f.identity <==> x in existing && x.0 == f.identity)
    requires OnePlaceEach(existing)
    ensures ObserveAll(active, Insertions(files, existing)) == Replaced(active, files)
    decreases |files|
  {
    hide Owns, Replaced, Observe, ObserveAll;
    if |files| == 0 {
      NothingReplaced(active, files);
    } else {
      var f, rest := files[0], files[1..];
      var step := if PlaceOf(f) in existing then [] else [FileObserved(f.identity, ContractPath(f.path), Modified)];
      assert f in files;
      ObserveAllConcat(active, step, Insertions(rest, existing));
      ObserveOne(active, existing, f, step);
      var next := ObserveAll(active, step);
      forall g | g in rest
        ensures forall x :: x in next && x.0 == g.identity <==> x in existing && x.0 == g.identity
      {
        assert g in files && g.identity != f.identity;
      }
      AfterInsertions(rest, existing, next);
      ReplacedCons(active, files, next);
    }
  }

  lemma NothingReplaced(active: set<Place>, files: seq<ReconciledFile>)
    requires |files| == 0
    ensures ObserveAll(active, []) == Replaced(active, files) == active
  {
  }

  lemma ObserveOne(active: set<Place>, existing: set<Place>, f: ReconciledFile, step: seq<EventPayload>)
    requires forall x :: x in active && x.0 == f.identity <==> x in existing && x.0 == f.identity
    requires OnePlaceEach(existing)
    requires step == if PlaceOf(f) in existing then [] else [FileObserved(f.identity, ContractPath(f.path), Modified)]
    ensures ObserveAll(active, step) == (set x | x in active && x.0 != f.identity) + {PlaceOf(f)}
  {
    if PlaceOf(f) in existing {
      assert PlaceOf(f).0 == f.identity;
    } else {
      assert ObserveAll(Observe(active, step[0]), step[1..]) == Observe(active, step[0]);
    }
  }

  lemma ReplacedCons(active: set<Place>, files: seq<ReconciledFile>, next: set<Place>)
    requires |files| > 0 && DistinctIdentities(files)
    requires next == (set x | x in active && x.0 != files[0].identity) + {PlaceOf(files[0])}
    ensures Replaced(next, files[1..]) == Replaced(active, files)
  {
    hide Owns;
    CurrentCons(files);
    NotOwnedByRest(files);
    var viaRest, direct := Replaced(next, files[1..]), Replaced(active, files);
    forall x: Place ensures x in viaRest <==> x in direct {
      OwnsCons(files, x.0);
    }
  }

  lemma CurrentCons(files: seq<ReconciledFile>)
    requires |files| > 0
    ensures Current(files) == {PlaceOf(files[0])} + Current(files[1..])
  {
    assert files == [files[0]] + files[1..];
  }

  lemma OwnsCons(files: seq<ReconciledFile>, identity: FileIdentity)
    requires |files| > 0
    ensures Owns(Current(files), identity) <==> identity == files[0].identity || Owns(Current(files[1..]), identity)
  {
    CurrentCons(files);
    assert PlaceOf(files[0]) in Current(files);
  }

  lemma NotOwnedByRest(files: seq<ReconciledFile>)
    requires |files| > 0 && DistinctIdentities(files)
    ensures !Owns(Current(files[1..]), files[0].identity)
  {
    forall x | x in Current(files[1..]) ensures x.0 != files[0].identity {
      var g :| g in files[1..] && PlaceOf(g) == x;
      var i :| 0 <= i < |files[1..]| && files[1..][i] == g;
      assert files[i + 1] == g;
    }
  }

  /** The places that the deletions name. */
  function Named(active: seq<Place>, current: set<Place>, issues: seq<string>): set<Place> {
    set x | x in active && Vanished(x, current, issues) :: (x.0, ContractPath(x.1))
  }

  lemma {:induction false} AfterDeletions(active: seq<Place>, current: set<Place>, issues: seq<string>,
                                          places: set<Place>)
    ensures ObserveAll(places, Deletions(active, current, issues)) == places - Named(active, current, issues)
    decreases |active|
  {
    hide Vanished;
    if |active| > 0 {
      var x, rest := active[0], active[1..];
      var step := if Vanished(x, current, issues) then [FileObserved(x.0, ContractPath(x.1), Deleted)] else [];
      ObserveAllConcat(places, step, Deletions(rest, current, issues));
      AfterDeletions(rest, current, issues, ObserveAll(places, step));
      assert active == [x] + rest;
      if Vanished(x, current, issues) {
        assert ObserveAll(Observe(places, step[0]), step[1..]) == Observe(places, step[0]);
        assert Named(active, current, issues) == {(x.0, ContractPath(x.1))} + Named(rest, current, issues);
      } else {
        assert Named(active, current, issues) == Named(rest, current, issues);
      }
    }
  }

  /** What a caller can check before a reconciliation: no vanished location is stored under a path whose
      contract form differs, unless its file was found elsewhere under a path that is not that form. */
  predicate Normal(active: set<Place>, current: set<Place>) {
    forall x :: x in active && x !in current ==>
      if Owns(current, x.0) then (x.0, ContractPath(x.1)) !in current else ContractPath(x.1) == x.1
  }

  /** A clean scan leaves exactly the scanned files active, moved files included, if and only if the stored
      locations are normal. */
  lemma ReconciliationConverges(report: ReconcileReport, active: seq<Place>)
    requires report.issues == [] && DistinctIdentities(report.files)
    requires OnePlaceEach(Places(active))
    ensures ObserveAll(Places(active), FileEvents(report, active)) == Current(report.files)
       <==> Normal(Places(active), Current(report.files))
  {
    hide Owns;
    var existing, current := Places(active), Current(report.files);
    AfterInsertions(report.files, existing, existing);
    var between := Replaced(existing, report.files);
    var named := Named(active, current, report.issues);
    ObserveAllConcat(existing, Insertions(report.files, existing), Deletions(active, current, report.issues));
    AfterDeletions(active, current, report.issues, between);
    assert forall x :: Vanished(x, current, report.issues) <==> x !in current;
    if Normal(existing, current) {
      forall y | y in existing && y !in current ensures (y.0, ContractPath(y.1)) !in current {
        if !Owns(current, y.0) { assert (y.0, ContractPath(y.1)) == y; }
      }
      forall x | x in between && x !in current ensures x in named {
        assert x in existing && (x.0, ContractPath(x.1)) == x;
      }
    } else {
      var x :| x in existing && x !in current &&
        !(if Owns(current, x.0) then (x.0, ContractPath(x.1)) !in current else ContractPath(x.1) == x.1);
      if Owns(current, x.0) {
        assert (x.0, ContractPath(x.1)) in named;
      } else {
        OnlyNameOf(active, current, report.issues, x);
        assert x in between - named;
      }
    }
  }

  lemma OnlyNameOf(active: seq<Place>, current: set<Place>, issues: seq<string>, x: Place)
    requires OnePlaceEach(Places(active)) && x in active && ContractPath(x.1) != x.1
    ensures x !in Named(active, current, issues)
  {
    forall y | y in active && y.0 == x.0 ensures y == x {
      assert y in Places(active) && x in Places(active);
    }
  }

  /** Locations in contract form are normal. */
  lemma ContractFormIsNormal(active: set<Place>, current: set<Place>)
    requires forall x <- active :: InForm(x.1)
    ensures Normal(active, current)
  {
  }

  const VERBATIM_FILE := "\\\\?\\C:\\a"

  /** A location stored in verbatim form makes a reconciliation hide a file that is there. */
  lemma VerbatimLocationLosesFile(identity: FileIdentity, active: seq<Place>)
    requires Places(active) == {(identity, VERBATIM_FILE)}
    ensures var report := ReconcileReport([ReconciledFile(VERBATIM_FILE, identity)], []);
      && Current(report.files) == {(identity, "C:\\a")}
      && ObserveAll(Places(active), FileEvents(report, active)) == {}
  {
    var report := ReconcileReport([ReconciledFile(VERBATIM_FILE, identity)], []);
    assert VERBATIM_FILE[..4] == VERBATIM && VERBATIM_FILE[4] == 'C' && VERBATIM_FILE[4..] == "C:\\a";
    assert ContractPath(VERBATIM_FILE) == "C:\\a";
    var existing, current := Places(active), Current(report.files);
    CurrentCons(report.files);
    assert Current(report.files[1..]) == {};
    assert current == {(identity, "C:\\a")};
    assert (identity, VERBATIM_FILE) != (identity, "C:\\a");
    var inserted := Insertions(report.files, existing);
    assert inserted == [FileObserved(identity, "C:\\a", Modified)] + Insertions(report.files[1..], existing);
    assert inserted == [FileObserved(identity, "C:\\a", Modified)];
    assert ObserveAll(existing, inserted) == {(identity, "C:\\a")};
    AfterDeletions(active, current, [], {(identity, "C:\\a")});
    assert (identity, VERBATIM_FILE) in existing && Vanished((identity, VERBATIM_FILE), current, []);
    assert forall x <- active :: x in existing;
    assert Named(active, current, []) == {(identity, "C:\\a")};
    ObserveAllConcat(existing, inserted, Deletions(active, current, []));
  }

  /** Once the active locations are the scanned files, the same scan ingests nothing. */
  lemma {:induction false} SecondReconciliationIsQuiet(report: ReconcileReport, active: seq<Place>)
    requires Places(active) == Current(report.files)
    ensures FileEvents(report, active) == []
  {
    forall f | f in report.files ensures PlaceOf(f) in Places(active) {
      assert PlaceOf(f) in Current(report.files);
    }
    NoInsertions(report.files, Places(active));
    NoDeletions(active, Current(report.files), report.issues);
  }

  lemma {:induction false} NoInsertions(files: seq<ReconciledFile>, existing: set<Place>)
    requires forall f <- files :: PlaceOf(f) in existing
    ensures Insertions(files, existing) == []
  {
    if |files| > 0 { NoInsertions(files[1..], existing); }
  }

  lemma {:induction false} NoDeletions(active: seq<Place>, current: set<Place>, issues: seq<string>)
    requires forall x <- active :: x in current
    ensures Deletions(active, current, issues) == []
  {
    if |active| > 0 { NoDeletions(active[1..], current, issues); }
  }

  // ---------------------------------------------------------------- deletion safety

  lemma {:induction false} OnlyVanishedAreDeleted(active: seq<Place>, current: set<Place>, issues: seq<string>,
                                                  payload: EventPayload)
    requires forall x <- active :: Vanished(x, current, issues) ==>
              payload != FileObserved(x.0, ContractPath(x.1), Deleted)
    ensures payload !in Deletions(active, current, issues)
  {
    hide Vanished;
    if |active| > 0 {
      assert active[0] in active;
      OnlyVanishedAreDeleted(active[1..], current, issues, payload);
    }
  }

  lemma {:induction false} InsertionsAreModifications(files: seq<ReconciledFile>, existing: set<Place>,
                                                      payload: EventPayload)
    requires !(payload.FileObserved? && payload.change == Modified)
    ensures payload !in Insertions(files, existing)
  {
    if |files| > 0 { InsertionsAreModifications(files[1..], existing, payload); }
  }

  /** A file that still lies at its stored path, with its stored identity and no reparse point on the way,
      is never reported deleted, however much of the tree failed to read. */
  lemma PresentFileIsNotDeleted(root: string, tree: Node, report: ReconcileReport, active: seq<Place>,
                                names: seq<string>, identity: FileIdentity)
    requires ProperRoot(root) && ContractPath(root) != ""
    requires FileSet(report.files) == FilesBelow(root, tree) && IssueSet(report.issues) == IssuesBelow(root, tree)
    requires Reaches(tree, names, identity)
    requires OnePlaceEach(Places(active)) && (identity, ContractPath(FullPath(root, names))) in active
    ensures FileObserved(identity, ContractPath(FullPath(root, names)), Deleted) !in FileEvents(report, active)
  {
    hide Reaches, FilesBelow, IssuesBelow, StartsWith, ContractPath, FullPath, ProperRoot;
    var path := ContractPath(FullPath(root, names));
    var current := Current(report.files);
    PresentFileIsProtected(root, tree, report, names, identity);
    var payload := FileObserved(identity, path, Deleted);
    forall x | x in active && x.0 == identity ensures x == (identity, path) {
      assert x in Places(active) && (identity, path) in Places(active);
    }
    OnlyVanishedAreDeleted(active, current, report.issues, payload);
    InsertionsAreModifications(report.files, Places(active), payload);
  }

  lemma PresentFileIsProtected(root: string, tree: Node, report: ReconcileReport, names: seq<string>,
                               identity: FileIdentity)
    requires ProperRoot(root) && ContractPath(root) != ""
    requires FileSet(report.files) == FilesBelow(root, tree) && IssueSet(report.issues) == IssuesBelow(root, tree)
    requires Reaches(tree, names, identity)
    ensures !Vanished((identity, ContractPath(FullPath(root, names))), Current(report.files), report.issues)
  {
    hide Reaches, FilesBelow, IssuesBelow, StartsWith, ContractPath, FullPath, ProperRoot;
    var path := ContractPath(FullPath(root, names));
    PresentFileIsCovered(root, tree, names, identity);
    var file := ReconciledFile(FullPath(root, names), identity);
    if file in FilesBelow(root, tree) {
      assert file in FileSet(report.files);
      assert PlaceOf(file) in Current(report.files);
    } else {
      var n :| 0 <= n <= |names| && FullPath(root, names[..n]) in IssuesBelow(root, tree);
      var issue := FullPath(root, names[..n]);
      assert issue in IssueSet(report.issues);
      ContractOfFullPath(root, names);
      ContractOfFullPath(root, names[..n]);
      AncestorContains(ContractPath(root), names, n);
      assert StartsWith(path, ContractPath(issue));
    }
  }

  // ---------------------------------------------------------------- the events of a reconciliation, one by one

  /** A reconciliation ingests a modification for each scanned file that is not active where it is, a deletion for each
      active location that was not scanned and is not at or below an issue, and nothing else. */
  lemma FileEventsMean(report: ReconcileReport, active: seq<Place>, p: EventPayload)
    ensures p in FileEvents(report, active) <==>
            || (exists f :: f in report.files && (f.identity, ContractPath(f.path)) !in active
                            && p == FileObserved(f.identity, ContractPath(f.path), Modified))
            || (exists x :: x in active
                            && (forall f <- report.files :: (f.identity, ContractPath(f.path)) != x)
                            && (forall issue <- report.issues :: !StartsWith(x.1, ContractPath(issue)))
                            && p == FileObserved(x.0, ContractPath(x.1), Deleted))
  {
    hide ContractPath, StartsWith;
    InsertionsMean(report.files, Places(active), p);
    DeletionsMean(active, Current(report.files), report.issues, p);
    forall x
      ensures x in Current(report.files) <==> exists f :: f in report.files && (f.identity, ContractPath(f.path)) == x
    {
      if x in Current(report.files) { var f :| f in report.files && PlaceOf(f) == x; }
      if f :| f in report.files && (f.identity, ContractPath(f.path)) == x {
        assert PlaceOf(f) in Current(report.files);
      }
    }
  }

  lemma {:induction false} InsertionsMean(files: seq<ReconciledFile>, existing: set<Place>, p: EventPayload)
    ensures p in Insertions(files, existing) <==>
            exists f :: f in files && (f.identity, ContractPath(f.path)) !in existing
                        && p == FileObserved(f.identity, ContractPath(f.path), Modified)
  {
    hide ContractPath;
    if |files| > 0 {
      InsertionsMean(files[1..], existing, p);
      assert forall f :: f in files <==> f == files[0] || f in files[1..];
    }
  }

  lemma {:induction false} DeletionsMean(active: seq<Place>, current: set<Place>, issues: seq<string>, p: EventPayload)
    ensures p in Deletions(active, current, issues) <==>
            exists x :: x in active && Vanished(x, current, issues)
                && p == FileObserved(x.0, ContractPath(x.1), Deleted)
  {
    hide ContractPath, Vanished;
    if |active| > 0 {
      DeletionsMean(active[1..], current, issues, p);
      assert forall x :: x in active <==> x == active[0] || x in active[1..];
    }
  }

  /** A file that is no longer there is reported deleted, if nothing on the way to it failed to be inspected. */
  lemma VanishedFileIsDeleted(root: string, tree: Node, report: ReconcileReport, active: seq<Place>, names: seq<string>,
                              identity: FileIdentity)
    requires StableRoot(root) && PlainNames(tree) && forall name <- names :: Plain(name)
    requires FileSet(report.files) == FilesBelow(root, tree) && IssueSet(report.issues) == IssuesBelow(root, tree)
    requires (identity, ContractPath(FullPath(root, names))) in active
    requires (identity, ContractPath(FullPath(root, names))) !in Current(report.files)
    requires forall n :: 0 <= n <= |names| ==> !FailsAt(tree, names[..n])
    ensures FileObserved(identity, ContractPath(FullPath(root, names)), Deleted) in FileEvents(report, active)
  {
    hide FilesBelow, IssuesBelow, StartsWith, ContractPath, FullPath, ProperRoot, FailsAt, Plain, PlainNames;
    var path := ContractPath(FullPath(root, names));
    StableBelow(root, names);
    forall issue | issue in report.issues ensures !StartsWith(path, ContractPath(issue)) {
      assert issue in IssueSet(report.issues);
      var others := IssueIsFailure(root, tree, issue);
      FailureHasPlainNames(tree, others);
      ContractOfFullPath(root, names);
      ContractOfFullPath(root, others);
      ContainsExactly(ContractPath(root), names, others);
      PrefixIsSlice(others, names);
    }
    assert Vanished((identity, path), Current(report.files), report.issues);
    DeletionsMean(active, Current(report.files), report.issues, FileObserved(identity, path, Deleted));
  }

  lemma PrefixIsSlice(some: seq<string>, all: seq<string>)
    ensures some <= all ==> |some| <= |all| && all[..|some|] == some
  {
  }
}
