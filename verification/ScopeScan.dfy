/**
  `scan_scope`: the worklist traversal of a directory tree in which directories, entries, metadata and
  files may fail to read, and what its report says about the files that are really there.
 */
module ScopeScan {
  import opened Wrappers
  import opened Contracts
  import opened Paths

  /** The tree as it is; the `readable` and `fault` marks say what the scan will fail on. */
  datatype Node =
    | File(identity: FileIdentity, readable: bool)
    | Directory(reparse: bool, readable: bool, entries: seq<Entry>)
    | Other

  datatype Entry = Entry(name: string, node: Node, fault: Fault)

  datatype Fault = NoFault | EntryFault | MetadataFault

  datatype ReconciledFile = ReconciledFile(path: string, identity: FileIdentity)

  datatype ReconcileReport = ReconcileReport(files: seq<ReconciledFile>, issues: seq<string>)

  // ---------------------------------------------------------------- what a recursive scan finds

  function FilesBelow(path: string, node: Node): set<ReconciledFile>
    decreases node, 0
  {
    if node.Directory? && node.readable then FilesOf(path, node.entries) else {}
  }

  function FilesOf(path: string, entries: seq<Entry>): set<ReconciledFile>
    decreases entries, 0
  {
    if |entries| == 0 then {} else FilesAt(path, entries[0]) + FilesOf(path, entries[1..])
  }

  function FilesAt(path: string, e: Entry): set<ReconciledFile>
    decreases e, 0
  {
    if e.fault != NoFault then {}
    else
      match e.node
      case File(identity, readable) => if readable then {ReconciledFile(Join(path, e.name), identity)} else {}
      case Directory(reparse, _, _) => if reparse then {} else FilesBelow(Join(path, e.name), e.node)
      case Other => {}
  }

  function IssuesBelow(path: string, node: Node): set<string>
    decreases node, 0
  {
    if !node.Directory? then {} else if node.readable then IssuesOf(path, node.entries) else {path}
  }

  function IssuesOf(path: string, entries: seq<Entry>): set<string>
    decreases entries, 0
  {
    if |entries| == 0 then {} else IssuesAt(path, entries[0]) + IssuesOf(path, entries[1..])
  }

  function IssuesAt(path: string, e: Entry): set<string>
    decreases e, 0
  {
    match e.fault
    case EntryFault => {path}
    case MetadataFault => {Join(path, e.name)}
    case NoFault =>
      match e.node
      case File(_, readable) => if readable then {} else {Join(path, e.name)}
      case Directory(reparse, _, _) => if reparse then {} else IssuesBelow(Join(path, e.name), e.node)
      case Other => {}
  }

  // ---------------------------------------------------------------- the worklist

  datatype Pending = Pending(path: string, node: Node)

  function Size(node: Node): nat
    decreases node, 0
  {
    if node.Directory? then 1 + EntriesSize(node.entries) else 0
  }

  function EntriesSize(entries: seq<Entry>): nat
    decreases entries, 0
  {
    if |entries| == 0 then 0 else Size(entries[0].node) + EntriesSize(entries[1..])
  }

  function PendingSize(stack: seq<Pending>): nat {
    if |stack| == 0 then 0 else PendingSize(stack[..|stack| - 1]) + Size(stack[|stack| - 1].node)
  }

  function PendingFiles(stack: seq<Pending>): set<ReconciledFile> {
    if |stack| == 0 then {}
    else PendingFiles(stack[..|stack| - 1]) + FilesBelow(stack[|stack| - 1].path, stack[|stack| - 1].node)
  }

  function PendingIssues(stack: seq<Pending>): set<string> {
    if |stack| == 0 then {}
    else PendingIssues(stack[..|stack| - 1]) + IssuesBelow(stack[|stack| - 1].path, stack[|stack| - 1].node)
  }

  function FileSet(files: seq<ReconciledFile>): set<ReconciledFile> {
    set f | f in files
  }

  function IssueSet(issues: seq<string>): set<string> {
    set p | p in issues
  }

  /** Visits the entries of one directory: files and issues are reported, directories are pushed. */
  method ScanDirectory(path: string, entries: seq<Entry>, report: ReconcileReport, stack: seq<Pending>)
    returns (after: ReconcileReport, pushed: seq<Pending>)
    ensures FileSet(after.files) + PendingFiles(pushed)
         == FileSet(report.files) + PendingFiles(stack) + FilesOf(path, entries)
    ensures IssueSet(after.issues) + PendingIssues(pushed) ==
              IssueSet(report.issues) + PendingIssues(stack) + IssuesOf(path, entries)
    ensures PendingSize(pushed) <= PendingSize(stack) + EntriesSize(entries)
    ensures forall p <- pushed :: p in stack || p.node.Directory?
  {
    after, pushed := report, stack;
    var index := 0;
    assert entries[0..] == entries;
    while index < |entries|
      invariant index <= |entries|
      invariant FileSet(after.files) + PendingFiles(pushed) + FilesOf(path, entries[index..])
             == FileSet(report.files) + PendingFiles(stack) + FilesOf(path, entries)
      invariant IssueSet(after.issues) + PendingIssues(pushed) + IssuesOf(path, entries[index..])
             == IssueSet(report.issues) + PendingIssues(stack) + IssuesOf(path, entries)
      invariant PendingSize(pushed) + EntriesSize(entries[index..]) <= PendingSize(stack) + EntriesSize(entries)
      invariant forall p <- pushed :: p in stack || p.node.Directory?
    {
      var e := entries[index];
      assert entries[index..][1..] == entries[index + 1..];
      after, pushed := ScanEntry(path, e, after, pushed);
      index := index + 1;
    }
  }

  method ScanEntry(path: string, e: Entry, report: ReconcileReport, stack: seq<Pending>)
    returns (after: ReconcileReport, pushed: seq<Pending>)
    ensures FileSet(after.files) + PendingFiles(pushed)
         == FileSet(report.files) + PendingFiles(stack) + FilesAt(path, e)
    ensures IssueSet(after.issues) + PendingIssues(pushed) ==
              IssueSet(report.issues) + PendingIssues(stack) + IssuesAt(path, e)
    ensures PendingSize(pushed) <= PendingSize(stack) + Size(e.node)
    ensures forall p <- pushed :: p in stack || p.node.Directory?
  {
    after, pushed := report, stack;
    if e.fault == EntryFault {
      after := after.(issues := after.issues + [path]);
      return;
    }
    var child := Join(path, e.name);
    if e.fault == MetadataFault {
      after := after.(issues := after.issues + [child]);
      return;
    }
    match e.node {
      case Directory(reparse, _, _) =>
        if !reparse {
          pushed := stack + [Pending(child, e.node)];
          assert pushed[..|pushed| - 1] == stack;
        }
      case File(identity, readable) =>
        if readable {
          after := after.(files := after.files + [ReconciledFile(child, identity)]);
        } else {
          after := after.(issues := after.issues + [child]);
        }
      case Other =>
    }
  }

  /** `scan_scope`: fails only when the root is not a directory. */
  method ScanScope(root: string, tree: Node) returns (r: Option<ReconcileReport>)
    ensures r.Some? <==> tree.Directory?
    ensures r.Some? ==> FileSet(r.value.files) == FilesBelow(root, tree)
    ensures r.Some? ==> IssueSet(r.value.issues) == IssuesBelow(root, tree)
  {
    if !tree.Directory? { return None; }
    var report := ReconcileReport([], []);
    var pending := [Pending(root, tree)];
    assert pending[..0] == [];
    while |pending| > 0
      invariant FileSet(report.files) + PendingFiles(pending) == FilesBelow(root, tree)
      invariant IssueSet(report.issues) + PendingIssues(pending) == IssuesBelow(root, tree)
      invariant forall p <- pending :: p.node.Directory?
      decreases PendingSize(pending)
    {
      var directory := pending[|pending| - 1];
      pending := pending[..|pending| - 1];
      if !directory.node.readable {
        report := report.(issues := report.issues + [directory.path]);
        continue;
      }
      report, pending := ScanDirectory(directory.path, directory.node.entries, report, pending);
    }
    return Some(report);
  }

  // ---------------------------------------------------------------- what the report means

  /** A file with this identity lies at `names` below the node, and no reparse point is on the way. */
  ghost predicate Reaches(node: Node, names: seq<string>, identity: FileIdentity)
    decreases |names|
  {
    && node.Directory? && |names| > 0
    && exists k :: 0 <= k < |node.entries| && Leads(node.entries[k], names, identity)
  }

  ghost predicate Leads(e: Entry, names: seq<string>, identity: FileIdentity)
    requires |names| > 0
    decreases |names|, 0
  {
    && e.name == names[0]
    && (if |names| == 1 then e.node.File? && e.node.identity == identity
        else e.node.Directory? && !e.node.reparse && Reaches(e.node, names[1..], identity))
  }

  lemma {:induction false} EntryIsVisited(path: string, entries: seq<Entry>, k: nat)
    requires k < |entries|
    ensures FilesAt(path, entries[k]) <= FilesOf(path, entries)
    ensures IssuesAt(path, entries[k]) <= IssuesOf(path, entries)
  {
    if k > 0 { EntryIsVisited(path, entries[1..], k - 1); }
  }

  /** A file that is there is reported, or the scan reports an issue at or above it. */
  lemma {:induction false} PresentFileIsCovered(root: string, node: Node, names: seq<string>, identity: FileIdentity)
    requires Reaches(node, names, identity)
    ensures ReconciledFile(FullPath(root, names), identity) in FilesBelow(root, node)
         || exists n :: 0 <= n <= |names| && FullPath(root, names[..n]) in IssuesBelow(root, node)
    decreases |names|
  {
    assert FullPath(root, names[..0]) == root;
    if node.readable {
      var k :| 0 <= k < |node.entries| && Leads(node.entries[k], names, identity);
      var e := node.entries[k];
      EntryIsVisited(root, node.entries, k);
      var child := Join(root, e.name);
      assert names[..1][1..] == [] && FullPath(root, names[..1]) == FullPath(child, []) == child;
      if |names| == 1 {
        assert FullPath(root, names) == FullPath(child, names[1..]) == child;
      } else if e.fault == NoFault {
        PresentFileIsCovered(child, e.node, names[1..], identity);
        if ReconciledFile(FullPath(child, names[1..]), identity) !in FilesBelow(child, e.node) {
          var n :| 0 <= n <= |names| - 1 && FullPath(child, names[1..][..n]) in IssuesBelow(child, e.node);
          assert names[..n + 1][1..] == names[1..][..n];
          assert FullPath(root, names[..n + 1]) in IssuesBelow(root, node);
        }
      }
    }
  }

  /** A reported file is there. */
  lemma {:induction false} ReportedFileIsPresent(root: string, node: Node, f: ReconciledFile)
    returns (names: seq<string>)
    requires f in FilesBelow(root, node)
    ensures Reaches(node, names, f.identity) && f.path == FullPath(root, names)
    decreases node
  {
    var k := ReportedEntry(root, node.entries, f);
    var e := node.entries[k];
    var child := Join(root, e.name);
    if e.node.File? {
      names := [e.name];
      assert FullPath(child, names[1..]) == child;
    } else {
      var rest := ReportedFileIsPresent(child, e.node, f);
      names := [e.name] + rest;
      assert names[1..] == rest;
    }
    assert Leads(e, names, f.identity);
  }

  lemma {:induction false} ReportedEntry(path: string, entries: seq<Entry>, f: ReconciledFile) returns (k: nat)
    requires f in FilesOf(path, entries)
    ensures k < |entries| && f in FilesAt(path, entries[k])
  {
    if f in FilesAt(path, entries[0]) {
      k := 0;
    } else {
      var j := ReportedEntry(path, entries[1..], f);
      k := j + 1;
    }
  }

  // ---------------------------------------------------------------- what an issue means

  /** Something at `names` below the node cannot be inspected: a directory that cannot be read or listed to its end, an
      entry without metadata, or a file without an identity. */
  ghost predicate FailsAt(node: Node, names: seq<string>)
    decreases |names|
  {
    && node.Directory?
    && if |names| == 0 then !node.readable || exists k :: 0 <= k < |node.entries| && node.entries[k].fault == EntryFault
       else node.readable && exists k :: 0 <= k < |node.entries| && FailsIn(node.entries[k], names)
  }

  ghost predicate FailsIn(e: Entry, names: seq<string>)
    requires |names| > 0
    decreases |names|, 0
  {
    && e.name == names[0]
    && (|| (|names| == 1 && e.fault == MetadataFault)
        || (|names| == 1 && e.fault == NoFault && e.node.File? && !e.node.readable)
        || (e.fault == NoFault && e.node.Directory? && !e.node.reparse && FailsAt(e.node, names[1..])))
  }

  /** Every reported issue is a failure at its path. */
  lemma {:induction false} IssueIsFailure(root: string, node: Node, p: string) returns (names: seq<string>)
    requires p in IssuesBelow(root, node)
    ensures p == FullPath(root, names) && FailsAt(node, names)
    decreases node
  {
    if !node.readable {
      names := [];
    } else {
      var k := IssueEntry(root, node.entries, p);
      var e := node.entries[k];
      var child := Join(root, e.name);
      if e.fault == EntryFault {
        names := [];
      } else if e.fault == NoFault && e.node.Directory? {
        var rest := IssueIsFailure(child, e.node, p);
        names := [e.name] + rest;
        assert names[1..] == rest;
        assert FailsIn(e, names);
      } else {
        names := [e.name];
        assert FullPath(child, names[1..]) == child;
        assert FailsIn(e, names);
      }
    }
  }

  lemma {:induction false} IssueEntry(path: string, entries: seq<Entry>, p: string) returns (k: nat)
    requires p in IssuesOf(path, entries)
    ensures k < |entries| && p in IssuesAt(path, entries[k])
  {
    if p in IssuesAt(path, entries[0]) {
      k := 0;
    } else {
      var j := IssueEntry(path, entries[1..], p);
      k := j + 1;
    }
  }

  /** Every failure is reported at its path. */
  lemma {:induction false} FailureIsReported(root: string, node: Node, names: seq<string>)
    requires FailsAt(node, names)
    ensures FullPath(root, names) in IssuesBelow(root, node)
    decreases |names|
  {
    if node.readable {
      if |names| == 0 {
        var k :| 0 <= k < |node.entries| && node.entries[k].fault == EntryFault;
        EntryIsVisited(root, node.entries, k);
      } else {
        var k :| 0 <= k < |node.entries| && FailsIn(node.entries[k], names);
        var e := node.entries[k];
        var child := Join(root, e.name);
        EntryIsVisited(root, node.entries, k);
        if |names| == 1 { assert FullPath(child, names[1..]) == child; }
        if e.fault == NoFault && e.node.Directory? { FailureIsReported(child, e.node, names[1..]); }
      }
    }
  }

  /** A scan of a tree without failures reports no issue and exactly the files reachable without reparse points. */
  lemma CleanScanIsExact(root: string, node: Node, f: ReconciledFile)
    requires node.Directory? && forall names :: !FailsAt(node, names)
    ensures IssuesBelow(root, node) == {}
    ensures f in FilesBelow(root, node) <==>
            exists names :: Reaches(node, names, f.identity) && f.path == FullPath(root, names)
  {
    hide FilesBelow, IssuesBelow, FailsAt, Reaches, FullPath;
    forall p | p in IssuesBelow(root, node) ensures false {
      var names := IssueIsFailure(root, node, p);
    }
    if f in FilesBelow(root, node) {
      var names := ReportedFileIsPresent(root, node, f);
    }
    if names :| Reaches(node, names, f.identity) && f.path == FullPath(root, names) {
      PresentFileIsCovered(root, node, names, f.identity);
    }
  }

  /** Every name in the tree is an ordinary one. */
  ghost predicate PlainNames(node: Node) {
    node.Directory? ==> forall e <- node.entries :: Plain(e.name) && PlainNames(e.node)
  }

  lemma {:induction false} FailureHasPlainNames(node: Node, names: seq<string>)
    requires PlainNames(node) && FailsAt(node, names)
    ensures forall name <- names :: Plain(name)
    decreases |names|
  {
    hide Plain;
    if |names| > 0 {
      var k :| 0 <= k < |node.entries| && FailsIn(node.entries[k], names);
      var e := node.entries[k];
      assert e in node.entries;
      if |names| > 1 { FailureHasPlainNames(e.node, names[1..]); }
      assert names == [names[0]] + names[1..];
    }
  }
}
