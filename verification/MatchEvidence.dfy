/**
  What stands behind a derived match: the stored download and the stored file observation it was derived from, told
  from the log alone.
 */
module MatchEvidence {
  import opened Wrappers
  import opened Contracts
  import opened Projection
  import opened EventLog
  import opened Correlation
  import RebuiltTables
  import SortKey

  // ---------------------------------------------------------------- paths without case

  /** Two characters are the same letter of the English alphabet in different case. */
  predicate OtherCase(a: char, b: char) {
    ('A' <= a <= 'Z' && b as int == a as int + 32) || ('A' <= b <= 'Z' && a as int == b as int + 32)
  }

  /** The texts are equal up to the case of English letters. */
  ghost predicate EqualButForCase(s: string, t: string) {
    |s| == |t| && forall i :: 0 <= i < |s| ==> s[i] == t[i] || OtherCase(s[i], t[i])
  }

  lemma LowerCharMeaning(a: char, b: char)
    ensures LowerChar(a) == LowerChar(b) <==> a == b || OtherCase(a, b)
  {
  }

  /** `COLLATE NOCASE` ignores exactly the case of English letters. */
  lemma SamePathMeaning(s: string, t: string)
    ensures SamePath(s, t) <==> EqualButForCase(s, t)
  {
    hide LowerChar, OtherCase;
    assert |Lower(s)| == |s| && |Lower(t)| == |t|;
    assert forall i :: 0 <= i < |s| ==> Lower(s)[i] == LowerChar(s[i]);
    assert forall i :: 0 <= i < |t| ==> Lower(t)[i] == LowerChar(t[i]);
    if SamePath(s, t) {
      forall i | 0 <= i < |s| ensures s[i] == t[i] || OtherCase(s[i], t[i]) {
        assert Lower(s)[i] == Lower(t)[i];
        LowerCharMeaning(s[i], t[i]);
      }
    }
    if EqualButForCase(s, t) {
      forall i | 0 <= i < |s| ensures Lower(s)[i] == Lower(t)[i] { LowerCharMeaning(s[i], t[i]); }
      assert Lower(s) == Lower(t);
    }
  }

  // ---------------------------------------------------------------- the evidence

  /** Event `i` observed a download of this id and URL to a path; events `j` and `near` found files on that path, `j`
      the matched file, and `near` within the tolerance. */
  ghost predicate EvidenceAt(raw: seq<RawRow>, i: int, j: int, near: int, downloadId: Id, identity: FileIdentity,
                             url: string) {
    && 0 <= i < |raw| && raw[i].V1? && raw[i].event.payload.BrowserDownloadObserved?
    && raw[i].event.payload.downloadId == downloadId && raw[i].event.payload.url == url
    && 0 <= j < |raw| && raw[j].V1? && raw[j].event.payload.FileObserved? && raw[j].event.payload.change != Deleted
    && raw[j].event.payload.identity == identity
    && EqualButForCase(raw[j].event.payload.path, raw[i].event.payload.finalPath)
    && 0 <= near < |raw| && raw[near].V1? && raw[near].event.payload.FileObserved?
    && EqualButForCase(raw[near].event.payload.path, raw[i].event.payload.finalPath)
    && -181_000_000_000 < raw[i].event.observedAt.nanos - raw[near].event.observedAt.nanos < 181_000_000_000
  }

  /** The source ids are those of the two events, in this order, and the time is the one with the later text. */
  ghost predicate Evidenced(
    raw: seq<RawRow>, downloadId: Id, identity: FileIdentity, url: string, sourceEventIds: seq<Id>, observedAt: Time)
  {
    exists i, j, near ::
      && EvidenceAt(raw, i, j, near, downloadId, identity, url)
      && sourceEventIds == [raw[i].event.eventId, raw[j].event.eventId]
      && observedAt == (if SortKey.TextLess(raw[i].event.observedAt.text, raw[j].event.observedAt.text)
                        then raw[j].event.observedAt else raw[i].event.observedAt)
  }

  /** An active location comes from a stored finding of its file on its path. */
  lemma ActiveIsFound(raw: seq<RawRow>, k: LocationKey) returns (j: nat)
    requires k in Rebuild(raw).locations && Rebuild(raw).locations[k].active
    ensures j < |raw| && raw[j].V1? && raw[j].event.payload.FileObserved? && raw[j].event.payload.change != Deleted
    ensures raw[j].event.payload.identity == k.0 && raw[j].event.payload.path == k.1
    ensures Rebuild(raw).locations[k].observedAt == raw[j].event.observedAt
    ensures Rebuild(raw).locations[k].sourceEventId == raw[j].event.eventId
  {
    RebuiltTables.LocationRows(raw, k.0, k.1);
    j := RebuiltTables.Last(raw, RebuiltTables.SeenAt(k.0, k.1)).value;
  }

  /** What the lookup finds in rebuilt tables has its evidence in the log. */
  lemma FoundIsEvidenced(raw: seq<RawRow>, path: string, c: MatchCandidate)
    requires MatchResult(Rebuild(raw), path, Some(c))
    ensures Evidenced(raw, c.downloadId, c.identity, c.url, c.sourceEventIds, c.observedAt)
  {
    hide Rebuild, SamePath, SortKey.TextLess, EqualButForCase, WholeSeconds, FirstRow;
    var t := Rebuild(raw);
    var download, k, checked :| MatchVia(t, path, download, k, checked, Some(c));
    assert JoinRow(t, path, download, k) by { FirstIsJoin(t, path, download, k); }
    RebuiltTables.PendingRows(raw, download);
    var i := RebuiltTables.Last(raw, RebuiltTables.DownloadOf(download)).value;
    var j := ActiveIsFound(raw, k);
    var near := ActiveIsFound(raw, checked);
    SamePathMeaning(k.1, t.pending[download].finalPath);
    SamePathMeaning(checked.1, t.pending[download].finalPath);
    WholeSecondsApart(t.pending[download].observedAt, t.locations[checked].observedAt);
    assert EvidenceAt(raw, i, j, near, c.downloadId, c.identity, c.url);
  }

  lemma FirstIsJoin(t: Tables, path: string, download: Id, k: LocationKey)
    requires FirstRow(t, path, download, k)
    ensures JoinRow(t, path, download, k)
  {
  }

  /** An unmatched download on the path, and a file active on the download's path. */
  ghost predicate Waiting(t: Tables, path: string, download: Id, k: LocationKey) {
    && download in t.pending && t.pending[download].matchedAt.None?
        && EqualButForCase(t.pending[download].finalPath, path)
    && k in t.locations && t.locations[k].active && EqualButForCase(k.1, t.pending[download].finalPath)
  }

  /** The lookup finds a waiting download with the latest time text. It finds nothing if none is waiting, and
      otherwise only if that download is 181 seconds or more from some file on its path. */
  lemma NewestIsFound(t: Tables, path: string, r: Option<MatchCandidate>)
    requires MatchResult(t, path, r)
    ensures r.None? ==>
              || (forall download, k :: !Waiting(t, path, download, k))
              || (exists download, k ::
                    && Waiting(t, path, download, k)
                    && !(-181_000_000_000 < t.pending[download].observedAt.nanos - t.locations[k].observedAt.nanos
                         < 181_000_000_000))
    ensures r.Some? ==>
              && (exists k :: Waiting(t, path, r.value.downloadId, k) && k.0 == r.value.identity)
              && forall other, l :: Waiting(t, path, other, l) ==>
                   !SortKey.TextLess(t.pending[r.value.downloadId].observedAt.text, t.pending[other].observedAt.text)
  {
    hide SamePath, EqualButForCase, SortKey.TextLess, WholeSeconds;
    forall download, k ensures Waiting(t, path, download, k) <==> JoinRow(t, path, download, k) {
      if download in t.pending {
        SamePathMeaning(t.pending[download].finalPath, path);
        SamePathMeaning(k.1, t.pending[download].finalPath);
      }
    }
    if !(r.None? && forall download, k :: !JoinRow(t, path, download, k)) {
      var download, k, checked :| MatchVia(t, path, download, k, checked, r);
      SamePathMeaning(checked.1, t.pending[download].finalPath);
      WholeSecondsApart(t.pending[download].observedAt, t.locations[checked].observedAt);
      assert Waiting(t, path, download, checked) && Waiting(t, path, download, k);
    }
  }

  // ---------------------------------------------------------------- derived events

  /** A match event that says where it comes from: earlier events of the log. */
  ghost predicate Substantiated(raw: seq<RawRow>, d: EventEnvelope) {
    && d.payload.DownloadMatched?
    && Evidenced(raw, d.payload.downloadId, d.payload.identity, d.payload.url, d.payload.sourceEventIds, d.observedAt)
  }

  /** A derived event is backed by the log before it, and belongs to the event it was derived for. */
  lemma DerivedIsSubstantiated(mid: Store, e: EventEnvelope, after: Store, derived: EventEnvelope)
    requires Consistent(mid) && Correlated(mid, e, after, Some(derived))
    ensures Substantiated(mid.raw, derived) && after.raw == mid.raw + [V1(derived)]
    ensures derived.source == "core.download-correlator" && derived.sourceSequence.None? && derived.schemaVersion == 1
    ensures derived.scopeId == e.scopeId && derived.correlationId == Some(e.eventId)
    ensures e.payload.BrowserDownloadObserved? || (e.payload.FileObserved? && e.payload.change != Deleted)
  {
    hide Rebuild, MatchResult, Evidenced, Project;
    var path := LookupPath(e).value;
    var found :| MatchResult(mid.tables, path, found) && Derives(mid, e, found, after, Some(derived));
    FoundIsEvidenced(mid.raw, path, found.value);
    DerivedTables(mid, e, found.value, after, derived);
  }

  /** Only downloads and findings are correlated. */
  lemma OthersDeriveNothing(mid: Store, e: EventEnvelope, after: Store, derived: Option<EventEnvelope>)
    requires Correlated(mid, e, after, derived)
    requires !e.payload.BrowserDownloadObserved? && (e.payload.FileObserved? ==> e.payload.change == Deleted)
    ensures derived.None? && after == mid
  {
    hide MatchResult, Derives;
  }

  // ---------------------------------------------------------------- over every run

  datatype Happening =
    | Ingesting(event: EventEnvelope, derived: Option<EventEnvelope>, after: Store)
    | Writing(tx: Transaction)

  /** Ingests, with other transactions in between. */
  ghost predicate History(s: Store, steps: seq<Happening>, last: Store)
    decreases |steps|
  {
    if |steps| == 0 then last == s
    else
      match steps[0]
      case Ingesting(e, derived, after) => Ingested(s, e, after, derived) && History(after, steps[1..], last)
      case Writing(tx) => History(Execute(s, tx), steps[1..], last)
  }

  /** Every event derived in a run is in the log, and the events before it substantiate it. */
  lemma {:induction false} EveryDerivedIsSubstantiated(s: Store, steps: seq<Happening>, last: Store, n: nat)
    requires Consistent(s) && History(s, steps, last)
    requires n < |steps| && steps[n].Ingesting? && steps[n].derived.Some?
    ensures exists k :: (0 <= k < |last.raw| && last.raw[k] == V1(steps[n].derived.value)
                         && Substantiated(last.raw[..k], steps[n].derived.value))
    decreases |steps|
  {
    hide Consistent, Ingested, Execute, Substantiated;
    match steps[0]
    case Ingesting(e, derived, after) =>
      var mid := IngestKeepsConsistent(s, e, after, derived);
      LogGrows(after, steps[1..], last);
      if n == 0 {
        DerivedIsSubstantiated(mid, e, after, derived.value);
        var k := |mid.raw|;
        assert last.raw[..k] == mid.raw && last.raw[k] == V1(derived.value);
      } else {
        EveryDerivedIsSubstantiated(after, steps[1..], last, n - 1);
      }
    case Writing(tx) =>
      ExecuteKeepsConsistent(s, tx);
      EveryDerivedIsSubstantiated(Execute(s, tx), steps[1..], last, n - 1);
  }

  lemma IngestKeepsConsistent(s: Store, e: EventEnvelope, after: Store, derived: Option<EventEnvelope>)
    returns (mid: Store)
    requires Consistent(s) && Ingested(s, e, after, derived)
    ensures Consistent(mid) && Consistent(after) && mid.raw <= after.raw && s.raw <= mid.raw
    ensures Correlated(mid, e, after, derived)
  {
    hide Consistent, MatchResult, AppendV1, Ids;
    mid := Project(s, e).value.store;
    ExecuteKeepsConsistent(s, AppendEvent(e));
    if derived.Some? { ExecuteKeepsConsistent(mid, AppendEvent(derived.value)); }
  }

  lemma {:induction false} LogGrows(s: Store, steps: seq<Happening>, last: Store)
    requires Consistent(s) && History(s, steps, last)
    ensures s.raw <= last.raw
    decreases |steps|
  {
    hide Consistent, Ingested, Execute;
    if |steps| > 0 {
      match steps[0]
      case Ingesting(e, derived, after) =>
        var mid := IngestKeepsConsistent(s, e, after, derived);
        LogGrows(after, steps[1..], last);
      case Writing(tx) =>
        ExecuteKeepsConsistent(s, tx);
        LogGrows(Execute(s, tx), steps[1..], last);
    }
  }
}
