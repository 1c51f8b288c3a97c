/**
  Following cursors. Every page covers a prefix of what is left of the log, so a chain of pages ends,
  and delivers exactly the visible rows, also while rows are appended between requests.
 */
module Paging {
  import opened Wrappers
  import opened Evidence
  import opened RawTimeline
  import SortKey
  import opened Text
  import opened Retrieval
  import opened WirePage

  // ---------------------------------------------------------------- what a complete read contains

  ghost predicate Decodes(log: seq<Row>, grant: RetrievalGrant) {
    forall r <- log :: DecodeVisibleEntry(r, grant).Ok?
  }

  /** The entries a reader with this grant may see, in log order. */
  ghost function Visible(log: seq<Row>, grant: RetrievalGrant): seq<TimelineEntry> {
    if |log| == 0 then []
    else
      match DecodeVisibleEntry(log[0], grant)
      case Ok(Some(entry)) => [entry] + Visible(log[1..], grant)
      case _ => Visible(log[1..], grant)
  }

  /** The row's columns and its envelope were written from one event. */
  ghost predicate Written(r: Row) {
    !r.envelope.Undecodable? ==>
      && r.envelope.header.eventId == r.id && r.envelope.header.observedAt == r.observedAt
      && r.envelope.header.scope == r.scope
  }

  /** The table at one moment: keyed rows, each written from one event. */
  ghost predicate Store(rows: seq<Row>) {
    Table(rows) && forall r <- rows :: Written(r)
  }

  ghost predicate AllFit(w: seq<WireEntry>, sizes: Sizes) {
    forall e <- w :: FitsAlone(e, sizes)
  }

  ghost function WireVisible(log: seq<Row>, grant: RetrievalGrant, sizes: Sizes): seq<WireEntry> {
    WireEntries(Visible(log, grant), grant, sizes)
  }

  /** Requests that are answered with pages rather than refused. */
  ghost predicate Admissible(policy: Policy, token: string, q: TimelineQuery) {
    && 1 <= q.limit <= MAX_LOCAL_PAGE_ENTRIES
    && Authorize(policy, token, q.raw.scope).Some?
    && ValidateQuery(q).None?
    && SortableBounds(q.raw)
  }

  lemma {:induction false} VisibleConcat(a: seq<Row>, b: seq<Row>, grant: RetrievalGrant)
    ensures Visible(a + b, grant) == Visible(a, grant) + Visible(b, grant)
  {
    if |a| == 0 {
      assert a + b == b;
    } else {
      assert (a + b)[1..] == a[1..] + b;
      VisibleConcat(a[1..], b, grant);
    }
  }

  lemma {:induction false} WireEntriesConcat(a: seq<TimelineEntry>, b: seq<TimelineEntry>, grant: RetrievalGrant,
                                             sizes: Sizes)
    ensures WireEntries(a + b, grant, sizes) == WireEntries(a, grant, sizes) + WireEntries(b, grant, sizes)
  {
  }

  lemma WireVisibleSplit(log: seq<Row>, m: nat, grant: RetrievalGrant, sizes: Sizes)
    requires m <= |log|
    ensures WireVisible(log, grant, sizes) == WireVisible(log[..m], grant, sizes) + WireVisible(log[m..], grant, sizes)
  {
    assert log == log[..m] + log[m..];
    VisibleConcat(log[..m], log[m..], grant);
    WireEntriesConcat(Visible(log[..m], grant), Visible(log[m..], grant), grant, sizes);
  }

  // ---------------------------------------------------------------- one page

  /** The walk decodes the rows it consumes and returns what is visible in them. */
  lemma {:induction false} WalkIsVisiblePrefix(log: seq<Row>, grant: RetrievalGrant, limit: nat, budget: nat)
    requires Walk(log, grant, limit, budget).Ok?
    ensures var s := Walk(log, grant, limit, budget).value;
      s.consumed <= |log| && Decodes(log[..s.consumed], grant) && s.entries == Visible(log[..s.consumed], grant)
  {
    if !(|log| == 0 || limit == 0 || budget == 0) {
      var rest := if DecodeVisibleEntry(log[0], grant).value.Some? then limit - 1 else limit;
      WalkIsVisiblePrefix(log[1..], grant, rest, budget - 1);
      var s := Walk(log[1..], grant, rest, budget - 1).value;
      var consumed := log[..s.consumed + 1];
      assert consumed[1..] == log[1..][..s.consumed];
      assert forall r :: r in consumed <==> r == log[0] || r in consumed[1..];
    }
  }

  /** The walk fails exactly when it meets a row that does not decode. */
  lemma {:induction false} WalkOfDecodable(log: seq<Row>, grant: RetrievalGrant, limit: nat, budget: nat)
    requires Decodes(log, grant)
    ensures Walk(log, grant, limit, budget).Ok?
  {
    if !(|log| == 0 || limit == 0 || budget == 0) {
      assert log[0] in log;
      assert forall r :: r in log[1..] ==> r in log;
      var shown := DecodeVisibleEntry(log[0], grant).value.Some?;
      WalkOfDecodable(log[1..], grant, if shown then limit - 1 else limit, budget - 1);
    }
  }

  /** The number of rows up to and including the k-th visible one. */
  ghost function RowsFor(log: seq<Row>, grant: RetrievalGrant, k: nat): (m: nat)
    requires 0 < k <= |Visible(log, grant)|
    ensures 0 < m <= |log|
  {
    if DecodeVisibleEntry(log[0], grant).Ok? && DecodeVisibleEntry(log[0], grant).value.Some? then
      if k == 1 then 1 else 1 + RowsFor(log[1..], grant, k - 1)
    else 1 + RowsFor(log[1..], grant, k)
  }

  lemma {:induction false} RowsForMeaning(log: seq<Row>, grant: RetrievalGrant, k: nat)
    requires 0 < k <= |Visible(log, grant)|
    ensures var m := RowsFor(log, grant, k);
      && Visible(log[..m], grant) == Visible(log, grant)[..k]
      && DecodeVisibleEntry(log[m - 1], grant) == Ok(Some(Visible(log, grant)[k - 1]))
  {
    hide DecodeVisibleEntry;
    var m := RowsFor(log, grant, k);
    var isVisible := DecodeVisibleEntry(log[0], grant).Ok? && DecodeVisibleEntry(log[0], grant).value.Some?;
    assert log[..m][1..] == log[1..][..m - 1];
    if isVisible && k == 1 {
      assert Visible(log[..1][1..], grant) == [];
    } else if isVisible {
      RowsForMeaning(log[1..], grant, k - 1);
    } else {
      RowsForMeaning(log[1..], grant, k);
    }
  }

  /** `page` delivers the first `m` rows of the log, and its cursor stands at the last of them. */
  ghost predicate Covers(page: LocalPage, log: seq<Row>, m: nat, grant: RetrievalGrant, sizes: Sizes) {
    && m <= |log|
    && Decodes(log[..m], grant)
    && page.entries == WireVisible(log[..m], grant, sizes)
    && AllFit(page.entries, sizes)
    && (page.nextCursor.None? ==> m == |log|)
    && (page.nextCursor.Some? ==> m > 0 && page.nextCursor == Some(Position(log[m - 1])))
  }

  lemma {:induction false} FittingPrefix(w: seq<WireEntry>, sizes: Sizes, from: nat)
    requires from <= |w| && AllFit(w[..from], sizes)
    ensures AllFit(w[..FitCount(w, sizes, from)], sizes)
    decreases |w| - from
  {
    if from < |w| && PageBytes(w[..from + 1], sizes) <= MAX_WIRE_PAGE_BYTES {
      var next := w[..from + 1];
      assert next[..from] == w[..from];
      assert FitsAlone(w[from], sizes) by {
        assert [w[from]][..0] == [];
        assert EntriesBytes([w[from]], sizes) == sizes.entry(w[from]);
      }
      assert forall e :: e in next <==> e in w[..from] || e == w[from];
      FittingPrefix(w, sizes, from + 1);
    }
  }

  /** The core's page covers the rows it scanned, also when the budget ran out. */
  lemma CorePage(rows: seq<Row>, q: TimelineQuery, grant: RetrievalGrant) returns (n: nat)
    requires Table(rows) && Timeline(rows, q, grant).Ok?
    ensures var page, log := Timeline(rows, q, grant).value, Log(rows, q.raw);
      && n <= |log| && n <= MAX_RAW_SCAN_PER_QUERY
      && Decodes(log[..n], grant) && page.entries == Visible(log[..n], grant)
      && (page.nextCursor.None? ==> n == |log|)
      && (page.nextCursor.Some? ==> n > 0 && page.nextCursor == Some(Position(log[n - 1])))
      && (page.nextCursor.Some? <==> n < |log| || (n == MAX_RAW_SCAN_PER_QUERY && |page.entries| < q.limit))
      && (n < |log| ==> n == MAX_RAW_SCAN_PER_QUERY || |page.entries| == q.limit)
  {
    hide Log, Table, DecodeVisibleEntry, SortableBounds;
    var log := Log(rows, q.raw);
    WalkIsVisiblePrefix(log, grant, q.limit, MAX_RAW_SCAN_PER_QUERY);
    WalkBounds(log, grant, q.limit, MAX_RAW_SCAN_PER_QUERY);
    n := Walk(log, grant, q.limit, MAX_RAW_SCAN_PER_QUERY).value.consumed;
  }

  /** Every wire page covers a prefix of the log, through batching, hidden rows, budget and truncation. */
  lemma PageCovers(rows: seq<Row>, policy: Policy, token: string, q: TimelineQuery, sizes: Sizes) returns (m: nat)
    requires Store(rows) && WireTimeline(rows, policy, token, q, sizes).Ok?
    ensures Covers(WireTimeline(rows, policy, token, q, sizes).value, Log(rows, q.raw), m, policy.grant, sizes)
  {
    hide Table, Log, DecodeVisibleEntry, Visible, Timeline, MapWireEntry;
    var log, grant := Log(rows, q.raw), policy.grant;
    var n := CorePage(rows, q, grant);
    var w := WireVisible(log[..n], grant, sizes);
    var k := FitCount(w, sizes, 0);
    FittingPrefix(w, sizes, 0);
    if k == |w| {
      assert w[..k] == w;
      m := n;
    } else {
      m := TruncatedAt(rows, q.raw, n, grant, sizes, k);
    }
  }

  /** A page cut after `k` entries ends at the row of its last entry. */
  lemma TruncatedAt(rows: seq<Row>, q: RawQuery, n: nat, grant: RetrievalGrant, sizes: Sizes, k: nat) returns (m: nat)
    requires Store(rows) && n <= |Log(rows, q)| && Decodes(Log(rows, q)[..n], grant)
    requires 0 < k <= |WireVisible(Log(rows, q)[..n], grant, sizes)|
    ensures 0 < m <= n && Decodes(Log(rows, q)[..m], grant)
    ensures WireVisible(Log(rows, q)[..m], grant, sizes) == WireVisible(Log(rows, q)[..n], grant, sizes)[..k]
    ensures WirePosition(WireVisible(Log(rows, q)[..n], grant, sizes)[k - 1]) == Position(Log(rows, q)[m - 1])
  {
    hide Table, Log, DecodeVisibleEntry, Visible, MapWireEntry, RowsFor;
    var log := Log(rows, q);
    var scanned := log[..n];
    m := RowsFor(scanned, grant, k);
    RowsForMeaning(scanned, grant, k);
    assert scanned[..m] == log[..m];
    DecodesPrefix(scanned, m, grant);
    EntryOfRow(rows, q, m - 1, grant);
    assert WireVisible(log[..m], grant, sizes) == WireVisible(scanned, grant, sizes)[..k];
  }

  lemma DecodesPrefix(log: seq<Row>, m: nat, grant: RetrievalGrant)
    requires m <= |log| && Decodes(log, grant)
    ensures Decodes(log[..m], grant)
  {
    assert forall r :: r in log[..m] ==> r in log;
  }

  /** The entry of a row carries the row's own position. */
  lemma EntryOfRow(rows: seq<Row>, q: RawQuery, i: nat, grant: RetrievalGrant)
    requires Store(rows) && i < |Log(rows, q)|
    ensures var d := DecodeVisibleEntry(Log(rows, q)[i], grant);
      d.Ok? && d.value.Some? ==>
        && d.value.value.header.observedAt == Log(rows, q)[i].observedAt
        && d.value.value.header.eventId == Log(rows, q)[i].id
  {
    hide Table, Log, FilterRefs;
    LogMeaning(rows, q);
    assert Log(rows, q)[i] in Log(rows, q);
  }

  /** A page is refused only for an inadmissible request, a row that does not decode, or an oversized entry. */
  lemma PageSucceeds(rows: seq<Row>, policy: Policy, token: string, q: TimelineQuery, sizes: Sizes)
    requires Store(rows) && Admissible(policy, token, q)
    requires Decodes(Log(rows, q.raw), policy.grant)
    requires AllFit(WireVisible(Log(rows, q.raw), policy.grant, sizes), sizes)
    ensures WireTimeline(rows, policy, token, q, sizes).Ok?
  {
    hide Log, Table, DecodeVisibleEntry, SortableBounds, MapWireEntry, Blank;
    var log, grant := Log(rows, q.raw), policy.grant;
    WalkOfDecodable(log, grant, q.limit, MAX_RAW_SCAN_PER_QUERY);
    var n := CorePage(rows, q, grant);
    WireVisibleSplit(log, n, grant, sizes);
    var w := WireVisible(log[..n], grant, sizes);
    if |w| > 0 {
      assert w[0] == WireVisible(log, grant, sizes)[0];
      assert w[..1] == [w[0]];
      assert FitsAlone(w[0], sizes);
    }
  }

  /** A cursor that leads to no further row is returned exactly when the log in range has 5,000 rows, the
      scan budget, and too few of them are visible to fill the page. */
  lemma CursorPastTheEnd(rows: seq<Row>, q: TimelineQuery, grant: RetrievalGrant)
    requires Table(rows) && Timeline(rows, q, grant).Ok?
    ensures var next := Timeline(rows, q, grant).value.nextCursor;
      next.Some? && |Log(rows, q.raw.(before := next))| == 0 <==>
        |Log(rows, q.raw)| == MAX_RAW_SCAN_PER_QUERY && |Visible(Log(rows, q.raw), grant)| < q.limit
  {
    hide Table, Log, DecodeVisibleEntry, Visible, SortableBounds;
    var log, page := Log(rows, q.raw), Timeline(rows, q, grant).value;
    var n := CorePage(rows, q, grant);
    assert log == log[..n] + log[n..];
    VisibleConcat(log[..n], log[n..], grant);
    assert n == |log| ==> log[..n] == log;
    if page.nextCursor.Some? { ResumedLog(rows, q.raw, n, page.nextCursor); }
  }

  /** A row above a metadata grant. */
  function HiddenRow(id: Id, at: SortKey.Instant): Row
    requires SortKey.Sortable(at)
  {
    Row(id, "scope.personal", at, SortKey.KeyOf(at), 2,
        EnvelopeV2(Header(id, at, "scope.personal", SensitiveEvent, ""), [], ""))
  }

  function HiddenRows(k: nat, at: SortKey.Instant): seq<Row>
    requires SortKey.Sortable(at)
  {
    if k == 0 then [] else [HiddenRow(k, at)] + HiddenRows(k - 1, at)
  }

  const EVERYTHING := RawQuery("scope.personal", None, None, None)
  const METADATA_ONLY := RetrievalGrant(Metadata, Normal, false)

  lemma {:induction false} HiddenTable(k: nat, at: SortKey.Instant)
    requires SortKey.Sortable(at)
    ensures Table(HiddenRows(k, at)) && |HiddenRows(k, at)| == k
    ensures forall r <- HiddenRows(k, at) :: 1 <= r.id <= k && r == HiddenRow(r.id, at)
  {
    hide Table, SortKey.KeyOf, SortKey.Sortable, HiddenRow;
    if k == 0 {
      assert Table([]) by { NoRows(); }
    } else {
      HiddenTable(k - 1, at);
      assert HiddenRow(k, at).id == k && HasKey(HiddenRow(k, at)) by { HiddenRowHasKey(k, at); }
      var rest := HiddenRows(k - 1, at);
      forall r | r in HiddenRows(k, at) ensures 1 <= r.id <= k && r == HiddenRow(r.id, at) {
        assert r == HiddenRow(k, at) || r in rest;
      }
      NewRow(HiddenRow(k, at), rest);
    }
  }

  lemma HiddenRowHasKey(id: Id, at: SortKey.Instant)
    requires SortKey.Sortable(at)
    ensures HiddenRow(id, at).id == id && HasKey(HiddenRow(id, at))
  {
    hide SortKey.KeyOf;
  }

  lemma NoRows()
    ensures Table([])
  {
  }

  lemma NewRow(r: Row, rows: seq<Row>)
    requires Table(rows) && HasKey(r) && forall x <- rows :: x.id != r.id
    ensures Table([r] + rows)
  {
    hide HasKey;
    assert forall i :: 0 <= i < |rows| ==> rows[i] in rows;
  }

  lemma {:induction false} InsertGrows(r: Row, t: seq<Row>)
    ensures |Insert(r, t)| == |t| + 1
  {
    if |t| > 0 { InsertGrows(r, t[1..]); }
  }

  lemma {:induction false} LogOfSelected(rows: seq<Row>, q: RawQuery)
    requires forall r <- rows :: Selected(r, q)
    ensures |Log(rows, q)| == |rows|
  {
    hide Selected, Insert;
    if |rows| > 0 {
      assert rows[0] in rows;
      LogOfSelected(rows[1..], q);
      InsertGrows(rows[0], Log(rows[1..], q));
    }
  }

  lemma {:induction false} NothingVisible(log: seq<Row>, grant: RetrievalGrant)
    requires forall r <- log :: DecodeVisibleEntry(r, grant) == Ok(None)
    ensures Visible(log, grant) == []
  {
    hide DecodeVisibleEntry;
    if |log| > 0 {
      assert log[0] in log;
      NothingVisible(log[1..], grant);
    }
  }

  /** Five thousand hidden rows: the first page is empty and its cursor leads nowhere. */
  lemma FullBudgetOfHiddenRows(budget: nat, at: SortKey.Instant)
    requires SortKey.Sortable(at) && budget == MAX_RAW_SCAN_PER_QUERY
    ensures var page := Timeline(HiddenRows(budget, at), TimelineQuery(EVERYTHING, 20), METADATA_ONLY);
      && page.Ok? && page.value.entries == [] && page.value.nextCursor.Some?
      && Log(HiddenRows(budget, at), EVERYTHING.(before := page.value.nextCursor)) == []
  {
    hide Table, Log, Selected, DecodeVisibleEntry, Visible, Walk, HiddenRows, SortKey.KeyOf;
    var rows, q := HiddenRows(budget, at), TimelineQuery(EVERYTHING, 20);
    HiddenTable(budget, at);
    LogMeaning(rows, EVERYTHING);
    forall r | r in rows ensures Selected(r, EVERYTHING) && DecodeVisibleEntry(r, METADATA_ONLY) == Ok(None) {
      HiddenFromReader(r.id, at);
    }
    LogOfSelected(rows, EVERYTHING);
    NothingVisible(Log(rows, EVERYTHING), METADATA_ONLY);
    WalkOfDecodable(Log(rows, EVERYTHING), METADATA_ONLY, q.limit, MAX_RAW_SCAN_PER_QUERY);
    ScopeIsNotBlank();
    CursorPastTheEnd(rows, q, METADATA_ONLY);
    var n := CorePage(rows, q, METADATA_ONLY);
    NothingVisible(Log(rows, EVERYTHING)[..n], METADATA_ONLY);
  }

  lemma HiddenFromReader(id: Id, at: SortKey.Instant)
    requires SortKey.Sortable(at)
    ensures Selected(HiddenRow(id, at), EVERYTHING)
    ensures DecodeVisibleEntry(HiddenRow(id, at), METADATA_ONLY) == Ok(None)
  {
    hide SortKey.KeyOf;
  }

  lemma ScopeIsNotBlank()
    ensures !Blank("scope.personal")
  {
    var c := "scope.personal"[0];
    assert c == 's' && c in "scope.personal" && !Whitespace(c);
  }

  // ---------------------------------------------------------------- a chain over a fixed store

  lemma Resumed(rows: seq<Row>, q: RawQuery, page: LocalPage, m: nat, grant: RetrievalGrant, sizes: Sizes)
    requires Store(rows) && Covers(page, Log(rows, q), m, grant, sizes) && page.nextCursor.Some?
    ensures Log(rows, q.(before := page.nextCursor)) == Log(rows, q)[m..]
    ensures SortableBounds(q) ==> SortableBounds(q.(before := page.nextCursor))
  {
    ResumedLog(rows, q, m, page.nextCursor);
  }

  function ResumeAt(q: TimelineQuery, cursor: Option<Cursor>): TimelineQuery {
    q.(raw := q.raw.(before := cursor))
  }

  /** Follows `next_cursor` until it is `None`. That this recursion is accepted is the termination of
      every chain: each returned cursor leaves strictly fewer rows. */
  ghost function Drain(rows: seq<Row>, policy: Policy, token: string, q: TimelineQuery, sizes: Sizes)
    : Result<seq<WireEntry>, ReadError>
    requires Store(rows)
    decreases |Log(rows, q.raw)|
  {
    match WireTimeline(rows, policy, token, q, sizes)
    case Err(e) => Err(e)
    case Ok(page) =>
      if page.nextCursor.None? then Ok(page.entries)
      else
        NextLogIsShorter(rows, policy, token, q, sizes);
        match Drain(rows, policy, token, ResumeAt(q, page.nextCursor), sizes)
        case Err(e) => Err(e)
        case Ok(rest) => Ok(page.entries + rest)
  }

  lemma NextLogIsShorter(rows: seq<Row>, policy: Policy, token: string, q: TimelineQuery, sizes: Sizes)
    requires Store(rows) && WireTimeline(rows, policy, token, q, sizes).Ok?
    requires WireTimeline(rows, policy, token, q, sizes).value.nextCursor.Some?
    ensures var next := WireTimeline(rows, policy, token, q, sizes).value.nextCursor;
      |Log(rows, ResumeAt(q, next).raw)| < |Log(rows, q.raw)|
  {
    var m := PageCovers(rows, policy, token, q, sizes);
    Resumed(rows, q.raw, WireTimeline(rows, policy, token, q, sizes).value, m, policy.grant, sizes);
  }

  /** A complete read succeeds exactly when the request is admissible, every row in range decodes and
      every visible entry fits the response budget; it is then the filtered log, in order. */
  lemma {:induction false} DrainIsFilteredLog(rows: seq<Row>, policy: Policy, token: string, q: TimelineQuery,
                                              sizes: Sizes)
    requires Store(rows)
    ensures Drain(rows, policy, token, q, sizes).Ok? <==>
        Admissible(policy, token, q) && Decodes(Log(rows, q.raw), policy.grant)
        && AllFit(WireVisible(Log(rows, q.raw), policy.grant, sizes), sizes)
    ensures Drain(rows, policy, token, q, sizes).Ok? ==>
        Drain(rows, policy, token, q, sizes).value == WireVisible(Log(rows, q.raw), policy.grant, sizes)
    decreases |Log(rows, q.raw)|
  {
    hide Log, Table, DecodeVisibleEntry, Visible, MapWireEntry, Walk, FitsAlone, WirePageOf, SortableBounds, Blank;
    var log, grant := Log(rows, q.raw), policy.grant;
    if Admissible(policy, token, q) && Decodes(log, grant) && AllFit(WireVisible(log, grant, sizes), sizes) {
      PageSucceeds(rows, policy, token, q, sizes);
    }
    var first := WireTimeline(rows, policy, token, q, sizes);
    if first.Ok? {
      var m := PageCovers(rows, policy, token, q, sizes);
      WireVisibleSplit(log, m, grant, sizes);
      DecodesSplit(log, m, grant);
      if first.value.nextCursor.Some? {
        Resumed(rows, q.raw, first.value, m, grant, sizes);
        DrainIsFilteredLog(rows, policy, token, ResumeAt(q, first.value.nextCursor), sizes);
      } else {
        assert log[m..] == [] && log[..m] == log;
      }
    }
  }

  lemma DecodesSplit(log: seq<Row>, m: nat, grant: RetrievalGrant)
    requires m <= |log|
    ensures Decodes(log, grant) <==> Decodes(log[..m], grant) && Decodes(log[m..], grant)
  {
    assert log == log[..m] + log[m..];
    assert forall r :: r in log <==> r in log[..m] || r in log[m..];
  }

  // ---------------------------------------------------------------- a chain while the log grows

  /** One answered request: the table at that moment, and the page. */
  datatype Request = Request(rows: seq<Row>, page: LocalPage)

  /** Requests that follow each other's cursors to the end, with any number of appends in between. */
  ghost predicate Chain(steps: seq<Request>, policy: Policy, token: string, q: TimelineQuery, sizes: Sizes) {
    && |steps| > 0
    && Store(steps[0].rows)
    && WireTimeline(steps[0].rows, policy, token, q, sizes) == Ok(steps[0].page)
    && (if |steps| == 1 then steps[0].page.nextCursor.None?
        else
          && steps[0].page.nextCursor.Some?
          && (forall r :: r in steps[0].rows ==> r in steps[1].rows)
          && Chain(steps[1..], policy, token, ResumeAt(q, steps[0].page.nextCursor), sizes))
  }

  ghost function AllEntries(steps: seq<Request>): seq<WireEntry> {
    if |steps| == 0 then [] else steps[0].page.entries + AllEntries(steps[1..])
  }

  ghost predicate EntriesDescending(w: seq<WireEntry>) {
    forall i, j :: 0 <= i < j < |w| ==> Below(WirePosition(w[j]), WirePosition(w[i]))
  }

  /** Row `r` is visible, and `e` is how the wire shows it. */
  ghost predicate Shows(r: Row, e: WireEntry, grant: RetrievalGrant, sizes: Sizes) {
    var d := DecodeVisibleEntry(r, grant);
    d.Ok? && d.value.Some? && e == MapWireEntry(d.value.value, grant, sizes)
  }

  lemma ShownPosition(r: Row, e: WireEntry, grant: RetrievalGrant, sizes: Sizes)
    requires Written(r) && Shows(r, e, grant, sizes)
    ensures WirePosition(e) == Position(r)
  {
    EntryRespectsGrant(r, grant);
  }

  lemma {:induction false} ShownEntries(log: seq<Row>, grant: RetrievalGrant, sizes: Sizes)
    requires Descending(log) && forall r <- log :: Written(r)
    ensures EntriesDescending(WireVisible(log, grant, sizes))
    ensures forall e <- WireVisible(log, grant, sizes) :: exists r :: r in log && Shows(r, e, grant, sizes)
    ensures forall r, e :: r in log && Shows(r, e, grant, sizes) ==> e in WireVisible(log, grant, sizes)
  {
    hide MapWireEntry, DecodeVisibleEntry, Written;
    if |log| > 0 {
      var rest := log[1..];
      assert forall r :: r in log <==> r == log[0] || r in rest;
      ShownEntries(rest, grant, sizes);
      var w, tail := WireVisible(log, grant, sizes), WireVisible(rest, grant, sizes);
      var d := DecodeVisibleEntry(log[0], grant);
      if d.Ok? && d.value.Some? {
        var e0 := MapWireEntry(d.value.value, grant, sizes);
        assert w == [e0] + tail;
        assert Shows(log[0], e0, grant, sizes);
        ShownPosition(log[0], e0, grant, sizes);
        forall e | e in tail ensures Below(WirePosition(e), WirePosition(e0)) {
          var r :| r in rest && Shows(r, e, grant, sizes);
          ShownPosition(r, e, grant, sizes);
          var i :| 0 <= i < |rest| && rest[i] == r;
          assert log[i + 1] == r;
        }
      } else {
        assert w == tail;
      }
    }
  }

  /** What one page of a chain contributes. */
  lemma PageContents(rows: seq<Row>, q: RawQuery, page: LocalPage, m: nat, grant: RetrievalGrant, sizes: Sizes)
    requires Store(rows) && Covers(page, Log(rows, q), m, grant, sizes)
    ensures EntriesDescending(page.entries)
    ensures forall e <- page.entries :: exists r :: r in Log(rows, q)[..m] && Shows(r, e, grant, sizes)
    ensures forall r, e :: r in Log(rows, q)[..m] && Shows(r, e, grant, sizes) ==> e in page.entries
  {
    hide Shows, MapWireEntry, DecodeVisibleEntry, Written;
    var log := Log(rows, q);
    LogMeaning(rows, q);
    forall r | r in log[..m] ensures Written(r) { assert r in log && r in rows; }
    ShownEntries(log[..m], grant, sizes);
  }

  ghost predicate Shown(e: WireEntry, rows: seq<Row>, q: RawQuery, grant: RetrievalGrant, sizes: Sizes) {
    exists r :: r in rows && Selected(r, q) && Shows(r, e, grant, sizes)
  }

  lemma {:induction false} LastTableIsLargest(steps: seq<Request>, policy: Policy, token: string, q: TimelineQuery,
                                              sizes: Sizes)
    requires Chain(steps, policy, token, q, sizes)
    ensures Store(steps[|steps| - 1].rows)
    ensures forall r :: r in steps[0].rows ==> r in steps[|steps| - 1].rows
  {
    hide WireTimeline, Store;
    if |steps| > 1 {
      LastTableIsLargest(steps[1..], policy, token, ResumeAt(q, steps[0].page.nextCursor), sizes);
    }
  }

  /** Paging is exact while the log grows: entries come strictly newest-first, so none repeats; each is a
      visible row in range of the final table; and every visible row in range at the start is delivered. */
  lemma {:induction false} ChainIsExact(steps: seq<Request>, policy: Policy, token: string, q: TimelineQuery,
                                        sizes: Sizes)
    requires Chain(steps, policy, token, q, sizes)
    ensures EntriesDescending(AllEntries(steps))
    ensures forall e <- AllEntries(steps) :: Shown(e, steps[|steps| - 1].rows, q.raw, policy.grant, sizes)
    ensures forall e :: Shown(e, steps[0].rows, q.raw, policy.grant, sizes) ==> e in AllEntries(steps)
    ensures forall r :: r in steps[0].rows && Selected(r, q.raw) ==> DecodeVisibleEntry(r, policy.grant).Ok?
    decreases |steps|
  {
    hide WireTimeline, Table, Log, DecodeVisibleEntry, MapWireEntry, Written, Visible;
    var rows, page, grant := steps[0].rows, steps[0].page, policy.grant;
    var log := Log(rows, q.raw);
    var m := PageCovers(rows, policy, token, q, sizes);
    LogMeaning(rows, q.raw);
    PageContents(rows, q.raw, page, m, grant, sizes);
    LastTableIsLargest(steps, policy, token, q, sizes);
    assert forall r :: r in log[..m] ==> r in log;
    if |steps| == 1 {
      assert log[..m] == log;
      assert AllEntries(steps) == page.entries + [] == page.entries;
    } else {
      var rest := ResumeAt(q, page.nextCursor);
      ChainIsExact(steps[1..], policy, token, rest, sizes);
      Joined(steps, policy, token, q, sizes, m);
    }
  }

  /** A row in range is delivered by the first page or is in range of the rest of the chain. */
  lemma BeforeOrAfter(rows: seq<Row>, q: RawQuery, page: LocalPage, m: nat, grant: RetrievalGrant, sizes: Sizes, r: Row)
    requires Store(rows) && Covers(page, Log(rows, q), m, grant, sizes) && page.nextCursor.Some?
    requires r in rows && Selected(r, q)
    ensures r in Log(rows, q)[..m] || Selected(r, q.(before := page.nextCursor))
    ensures r in Log(rows, q)[..m] ==> !Below(Position(r), page.nextCursor.value)
  {
    hide Table, Log, Written, Decodes, WireVisible, AllFit;
    var log := Log(rows, q);
    LogMeaning(rows, q);
    if r in log[..m] {
      var i :| 0 <= i < m && log[i] == r;
      assert i < m - 1 ==> Below(Position(log[m - 1]), Position(log[i]));
    }
    var j :| 0 <= j < |log| && log[j] == r;
    if j < m { assert log[..m][j] == r; } else { assert Below(Position(log[j]), Position(log[m - 1])); }
  }

  lemma Narrower(rows: seq<Row>, q: RawQuery, page: LocalPage, m: nat, grant: RetrievalGrant, sizes: Sizes, r: Row)
    requires Store(rows) && Covers(page, Log(rows, q), m, grant, sizes) && page.nextCursor.Some?
    requires Selected(r, q.(before := page.nextCursor))
    ensures Selected(r, q)
  {
    hide Table, Log, Written, Decodes, WireVisible, AllFit;
    LogMeaning(rows, q);
    assert Log(rows, q)[m - 1] in Log(rows, q);
  }

  lemma Joined(steps: seq<Request>, policy: Policy, token: string, q: TimelineQuery, sizes: Sizes, m: nat)
    requires Chain(steps, policy, token, q, sizes) && |steps| > 1
    requires Covers(steps[0].page, Log(steps[0].rows, q.raw), m, policy.grant, sizes)
    requires var rest := ResumeAt(q, steps[0].page.nextCursor);
      && EntriesDescending(AllEntries(steps[1..]))
      && (forall e <- AllEntries(steps[1..]) :: Shown(e, steps[|steps| - 1].rows, rest.raw, policy.grant, sizes))
      && (forall e :: Shown(e, steps[1].rows, rest.raw, policy.grant, sizes) ==> e in AllEntries(steps[1..]))
      && (forall r :: r in steps[1].rows && Selected(r, rest.raw) ==> DecodeVisibleEntry(r, policy.grant).Ok?)
    ensures EntriesDescending(AllEntries(steps))
    ensures forall e <- AllEntries(steps) :: Shown(e, steps[|steps| - 1].rows, q.raw, policy.grant, sizes)
    ensures forall e :: Shown(e, steps[0].rows, q.raw, policy.grant, sizes) ==> e in AllEntries(steps)
    ensures forall r :: r in steps[0].rows && Selected(r, q.raw) ==> DecodeVisibleEntry(r, policy.grant).Ok?
  {
    hide WireTimeline, Table, Log, DecodeVisibleEntry, MapWireEntry, Written, Visible, Shows, Selected, Below;
    var rows, page, grant := steps[0].rows, steps[0].page, policy.grant;
    var log, last := Log(rows, q.raw), steps[|steps| - 1].rows;
    var rest := ResumeAt(q, page.nextCursor);
    LogMeaning(rows, q.raw);
    PageContents(rows, q.raw, page, m, grant, sizes);
    LastTableIsLargest(steps, policy, token, q, sizes);
    forall e | e in page.entries
      ensures Shown(e, last, q.raw, grant, sizes) && !Below(WirePosition(e), page.nextCursor.value)
    {
      var r :| r in log[..m] && Shows(r, e, grant, sizes);
      assert r in log;
      BeforeOrAfter(rows, q.raw, page, m, grant, sizes, r);
      ShownPosition(r, e, grant, sizes);
    }
    forall e | e in AllEntries(steps[1..])
      ensures Shown(e, last, q.raw, grant, sizes) && Below(WirePosition(e), page.nextCursor.value)
    {
      var r :| r in last && Selected(r, rest.raw) && Shows(r, e, grant, sizes);
      Narrower(rows, q.raw, page, m, grant, sizes, r);
      ShownPosition(r, e, grant, sizes);
      SelectedIsBelow(r, rest.raw);
    }
    JoinDescending(page.entries, AllEntries(steps[1..]), page.nextCursor.value);
    forall r | r in rows && Selected(r, q.raw)
      ensures DecodeVisibleEntry(r, grant).Ok?
    {
      BeforeOrAfter(rows, q.raw, page, m, grant, sizes, r);
    }
    forall e | Shown(e, rows, q.raw, grant, sizes)
      ensures e in AllEntries(steps)
    {
      var r :| r in rows && Selected(r, q.raw) && Shows(r, e, grant, sizes);
      BeforeOrAfter(rows, q.raw, page, m, grant, sizes, r);
    }
  }

  lemma SelectedIsBelow(r: Row, q: RawQuery)
    requires Selected(r, q) && q.before.Some?
    ensures Below(Position(r), q.before.value)
  {
  }

  lemma JoinDescending(a: seq<WireEntry>, b: seq<WireEntry>, c: Cursor)
    requires EntriesDescending(a) && EntriesDescending(b)
    requires forall e <- a :: !Below(WirePosition(e), c)
    requires forall e <- b :: Below(WirePosition(e), c)
    ensures EntriesDescending(a + b)
  {
  }

  // ---------------------------------------------------------------- what a chain tells a reader

  /** The row is of the scope, in the half-open time range and strictly below the starting position. */
  ghost predicate InRange(r: Row, q: RawQuery) {
    && r.scope == q.scope
    && (q.startAt.Some? ==> q.startAt.value <= r.observedAt)
    && (q.endAt.Some? ==> r.observedAt < q.endAt.value)
    && (q.before.Some? ==>
          r.observedAt < q.before.value.observedAt
          || (r.observedAt == q.before.value.observedAt && r.id < q.before.value.eventId))
  }

  /** The entry is the row's event, as far as the grant and the wire limits go. */
  ghost predicate Tells(e: WireEntry, r: Row, grant: RetrievalGrant) {
    && !r.envelope.Undecodable? && e.header == r.envelope.header && e.schemaVersion == r.version
    && MaySee(grant.maxEventSensitivity, r.envelope.header.sensitivity)
    && (forall c <- e.contentRefs :: c in RefsOf(r.envelope) && MayShow(grant.maxContentRetrieval, c.retrievalClass))
    && (e.payload.Some? ==>
          && grant.includePayload
          && e.payload.value == (if r.envelope.EnvelopeV1? then V1Payload(r.envelope.payload)
                                 else V2Payload(r.envelope.json))
          && forall c <- RefsOf(r.envelope) :: MayShow(grant.maxContentRetrieval, c.retrievalClass))
  }

  lemma ShownTells(r: Row, e: WireEntry, grant: RetrievalGrant, sizes: Sizes)
    requires Shows(r, e, grant, sizes)
    ensures Tells(e, r, grant)
  {
    EntryRespectsGrant(r, grant);
    hide DecodeVisibleEntry, RefsOf, InOrder;
    assert forall c :: c in e.contentRefs ==> c in DecodeVisibleEntry(r, grant).value.value.contentRefs;
  }

  /** A chain is answered only to the token holder for an allowed scope. Its entries are events of rows in range that
      the
      grant lets be seen, and every such row of the first table has its entry. */
  lemma ChainTellsWhatIsAllowed(steps: seq<Request>, policy: Policy, token: string, q: TimelineQuery, sizes: Sizes)
    requires Chain(steps, policy, token, q, sizes)
    ensures token == policy.token && q.raw.scope in policy.allowedScopes
    ensures forall e <- AllEntries(steps) ::
              exists r :: r in steps[|steps| - 1].rows && InRange(r, q.raw) && Tells(e, r, policy.grant)
    ensures forall r <- steps[0].rows ::
              InRange(r, q.raw) ==>
                && !r.envelope.Undecodable?
                && (MaySee(policy.grant.maxEventSensitivity, r.envelope.header.sensitivity) ==>
                      exists e :: e in AllEntries(steps) && Tells(e, r, policy.grant))
  {
    assert token == policy.token && q.raw.scope in policy.allowedScopes;
    hide WireTimeline, Store, MapWireEntry, DecodeVisibleEntry, Tells, RefsOf, AllEntries;
    ChainIsExact(steps, policy, token, q, sizes);
    var grant, last := policy.grant, steps[|steps| - 1].rows;
    forall e | e in AllEntries(steps) ensures exists r :: r in last && InRange(r, q.raw) && Tells(e, r, grant) {
      var r :| r in last && Selected(r, q.raw) && Shows(r, e, grant, sizes);
      ShownTells(r, e, grant, sizes);
    }
    forall r | r in steps[0].rows && InRange(r, q.raw)
      ensures !r.envelope.Undecodable?
      ensures MaySee(grant.maxEventSensitivity, r.envelope.header.sensitivity) ==>
                exists e :: e in AllEntries(steps) && Tells(e, r, grant)
    {
      EntryRespectsGrant(r, grant);
      if MaySee(grant.maxEventSensitivity, r.envelope.header.sensitivity) {
        var e := MapWireEntry(DecodeVisibleEntry(r, grant).value.value, grant, sizes);
        assert Shown(e, steps[0].rows, q.raw, grant, sizes) by { assert Shows(r, e, grant, sizes); }
        ShownTells(r, e, grant, sizes);
      }
    }
  }
}
