/**
  The raw timeline scan of the storage layer: the keyset statement over text keys, the chronological
  log it stands for, and `query_raw_timeline` with its one-row look-ahead.
 */
module RawTimeline {
  import opened Wrappers
  import opened SortKey
  import opened Evidence

  /** Event ids are compared as fixed-width hexadecimal text, which is numeric order. */
  datatype Cursor = Cursor(observedAt: Instant, eventId: Id)

  /** A raw event row and the envelope stored with it. */
  datatype Row = Row(id: Id, scope: string, observedAt: Instant, observedKey: string, version: nat, envelope: Envelope)

  datatype RawQuery = RawQuery(
    scope: string, startAt: Option<Instant>, endAt: Option<Instant>, before: Option<Cursor>)

  datatype RawPage = RawPage(records: seq<Row>, hasMore: bool)

  // ---------------------------------------------------------------- order

  function Position(r: Row): Cursor {
    Cursor(r.observedAt, r.id)
  }

  predicate Below(a: Cursor, b: Cursor) {
    a.observedAt < b.observedAt || (a.observedAt == b.observedAt && a.eventId < b.eventId)
  }

  ghost predicate Descending(t: seq<Row>) {
    forall i, j :: 0 <= i < j < |t| ==> Below(Position(t[j]), Position(t[i]))
  }

  ghost predicate HasKey(r: Row) {
    Sortable(r.observedAt) && r.observedKey == KeyOf(r.observedAt)
  }

  /** The primary key, and the key column written from the same instant as the row. */
  ghost predicate Table(rows: seq<Row>) {
    && (forall i, j :: 0 <= i < j < |rows| ==> rows[i].id != rows[j].id)
    && (forall r <- rows :: HasKey(r))
  }

  // ---------------------------------------------------------------- the chronological log

  predicate Selected(r: Row, q: RawQuery) {
    && r.scope == q.scope
    && (q.startAt.Some? ==> q.startAt.value <= r.observedAt)
    && (q.endAt.Some? ==> r.observedAt < q.endAt.value)
    && (q.before.Some? ==> Below(Position(r), q.before.value))
  }

  function Insert(r: Row, t: seq<Row>): seq<Row> {
    if |t| == 0 || Below(Position(t[0]), Position(r)) then [r] + t else [t[0]] + Insert(r, t[1..])
  }

  /** The rows a query is about, newest first. */
  function Log(rows: seq<Row>, q: RawQuery): seq<Row> {
    if |rows| == 0 then []
    else if Selected(rows[0], q) then Insert(rows[0], Log(rows[1..], q))
    else Log(rows[1..], q)
  }

  lemma {:induction false} InsertKeepsOrder(r: Row, t: seq<Row>)
    requires Descending(t) && forall x <- t :: x.id != r.id
    ensures Descending(Insert(r, t))
    ensures forall x :: x in Insert(r, t) <==> x == r || x in t
  {
    if |t| > 0 && !Below(Position(t[0]), Position(r)) {
      InsertKeepsOrder(r, t[1..]);
      var rest := Insert(r, t[1..]);
      assert forall x :: x in t <==> x == t[0] || x in t[1..];
      forall x | x in rest ensures Below(Position(x), Position(t[0])) {
        if x != r { var i :| 1 <= i < |t| && t[i] == x; }
      }
    } else if |t| > 0 {
      forall i | 0 <= i < |t| ensures Below(Position(t[i]), Position(r)) {
        if i > 0 { assert Below(Position(t[i]), Position(t[0])); }
      }
    }
  }

  lemma {:induction false} LogMeaning(rows: seq<Row>, q: RawQuery)
    requires Table(rows)
    ensures Descending(Log(rows, q))
    ensures forall r :: r in Log(rows, q) <==> r in rows && Selected(r, q)
  {
    if |rows| > 0 {
      var tail := rows[1..];
      assert forall r :: r in rows <==> r == rows[0] || r in tail;
      LogMeaning(tail, q);
      if Selected(rows[0], q) {
        InsertKeepsOrder(rows[0], Log(tail, q));
      }
    }
  }

  /** A descending log is determined by the rows in it. */
  lemma {:induction false} DescendingUnique(s: seq<Row>, t: seq<Row>)
    requires Descending(s) && Descending(t)
    requires forall r :: r in s <==> r in t
    ensures s == t
  {
    if |t| > 0 { assert t[0] in s; }
    if |s| > 0 {
      assert s[0] in t;
      assert t[0] in s;
      var j :| 0 <= j < |t| && t[j] == s[0];
      var k :| 0 <= k < |s| && s[k] == t[0];
      assert j == 0;
      forall r ensures r in s[1..] <==> r in t[1..] {
        if r in s[1..] { var i :| 1 <= i < |s| && s[i] == r; assert r in t && r != t[0]; }
        if r in t[1..] { var i :| 1 <= i < |t| && t[i] == r; assert r in s && r != s[0]; }
      }
      DescendingUnique(s[1..], t[1..]);
    }
  }

  /** Resuming below the k-th row leaves exactly the rows after it: nothing repeated, nothing skipped. */
  lemma ResumeIsSuffix(rows: seq<Row>, q: RawQuery, k: nat)
    requires Table(rows) && 0 < k <= |Log(rows, q)|
    ensures Log(rows, q.(before := Some(Position(Log(rows, q)[k - 1])))) == Log(rows, q)[k..]
  {
    var t := Log(rows, q);
    var resumed := q.(before := Some(Position(t[k - 1])));
    LogMeaning(rows, q);
    LogMeaning(rows, resumed);
    hide Log, HasKey, Table, Descending;
    forall r ensures r in Log(rows, resumed) <==> r in t[k..] {
      TailIsBelow(t, k, r);
      StillSelected(t[k - 1], r, q);
      assert t[k - 1] in t;
    }
    TailDescends(t, k);
    DescendingUnique(Log(rows, resumed), t[k..]);
  }

  lemma TailDescends(t: seq<Row>, k: nat)
    requires Descending(t) && k <= |t|
    ensures Descending(t[k..])
  {
  }

  /** What is below the k-th row of a log are the rows after it. */
  lemma TailIsBelow(t: seq<Row>, k: nat, r: Row)
    requires Descending(t) && 0 < k <= |t|
    ensures r in t[k..] <==> r in t && Below(Position(r), Position(t[k - 1]))
  {
    if r in t {
      var i :| 0 <= i < |t| && t[i] == r;
      assert i >= k ==> t[k..][i - k] == r;
    }
  }

  lemma StillSelected(last: Row, r: Row, q: RawQuery)
    requires Selected(last, q)
    ensures Selected(r, q.(before := Some(Position(last)))) <==> Selected(r, q) && Below(Position(r), Position(last))
  {
  }

  // ---------------------------------------------------------------- the SQL statement

  /** The bound parameters of the statement: text keys instead of instants. */
  datatype SqlParameters = SqlParameters(
    scope: string, startKey: Option<string>, endKey: Option<string>, cursorKey: Option<string>, cursorId: Option<Id>)

  predicate SqlWhere(r: Row, p: SqlParameters) {
    && r.scope == p.scope
    && (p.startKey.None? || r.observedKey == p.startKey.value || TextLess(p.startKey.value, r.observedKey))
    && (p.endKey.None? || TextLess(r.observedKey, p.endKey.value))
    && (p.cursorKey.None? || TextLess(r.observedKey, p.cursorKey.value)
        || (r.observedKey == p.cursorKey.value && p.cursorId.Some? && r.id < p.cursorId.value))
  }

  /** `ORDER BY observed_key DESC, event_id DESC`. */
  predicate SqlBefore(a: Row, b: Row) {
    TextLess(b.observedKey, a.observedKey) || (a.observedKey == b.observedKey && b.id < a.id)
  }

  function SqlInsert(r: Row, t: seq<Row>): seq<Row> {
    if |t| == 0 || SqlBefore(r, t[0]) then [r] + t else [t[0]] + SqlInsert(r, t[1..])
  }

  function SqlSelect(rows: seq<Row>, p: SqlParameters): seq<Row> {
    if |rows| == 0 then []
    else if SqlWhere(rows[0], p) then SqlInsert(rows[0], SqlSelect(rows[1..], p))
    else SqlSelect(rows[1..], p)
  }

  ghost predicate Bound(p: SqlParameters, q: RawQuery) {
    && p.scope == q.scope
    && (if q.startAt.Some? then Sortable(q.startAt.value) && p.startKey == Some(KeyOf(q.startAt.value))
        else p.startKey.None?)
    && (if q.endAt.Some? then Sortable(q.endAt.value) && p.endKey == Some(KeyOf(q.endAt.value))
        else p.endKey.None?)
    && (if q.before.Some? then Sortable(q.before.value.observedAt)
        && p.cursorKey == Some(KeyOf(q.before.value.observedAt))
          && p.cursorId == Some(q.before.value.eventId)
        else p.cursorKey.None? && p.cursorId.None?)
  }

  lemma SqlWhereIsSelected(r: Row, p: SqlParameters, q: RawQuery)
    requires Bound(p, q) && HasKey(r)
    ensures SqlWhere(r, p) <==> Selected(r, q)
  {
    hide KeyOf, TextLess;
    if q.startAt.Some? {
      KeyIsOrderEmbedding(q.startAt.value, r.observedAt);
    }
    if q.endAt.Some? { KeyIsOrderEmbedding(r.observedAt, q.endAt.value); }
    if q.before.Some? { KeyIsOrderEmbedding(r.observedAt, q.before.value.observedAt); }
  }

  lemma {:induction false} SqlInsertIsInsert(r: Row, t: seq<Row>)
    requires HasKey(r)
    requires forall x <- t :: HasKey(x)
    ensures SqlInsert(r, t) == Insert(r, t)
  {
    hide KeyOf, TextLess;
    if |t| > 0 {
      assert HasKey(t[0]);
      KeyIsOrderEmbedding(t[0].observedAt, r.observedAt);
      SqlInsertIsInsert(r, t[1..]);
    }
  }

  /** The statement over text keys returns the chronological log. */
  lemma {:induction false} SqlSelectIsLog(rows: seq<Row>, p: SqlParameters, q: RawQuery)
    requires Table(rows) && Bound(p, q)
    ensures SqlSelect(rows, p) == Log(rows, q)
  {
    if |rows| > 0 {
      SqlWhereIsSelected(rows[0], p, q);
      SqlSelectIsLog(rows[1..], p, q);
      LogMeaning(rows[1..], q);
      forall x | x in Log(rows[1..], q) ensures HasKey(x) {
        assert x in rows;
      }
      SqlInsertIsInsert(rows[0], Log(rows[1..], q));
    }
  }

  // ---------------------------------------------------------------- query_raw_timeline

  method FormatBound(at: Option<Instant>) returns (r: Result<Option<string>, KeyError>)
    ensures r.Ok? <==> (at.Some? ==> Sortable(at.value))
    ensures r.Ok? ==> r.value.Some? == at.Some?
    ensures r.Ok? && at.Some? ==> r.value.value == KeyOf(at.value)
  {
    if at.None? { return Ok(None); }
    var key := FormatSortKey(at.value);
    if key.Err? { return Err(key.error); }
    return Ok(Some(key.value));
  }

  ghost predicate SortableBounds(q: RawQuery) {
    && (q.startAt.Some? ==> Sortable(q.startAt.value))
    && (q.endAt.Some? ==> Sortable(q.endAt.value))
    && (q.before.Some? ==> Sortable(q.before.value.observedAt))
  }

  method BindParameters(q: RawQuery) returns (r: Result<SqlParameters, KeyError>)
    ensures r.Ok? <==> SortableBounds(q)
    ensures r.Ok? ==> Bound(r.value, q)
  {
    var startKey := FormatBound(q.startAt);
    if startKey.Err? { return Err(startKey.error); }
    var endKey := FormatBound(q.endAt);
    if endKey.Err? { return Err(endKey.error); }
    var cursorAt := if q.before.Some? then Some(q.before.value.observedAt) else None;
    var cursorKey := FormatBound(cursorAt);
    if cursorKey.Err? { return Err(cursorKey.error); }
    var cursorId := if q.before.Some? then Some(q.before.value.eventId) else None;
    return Ok(SqlParameters(q.scope, startKey.value, endKey.value, cursorKey.value, cursorId));
  }

  /** Reads one row more than asked for, then drops it again. */
  method FetchPage(selected: seq<Row>, limit: nat) returns (page: RawPage)
    ensures page == RawPage(if |selected| > limit then selected[..limit] else selected, |selected| > limit)
  {
    var fetchLimit := limit + 1;
    var sqlRows := if |selected| > fetchLimit then selected[..fetchLimit] else selected;
    var records: seq<Row> := [];
    for i := 0 to |sqlRows|
      invariant records == sqlRows[..i]
    {
      records := records + [sqlRows[i]];
    }
    assert records == sqlRows;
    var hasMore := |records| > limit;
    if hasMore { records := records[..limit]; }
    return RawPage(records, hasMore);
  }

  /** `query_raw_timeline`: the first `limit` rows of the log, and whether any row follows them. */
  method QueryRawTimeline(rows: seq<Row>, q: RawQuery, limit: nat) returns (r: Result<RawPage, KeyError>)
    requires Table(rows)
    ensures r.Ok? <==> SortableBounds(q)
    ensures r.Ok? && |Log(rows, q)| <= limit ==> r.value == RawPage(Log(rows, q), false)
    ensures r.Ok? && |Log(rows, q)| > limit ==> r.value == RawPage(Log(rows, q)[..limit], true)
  {
    var p := BindParameters(q);
    if p.Err? { return Err(p.error); }
    SqlSelectIsLog(rows, p.value, q);

    var page := FetchPage(SqlSelect(rows, p.value), limit);
    return Ok(page);
  }
}
