/** What the store holds about one collector: its part of the raw log and its reconciliation flag. */
module CollectorLog {
  import opened Wrappers
  import opened Contracts
  import opened EventLog

  const SOURCE := "windows.directory-watcher"

  /** What the log says about one collector: a sequence number and a payload for each of its v1 rows. */
  datatype LogItem = LogItem(sequence: Option<nat>, payload: EventPayload)

  function Logged(raw: seq<RawRow>, key: CollectorKey): seq<LogItem> {
    if |raw| == 0 then []
    else
      var last := raw[|raw| - 1];
      Logged(raw[..|raw| - 1], key) +
      (if last.V1? && (last.Source(), last.Scope()) == key then [LogItem(last.Sequence(), last.event.payload)] else [])
  }

  predicate FlagRaised(s: Store, key: CollectorKey) {
    key in s.checkpoints && s.checkpoints[key].reconciliationRequired
  }

  lemma LoggedAppend(raw: seq<RawRow>, row: RawRow, key: CollectorKey)
    ensures Logged(raw + [row], key) == Logged(raw, key) +
              (if row.V1? && (row.Source(), row.Scope()) == key then [LogItem(row.Sequence(), row.event.payload)]
               else [])
  {
    assert (raw + [row])[..|raw|] == raw;
  }
}
