/**
  The Screenpipe sampling loop over whole runs: a thread that fetches frames and hands them to the agent one
  at a time, commits that fail, replies that come too late, crashes, and restarts from the stored log.
 */
module ScreenLoop {
  import opened Wrappers
  import opened Contracts
  import opened EventLog
  import opened ScreenFrames
  import SortKey

  const SCREENPIPE_SOURCE := "screenpipe.local"
  const PERSONAL_SCOPE := "scope.personal"

  // ---------------------------------------------------------------- what is stored

  predicate OfScreen(row: RawRow) {
    row.Source() == SCREENPIPE_SOURCE && row.Scope() == PERSONAL_SCOPE
  }

  /** The stored row of the source with the largest number. */
  function Latest(raw: seq<RawRow>): Option<RawRow> {
    if |raw| == 0 then None
    else
      var before, row := Latest(raw[..|raw| - 1]), raw[|raw| - 1];
      if OfScreen(row) && row.Sequence().Some? && (before.None? || NumberOf(row) > NumberOf(before.value))
      then Some(row)
      else before
  }

  function NumberOf(row: RawRow): nat {
    if row.Sequence().Some? then row.Sequence().value else 0
  }

  /** A stored event the sampler can continue from. */
  predicate IsFrame(row: RawRow) {
    row.V2? && row.event2.sourceSequence.Some? && row.event2.occurredAt.Some?
  }

  function CursorOf(row: RawRow): ScreenCursor
    requires IsFrame(row)
  {
    ScreenCursor(row.event2.sourceSequence.value, row.event2.occurredAt.value.nanos)
  }

  datatype Recovery = Enabled(cursor: Option<ScreenCursor>) | Disabled

  /** `screenpipe_runtime_config`: the cursor is read back from the newest stored event. */
  function Recover(s: Store): Recovery {
    match Latest(s.raw)
    case None => Enabled(None)
    case Some(row) => if IsFrame(row) then Enabled(Some(CursorOf(row))) else Disabled
  }

  /** `event_from_frame`, as far as the log is concerned. */
  function FrameEvent(f: Frame, id: Id, observedAt: Time): EventEnvelopeV2 {
    EventEnvelopeV2(id, CURRENT_ENVELOPE_VERSION, "ui.snapshot_observed", 1, SCREENPIPE_SOURCE, Some(f.frameId),
                    Some(Time("", f.capturedAt)), observedAt, PERSONAL_SCOPE,
                    ScreenFrame(f.frameId, f.appName, f.windowName, f.focused,
                                match f.source case Accessibility => "accessibility" case Ocr => "ocr"))
  }

  /** The row of a frame says what the frame says. */
  lemma FrameRow(f: Frame, id: Id, observedAt: Time)
    ensures var e := FrameEvent(f, id, observedAt);
      && e.eventId == id && e.observedAt == observedAt && e.envelopeVersion == 2
      && e.eventType == "ui.snapshot_observed" && e.source == "screenpipe.local" && e.scopeId == "scope.personal"
      && e.sourceSequence == Some(f.frameId) && e.occurredAt.Some? && e.occurredAt.value.nanos == f.capturedAt
      && e.payload.ScreenFrame? && e.payload.frameId == f.frameId && e.payload.appName == f.appName
      && e.payload.windowName == f.windowName && e.payload.focused == f.focused
      && (e.payload.textSource == "accessibility" <==> f.source.Accessibility?)
      && (e.payload.textSource == "ocr" <==> f.source.Ocr?)
  {
    assert "accessibility"[0] != "ocr"[0];
  }

  // ---------------------------------------------------------------- the step system

  /** The sampling thread. `Waiting` is between handing a frame over and reading the reply. */
  datatype Thread =
    | Stopped
    | Polling(cursor: Option<ScreenCursor>)
    | Batch(cursor: Option<ScreenCursor>, rest: seq<Frame>)
    | Waiting(cursor: Option<ScreenCursor>, frame: Frame, rest: seq<Frame>)

  /** The store, the thread, the frame in the agent's channel, and the reply on its way back. */
  datatype World = World(store: Store, thread: Thread, inFlight: Option<Frame>, reply: Option<bool>)

  const START := World(NEW_STORE, Stopped, None, None)

  datatype Step =
    | Restart
    | Fetch(candidates: seq<Frame>, frames: seq<Frame>)
    | Hand(screenshotRead: bool)
    | Commit(eventBuilt: bool, id: Id, observedAt: Time)
    | ReadReply
    | ReplyTimeout
    | Crash
    | Elsewhere(tx: Transaction)

  /** A fetch returns what `FetchFramesSince` may return, ids are new, and nobody else writes as the source. */
  ghost predicate Allowed(w: World, step: Step) {
    match step
    case Fetch(candidates, frames) => w.thread.Polling? && Fetched(w.thread.cursor, candidates, frames)
    case Hand(_) => w.thread.Batch?
    case Commit(_, id, _) => w.inFlight.Some? && id !in Ids(w.store.raw)
    case ReadReply => w.thread.Waiting? && w.reply.Some?
    case ReplyTimeout => w.thread.Waiting?
    case Elsewhere(AppendEvent(e)) => !OfScreen(V1(e))
    case Elsewhere(AppendRawEvent(e)) => !OfScreen(V2(e))
    case _ => true
  }

  function HandOver(w: World, screenshotRead: bool): World
    requires w.thread.Batch?
  {
    var cursor, rest := w.thread.cursor, w.thread.rest;
    if |rest| == 0 || !screenshotRead then w.(thread := Polling(cursor))
    else w.(thread := Waiting(cursor, rest[0], rest[1..]), inFlight := Some(rest[0]), reply := None)
  }

  /** The agent's event loop takes the frame, also when nobody waits for the reply any more. */
  function CommitFrame(w: World, eventBuilt: bool, id: Id, observedAt: Time): World
    requires w.inFlight.Some?
  {
    if !eventBuilt then w.(inFlight := None, reply := Some(false))
    else
      var appended := AppendV2(w.store, FrameEvent(w.inFlight.value, id, observedAt));
      World(Committed(w.store, appended), w.thread, None, Some(appended.Ok?))
  }

  function Reply(w: World): World
    requires w.thread.Waiting? && w.reply.Some?
  {
    if w.reply.value then w.(thread := Batch(Some(FromFrame(w.thread.frame)), w.thread.rest), reply := None)
    else w.(thread := Polling(w.thread.cursor), reply := None)
  }

  ghost function Next(w: World, step: Step): World {
    if !Allowed(w, step) then w
    else
      match step
      case Restart =>
        World(w.store, if Recover(w.store).Enabled? then Polling(Recover(w.store).cursor) else Stopped, None, None)
      case Fetch(_, frames) => w.(thread := Batch(w.thread.cursor, frames))
      case Hand(screenshotRead) => HandOver(w, screenshotRead)
      case Commit(eventBuilt, id, observedAt) => CommitFrame(w, eventBuilt, id, observedAt)
      case ReadReply => Reply(w)
      case ReplyTimeout => w.(thread := Stopped)
      case Crash => World(w.store, Stopped, None, None)
      case Elsewhere(tx) => w.(store := Execute(w.store, tx))
  }

  ghost function RunSteps(w: World, steps: seq<Step>): World {
    if |steps| == 0 then w else Next(RunSteps(w, steps[..|steps| - 1]), steps[|steps| - 1])
  }

  // ---------------------------------------------------------------- the invariant

  /** Stored frames are readable, and their numbers strictly increase in the order of storing. */
  ghost predicate Increasing(raw: seq<RawRow>) {
    && (forall row <- raw :: OfScreen(row) ==> IsFrame(row))
    && (forall i, j :: 0 <= i < j < |raw| && OfScreen(raw[i]) && OfScreen(raw[j]) ==>
        NumberOf(raw[i]) < NumberOf(raw[j]))
  }

  /** The newest stored frame. */
  function Newest(s: Store): Option<ScreenCursor> {
    var r := Recover(s);
    if r.Enabled? then r.cursor else None
  }

  /** Frames in ascending order, all after the cursor. */
  ghost predicate Ahead(cursor: Option<ScreenCursor>, frames: seq<Frame>) {
    && (forall f <- frames :: After(cursor, f.frameId))
    && (forall i, j :: 0 <= i < j < |frames| ==> frames[i].frameId < frames[j].frameId)
  }

  ghost predicate Invariant(w: World) {
    && Increasing(w.store.raw)
    && (w.inFlight.Some? ==> After(Newest(w.store), w.inFlight.value.frameId))
    && match w.thread
       case Stopped => true
       case Polling(cursor) => w.inFlight.None? && cursor == Newest(w.store)
       case Batch(cursor, rest) => w.inFlight.None? && cursor == Newest(w.store) && Ahead(cursor, rest)
       case Waiting(cursor, frame, rest) =>
         && Ahead(cursor, [frame] + rest)
         && if w.inFlight.Some? then w.inFlight == Some(frame) && w.reply.None? && cursor == Newest(w.store)
            else w.reply.Some? && Newest(w.store) == (if w.reply.value then Some(FromFrame(frame)) else cursor)
  }

  lemma {:induction false} LatestIsLargest(raw: seq<RawRow>)
    requires Increasing(raw)
    ensures Latest(raw).None? ==> forall row <- raw :: !OfScreen(row)
    ensures Latest(raw).Some? ==>
              && Latest(raw).value in raw && OfScreen(Latest(raw).value)
              && forall row <- raw :: OfScreen(row) ==> NumberOf(row) <= NumberOf(Latest(raw).value)
  {
    hide OfScreen;
    if |raw| > 0 {
      var init, last := raw[..|raw| - 1], raw[|raw| - 1];
      assert last in raw && forall row :: row in init ==> row in raw;
      IncreasingPrefix(raw);
      LatestIsLargest(init);
      assert forall row :: row in raw ==> row in init || row == last;
    }
  }

  lemma IncreasingPrefix(raw: seq<RawRow>)
    requires Increasing(raw) && |raw| > 0
    ensures Increasing(raw[..|raw| - 1])
  {
    hide OfScreen, IsFrame, NumberOf;
  }

  /** A restart can always continue from what is stored. */
  lemma RecoveryWorks(s: Store)
    requires Increasing(s.raw)
    ensures Recover(s) == Enabled(Newest(s))
  {
    hide OfScreen, Latest;
    LatestIsLargest(s.raw);
  }

  lemma StoreFrame(raw: seq<RawRow>, row: RawRow)
    requires Increasing(raw) && OfScreen(row) && IsFrame(row)
    requires Latest(raw).Some? ==> NumberOf(row) > NumberOf(Latest(raw).value)
    ensures Increasing(raw + [row]) && Latest(raw + [row]) == Some(row)
  {
    hide OfScreen;
    LatestIsLargest(raw);
    assert (raw + [row])[..|raw|] == raw;
    assert forall i :: 0 <= i < |raw| ==> raw[i] in raw;
  }

  lemma StoreOther(raw: seq<RawRow>, row: RawRow)
    requires Increasing(raw) && !OfScreen(row)
    ensures Increasing(raw + [row]) && Latest(raw + [row]) == Latest(raw)
  {
    hide OfScreen, IsFrame, NumberOf;
    assert (raw + [row])[..|raw|] == raw;
  }

  /** Other sources leave the frames alone. */
  lemma ElsewhereKeepsFrames(w: World, tx: Transaction)
    requires Increasing(w.store.raw) && Allowed(w, Elsewhere(tx))
    ensures Increasing(Execute(w.store, tx).raw) && Newest(Execute(w.store, tx)) == Newest(w.store)
  {
    hide OfScreen, Latest, Increasing, ApplyChecked, SortKey.Sortable, Advance, Ids;
    match tx
    case AppendEvent(e) => StoreOther(w.store.raw, V1(e));
    case AppendRawEvent(e) => StoreOther(w.store.raw, V2(e));
    case Reconciled(_, _) =>
  }

  /** A commit stores the frame or leaves the store as it was, and says which. */
  lemma CommitStoresFrame(w: World, eventBuilt: bool, id: Id, observedAt: Time)
    requires Increasing(w.store.raw) && w.inFlight.Some? && id !in Ids(w.store.raw)
    requires After(Newest(w.store), w.inFlight.value.frameId)
    ensures var after := CommitFrame(w, eventBuilt, id, observedAt);
      && after.reply.Some? && Increasing(after.store.raw)
      && Newest(after.store) == (if after.reply.value then Some(FromFrame(w.inFlight.value)) else Newest(w.store))
      && (if after.reply.value then after.store.raw == w.store.raw + [V2(FrameEvent(w.inFlight.value, id, observedAt))]
          else after.store.raw == w.store.raw)
  {
    hide Latest, Increasing, SortKey.Sortable, Advance, Ids;
    var row := V2(FrameEvent(w.inFlight.value, id, observedAt));
    assert Recover(w.store) == Enabled(Newest(w.store)) by { RecoveryWorks(w.store); }
    StoreFrame(w.store.raw, row);
  }

  lemma NextKeepsInvariant(w: World, step: Step)
    requires Invariant(w)
    ensures Invariant(Next(w, step))
  {
    hide Increasing, Recover, Newest, After, Fetched, Ahead, AppendV2, Execute, Ids;
    if Allowed(w, step) {
      match step
      case Restart => RecoveryWorks(w.store);
      case Fetch(candidates, frames) => FetchedIsAhead(w.thread.cursor, candidates, frames);
      case Commit(eventBuilt, id, observedAt) => CommitStoresFrame(w, eventBuilt, id, observedAt);
      case ReadReply => RestIsAhead(w.thread.cursor, w.thread.frame, w.thread.rest);
      case Elsewhere(tx) => ElsewhereKeepsFrames(w, tx);
      case Hand(_) => if w.thread.rest != [] { FirstIsAhead(w.thread.cursor, w.thread.rest); }
      case _ =>
    }
  }

  lemma FetchedIsAhead(cursor: Option<ScreenCursor>, candidates: seq<Frame>, frames: seq<Frame>)
    requires Fetched(cursor, candidates, frames)
    ensures Ahead(cursor, frames)
  {
    hide MergeAll, CandidatesOf, After;
  }

  lemma FirstIsAhead(cursor: Option<ScreenCursor>, frames: seq<Frame>)
    requires Ahead(cursor, frames) && frames != []
    ensures [frames[0]] + frames[1..] == frames && After(cursor, frames[0].frameId)
  {
    assert frames[0] in frames;
  }

  lemma AheadOfCursor(cursor: ScreenCursor, frames: seq<Frame>)
    requires forall i :: 0 <= i < |frames| ==> cursor.frameId < frames[i].frameId
    requires forall i, j :: 0 <= i < j < |frames| ==> frames[i].frameId < frames[j].frameId
    ensures Ahead(Some(cursor), frames)
  {
  }

  lemma RestIsAhead(cursor: Option<ScreenCursor>, frame: Frame, rest: seq<Frame>)
    requires Ahead(cursor, [frame] + rest)
    ensures Ahead(Some(FromFrame(frame)), rest)
  {
    hide After;
    var all := [frame] + rest;
    forall i | 0 <= i < |rest| ensures all[i + 1] == rest[i] && frame.frameId < rest[i].frameId {
      assert all[0] == frame;
    }
    forall i, j | 0 <= i < j < |rest| ensures rest[i].frameId < rest[j].frameId {
      assert all[i + 1] == rest[i] && all[j + 1] == rest[j];
    }
    AheadOfCursor(FromFrame(frame), rest);
  }

  // ---------------------------------------------------------------- over every run

  lemma {:induction false} InvariantHolds(steps: seq<Step>)
    ensures Invariant(RunSteps(START, steps))
  {
    hide Next, Invariant;
    if |steps| == 0 {
      StartInvariant();
    } else {
      InvariantHolds(steps[..|steps| - 1]);
      NextKeepsInvariant(RunSteps(START, steps[..|steps| - 1]), steps[|steps| - 1]);
    }
  }

  lemma StartInvariant()
    ensures Invariant(START)
  {
  }

  /** Over any run of fetches, failed commits, timeouts, crashes and restarts the stored frame numbers strictly
      increase, so no frame is stored twice. */
  lemma FramesCommitAtMostOnce(steps: seq<Step>, i: nat, j: nat)
    requires i < j < |RunSteps(START, steps).store.raw|
    requires OfScreen(RunSteps(START, steps).store.raw[i]) && OfScreen(RunSteps(START, steps).store.raw[j])
    ensures NumberOf(RunSteps(START, steps).store.raw[i]) < NumberOf(RunSteps(START, steps).store.raw[j])
  {
    hide RunSteps, Ahead, Newest;
    InvariantHolds(steps);
  }

  /** While the sampler lives its cursor is the stored frame with the largest number, except between a commit
      and its reply; it is never disabled by what it stored. */
  lemma LiveCursorIsNewest(steps: seq<Step>)
    ensures var w := RunSteps(START, steps);
      && (w.thread.Polling? || w.thread.Batch? ==> Recover(w.store) == Enabled(w.thread.cursor))
      && (w.thread.Waiting? && w.inFlight.Some? ==> Recover(w.store) == Enabled(w.thread.cursor))
      && (w.thread.Waiting? && w.reply == Some(true) ==> Recover(w.store) == Enabled(Some(FromFrame(w.thread.frame))))
      && Recover(w.store).Enabled?
  {
    hide RunSteps, Ahead, Recover, Newest, Increasing;
    InvariantHolds(steps);
    RecoveryWorks(RunSteps(START, steps).store);
  }

  /** What is recovered after a restart is the largest stored number. */
  lemma RecoveredIsLargest(steps: seq<Step>, row: RawRow)
    requires row in RunSteps(START, steps).store.raw && OfScreen(row)
    ensures var recovered := Recover(RunSteps(START, steps).store);
      recovered.Enabled? && recovered.cursor.Some? && IsFrame(row) && NumberOf(row) <= recovered.cursor.value.frameId
  {
    hide RunSteps, Ahead, OfScreen, Latest, After;
    InvariantHolds(steps);
    LatestIsLargest(RunSteps(START, steps).store.raw);
  }
}
