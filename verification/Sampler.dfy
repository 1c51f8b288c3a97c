/**
  The Screenpipe sampling thread and the agent's side of one hand-over, as they run: one poll fetches a batch
  and hands its frames over one by one, stopping at the first failure.
 */
module Sampler {
  import opened Wrappers
  import opened Contracts
  import opened EventLog
  import opened ScreenFrames
  import opened ScreenLoop

  /** What happens to one frame: its screenshot cannot be read, the agent answers, or the reply takes too long. */
  datatype Attempt = ScreenshotFails | Answered(eventBuilt: bool, id: Id, observedAt: Time) | TimesOut

  datatype Sent = Committed | Failed | NoReply

  datatype Poll = FetchFailed(error: FetchError) | Done(batchFailed: bool) | Ended

  function StoredRow(f: Frame, a: Attempt): RawRow
    requires a.Answered?
  {
    V2(FrameEvent(f, a.id, a.observedAt))
  }

  /** The rows of the first `k` frames, all answered. */
  ghost predicate StoredFrames(before: seq<RawRow>, after: seq<RawRow>, frames: seq<Frame>, attempts: seq<Attempt>,
                               k: nat) {
    && k <= |frames| && k <= |attempts| && |after| == |before| + k && before <= after
    && forall i :: 0 <= i < k ==> attempts[i].Answered? && after[|before| + i] == StoredRow(frames[i], attempts[i])
  }

  /** Ids are new and used once. */
  ghost predicate FreshAttempts(raw: seq<RawRow>, attempts: seq<Attempt>) {
    && (forall i :: 0 <= i < |attempts| && attempts[i].Answered? ==> attempts[i].id !in Ids(raw))
    && (forall i, j :: 0 <= i < j < |attempts| && attempts[i].Answered? && attempts[j].Answered? ==>
          attempts[i].id != attempts[j].id)
  }

  /** The cursor after `k` committed frames. */
  function Advanced(cursor: Option<ScreenCursor>, frames: seq<Frame>, k: nat): Option<ScreenCursor>
    requires k <= |frames|
  {
    if k == 0 then cursor else Some(FromFrame(frames[k - 1]))
  }

  lemma StoreOneMore(before: seq<RawRow>, after: seq<RawRow>, frames: seq<Frame>, attempts: seq<Attempt>, k: nat)
    requires StoredFrames(before, after, frames, attempts, k) && k < |frames| && k < |attempts| && attempts[k].Answered?
    ensures StoredFrames(before, after + [StoredRow(frames[k], attempts[k])], frames, attempts, k + 1)
  {
  }

  /** An id not used so far is new to the log after the first `k` commits. */
  lemma StillFresh(before: seq<RawRow>, after: seq<RawRow>, frames: seq<Frame>, attempts: seq<Attempt>, k: nat)
    requires StoredFrames(before, after, frames, attempts, k) && FreshAttempts(before, attempts)
    requires k < |attempts| && attempts[k].Answered?
    ensures attempts[k].id !in Ids(after)
  {
    forall row | row in after ensures row.EventId() != attempts[k].id {
      var i :| 0 <= i < |after| && after[i] == row;
      assert i < |before| ==> row == before[i] && row in before;
      assert i >= |before| ==>
          after[|before| + (i - |before|)] == StoredRow(frames[i - |before|], attempts[i - |before|]);
    }
  }

  class Sampling {
    var cursor: Option<ScreenCursor>
    /** The agent's log. */
    var store: Store
    ghost var world: World

    ghost predicate Valid()
      reads this
    {
      world.store == store && Invariant(world) && (world.thread.Stopped? || world.thread.cursor == cursor)
    }

    /** Starts the agent on what is stored: the cursor is read back, or the sampler stays off. */
    constructor (store: Store, ghost before: World)
      requires Invariant(before) && before.store == store
      ensures Valid() && this.store == store && world == Next(before, Restart)
      ensures world.thread == Polling(cursor) && Recover(store) == Enabled(cursor)
    {
      hide Invariant;
      RecoveryOf(before);
      NextKeepsInvariant(before, Restart);
      this.store := store;
      cursor := Recover(store).cursor;
      world := Next(before, Restart);
    }

    /** The history takes the step that was just made. */
    ghost method Record(step: Step)
      modifies this`world
      ensures world == Next(old(world), step)
      ensures Invariant(old(world)) ==> Invariant(world)
    {
      hide Invariant, Next;
      if Invariant(world) { NextKeepsInvariant(world, step); }
      world := Next(world, step);
    }

    /** The agent's event loop takes the frame and answers. */
    method CommitFrame(f: Frame, a: Attempt) returns (accepted: bool)
      requires Valid() && a.Answered? && a.id !in Ids(store.raw)
      requires world.inFlight == Some(f)
      modifies this`store, this`world
      ensures world == Next(old(world), Commit(a.eventBuilt, a.id, a.observedAt)) && Valid()
      ensures world.reply == Some(accepted)
      ensures world.thread == old(world).thread
      ensures store.raw == (if accepted then old(store).raw + [StoredRow(f, a)] else old(store).raw)
    {
      CommitOf(world, a.eventBuilt, a.id, a.observedAt);
      hide Invariant, AppendV2;
      Record(Commit(a.eventBuilt, a.id, a.observedAt));
      accepted := false;
      if a.eventBuilt {
        var appended := AppendV2(store, FrameEvent(f, a.id, a.observedAt));
        if appended.Ok? {
          store := appended.value.store;
          accepted := true;
        }
      }
    }

    /** One frame: the cursor moves exactly when the agent committed it. */
    method SendFrame(frames: seq<Frame>, a: Attempt) returns (sent: Sent)
      requires Valid() && world.thread == Batch(cursor, frames) && frames != []
      requires a.Answered? ==> a.id !in Ids(store.raw)
      modifies this
      ensures Valid()
      ensures if sent.Committed? then a.Answered? && store.raw == old(store).raw + [StoredRow(frames[0], a)]
              else store.raw == old(store).raw
      ensures cursor == (if sent.Committed? then Some(FromFrame(frames[0])) else old(cursor))
      ensures match sent
              case Committed => world.thread == Batch(cursor, frames[1..])
              case Failed => world.thread == Polling(cursor)
              case NoReply => world.thread == Stopped
    {
      hide Invariant, Next, Ids;
      HandSteps(world, frames);
      if a.ScreenshotFails? { Record(Hand(false)); return Failed; }
      Record(Hand(true));
      if a.TimesOut? { ReplySteps(world); Record(ReplyTimeout); return NoReply; }
      var accepted := CommitFrame(frames[0], a);
      ReplySteps(world);
      Record(ReadReply);
      if !accepted { return Failed; }
      cursor := Some(FromFrame(frames[0]));
      return Committed;
    }

    /** The frames of one batch, in order: the cursor follows what was committed, and a failure ends the batch,
        a late reply the thread. Fewer attempts than frames mean that the agent is stopped on the way. */
    method SendFrames(frames: seq<Frame>, attempts: seq<Attempt>) returns (poll: Poll, ghost k: nat)
      requires Valid() && world.thread == Batch(cursor, frames) && FreshAttempts(store.raw, attempts)
      modifies this
      ensures Valid() && StoredFrames(old(store).raw, store.raw, frames, attempts, k)
      ensures cursor == Advanced(old(cursor), frames, k)
      ensures !poll.FetchFailed? && k <= |frames|
      ensures poll.Done? ==> world.thread == Polling(cursor) && (poll.batchFailed <==> k < |frames|)
      ensures poll.Ended? ==> world.thread == Stopped && k < |frames|
    {
      hide Invariant, Next, StoredFrames, FreshAttempts, StoredRow, Ids;
      k := 0;
      NothingStored(store.raw, frames, attempts);
      assert frames[0..] == frames;
      for i := 0 to |frames|
        invariant k == i && Valid() && world.thread == Batch(cursor, frames[i..])
        invariant StoredFrames(old(store).raw, store.raw, frames, attempts, i)
        invariant cursor == Advanced(old(cursor), frames, i)
      {
        if i >= |attempts| {
          CrashStep(world);
          Record(Crash);
          return Ended, i;
        }
        if attempts[i].Answered? { StillFresh(old(store).raw, store.raw, frames, attempts, i); }
        ghost var before := store.raw;
        var sent := SendFrame(frames[i..], attempts[i]);
        if sent.Committed? { StoreOneMore(old(store).raw, before, frames, attempts, i); }
        assert frames[i..][1..] == frames[i + 1..];
        match sent {
          case Failed => return Done(true), i;
          case NoReply => return Ended, i;
          case Committed => k := i + 1;
        }
      }
      HandSteps(world, []);
      Record(Hand(true));
      return Done(false), k;
    }

    /** One round of the thread's loop. */
    method PollOnce(accessibility: Option<seq<Frame>>, ocr: Option<seq<Frame>>, attempts: seq<Attempt>)
      returns (poll: Poll, ghost frames: seq<Frame>, ghost k: nat)
      requires Valid() && world.thread == Polling(cursor) && FreshAttempts(store.raw, attempts)
      modifies this
      ensures Valid() && (poll.Ended? || world.thread == Polling(cursor))
      ensures poll.FetchFailed? ==> store == old(store) && cursor == old(cursor)
      ensures !poll.FetchFailed? ==>
                && accessibility.Some? && ocr.Some? && Fetched(old(cursor), accessibility.value + ocr.value, frames)
                && StoredFrames(old(store).raw, store.raw, frames, attempts, k)
                && cursor == Advanced(old(cursor), frames, k)
                && (poll == Done(false) <==> k == |frames|)
    {
      hide Invariant, Next, StoredFrames, FreshAttempts, Fetched, CursorReset;
      frames, k := [], 0;
      var fetched := FetchFramesSince(cursor, accessibility, ocr);
      if fetched.Err? { return FetchFailed(fetched.error), [], 0; }
      frames := fetched.value;
      FetchStep(world, accessibility.value + ocr.value, frames);
      Record(Fetch(accessibility.value + ocr.value, frames));
      poll, k := SendFrames(fetched.value, attempts);
    }
  }

  lemma NothingStored(raw: seq<RawRow>, frames: seq<Frame>, attempts: seq<Attempt>)
    ensures StoredFrames(raw, raw, frames, attempts, 0)
  {
  }

  lemma FetchStep(w: World, candidates: seq<Frame>, frames: seq<Frame>)
    requires w.thread.Polling? && Fetched(w.thread.cursor, candidates, frames)
    ensures Next(w, Fetch(candidates, frames)) == w.(thread := Batch(w.thread.cursor, frames))
  {
    hide Fetched;
  }

  /** What handing over and reading the reply do to the thread. */
  lemma HandSteps(w: World, frames: seq<Frame>)
    requires Invariant(w) && w.thread.Batch? && w.thread.rest == frames
    ensures Next(w, Hand(false)) == w.(thread := Polling(w.thread.cursor))
    ensures frames == [] ==> Next(w, Hand(true)) == w.(thread := Polling(w.thread.cursor))
    ensures frames != [] ==>
              Next(w, Hand(true)) ==
              w.(thread := Waiting(w.thread.cursor, frames[0], frames[1..]), inFlight := Some(frames[0]), reply := None)
  {
  }

  lemma ReplySteps(w: World)
    requires w.thread.Waiting?
    ensures Next(w, ReplyTimeout) == w.(thread := Stopped)
    ensures w.reply == Some(true) ==>
              Next(w, ReadReply) == w.(thread := Batch(Some(FromFrame(w.thread.frame)), w.thread.rest), reply := None)
    ensures w.reply == Some(false) ==> Next(w, ReadReply) == w.(thread := Polling(w.thread.cursor), reply := None)
  {
  }

  lemma CrashStep(w: World)
    ensures Next(w, Crash) == World(w.store, Stopped, None, None)
  {
  }

  lemma RecoveryOf(w: World)
    requires Invariant(w)
    ensures Recover(w.store).Enabled?
  {
    hide Ahead, Recover;
    RecoveryWorks(w.store);
  }

  lemma CommitOf(w: World, eventBuilt: bool, id: Id, observedAt: Time)
    requires Invariant(w) && w.inFlight.Some? && id !in Ids(w.store.raw)
    ensures var after := CommitFrame(w, eventBuilt, id, observedAt);
      after.store.raw == (if after.reply == Some(true)
                          then w.store.raw + [V2(FrameEvent(w.inFlight.value, id, observedAt))]
                          else w.store.raw)
  {
    hide Ahead, Increasing, Newest, AppendV2;
    CommitStoresFrame(w, eventBuilt, id, observedAt);
  }
}
