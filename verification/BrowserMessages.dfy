/**
  Where the browser's messages come from: which events queue one, what it says, and that whatever the agent stores
  was once seen by the extension.
 */
module BrowserMessages {
  import opened Wrappers
  import opened Contracts
  import opened EventLog
  import opened Delivery

  // ---------------------------------------------------------------- one enqueue

  /** A finished download is queued under its stable id with what the browser says about it, unless it is queued
      already, the outbox is full, or the item is refused. */
  lemma CompletedIsQueued(s: State, item: Item, ids: NewIds)
    ensures var effect := EnqueueCompleted(s, item, ids);
      var id := if item.id in s.downloadIds then s.downloadIds[item.id] else ids.messageId;
      && (effect.Unchanged? <==> id in s.outbox)
      && (effect.Dropped? <==> id !in s.outbox && |s.outbox| >= 256)
      && (effect.Refused? <==> id !in s.outbox && |s.outbox| < 256 && !item.valid)
      && (effect.Queued? ==>
            && effect.message.DownloadCompleted? && effect.message.downloadId == id
            && effect.message.browserDownloadId == item.id && effect.message.url == item.url
            && effect.message.referrer == item.referrer && effect.message.finalPath == item.filename
            && effect.message.observedAt == ids.now && effect.message.sequence == s.lastSequence + 1
            && effect.state.outbox == s.outbox[id := effect.message]
            && item.id in effect.state.downloadIds && effect.state.downloadIds[item.id] == id)
      && (effect.Dropped? ==> item.id !in effect.state.downloadIds)
  {
  }

  /** A page is queued under a new id with what was seen, unless it is the page noted last, the outbox is full, or the
      page is refused. */
  lemma PageIsQueued(s: State, page: Page, trigger: string, valid: bool, ids: NewIds)
    ensures var effect := EnqueueActivePage(s, page, trigger, valid, ids);
      && (effect.Unchanged? <==> s.lastActivePage == Some(page))
      && (effect.Dropped? <==> s.lastActivePage != Some(page) && |s.outbox| >= 256)
      && (effect.Refused? <==> s.lastActivePage != Some(page) && |s.outbox| < 256 && !valid)
      && (effect.Queued? ==>
            && effect.message.ActivePageChanged? && effect.message.observationId == ids.messageId
            && effect.message.page == page && effect.message.trigger == trigger
            && effect.message.observedAt == ids.now && effect.message.sequence == s.lastSequence + 1
            && effect.state.outbox == s.outbox[ids.messageId := effect.message])
      && (effect.Queued? || effect.Dropped? ==> effect.state.lastActivePage == Some(page))
  {
  }

  /** Losing the focus queues the focused page noted last as no longer focused, and is nothing if there is none. */
  lemma BlurIsQueued(s: State, valid: bool, ids: NewIds)
    ensures var effect := EnqueueWindowBlurred(s, valid, ids);
      var focused := s.lastActivePage.Some? && s.lastActivePage.value.windowFocused;
      && (effect.Unchanged? <==> !focused)
      && (effect.Dropped? <==> focused && |s.outbox| >= 256)
      && (effect.Queued? ==>
            && effect.message.ActivePageChanged? && !effect.message.page.windowFocused
            && effect.message.page.(windowFocused := true) == s.lastActivePage.value
            && effect.message.trigger == "window_blurred" && effect.message.sequence == s.lastSequence + 1)
      && (effect.Queued? || effect.Dropped? ==>
            effect.state.lastActivePage.Some? && !effect.state.lastActivePage.value.windowFocused)
  {
  }

  /** A drop notes the number with the pending gap, or with a new one that says why. */
  lemma DropIsNoted(s: State, gapId: Id, now: Time)
    ensures var g := NoteGap(s, gapId, now).gap;
      && g.Some? && g.value.lastSourceSequence == s.lastSequence
      && (s.gap.Some? ==>
            && g.value.gapId == s.gap.value.gapId && g.value.reason == s.gap.value.reason
            && g.value.observedAt == s.gap.value.observedAt)
      && (s.gap.None? ==>
            && g.value.gapId == gapId && g.value.observedAt == now
            && g.value.reason == "browser delivery outbox reached its 256-message safety limit")
  {
  }

  // ---------------------------------------------------------------- over every run

  /** The page was seen by one of the steps. */
  ghost predicate Seen(steps: seq<Step>, page: Page) {
    exists i :: 0 <= i < |steps| && steps[i].PageSeen? && steps[i].page == page
  }

  /** Step `i` is where the message comes from. */
  ghost predicate ComesFrom(steps: seq<Step>, i: int, m: Message) {
    && 0 <= i < |steps|
    && match steps[i]
       case Completed(item, ids) =>
         && m.DownloadCompleted? && m.browserDownloadId == item.id && m.url == item.url && m.referrer == item.referrer
         && m.finalPath == item.filename && m.observedAt == ids.now && item.valid
       case PageSeen(page, trigger, valid, ids) =>
         && m.ActivePageChanged? && m.page == page && m.trigger == trigger && m.observedAt == ids.now && valid
       case Blurred(valid, ids) =>
         && m.ActivePageChanged? && m.trigger == "window_blurred" && m.observedAt == ids.now && valid
         && !m.page.windowFocused && Seen(steps[..i], m.page.(windowFocused := true))
       case _ => false
  }

  ghost predicate Sourced(steps: seq<Step>, m: Message) {
    exists i :: ComesFrom(steps, i, m)
  }

  ghost predicate AllSourced(steps: seq<Step>, w: World) {
    && (forall k <- w.ext.outbox :: Sourced(steps, w.ext.outbox[k]))
    && (forall n <- w.acked :: Sourced(steps, w.acked[n]))
    && (w.ext.lastActivePage.Some? && w.ext.lastActivePage.value.windowFocused ==>
        Seen(steps, w.ext.lastActivePage.value))
  }

  lemma SourcedStays(steps: seq<Step>, step: Step, m: Message)
    requires Sourced(steps, m)
    ensures Sourced(steps + [step], m)
  {
    var i :| ComesFrom(steps, i, m);
    assert (steps + [step])[..i] == steps[..i];
    assert ComesFrom(steps + [step], i, m);
  }

  lemma SeenStays(steps: seq<Step>, step: Step)
    ensures forall page :: Seen(steps, page) ==> Seen(steps + [step], page)
  {
    forall page | Seen(steps, page) ensures Seen(steps + [step], page) {
      var i :| 0 <= i < |steps| && steps[i].PageSeen? && steps[i].page == page;
      assert (steps + [step])[i] == steps[i];
    }
  }

  lemma AllSourcedStays(steps: seq<Step>, step: Step, w: World)
    requires AllSourced(steps, w)
    ensures AllSourced(steps + [step], w)
  {
    hide Sourced, Seen;
    SeenStays(steps, step);
    forall k | k in w.ext.outbox ensures Sourced(steps + [step], w.ext.outbox[k]) {
      SourcedStays(steps, step, w.ext.outbox[k]);
    }
    forall n | n in w.acked ensures Sourced(steps + [step], w.acked[n]) {
      SourcedStays(steps, step, w.acked[n]);
    }
  }

  /** What the last step queued comes from it. */
  lemma QueuedIsSourced(steps: seq<Step>, step: Step, w: World)
    requires AllSourced(steps, w) && (step.Completed? || step.PageSeen? || step.Blurred?)
    ensures var effect := EffectOf(w.ext, step); effect.Queued? ==> ComesFrom(steps + [step], |steps|, effect.message)
  {
    hide Sourced;
    assert (steps + [step])[..|steps|] == steps && (steps + [step])[|steps|] == step;
    match step
    case Completed(item, ids) => CompletedIsQueued(w.ext, item, ids);
    case PageSeen(page, trigger, valid, ids) => PageIsQueued(w.ext, page, trigger, valid, ids);
    case Blurred(valid, ids) => BlurIsQueued(w.ext, valid, ids);
  }

  lemma EnqueueIsSourced(steps: seq<Step>, step: Step, w: World)
    requires AllSourced(steps, w) && Allowed(w, step) && IdsInUse(w)
    requires step.Completed? || step.PageSeen? || step.Blurred?
    ensures AllSourced(steps + [step], Next(w, step))
  {
    hide Sourced, Seen, Allowed, AfterEffect, IdsInUse, ComesFrom;
    AllSourcedStays(steps, step, w);
    QueuedIsSourced(steps, step, w);
    EnqueueEffects(w, step);
    NotedPage(steps, step, w);
    var effect := EffectOf(w.ext, step);
    AfterEnqueue(w, step);
    if effect.Queued? {
      assert Sourced(steps + [step], effect.message) by { IsSourced(steps + [step], |steps|, effect.message); }
    }
  }

  lemma IsSourced(steps: seq<Step>, i: int, m: Message)
    requires ComesFrom(steps, i, m)
    ensures Sourced(steps, m)
  {
  }

  /** The page noted last, if focused, was seen. */
  lemma NotedPage(steps: seq<Step>, step: Step, w: World)
    requires AllSourced(steps, w) && (step.Completed? || step.PageSeen? || step.Blurred?)
    ensures var effect := EffectOf(w.ext, step);
      !effect.Refused? && effect.state.lastActivePage.Some? && effect.state.lastActivePage.value.windowFocused ==>
        Seen(steps + [step], effect.state.lastActivePage.value)
  {
    hide Sourced;
    SeenStays(steps, step);
    assert (steps + [step])[|steps|] == step;
    match step
    case Completed(_, _) =>
    case PageSeen(page, trigger, valid, ids) => PageIsQueued(w.ext, page, trigger, valid, ids);
    case Blurred(valid, ids) => BlurIsQueued(w.ext, valid, ids);
  }

  lemma AfterEnqueue(w: World, step: Step)
    requires Allowed(w, step) && (step.Completed? || step.PageSeen? || step.Blurred?)
    ensures Next(w, step).acked == w.acked
    ensures Next(w, step).ext == (if EffectOf(w.ext, step).Refused? then w.ext else EffectOf(w.ext, step).state)
  {
    hide EnqueueCompleted, EnqueueActivePage, EnqueueWindowBlurred, AreFresh;
  }

  lemma OtherStepIsSourced(steps: seq<Step>, step: Step, w: World)
    requires AllSourced(steps, w) && !step.Completed? && !step.PageSeen? && !step.Blurred?
    ensures AllSourced(steps + [step], Next(w, step))
  {
    hide Sourced, Seen, Execute, Storable, GapEvent, RowOf, Ids;
    AllSourcedStays(steps, step, w);
  }

  lemma {:induction false} MessagesAreSourced(steps: seq<Step>)
    ensures AllSourced(steps, RunSteps(START, steps))
  {
    hide Next, Sourced, Seen, Invariant;
    if |steps| > 0 {
      var init, step := steps[..|steps| - 1], steps[|steps| - 1];
      var w := RunSteps(START, init);
      MessagesAreSourced(init);
      assert init + [step] == steps;
      if step.Completed? || step.PageSeen? || step.Blurred? {
        if Allowed(w, step) {
          InvariantHolds(init);
          assert IdsInUse(w) by { InvariantHasIds(w); }
          EnqueueIsSourced(init, step, w);
        } else {
          AllSourcedStays(init, step, w);
          NotAllowed(w, step);
        }
      } else {
        OtherStepIsSourced(init, step, w);
      }
    }
  }

  lemma InvariantHasIds(w: World)
    requires Invariant(w)
    ensures IdsInUse(w)
  {
    hide Accounted, Stored, GapsBounded, GapIdApart;
  }

  lemma NotAllowed(w: World, step: Step)
    requires !Allowed(w, step)
    ensures Next(w, step) == w
  {
    hide Allowed;
  }

  /** Every acknowledged message has exactly one row; that row says what the message says, and the message says what a
      browser event of the run said. */
  lemma StoredRowsAreBrowserEvents(steps: seq<Step>, n: nat)
    requires n in RunSteps(START, steps).acked
    ensures var w := RunSteps(START, steps);
      && Sourced(steps, w.acked[n])
      && exists row ::
           && row in w.store.raw && Carries(row, w.acked[n])
           && forall other <- w.store.raw :: other.EventId() == Key(w.acked[n]) ==> other == row
  {
    hide Sourced, Carries, RunSteps, Key;
    MessagesAreSourced(steps);
    AcknowledgedExactlyOnce(steps, n);
  }
}
