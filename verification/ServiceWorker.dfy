/**
  The extension's service worker. `stored` is the state in the browser's storage; every operation loads it,
  changes a copy, saves the copy and flushes. A worker that dies keeps only what was saved, which is
  what a flush leaves when it is given fewer outcomes than it has messages to send.
 */
module ServiceWorker {
  import opened Wrappers
  import opened Contracts
  import opened Projection
  import opened EventLog
  import opened Delivery

  // ---------------------------------------------------------------- what a flush may do

  /** `responseAccepted`: the agent took the message and the response came back. */
  predicate Accepted(s: Store, row: RawRow, outcome: Outcome) {
    outcome == Acknowledged && Storable(s, row)
  }

  /** The row the next send of a flush would store. */
  ghost function NextRow(w: World): RawRow
    requires w.ext.gap.Some? || w.ext.outbox != map[]
  {
    if w.ext.gap.Some? then V1(GapEvent(w.ext.gap.value)) else RowOf(w.ext.outbox[FirstKey(w.ext.outbox)])
  }

  /** Sends go on until nothing is left, one is not accepted, or the worker dies. */
  ghost function Flush(w: World, outcomes: seq<Outcome>): World
    decreases |outcomes|
  {
    if |outcomes| == 0 || (w.ext.gap.None? && w.ext.outbox == map[]) then w
    else
      var sent := SendNext(w, outcomes[0]);
      if Accepted(w.store, NextRow(w), outcomes[0]) then Flush(sent, outcomes[1..]) else sent
  }

  /** The steps a flush takes. */
  ghost function FlushSteps(w: World, outcomes: seq<Outcome>): seq<Step>
    decreases |outcomes|
  {
    if |outcomes| == 0 || (w.ext.gap.None? && w.ext.outbox == map[]) then []
    else if Accepted(w.store, NextRow(w), outcomes[0]) then
      [Send(outcomes[0])] + FlushSteps(SendNext(w, outcomes[0]), outcomes[1..])
    else [Send(outcomes[0])]
  }

  lemma {:induction false} FlushIsARun(w: World, outcomes: seq<Outcome>)
    ensures Flush(w, outcomes) == RunSteps(w, FlushSteps(w, outcomes))
    decreases |outcomes|
  {
    hide SendNext, Accepted, NextRow;
    if |outcomes| > 0 && (w.ext.gap.Some? || w.ext.outbox != map[]) {
      var step := Send(outcomes[0]);
      RunOne(w, step);
      if Accepted(w.store, NextRow(w), outcomes[0]) {
        FlushIsARun(SendNext(w, outcomes[0]), outcomes[1..]);
        RunJoins(w, [step], FlushSteps(SendNext(w, outcomes[0]), outcomes[1..]));
      }
    }
  }

  lemma RunOne(w: World, step: Step)
    ensures RunSteps(w, [step]) == Next(w, step)
  {
    hide Next;
    assert [step][..0] == [];
  }

  lemma {:induction false} RunJoins(w: World, first: seq<Step>, rest: seq<Step>)
    ensures RunSteps(w, first + rest) == RunSteps(RunSteps(w, first), rest)
  {
    hide Next;
    if |rest| == 0 {
      assert first + rest == first;
    } else {
      RunJoins(w, first, rest[..|rest| - 1]);
      assert (first + rest)[..|first + rest| - 1] == first + rest[..|rest| - 1];
    }
  }

  // ---------------------------------------------------------------- the sorted queue

  /** All queued messages, once each, by number. */
  ghost predicate QueueOf(queued: seq<Message>, outbox: map<Id, Message>) {
    && (forall m <- queued :: Key(m) in outbox && outbox[Key(m)] == m)
    && (forall k <- outbox :: outbox[k] in queued)
    && (forall i, j :: 0 <= i < j < |queued| ==> queued[i].sequence < queued[j].sequence)
  }

  /** The head of the sorted queue is the message a flush sends next, and the rest is the new queue. */
  lemma QueueHead(queued: seq<Message>, s: State)
    requires Filed(s) && QueueOf(queued, s.outbox) && queued != []
    ensures s.outbox != map[] && FirstKey(s.outbox) == Key(queued[0])
    ensures QueueOf(queued[1..], Forget(s, Key(queued[0])).outbox)
  {
    hide Key, First, Filed;
    var t := Forget(s, Key(queued[0])).outbox;
    assert FirstKey(s.outbox) == Key(queued[0]) by { HeadIsFirst(queued, s); }
    forall k | k in t ensures t[k] in queued[1..] {
      assert s.outbox[k] in queued;
      var i :| 0 <= i < |queued| && queued[i] == s.outbox[k];
      assert k == Key(queued[i]) by { FiledUnderKey(s, k); }
      assert queued[i] == queued[1..][i - 1];
    }
    forall m | m in queued[1..] ensures Key(m) in t && t[Key(m)] == m {
      var i :| 0 <= i < |queued| - 1 && queued[1..][i] == m;
      assert queued[i + 1] == m && queued[0].sequence < m.sequence;
    }
  }

  lemma FiledUnderKey(s: State, k: Id)
    requires Filed(s) && k in s.outbox
    ensures Key(s.outbox[k]) == k
  {
  }

  lemma HeadIsFirst(queued: seq<Message>, s: State)
    requires Filed(s) && QueueOf(queued, s.outbox) && queued != []
    ensures s.outbox != map[] && FirstKey(s.outbox) == Key(queued[0])
  {
    hide Key;
    var head, first := Key(queued[0]), FirstKey(s.outbox);
    assert queued[0] in queued;
    assert s.outbox[first] in queued;
    var i :| 0 <= i < |queued| && queued[i] == s.outbox[first];
    assert s.outbox[first].sequence <= s.outbox[head].sequence;
  }

  /** Part of the outbox has been taken. */
  ghost predicate Taken(queued: seq<Message>, rest: map<Id, Message>, outbox: map<Id, Message>) {
    && (forall k <- rest :: k in outbox && rest[k] == outbox[k])
    && (forall k <- outbox :: k in rest || outbox[k] in queued)
    && (forall m <- queued :: Key(m) in outbox && outbox[Key(m)] == m)
  }

  /** The part taken is sorted and comes before the rest. */
  ghost predicate Before(queued: seq<Message>, rest: map<Id, Message>) {
    && (forall m, k :: m in queued && k in rest ==> m.sequence < rest[k].sequence)
    && (forall i, j :: 0 <= i < j < |queued| ==> queued[i].sequence < queued[j].sequence)
  }

  lemma TakeFirst(queued: seq<Message>, rest: map<Id, Message>, s: State, k: Id)
    requires Filed(s) && Taken(queued, rest, s.outbox) && k in rest
    ensures Taken(queued + [rest[k]], rest - {k}, s.outbox)
  {
    assert Key(s.outbox[k]) == k by { FiledUnderKey(s, k); }
    hide Key, Filed;
    var m := rest[k];
    var longer := queued + [m];
    assert forall other :: other in longer <==> other in queued || other == m;
  }

  lemma TakenBefore(queued: seq<Message>, rest: map<Id, Message>, s: State, k: Id)
    requires Filed(s) && Taken(queued, rest, s.outbox) && Before(queued, rest) && k in rest && First(rest, k)
    ensures Before(queued + [rest[k]], rest - {k})
  {
    assert forall j <- rest :: j in s.outbox && rest[j] == s.outbox[j];
    hide Filed, Taken, First, Before;
    forall j | j in rest && j != k ensures rest[k].sequence < rest[j].sequence {
      DistinctNumbers(rest, s, j, k);
    }
    StillBefore(queued, rest, k);
  }

  lemma StillBefore(queued: seq<Message>, rest: map<Id, Message>, k: Id)
    requires Before(queued, rest) && k in rest
    requires forall j :: j in rest && j != k ==> rest[k].sequence < rest[j].sequence
    ensures Before(queued + [rest[k]], rest - {k})
  {
    var longer, fewer := queued + [rest[k]], rest - {k};
    forall m, j | m in longer && j in fewer ensures m.sequence < fewer[j].sequence {
      assert j in rest && j != k && (m in queued || m == rest[k]);
    }
    forall i, j | 0 <= i < j < |longer| ensures longer[i].sequence < longer[j].sequence {
      assert longer[i] == queued[i] && queued[i] in queued;
      assert j < |queued| ==> longer[j] == queued[j];
    }
  }

  lemma DistinctNumbers(rest: map<Id, Message>, s: State, j: Id, k: Id)
    requires Filed(s) && First(rest, k) && j in rest && j != k
    requires forall i <- rest :: i in s.outbox && rest[i] == s.outbox[i]
    ensures rest[k].sequence < rest[j].sequence
  {
    hide Key;
    assert s.outbox[j].sequence != s.outbox[k].sequence;
  }

  lemma NothingTaken(outbox: map<Id, Message>)
    ensures Taken([], outbox, outbox) && Before([], outbox)
  {
  }

  lemma AllTaken(queued: seq<Message>, outbox: map<Id, Message>)
    requires Taken(queued, map[], outbox) && Before(queued, map[])
    ensures QueueOf(queued, outbox)
  {
    hide Key;
  }

  /** `Object.values(outbox).sort(...)`. */
  method SortedQueue(s: State) returns (queued: seq<Message>)
    requires Filed(s)
    ensures QueueOf(queued, s.outbox)
  {
    hide Key, Filed, QueueOf, Taken, Before;
    var rest := s.outbox;
    queued := [];
    NothingTaken(s.outbox);
    while rest != map[]
      invariant Taken(queued, rest, s.outbox) && Before(queued, rest)
      decreases |rest|
    {
      FirstExists(rest);
      var k :| k in rest && First(rest, k);
      TakeFirst(queued, rest, s, k);
      TakenBefore(queued, rest, s, k);
      queued := queued + [rest[k]];
      rest := rest - {k};
    }
    AllTaken(queued, s.outbox);
  }

  lemma FlushStops(w: World, outcomes: seq<Outcome>)
    requires |outcomes| == 0 || (w.ext.gap.None? && w.ext.outbox == map[])
    ensures Flush(w, outcomes) == w
  {
  }

  lemma FlushGoesOn(w: World, outcomes: seq<Outcome>)
    requires |outcomes| > 0 && (w.ext.gap.Some? || w.ext.outbox != map[])
    ensures Flush(w, outcomes) ==
            (if Accepted(w.store, NextRow(w), outcomes[0]) then Flush(SendNext(w, outcomes[0]), outcomes[1..])
             else SendNext(w, outcomes[0]))
  {
    hide Accepted, SendNext, NextRow;
  }

  lemma InvariantFiles(w: World)
    requires Invariant(w)
    ensures Filed(w.ext)
  {
  }

  lemma NothingQueued(queued: seq<Message>, s: State)
    requires QueueOf(queued, s.outbox) && queued == []
    ensures s.outbox == map[]
  {
  }

  /** What sending the gap leaves in the agent and, once accepted, in the storage. */
  lemma GapIsSent(w: World, outcome: Outcome)
    requires Invariant(w) && w.ext.gap.Some?
    ensures var row := V1(GapEvent(w.ext.gap.value)); var sent := SendGap(w, outcome);
      && NextRow(w) == row && SendNext(w, outcome) == sent && Invariant(sent)
      && sent.store == (if outcome == NotDelivered || !Storable(w.store, row) then w.store
                        else Execute(w.store, TransactionOf(row)))
      && sent.ext == (if Accepted(w.store, row, outcome) then w.ext.(gap := None) else w.ext)
  {
    hide Invariant, Execute, Storable;
    SendGapKeepsInvariant(w, outcome);
  }

  /** The same for the head of the sorted queue. */
  lemma MessageIsSent(w: World, queued: seq<Message>, outcome: Outcome)
    requires Invariant(w) && w.ext.gap.None? && QueueOf(queued, w.ext.outbox) && queued != []
    ensures w.ext.outbox != map[] && Key(queued[0]) in w.ext.outbox
    ensures var row := RowOf(queued[0]); var sent := SendMessage(w, Key(queued[0]), outcome);
      && NextRow(w) == row && SendNext(w, outcome) == sent && Invariant(sent)
      && sent.store == (if outcome == NotDelivered || !Storable(w.store, row) then w.store
                        else Execute(w.store, TransactionOf(row)))
      && sent.ext == (if Accepted(w.store, row, outcome) then Forget(w.ext, Key(queued[0])) else w.ext)
    ensures w.ext.outbox[Key(queued[0])] == queued[0]
    ensures QueueOf(queued[1..], Forget(w.ext, Key(queued[0])).outbox)
  {
    hide Invariant, Accounted, Tracked, GapIdApart, GapsBounded, Execute, Storable, Filed, First;
    hide Forget, Key, RowOf, QueueOf, SendMessage;
    InvariantFiles(w);
    QueueHead(queued, w.ext);
    assert w.ext.outbox != map[] && First(w.ext.outbox, Key(queued[0]))
        && w.ext.outbox[Key(queued[0])] == queued[0] by {
      QueuedMessage(queued, w.ext.outbox);
    }
    SendMessageKeepsInvariant(w, Key(queued[0]), outcome);
    SentMessage(w, Key(queued[0]), outcome);
  }

  lemma QueuedMessage(queued: seq<Message>, outbox: map<Id, Message>)
    requires QueueOf(queued, outbox) && queued != [] && outbox != map[] && FirstKey(outbox) == Key(queued[0])
    ensures Key(queued[0]) in outbox && outbox[Key(queued[0])] == queued[0] && First(outbox, Key(queued[0]))
  {
    hide Key;
    assert queued[0] in queued;
  }

  lemma SentMessage(w: World, k: Id, outcome: Outcome)
    requires k in w.ext.outbox
    ensures var row := RowOf(w.ext.outbox[k]); var sent := SendMessage(w, k, outcome);
      && sent.store == (if outcome == NotDelivered || !Storable(w.store, row) then w.store
                        else Execute(w.store, TransactionOf(row)))
      && sent.ext == (if Accepted(w.store, row, outcome) then Forget(w.ext, k) else w.ext)
  {
    hide Execute, Storable, Forget, RowOf;
  }

  /** A flush touches neither the last page nor the last number. */
  lemma {:induction false} FlushKeepsPage(w: World, outcomes: seq<Outcome>)
    ensures Flush(w, outcomes).ext.lastActivePage == w.ext.lastActivePage
    ensures Flush(w, outcomes).ext.lastSequence == w.ext.lastSequence
    decreases |outcomes|
  {
    hide Accepted, NextRow, Execute, Storable, GapEvent, RowOf;
    if |outcomes| > 0 && (w.ext.gap.Some? || w.ext.outbox != map[]) {
      FlushKeepsPage(SendNext(w, outcomes[0]), outcomes[1..]);
    }
  }

  // ---------------------------------------------------------------- the worker

  class Worker {
    var stored: State
    /** The agent at the other end of native messaging. */
    var agent: Store
    ghost var world: World

    ghost predicate Valid()
      reads this
    {
      world.ext == stored && world.store == agent && Invariant(world)
    }

    constructor ()
      ensures Valid() && world == START
    {
      stored := EMPTY_STATE;
      agent := NEW_STORE;
      world := START;
      new;
      InvariantHoldsAtStart();
    }

    /** `sendNative`: true if an accepting response came back. */
    method SendNative(row: RawRow, outcome: Outcome) returns (accepted: bool)
      modifies this`agent
      ensures accepted == Accepted(old(agent), row, outcome)
      ensures agent == (if outcome == NotDelivered || !Storable(old(agent), row) then old(agent)
                        else Execute(old(agent), TransactionOf(row)))
    {
      hide ProjectEvent, AppendV1, AppendV2;
      accepted := false;
      if outcome != NotDelivered {
        match row {
          case V1(e) =>
            var appended := AppendV1(agent, e, ProjectEvent(e));
            if appended.Ok? {
              agent := appended.value.store;
              accepted := outcome == Acknowledged;
            }
          case V2(e) =>
            var appended := AppendV2(agent, e);
            if appended.Ok? {
              agent := appended.value.store;
              accepted := outcome == Acknowledged;
            }
        }
      }
    }

    /** `flushState`: the gap first, then the queue in the order it was sorted once, saving after each acceptance. */
    method FlushState(outcomes: seq<Outcome>)
      requires Valid()
      modifies this
      ensures Valid() && world == Flush(old(world), outcomes)
      ensures forall n <- world.acked :: exists row :: row in agent.raw && Carries(row, world.acked[n])
    {
      hide Invariant, Execute, Storable, Flush, SendGap, SendMessage, QueueOf, Filed, GapEvent, RowOf, Key, Carries;
      var state, used := stored, 0;
      if state.gap.Some? {
        if |outcomes| == 0 { FlushStops(world, outcomes); AcknowledgedAreStored(world); return; }
        var accepted := SendNative(V1(GapEvent(state.gap.value)), outcomes[0]);
        used := 1;
        FlushGoesOn(world, outcomes);
        GapIsSent(world, outcomes[0]);
        world := SendGap(world, outcomes[0]);
        if !accepted { AcknowledgedAreStored(world); return; }
        state := state.(gap := None);
        stored := state;
      }
      assert Filed(state) by { InvariantFiles(world); }
      var queued := SortedQueue(state);
      var i := 0;
      assert queued[0..] == queued && outcomes[0..] == outcomes;
      while i < |queued|
        invariant 0 <= i <= |queued| && 0 <= used <= |outcomes|
        invariant state == stored && state.gap.None? && QueueOf(queued[i..], state.outbox)
        invariant world.ext == stored && world.store == agent && Invariant(world)
        invariant Flush(world, outcomes[used..]) == Flush(old(world), outcomes)
      {
        var message := queued[i];
        if used == |outcomes| { FlushStops(world, outcomes[used..]); AcknowledgedAreStored(world); return; }
        MessageIsSent(world, queued[i..], outcomes[used]);
        FlushGoesOn(world, outcomes[used..]);
        var accepted := SendNative(RowOf(message), outcomes[used]);
        world := SendMessage(world, Key(message), outcomes[used]);
        if !accepted { AcknowledgedAreStored(world); return; }
        state := state.(outbox := state.outbox - {Key(message)});
        if message.DownloadCompleted? {
          state := state.(downloadIds := state.downloadIds - {message.browserDownloadId});
        }
        stored := state;
        assert outcomes[used..][1..] == outcomes[used + 1..] && queued[i..][1..] == queued[i + 1..];
        i, used := i + 1, used + 1;
      }
      NothingQueued(queued[i..], state);
      FlushStops(world, outcomes[used..]);
      AcknowledgedAreStored(world);
    }

    /** `stableDownloadId`: a download keeps the first id it was given. */
    method StableDownloadId(browserId: nat, newId: Id) returns (id: Id)
      requires Valid() && Allowed(world, StableId(browserId, newId))
      modifies this`stored, this`world
      ensures Valid() && world == Next(old(world), StableId(browserId, newId))
      ensures browserId in stored.downloadIds && id == stored.downloadIds[browserId]
      ensures browserId in old(stored).downloadIds ==> stored == old(stored)
    {
      hide Invariant, Allowed;
      NextKeepsInvariant(world, StableId(browserId, newId));
      world := Next(world, StableId(browserId, newId));
      var state := stored;
      if browserId !in state.downloadIds {
        state := state.(downloadIds := state.downloadIds[browserId := newId]);
        stored := state;
      }
      id := state.downloadIds[browserId];
    }

    /** `enqueueCompleted`; `saved` is false when building the message throws. */
    method EnqueueCompleted(item: Item, ids: NewIds, outcomes: seq<Outcome>) returns (saved: bool)
      requires Valid() && Allowed(world, Completed(item, ids))
      modifies this
      ensures Valid() && saved == !Delivery.EnqueueCompleted(old(stored), item, ids).Refused?
      ensures world == (if saved then Flush(Next(old(world), Completed(item, ids)), outcomes) else old(world))
    {
      hide Invariant, Flush, Allowed;
      saved := false;
      var state := stored;
      var downloadId := if item.id in state.downloadIds then state.downloadIds[item.id] else ids.messageId;
      state := state.(downloadIds := state.downloadIds[item.id := downloadId]);
      if downloadId !in state.outbox {
        state := state.(lastSequence := state.lastSequence + 1);
        if |state.outbox| >= MAX_OUTBOX_MESSAGES {
          state := NoteGap(state, ids.gapId, ids.now);
          state := state.(downloadIds := state.downloadIds - {item.id});
        } else if !item.valid {
          return;
        } else {
          state := state.(outbox := state.outbox[downloadId :=
            DownloadCompleted(item.id, downloadId, state.lastSequence, item.url, item.referrer, item.filename,
                              ids.now)]);
        }
      }
      NextKeepsInvariant(world, Completed(item, ids));
      stored := state;
      world := Next(world, Completed(item, ids));
      saved := true;
      FlushState(outcomes);
    }

    /** `enqueueActivePage`; `saved` is false for the page already noted and when building the message throws. */
    method EnqueueActivePage(page: Page, trigger: string, valid: bool, ids: NewIds, outcomes: seq<Outcome>)
      returns (saved: bool)
      requires Valid() && Allowed(world, PageSeen(page, trigger, valid, ids))
      modifies this
      ensures Valid()
      ensures saved <==> stored.lastActivePage != old(stored).lastActivePage
      ensures var effect := Delivery.EnqueueActivePage(old(stored), page, trigger, valid, ids);
        saved == (effect.Queued? || effect.Dropped?)
      ensures world == (if saved then Flush(Next(old(world), PageSeen(page, trigger, valid, ids)), outcomes)
                        else old(world))
    {
      hide Invariant, Flush, Allowed;
      saved := false;
      var state := stored;
      if state.lastActivePage == Some(page) { return; }
      state := state.(lastActivePage := Some(page));
      state := state.(lastSequence := state.lastSequence + 1);
      if |state.outbox| >= MAX_OUTBOX_MESSAGES {
        state := NoteGap(state, ids.gapId, ids.now);
      } else if !valid {
        return;
      } else {
        state := state.(outbox := state.outbox[ids.messageId :=
          ActivePageChanged(ids.messageId, state.lastSequence, page, trigger, ids.now)]);
      }
      NextKeepsInvariant(world, PageSeen(page, trigger, valid, ids));
      stored := state;
      world := Next(world, PageSeen(page, trigger, valid, ids));
      saved := true;
      FlushKeepsPage(world, outcomes);
      FlushState(outcomes);
    }

    /** `enqueueWindowBlurred`; `saved` is false when no focused page is known and when building the message throws. */
    method EnqueueWindowBlurred(valid: bool, ids: NewIds, outcomes: seq<Outcome>) returns (saved: bool)
      requires Valid() && Allowed(world, Blurred(valid, ids))
      modifies this
      ensures Valid()
      ensures saved ==>
                old(stored).lastActivePage.Some?
                && stored.lastActivePage == Some(old(stored).lastActivePage.value.(windowFocused := false))
      ensures var effect := Delivery.EnqueueWindowBlurred(old(stored), valid, ids);
        saved == (effect.Queued? || effect.Dropped?)
      ensures world == (if saved then Flush(Next(old(world), Blurred(valid, ids)), outcomes) else old(world))
    {
      hide Invariant, Flush, Allowed;
      saved := false;
      var state := stored;
      if state.lastActivePage.None? || !state.lastActivePage.value.windowFocused { return; }
      var page := state.lastActivePage.value.(windowFocused := false);
      state := state.(lastActivePage := Some(page));
      state := state.(lastSequence := state.lastSequence + 1);
      if |state.outbox| >= MAX_OUTBOX_MESSAGES {
        state := NoteGap(state, ids.gapId, ids.now);
      } else if !valid {
        return;
      } else {
        state := state.(outbox := state.outbox[ids.messageId :=
          ActivePageChanged(ids.messageId, state.lastSequence, page, "window_blurred", ids.now)]);
      }
      NextKeepsInvariant(world, Blurred(valid, ids));
      stored := state;
      world := Next(world, Blurred(valid, ids));
      saved := true;
      FlushKeepsPage(world, outcomes);
      FlushState(outcomes);
    }
  }
}
