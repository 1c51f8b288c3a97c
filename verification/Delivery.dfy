/**
  Browser delivery as a step system: the extension's persisted outbox with its bounded capacity and its
  gap marker, a sender that may lose responses or crash after any send, and the agent's idempotent log.
 */
module Delivery {
  import opened Wrappers
  import opened Contracts
  import opened Projection
  import opened EventLog
  import SortKey

  const MAX_OUTBOX_MESSAGES := 256
  const BROWSER := "browser.chromium"
  const PERSONAL_SCOPE := "scope.personal"
  const OUTBOX_FULL := "browser delivery outbox reached its 256-message safety limit"

  // ---------------------------------------------------------------- the extension's state

  /** A page observation; its signature is the page itself. */
  datatype Page = Page(tabId: nat, windowId: nat, url: string, title: string, pinned: bool, windowFocused: bool)

  datatype Message =
    | DownloadCompleted(browserDownloadId: nat, downloadId: Id, sequence: nat, url: string, referrer: Option<string>,
                        finalPath: string, observedAt: Time)
    | ActivePageChanged(observationId: Id, sequence: nat, page: Page, trigger: string, observedAt: Time)

  datatype GapMessage = GapMessage(gapId: Id, lastSourceSequence: nat, reason: string, observedAt: Time)

  datatype State = State(
    outbox: map<Id, Message>, downloadIds: map<nat, Id>, gap: Option<GapMessage>, lastSequence: nat,
    lastActivePage: Option<Page>)

  const EMPTY_STATE := State(map[], map[], None, 0, None)

  /** `outboxKey`. */
  function Key(m: Message): Id {
    match m case DownloadCompleted(_, id, _, _, _, _, _) => id case ActivePageChanged(id, _, _, _, _) => id
  }

  /** `noteGap`: one pending gap, whose number grows while it is pending. */
  function NoteGap(s: State, gapId: Id, now: Time): State {
    if s.gap.None? then s.(gap := Some(GapMessage(gapId, s.lastSequence, OUTBOX_FULL, now)))
    else s.(gap := Some(s.gap.value.(lastSourceSequence := s.lastSequence)))
  }

  // ---------------------------------------------------------------- enqueueing

  /** What a browser event does to the stored state; `Refused` is an exception before the state is saved. */
  datatype Effect =
    | Unchanged(state: State)
    | Queued(state: State, message: Message)
    | Dropped(state: State)
    | Refused

  /** A finished download; `valid` says whether `downloadCompleted` accepts the item. */
  datatype Item = Item(id: nat, valid: bool, url: string, referrer: Option<string>, filename: string)

  /** Fresh UUIDs for the message and for a gap, and the clock. */
  datatype NewIds = NewIds(messageId: Id, gapId: Id, now: Time)

  function EnqueueCompleted(s: State, item: Item, ids: NewIds): Effect {
    var downloadId := if item.id in s.downloadIds then s.downloadIds[item.id] else ids.messageId;
    var known := s.(downloadIds := s.downloadIds[item.id := downloadId]);
    if downloadId in s.outbox then Unchanged(known)
    else
      var numbered := known.(lastSequence := s.lastSequence + 1);
      if |s.outbox| >= MAX_OUTBOX_MESSAGES then
        Dropped(NoteGap(numbered, ids.gapId, ids.now).(downloadIds := known.downloadIds - {item.id}))
      else if !item.valid then Refused
      else
        var m := DownloadCompleted(item.id, downloadId, numbered.lastSequence, item.url, item.referrer, item.filename,
                                   ids.now);
        Queued(numbered.(outbox := s.outbox[downloadId := m]), m)
  }

  /** The part that `enqueueActivePage` and `enqueueWindowBlurred` share; `valid` as for downloads. */
  function EnqueuePage(s: State, page: Page, trigger: string, valid: bool, ids: NewIds): Effect {
    var numbered := s.(lastActivePage := Some(page), lastSequence := s.lastSequence + 1);
    if |s.outbox| >= MAX_OUTBOX_MESSAGES then Dropped(NoteGap(numbered, ids.gapId, ids.now))
    else if !valid then Refused
    else
      var m := ActivePageChanged(ids.messageId, numbered.lastSequence, page, trigger, ids.now);
      Queued(numbered.(outbox := s.outbox[ids.messageId := m]), m)
  }

  function EnqueueActivePage(s: State, page: Page, trigger: string, valid: bool, ids: NewIds): Effect {
    if s.lastActivePage == Some(page) then Unchanged(s) else EnqueuePage(s, page, trigger, valid, ids)
  }

  function EnqueueWindowBlurred(s: State, valid: bool, ids: NewIds): Effect {
    if s.lastActivePage.None? || !s.lastActivePage.value.windowFocused then Unchanged(s)
    else EnqueuePage(s, s.lastActivePage.value.(windowFocused := false), "window_blurred", valid, ids)
  }

  // ---------------------------------------------------------------- what the agent stores

  /** The native host's event for a message; its id is the message's own stable id. */
  function RowOf(m: Message): RawRow {
    match m
    case DownloadCompleted(_, id, sequence, url, referrer, finalPath, observedAt) =>
      V1(EventEnvelope(id, CURRENT_SCHEMA_VERSION, BROWSER, Some(sequence), observedAt, PERSONAL_SCOPE, None,
                       BrowserDownloadObserved(id, url, referrer, finalPath)))
    case ActivePageChanged(id, sequence, page, trigger, observedAt) =>
      V2(EventEnvelopeV2(id, CURRENT_ENVELOPE_VERSION, "browser.active_page_changed", 1, BROWSER, Some(sequence), None,
                         observedAt, PERSONAL_SCOPE,
                         ActivePage(page.tabId, page.windowId, page.url, page.title, page.pinned, page.windowFocused,
                                    trigger)))
  }

  /** The row says what the message says, under the message's own id. */
  predicate Carries(row: RawRow, m: Message) {
    match m
    case DownloadCompleted(_, _, _, _, _, _, _) =>
      && row.V1? && row.event.eventId == m.downloadId && row.event.schemaVersion == 1
      && row.event.source == "browser.chromium" && row.event.scopeId == "scope.personal"
      && row.event.sourceSequence == Some(m.sequence) && row.event.observedAt == m.observedAt
      && row.event.payload.BrowserDownloadObserved? && row.event.payload.downloadId == m.downloadId
      && row.event.payload.url == m.url && row.event.payload.referrer == m.referrer
      && row.event.payload.finalPath == m.finalPath
    case ActivePageChanged(_, _, _, _, _) =>
      && row.V2? && row.event2.eventId == m.observationId && row.event2.envelopeVersion == 2
      && row.event2.eventType == "browser.active_page_changed" && row.event2.source == "browser.chromium"
      && row.event2.scopeId == "scope.personal" && row.event2.sourceSequence == Some(m.sequence)
      && row.event2.observedAt == m.observedAt && row.event2.payload.ActivePage?
      && row.event2.payload.tabId == m.page.tabId && row.event2.payload.windowId == m.page.windowId
      && row.event2.payload.url == m.page.url && row.event2.payload.title == m.page.title
      && row.event2.payload.pinned == m.page.pinned && row.event2.payload.windowFocused == m.page.windowFocused
      && row.event2.payload.trigger == m.trigger
  }

  lemma RowCarries(m: Message)
    ensures Carries(RowOf(m), m) && RowOf(m).EventId() == Key(m)
  {
  }

  function GapEvent(g: GapMessage): EventEnvelope {
    EventEnvelope(g.gapId, CURRENT_SCHEMA_VERSION, BROWSER, Some(g.lastSourceSequence), g.observedAt, PERSONAL_SCOPE,
                  None,
                  CollectorGap(BROWSER, Some(g.lastSourceSequence), g.reason))
  }

  function TransactionOf(row: RawRow): Transaction {
    match row case V1(e) => AppendEvent(e) case V2(e) => AppendRawEvent(e)
  }

  /** The agent accepts what its append does not refuse. */
  predicate Storable(s: Store, row: RawRow) {
    match row case V1(e) => AppendV1(s, e, ProjectEvent(e)).Ok? case V2(e) => AppendV2(s, e).Ok?
  }

  // ---------------------------------------------------------------- the step system

  /** The extension, the agent's store, and the history: numbers of received messages in order of arrival,
      acknowledged messages by number, dropped numbers, the highest acknowledged gap number, and all ids
      ever issued by the extension. */
  datatype World = World(
    ext: State, store: Store, received: seq<nat>, acked: map<nat, Message>, dropped: set<nat>, ackedGap: nat,
    issued: set<Id>)

  const START := World(EMPTY_STATE, NEW_STORE, [], map[], {}, 0, {})

  /** One send: it does not arrive; it arrives but no acceptance is saved (response lost, rejected on the
      way back, or the worker dies first); or it is accepted and the acknowledgement saved. */
  datatype Outcome = NotDelivered | Unacknowledged | Acknowledged

  datatype Step =
    | Completed(item: Item, ids: NewIds)
    | StableId(browserId: nat, id: Id)
    | PageSeen(page: Page, trigger: string, valid: bool, ids: NewIds)
    | Blurred(valid: bool, ids: NewIds)
    | Send(outcome: Outcome)
    | Elsewhere(tx: Transaction)

  /** New ids are really new, and nobody else uses the browser's name or ids. */
  predicate Allowed(w: World, step: Step) {
    match step
    case Completed(_, ids) => AreFresh(w, ids)
    case PageSeen(_, _, _, ids) => AreFresh(w, ids)
    case Blurred(_, ids) => AreFresh(w, ids)
    case StableId(_, id) => id !in w.issued && id !in Ids(w.store.raw)
    case Send(_) => true
    case Elsewhere(AppendEvent(e)) => e.eventId !in w.issued && e.source != BROWSER
    case Elsewhere(AppendRawEvent(e)) => e.eventId !in w.issued && e.source != BROWSER
    case Elsewhere(Reconciled(_, _)) => true
  }

  predicate AreFresh(w: World, ids: NewIds) {
    && ids.messageId != ids.gapId
    && ids.messageId !in w.issued && ids.messageId !in Ids(w.store.raw)
    && ids.gapId !in w.issued && ids.gapId !in Ids(w.store.raw)
  }

  function AfterEffect(w: World, effect: Effect, ids: NewIds): World {
    var seen := w.(issued := w.issued + {ids.messageId, ids.gapId});
    match effect
    case Unchanged(s) => seen.(ext := s)
    case Queued(s, _) => seen.(ext := s)
    case Dropped(s) => seen.(ext := s, dropped := w.dropped + {s.lastSequence})
    case Refused => w
  }

  /** `sorted(...)[0]`: the queued message with the smallest number. */
  predicate First(outbox: map<Id, Message>, k: Id) {
    k in outbox && forall j :: j in outbox ==> outbox[k].sequence <= outbox[j].sequence
  }

  lemma {:induction false} FirstExists(outbox: map<Id, Message>)
    requires outbox != map[]
    ensures exists k :: First(outbox, k)
  {
    var j :| j in outbox;
    var rest := outbox - {j};
    if rest == map[] {
      assert outbox.Keys == {j} by { assert forall i :: i in outbox && i != j ==> i in rest; }
      assert First(outbox, j);
    } else {
      FirstExists(rest);
      var k :| First(rest, k);
      if outbox[k].sequence <= outbox[j].sequence {
        assert forall i :: i in outbox ==> i == j || i in rest;
        assert First(outbox, k);
      } else {
        assert forall i :: i in outbox ==> i == j || i in rest;
        assert First(outbox, j);
      }
    }
  }

  ghost function FirstKey(outbox: map<Id, Message>): (k: Id)
    requires outbox != map[]
    ensures First(outbox, k)
  {
    FirstExists(outbox);
    var k :| First(outbox, k);
    k
  }

  function Forget(s: State, k: Id): State
    requires k in s.outbox
  {
    var m := s.outbox[k];
    s.(outbox := s.outbox - {k},
       downloadIds := if m.DownloadCompleted? then s.downloadIds - {m.browserDownloadId} else s.downloadIds)
  }

  /** The next send of a flush: the gap if there is one, otherwise the oldest message. */
  ghost function SendNext(w: World, outcome: Outcome): World {
    if w.ext.gap.Some? then SendGap(w, outcome)
    else if w.ext.outbox == map[] then w
    else SendMessage(w, FirstKey(w.ext.outbox), outcome)
  }

  function SendGap(w: World, outcome: Outcome): World
    requires w.ext.gap.Some?
  {
    var g := w.ext.gap.value;
    if outcome == NotDelivered || !Storable(w.store, V1(GapEvent(g))) then w
    else
      var delivered := w.(store := Execute(w.store, AppendEvent(GapEvent(g))));
      if outcome == Unacknowledged then delivered
      else delivered.(ext := w.ext.(gap := None), ackedGap := g.lastSourceSequence)
  }

  function SendMessage(w: World, k: Id, outcome: Outcome): World
    requires k in w.ext.outbox
  {
    var m := w.ext.outbox[k];
    if outcome == NotDelivered || !Storable(w.store, RowOf(m)) then w
    else
      var delivered := w.(store := Execute(w.store, TransactionOf(RowOf(m))), received := w.received + [m.sequence]);
      if outcome == Unacknowledged then delivered
      else delivered.(ext := Forget(w.ext, k), acked := w.acked[m.sequence := m])
  }

  ghost function Next(w: World, step: Step): World {
    if !Allowed(w, step) then w
    else
      match step
      case Completed(item, ids) => AfterEffect(w, EnqueueCompleted(w.ext, item, ids), ids)
      case PageSeen(page, trigger, valid, ids) =>
        AfterEffect(w, EnqueueActivePage(w.ext, page, trigger, valid, ids), ids)
      case Blurred(valid, ids) => AfterEffect(w, EnqueueWindowBlurred(w.ext, valid, ids), ids)
      case StableId(browserId, id) =>
        if browserId in w.ext.downloadIds then w
        else w.(ext := w.ext.(downloadIds := w.ext.downloadIds[browserId := id]), issued := w.issued + {id})
      case Send(outcome) => SendNext(w, outcome)
      case Elsewhere(tx) => w.(store := Execute(w.store, tx))
  }

  ghost function RunSteps(w: World, steps: seq<Step>): World {
    if |steps| == 0 then w else Next(RunSteps(w, steps[..|steps| - 1]), steps[|steps| - 1])
  }

  // ---------------------------------------------------------------- numbers: nothing is lost silently

  predicate InOutbox(s: State, n: int) {
    exists k :: k in s.outbox && s.outbox[k].sequence == n
  }

  /** Messages are filed under their own id, with distinct numbers up to the last one issued. */
  ghost predicate Filed(s: State) {
    && (forall k <- s.outbox :: Key(s.outbox[k]) == k && 1 <= s.outbox[k].sequence <= s.lastSequence)
    && (forall j, k :: j in s.outbox && k in s.outbox && s.outbox[j].sequence == s.outbox[k].sequence ==> j == k)
    && |s.outbox| <= MAX_OUTBOX_MESSAGES
  }

  /** Every number issued is acknowledged, queued or dropped, and only one of these. */
  ghost predicate Partitioned(w: World) {
    && (forall n <- w.acked :: 1 <= n <= w.ext.lastSequence && n !in w.dropped && !InOutbox(w.ext, n))
    && (forall n <- w.dropped :: 1 <= n <= w.ext.lastSequence && !InOutbox(w.ext, n))
    && (forall n :: 1 <= n <= w.ext.lastSequence ==> n in w.acked || n in w.dropped || InOutbox(w.ext, n))
  }

  /** Every dropped number is at most the pending gap's number or an acknowledged gap's number. */
  ghost predicate Noted(w: World) {
    && (forall n <- w.dropped :: n <= w.ackedGap || (w.ext.gap.Some? && n <= w.ext.gap.value.lastSourceSequence))
    && (w.ext.gap.Some? ==>
          w.ext.gap.value.lastSourceSequence in w.dropped && w.ackedGap < w.ext.gap.value.lastSourceSequence)
    && w.ackedGap <= w.ext.lastSequence
  }

  /** Arrivals never go back, and nothing queued is older than an arrival. */
  ghost predicate Ordered(w: World) {
    && (forall i, j :: 0 <= i < j < |w.received| ==> w.received[i] <= w.received[j])
    && (forall r <- w.received :: r <= w.ext.lastSequence)
    && (forall r, k :: r in w.received && k in w.ext.outbox ==> r <= w.ext.outbox[k].sequence)
  }

  ghost predicate Accounted(w: World) {
    Filed(w.ext) && Partitioned(w) && Noted(w) && Ordered(w)
  }

  /** The three ways an enqueue changes what delivery depends on. */
  ghost predicate SameDelivery(s: State, t: State) {
    t.outbox == s.outbox && t.gap == s.gap && t.lastSequence == s.lastSequence
  }

  ghost predicate QueuesNext(s: State, t: State, m: Message) {
    && t.lastSequence == s.lastSequence + 1 == m.sequence && t.gap == s.gap
    && Key(m) !in s.outbox && t.outbox == s.outbox[Key(m) := m] && |s.outbox| < MAX_OUTBOX_MESSAGES
  }

  ghost predicate DropsNext(s: State, t: State) {
    && t.lastSequence == s.lastSequence + 1 && t.outbox == s.outbox
    && t.gap.Some? && t.gap.value.lastSourceSequence == t.lastSequence
  }

  lemma OutboxAfterQueue(s: State, t: State, m: Message)
    requires QueuesNext(s, t, m)
    ensures forall n :: InOutbox(t, n) <==> InOutbox(s, n) || n == m.sequence
    ensures Filed(s) ==> Filed(t)
  {
    assert t.outbox[Key(m)] == m;
    forall n ensures InOutbox(t, n) <==> InOutbox(s, n) || n == m.sequence {
      if InOutbox(s, n) {
        var k :| k in s.outbox && s.outbox[k].sequence == n;
        assert t.outbox[k] == s.outbox[k];
      }
    }
  }

  lemma OutboxAfterForget(s: State, k: Id)
    requires Filed(s) && k in s.outbox
    ensures forall n :: InOutbox(Forget(s, k), n) <==> InOutbox(s, n) && n != s.outbox[k].sequence
    ensures Filed(Forget(s, k))
  {
    var t := Forget(s, k);
    assert t.outbox.Keys == s.outbox.Keys - {k};
    forall n ensures InOutbox(t, n) <==> InOutbox(s, n) && n != s.outbox[k].sequence {
      if InOutbox(s, n) && n != s.outbox[k].sequence {
        var j :| j in s.outbox && s.outbox[j].sequence == n;
        assert j in t.outbox;
      }
    }
  }

  /** Every enqueue queues the next number, drops it with a note, or leaves delivery as it was. */
  lemma EnqueueEffects(w: World, step: Step)
    requires Allowed(w, step) && IdsInUse(w)
    requires step.Completed? || step.PageSeen? || step.Blurred?
    ensures var e := EffectOf(w.ext, step);
      && (e.Unchanged? ==> SameDelivery(w.ext, e.state))
      && (e.Queued? ==> QueuesNext(w.ext, e.state, e.message))
      && (e.Dropped? ==> DropsNext(w.ext, e.state))
  {
    assert forall k :: k !in w.issued ==> k !in w.ext.outbox;
  }

  function EffectOf(s: State, step: Step): Effect
    requires step.Completed? || step.PageSeen? || step.Blurred?
  {
    match step
    case Completed(item, ids) => EnqueueCompleted(s, item, ids)
    case PageSeen(page, trigger, valid, ids) => EnqueueActivePage(s, page, trigger, valid, ids)
    case Blurred(valid, ids) => EnqueueWindowBlurred(s, valid, ids)
  }

  lemma EffectKeepsAccounted(w: World, effect: Effect, ids: NewIds)
    requires Accounted(w)
    requires effect.Unchanged? ==> SameDelivery(w.ext, effect.state)
    requires effect.Queued? ==> QueuesNext(w.ext, effect.state, effect.message)
    requires effect.Dropped? ==> DropsNext(w.ext, effect.state)
    ensures Accounted(AfterEffect(w, effect, ids))
  {
    match effect
    case Queued(s, m) => QueueKeepsAccounted(w, s, m);
    case Dropped(s) => DropKeepsAccounted(w, s);
    case Unchanged(s) => assert forall n :: InOutbox(s, n) <==> InOutbox(w.ext, n);
    case Refused =>
  }

  lemma QueueKeepsAccounted(w: World, s: State, m: Message)
    requires Accounted(w) && QueuesNext(w.ext, s, m)
    ensures Accounted(w.(ext := s))
  {
    hide InOutbox, Filed;
    OutboxAfterQueue(w.ext, s, m);
    FiledBound(w.ext);
  }

  lemma DropKeepsAccounted(w: World, s: State)
    requires Accounted(w) && DropsNext(w.ext, s)
    ensures Accounted(w.(ext := s, dropped := w.dropped + {s.lastSequence}))
  {
    hide Ordered, Filed;
    assert forall n :: InOutbox(s, n) <==> InOutbox(w.ext, n);
    FiledBound(w.ext);
    OrderedStays(w, s);
  }

  /** No queued number exceeds the last one issued. */
  lemma FiledBound(s: State)
    requires Filed(s)
    ensures forall n :: InOutbox(s, n) ==> 1 <= n <= s.lastSequence
    ensures forall t: State :: t.outbox == s.outbox && t.lastSequence >= s.lastSequence ==> Filed(t)
  {
  }

  lemma OrderedStays(w: World, s: State)
    requires Ordered(w) && s.outbox == w.ext.outbox && s.lastSequence >= w.ext.lastSequence
    ensures Ordered(w.(ext := s, dropped := w.dropped + {s.lastSequence}))
  {
  }

  /** Delivering the oldest message keeps the order; acknowledging it moves its number to the acknowledged. */
  lemma DeliveryKeepsAccounted(w: World, k: Id)
    requires Accounted(w) && First(w.ext.outbox, k)
    ensures Accounted(w.(received := w.received + [w.ext.outbox[k].sequence]))
    ensures Accounted(w.(ext := Forget(w.ext, k), received := w.received + [w.ext.outbox[k].sequence],
                         acked := w.acked[w.ext.outbox[k].sequence := w.ext.outbox[k]]))
  {
    hide Filed, Noted;
    var n := w.ext.outbox[k].sequence;
    FiledBound(w.ext);
    OutboxAfterForget(w.ext, k);
    assert InOutbox(w.ext, n);
    var delivered := w.(received := w.received + [n]);
    assert Ordered(delivered) by { ArrivalKeepsOrdered(w, k); }
    assert Noted(delivered) by { NotedStays(w, delivered); }
    var after := delivered.(ext := Forget(w.ext, k), acked := w.acked[n := w.ext.outbox[k]]);
    assert Noted(after) by { NotedStays(w, after); }
    assert Partitioned(after) by { hide InOutbox, Ordered; }
    assert Ordered(after);
  }

  lemma NotedStays(w: World, after: World)
    requires Noted(w) && after.dropped == w.dropped && after.ackedGap == w.ackedGap
    requires after.ext.gap == w.ext.gap && after.ext.lastSequence == w.ext.lastSequence
    ensures Noted(after)
  {
  }

  lemma ArrivalKeepsOrdered(w: World, k: Id)
    requires Ordered(w) && First(w.ext.outbox, k) && w.ext.outbox[k].sequence <= w.ext.lastSequence
    ensures Ordered(w.(received := w.received + [w.ext.outbox[k].sequence]))
  {
    var received := w.received + [w.ext.outbox[k].sequence];
    forall i, j | 0 <= i < j < |received| ensures received[i] <= received[j] {
      if j == |w.received| { assert w.received[i] in w.received; }
    }
  }

  // ---------------------------------------------------------------- rows: exactly once

  /** The one row stored under an id. */
  ghost predicate StoredAs(s: Store, row: RawRow) {
    && row in s.raw
    && forall other <- s.raw :: other.EventId() == row.EventId() ==> other == row
  }

  /** Queued downloads and remembered download ids name each other, and ids in use were issued. */
  ghost predicate IdsInUse(w: World) {
    && (forall k <- w.ext.outbox :: k in w.issued && Key(w.ext.outbox[k]) == k)
    && (forall b <- w.ext.downloadIds :: w.ext.downloadIds[b] in w.issued)
    && (forall b, c ::
          (b in w.ext.downloadIds && c in w.ext.downloadIds && w.ext.downloadIds[b] == w.ext.downloadIds[c]) ==> b == c)
    && (forall k <- w.ext.outbox :: w.ext.outbox[k].DownloadCompleted? ==>
          && w.ext.outbox[k].browserDownloadId in w.ext.downloadIds
          && w.ext.downloadIds[w.ext.outbox[k].browserDownloadId] == k)
    && (forall b <- w.ext.downloadIds :: w.ext.downloadIds[b] in w.ext.outbox ==>
          && w.ext.outbox[w.ext.downloadIds[b]].DownloadCompleted?
          && w.ext.outbox[w.ext.downloadIds[b]].browserDownloadId == b)
    && (w.ext.gap.Some? ==> w.ext.gap.value.gapId in w.issued)
    && (forall n <- w.acked :: Key(w.acked[n]) in w.issued && w.acked[n].sequence == n)
  }

  /** What the log holds under the extension's ids: the very message, or nothing. */
  ghost predicate Stored(w: World) {
    && Consistent(w.store)
    && (forall n <- w.acked :: RowOf(w.acked[n]) in w.store.raw)
    && (forall k <- w.ext.outbox :: k in Ids(w.store.raw) ==> RowOf(w.ext.outbox[k]) in w.store.raw)
    && (forall b <- w.ext.downloadIds :: w.ext.downloadIds[b] in Ids(w.store.raw) ==>
        w.ext.downloadIds[b] in w.ext.outbox)
  }

  lemma RowKey(m: Message)
    ensures RowOf(m).EventId() == Key(m) && RowOf(m).Source() == BROWSER && RowOf(m).Sequence() == Some(m.sequence)
  {
  }

  lemma OnlyRow(s: Store, row: RawRow)
    requires DistinctIds(s.raw) && row in s.raw
    ensures StoredAs(s, row)
  {
    var i :| 0 <= i < |s.raw| && s.raw[i] == row;
    forall other | other in s.raw && other.EventId() == row.EventId() ensures other == row {
      var j :| 0 <= j < |s.raw| && s.raw[j] == other;
    }
  }

  // ---------------------------------------------------------------- ids and rows over steps

  ghost predicate Tracked(w: World) {
    IdsInUse(w) && Stored(w)
  }

  /** A browser download gets its stable id. */
  lemma RememberKeepsTracked(w: World, b: nat, id: Id)
    requires Tracked(w) && b !in w.ext.downloadIds && id !in w.issued && id !in Ids(w.store.raw)
    ensures Tracked(w.(ext := w.ext.(downloadIds := w.ext.downloadIds[b := id]), issued := w.issued + {id}))
  {
    hide Consistent, RowOf, Ids;
    assert forall c <- w.ext.downloadIds :: w.ext.downloadIds[c] in w.issued;
    assert forall k <- w.ext.outbox :: k in w.issued;
  }

  lemma IssueKeepsTracked(w: World, ids: set<Id>)
    requires Tracked(w)
    ensures Tracked(w.(issued := w.issued + ids))
  {
    hide Consistent, RowOf, Ids;
  }

  /** A message is filed under an issued id that is in no use yet. */
  lemma QueueKeepsTracked(w: World, s: State, m: Message)
    requires Tracked(w) && Key(m) in w.issued && Key(m) !in Ids(w.store.raw) && Key(m) !in w.ext.outbox
    requires s.outbox == w.ext.outbox[Key(m) := m] && s.downloadIds == w.ext.downloadIds && s.gap == w.ext.gap
    requires if m.DownloadCompleted? then m.browserDownloadId in s.downloadIds
              && s.downloadIds[m.browserDownloadId] == Key(m)
             else forall b <- s.downloadIds :: s.downloadIds[b] != Key(m)
    ensures Tracked(w.(ext := s))
  {
    hide Consistent, RowOf, Ids;
  }

  /** A dropped download is forgotten; its id was in no message. */
  lemma ForgetKeepsTracked(w: World, s: State, b: nat)
    requires Tracked(w) && s.outbox == w.ext.outbox && s.downloadIds == w.ext.downloadIds - {b}
    requires b in w.ext.downloadIds ==> w.ext.downloadIds[b] !in w.ext.outbox
    requires s.gap.Some? ==> s.gap.value.gapId in w.issued
    ensures Tracked(w.(ext := s, dropped := w.dropped + {s.lastSequence}))
  {
    hide Consistent, RowOf, Ids;
  }

  lemma DropKeepsTracked(w: World, s: State)
    requires Tracked(w) && s.outbox == w.ext.outbox && s.downloadIds == w.ext.downloadIds
    requires s.gap.Some? ==> s.gap.value.gapId in w.issued
    ensures Tracked(w.(ext := s, dropped := w.dropped + {s.lastSequence}))
  {
    hide Consistent, RowOf, Ids;
  }

  lemma CompletedKeepsTracked(w: World, item: Item, ids: NewIds)
    requires AreFresh(w, ids) && Tracked(w)
    ensures Tracked(AfterEffect(w, EnqueueCompleted(w.ext, item, ids), ids))
  {
    hide Tracked, Ids;
    var seen := w.(issued := w.issued + {ids.messageId, ids.gapId});
    var downloadId := if item.id in w.ext.downloadIds then w.ext.downloadIds[item.id] else ids.messageId;
    var known := seen.(ext := w.ext.(downloadIds := w.ext.downloadIds[item.id := downloadId]));
    assert Tracked(known) && (downloadId !in Ids(w.store.raw) || downloadId in w.ext.outbox)
        && downloadId in known.issued by {
      KnownKeepsTracked(w, item.id, ids);
    }
    match EnqueueCompleted(w.ext, item, ids)
    case Unchanged(_) =>
    case Queued(s, m) => QueueKeepsTracked(known, s, m);
    case Dropped(s) => GapIsIssued(w); ForgetKeepsTracked(known, s, item.id);
    case Refused =>
  }

  lemma GapIsIssued(w: World)
    requires Tracked(w)
    ensures w.ext.gap.Some? ==> w.ext.gap.value.gapId in w.issued
  {
  }

  lemma KnownKeepsTracked(w: World, b: nat, ids: NewIds)
    requires AreFresh(w, ids) && Tracked(w)
    ensures var id := if b in w.ext.downloadIds then w.ext.downloadIds[b] else ids.messageId;
      && Tracked(w.(issued := w.issued + {ids.messageId, ids.gapId},
                    ext := w.ext.(downloadIds := w.ext.downloadIds[b := id])))
      && (id !in Ids(w.store.raw) || id in w.ext.outbox) && id in w.issued + {ids.messageId, ids.gapId}
  {
    hide Consistent, RowOf, Ids;
    if b in w.ext.downloadIds {
      assert w.ext.downloadIds[b := w.ext.downloadIds[b]] == w.ext.downloadIds;
      IssueKeepsTracked(w, {ids.messageId, ids.gapId});
    } else {
      RememberKeepsTracked(w, b, ids.messageId);
      var remembered := w.(ext := w.ext.(downloadIds := w.ext.downloadIds[b := ids.messageId]),
                           issued := w.issued + {ids.messageId});
      IssueKeepsTracked(remembered, {ids.gapId});
      assert w.issued + {ids.messageId} + {ids.gapId} == w.issued + {ids.messageId, ids.gapId};
    }
  }

  lemma PageKeepsTracked(w: World, page: Page, trigger: string, valid: bool, ids: NewIds)
    requires AreFresh(w, ids) && Tracked(w)
    ensures Tracked(AfterEffect(w, EnqueuePage(w.ext, page, trigger, valid, ids), ids))
  {
    hide Consistent, RowOf, Ids, Stored;
    assert forall b <- w.ext.downloadIds :: w.ext.downloadIds[b] in w.issued;
    assert forall k <- w.ext.outbox :: k in w.issued;
    IssueKeepsTracked(w, {ids.messageId, ids.gapId});
    var seen := w.(issued := w.issued + {ids.messageId, ids.gapId});
    match EnqueuePage(w.ext, page, trigger, valid, ids)
    case Queued(s, m) => QueueKeepsTracked(seen, s, m);
    case Dropped(s) => GapIsIssued(w); DropKeepsTracked(seen, s);
    case _ =>
  }

  lemma EnqueueKeepsTracked(w: World, step: Step)
    requires Allowed(w, step) && Tracked(w)
    requires step.Completed? || step.PageSeen? || step.Blurred?
    ensures Tracked(Next(w, step))
  {
    hide Tracked, EnqueuePage, EnqueueCompleted;
    match step
    case Completed(item, ids) => CompletedKeepsTracked(w, item, ids);
    case PageSeen(page, trigger, valid, ids) =>
      PageKeepsTracked(w, page, trigger, valid, ids);
      IssueKeepsTracked(w, {ids.messageId, ids.gapId});
    case Blurred(valid, ids) =>
      IssueKeepsTracked(w, {ids.messageId, ids.gapId});
      if w.ext.lastActivePage.Some? {
        PageKeepsTracked(w, w.ext.lastActivePage.value.(windowFocused := false), "window_blurred", valid, ids);
      }
  }

  /** A transaction under an id the extension never issued leaves its part of the log alone. */
  lemma ForeignKeepsStored(w: World, tx: Transaction)
    requires Tracked(w) && Allowed(w, Elsewhere(tx))
    ensures Stored(w.(store := Execute(w.store, tx)))
  {
    hide Consistent, RowOf, Execute;
    ExecuteKeepsConsistent(w.store, tx);
    ForeignLog(w.store, tx);
    var after := Execute(w.store, tx);
    assert forall id :: id in w.issued ==> (id in Ids(after.raw) <==> id in Ids(w.store.raw)) by {
      IdsAfter(w.store, after, tx, w.issued);
    }
  }

  lemma ForeignLog(s: Store, tx: Transaction)
    ensures var after := Execute(s, tx);
      after.raw == s.raw || (tx.AppendEvent? && after.raw == s.raw + [V1(tx.event)])
      || (tx.AppendRawEvent? && after.raw == s.raw + [V2(tx.event2)])
  {
    hide ApplyChecked, ProjectEvent, SortKey.Sortable, Advance, Ids;
  }

  lemma IdsAfter(s: Store, after: Store, tx: Transaction, issued: set<Id>)
    requires after.raw == s.raw || (tx.AppendEvent? && after.raw == s.raw + [V1(tx.event)]
                                    && tx.event.eventId !in issued)
      || (tx.AppendRawEvent? && after.raw == s.raw + [V2(tx.event2)] && tx.event2.eventId !in issued)
    ensures forall id :: id in issued ==> (id in Ids(after.raw) <==> id in Ids(s.raw))
  {
    forall id | id in issued ensures id in Ids(after.raw) <==> id in Ids(s.raw) {
      if id in Ids(s.raw) {
        var row :| row in s.raw && row.EventId() == id;
        assert row in after.raw;
      }
    }
  }

  lemma IdsOfLonger(raw: seq<RawRow>, row: RawRow)
    ensures Ids(raw + [row]) == Ids(raw) + {row.EventId()}
  {
    forall id ensures id in Ids(raw + [row]) <==> id in Ids(raw) + {row.EventId()} {
      if id in Ids(raw) { var r :| r in raw && r.EventId() == id; assert r in raw + [row]; }
      if id == row.EventId() { assert row in raw + [row]; }
    }
  }

  /** The log after the agent took `row`: the row is there and no other id changed. */
  lemma DeliveredRow(s: Store, row: RawRow)
    requires Consistent(s) && Storable(s, row)
    ensures var after := Execute(s, TransactionOf(row));
      && Consistent(after)
      && after.raw == (if row.EventId() in Ids(s.raw) then s.raw else s.raw + [row])
      && Ids(after.raw) == Ids(s.raw) + {row.EventId()}
  {
    hide Consistent, ApplyChecked, ProjectEvent, SortKey.Sortable, Advance, Ids;
    ExecuteKeepsConsistent(s, TransactionOf(row));
    IdsOfLonger(s.raw, row);
    assert row.EventId() in Ids(s.raw) ==> Ids(s.raw) + {row.EventId()} == Ids(s.raw);
  }

  /** The agent takes a queued message: its row is stored, the rest of the log is as before. */
  lemma DeliverKeepsTracked(w: World, k: Id)
    requires Tracked(w) && k in w.ext.outbox && Storable(w.store, RowOf(w.ext.outbox[k]))
    ensures var m := w.ext.outbox[k]; var after := Execute(w.store, TransactionOf(RowOf(m)));
      && Stored(w.(store := after)) && RowOf(m) in after.raw
  {
    hide Consistent, Ids, Execute, Storable;
    var m := w.ext.outbox[k];
    RowKey(m);
    DeliveredRow(w.store, RowOf(m));
    hide RowOf;
    var after := Execute(w.store, TransactionOf(RowOf(m)));
    assert forall other :: other in w.store.raw ==> other in after.raw;
  }

  lemma AcknowledgeKeepsTracked(w: World, k: Id)
    requires Tracked(w) && k in w.ext.outbox && RowOf(w.ext.outbox[k]) in w.store.raw
    ensures Tracked(w.(ext := Forget(w.ext, k), acked := w.acked[w.ext.outbox[k].sequence := w.ext.outbox[k]]))
  {
    hide Consistent, RowOf, Ids;
  }

  lemma SendMessageKeepsTracked(w: World, k: Id, outcome: Outcome)
    requires Tracked(w) && k in w.ext.outbox
    ensures Tracked(SendMessage(w, k, outcome))
  {
    hide Ids, Execute, Storable, Stored, IdsInUse, Forget;
    var m := w.ext.outbox[k];
    if outcome != NotDelivered && Storable(w.store, RowOf(m)) {
      DeliverKeepsTracked(w, k);
      SameIds(w, w.(store := Execute(w.store, TransactionOf(RowOf(m))), received := w.received + [m.sequence]));
      hide RowOf;
      if outcome == Acknowledged {
        AcknowledgeKeepsTracked(w.(store := Execute(w.store, TransactionOf(RowOf(m))),
                                   received := w.received + [m.sequence]), k);
      }
    }
  }

  lemma SameIds(w: World, after: World)
    requires IdsInUse(w) && Stored(w.(store := after.store))
    requires after.ext == w.ext && after.acked == w.acked && after.issued == w.issued
    ensures Tracked(after)
  {
    hide Consistent, RowOf, Ids;
  }

  /** The gap's id is neither a message's nor a download's. */
  ghost predicate GapIdApart(w: World) {
    w.ext.gap.Some? ==>
      && w.ext.gap.value.gapId !in w.ext.outbox
      && (forall b <- w.ext.downloadIds :: w.ext.downloadIds[b] != w.ext.gap.value.gapId)
  }

  // ---------------------------------------------------------------- gaps at the agent

  /** A stored gap event of the browser with this number. */
  predicate GapRow(row: RawRow, n: nat) {
    row.V1? && row.event.source == BROWSER && row.event.payload.CollectorGap?
        && row.event.payload.lastSequence == Some(n)
  }

  predicate BrowserGap(row: RawRow) {
    row.V1? && row.event.source == BROWSER && row.event.payload.CollectorGap?
  }

  /** Stored gap events never claim more than the pending or an acknowledged gap. */
  ghost predicate GapsBounded(w: World) {
    && (forall row <- w.store.raw :: BrowserGap(row) ==>
          row.event.payload.lastSequence.Some? &&
          (row.event.payload.lastSequence.value <= w.ackedGap
           || (w.ext.gap.Some? && row.EventId() == w.ext.gap.value.gapId
               && row.event.payload.lastSequence.value <= w.ext.gap.value.lastSourceSequence)))
    && (w.ext.gap.Some? ==> forall row <- w.store.raw :: row.EventId() == w.ext.gap.value.gapId ==> BrowserGap(row))
  }

  ghost predicate Invariant(w: World) {
    Accounted(w) && Tracked(w) && GapIdApart(w) && GapsBounded(w)
  }

  /** Dropping a number: the pending gap only grows, a new one has no row yet. */
  lemma NoteKeepsGaps(w: World, s: State, ids: NewIds)
    requires GapsBounded(w) && ids.gapId !in Ids(w.store.raw)
    requires w.ext.gap.Some? ==> w.ext.gap.value.lastSourceSequence <= w.ext.lastSequence
    requires s.gap.Some?
    requires if w.ext.gap.Some? then s.gap.value.gapId == w.ext.gap.value.gapId else s.gap.value.gapId == ids.gapId
    requires s.gap.value.lastSourceSequence == s.lastSequence >= w.ext.lastSequence
    ensures forall after: World :: after.store == w.store && after.ext == s && after.ackedGap == w.ackedGap ==>
              GapsBounded(after)
  {
    hide BrowserGap;
    NoRowUnder(w.store, ids.gapId);
  }

  lemma EnqueueKeepsGaps(w: World, step: Step)
    requires Allowed(w, step) && IdsInUse(w) && Accounted(w) && GapIdApart(w) && GapsBounded(w)
    requires step.Completed? || step.PageSeen? || step.Blurred?
    ensures GapIdApart(Next(w, step))
    ensures GapsBounded(Next(w, step))
  {
    hide Accounted, Filed, Partitioned, Noted, Ordered, GapIdApart, GapsBounded, IdsInUse;
    hide Ids, NoteGap, EnqueueCompleted, EnqueuePage;
    assert w.ext.gap.Some? ==> w.ext.gap.value.lastSourceSequence <= w.ext.lastSequence by { GapNumberIssued(w); }
    EnqueueKeepsApart(w, step);
    EnqueueNotes(w.ext, step);
    var effect := EffectOf(w.ext, step);
    if effect.Dropped? {
      NoteKeepsGaps(w, effect.state, NewIdsOf(step));
    } else {
      SameGap(w, Next(w, step));
    }
  }

  /** What an enqueue does to the pending gap. */
  lemma EnqueueNotes(s: State, step: Step)
    requires step.Completed? || step.PageSeen? || step.Blurred?
    ensures var effect := EffectOf(s, step);
      && (effect.Unchanged? || effect.Queued? ==> effect.state.gap == s.gap)
      && (effect.Dropped? ==>
            && effect.state.gap.Some? && effect.state.gap.value.lastSourceSequence ==
                effect.state.lastSequence >= s.lastSequence
            && effect.state.gap.value.gapId == (if s.gap.Some? then s.gap.value.gapId else NewIdsOf(step).gapId))
  {
  }

  lemma EnqueueKeepsApart(w: World, step: Step)
    requires Allowed(w, step) && IdsInUse(w) && GapIdApart(w)
    requires step.Completed? || step.PageSeen? || step.Blurred?
    ensures GapIdApart(Next(w, step))
  {
    hide Ids, EnqueueCompleted, EnqueuePage;
    assert forall k :: k !in w.issued ==> k !in w.ext.outbox;
    assert forall b <- w.ext.downloadIds :: w.ext.downloadIds[b] in w.issued;
    hide IdsInUse;
    match step
    case Completed(item, ids) => CompletedKeepsApart(w, item, ids);
    case PageSeen(page, trigger, valid, ids) => PageKeepsApart(w, page, trigger, valid, ids);
    case Blurred(valid, ids) =>
      if w.ext.lastActivePage.Some? {
        PageKeepsApart(w, w.ext.lastActivePage.value.(windowFocused := false), "window_blurred", valid, ids);
      }
  }

  /** The new ids are none of those in use. */
  ghost predicate Unused(w: World, ids: NewIds) {
    && ids.messageId != ids.gapId
    && ids.gapId !in w.ext.outbox && (forall b <- w.ext.downloadIds :: w.ext.downloadIds[b] != ids.gapId)
    && (w.ext.gap.Some? ==> w.ext.gap.value.gapId != ids.messageId)
  }

  lemma CompletedKeepsApart(w: World, item: Item, ids: NewIds)
    requires GapIdApart(w) && Unused(w, ids)
    ensures GapIdApart(AfterEffect(w, EnqueueCompleted(w.ext, item, ids), ids))
  {
  }

  lemma PageKeepsApart(w: World, page: Page, trigger: string, valid: bool, ids: NewIds)
    requires GapIdApart(w) && Unused(w, ids)
    ensures GapIdApart(AfterEffect(w, EnqueuePage(w.ext, page, trigger, valid, ids), ids))
  {
  }

  lemma GapNumberIssued(w: World)
    requires Accounted(w)
    ensures w.ext.gap.Some? ==> w.ext.gap.value.lastSourceSequence <= w.ext.lastSequence
  {
    hide Filed, Ordered, InOutbox;
  }

  lemma SameGap(w: World, after: World)
    requires GapsBounded(w) && after.store == w.store && after.ext.gap == w.ext.gap && after.ackedGap == w.ackedGap
    ensures GapsBounded(after)
  {
    hide BrowserGap;
  }

  function NewIdsOf(step: Step): NewIds
    requires step.Completed? || step.PageSeen? || step.Blurred?
  {
    match step
    case Completed(_, ids) => ids
    case PageSeen(_, _, _, ids) => ids
    case Blurred(_, ids) => ids
  }

  lemma NoRowUnder(s: Store, id: Id)
    ensures id !in Ids(s.raw) ==> forall row <- s.raw :: row.EventId() != id
  {
  }

  lemma NewRowKeepsGaps(w: World, raw: seq<RawRow>, row: RawRow)
    requires GapsBounded(w) && (raw == w.store.raw || raw == w.store.raw + [row])
    requires !BrowserGap(row) && (w.ext.gap.Some? ==> row.EventId() != w.ext.gap.value.gapId)
    ensures forall after: World ::
              (after.store.raw == raw && after.ext.gap == w.ext.gap && after.ackedGap == w.ackedGap) ==>
                GapsBounded(after)
  {
    hide BrowserGap;
    assert forall r :: r in raw ==> r in w.store.raw || r == row;
  }

  lemma SendMessageKeepsInvariant(w: World, k: Id, outcome: Outcome)
    requires Invariant(w) && w.ext.gap.None? && k in w.ext.outbox && First(w.ext.outbox, k)
    ensures Invariant(SendMessage(w, k, outcome))
  {
    hide Accounted, Filed, Partitioned, Noted, Ordered, Tracked, IdsInUse, Stored, GapsBounded, BrowserGap;
    hide First, Execute, Storable, Ids, RowOf;
    var m := w.ext.outbox[k];
    SendMessageKeepsTracked(w, k, outcome);
    if outcome != NotDelivered && Storable(w.store, RowOf(m)) {
      var after := SendMessage(w, k, outcome);
      assert Consistent(w.store) by { TrackedIsConsistent(w); }
      hide Consistent;
      DeliveredRow(w.store, RowOf(m));
      RowIsNoGap(m);
      NewRowKeepsGaps(w, after.store.raw, RowOf(m));
      DeliveryKeepsAccounted(w, k);
      if outcome == Unacknowledged {
        SameNumbers(w.(received := w.received + [m.sequence]), after);
      } else {
        SameNumbers(w.(ext := Forget(w.ext, k), received := w.received + [m.sequence],
                       acked := w.acked[m.sequence := m]), after);
      }
    }
  }

  lemma RowIsNoGap(m: Message)
    ensures !BrowserGap(RowOf(m))
  {
  }

  lemma TrackedIsConsistent(w: World)
    requires Tracked(w)
    ensures Consistent(w.store)
  {
  }

  /** The numbers do not depend on the agent's store. */
  lemma SameNumbers(w: World, after: World)
    requires Accounted(w) && after.ext == w.ext && after.received == w.received && after.acked == w.acked
    requires after.dropped == w.dropped && after.ackedGap == w.ackedGap
    ensures Accounted(after)
  {
    hide Filed, InOutbox;
  }

  lemma SendGapKeepsInvariant(w: World, outcome: Outcome)
    requires Invariant(w) && w.ext.gap.Some?
    ensures Invariant(SendGap(w, outcome))
  {
    hide Accounted, Tracked, GapsBounded, Execute, Storable, Ids;
    var row := V1(GapEvent(w.ext.gap.value));
    if outcome != NotDelivered && Storable(w.store, row) {
      var store := Execute(w.store, TransactionOf(row));
      assert Consistent(w.store) by { TrackedIsConsistent(w); }
      DeliveredRow(w.store, row);
      var delivered := w.(store := store);
      GapDeliveryKeepsTracked(w, store);
      SameNumbers(w, delivered);
      GapDeliveryKeepsGaps(w, store);
      GapAckKeepsAccounted(delivered);
    }
  }

  lemma GapDeliveryKeepsTracked(w: World, store: Store)
    requires Tracked(w) && GapIdApart(w) && w.ext.gap.Some? && Consistent(store)
    requires store.raw == w.store.raw || store.raw == w.store.raw + [V1(GapEvent(w.ext.gap.value))]
    requires Ids(store.raw) == Ids(w.store.raw) + {w.ext.gap.value.gapId}
    ensures Tracked(w.(store := store))
    ensures Tracked(w.(store := store, ext := w.ext.(gap := None), ackedGap := w.ext.gap.value.lastSourceSequence))
  {
    hide Consistent, RowOf, Ids, GapEvent;
    assert forall row :: row in w.store.raw ==> row in store.raw;
  }

  lemma GapDeliveryKeepsGaps(w: World, store: Store)
    requires Invariant(w) && w.ext.gap.Some?
    requires store.raw == (if w.ext.gap.value.gapId in Ids(w.store.raw) then w.store.raw
                           else w.store.raw + [V1(GapEvent(w.ext.gap.value))])
    ensures GapsBounded(w.(store := store))
    ensures GapsBounded(w.(store := store, ext := w.ext.(gap := None), ackedGap := w.ext.gap.value.lastSourceSequence))
  {
    hide Tracked, Filed, Partitioned, Ordered, Ids;
    assert forall r :: r in store.raw ==> r in w.store.raw || r == V1(GapEvent(w.ext.gap.value));
  }

  lemma GapAckKeepsAccounted(w: World)
    requires Accounted(w) && w.ext.gap.Some?
    ensures Accounted(w.(ext := w.ext.(gap := None), ackedGap := w.ext.gap.value.lastSourceSequence))
  {
    var after := w.ext.(gap := None);
    assert forall n :: InOutbox(after, n) <==> InOutbox(w.ext, n);
  }

  lemma ElsewhereKeepsInvariant(w: World, tx: Transaction)
    requires Invariant(w) && Allowed(w, Elsewhere(tx))
    ensures Invariant(w.(store := Execute(w.store, tx)))
  {
    hide Accounted, GapsBounded, Execute, Ids, Stored;
    var after := w.(store := Execute(w.store, tx));
    ForeignKeepsStored(w, tx);
    ForeignLog(w.store, tx);
    SameNumbers(w, after);
    match tx
    case AppendEvent(e) => NewRowKeepsGaps(w, after.store.raw, V1(e));
    case AppendRawEvent(e) => NewRowKeepsGaps(w, after.store.raw, V2(e));
    case Reconciled(_, _) => SameRowsKeepGaps(w, after);
  }

  lemma SameRowsKeepGaps(w: World, after: World)
    requires GapsBounded(w) && after.store.raw == w.store.raw && after.ext == w.ext && after.ackedGap == w.ackedGap
    ensures GapsBounded(after)
  {
    hide BrowserGap;
  }

  lemma StableIdKeepsInvariant(w: World, b: nat, id: Id)
    requires Invariant(w) && b !in w.ext.downloadIds && id !in w.issued && id !in Ids(w.store.raw)
    ensures Invariant(w.(ext := w.ext.(downloadIds := w.ext.downloadIds[b := id]), issued := w.issued + {id}))
  {
    hide Stored, GapsBounded, Accounted, Ids;
    var after := w.(ext := w.ext.(downloadIds := w.ext.downloadIds[b := id]), issued := w.issued + {id});
    RememberKeepsTracked(w, b, id);
    SameGap(w, after);
    EffectKeepsAccounted(w, Unchanged(after.ext), NewIds(id, id, Time("", 0)));
    SameNumbers(AfterEffect(w, Unchanged(after.ext), NewIds(id, id, Time("", 0))), after);
  }

  lemma NextKeepsInvariant(w: World, step: Step)
    requires Invariant(w)
    ensures Invariant(Next(w, step))
  {
    hide Accounted, Tracked, GapsBounded, GapIdApart, Execute, Ids, SendGap, SendMessage;
    if Allowed(w, step) {
      match step
      case Send(outcome) =>
        if w.ext.gap.Some? { SendGapKeepsInvariant(w, outcome); }
        else if w.ext.outbox != map[] { SendMessageKeepsInvariant(w, FirstKey(w.ext.outbox), outcome); }
      case Elsewhere(tx) => ElsewhereKeepsInvariant(w, tx);
      case StableId(b, id) => if b !in w.ext.downloadIds { StableIdKeepsInvariant(w, b, id); }
      case _ => EnqueueKeepsInvariant(w, step);
    }
  }

  lemma EnqueueKeepsInvariant(w: World, step: Step)
    requires Invariant(w) && Allowed(w, step)
    requires step.Completed? || step.PageSeen? || step.Blurred?
    ensures Invariant(Next(w, step))
  {
    hide Accounted, Stored, GapsBounded, GapIdApart, Ids, EnqueueCompleted;
    hide EnqueueActivePage, EnqueueWindowBlurred, AfterEffect;
    EnqueueEffects(w, step);
    EffectKeepsAccounted(w, EffectOf(w.ext, step), NewIdsOf(step));
    EnqueueKeepsTracked(w, step);
    EnqueueKeepsGaps(w, step);
  }

  // ---------------------------------------------------------------- over every run

  lemma {:induction false} InvariantHolds(steps: seq<Step>)
    ensures Invariant(RunSteps(START, steps))
  {
    hide Next, Invariant;
    if |steps| == 0 {
      InvariantHoldsAtStart();
    } else {
      InvariantHolds(steps[..|steps| - 1]);
      NextKeepsInvariant(RunSteps(START, steps[..|steps| - 1]), steps[|steps| - 1]);
    }
  }

  lemma InvariantHoldsAtStart()
    ensures Invariant(START)
  {
  }

  /** No silent loss: in every reachable state each number issued is acknowledged, queued or dropped, exactly
      one of these; every dropped number is covered by the pending or an acknowledged gap; the outbox is bounded. */
  lemma NoSilentLoss(steps: seq<Step>, n: int)
    ensures var w := RunSteps(START, steps);
      && (1 <= n <= w.ext.lastSequence <==> n in w.acked || n in w.dropped || InOutbox(w.ext, n))
      && !(n in w.acked && n in w.dropped) && !(n in w.acked && InOutbox(w.ext, n))
      && !(n in w.dropped && InOutbox(w.ext, n))
      && (n in w.dropped ==> n <= w.ackedGap || (w.ext.gap.Some? && n <= w.ext.gap.value.lastSourceSequence))
      && |w.ext.outbox| <= MAX_OUTBOX_MESSAGES
  {
    hide Tracked, GapsBounded, RunSteps, Ordered;
    InvariantHolds(steps);
    FiledBound(RunSteps(START, steps).ext);
  }

  /** Exactly once: every acknowledged message has one row under its stable id, and that row says what the message
      says. */
  lemma AcknowledgedExactlyOnce(steps: seq<Step>, n: nat)
    requires n in RunSteps(START, steps).acked
    ensures var w := RunSteps(START, steps);
      && w.acked[n].sequence == n && StoredAs(w.store, RowOf(w.acked[n]))
      && exists row ::
           && row in w.store.raw && Carries(row, w.acked[n])
           && forall other <- w.store.raw :: other.EventId() == Key(w.acked[n]) ==> other == row
  {
    hide Accounted, GapsBounded, RunSteps, Rebuild, RowOf, Carries, Key;
    InvariantHolds(steps);
    var w := RunSteps(START, steps);
    OnlyRow(w.store, RowOf(w.acked[n]));
    RowCarries(w.acked[n]);
  }

  /** Whenever the invariant holds, every acknowledged message has a row that says what it says. */
  lemma AcknowledgedAreStored(w: World)
    requires Invariant(w)
    ensures forall n <- w.acked :: exists row :: row in w.store.raw && Carries(row, w.acked[n])
  {
    hide Accounted, GapsBounded, GapIdApart, Consistent, IdsInUse, RowOf, Carries;
    forall n | n in w.acked ensures exists row :: row in w.store.raw && Carries(row, w.acked[n]) {
      RowCarries(w.acked[n]);
    }
  }

  /** The agent receives messages in the order of their numbers; repeats are of the newest only. */
  lemma ReceivedInOrder(steps: seq<Step>, i: nat, j: nat)
    requires i < j < |RunSteps(START, steps).received|
    ensures RunSteps(START, steps).received[i] <= RunSteps(START, steps).received[j]
  {
    hide Tracked, GapsBounded, RunSteps, Partitioned, Noted, Filed;
    InvariantHolds(steps);
  }

  // ---------------------------------------------------------------- what the agent's log says about losses

  /** A stored gap event covers dropped number `n`. */
  ghost predicate DurablyNoted(s: Store, n: nat) {
    exists row :: row in s.raw && BrowserGap(row) && row.event.payload.lastSequence.Some?
      && n <= row.event.payload.lastSequence.value
  }

  /** The agent already holds the pending gap with the number it has now. */
  ghost predicate StoredAsIs(s: Store, g: GapMessage) {
    exists row :: row in s.raw && row.EventId() == g.gapId && GapRow(row, g.lastSourceSequence)
  }

  /** After a gap is acknowledged the agent's log covers every dropped number, if and only if the gap had not
      grown since it first reached the agent: the agent keeps the first event under an id. */
  lemma AcknowledgedGapCovers(w: World)
    requires Invariant(w) && w.ext.gap.Some? && Storable(w.store, V1(GapEvent(w.ext.gap.value)))
    ensures var after := SendGap(w, Acknowledged);
      (forall n <- after.dropped :: DurablyNoted(after.store, n)) <==>
      (w.ext.gap.value.gapId !in Ids(w.store.raw) || StoredAsIs(w.store, w.ext.gap.value))
  {
    hide Filed, Partitioned, Noted, Ordered, Tracked, GapIdApart, GapsBounded, DurablyNoted;
    hide StoredAsIs, SendGap, Storable, Ids;
    if w.ext.gap.value.gapId !in Ids(w.store.raw) || StoredAsIs(w.store, w.ext.gap.value) {
      TrackedIsConsistent(w);
      StoredGapCovers(w);
    } else {
      GrownGapIsNotStored(w);
    }
  }

  /** An acknowledged gap has one row under its id; if it is new to the agent, the row says what the gap says. */
  lemma GapIsStored(w: World)
    requires Consistent(w.store) && w.ext.gap.Some? && Storable(w.store, V1(GapEvent(w.ext.gap.value)))
    requires w.ext.gap.value.gapId !in Ids(w.store.raw)
    ensures var g, after := w.ext.gap.value, SendGap(w, Acknowledged);
      exists row ::
        && after.store.raw == w.store.raw + [row] && after.ext.gap.None?
        && row.V1? && row.event.eventId == g.gapId && row.event.source == "browser.chromium"
        && row.event.scopeId == "scope.personal" && row.event.sourceSequence == Some(g.lastSourceSequence)
        && row.event.observedAt == g.observedAt && row.event.payload.CollectorGap?
        && row.event.payload.collector == "browser.chromium" && row.event.payload.reason == g.reason
        && row.event.payload.lastSequence == Some(g.lastSourceSequence)
  {
    hide Execute, Storable, Consistent, Ids;
    DeliveredRow(w.store, V1(GapEvent(w.ext.gap.value)));
    assert SendGap(w, Acknowledged).store.raw == w.store.raw + [V1(GapEvent(w.ext.gap.value))];
  }

  /** A gap that the agent has with its present number covers everything dropped so far: no dropped number
      is larger than the pending gap's. */
  lemma StoredGapCovers(w: World)
    requires Noted(w) && Consistent(w.store) && w.ext.gap.Some? && Storable(w.store, V1(GapEvent(w.ext.gap.value)))
    requires w.ext.gap.value.gapId !in Ids(w.store.raw) || StoredAsIs(w.store, w.ext.gap.value)
    ensures var after := SendGap(w, Acknowledged); forall n <- after.dropped :: DurablyNoted(after.store, n)
  {
    hide Execute, Storable, Consistent, Ids;
    var g := w.ext.gap.value;
    var after := SendGap(w, Acknowledged);
    DeliveredRow(w.store, V1(GapEvent(g)));
    var stored: RawRow;
    if g.gapId !in Ids(w.store.raw) {
      stored := V1(GapEvent(g));
    } else {
      stored :| stored in w.store.raw && stored.EventId() == g.gapId && GapRow(stored, g.lastSourceSequence);
    }
    assert stored in after.store.raw && GapRow(stored, g.lastSourceSequence);
    assert forall n <- after.dropped :: n <= g.lastSourceSequence;
  }

  /** A pending gap that grew after it reached the agent leaves the newest dropped number out of the log. */
  lemma GrownGapIsNotStored(w: World)
    requires Tracked(w) && Noted(w) && GapsBounded(w) && w.ext.gap.Some? && w.ext.gap.value.gapId in Ids(w.store.raw)
    requires !StoredAsIs(w.store, w.ext.gap.value)
    requires Storable(w.store, V1(GapEvent(w.ext.gap.value)))
    ensures var after := SendGap(w, Acknowledged);
      && w.ext.gap.value.lastSourceSequence in after.dropped
      && !DurablyNoted(after.store, w.ext.gap.value.lastSourceSequence)
  {
    hide Execute, Storable, Rebuild;
    var g := w.ext.gap.value;
    DeliveredRow(w.store, V1(GapEvent(g)));
    assert SendGap(w, Acknowledged).store.raw == w.store.raw;
  }

  // ---------------------------------------------------------------- a gap that grew after a lost response

  const MIDNIGHT := Time("0000-01-01T00:00:00Z", 0)

  function NthPage(k: nat): Page {
    Page(k, 0, "https://example.org/", "", false, true)
  }

  /** The user looks at the `k`th page; the ids are the first ones not used yet. */
  function Look(k: nat): Step {
    PageSeen(NthPage(k), "tab_activated", true, NewIds(2 * k, 2 * k + 1, MIDNIGHT))
  }

  function Looks(k: nat): seq<Step> {
    if k == 0 then [] else Looks(k - 1) + [Look(k - 1)]
  }

  /** `k` pages are queued while the agent is away. */
  ghost predicate Queues(w: World, k: nat) {
    && w.store == NEW_STORE && w.dropped == {} && w.ext.gap.None?
    && |w.ext.outbox| == k == w.ext.lastSequence
    && (forall id <- w.ext.outbox :: id < 2 * k) && (forall id <- w.issued :: id < 2 * k)
    && w.ext.lastActivePage == (if k == 0 then None else Some(NthPage(k - 1)))
  }

  lemma LookQueues(w: World, k: nat)
    requires Queues(w, k) && k < MAX_OUTBOX_MESSAGES
    ensures Queues(Next(w, Look(k)), k + 1)
  {
    assert NthPage(k).tabId == k;
    assert k > 0 ==> NthPage(k - 1).tabId == k - 1;
  }

  lemma {:induction false} LooksQueue(k: nat)
    requires k <= MAX_OUTBOX_MESSAGES
    ensures Queues(RunSteps(START, Looks(k)), k)
  {
    hide Next, Queues, Look;
    if k == 0 {
      assert Queues(START, 0) by { StartQueues(); }
    } else {
      LooksQueue(k - 1);
      LookQueues(RunSteps(START, Looks(k - 1)), k - 1);
      assert Looks(k)[..|Looks(k)| - 1] == Looks(k - 1);
    }
  }

  lemma StartQueues()
    ensures Queues(START, 0)
  {
  }

  /** With a full outbox one page is dropped, the gap reaches the agent but the response is lost, another page
      is dropped, and the gap, now with the larger number, is acknowledged as a duplicate. */
  function GrownGapRun(): seq<Step> {
    Looks(MAX_OUTBOX_MESSAGES + 1) + [Send(Unacknowledged)] + [Look(MAX_OUTBOX_MESSAGES + 1)] + [Send(Acknowledged)]
  }

  ghost predicate Overflowed(w: World, id: Id, n: nat) {
    && w.ext.gap == Some(GapMessage(id, n, OUTBOX_FULL, MIDNIGHT))
    && |w.ext.outbox| == MAX_OUTBOX_MESSAGES && w.ext.lastSequence == n
  }

  lemma LookOverflows(w: World, k: nat)
    requires || |w.ext.outbox| == MAX_OUTBOX_MESSAGES == k
             || (|w.ext.outbox| == MAX_OUTBOX_MESSAGES == k - 1 && w.ext.gap.Some?)
    requires w.ext.lastActivePage == Some(NthPage(k - 1)) && w.ext.lastSequence == k && Allowed(w, Look(k))
    ensures var after := Next(w, Look(k));
      && after.store == w.store && after.ext.lastActivePage == Some(NthPage(k))
      && after.issued == w.issued + {2 * k, 2 * k + 1}
      && after.dropped == w.dropped + {k + 1} && after.ext.outbox == w.ext.outbox && after.ext.lastSequence == k + 1
      && (w.ext.gap.None? ==> Overflowed(after, 2 * k + 1, k + 1))
      && (w.ext.gap.Some? ==> after.ext.gap == Some(w.ext.gap.value.(lastSourceSequence := k + 1)))
  {
    assert NthPage(k).tabId == k;
    assert NthPage(k - 1).tabId == k - 1;
  }

  lemma GapIsStorable(s: Store, g: GapMessage)
    requires g.observedAt.nanos == 0 && g.lastSourceSequence <= 1000
    ensures Storable(s, V1(GapEvent(g)))
  {
    hide Advance, Ids;
    assert SortKey.Sortable(0);
  }

  /** What an acknowledged gap covers is not always what the agent stored. */
  lemma AcknowledgedGapMayHideALoss()
    ensures var w := RunSteps(START, GrownGapRun());
      w.ext.gap.None? && (exists n :: n in w.dropped && !DurablyNoted(w.store, n))
  {
    hide Next, Invariant, RunSteps, DurablyNoted, SendGap, SentOnce;
    var start := Looks(MAX_OUTBOX_MESSAGES + 1);
    FirstLoss();
    RunOneMore(start, Send(Unacknowledged));
    RunOneMore(start + [Send(Unacknowledged)], Look(MAX_OUTBOX_MESSAGES + 1));
    RunOneMore(start + [Send(Unacknowledged)] + [Look(MAX_OUTBOX_MESSAGES + 1)], Send(Acknowledged));
    InvariantHolds(start + [Send(Unacknowledged)] + [Look(MAX_OUTBOX_MESSAGES + 1)]);
    SecondLoss(RunSteps(START, start + [Send(Unacknowledged)]));
  }

  lemma RunOneMore(steps: seq<Step>, step: Step)
    ensures RunSteps(START, steps + [step]) == Next(RunSteps(START, steps), step)
  {
    hide Next;
    assert (steps + [step])[..|steps|] == steps;
  }

  const FIRST_GAP := GapMessage(2 * MAX_OUTBOX_MESSAGES + 1, MAX_OUTBOX_MESSAGES + 1, OUTBOX_FULL, MIDNIGHT)

  /** One page was dropped and the agent stored the gap, which is still pending. */
  ghost predicate SentOnce(w: World) {
    && w.store.raw == [V1(GapEvent(FIRST_GAP))] && Consistent(w.store)
    && w.ext.gap == Some(FIRST_GAP) && |w.ext.outbox| == MAX_OUTBOX_MESSAGES
    && w.ext.lastActivePage == Some(NthPage(MAX_OUTBOX_MESSAGES)) && w.ext.lastSequence == MAX_OUTBOX_MESSAGES + 1
    && (forall id <- w.issued :: id < 2 * MAX_OUTBOX_MESSAGES + 2)
  }

  lemma LookIsAllowed(w: World, k: nat)
    requires (forall id <- w.issued :: id < 2 * k) && (forall row <- w.store.raw :: row.EventId() < 2 * k)
    ensures Allowed(w, Look(k))
  {
  }

  lemma FirstLoss()
    ensures SentOnce(Next(RunSteps(START, Looks(MAX_OUTBOX_MESSAGES + 1)), Send(Unacknowledged)))
  {
    hide Next, Execute, Storable, RunSteps, DurablyNoted, Consistent, Allowed;
    var k := MAX_OUTBOX_MESSAGES;
    assert Consistent(NEW_STORE) by { NewStoreIsConsistent(); }
    LooksQueue(k);
    RunOneMore(Looks(k), Look(k));
    var w := RunSteps(START, Looks(k));
    LookIsAllowed(w, k);
    LookOverflows(w, k);
    var full := Next(w, Look(k));
    GapReachesAgent(full, Unacknowledged);
  }

  lemma SecondLoss(w: World)
    requires SentOnce(w) && Invariant(Next(w, Look(MAX_OUTBOX_MESSAGES + 1)))
    ensures var after := Next(Next(w, Look(MAX_OUTBOX_MESSAGES + 1)), Send(Acknowledged));
      after.ext.gap.None? && exists n :: n in after.dropped && !DurablyNoted(after.store, n)
  {
    hide Next, Execute, Storable, Invariant, DurablyNoted;
    assert V1(GapEvent(FIRST_GAP)).EventId() < 2 * MAX_OUTBOX_MESSAGES + 2;
    LookOverflows(w, MAX_OUTBOX_MESSAGES + 1);
    var full := Next(w, Look(MAX_OUTBOX_MESSAGES + 1));
    GapReachesAgent(full, Acknowledged);
    LostNumber(full, MAX_OUTBOX_MESSAGES + 1, MAX_OUTBOX_MESSAGES + 2);
  }

  lemma GapReachesAgent(w: World, outcome: Outcome)
    requires w.ext.gap.Some? && w.ext.gap.value.observedAt == MIDNIGHT && w.ext.gap.value.lastSourceSequence <= 1000
    requires outcome != NotDelivered && Consistent(w.store)
    ensures Next(w, Send(outcome)) == SendGap(w, outcome) && Storable(w.store, V1(GapEvent(w.ext.gap.value)))
    ensures SendGap(w, outcome).store.raw ==
            (if w.ext.gap.value.gapId in Ids(w.store.raw) then w.store.raw
             else w.store.raw + [V1(GapEvent(w.ext.gap.value))])
    ensures Consistent(SendGap(w, outcome).store)
  {
    hide Execute, Storable, Consistent, Ids;
    GapIsStorable(w.store, w.ext.gap.value);
    DeliveredRow(w.store, V1(GapEvent(w.ext.gap.value)));
  }

  lemma LostNumber(w: World, first: nat, n: nat)
    requires Invariant(w) && w.ext.gap.Some? && w.ext.gap.value.lastSourceSequence == n != first
    requires w.store.raw == [V1(GapEvent(w.ext.gap.value.(lastSourceSequence := first)))]
    requires Storable(w.store, V1(GapEvent(w.ext.gap.value)))
    ensures n in SendGap(w, Acknowledged).dropped && !DurablyNoted(SendGap(w, Acknowledged).store, n)
  {
    hide Execute, Storable, Filed, Partitioned, Ordered;
    assert w.store.raw[0] in w.store.raw;
    GrownGapIsNotStored(w);
  }
}
