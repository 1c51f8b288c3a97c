/**
  Fetching Screenpipe frames: two text sources are searched, candidates at or before the cursor are skipped,
  and candidates of one frame are merged in place, in order of arrival.
 */
module ScreenFrames {
  import opened Wrappers
  import opened Text

  datatype TextSource = Accessibility | Ocr
  {
    function Priority(): nat { if Accessibility? then 2 else 1 }
  }

  datatype Frame = Frame(
    frameId: nat, capturedAt: int, appName: Option<string>, windowName: Option<string>, text: string,
    source: TextSource, focused: Option<bool>)

  datatype ScreenCursor = ScreenCursor(frameId: nat, capturedAt: int)

  datatype FetchError = SourceCursorReset(lastFrameId: nat) | SearchFailed(source: TextSource)

  function FromFrame(f: Frame): ScreenCursor {
    ScreenCursor(f.frameId, f.capturedAt)
  }

  // ---------------------------------------------------------------- merging the candidates of one frame

  predicate Empty(name: Option<string>) {
    name.None? || name.value == ""
  }

  /** `merge_candidate`. */
  method MergeCandidate(existing: Frame, candidate: Frame) returns (merged: Frame)
    ensures merged == Merge(existing, candidate)
  {
    merged := existing;
    var existingHasText, candidateHasText := !Blank(existing.text), !Blank(candidate.text);
    if (!existingHasText && candidateHasText)
       || (candidateHasText && candidate.source.Priority() > existing.source.Priority())
    {
      merged := merged.(text := candidate.text, source := candidate.source);
    }
    if Empty(merged.appName) { merged := merged.(appName := candidate.appName); }
    if Empty(merged.windowName) { merged := merged.(windowName := candidate.windowName); }
    if merged.focused.None? { merged := merged.(focused := candidate.focused); }
    if candidate.capturedAt > merged.capturedAt { merged := merged.(capturedAt := candidate.capturedAt); }
  }

  /** The candidate's text is better: there was none, or it comes from a source of higher priority. */
  predicate Better(existing: Frame, candidate: Frame) {
    !Blank(candidate.text) && (Blank(existing.text) || candidate.source.Priority() > existing.source.Priority())
  }

  function Merge(existing: Frame, candidate: Frame): Frame {
    Frame(existing.frameId,
          if candidate.capturedAt > existing.capturedAt then candidate.capturedAt else existing.capturedAt,
          if Empty(existing.appName) then candidate.appName else existing.appName,
          if Empty(existing.windowName) then candidate.windowName else existing.windowName,
          if Better(existing, candidate) then candidate.text else existing.text,
          if Better(existing, candidate) then candidate.source else existing.source,
          if existing.focused.None? then candidate.focused else existing.focused)
  }

  function MergeAll(candidates: seq<Frame>): Frame
    requires |candidates| > 0
  {
    if |candidates| == 1 then candidates[0]
    else Merge(MergeAll(candidates[..|candidates| - 1]), candidates[|candidates| - 1])
  }

  /** The first text that is not blank, of the highest priority. */
  ghost predicate BestText(candidates: seq<Frame>, i: int) {
    && 0 <= i < |candidates| && !Blank(candidates[i].text)
    && (forall j :: 0 <= j < |candidates| && !Blank(candidates[j].text) ==>
          candidates[j].source.Priority() <= candidates[i].source.Priority())
    && (forall j :: 0 <= j < i && !Blank(candidates[j].text) ==>
          candidates[j].source.Priority() < candidates[i].source.Priority())
  }

  ghost predicate TextOf(candidates: seq<Frame>, merged: Frame)
    requires |candidates| > 0
  {
    if forall j :: 0 <= j < |candidates| ==> Blank(candidates[j].text)
    then merged.text == candidates[0].text && merged.source == candidates[0].source
    else
      exists i :: (0 <= i < |candidates| && BestText(candidates, i)
                   && merged.text == candidates[i].text && merged.source == candidates[i].source)
  }

  /** The latest capture time of any candidate. */
  ghost predicate LatestTime(candidates: seq<Frame>, time: int) {
    && (exists i :: 0 <= i < |candidates| && candidates[i].capturedAt == time)
    && (forall i :: 0 <= i < |candidates| ==> candidates[i].capturedAt <= time)
  }

  /** A merged frame carries the maximum capture time. */
  lemma {:induction false} MergedTime(candidates: seq<Frame>)
    requires |candidates| > 0
    ensures LatestTime(candidates, MergeAll(candidates).capturedAt)
  {
    hide Better;
    if |candidates| > 1 {
      var init := candidates[..|candidates| - 1];
      MergedTime(init);
      var i :| 0 <= i < |init| && init[i].capturedAt == MergeAll(init).capturedAt;
      assert candidates[i].capturedAt == MergeAll(init).capturedAt;
    }
  }

  /** A merged frame carries the first non-blank text of the highest priority, or a blank one if all are. */
  lemma {:induction false} MergedText(candidates: seq<Frame>)
    requires |candidates| > 0
    ensures TextOf(candidates, MergeAll(candidates))
  {
    hide Blank, TextOf, Merge;
    if |candidates| > 1 {
      MergedText(candidates[..|candidates| - 1]);
      OneMoreText(candidates[..|candidates| - 1], MergeAll(candidates[..|candidates| - 1]),
                  candidates[|candidates| - 1]);
      assert candidates[..|candidates| - 1] + [candidates[|candidates| - 1]] == candidates;
    } else {
      OnlyText(candidates);
    }
  }

  lemma OnlyText(candidates: seq<Frame>)
    requires |candidates| == 1
    ensures TextOf(candidates, candidates[0])
  {
    hide Blank;
    if !Blank(candidates[0].text) { assert BestText(candidates, 0); }
  }

  lemma OneMoreText(init: seq<Frame>, merged: Frame, candidate: Frame)
    requires |init| > 0 && TextOf(init, merged)
    ensures TextOf(init + [candidate], Merge(merged, candidate))
  {
    hide Blank, BestText;
    var candidates := init + [candidate];
    assert candidates[|init|] == candidate && forall j :: 0 <= j < |init| ==> candidates[j] == init[j];
    if forall j :: 0 <= j < |init| ==> Blank(init[j].text) {
      if !Blank(candidate.text) { FirstText(init, candidate); }
    } else {
      var i :| 0 <= i < |init| && BestText(init, i) && merged.text == init[i].text && merged.source == init[i].source;
      BetterText(init, candidate, i);
      assert BestText(candidates, if Better(init[i], candidate) then |init| else i);
    }
  }

  lemma FirstText(init: seq<Frame>, candidate: Frame)
    requires !Blank(candidate.text) && forall j :: 0 <= j < |init| ==> Blank(init[j].text)
    ensures BestText(init + [candidate], |init|)
  {
    hide Blank;
  }

  lemma BetterText(init: seq<Frame>, candidate: Frame, i: int)
    requires BestText(init, i)
    ensures 0 <= i < |init| && !Blank(init[i].text)
    ensures BestText(init + [candidate], if Better(init[i], candidate) then |init| else i)
  {
    hide Blank;
  }

  /** Any accessibility text beats all OCR text: the merged frame has the first accessibility text that is not blank,
      if there is one, and otherwise the first OCR text that is not blank. */
  lemma AccessibilityBeatsOcr(candidates: seq<Frame>, i: nat)
    requires i < |candidates| && !Blank(candidates[i].text)
    requires candidates[i].source.Accessibility? || forall j :: 0 <= j < |candidates| && !Blank(candidates[j].text) ==>
                                                                  candidates[j].source.Ocr?
    requires forall j :: 0 <= j < i && candidates[j].source == candidates[i].source ==> Blank(candidates[j].text)
    ensures MergeAll(candidates).text == candidates[i].text && MergeAll(candidates).source == candidates[i].source
  {
    hide Blank, MergeAll;
    MergedText(candidates);
    var k :| 0 <= k < |candidates| && BestText(candidates, k)
             && MergeAll(candidates).text == candidates[k].text && MergeAll(candidates).source == candidates[k].source;
    assert candidates[k].source == candidates[i].source;
    assert k == i;
  }

  /** The first name that is not empty, or the last if all are. */
  ghost predicate FirstNamed(names: seq<Option<string>>, name: Option<string>)
    requires |names| > 0
  {
    if forall i :: 0 <= i < |names| ==> Empty(names[i]) then name == names[|names| - 1]
    else
      exists i :: (0 <= i < |names| && !Empty(names[i]) && name == names[i]
                   && forall j :: 0 <= j < i ==> Empty(names[j]))
  }

  lemma OneMoreName(names: seq<Option<string>>, name: Option<string>, next: Option<string>)
    requires |names| > 0 && FirstNamed(names, name)
    ensures FirstNamed(names + [next], if Empty(name) then next else name)
  {
    hide Empty;
    var longer := names + [next];
    assert longer[|names|] == next && forall j :: 0 <= j < |names| ==> longer[j] == names[j];
  }

  function Apps(candidates: seq<Frame>): seq<Option<string>> {
    seq(|candidates|, i requires 0 <= i < |candidates| => candidates[i].appName)
  }

  function Windows(candidates: seq<Frame>): seq<Option<string>> {
    seq(|candidates|, i requires 0 <= i < |candidates| => candidates[i].windowName)
  }

  /** The names come from the first candidates that have them. */
  lemma {:induction false} MergedNames(candidates: seq<Frame>)
    requires |candidates| > 0
    ensures FirstNamed(Apps(candidates), MergeAll(candidates).appName)
    ensures FirstNamed(Windows(candidates), MergeAll(candidates).windowName)
  {
    hide Better, Empty, FirstNamed;
    if |candidates| > 1 {
      var init, last := candidates[..|candidates| - 1], candidates[|candidates| - 1];
      MergedNames(init);
      assert Apps(candidates) == Apps(init) + [last.appName];
      assert Windows(candidates) == Windows(init) + [last.windowName];
      OneMoreName(Apps(init), MergeAll(init).appName, last.appName);
      OneMoreName(Windows(init), MergeAll(init).windowName, last.windowName);
    } else {
      OnlyName(Apps(candidates));
      OnlyName(Windows(candidates));
    }
  }

  /** The first value of the focus flag that is known, if any is. */
  ghost predicate FirstKnown(candidates: seq<Frame>, focused: Option<bool>) {
    if forall i :: 0 <= i < |candidates| ==> candidates[i].focused.None? then focused.None?
    else
      exists i :: (0 <= i < |candidates| && candidates[i].focused.Some? && focused == candidates[i].focused
                   && forall j :: 0 <= j < i ==> candidates[j].focused.None?)
  }

  lemma {:induction false} MergedFocus(candidates: seq<Frame>)
    requires |candidates| > 0
    ensures FirstKnown(candidates, MergeAll(candidates).focused)
  {
    hide Better, Empty;
    if |candidates| > 1 {
      MergedFocus(candidates[..|candidates| - 1]);
      assert forall i :: 0 <= i < |candidates| - 1 ==> candidates[i] == candidates[..|candidates| - 1][i];
    }
  }

  lemma OnlyName(names: seq<Option<string>>)
    requires |names| == 1
    ensures FirstNamed(names, names[0])
  {
  }

  // ---------------------------------------------------------------- fetching

  predicate After(cursor: Option<ScreenCursor>, frameId: nat) {
    cursor.None? || frameId > cursor.value.frameId
  }

  /** The candidates of one frame, in order of arrival. */
  function CandidatesOf(candidates: seq<Frame>, frameId: nat): seq<Frame> {
    if |candidates| == 0 then []
    else
      var last := candidates[|candidates| - 1];
      CandidatesOf(candidates[..|candidates| - 1], frameId) + (if last.frameId == frameId then [last] else [])
  }

  /** Something newer was captured, but under no id beyond the cursor's: the source started again. */
  ghost predicate CursorReset(cursor: Option<ScreenCursor>, candidates: seq<Frame>) {
    && cursor.Some?
    && (exists f :: f in candidates && f.capturedAt > cursor.value.capturedAt && f.frameId <= cursor.value.frameId)
    && (forall f <- candidates :: f.frameId <= cursor.value.frameId)
  }

  /** One merged frame for every id after the cursor, in ascending order. */
  ghost predicate Fetched(cursor: Option<ScreenCursor>, candidates: seq<Frame>, frames: seq<Frame>) {
    && (forall i, j :: 0 <= i < j < |frames| ==> frames[i].frameId < frames[j].frameId)
    && (forall f <- frames :: IsMerged(cursor, candidates, f))
    && (forall c <- candidates :: After(cursor, c.frameId) ==> exists f :: f in frames && f.frameId == c.frameId)
  }

  predicate IsMerged(cursor: Option<ScreenCursor>, candidates: seq<Frame>, f: Frame) {
    && After(cursor, f.frameId) && CandidatesOf(candidates, f.frameId) != []
    && f == MergeAll(CandidatesOf(candidates, f.frameId))
  }

  /** The map after `done` candidates. */
  ghost predicate Grouped(cursor: Option<ScreenCursor>, done: seq<Frame>, byFrame: map<nat, Frame>) {
    && (forall id <- byFrame :: byFrame[id].frameId == id && IsMerged(cursor, done, byFrame[id]))
    && (forall c <- done :: After(cursor, c.frameId) ==> c.frameId in byFrame)
  }

  lemma {:induction false} CandidatesHaveId(candidates: seq<Frame>, frameId: nat)
    ensures forall f <- CandidatesOf(candidates, frameId) :: f.frameId == frameId
    ensures CandidatesOf(candidates, frameId) == [] <==> forall f <- candidates :: f.frameId != frameId
  {
    if |candidates| > 0 {
      CandidatesHaveId(candidates[..|candidates| - 1], frameId);
    }
  }

  lemma {:induction false} MergedId(candidates: seq<Frame>)
    requires |candidates| > 0
    ensures MergeAll(candidates).frameId == candidates[0].frameId
  {
    hide Better;
    if |candidates| > 1 { MergedId(candidates[..|candidates| - 1]); }
  }

  function Grow(cursor: Option<ScreenCursor>, byFrame: map<nat, Frame>, c: Frame): map<nat, Frame> {
    if !After(cursor, c.frameId) then byFrame
    else byFrame[c.frameId := if c.frameId in byFrame then Merge(byFrame[c.frameId], c) else c]
  }

  lemma GrowKeepsGrouped(cursor: Option<ScreenCursor>, done: seq<Frame>, byFrame: map<nat, Frame>, c: Frame)
    requires Grouped(cursor, done, byFrame)
    ensures Grouped(cursor, done + [c], Grow(cursor, byFrame, c))
  {
    hide Merge, MergeAll;
    var more, grown := done + [c], Grow(cursor, byFrame, c);
    assert more[..|done|] == done && more[|done|] == c;
    forall id | id in grown ensures grown[id].frameId == id && IsMerged(cursor, more, grown[id]) {
      var before, after := CandidatesOf(done, id), CandidatesOf(more, id);
      if id == c.frameId {
        assert after == before + [c];
        CandidatesHaveId(done, id);
        OneMoreCandidate(before, c);
      } else {
        assert after == before;
      }
    }
  }

  lemma OneMoreCandidate(before: seq<Frame>, c: Frame)
    requires forall f <- before :: f.frameId == c.frameId
    ensures MergeAll(before + [c]) == (if before == [] then c else Merge(MergeAll(before), c))
    ensures MergeAll(before + [c]).frameId == c.frameId
  {
    hide Merge;
    if before != [] { assert (before + [c])[..|before|] == before; }
    MergedId(before + [c]);
    assert before != [] ==> (before + [c])[0] in before;
  }

  /** Part of the map has been taken. */
  ghost predicate Taken(frames: seq<Frame>, rest: map<nat, Frame>, byFrame: map<nat, Frame>) {
    && (forall id <- rest :: id in byFrame && rest[id] == byFrame[id])
    && (forall id <- byFrame :: id in rest || byFrame[id] in frames)
    && (forall f <- frames :: f.frameId in byFrame && byFrame[f.frameId] == f)
  }

  /** The part taken ascends and comes before the rest. */
  ghost predicate Before(frames: seq<Frame>, rest: map<nat, Frame>) {
    && (forall f, id :: f in frames && id in rest ==> f.frameId < id)
    && (forall i, j :: 0 <= i < j < |frames| ==> frames[i].frameId < frames[j].frameId)
  }

  predicate Smallest(ids: set<nat>, id: nat) {
    id in ids && forall other :: other in ids ==> id <= other
  }

  lemma TakeSmallest(frames: seq<Frame>, rest: map<nat, Frame>, byFrame: map<nat, Frame>, id: nat)
    requires forall k <- byFrame :: byFrame[k].frameId == k
    requires Taken(frames, rest, byFrame) && Before(frames, rest) && id in rest && Smallest(rest.Keys, id)
    ensures Taken(frames + [rest[id]], rest - {id}, byFrame) && Before(frames + [rest[id]], rest - {id})
  {
    assert rest[id].frameId == id;
    StillTaken(frames, rest, byFrame, id);
    StillBefore(frames, rest, rest[id]);
  }

  lemma StillTaken(frames: seq<Frame>, rest: map<nat, Frame>, byFrame: map<nat, Frame>, id: nat)
    requires Taken(frames, rest, byFrame) && id in rest && rest[id].frameId == id
    ensures Taken(frames + [rest[id]], rest - {id}, byFrame)
  {
    var f := rest[id];
    var longer := frames + [f];
    assert forall other :: other in longer <==> other in frames || other == f;
  }

  lemma StillBefore(frames: seq<Frame>, rest: map<nat, Frame>, f: Frame)
    requires Before(frames, rest) && f.frameId in rest && Smallest(rest.Keys, f.frameId)
    ensures Before(frames + [f], rest - {f.frameId})
  {
    var longer, fewer := frames + [f], rest - {f.frameId};
    forall g, id | g in longer && id in fewer ensures g.frameId < id {
      assert id in rest.Keys && (g in frames || g == f);
    }
    forall i, j | 0 <= i < j < |longer| ensures longer[i].frameId < longer[j].frameId {
      assert longer[i] == frames[i] && frames[i] in frames;
      assert j < |frames| ==> longer[j] == frames[j];
    }
  }

  /** `BTreeMap::into_values`: the frames by ascending id. */
  method IntoValues(byFrame: map<nat, Frame>) returns (frames: seq<Frame>)
    requires forall id <- byFrame :: byFrame[id].frameId == id
    ensures Taken(frames, map[], byFrame) && Before(frames, map[])
  {
    var rest := byFrame;
    frames := [];
    while rest != map[]
      invariant Taken(frames, rest, byFrame) && Before(frames, rest)
      decreases |rest|
    {
      hide Taken, Before, Smallest;
      assert rest.Keys != {} by { var id :| id in rest; }
      SmallestExists(rest.Keys);
      var id :| id in rest && Smallest(rest.Keys, id);
      TakeSmallest(frames, rest, byFrame, id);
      frames := frames + [rest[id]];
      rest := rest - {id};
    }
  }

  lemma {:induction false} SmallestExists(ids: set<nat>)
    requires ids != {}
    ensures exists id :: id in ids && Smallest(ids, id)
  {
    var some :| some in ids;
    var rest := ids - {some};
    assert forall other :: other in ids && other != some ==> other in rest;
    if rest == {} {
      assert Smallest(ids, some);
    } else {
      SmallestExists(rest);
      var id :| id in rest && Smallest(rest, id);
      assert Smallest(ids, if id < some then id else some);
    }
  }

  /** `fetch_frames_since`, given what the two searches returned. */
  method FetchFramesSince(cursor: Option<ScreenCursor>, accessibility: Option<seq<Frame>>, ocr: Option<seq<Frame>>)
    returns (r: Result<seq<Frame>, FetchError>)
    ensures accessibility.None? ==> r == Err(SearchFailed(Accessibility))
    ensures accessibility.Some? && ocr.None? ==> r == Err(SearchFailed(Ocr))
    ensures accessibility.Some? && ocr.Some? ==>
              var candidates := accessibility.value + ocr.value;
              && (r.Err? <==> CursorReset(cursor, candidates))
              && (r.Err? ==> r.error == SourceCursorReset(cursor.value.frameId))
              && (r.Ok? ==> Fetched(cursor, candidates, r.value))
  {
    hide Merge, CandidatesOf;
    if accessibility.None? { return Err(SearchFailed(Accessibility)); }
    if ocr.None? { return Err(SearchFailed(Ocr)); }
    var candidates := accessibility.value + ocr.value;
    if cursor.Some? {
      var hasNewerTimestamp :=
        exists f :: f in candidates && f.capturedAt > cursor.value.capturedAt && f.frameId <= cursor.value.frameId;
      var hasNewerId := exists f :: f in candidates && f.frameId > cursor.value.frameId;
      if hasNewerTimestamp && !hasNewerId { return Err(SourceCursorReset(cursor.value.frameId)); }
    }
    var byFrame: map<nat, Frame> := map[];
    for i := 0 to |candidates|
      invariant Grouped(cursor, candidates[..i], byFrame)
    {
      var candidate := candidates[i];
      GrowKeepsGrouped(cursor, candidates[..i], byFrame, candidate);
      assert candidates[..i] + [candidate] == candidates[..i + 1];
      if !After(cursor, candidate.frameId) { continue; }
      if candidate.frameId in byFrame {
        var merged := MergeCandidate(byFrame[candidate.frameId], candidate);
        byFrame := byFrame[candidate.frameId := merged];
      } else {
        byFrame := byFrame[candidate.frameId := candidate];
      }
    }
    assert candidates[..|candidates|] == candidates;
    var frames := IntoValues(byFrame);
    return Ok(frames);
  }

  /** A fetched frame's capture time is the latest, and its text the best, among all candidates under its id. */
  lemma FetchedFrame(cursor: Option<ScreenCursor>, candidates: seq<Frame>, frames: seq<Frame>, f: Frame)
    requires Fetched(cursor, candidates, frames) && f in frames
    ensures CandidatesOf(candidates, f.frameId) != []
    ensures LatestTime(CandidatesOf(candidates, f.frameId), f.capturedAt)
    ensures TextOf(CandidatesOf(candidates, f.frameId), f)
    ensures FirstNamed(Apps(CandidatesOf(candidates, f.frameId)), f.appName)
    ensures FirstNamed(Windows(CandidatesOf(candidates, f.frameId)), f.windowName)
    ensures FirstKnown(CandidatesOf(candidates, f.frameId), f.focused)
  {
    hide MergeAll, CandidatesOf, TextOf, LatestTime, FirstNamed, FirstKnown;
    var own := CandidatesOf(candidates, f.frameId);
    assert IsMerged(cursor, candidates, f);
    MergedTime(own);
    MergedText(own);
    MergedNames(own);
    MergedFocus(own);
  }
}
