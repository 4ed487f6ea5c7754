/** The editor page: the displayed colour and opacity maps, the session, and
    the linear edit history with its cursor. Each handler is a pure
    transition from one editor state to the next plus the log lines it
    writes. The key type `K` of the maps is left open: the page keeps
    whatever keys its callers produce. */
module Editor {
  import opened Wrappers
  import opened Color

  /** One history entry: copies of both maps. */
  datatype Snapshot<K> = Snapshot(colorMap: map<K, Rgb>, opacityMap: map<K, real>)

  /** The log lines the handlers write (the texts are fixed per kind). */
  datatype Notice =
    | InvalidImage | SessionStarted(sessionId: string) | EditingMask(maskUrl: string) | UploadFailed
    | NothingToReset | ResetDone
    | Undone | NothingToUndo | Redone | NothingToRedo
    | SaveWithoutSession | NothingToSave | Saved
    | LoadWithoutSession | LoadDone | LoadFailed

  datatype EditorState<K> = EditorState(
    history: seq<Snapshot<K>>,
    index: int,
    colorMap: map<K, Rgb>,
    opacityMap: map<K, real>,
    sessionId: string,
    imageUrl: string,
    maskUrl: string)
  {
    /** The maps on display. */
    function Current(): Snapshot<K> {
      Snapshot(colorMap, opacityMap)
    }
  }

  /** A handler's result: the next state and the lines logged. */
  datatype Step<K> = Step(state: EditorState<K>, notices: seq<Notice>)

  /** No history (cursor -1), empty maps, no session and no image. */
  function Initial<K>(): EditorState<K>
  {
    EditorState([], -1, map[], map[], "", "", "")
  }

  /** The cursor is -1 exactly when the history is empty and otherwise points
      at an entry, and that entry is what is on display. */
  ghost predicate Valid<K>(e: EditorState<K>) {
    && -1 <= e.index < |e.history|
    && (e.index == -1 <==> |e.history| == 0)
    && (e.index >= 0 ==> e.history[e.index] == e.Current())
  }

  lemma InitialValid<K>()
    ensures Valid(Initial<K>())
  {
  }

  /** `array.slice(0, end)`: a negative end counts from the back, and the end
      is cut to the length. */
  function SliceTo<T>(s: seq<T>, end: int): (r: seq<T>)
    ensures 0 <= end <= |s| ==> r == s[..end]
  {
    if end < 0 then (if |s| + end < 0 then [] else s[..|s| + end])
    else if end > |s| then s
    else s[..end]
  }

  /** `r` is `e` after the maps were set to `s` and `s` was pushed: the entries
      up to the old cursor stay, `s` follows them, the cursor moves onto it,
      and the session is untouched. */
  ghost predicate PushedAndShown<K>(e: EditorState<K>, r: EditorState<K>, s: Snapshot<K>) {
    && -1 <= e.index < |e.history|
    && |r.history| == e.index + 2
    && (forall i :: 0 <= i <= e.index ==> r.history[i] == e.history[i])
    && r.history[e.index + 1] == s
    && r.index == e.index + 1
    && r.Current() == s
    && r.sessionId == e.sessionId && r.imageUrl == e.imageUrl && r.maskUrl == e.maskUrl
  }

  /** `pushHistory`: keep the entries up to the cursor, append the snapshot and
      move the cursor to the new last entry. The maps are not touched. */
  function PushHistory<K>(e: EditorState<K>, s: Snapshot<K>): (r: EditorState<K>)
    ensures r.index == |r.history| - 1
    ensures -1 <= e.index < |e.history| ==>
      && |r.history| == e.index + 2
      && (forall i :: 0 <= i <= e.index ==> r.history[i] == e.history[i])
      && r.history[e.index + 1] == s
    ensures r.Current() == e.Current()
    ensures r.sessionId == e.sessionId && r.imageUrl == e.imageUrl && r.maskUrl == e.maskUrl
  {
    var updated := SliceTo(e.history, e.index + 1) + [s];
    e.(history := updated, index := |updated| - 1)
  }

  /** `setColorMap(s.colorMap); setOpacityMap(s.opacityMap); pushHistory(s)`:
      the pattern every editing handler follows. */
  function ShowAndPush<K>(e: EditorState<K>, s: Snapshot<K>): (r: EditorState<K>)
    requires Valid(e)
    ensures Valid(r)
    ensures PushedAndShown(e, r, s)
  {
    PushHistory(e.(colorMap := s.colorMap, opacityMap := s.opacityMap), s)
  }

  /** `applyHistory(i)`: show entry `i` if there is one. */
  function ApplyHistory<K>(e: EditorState<K>, i: int): (r: EditorState<K>)
    ensures 0 <= i < |e.history| ==> r.Current() == e.history[i]
    ensures !(0 <= i < |e.history|) ==> r == e
    ensures r.history == e.history && r.index == e.index
    ensures r.sessionId == e.sessionId && r.imageUrl == e.imageUrl && r.maskUrl == e.maskUrl
  {
    if 0 <= i < |e.history| then
      e.(colorMap := e.history[i].colorMap, opacityMap := e.history[i].opacityMap)
    else e
  }

  /** The sidebar's colour callback: show the new colour map and push it with
      the current opacity map. */
  function EditColor<K>(e: EditorState<K>, newMap: map<K, Rgb>): (r: EditorState<K>)
    requires Valid(e)
    ensures Valid(r)
    ensures PushedAndShown(e, r, Snapshot(newMap, e.opacityMap))
  {
    ShowAndPush(e, Snapshot(newMap, e.opacityMap))
  }

  /** The sidebar's opacity callback: show the new opacity map and push it
      with the current colour map. */
  function EditOpacity<K>(e: EditorState<K>, newMap: map<K, real>): (r: EditorState<K>)
    requires Valid(e)
    ensures Valid(r)
    ensures PushedAndShown(e, r, Snapshot(e.colorMap, newMap))
  {
    ShowAndPush(e, Snapshot(e.colorMap, newMap))
  }

  /** `handleUndo`: step back when there is an entry before the cursor. */
  function Undo<K>(e: EditorState<K>): (r: Step<K>)
    ensures e.index > 0 ==>
      && r.state.history == e.history
      && r.state.index == e.index - 1
      && (e.index - 1 < |e.history| ==> r.state.Current() == e.history[e.index - 1])
      && r.state.sessionId == e.sessionId && r.state.imageUrl == e.imageUrl && r.state.maskUrl == e.maskUrl
      && r.notices == [Undone]
    ensures e.index <= 0 ==> r == Step(e, [NothingToUndo])
    ensures Valid(e) ==> Valid(r.state)
  {
    if e.index > 0 then
      var newIndex := e.index - 1;
      Step(ApplyHistory(e.(index := newIndex), newIndex), [Undone])
    else
      Step(e, [NothingToUndo])
  }

  /** `handleRedo`: step forward when there is an entry after the cursor. */
  function Redo<K>(e: EditorState<K>): (r: Step<K>)
    ensures e.index + 1 < |e.history| ==>
      && r.state.history == e.history
      && r.state.index == e.index + 1
      && (0 <= e.index + 1 ==> r.state.Current() == e.history[e.index + 1])
      && r.state.sessionId == e.sessionId && r.state.imageUrl == e.imageUrl && r.state.maskUrl == e.maskUrl
      && r.notices == [Redone]
    ensures e.index + 1 >= |e.history| ==> r == Step(e, [NothingToRedo])
    ensures Valid(e) ==> Valid(r.state)
  {
    if e.index + 1 < |e.history| then
      var newIndex := e.index + 1;
      Step(ApplyHistory(e.(index := newIndex), newIndex), [Redone])
    else
      Step(e, [NothingToRedo])
  }

  /** `handleReset`: without a session nothing happens; otherwise the default
      maps are shown and pushed, so a reset can itself be undone. */
  function Reset<K>(e: EditorState<K>, defaults: Snapshot<K>): (r: Step<K>)
    requires Valid(e)
    ensures Valid(r.state)
    ensures e.sessionId == "" ==> r == Step(e, [NothingToReset])
    ensures e.sessionId != "" ==> PushedAndShown(e, r.state, defaults) && r.notices == [ResetDone]
  {
    if e.sessionId == "" then Step(e, [NothingToReset])
    else Step(ShowAndPush(e, defaults), [ResetDone])
  }

  /** What the segmentation service answers for an uploaded image. */
  datatype SegmentResponse = SegmentResponse(sessionId: string, maskUrl: string)

  /** `handleUpload`. `fileSize` is `None` when no file was given, `response`
      is `None` when the request fails, and `objectUrl` is the URL the browser
      makes for the file. A missing or empty file and a failed request change
      nothing. Otherwise the new image and session are shown with the default
      maps, which are pushed on top of the existing history: the entries of
      the previous image stay and can be undone into. */
  function Upload<K>(e: EditorState<K>, fileSize: Option<nat>, response: Option<SegmentResponse>,
                     objectUrl: string, defaults: Snapshot<K>): (r: Step<K>)
    requires Valid(e)
    ensures Valid(r.state)
    ensures fileSize == None || fileSize == Some(0) ==> r == Step(e, [InvalidImage])
    ensures fileSize.Some? && fileSize.value > 0 && response.None? ==> r == Step(e, [UploadFailed])
    ensures fileSize.Some? && fileSize.value > 0 && response.Some? ==>
      && PushedAndShown(e.(sessionId := response.value.sessionId, imageUrl := objectUrl,
                           maskUrl := response.value.maskUrl), r.state, defaults)
      && r.state.sessionId == response.value.sessionId
      && r.state.imageUrl == objectUrl
      && r.state.maskUrl == response.value.maskUrl
      && r.notices == [SessionStarted(response.value.sessionId), EditingMask(response.value.maskUrl)]
  {
    match fileSize
    case None => Step(e, [InvalidImage])
    case Some(size) =>
      if size == 0 then Step(e, [InvalidImage])
      else
        match response
        case None => Step(e, [UploadFailed])
        case Some(resp) =>
          var shown := e.(imageUrl := objectUrl, maskUrl := resp.maskUrl, sessionId := resp.sessionId);
          Step(ShowAndPush(shown, defaults), [SessionStarted(resp.sessionId), EditingMask(resp.maskUrl)])
  }

  /** What `saveSession` is called with. */
  datatype SaveRequest<K> = SaveRequest(sessionId: string, colorMap: map<K, Rgb>, opacityMap: map<K, real>)

  /** `handleSave`: never changes the state. Without a session, or with both
      maps empty, nothing is sent; otherwise the maps on display are sent.
      The request's own failure is swallowed, so success is always logged. */
  function Save<K>(e: EditorState<K>): (r: (Step<K>, Option<SaveRequest<K>>))
    ensures r.0.state == e
    ensures r.1.None? <==> e.sessionId == "" || (|e.colorMap| == 0 && |e.opacityMap| == 0)
    ensures r.1.Some? ==> r.1.value == SaveRequest(e.sessionId, e.colorMap, e.opacityMap) && r.0.notices == [Saved]
    ensures e.sessionId == "" ==> r.0.notices == [SaveWithoutSession]
    ensures e.sessionId != "" && |e.colorMap| == 0 && |e.opacityMap| == 0 ==> r.0.notices == [NothingToSave]
  {
    if e.sessionId == "" then (Step(e, [SaveWithoutSession]), None)
    else if |e.colorMap| == 0 && |e.opacityMap| == 0 then (Step(e, [NothingToSave]), None)
    else (Step(e, [Saved]), Some(SaveRequest(e.sessionId, e.colorMap, e.opacityMap)))
  }

  /** `handleLoad`. `loaded` is what `loadSession` returned (`None` for
      `null`); it is only asked for when there is a session. A loaded session
      is shown and pushed; a failed load changes nothing. */
  function Load<K>(e: EditorState<K>, loaded: Option<Snapshot<K>>): (r: Step<K>)
    requires Valid(e)
    ensures Valid(r.state)
    ensures e.sessionId == "" ==> r == Step(e, [LoadWithoutSession])
    ensures e.sessionId != "" && loaded.None? ==> r == Step(e, [LoadFailed])
    ensures e.sessionId != "" && loaded.Some? ==> PushedAndShown(e, r.state, loaded.value) && r.notices == [LoadDone]
  {
    if e.sessionId == "" then Step(e, [LoadWithoutSession])
    else
      match loaded
      case None => Step(e, [LoadFailed])
      case Some(s) => Step(ShowAndPush(e, s), [LoadDone])
  }

  /** `Math.max(lo, Math.min(hi, v))`. */
  function Clamp(lo: real, hi: real, v: real): (r: real)
    requires lo <= hi
    ensures lo <= r <= hi
    ensures lo <= v <= hi ==> r == v
    ensures v < lo ==> r == lo
    ensures v > hi ==> r == hi
  {
    if v < lo then lo else if v > hi then hi else v
  }

  /** The width of the before-image pane, in percent, while dragging the
      vertical splitter. */
  function BeforeWidthOnMove(clientX: real, innerWidth: real): (w: real)
    requires innerWidth > 0.0
    ensures 10.0 <= w <= 90.0
    ensures 10.0 <= clientX / innerWidth * 100.0 <= 90.0 ==> w == clientX / innerWidth * 100.0
  {
    Clamp(10.0, 90.0, clientX / innerWidth * 100.0)
  }

  /** The log panel's height while dragging the horizontal splitter; when the
      panel is not mounted the height stays. */
  function LogHeightOnMove(current: real, panelMounted: bool, innerHeight: real, clientY: real): (h: real)
    ensures !panelMounted ==> h == current
    ensures panelMounted ==> 80.0 <= h <= 300.0
    ensures panelMounted && 80.0 <= innerHeight - clientY <= 300.0 ==> h == innerHeight - clientY
  {
    if !panelMounted then current else Clamp(80.0, 300.0, innerHeight - clientY)
  }
}
