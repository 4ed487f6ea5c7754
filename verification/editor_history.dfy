/** Laws of the editor's history: undo and redo are inverse, an edit after
    undo drops the redo branch, the worked scenarios, and an invariant that
    holds along any sequence of user actions. */
module EditorHistory {
  import opened Wrappers
  import opened Color
  import opened Editor
  import SubSidebar

  lemma UndoThenRedo<K>(e: EditorState<K>)
    requires Valid(e) && e.index > 0
    ensures Undo(e).notices == [Undone]
    ensures Redo(Undo(e).state) == Step(e, [Redone])
  {
  }

  lemma RedoThenUndo<K>(e: EditorState<K>)
    requires Valid(e) && e.index + 1 < |e.history|
    ensures Redo(e).notices == [Redone]
    ensures Undo(Redo(e).state) == Step(e, [Undone])
  {
  }

  /** After any pushed snapshot there is nothing to redo. */
  lemma NothingToRedoAfterPush<K>(e: EditorState<K>, r: EditorState<K>, s: Snapshot<K>)
    requires PushedAndShown(e, r, s)
    ensures Redo(r) == Step(r, [NothingToRedo])
  {
  }

  /** Undoing an edit shows again what was on display before it. */
  lemma UndoRevertsEdit<K>(e: EditorState<K>, m: map<K, Rgb>)
    requires Valid(e) && e.index >= 0
    ensures Undo(EditColor(e, m)).notices == [Undone]
    ensures Undo(EditColor(e, m)).state.Current() == e.Current()
    ensures Undo(EditColor(e, m)).state.index == e.index
  {
  }

  /** The very first snapshot is the floor of the history: with nothing before
      it, an edit made on the empty history cannot be undone. */
  lemma FirstEditIsFloor<K>(m: map<K, Rgb>)
    ensures Undo(EditColor(Initial<K>(), m)) == Step(EditColor(Initial<K>(), m), [NothingToUndo])
  {
  }

  /** An edit after an undo keeps the entries up to the new cursor, drops the
      entry that was undone and everything after it, and leaves nothing to
      redo. */
  lemma EditAfterUndoDropsRedoBranch<K>(e: EditorState<K>, m: map<K, Rgb>)
    requires Valid(e) && e.index > 0
    ensures var p := EditColor(Undo(e).state, m);
      && |p.history| == e.index + 1
      && p.history[..e.index] == e.history[..e.index]
      && p.history[e.index] == Snapshot(m, e.history[e.index - 1].opacityMap)
      && Redo(p).notices == [NothingToRedo]
  {
    var u := Undo(e).state;
    var p := EditColor(u, m);
    assert u.index == e.index - 1 && u.history == e.history;
    assert p.history[..e.index] == e.history[..e.index];
  }

  /** An edit made with the cursor on the last entry appends to the history. */
  lemma EditAtEndAppends<K>(e: EditorState<K>, m: map<K, Rgb>)
    requires Valid(e) && e.index == |e.history| - 1
    ensures EditColor(e, m).history == e.history + [Snapshot(m, e.opacityMap)]
    ensures EditColor(e, m).index == |e.history|
    ensures EditColor(e, m).opacityMap == e.opacityMap
  {
    var r := EditColor(e, m);
    assert r.history == e.history + [Snapshot(m, e.opacityMap)];
  }

  /** Three edits from the start leave exactly those three entries. */
  lemma ThreeEdits(a: map<int, Rgb>, b: map<int, Rgb>, c: map<int, Rgb>)
    ensures var s0 := EditColor(EditColor(EditColor(Initial<int>(), a), b), c);
      && s0.history == [Snapshot(a, map[]), Snapshot(b, map[]), Snapshot(c, map[])]
      && s0.index == 2
  {
    InitialValid<int>();
    var e0 := Initial<int>();
    EditAtEndAppends(e0, a);
    var e1 := EditColor(e0, a);
    EditAtEndAppends(e1, b);
    var e2 := EditColor(e1, b);
    EditAtEndAppends(e2, c);
  }

  /** Push A, B, C; undo twice shows A; pushing D then leaves [A, D] and
      nothing to redo. */
  lemma PushUndoPushScenario(a: map<int, Rgb>, b: map<int, Rgb>, c: map<int, Rgb>, d: map<int, Rgb>)
    ensures var s0 := EditColor(EditColor(EditColor(Initial<int>(), a), b), c);
      var u2 := Undo(Undo(s0).state);
      var s1 := EditColor(u2.state, d);
      && u2.notices == [Undone]
      && u2.state.Current() == Snapshot(a, map[])
      && s1.history == [Snapshot(a, map[]), Snapshot(d, map[])]
      && Redo(s1).notices == [NothingToRedo]
  {
    InitialValid<int>();
    ThreeEdits(a, b, c);
    var s0 := EditColor(EditColor(EditColor(Initial<int>(), a), b), c);
    var u2 := Undo(Undo(s0).state).state;
    assert u2.index == 0 && u2.history == s0.history;
    var s1 := EditColor(u2, d);
    assert s1.history == [Snapshot(a, map[]), Snapshot(d, map[])];
  }

  /** Upload, three edits, two undos: what is shown is the state after the
      first edit, under the uploaded session. */
  lemma UploadThreeEditsTwoUndos<K>(size: nat, resp: SegmentResponse, url: string, defaults: Snapshot<K>,
                                    m1: map<K, Rgb>, m2: map<K, real>, m3: map<K, Rgb>)
    requires size > 0
    ensures var up := Upload(Initial<K>(), Some(size), Some(resp), url, defaults).state;
      var e1 := EditColor(up, m1);
      var e3 := EditColor(EditOpacity(e1, m2), m3);
      var back := Undo(Undo(e3).state).state;
      && back.Current() == e1.Current()
      && back.Current() == Snapshot(m1, defaults.opacityMap)
      && back.sessionId == resp.sessionId
  {
    InitialValid<K>();
  }

  /** Uploading another image does not clear the history: one undo after the
      second upload brings back the maps of the first image while the new
      session stays. */
  lemma UploadKeepsEarlierHistory<K>(e: EditorState<K>, size: nat, resp: SegmentResponse, url: string,
                                     defaults: Snapshot<K>)
    requires Valid(e) && e.index >= 0 && size > 0
    ensures var u := Upload(e, Some(size), Some(resp), url, defaults).state;
      && Undo(u).notices == [Undone]
      && Undo(u).state.Current() == e.Current()
      && Undo(u).state.sessionId == resp.sessionId
  {
  }

  /** A reset is an ordinary history entry, so it can be undone. */
  lemma ResetCanBeUndone<K>(e: EditorState<K>, defaults: Snapshot<K>)
    requires Valid(e) && e.sessionId != "" && e.index >= 0
    ensures Undo(Reset(e, defaults).state).notices == [Undone]
    ensures Undo(Reset(e, defaults).state).state.Current() == e.Current()
  {
  }

  /** The sidebar's colour control wired into the editor: the part shows the
      new colour, every other part keeps its colour, the opacities stay, and
      undo takes the change back. */
  function ChangePartColor(e: EditorState<int>, partId: int, rgb: Rgb): (r: EditorState<int>)
    requires Valid(e)
    ensures Valid(r)
    ensures partId in r.colorMap && r.colorMap[partId] == rgb
    ensures forall k :: k != partId ==> (k in r.colorMap <==> k in e.colorMap)
    ensures forall k :: k != partId && k in e.colorMap ==> r.colorMap[k] == e.colorMap[k]
    ensures r.opacityMap == e.opacityMap
    ensures e.index >= 0 ==> Undo(r).state.Current() == e.Current()
  {
    EditColor(e, SubSidebar.HandleColorChange(e.colorMap, partId, rgb))
  }

  /** The sidebar's opacity control wired into the editor. */
  function ChangePartOpacity(e: EditorState<int>, partId: int, value: real): (r: EditorState<int>)
    requires Valid(e)
    ensures Valid(r)
    ensures partId in r.opacityMap && r.opacityMap[partId] == value
    ensures forall k :: k != partId ==> (k in r.opacityMap <==> k in e.opacityMap)
    ensures forall k :: k != partId && k in e.opacityMap ==> r.opacityMap[k] == e.opacityMap[k]
    ensures r.colorMap == e.colorMap
    ensures e.index >= 0 ==> Undo(r).state.Current() == e.Current()
  {
    EditOpacity(e, SubSidebar.HandleOpacityChange(e.opacityMap, partId, value))
  }

  /** The user's actions on the page; the inputs from the outside world (the
      chosen file's size, the service's answers, the loaded session) are
      carried by the action. */
  datatype Action<K> =
    | UploadAction(fileSize: Option<nat>, response: Option<SegmentResponse>, objectUrl: string)
    | ColorEdit(colorMap: map<K, Rgb>)
    | OpacityEdit(opacityMap: map<K, real>)
    | UndoAction
    | RedoAction
    | ResetAction
    | SaveAction
    | LoadAction(loaded: Option<Snapshot<K>>)

  /** Dispatch one action to its handler. */
  function Apply<K>(e: EditorState<K>, a: Action<K>, defaults: Snapshot<K>): (r: Step<K>)
    requires Valid(e)
    ensures Valid(r.state)
    ensures |r.state.history| <= |e.history| + 1
    ensures r.state.sessionId != e.sessionId ==>
      a.UploadAction? && a.response.Some? && r.state.sessionId == a.response.value.sessionId
  {
    match a
    case UploadAction(size, resp, url) => Upload(e, size, resp, url, defaults)
    case ColorEdit(m) => Step(EditColor(e, m), [])
    case OpacityEdit(m) => Step(EditOpacity(e, m), [])
    case UndoAction => Undo(e)
    case RedoAction => Redo(e)
    case ResetAction => Reset(e, defaults)
    case SaveAction => Save(e).0
    case LoadAction(loaded) => Load(e, loaded)
  }

  /** The session of `r` is the one of `e`, or the one a successful upload
      among `actions` started. */
  ghost predicate SessionFrom<K>(e: EditorState<K>, actions: seq<Action<K>>, r: EditorState<K>) {
    || r.sessionId == e.sessionId
    || exists i :: 0 <= i < |actions| && actions[i].UploadAction? && actions[i].response.Some?
                   && actions[i].response.value.sessionId == r.sessionId
  }

  /** Run a sequence of actions, collecting the log. */
  function Run<K>(e: EditorState<K>, actions: seq<Action<K>>, defaults: Snapshot<K>): (r: Step<K>)
    requires Valid(e)
    ensures Valid(r.state)
    ensures |r.state.history| <= |e.history| + |actions|
    ensures SessionFrom(e, actions, r.state)
    decreases |actions|
  {
    if |actions| == 0 then Step(e, [])
    else
      var first := Apply(e, actions[0], defaults);
      var rest := Run(first.state, actions[1..], defaults);
      assert SessionFrom(e, actions, rest.state) by {
        if rest.state.sessionId != first.state.sessionId {
          var i :| 0 <= i < |actions[1..]| && actions[1..][i].UploadAction? && actions[1..][i].response.Some?
                   && actions[1..][i].response.value.sessionId == rest.state.sessionId;
          assert actions[i + 1] == actions[1..][i];
        } else if first.state.sessionId != e.sessionId {
          assert actions[0].UploadAction?;
        }
      }
      Step(rest.state, first.notices + rest.notices)
  }

  /** Every state reachable from the start is valid, and it has a session
      exactly when one was started by an upload. */
  lemma ReachableValid<K>(actions: seq<Action<K>>, defaults: Snapshot<K>)
    ensures Valid(Run(Initial<K>(), actions, defaults).state)
    ensures var r := Run(Initial<K>(), actions, defaults).state;
      r.sessionId != "" ==> exists i :: 0 <= i < |actions| && actions[i].UploadAction? && actions[i].response.Some?
                                         && actions[i].response.value.sessionId == r.sessionId
  {
    InitialValid<K>();
  }
}
