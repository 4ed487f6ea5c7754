# FaceEditor core in Dafny

FaceEditor recolours the parts of a portrait. A segmentation service turns
the photo into a mask in which every pixel carries a part id (skin 1, left
eyebrow 2, …, hair 17). The user picks a colour and an opacity per part, and
the page shows the photo tinted part by part. Every colour or opacity change,
reset, upload and session load is pushed onto a linear undo/redo history. A
small backend keeps the last saved configuration per session id.

This project models that core as pure Dafny functions and proves properties
of it.

| module | file | models |
|---|---|---|
| `Color` | color.dfy | the `Rgb` triple and `ToByte`, the clamp-and-round a `Uint8ClampedArray` applies when a number is stored into a canvas buffer |
| `Records` | records.dfy | `{ ...m, [k]: v }` as a predicate on maps |
| `PartHierarchy` | part_hierarchy.dfy | the category menu and the label-to-id lookup (`Frontend/src/utils/partHierarchy.ts`) |
| `SubSidebar` | sub_sidebar.dfy | the per-part controls of the selected category and their change handlers (`SubSidebar.tsx`) |
| `ColorStore`, `OpacityStore` | color_store.dfy, opacity_store.dfy | the two zustand stores (`colorStore.ts`, `opacityStore.ts`) |
| `LoadSession` | load_session.dfy | loading a session and turning its string keys into numbers with `parseInt(k, 10)` (`api/load.ts`) |
| `ConfigStore` | config_store.dfy | the backend's in-memory session config dictionary (`Backend/app/routes/config.py`) |
| `MaskBlend` | mask_blend.dfy | the flat compositor of `After2.tsx`: the loop over the 512 x 512 RGBA buffer, as a method with loop invariants, plus its pixel-wise specification |
| `MaskLayers` | mask_layers.dfy | the layered compositor of `After.tsx`: collecting the part ids of the mask and building one RGBA layer per part |
| `Editor`, `EditorHistory` | editor.dfy, editor_history.dfy | the editor page (`pages/Editor.tsx`): the history, its cursor and every handler, and the laws the history obeys along any sequence of user actions |

How the model is set up:

- The editor's handlers are functions from an `EditorState` to the next state,
  together with the log lines (`Notice`) they write.
- The outside world comes in as parameters:
  - the chosen file's size;
  - the segmentation service's answer;
  - the object URL of the image;
  - what `loadSession` returned;
  - the default maps.
- The key type of the editor's maps is a type parameter. Editor declares
  string keys, the sidebar produces numbers, and the loader produces
  `parseInt` results, `NaN` included.
- The invariant `Editor.Valid` holds from the start and is kept by every
  handler. It says:
  - the cursor is -1 exactly when the history is empty;
  - otherwise the cursor points at an entry;
  - that entry is what is on display.
- JavaScript numbers are Dafny `real`s and integers are `int`s. A store into a
  canvas buffer goes through `Color.ToByte`.

## Model

| member | source | states |
|---|---|---|
| Color.ToByte | Frontend/src/components/After2.tsx:115-117 | a number written into the pixel buffer becomes 0 at or below 0 and 255 at or above 255. In between it is within 0.5 of the number, and a tie goes to the even byte |
| Color.ToByteOfByte | Frontend/src/components/After2.tsx:115-117 | a whole number in [0, 255] is stored unchanged |
| Color.ToByteMonotonic | Frontend/src/components/After2.tsx:115-117 | storing keeps order: a larger number never becomes a smaller byte |
| Color.ToByteBetween | Frontend/src/components/After2.tsx:115-117 | a number between two bytes is stored as a byte between them |
| PartHierarchy.PartIdFromLabel | Frontend/src/utils/partHierarchy.ts:14-31 | the lookup as written never returns 0. It returns -1 exactly for a label missing from the table or mapped to 0 (the background), and otherwise the table's id |
| PartHierarchy.PartIdFromLabelNullish | Frontend/src/utils/partHierarchy.ts:14-31 | the corrected lookup gives every label of the table its own id, background 0 included, and -1 only for unknown labels |
| PartHierarchy.BackgroundLookup | Frontend/src/utils/partHierarchy.ts:16-30 | the background label comes back as -1 from the code as written and as 0 from the corrected lookup |
| PartHierarchy.LookupsAgreeExceptBackground | Frontend/src/utils/partHierarchy.ts:15-30 | the two lookups agree on every label except the background |
| PartHierarchy.FixedIds | Frontend/src/utils/partHierarchy.ts:15-29 | each part label has its fixed id (skin 1, eyebrows 2 and 3, eyes 4 and 5, ears 7 and 8, nose 10, lips 12 and 13, neck 14, hair 17) |
| PartHierarchy.MappingInjective | Frontend/src/utils/partHierarchy.ts:15-29 | no id is used for two labels |
| PartHierarchy.PartIdFromLabelInjective | Frontend/src/utils/partHierarchy.ts:14-31 | two labels that look up to the same valid id are the same label |
| PartHierarchy.LabelsAppend | Frontend/src/components/SubSidebar.tsx:72-77 | listing the controls of a concatenation of entries lists the controls of each part in turn |
| PartHierarchy.HierarchyLeavesHavePositiveIds | Frontend/src/utils/partHierarchy.ts:4-31 | every label listed in the category menu looks up to a positive id, so the two lookups agree on everything the menu shows |
| SubSidebar.HandleColorChange | Frontend/src/components/SubSidebar.tsx:26-29 | the colour map sent up sets the part's colour and keeps every other entry |
| SubSidebar.HandleOpacityChange | Frontend/src/components/SubSidebar.tsx:31-33 | the opacity map sent up sets the part's opacity, unclamped, and keeps every other entry |
| SubSidebar.DisplayColor | Frontend/src/components/SubSidebar.tsx:36 | the picker shows the stored colour, or black when the part has none |
| SubSidebar.DisplayOpacity | Frontend/src/components/SubSidebar.tsx:37 | the slider shows the stored opacity, or 1 when the part has none |
| SubSidebar.PartsOf | Frontend/src/components/SubSidebar.tsx:24 | a known category gives its entries and an unknown one gives none |
| SubSidebar.Render | Frontend/src/components/SubSidebar.tsx:22-79 | with no category, or an empty one, nothing is rendered. Otherwise there is one control per label of the category, in menu order. Each control carries the label's positive id, which equals what the lookup as written returns, together with the displayed colour and opacity |
| ColorStore.SetColor | Frontend/src/store/colorStore.ts:19-25 | sets one part's colour, keeps every other entry and leaves the selection alone |
| ColorStore.SetSelectedPart | Frontend/src/store/colorStore.ts:27 | changes the selection and nothing else |
| ColorStore.Reset | Frontend/src/store/colorStore.ts:29 | empties the map and clears the selection |
| ColorStore.InitialIsEmpty | Frontend/src/store/colorStore.ts:15-17 | the store starts empty with no selection |
| ColorStore.ResetRestoresInitial | Frontend/src/store/colorStore.ts:15-29 | after any edits, reset gives back the initial state |
| ColorStore.SetColorIdempotent | Frontend/src/store/colorStore.ts:19-25 | setting the same colour twice equals setting it once |
| ColorStore.SetColorLastWins | Frontend/src/store/colorStore.ts:19-25 | for one part the later colour wins |
| ColorStore.SetColorCommutes | Frontend/src/store/colorStore.ts:19-25 | colours of two different parts can be set in either order |
| OpacityStore.SetOpacityMap | Frontend/src/store/opacityStore.ts:11 | replaces the map wholesale |
| OpacityStore.UpdateOpacity | Frontend/src/store/opacityStore.ts:12-15 | sets one part's opacity as given and keeps every other entry |
| OpacityStore.InitialIsEmpty | Frontend/src/store/opacityStore.ts:9-10 | the store starts empty |
| OpacityStore.SetOpacityMapForgets | Frontend/src/store/opacityStore.ts:11-15 | replacing the map forgets earlier updates |
| OpacityStore.UpdateOpacityLastWins | Frontend/src/store/opacityStore.ts:12-15 | for one part the later opacity wins |
| OpacityStore.UpdateOpacityCommutes | Frontend/src/store/opacityStore.ts:12-15 | opacities of two different parts can be set in either order |
| ConfigStore.SaveConfig | Backend/app/routes/config.py:14-30 | the payload is stored under the session id, replacing the old one. Every other session keeps its payload, and the answer is the fixed message |
| ConfigStore.LoadConfig | Backend/app/routes/config.py:33-54 | succeeds exactly when the id was saved, with the stored payload, and otherwise fails with 404 "No config found for this session_id" |
| ConfigStore.SaveThenLoad | Backend/app/routes/config.py:14-54 | loading what was just saved gives it back |
| ConfigStore.SaveOverwrites | Backend/app/routes/config.py:26 | a second save for the same id replaces the first |
| ConfigStore.SaveLeavesOthers | Backend/app/routes/config.py:26-54 | saving under one id does not change what loads under another |
| ConfigStore.EmptyStoreNotFound | Backend/app/routes/config.py:8-51 | nothing loads from a store nobody saved to |
| LoadSession.TrimStart | Frontend/src/api/load.ts:23 | the white space `parseInt` skips is gone: what is left is a suffix of the key, everything cut off was white space, and what is left does not start with white space |
| LoadSession.ParseInt10 | Frontend/src/api/load.ts:23 | `parseInt(k, 10)`: NaN exactly when no digit follows the leading white space and the optional sign; otherwise the value of the leading digits, negated after a minus sign |
| LoadSession.KeyOf | Frontend/src/api/load.ts:23 | the property key `colorMap[parseInt(k, 10)]` writes to: "NaN" exactly when `parseInt` gives NaN, otherwise the parsed integer |
| LoadSession.LeadingDigits | Frontend/src/api/load.ts:23 | `parseInt` reads the longest run of leading decimal digits and stops at the first non-digit |
| LoadSession.ParseInt10OfDecimal | Frontend/src/api/load.ts:22-27 | every integer written in decimal, negative ones included, parses back to itself |
| LoadSession.ParseInt10SkipsSpaceAndJunk | Frontend/src/api/load.ts:23 | for every integer n, any run of white space w and any tail j that does not start with a digit, `w + Decimal(n) + j` parses to n (" 12px" parses to 12) |
| LoadSession.ParseInt10NoHexPrefix | Frontend/src/api/load.ts:23 | radix 10 does not understand "0x": for any leading white space and any tail, "0x…" parses to 0 |
| LoadSession.ParseInt10NegativeZero | Frontend/src/api/load.ts:23 | "-0", with any leading white space and any tail that does not start with a digit, is the key 0 |
| LoadSession.ParseInt10NoDigits | Frontend/src/api/load.ts:23 | every key in which no digit follows the leading white space and the optional sign ("abc", "-", " +x") parses to NaN |
| LoadSession.KeyOfDigits | Frontend/src/api/load.ts:23 | a key made only of digits becomes the number they denote, leading zeros ignored |
| LoadSession.Assign | Frontend/src/api/load.ts:22-27 | assigning pairs in turn gives exactly the keys of the pairs, and each key holds the value of its last pair |
| LoadSession.Normalize | Frontend/src/api/load.ts:19-27 | every parsed key is present and every present key comes from an entry. A key holds the value of the last entry that parses to it |
| LoadSession.LoadSession | Frontend/src/api/load.ts:7-34 | succeeds exactly when the request succeeded and both maps are present, and then both are converted in full; any failure gives null |
| LoadSession.CollidingKeysLastWins | Frontend/src/api/load.ts:22-24 | for every n, the keys "n" and "0n" (such as "7" and "07") collide on key n and the later value wins |
| LoadSession.NormalizeEncodeRoundTrip | Frontend/src/api/load.ts:18-27 | an integer-keyed map written with decimal string keys, in any order, loads back to the same keys and values |
| MaskBlend.PartAt | Frontend/src/components/After2.tsx:110 | the part id of a pixel, or 0 where the grid has no cell |
| MaskBlend.OpacityOf | Frontend/src/components/After2.tsx:112 | the part's opacity, or 0 when it has none |
| MaskBlend.MixBetween | Frontend/src/components/After2.tsx:115-117 | at an opacity in [0, 1] the blend of two values lies between them |
| MaskBlend.BlendChannelBetween | Frontend/src/components/After2.tsx:115-117 | at an opacity in [0, 1] the stored channel lies between the base byte and the colour byte |
| MaskBlend.BlendPixel | Frontend/src/components/After2.tsx:110-118 | alpha is never touched, and a part with no colour or with opacity 0 leaves the pixel unchanged. At opacity 1 a byte colour replaces R, G and B exactly |
| MaskBlend.Composite | Frontend/src/components/After2.tsx:107-120 | the output frame has the base's shape, and each pixel is the blend of its own base pixel with its own part |
| MaskBlend.CompositeKeepsUncolored | Frontend/src/components/After2.tsx:111-114 | pixels of parts without a colour come out bit-identical |
| MaskBlend.CompositeKeepsTransparent | Frontend/src/components/After2.tsx:112-117 | pixels of parts with no opacity or opacity 0 come out bit-identical |
| MaskBlend.CompositeOpaque | Frontend/src/components/After2.tsx:112-117 | at opacity 1 a part shows exactly its colour with the base alpha |
| MaskBlend.BlendPixelBetween | Frontend/src/components/After2.tsx:114-118 | at an opacity in [0, 1] every channel lies between the base channel and the colour channel |
| MaskBlend.CompositeExample | Frontend/src/components/After2.tsx:107-120 | the 2 x 2 grid [[1,1],[2,0]] over grey 200, with part 1 black at 0.5 and part 2 red at 1, gives [[100,100],[red, grey]] |
| MaskBlend.Render | Frontend/src/components/After2.tsx:86-124 | nothing is drawn without an image URL or with an empty grid; otherwise the drawn frame is composited |
| MaskBlend.BlendAt | Frontend/src/components/After2.tsx:109-118 | one iteration of the inner loop blends its own pixel and leaves every other pixel of the buffer as it was |
| MaskBlend.BlendImageData | Frontend/src/components/After2.tsx:104-122 | the nested loop over the buffer blends every pixel exactly once, from its base value. Read back as a frame, the buffer equals the composite of the base frame |
| MaskLayers.StyleOf | Frontend/src/components/After.tsx:53-55 | a part's colour, opacity and scale, with the defaults black, 0.5 and no scaling |
| MaskLayers.CellAt | Frontend/src/components/After.tsx:47 | a grid cell, undefined past the end of a row |
| MaskLayers.Cells | Frontend/src/components/After.tsx:45-50 | the scan reads exactly the defined cells within the first row's width |
| MaskLayers.Visit | Frontend/src/components/After.tsx:44-50 | adding the non-negative ids to the set keeps the earlier ids, adds no duplicates and collects exactly the non-negative ids seen |
| MaskLayers.VisitedIds | Frontend/src/components/After.tsx:43-50 | the collected ids have no duplicates and are exactly the non-negative ids that occur in the scanned part of the grid |
| MaskLayers.Paint | Frontend/src/components/After.tsx:61-67 | a part pixel gets the part's colour (exactly, for a byte colour) and alpha opacity * 255 stored as a byte |
| MaskLayers.MaskImage | Frontend/src/components/After.tsx:58-69 | a layer has the grid's height and first row's width; it paints exactly the cells of its part and leaves every other pixel transparent |
| MaskLayers.BuildLayers | Frontend/src/components/After.tsx:26-91 | an empty grid builds nothing. Otherwise there is one layer per collected id, in collection order, each with its part's scale and mask image |
| MaskLayers.LayersDisjoint | Frontend/src/components/After.tsx:52-69 | no two layers both paint the same pixel |
| MaskLayers.EachPartPixelInOneLayer | Frontend/src/components/After.tsx:44-69 | every cell with a non-negative part id is painted by its part's layer and by no other layer |
| MaskLayers.DefaultPaint | Frontend/src/components/After.tsx:53-66 | a part with neither colour nor opacity is painted black at alpha 128 |
| Editor.InitialValid | Frontend/src/pages/Editor.tsx:41-44 | the page starts in a valid state: empty history, cursor -1 |
| Editor.SliceTo | Frontend/src/pages/Editor.tsx:103 | with an end inside the array, `slice(0, end)` is the prefix of that length |
| Editor.PushHistory | Frontend/src/pages/Editor.tsx:98-106 | entries up to the cursor are kept and the snapshot follows them. The cursor lands on the new last entry, and the maps and session are untouched |
| Editor.ShowAndPush | Frontend/src/pages/Editor.tsx:98-106 | showing and pushing a snapshot keeps the invariant. Entries up to the old cursor stay, the snapshot follows and is displayed, and the session is unchanged |
| Editor.ApplyHistory | Frontend/src/pages/Editor.tsx:90-96 | an existing entry is displayed; a missing one changes nothing; history and cursor stay |
| Editor.EditColor | Frontend/src/pages/Editor.tsx:241-244 | a colour change is shown and pushed with the current opacity map |
| Editor.EditOpacity | Frontend/src/pages/Editor.tsx:245-248 | an opacity change is shown and pushed with the current colour map |
| Editor.Undo | Frontend/src/pages/Editor.tsx:144-153 | with an entry before the cursor it steps back and displays that entry; otherwise nothing changes and "nothing to undo" is logged |
| Editor.Redo | Frontend/src/pages/Editor.tsx:155-164 | with an entry after the cursor it steps forward and displays it; otherwise nothing changes and "nothing to redo" is logged |
| Editor.Reset | Frontend/src/pages/Editor.tsx:132-142 | without a session nothing changes; otherwise the defaults are shown and pushed |
| Editor.Upload | Frontend/src/pages/Editor.tsx:108-130 | a missing or empty file, or a failed request, changes nothing and logs why. Otherwise the new session and URLs are set and the defaults are pushed on top of the existing history |
| Editor.Save | Frontend/src/pages/Editor.tsx:166-179 | never changes the state. A request with the displayed maps is sent exactly when there is a session and some map is non-empty, and then "saved" is logged |
| Editor.Load | Frontend/src/pages/Editor.tsx:181-196 | without a session nothing is asked. A loaded session is shown and pushed; a failed load changes nothing |
| Editor.Clamp | Frontend/src/pages/Editor.tsx:57 | the result lies in the bounds, equals the value inside them and saturates outside |
| Editor.BeforeWidthOnMove | Frontend/src/pages/Editor.tsx:53-58 | the before pane's width stays within 10 and 90 percent and follows the mouse in between |
| Editor.LogHeightOnMove | Frontend/src/pages/Editor.tsx:67-74 | the log panel's height stays within 80 and 300 and follows the mouse in between; it stays put when the panel is not mounted |
| EditorHistory.UndoThenRedo | Frontend/src/pages/Editor.tsx:144-164 | redo after a successful undo restores the state exactly |
| EditorHistory.RedoThenUndo | Frontend/src/pages/Editor.tsx:144-164 | undo after a successful redo restores the state exactly |
| EditorHistory.NothingToRedoAfterPush | Frontend/src/pages/Editor.tsx:98-106 | after any push there is nothing to redo |
| EditorHistory.UndoRevertsEdit | Frontend/src/pages/Editor.tsx:98-153 | undoing an edit displays again what was displayed before it |
| EditorHistory.FirstEditIsFloor | Frontend/src/pages/Editor.tsx:41-153 | an edit made on the empty history cannot be undone |
| EditorHistory.EditAfterUndoDropsRedoBranch | Frontend/src/pages/Editor.tsx:103 | an edit after an undo keeps the entries up to the cursor, drops the undone entry and everything after it, and leaves nothing to redo |
| EditorHistory.EditAtEndAppends | Frontend/src/pages/Editor.tsx:98-106 | with the cursor on the last entry an edit appends |
| EditorHistory.ThreeEdits | Frontend/src/pages/Editor.tsx:98-106 | three edits from the start leave exactly those three entries, cursor on the last |
| EditorHistory.PushUndoPushScenario | Frontend/src/pages/Editor.tsx:98-164 | push A, B, C and undo twice: A is displayed. Pushing D then leaves [A, D] and nothing to redo |
| EditorHistory.UploadThreeEditsTwoUndos | Frontend/src/pages/Editor.tsx:108-153 | after an upload, three edits and two undos, the state after the first edit is displayed under the uploaded session |
| EditorHistory.UploadKeepsEarlierHistory | Frontend/src/pages/Editor.tsx:108-153 | one undo after a second upload displays the first image's maps under the new session |
| EditorHistory.ResetCanBeUndone | Frontend/src/pages/Editor.tsx:132-153 | undoing a reset displays what was there before it |
| EditorHistory.ChangePartColor | Frontend/src/pages/Editor.tsx:237-244 | a picker change wired through the sidebar sets that part's colour and keeps the other parts and the opacities. It keeps the invariant and is undone by one undo |
| EditorHistory.ChangePartOpacity | Frontend/src/pages/Editor.tsx:245-248 | a slider change wired through the sidebar sets that part's opacity and keeps the other parts and the colours. It keeps the invariant and is undone by one undo |
| EditorHistory.Apply | Frontend/src/pages/Editor.tsx:198-249 | every handler keeps the invariant and adds at most one history entry. Only a successful upload changes the session, to the one it started |
| EditorHistory.Run | Frontend/src/pages/Editor.tsx:198-249 | along any sequence of actions the invariant holds and the history grows by at most one entry per action. The session is the initial one or one started by an upload in the sequence |
| EditorHistory.ReachableValid | Frontend/src/pages/Editor.tsx:30-196 | every state reachable from the start is valid, and a non-empty session id was started by an upload |

## Behaviour worth knowing

These are facts about the code that a reader might not expect. The model
follows the code in each case:

- **Upload keeps the history.** `handleUpload` pushes the defaults on top of
  the existing history (`Frontend/src/pages/Editor.tsx:123`). Undo after a
  second upload therefore reaches the first image's maps, under the new
  session (`EditorHistory.UploadKeepsEarlierHistory`).
- **Opacity is not checked.** `handleOpacityChange` stores whatever value the
  slider supplies (`Frontend/src/components/SubSidebar.tsx:31-33`), and a
  loaded session's values are stored as they come (`Editor.tsx:189-191`).
  After2 blends with the value as it is
  (`Frontend/src/components/After2.tsx:114-117`): an opacity below 0 or
  above 1 extrapolates, and the buffer clamps the result.
- **The history is unbounded.** `pushHistory` appends without a limit
  (`Editor.tsx:98-106`).
- **Edits need no session.** The sidebar callbacks push onto the history
  whether or not an image has been uploaded (`Editor.tsx:241-248`,
  `EditorHistory.FirstEditIsFloor`).
- **Only a part without a colour is skipped by After2.** A part with a colour
  is blended whatever its opacity (`After2.tsx:114`). Opacity 0 leaves the
  pixel unchanged (proved); a negative opacity changes it.
- **The colour store has no `setColorMap`.** The editor imports
  `useColorStore` by name and reads `state.setColorMap` (`Editor.tsx:21`,
  `Editor.tsx:49`). `colorStore.ts` default-exports a store that has no such
  member (`Frontend/src/store/colorStore.ts:15-32`). The model treats the
  page's colour map as a plain map that is replaced wholesale, as the opacity
  store's `setOpacityMap` does.
- **The editor passes `maskUrl` to `After`.** `After` takes a part grid and a
  scale map instead (`Editor.tsx:219-224`,
  `Frontend/src/components/After.tsx:5-13`). The model of `After` takes the
  grid as an input.

## Left out

- Canvas drawing:
  - image decoding;
  - `drawImage` resizing the photo to 512 x 512 (the drawn frame is an input to `MaskBlend.Render`);
  - the temporary canvases;
  - the up-scaling of a layer to the image size;
  - the translate/scale transforms (a `Layer` carries its scale);
  - `putImageData`.

  All of these are browser rendering.
- How the mask URL becomes a part grid. That is the segmentation service
  (`BisenetModel`, the segment route and its hashing helpers), and it is not
  part of this model.
- IEEE double details: NaN, infinities, -0 and rounding in `b * (1 - o) + c * o`.
  Numbers are exact reals, and `ToByte` is defined on them only.
- `parseInt` precision beyond 2^53. Digits are read into an unbounded integer.
- Inherited JavaScript properties. `mapping["constructor"]`,
  `partHierarchy["toString"]` and the like return inherited properties; here
  such labels are simply absent.
- The order of `Object.entries`. It is an input to `LoadSession.Normalize`
  (a sequence), and the properties hold for every order.
- The unchecked casts `v as [number, number, number]` and `v as number` in
  `load.ts`. The values are already typed in the model.
- Validation in the backend payload schema (coercing keys to int, tuple
  length). `ConfigPayload` is already typed.
- The backend's own HTTP routing, status codes other than 404, and its
  `print` lines.
- The save and load HTTP calls. `Save` returns the request it would send.
  The request's own failure is swallowed by the client, so success is always
  logged, and this is modelled.
- Log timestamps, the log panel, and the exact log texts. Each message is a
  `Notice` kind.
- React rendering, event-listener registration and removal for the
  splitters, and the category menu (`RightSidebar`). The category is an input
  to `SubSidebar.Render`.
- The default colour and opacity maps (`utils/defaultMaps`) are not part of
  this model. They are a parameter `defaults`.
- Editor.Upload: the handler is one atomic step. The source reads `history`
  and `historyIndex` from the render that started the upload and pushes after
  the `await` (`Editor.tsx:98-106`, `Editor.tsx:123`). An edit made while the
  request is pending is therefore lost: history [A], edit B during the
  upload, gives [A, defaults] and not [A, B, defaults]. That interleaving is
  not modelled.
- Editor.Load: the handler is one atomic step, for the same reason. It pushes
  the loaded maps after `await loadSession` using the stale history
  (`Editor.tsx:187`, `Editor.tsx:191`), so an edit made during the request is
  dropped. That interleaving is not modelled.
- MaskLayers.VisitedIds: states that the ids are distinct and are exactly the
  non-negative ids of the grid. It does not state their order (first
  occurrence in row-major order), which only decides the drawing order of
  layers that never overlap (`MaskLayers.LayersDisjoint`).
- Editor.BeforeWidthOnMove: requires a positive window width; a zero width
  (division by zero, giving Infinity or NaN in JavaScript) is not modelled.
- MaskBlend.BlendImageData: requires the buffer to hold exactly 512 x 512
  RGBA bytes, which is what `getImageData` on the fixed canvas returns.

## Findings

| source | as written | input that shows it | evidently intended | confidence | as-written member | corrected member |
|---|---|---|---|---|---|---|
| Frontend/src/utils/partHierarchy.ts:30 | `mapping[label] \|\| -1` treats the background's id 0 as falsy | the label "배경" (background) returns -1, the invalid id, although the table maps it to 0 | `mapping[label] ?? -1`, so only unknown labels are invalid | medium, not executed | PartHierarchy.BackgroundLookup | PartHierarchy.PartIdFromLabelNullish |

The sidebar only shows labels from the category menu, and the background is
not among them. `PartHierarchy.HierarchyLeavesHavePositiveIds` proves that
the two lookups agree on every label the menu lists. The model's sidebar
therefore uses the corrected lookup, and its controls carry the same ids as
the code as written.
