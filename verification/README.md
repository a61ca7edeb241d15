# md-live-preview in Dafny

This project models the part of md-live-preview, a client-side markdown editor, that the repository itself decides. The rest is rendering and library calls. The modelled part covers:

- **Document metrics** (`TextMetrics`): the toolbar's word, character and line counts. It models the JavaScript library calls the page uses (`trim`, `split(/\s+/)`, `filter(Boolean)`, `split('\n')`, `length` in UTF-16 code units). It then proves that they count what they are meant to count: maximal runs of non-white-space characters, and line feeds plus one.
- **Scroll synchronisation** (`ScrollSync`): proportional scrolling between the editor and the preview. A guard flag, lowered on the next animation frame, stops the preview's own scroll event from being echoed back to the editor. Scroll events and `requestAnimationFrame` are explicit events: `EditorScroll`, `PreviewScroll` and `AnimationFrame`.
- **Split-pane divider** (`ResizableSplit`): the drag state machine, the clamp of the pointer-derived ratio, the conversion to percentage widths by `updatePanes`, double-click reset, and window-resize re-derivation.
- **Persisted values** (`PersistedValue`): the `useLocalStorage` hook as a state machine over value, hydration flag and storage. Writes are ignored until the first read completes. JSON encoding is an abstract `Codec` pair. Properties that need decode to undo encode assume it (`RoundTrips`). `BoolJson` is a concrete boolean codec proved to satisfy it.
- **The page** (`Page`): loading the stored document at start-up, storing every edit, reset with confirmation, the three boolean preferences, and a page-level step function over all of these.
- **Supporting modules**:
  - `Storage` models `window.localStorage` as a string map, with flags saying whether reads and writes throw.
  - `Constants` holds the key names and the sample document.
  - `Wrappers` holds `Option`.
  - `Reals` holds `Math.min` and `Math.max` on reals.

Ratios and offsets are Dafny `real`s, so IEEE-754 rounding is not modelled.

Three behaviours a reader may not expect, all modelled as the code has them:

- `countLines` of the empty text is 0, not 1. The code tests the text for emptiness before splitting (`TextMetrics.CountLines`).
- A stored empty document does not replace the default one at start-up (`Page.EmptyDocumentNotRestored`).
- The 10 %–90 % bound applies only to the widths `updatePanes` writes. The drag ratio itself is bounded by the 120 px minimum pane width.

## Model

| member | source | states |
|---|---|---|
| TextMetrics.TrimStart | app/page.tsx:46 | `trimStart` removes a white-space prefix and nothing more: the rest is a suffix of the text that is empty or starts with a non-white-space character |
| TextMetrics.TrimEnd | app/page.tsx:46 | `trimEnd` removes a white-space suffix and nothing more: the rest is a prefix of the text that is empty or ends with a non-white-space character |
| TextMetrics.Trim | app/page.tsx:46 | `trim` removes only white space, before and after, and the result is empty or neither starts nor ends with white space |
| TextMetrics.SplitOnSpaceRuns | app/page.tsx:46 | `split(/\s+/)` gives at least one piece; no piece contains white space; only the first and the last piece can be empty, and the first is not when the text starts with a non-white-space character |
| TextMetrics.SplitOnSpaceRunsRebuilds | app/page.tsx:46 | the text is the pieces of `split(/\s+/)` with one non-empty white-space run between each two; with the split's own contract (no white space in a piece, no empty piece inside) this fixes the pieces |
| TextMetrics.NonEmpty | app/page.tsx:46 | `filter(Boolean)` keeps exactly the non-empty pieces: a string is in the result if and only if it is a non-empty piece |
| TextMetrics.NonEmptyLength | app/page.tsx:46 | the filtered list is shorter than the input by exactly the number of empty pieces |
| TextMetrics.NonEmptyAppend | app/page.tsx:46 | filtering a concatenation filters each part and keeps their order |
| TextMetrics.SplitCountsRuns | app/page.tsx:46 | the non-empty pieces of a white-space split are as many as the maximal runs of non-white-space characters |
| TextMetrics.CountWords | app/page.tsx:45-47 | `countWords` equals the number of maximal runs of non-white-space characters |
| TextMetrics.CountWordsZeroIffBlank | app/page.tsx:45-47 | the word count is 0 if and only if the text is empty or white space only |
| TextMetrics.CountWordsIgnoresPadding | app/page.tsx:46 | leading and trailing white space do not change the word count |
| TextMetrics.CountWordsOfSpaced | app/page.tsx:46 | joining two texts with one white-space character adds their word counts |
| TextMetrics.SplitOn | app/page.tsx:50 | `split('\n')` gives at least one piece, and no piece contains the separator |
| TextMetrics.JoinSplitOn | app/page.tsx:50 | joining the pieces of `split(sep)` with `sep` gives the text back |
| TextMetrics.SplitOnLength | app/page.tsx:50 | a text with k separators splits into k + 1 pieces |
| TextMetrics.CountLines | app/page.tsx:49-51 | `countLines` is 0 for the empty text and otherwise 1 plus the number of line feeds |
| TextMetrics.CharCount | app/page.tsx:220 | the character count, in UTF-16 code units, is between the number of characters and twice it, and equals it exactly when every character is in the Basic Multilingual Plane |
| TextMetrics.CharCountAppend | app/page.tsx:220 | the character count of a concatenation is the sum of the parts' counts |
| TextMetrics.DocumentStats | app/page.tsx:219-221 | the toolbar shows the number of maximal non-white-space runs, a character count between the number of characters and twice it, and 0 lines for the empty text or else 1 plus the line feeds |
| TextMetrics.HelloWorldStats | app/page.tsx:219-221 | "hello world" shows 2 words, 11 characters and 1 line |
| ScrollSync.Ratio | app/page.tsx:104-105 | the scroll ratio is 0 when the pane cannot scroll; it lies in [0, 1] when the offset is within range; multiplied by the maximum offset it gives the offset back |
| ScrollSync.TargetOffset | app/page.tsx:107-108 | a ratio in [0, 1] gives a target offset in [0, targetMax] whenever targetMax ≥ 0; ratio 0 gives the top and ratio 1 the bottom |
| ScrollSync.TargetOffsetInRange | app/page.tsx:116-121 | the offset computed from a valid source pane lies in the target's range whenever the target can scroll |
| ScrollSync.OnEditorScroll | app/page.tsx:100-112 | with sync off or a pane missing nothing changes; otherwise the guard is raised and the preview moves to the editor's ratio of its own range, while the editor stays put |
| ScrollSync.OnPreviewScroll | app/page.tsx:114-122 | with sync off, the guard up or a pane missing nothing changes; otherwise the editor moves to the preview's ratio of its own range, while the preview and guard stay put |
| ScrollSync.ScrollToTop | app/page.tsx:128-129 | both mounted panes go to offset 0, nothing is mounted or unmounted, and the guard is kept |
| ScrollSync.Step | app/page.tsx:100-122 | every event, a relayout with new pane heights included, keeps both offsets within their panes' scrollable ranges and mounts or unmounts nothing; the animation frame lowers the guard and moves nothing |
| ScrollSync.SyncOffIsInert | app/page.tsx:101-115 | with sync disabled neither handler moves a pane or changes the guard |
| ScrollSync.EditorScrollDrivesPreview | app/page.tsx:100-112 | after an editor scroll with sync on, the guard is set and the preview's ratio equals the editor's |
| ScrollSync.GuardBlocksPreview | app/page.tsx:115 | while the guard is set, a preview scroll leaves the editor unchanged |
| ScrollSync.EchoIsSuppressed | app/page.tsx:102-115 | the preview scroll event caused by an editor-driven move, before the next frame, changes neither pane |
| ScrollSync.FrameReenablesPreview | app/page.tsx:109-122 | the animation frame clears the guard, after which a preview scroll drives the editor |
| ScrollSync.PreviewScrollDrivesEditor | app/page.tsx:114-122 | an unblocked preview scroll gives the editor the preview's ratio |
| ResizableSplit.Initial | components/resizable-split.tsx:17-19 | the component starts idle, with leftRatio and lastRatio at 0.5 and panes at 50 % |
| ResizableSplit.UpdatePanes | components/resizable-split.tsx:21-28 | the left width is the ratio clamped to [0.1, 0.9] as a percentage, so it lies in [10, 90]; the right width is the rest, so the two sum to 100; lastRatio records the unclamped ratio; leftRatio and the drag flag are untouched |
| ResizableSplit.UpdatePanesMonotone | components/resizable-split.tsx:22 | a larger ratio never gives the left pane a smaller width |
| ResizableSplit.Mount | components/resizable-split.tsx:30-37 | the mount effect converts lastRatio from a share of the container into a share of the container minus the divider, taking half the divider off the left pane, and sets the pane widths `updatePanes` derives from it: 10 % at or below 0.1, 90 % at or above 0.9, the ratio as a percentage in between, the right pane the rest; container and drag state are kept |
| ResizableSplit.MountKeepsDefault | components/resizable-split.tsx:30-37 | mounting at the default ratio keeps the split at 0.5 and 50 %/50 % for any container width |
| ResizableSplit.DragRatio | components/resizable-split.tsx:56-59 | the drag ratio is at least 120/total when total > 0, and at most 1 − 120/total when total ≥ 240; in pixels, each pane keeps at least 120 px; a pointer already within the bounds gives exactly x/total |
| ResizableSplit.ClampedRatioBounds | components/resizable-split.tsx:59 | the clamp expression leaves the left pane at least 120 px, and the right pane too when total ≥ 240 |
| ResizableSplit.MouseMove | components/resizable-split.tsx:53-64 | a move while not dragging changes nothing; while dragging, leftRatio and lastRatio both become the clamped drag ratio, and the pane widths are those `updatePanes` derives from it in each of its three cases; the container is kept |
| ResizableSplit.DragKeepsMinimumWidths | components/resizable-split.tsx:56-61 | for any pointer position, including outside the container, a drag leaves the left pane at least 120 px wide, and the right pane too when there is room for both |
| ResizableSplit.DragFollowsPointer | components/resizable-split.tsx:59 | a pointer inside the allowed band sets the ratio to exactly x/total |
| ResizableSplit.MouseDown | components/resizable-split.tsx:52 | mouse-down on the divider moves idle to dragging and changes nothing else |
| ResizableSplit.MouseUp | components/resizable-split.tsx:65-72 | mouse-up anywhere in the window moves dragging to idle and changes nothing else |
| ResizableSplit.DoubleClick | components/resizable-split.tsx:81-84 | double-click sets leftRatio and lastRatio to 0.5 and both panes to 50 %, and keeps the drag flag |
| ResizableSplit.ResizeAsWritten | components/resizable-split.tsx:39-47 | as written: ignored while dragging; while idle, lastRatio becomes the left pane's width over (width − 6) and the pane widths are those `updatePanes` derives from it in each of its three cases; leftRatio is untouched |
| ResizableSplit.ResizeAsWrittenDrifts | components/resizable-split.tsx:44-46 | as written, every idle resize moves the divider right until the 90 % stop, even when the width is unchanged |
| ResizableSplit.ResizeAsWrittenDriftExample | components/resizable-split.tsx:44-46 | as written, an idle 1006 px container at 50 % goes to 50.3 % on a resize event that keeps its width |
| ResizableSplit.Resize | components/resizable-split.tsx:39-47 | corrected resize: ignored while dragging; while idle, lastRatio becomes the left pane's width over the whole width and the pane widths follow it through `updatePanes`; leftRatio and the drag flag are untouched |
| ResizableSplit.ResizePreservesSplit | components/resizable-split.tsx:44-46 | the corrected resize keeps both pane percentages for any new width, and an idle one sets lastRatio to the left pane's share |
| ResizableSplit.Step | components/resizable-split.tsx:21-84 | the component as written, resize handler included: every event keeps the pane widths within [10 %, 90 %] and summing to 100 %, keeps the container's position, and only a resize changes its width |
| ResizableSplit.CorrectedStep | components/resizable-split.tsx:39-47 | with the corrected resize handler the same invariant holds, a resize keeps both pane widths, and every other event acts as in the component as written |
| ResizableSplit.ResizeIgnoredWhileDragging | components/resizable-split.tsx:42 | after a mouse-down, a window resize changes only the recorded container width |
| PersistedValue.BoolJsonRoundTrips | lib/use-local-storage.ts:16-17 | the boolean codec used for the preferences decodes every encoding back to its value |
| PersistedValue.Fresh | lib/use-local-storage.ts:9-10 | a new hook holds the initial value and is not hydrated |
| PersistedValue.Next | lib/use-local-storage.ts:28 | a plain value replaces the current one, and an updater function is applied to the current value |
| PersistedValue.Hydrate | lib/use-local-storage.ts:12-23 | hydration always sets the hydrated flag; a missing key or unreadable storage keeps the value; a present key gives the decoded value, or the old value when decoding fails |
| PersistedValue.SetValue | lib/use-local-storage.ts:25-37 | before hydration nothing changes, neither value nor storage; after it, the value becomes the update's result and its encoding is written best-effort under the key |
| PersistedValue.Step | lib/use-local-storage.ts:9-37 | every step keeps an unhydrated hook at its initial value, and keeps its key and initial value; hydration leaves storage exactly as it was; an update before hydration changes nothing |
| PersistedValue.FirstRead | lib/use-local-storage.ts:12-23 | a fresh hook hydrates to the decoded stored value when the key is present and decodes, and to the initial value when the key is absent, storage is unreadable or decoding fails |
| PersistedValue.SetAfterHydration | lib/use-local-storage.ts:28-34 | after hydration, a put sets v and an updater sets f(current); the encoding is stored under the key when the write succeeds, and storage is unchanged when it fails; no other key changes |
| PersistedValue.SetThenReload | lib/use-local-storage.ts:12-31 | a value set after hydration is what a fresh hook on the same key hydrates to, given a round-tripping codec and working storage |
| PersistedValue.UpdatesBeforeHydrationAreLost | lib/use-local-storage.ts:27 | any sequence of updates before hydration leaves value and storage unchanged |
| Constants.StorageKey | app/page.tsx:39 | a storage key is the namespace, a colon and the name, and the name can be read back from it |
| Constants.StorageKeyInjective | lib/constants.ts:1-6 | different names give different storage keys |
| Page.Initial | app/page.tsx:54-73 | the page starts with the default document, sync off, the light theme, the toolbar expanded and the scroll guard down |
| Page.StoredContent | app/page.tsx:36-43 | the stored document is returned when the key is present and storage is readable, and nothing otherwise |
| Page.LoadContent | app/page.tsx:75-78 | the load effect replaces the document only with a stored value that is present and non-empty, and changes nothing else |
| Page.Mount | app/page.tsx:55-78 | mounting hydrates all three preference hooks, writes nothing and leaves the scroll state alone |
| Page.EditorChange | app/page.tsx:84-98 | an edit makes the new text the document and writes it under the content key; nothing else changes |
| Page.Reset | app/page.tsx:124-131 | a declined confirmation on a changed document changes nothing; otherwise the document and the stored document become the default and both panes go to the top |
| Page.SaveContent | app/page.tsx:84-90 | the document is written as is under the content key when storage accepts writes, and a failed write leaves storage unchanged |
| Page.Stats | app/page.tsx:219-221 | the page's toolbar figures for its document: word runs, UTF-16 length bounds, and lines |
| Page.Step | app/page.tsx:53-122 | every page event keeps the scroll offsets valid, keeps each unhydrated hook at its default, and keeps each hook on its own key |
| Page.KeysDistinct | lib/constants.ts:1-6 | the content key and the three preference keys are pairwise different |
| Page.StartupDocument | app/page.tsx:75-78 | at start-up the document is the stored one when it is present and non-empty; a missing key, a failed read or an empty string leave the default |
| Page.EditStoresText | app/page.tsx:84-98 | every edit stores exactly the new text under the content key and leaves every other key as it was |
| Page.EditSurvivesReload | app/page.tsx:75-98 | a non-empty edited document is what a reloaded page shows, when storage works |
| Page.EmptyDocumentNotRestored | app/page.tsx:77 | clearing the document stores the empty string, yet a reloaded page shows the default document |
| Page.ResetAtDefaultNeedsNoConfirmation | app/page.tsx:125 | when the document already is the default, the confirmation's answer makes no difference |
| Page.ConfirmedReset | app/page.tsx:124-129 | a confirmed reset shows and stores the default document and puts both mounted panes at offset 0 |
| Page.PreferenceClicksBeforeMountAreLost | app/page.tsx:206-208 | before the mount, the sync, theme and toolbar buttons change nothing |
| Page.ThemeSurvivesReload | app/page.tsx:59-62 | after the mount, the theme button flips the theme and stores it, and a reloaded page starts in the new theme |

## Left out

- Markdown rendering and sanitisation are left out. They are external libraries.
- The CodeMirror editor wrapper is left out. It is foreign UI. Only the fact that it forwards changes and scroll events matters, and those are the `Edit` and `Scroll` events.
- PDF export, the print fallback, and both clipboard copies are left out. They are asynchronous browser and library calls.
- The "Copied!" label timer and toast notifications are left out. They are timing and UI.
- The toolbar markup is left out because it only renders. Its export button compares its label with a correctly encoded ellipsis, while the page passes a mis-encoded one, so the button is never disabled during an export.
- The mobile breakpoint, the dark-class toggling and the inline theme script are left out. They are DOM side effects. Whether each pane is mounted is part of the scroll state instead.
- Cursor and text-selection styling during a drag is left out, and so is the tailwind configuration.
- React's re-render and hook-closure semantics are left out:
  - When `leftRatio` changes, the re-render after a drag writes `leftRatio`·100 % into the pane styles, after `updatePanes` wrote the clamped width. The model keeps the widths `updatePanes` wrote.
  - Two `setValue` calls in one event see the same stale value. In the model each call sees the previous one's result.
  - The hydration effect rerunning on a key change is not modelled. All keys are constants.
- IEEE-754 rounding and the browser's rounding of `offsetWidth` and scroll offsets to whole or device pixels are left out. Numbers are `real`.
- ResizableSplit.Mount, ResizableSplit.MouseMove and ResizableSplit.ResizeAsWritten: when the container is exactly as wide as the divider, the source divides by zero and produces an infinity or NaN. The model leaves the state unchanged instead.
- ResizableSplit.DragRatio: requires a non-zero width, so it does not model the 6 px container, where the source's `MIN_PANE_PX / total` is an infinity. `MouseMove` does not call it then.
- PersistedValue.BoolJsonRoundTrips: `BoolJson.decode` accepts only the exact texts `true` and `false`. `JSON.parse` also accepts padded text and non-boolean JSON, which the hook's unchecked cast would then hold as the value.
- The server-render branch of `getStoredContent` (no `window`) is left out. Effects run only in the browser.
- The resize handler's fallback to `lastRatio` when the left pane element is missing is left out, because that element is always rendered. So are `updatePanes`' checks for missing elements.
- Scroll events caused by the reset's `scrollTo(0, 0)`, and by the page's other programmatic moves, are not delivered automatically. They are ordinary events the environment may send, as `EchoIsSuppressed` does.
- Layout is not computed. The panes' content and viewport heights come from the environment through `Relayout` events, which clamp the offsets. An edit or a reset does not emit one by itself.
- Every callback scheduled by `requestAnimationFrame` runs at the next frame, so one `AnimationFrame` event stands for all of them.

## Findings

| source | as written | input that shows it | evidently intended | confidence | as-written member | corrected member |
|---|---|---|---|---|---|---|
| components/resizable-split.tsx:44-46 | The resize handler divides the left pane's laid-out width by the container width minus the 6 px divider. That width is a percentage of the whole container, so each idle resize multiplies the ratio by width/(width − 6). | Idle container 1006 px wide, left pane at 50 %, a resize event that keeps the width: the left pane moves to 50.3 %. Repeated events move it on until it stops at 90 %. | A resize keeps the visible split: the left pane keeps its share of the container. | not executed; layout assumed to give the pane exactly its percentage of the container width | ResizableSplit.ResizeAsWrittenDriftExample | ResizableSplit.ResizePreservesSplit |
