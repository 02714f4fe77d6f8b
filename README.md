# Epic Pen drawing surface — Dafny model

This project models the drawing engine of the Epic Pen annotation overlay: the
snapshot-based undo/redo history kept by `App.tsx`, and the gesture and text
state machine of `components/CanvasLayer.tsx` that feeds it.

- **History** (`history.dfy`, module `App`). The abstract history is a `Log`:
  a stack of opaque snapshots and a cursor. The cursor is -1 for the implicit
  empty canvas. `Recorded`, `Undone` and `Redone` specify the three cursor
  operations, and `CanUndo` / `CanRedo` specify the toolbar flags. The lemmas
  prove the cursor invariant, prefix preservation, redo truncation and the
  undo/redo inverse law. Class `App.History<Snap, Img>` holds `stack`, `index`
  and the background image `bg`. Its methods are proved against those
  functions.
- **Surfaces** (`raster.dfy`, module `Raster`). The main surface is the
  sequence of paint operations committed since it was last cleared. A snapshot
  (`toDataURL`) is that sequence itself, so the canvas uses
  `App.History<Surface, Img>`. The preview surface holds at most one shape. The
  module also holds the component's pure arithmetic: canvas-local points,
  stroke parameters per tool, the shape drawn for a drag, the arrow head
  length, the font size and line height of committed text, and the
  history-restore effect as written and as intended.
- **Gestures** (`canvas.dfy`, module `Canvas`). Class `CanvasLayer` has the
  fields `isDrawing`, `startPos`, `isTyping`, `textPos` and `textContent`. It
  also holds the main surface, the part of the main context's state the
  component sets (`paint`, `path`) and the preview. Its methods are
  `StartDrawing`, `Draw`, `StopDrawing`, `FinishText`, `TypeText`, `KeyDown`
  and the restore effect. Blur calls `FinishText` directly. `StopDrawing` and
  `FinishText` call `history.Record`, which stands for `onSnapshotUpdate`.
  Six client methods replay fixed scenarios: a pen stroke, a rectangle drag,
  two undos then two redos, an eraser stroke under the effect as written, and
  a Clear after a stroke under the effect as written and as intended.
- **Strings** (`jsstring.dfy`, module `JsString`). ECMAScript `split` on one
  character and `trim`, with the round-trip `Join(Split(s)) == s` and its
  converse.
- `types.dfy` holds `Tool`, `Point`, `Style` and `Width` (1..50).
  `wrappers.dfy` holds `Option`.

`Tool` includes `Cursor`. The declared enum in `types.ts` lacks it, but the
canvas, the toolbar and the tool table all use it. `Select` is declared and
never treated specially, and the model keeps that: pointer-down starts a
gesture, a move clears the preview, and release records a snapshot. The
toolbar offers no Text button, yet the text tool is modelled in full.
`App.tsx` never passes `bgMode` to the canvas. This matters only to the
background styling, which is not modelled.

Pointer-down captures the style for freehand strokes into the context state.
Shape previews instead read the style again on every move. Release
composites the preview only if the tool current at release is a shape tool.
So if the user switches tools mid-drag, the preview stays on screen
uncommitted. Both behaviours follow the code.

## Model

| member | source | states |
|---|---|---|
| `JsString.IsWhitespace` | components/CanvasLayer.tsx:210 | the code points `trim` removes: space, tab, line feed and carriage return are among them, and no ASCII letter or digit is |
| `JsString.TrimStart` | components/CanvasLayer.tsx:210 | the result is a suffix of the input, with only whitespace removed and no leading whitespace left |
| `JsString.TrimEnd` | components/CanvasLayer.tsx:210 | the result is a prefix of the input, with only whitespace removed and no trailing whitespace left |
| `JsString.TrimStartEmptyIff` | components/CanvasLayer.tsx:210 | trimming the start leaves nothing exactly when every character is whitespace |
| `JsString.TrimEndEmptyIff` | components/CanvasLayer.tsx:210 | trimming the end leaves nothing exactly when every character is whitespace |
| `JsString.Trim` | components/CanvasLayer.tsx:210 | `trim` gives a prefix of the part of the input that follows its leading whitespace, and that prefix neither starts nor ends on whitespace |
| `JsString.TrimCutsOnlyWhitespace` | components/CanvasLayer.tsx:210 | every character `trim` cuts from the end is whitespace, so together with `Trim` the result is exactly the input without its leading and trailing whitespace |
| `JsString.IsBlank` | components/CanvasLayer.tsx:210 | `!content.trim()` holds exactly when every character is ECMAScript whitespace |
| `JsString.Split` | components/CanvasLayer.tsx:225 | split on `'\n'` gives at least one piece, no piece contains the separator, and joining the pieces gives back the content |
| `JsString.SplitJoin` | components/CanvasLayer.tsx:225 | splitting a join of separator-free pieces gives back exactly those pieces |
| `App.Initial` | App.tsx:22-23 | the history starts with an empty stack and cursor -1, which satisfies the invariant |
| `App.Recorded` | App.tsx:40-45 | record keeps the first index+1 entries, appends the snapshot, makes the length index+2 and puts the cursor on the last entry; the invariant is preserved |
| `App.Undone` | App.tsx:47-53 | undo decrements any cursor >= 0 (0 goes to -1), is a no-op at -1 and never changes the stack |
| `App.Redone` | App.tsx:55-59 | redo increments the cursor only below the top, is a no-op at the top and never changes the stack |
| `App.CanUndo` | App.tsx:165 | canUndo reduces to "the stack is non-empty" |
| `App.CanRedo` | App.tsx:166 | canRedo holds exactly when redo would change the state |
| `App.CanUndoCorrected` | App.tsx:165 | the intended canUndo holds exactly when undo would change the state |
| `App.CanUndoAtStartIsNoOp` | App.tsx:165 | at cursor -1 over any non-empty stack, canUndo is true while undo is a no-op and the intended canUndo is false |
| `App.UndoThenRedo` | App.tsx:47-59 | undo followed by redo from any cursor >= 0 restores the same cursor and stack |
| `App.RecordClearsRedo` | App.tsx:40-45 | right after a record, canRedo is false and redo is a no-op |
| `App.RecordAll` | App.tsx:40-45 | a run of records keeps the cursor invariant |
| `App.UndoTimes` | App.tsx:47-53 | repeated undos keep the cursor invariant |
| `App.RedoTimes` | App.tsx:55-59 | repeated redos keep the cursor invariant |
| `App.RecordAllAppends` | App.tsx:40-45 | n >= 1 records keep the entries up to the cursor, append the n snapshots in order and advance the cursor by n |
| `App.UndoTimesIndex` | App.tsx:47-53 | n undos keep the stack and move the cursor to max(index - n, -1) |
| `App.RedoTimesIndex` | App.tsx:55-59 | n redos keep the stack and move the cursor to min(index + n, length - 1) |
| `App.UndoRedoInverse` | App.tsx:40-59 | after n records, n undos restore the original cursor, and n redos then reproduce the final state exactly |
| `App.RecordsThenUndosReachEmpty` | App.tsx:40-59 | from the initial state, n records followed by n undos reach cursor -1 |
| `App.RecordAfterUndoTruncates` | App.tsx:40-53 | a record after at least one undo makes the stack the old entries up to the new cursor plus the snapshot, leaves nothing to redo and does not grow the stack past its old length |
| `App.History.constructor` | App.tsx:22-26 | empty stack, cursor -1, no background image |
| `App.History.Record` | App.tsx:40-45 | handleSnapshotUpdate: the new stack is the old one cut after the cursor plus the snapshot, the cursor is on the last entry, the background is untouched |
| `App.History.Undo` | App.tsx:47-53 | handleUndo: the stack and background are unchanged and the cursor follows `Undone` |
| `App.History.Redo` | App.tsx:55-59 | handleRedo: the stack and background are unchanged and the cursor follows `Redone` |
| `App.History.Clear` | App.tsx:61-65 | handleClear: empty stack, cursor -1, background image cleared |
| `App.History.SetBackground` | App.tsx:88 | setBackgroundImage replaces the background image and leaves the history alone |
| `Types.IsFreehand` | components/CanvasLayer.tsx:155 | the freehand class (pen, highlighter, eraser) excludes the cursor, text and select tools |
| `Types.IsShape` | components/CanvasLayer.tsx:192 | the shape class (rectangle, circle, line, arrow) is disjoint from the freehand class and excludes the cursor, text and select tools |
| `Raster.MousePos` | components/CanvasLayer.tsx:96-103 | the canvas-local point plus the rectangle's left/top gives back the client point; an unmounted canvas gives (0, 0) |
| `Raster.StrokePaint` | components/CanvasLayer.tsx:131-142 | a stroke uses the style's width and color, alpha 0.4 exactly for the highlighter (1.0 otherwise), and destination-out exactly for the eraser |
| `Raster.HeadLength` | components/CanvasLayer.tsx:241 | the head length 10*(w/4+0.5) equals 2.5w+5, so it lies in [7.5, 130] for widths 1..50 |
| `Raster.HeadLengthIncreasing` | components/CanvasLayer.tsx:241 | the head length is strictly increasing in the width |
| `Raster.SquaredDistance` | components/CanvasLayer.tsx:170 | the squared circle radius is non-negative and zero only when the drag has not moved |
| `Raster.PreviewShape` | components/CanvasLayer.tsx:159-177 | a move draws exactly one shape for shape tools and none otherwise: a box with corner startPos and signed size reaching the pointer, a circle centred at startPos, a line or an arrow from startPos to the pointer |
| `Raster.PreviewOps` | components/CanvasLayer.tsx:192-198 | compositing the preview adds at most one operation, and none when the preview is empty |
| `Raster.FontSize` | components/CanvasLayer.tsx:218 | the font size is max(16, 3w) |
| `Raster.LineHeight` | components/CanvasLayer.tsx:226 | the line height is max(20, 4w), which is always larger than the font size |
| `Raster.TextLayout` | components/CanvasLayer.tsx:225-229 | one text operation per line; line i sits at x = anchor.x and y = anchor.y + i*lineHeight, with the font size and color of the style |
| `Raster.TextPlacementExample` | components/CanvasLayer.tsx:218-229 | "A\nB" at (50, 50) with width 4 commits two 16px lines at y = 50 and y = 70 |
| `Raster.DrawOnCleared` | components/CanvasLayer.tsx:79-80 | clearing and drawing a snapshot leaves nothing exactly when the snapshot is empty or the mode is destination-out, and gives back the snapshot itself exactly when it is empty or drawn opaquely with source-over |
| `Raster.EffectAsWritten` | components/CanvasLayer.tsx:69-86 | the effect as written: an empty stack leaves the surface as it was, which differs from the intended empty surface whenever something was drawn; a cursor on an entry gives `DrawOnCleared` of it; cursor -1 over a non-empty stack clears under any paint; over a non-empty stack with opaque source-over paint it agrees with `Effect` |
| `Raster.Effect` | components/CanvasLayer.tsx:69-86 | the intended effect: the entry under the cursor, or the empty surface at -1 |
| `Raster.ClearKeepsDrawing` | components/CanvasLayer.tsx:72 | as written, the effect after a clear (empty stack, cursor -1) leaves the surface exactly as it was |
| `Raster.EraserRecordBlanksSurface` | components/CanvasLayer.tsx:74-81 | as written, the restore after recording an eraser stroke leaves the surface empty |
| `Raster.HighlighterRecordFadesSurface` | components/CanvasLayer.tsx:74-81 | as written, the restore after recording a highlighter stroke replaces the surface with a copy of itself faded to 0.4 |
| `Raster.EffectAfterRecord` | components/CanvasLayer.tsx:74-81 | the corrected effect after a record shows exactly the recorded surface |
| `Raster.EffectAfterClear` | components/CanvasLayer.tsx:82-85 | the corrected effect on an empty history shows an empty surface |
| `Raster.ReplayReproducesSurfaces` | components/CanvasLayer.tsx:74-85 | under the corrected effect, after committing surfaces, as many undos show the surface shown before them, and as many redos show the last commit |
| `Canvas.CanvasLayer.constructor` | components/CanvasLayer.tsx:28-34 | not drawing, not typing, positions at (0, 0), empty content, empty surfaces, default context |
| `Canvas.CanvasLayer.TextCommitted` | components/CanvasLayer.tsx:209-238 | under a finishText step the surface grows exactly when a session was open with non-blank content |
| `Canvas.CanvasLayer.FillLines` | components/CanvasLayer.tsx:225-229 | the forEach loop appends exactly the lines of `TextLayout`, in order |
| `Canvas.CanvasLayer.FinishText` | components/CanvasLayer.tsx:209-238 | finishText (also on blur) with no session or blank content only closes the session; otherwise it draws the split lines, records exactly one snapshot, then closes the session |
| `Canvas.CanvasLayer.StartDrawing` | components/CanvasLayer.tsx:105-143 | the cursor changes nothing; the text tool commits an open session first, then opens an empty one at the point without setting isDrawing; other tools set startPos, start the path and set the stroke paint |
| `Canvas.CanvasLayer.BeginText` | components/CanvasLayer.tsx:111-120 | the text branch of startDrawing commits as finishText does, then opens an empty session anchored at the point |
| `Canvas.CanvasLayer.Draw` | components/CanvasLayer.tsx:145-181 | no-op unless drawing with neither cursor nor text; freehand tools extend the path and stroke it onto the main surface; other tools leave the main surface alone and replace the preview with `PreviewShape` |
| `Canvas.CanvasLayer.StopDrawing` | components/CanvasLayer.tsx:183-207 | no-op unless drawing; otherwise clears isDrawing, composites and clears the preview for shape tools, and records exactly one snapshot of the surface (pointer-up and pointer-leave alike) |
| `Canvas.CanvasLayer.TypeText` | components/CanvasLayer.tsx:313 | onChange replaces the session's content |
| `Canvas.CanvasLayer.KeyDown` | components/CanvasLayer.tsx:315-320 | Enter without Shift commits as finishText does; any other key, Shift+Enter included, changes nothing |
| `Canvas.CanvasLayer.SyncHistoryAsWritten` | components/CanvasLayer.tsx:69-86 | the effect as written: nothing on an empty stack, else the entry under the cursor drawn with the leftover alpha and composite, else cleared at -1 |
| `Canvas.CanvasLayer.SyncHistory` | components/CanvasLayer.tsx:69-86 | the corrected effect: exactly the entry under the cursor, or empty at -1 |

## Findings

| source | as written | input that shows it | evidently intended | confidence | as-written member | corrected member |
|---|---|---|---|---|---|---|
| components/CanvasLayer.tsx:72 | the restore effect returns at once when the stack is empty, and Clear empties it, so Clear never wipes the drawing | draw anything, then Clear: stack `[]`, cursor -1, surface non-empty | Clear empties the main surface | high; not executed | `Raster.ClearKeepsDrawing` over `Raster.EffectAsWritten`, `Canvas.ClearThenSyncAsWritten` over `App.History.Clear` and `Canvas.CanvasLayer.SyncHistoryAsWritten` | `Raster.EffectAfterClear` over `Raster.Effect`, `Canvas.ClearThenSync` over `App.History.Clear` and `Canvas.CanvasLayer.SyncHistory` |
| components/CanvasLayer.tsx:78-81 | the restore draws the snapshot with whatever alpha and composite mode the last stroke left in the context | release an Eraser stroke: the snapshot is drawn with destination-out over a cleared canvas, so the surface goes blank; a Highlighter stroke fades everything to 0.4 | restore with opaque source-over drawing | medium; not executed | `Raster.EraserRecordBlanksSurface`, `Raster.HighlighterRecordFadesSurface`, `Canvas.EraserStrokeVanishes` | `Raster.EffectAfterRecord`, `Raster.ReplayReproducesSurfaces`, `Canvas.CanvasLayer.SyncHistory` |
| App.tsx:165 | canUndo is `historyIndex >= -1 && historyStack.length > 0`, and the first conjunct always holds | one record then one undo: stack `[s]`, cursor -1; the Undo button stays enabled and does nothing | `historyIndex >= 0` | medium; not executed | `App.CanUndoAtStartIsNoOp` over `App.CanUndo` | `App.CanUndoCorrected` |

## Left out

- Pixels. A surface is the sequence of operations drawn on it since the last clear. A snapshot is that sequence, so `toDataURL` encoding and decoding are lossless by construction. `DrawOnCleared` abstracts what an erasing or translucent `drawImage` over a cleared canvas leaves behind.
- Canvas state that only affects pixels is not modelled: `lineCap`, `lineJoin`, `font` family and weight, `textBaseline`, `fillStyle` (the text color is kept on each text operation), and `closePath`.
- Floating point. Coordinates are integers. The circle keeps its squared radius, because `Math.sqrt` is left out. The arrow-head directions (`atan2`, `cos`, `sin`, π/6) are left out; only the head length is modelled, as a real.
- The resize handler (components/CanvasLayer.tsx:38-66). Its asynchronous capture and re-draw are event-loop behaviour, and resizing also resets the context state.
- Asynchrony of the restore. `img.onload` is modelled as running at once, under the context state at the time of the effect.
- Unmounted-canvas branches, where a context or element is null. The model assumes a mounted canvas, except in `MousePos`.
- React scheduling. Each handler runs to completion and sees the state left by the previous one. The effect runs when its caller invokes `SyncHistory` / `SyncHistoryAsWritten` after the history changes.
- The focus effect (components/CanvasLayer.tsx:88-93), the click-through CSS class, the grid and background styling (components/CanvasLayer.tsx:253-290) and App's hint overlay. These are presentation.
- Saving, the clipboard paste and `FileReader` path, and the AI analyse and generate handlers (App.tsx:67-137). These are browser and network I/O. Only their effect on the background image is kept, as `SetBackground`.
- `DrawStyle.opacity`. The canvas never reads it.
