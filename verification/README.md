# Uploader list engine of srt-player, in Dafny

srt-player's uploader keeps two pending lists, one of videos and one of
subtitle files, before they are saved as pairs. This project models the
in-memory engine behind those lists, from `src/components/Uploader.tsx`:

- **`Reorder`**: the `reorder` mutator, a shifting loop that moves the
  element at `selected` to `hovered`. It is proved equal to "remove, then
  insert" (`MoveTo`), and the usual facts are proved about that reading.
- **`Buffer`**: `addToBuf`, which appends to a list and then keeps only the
  first entry with each name, and the close buttons, which remove entries
  by name.
- **`FileKinds`**: `filterFileHandles`, which sorts files into the video list
  and the subtitle list by the case-insensitive extension
  `.srt`/`.ssa`/`.ass`, and how its result is passed to `addToBuf`.
- **`Geometry`**: the slot of a pointer position (`floor(y / 31)`, with rows
  26 high and 5 apart), the dead zone in the margin after each row, and the
  hovered row during a move.
- **`Markers`**: the up/down shift markers redrawn while a row is dragged.
- **`Gesture`**: the event-driven state machine. It covers `dndStart`,
  `onMove` and `cleanUp` of a drag gesture, and the arrow buttons (`move`).
  All of them share one module-level `locked` flag. Events are `Press`,
  `Move`, `Release`, `Settled` and `Arrow`:
  - `Settled` stands for the end of the row's CSS transition. For a drag it
    also stands for the 200 ms timeout that fires `onEnd` when the transition
    end does not arrive.
  - `Run` folds a sequence of events.
  - The drag callback comes out of a run as a sequence of `Commit`s.

Lists are sequence values. The in-place array loop of `reorder` is run on a
local sequence variable. A file handle is a name plus an opaque number.

In three places the code does something other than the obvious reading of the component, and the model follows the code:

- **Hovered row.** After a valid hovered row, a move outside the list or
  into a dead zone leaves the last valid row in place, because `prevHovered`
  is only overwritten with a valid index (lines 382-383). The release then
  commits that row; it is not a no-op.
- **Hovering the start row.** When the last valid hovered row is the start
  row, the callback still fires as `cb(selected, selected)` (lines 371-373),
  and `reorder` leaves the list as it was.
- **Press in a dead zone.** The code takes the lock and gives it back at once
  (lines 315, 327-329). It does not skip taking it. The net effect is the
  same, and the model records no change.

## Model

| member | source | states |
|---|---|---|
| `Reorder.Reorder` | src/components/Uploader.tsx:409-424 | the shifting loops followed by the write of the saved element compute exactly remove-at-`selected`-then-insert-at-`hovered` |
| `Reorder.MoveToAt` | src/components/Uploader.tsx:409-424 | where every position comes from: the moved element lands at `hovered`, the span between shifts one slot towards `selected`, every other position keeps its element |
| `Reorder.MoveToOutside` | src/components/Uploader.tsx:409-424 | positions outside the span between the two indices are unchanged |
| `Reorder.MoveToSame` | src/components/Uploader.tsx:371-373 | `cb(selected, selected)` leaves the list as it was |
| `Reorder.MoveToKeepsOthersInOrder` | src/components/Uploader.tsx:409-424 | taking the moved element out of the result gives the input without it: all other elements keep their relative order |
| `Reorder.MoveToPermutes` | src/components/Uploader.tsx:409-424 | the multiset of elements is preserved |
| `Reorder.MoveToInverse` | src/components/Uploader.tsx:409-424 | reordering `(i, j)` and then `(j, i)` restores the original list |
| `Reorder.MoveToExamples` | src/components/Uploader.tsx:409-424 | on `[a,b,c]`, `(0,2)` gives `[b,c,a]` and `(2,0)` gives `[c,a,b]` |
| `Reorder.SwapIsMove` | src/components/Uploader.tsx:90-93 | the arrow buttons' swap of two neighbours equals moving one onto the other |
| `Buffer.FindIndex` | src/components/Uploader.tsx:55 | `findIndex` on names; its own ensures says the result is -1 or the index of an entry with that name, and `FindIndexFirst` states that the index is the first match and that -1 means there is none |
| `Buffer.FindIndexFirst` | src/components/Uploader.tsx:55 | `findIndex` on names finds a name whenever some entry carries it, at or before that entry |
| `Buffer.KeepFirst` | src/components/Uploader.tsx:53-58 | the first-occurrence filter yields distinct names; each kept entry is the first with its name; kept entries are in input order; every input name is kept |
| `Buffer.KeepFirstOfDistinct` | src/components/Uploader.tsx:53-58 | a list whose names are already distinct passes the filter unchanged, so the filter is idempotent |
| `Buffer.KeepFirstKeepsBuffered` | src/components/Uploader.tsx:53-58 | appending and filtering never replaces or reorders an already-buffered entry: the old list is a prefix of the new one |
| `Buffer.KeepFirstReAdd` | src/components/Uploader.tsx:53-58 | re-adding only names already in the buffer leaves it unchanged |
| `Buffer.KeepFirstKeepsNames` | src/components/Uploader.tsx:53-58 | every name of the concatenated list is still present after filtering |
| `Buffer.AddToBuf` | src/components/Uploader.tsx:52-60 | after `addToBuf` both lists have pairwise distinct names |
| `Buffer.AddToBufKeepsBuffered` | src/components/Uploader.tsx:52-60 | both old lists are prefixes of the new ones, and every added entry's name is in its list |
| `Buffer.RemoveByName` | src/components/Uploader.tsx:179 | the close filter; its own ensures says only that the result is no longer than the input, and `RemoveByNameMembers` and `RemoveByNameAppend` state what it keeps |
| `Buffer.RemoveByNameMembers` | src/components/Uploader.tsx:179 | the close filter keeps exactly the entries whose name differs from the clicked one |
| `Buffer.RemoveByNameAppend` | src/components/Uploader.tsx:179 | the close filter works entry by entry, so the kept entries stay in order |
| `Buffer.RemoveByNameAbsent` | src/components/Uploader.tsx:217 | a name no entry carries leaves the list unchanged |
| `Buffer.RemoveByNameOfDistinct` | src/components/Uploader.tsx:176-181 | on a list with distinct names, closing row `k` removes exactly row `k`, and the names stay distinct |
| `Buffer.Close` | src/components/Uploader.tsx:214-219 | a close button changes only its own list, and keeps exactly the entries of other names |
| `Buffer.RemoveByNameKeepsDistinct` | src/components/Uploader.tsx:179 | dropping entries by name never makes two names of a list clash |
| `Buffer.CloseKeepsDistinct` | src/components/Uploader.tsx:214-219 | a close button keeps the names of both lists distinct |
| `Buffer.MoveToKeepsDistinct` | src/components/Uploader.tsx:409-424 | a reorder only permutes a list, so names distinct before are distinct after |
| `FileKinds.IsSubtitle` | src/components/Uploader.tsx:268 | the subtitle test; its own ensures says only that a match has a dot four characters from the end, and `IsSubtitleIffExtension` states what it accepts |
| `FileKinds.IsSubtitleIffExtension` | src/components/Uploader.tsx:268 | a name is a subtitle name exactly when it ends in `.srt`, `.ssa` or `.ass`, in any mix of case |
| `FileKinds.IsSubtitleExamples` | src/components/Uploader.tsx:268 | the test is anchored at the end and needs the dot: `movie.srt.mp4`, `movie_srt` and `movie.ass ` are videos, while `.ssa` and `MOVIE.SRT` are subtitles |
| `FileKinds.SelectMembers` | src/components/Uploader.tsx:269-270 | each filter keeps exactly the files whose subtitle test has the requested outcome |
| `FileKinds.SelectPartitions` | src/components/Uploader.tsx:269-270 | the two filters together hold every input file once, counted with multiplicity |
| `FileKinds.SelectAppend` | src/components/Uploader.tsx:269-270 | a filter distributes over concatenation, so each output keeps input order |
| `FileKinds.FilterFileHandles` | src/components/Uploader.tsx:267-272 | a file is in the subtitle list iff it is an input file with a subtitle name, and in the video list iff it is one without |
| `FileKinds.FilterFileHandlesPartitions` | src/components/Uploader.tsx:267-272 | every input file lands in exactly one of the two lists |
| `FileKinds.FilterFileHandlesAppend` | src/components/Uploader.tsx:267-272 | classification preserves input order in both lists |
| `FileKinds.Import` | src/components/Uploader.tsx:128-129 | classifying then adding leaves both lists with distinct names |
| `FileKinds.ImportFiles` | src/components/Uploader.tsx:128-129 | after an import, buffered entries stay in front, in order, and every file's name is in the list of its kind |
| `Geometry.Slot` | src/components/Uploader.tsx:325 | the slot is the pitch band containing `y`: `slot*31 <= y < slot*31 + 31` |
| `Geometry.InGapIffOffset` | src/components/Uploader.tsx:327 | the dead zone is the offsets 27 to 30 within a pitch; the boundary offset 26 is still on the row |
| `Geometry.InGapIffOnNoRow` | src/components/Uploader.tsx:380-381 | a position is in the dead zone exactly when it is over no row's content, and a position over a row is over the row of its slot |
| `Geometry.InGap` | src/components/Uploader.tsx:327 | the margin test, written as the source writes it, with no contract of its own; `InGapIffOffset` and `InGapIffOnNoRow` state what it means |
| `Geometry.Within` | src/components/Uploader.tsx:379 | the bounding-box test, written as the source writes it, with no contract of its own; `HoverIndex` states its role: a valid hovered row needs the pointer inside the box |
| `Geometry.SlotMonotone` | src/components/Uploader.tsx:325 | the slot never decreases as `y` grows |
| `Geometry.HoverIndex` | src/components/Uploader.tsx:379-381 | the hovered row is -1 exactly when the pointer is outside the list or over no row; otherwise it is the row under the pointer |
| `Geometry.HoverIndexBelow` | src/components/Uploader.tsx:379-381 | inside a list whose rows cover its height, a valid hovered row is one of its rows |
| `Markers.Mark` | src/components/Uploader.tsx:386-394 | a marking loop sets exactly the rows of its range and leaves the others |
| `Markers.ClearAll` | src/components/Uploader.tsx:335-340 | `removeTransitions` unmarks every row |
| `Markers.Remark` | src/components/Uploader.tsx:385-394 | after a hover change, rows in `(selected, hovered]` are upward and rows in `[hovered, selected)` are downward, and those are the only marked rows |
| `Markers.ShowsSkipsSelected` | src/components/Uploader.tsx:386-394 | the selected row is never marked, and every marked row lies in the span |
| `Markers.RemarkForgetsHistory` | src/components/Uploader.tsx:385 | because all markers are cleared first, the new markers do not depend on the old ones |
| `Markers.ShowsPreviewsReorder` | src/components/Uploader.tsx:386-394 | the markers preview the reorder a release would commit: upward rows move one slot up, downward rows one slot down, unmarked rows stay |
| `Gesture.PressStep` | src/components/Uploader.tsx:314-342 | `dndStart` changes nothing while locked or in a dead zone; otherwise it locks and starts a drag on list `kind` that selects the slot of `y`, remembers the press position and the list's box, and has no hovered row and no offset yet |
| `Gesture.MoveDrag` | src/components/Uploader.tsx:377-399 | `prevHovered` changes only to a valid hovered row that differs from it, and the markers are redrawn only then; the offset follows the pointer only inside the list |
| `Gesture.MoveDragOk` | src/components/Uploader.tsx:382-383 | once a valid row was hovered, `prevHovered` never returns to -1, and it stays a row of the list |
| `Gesture.ReleaseStep` | src/components/Uploader.tsx:343-367 | a release with no hovered row unlocks and ends the gesture; otherwise the row is sent to offset `(prevHovered - selected) * 31` and the lock is kept |
| `Gesture.SettleStep` | src/components/Uploader.tsx:368-376 | a transition end fires the callback exactly for a settling drag, with its rows, reorders that list and unlocks; for an arrow swap it is the `onEnd` of `move` (lines 90-97): it swaps the rows, clears the markers and unlocks |
| `Gesture.ArrowStep` | src/components/Uploader.tsx:62-88 | `move` changes nothing while locked, when the neighbour is out of range, or with a transition pending; otherwise it locks and marks the two rows |
| `Gesture.Step` | src/components/Uploader.tsx:308-407 | every handler keeps the lock discipline and the list sizes; a callback fires only on a transition end, for a drag with a valid hovered row, and with the lock released |
| `Gesture.StepKeepsDistinct` | src/components/Uploader.tsx:308-407 | no handler makes two names of a list clash: a commit or a swap only moves a row within its list |
| `Gesture.RunKeepsDistinct` | src/components/Uploader.tsx:308-407 | over any run of events, lists with distinct names keep them distinct, so the buffer lemmas that need distinct names still apply after reorders |
| `Gesture.LockedIgnoresStarts` | src/components/Uploader.tsx:63 | while locked, a press or an arrow button changes nothing |
| `Gesture.StepWhileDragging` | src/components/Uploader.tsx:377-399 | during a drag, any event but a release keeps the drag and fires nothing; a valid hover becomes the last one |
| `Gesture.DragThrough` | src/components/Uploader.tsx:377-399 | over any run of non-release events, the last hovered row is the last valid one seen, and nothing fires |
| `Gesture.SettlingIgnores` | src/components/Uploader.tsx:353-367 | a settling drag ignores everything but its transition end |
| `Gesture.SettleWaits` | src/components/Uploader.tsx:353-367 | any events before the transition end leave a settling drag as it is |
| `Gesture.RunPress` | src/components/Uploader.tsx:314-342 | a press on a row from an unlocked state starts a drag of the slot under the pointer |
| `Gesture.DragGestureNoTarget` | src/components/Uploader.tsx:342-375 | a gesture that never hovers a valid row ends at its release, with no callback, nothing changed and the lock free |
| `Gesture.ReleaseWithTarget` | src/components/Uploader.tsx:358-359 | releasing with a valid hovered row starts settling towards it |
| `Gesture.RunReleaseSettles` | src/components/Uploader.tsx:343-367 | after a release with a valid hovered row, the drag is settling and nothing fired |
| `Gesture.RunSettledCommits` | src/components/Uploader.tsx:368-376 | the transition end of a settling drag fires one callback, reorders the list and unlocks |
| `Gesture.ReleaseThenSettleCommits` | src/components/Uploader.tsx:343-376 | release, any events, transition end: exactly one callback with the drag's rows, and the list reordered |
| `Gesture.DragGestureCommits` | src/components/Uploader.tsx:342-383 | a gesture that hovered a valid row fires the callback exactly once, with the pressed slot and the last valid hovered row, reorders the list accordingly and frees the lock |
| `Gesture.DragGestureBackToStart` | src/components/Uploader.tsx:371-373 | when the last valid hovered row is the start row, the callback still fires with that row twice, and the list stays as it was |
| `Gesture.ReleaseThenSettleUnlocks` | src/components/Uploader.tsx:343-376 | whatever is in progress, a release and then a transition end leave the lock free and nothing pending |
| `Gesture.ArrowSwaps` | src/components/Uploader.tsx:62-99 | an arrow press from an unlocked state, then the transition end: the row trades places with an existing neighbour, or nothing changes when there is none; the lock ends free |
| `Gesture.TouchArrowTapStill` | src/components/Uploader.tsx:155-173 | a touch tap on an arrow, seen by the list as a press and a release before the arrow's emulated mouse press, has the same outcome as the arrow press alone |
| `Gesture.TouchArrowTapMoved` | src/components/Uploader.tsx:155-173 | a touch tap on an arrow whose finger drifts within its row commits a drag of the row onto itself; the arrow press meets the lock and is dropped, so the list is unchanged and the lock ends free |

## Left out

- **DOM and React plumbing.** This covers class lists, `style.top`, bounding boxes, event listener registration, `forceUpdate` and rendering. It is replaced by a marker sequence, an offset field and explicit events.
- **The race between `transitionend` and the 200 ms timeout of a drag** (lines 360-366). Both are one abstract `Settled` event, because timers and animation are outside the model.
- **A missing transition end after an arrow press.** The arrow handler `move` (lines 90-98) only listens for `transitionend` and has no timeout fallback. If that event never fires, `locked` stays `true` forever, and every later press and arrow click is ignored. In the `Swapping` phase the model assumes that the transition end always arrives: `Settled` is the only way out of a swap.
- **Pixel coordinates.** The browser reports them as floating-point numbers; the model uses integers relative to the list's top-left corner. A non-integer position such as 26.5 (in the dead zone of row 0) cannot be expressed.
- **Gesture.PressStep** requires `0 <= y <= height < rows * 31`, where `height` is the list box's height. The box's size depends on CSS. The requires excludes three kinds of input:
  - **A press outside the box** (`y < 0` or `y > height`).
  - **A press on an empty list.**
  - **A box at least `rows * 31` tall.** This case includes presses on real rows, which the source handles normally.

  Through `DragOk`, the clause `height < rows * 31` is also the model's only guarantee that every hovered slot is a row. The model therefore assumes that every hovered slot is a row.

  What the source does on these inputs:
  - **A press below the last row or on an empty list.** The source takes the lock (line 315) and finds no `li` at the computed slot. It throws at line 334 when it adds a class to the undefined `selectedLi`. The lock is then never released.
  - **A box `rows * 31` or taller.** A move at the bottom edge (`y == height == rows * 31`, reachable by touch) gives `hovered == rows`:
    - Line 383 stores that slot in `prevHovered`.
    - The marking loop throws at line 388 on the missing `li`, but `prevHovered` keeps the value.
    - The release calls `cb(selected, rows)`. In `reorder`, the shifting loop (lines 414-415) copies the undefined `array[rows]` into slot `rows - 1`. Line 422 then appends the moved entry at index `rows`.
    - The next render throws at line 159 (or line 197) when it reads `.name` of the undefined entry.
- **Gesture.ArrowStep** requires `prev` to be a rendered row, since the arrow buttons exist only on rendered rows.
- **Buffer edits during a gesture.** The model does not interleave buffer edits with a pending gesture. In the source, the `reorder` closure captures the array object at render time (line 154). `move` reads the current array when its button is pressed (line 66), and its `onEnd` swaps rows in that array. So a `filter`/`concat` made after the render (for `reorder`) or after the press (for `move`), before the transition ends, makes them write to a stale array.
- **Mouse versus touch (`IS_MOBILE`).** Which DOM events the source listens to is left out; the model sees only the resulting event stream. For a drag, both modalities produce the same `Press`/`Move`/`Release` events, and only the listener registration differs. The arrow buttons listen only to `onMouseDown` (lines 170, 173, 208, 211), while the list also listens to `onTouchStart` (lines 155, 193).
  - **Mouse.** A click on an arrow produces only the `Arrow` event, because `move` stops the event from bubbling up to the list (line 65).
  - **Touch.** An arrow tap reaches the list first, as `Press`, optionally `Move`, then `Release`. The arrow button's emulated mouse press comes last, as `Arrow`.
  - **Touch, finger kept still.** Without a `Move`, the drag ends at the release and the swap goes ahead (`Gesture.TouchArrowTapStill`).
  - **Touch, finger drifting within its row.** A `Move` over the row makes the release settle with the lock held. The `Arrow` meets the lock and is dropped (line 63), and the drag callback fires with the row twice (`Gesture.TouchArrowTapMoved`).
- **`onSave` and `checkExist`** (lines 24-50, 274-278). They consist of a modal `confirm`, storage writes, analytics and a store subscription, all foreign asynchronous calls.
- **Drop handling and `pickFiles`** (lines 115-127, 254-265). They obtain files through browser file-system APIs. Only their last step is modelled: the classified files are handed to `addToBuf` (`FileKinds.Import`).
- **Stale transition state.** The `transition` test in `move` (line 72) reads React state that is a snapshot of the last render. The model reads the current value. The two can disagree while the lock is free.
- **Where the window opens.** `onEnd` in `move` releases the lock at line 96, but its `setTransition` at line 94 only schedules a render.
- **What happens inside it.** Until that render runs, the `move` closures still see the pending transition. An arrow press in this window is dropped at line 72, while the model starts a swap.
- **When it exists.** The window exists only when React defers that render. Outside it the two agree, because the lock is held from the moment a transition is set until `onEnd`.
- **`src/components/Footer.tsx` and `src/utils/idb.tsx`** are not part of this model: they hold network, service-worker and IndexedDB plumbing with no list logic.
