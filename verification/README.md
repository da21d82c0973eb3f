# Hotspot editor core, in Dafny

The hotspot editor lets a user place clickable rectangles and ellipses
("hotspots") over page images, link each one to a URL or a media file, and
export the pages as HTML. This project models the part of the editor that
holds state and does exact arithmetic, and proves properties of that model:

- **Geometry item** (`Geometry`, `Interaction`): a shape with a position and
  a local rect `(0, 0, w, h)`. It has four corner handles and a move clamp
  that keeps it inside the page bounds, applied per axis. A resize keeps the
  opposite corner fixed, and a press / move / release state machine switches
  between moving and resizing.
- **Scene and data** (`Scene`, `HotspotData`): the items of a page, as a map
  from item references to hotspots, with the selection and the data record
  each hotspot carries.
- **Undo commands** (`Commands`, with `Placement` for the geometry they set
  and `ItemSets` for the items they remove, create and paste): geometry
  change, sparse batch geometry, batch scale, data change, delete, batch
  add, paste and delete page. Each is a pair of functions from state to
  state.
- **Undo stacks** (`History`, `Editing`, `Pages`): Qt's undo stack is a
  library. It is modelled as a linear history: a sequence of commands and a
  cursor, where a push runs the command and drops the redo tail. A page has
  its own stack and hotspot ID counter; the project stack holds page
  deletions.
- **Hotspot IDs** (`Ids`): the per-page counter, which only grows, and the
  `{project}_p{index}_h{n}` format.
- **Controller checks** (`Controller`, `Pages`): validation before a
  geometry, batch geometry or batch scale command is pushed, the choice of
  undo stack, page navigation, and the integer arithmetic of the aspect
  ratio handler.
- **Text and tree tools** (`Toc`, `Tables`, `Outline`, `FileNames`,
  `HotspotImport`, with `Text` and `Cells` for Python's string and cell
  conversions):
  - the table-of-contents extractor: page ranges, line parsing, the keyword
    and layout strategies and the page pass;
  - table-cell merging;
  - the outline: its spreadsheet rows, the tree editor and the two HTML
    serialisers;
  - conflict-free file naming;
  - hotspot import from a spreadsheet.

Coordinates are Dafny `real`s. Where Python's `int()` truncates toward
zero, the model does the same explicitly. Things Qt does behind a call
become explicit arguments: `setPos` passing through `itemChange` while the
item is in a scene, for example, and the item selection. File existence is
a set of paths. A copy that fails is a set of sources whose copy raises.

Points where the code does something other than what it evidently means
to do:

- A batch add or paste redone after an undo builds new items with new IDs.
  The command keeps a branch that re-adds the items it made before
  (commands_parts/_command_batch_add_hotspots.py:63-68), but its undo clears
  that list, so the branch never runs after an undo.
  `Commands.BatchAddRedoAfterUndoFreshIds` states what the code does.
- The geometry change, batch geometry and batch scale commands call
  `setPos` before `setRect`, so the item's move clamp sees the new position
  with the old size. `Commands.Redo` and `Commands.Undo` model this through
  `Scene.PlaceAsWritten`, and the controller lemmas state what follows from
  it. The exact placement the commands evidently intend is `Scene.Place`.
  `Placement.GeometryRedo`, `Placement.PlaceAll`, `Placement.ScaleAll` and the
  round trips stated on them describe that corrected placement. The
  `...AsWritten` lemmas show that the two agree exactly when the clamp does
  not engage; see Findings.
- The resize gesture re-derives its anchor from the item's current
  position on every move. `Interaction.ResizeMoveAsWritten`,
  `Interaction.MouseMoveAsWritten` and `Interaction.GestureAsWritten` do
  what the code does. `Interaction.ResizeMove`, `Interaction.MouseMove` and
  `Interaction.Gesture` use the anchor taken at the press, which is the
  corrected step; see Findings.
- A batch scale keeps each item's centre where the item currently is, which
  is its snapshot only while nothing else has moved it.

## Model

| member | source | states |
|---|---|---|
| Geometry.ClampAxis | graphics_items.py:82-85 | On one axis, a proposal already inside `[lo, hi]` is kept; an item no larger than the bounds ends fully inside them, at `max(lo, min(p, hi - size))`; and the left test wins, so an oversized item still keeps its start edge or its end edge at the bound |
| Geometry.ClampMove | graphics_items_parts/_mixin_interaction_events.py:31-43 | The move clamp applies the one-axis rule to x and to y separately: a position already inside is unchanged, and an item that fits the bounds lands inside them |
| Geometry.ClampPoint | graphics_items.py:123-124 | The resize mouse point is pulled into the bounds coordinate by coordinate; a mouse point already inside is unchanged |
| Geometry.Normalized | graphics_items.py:131 | `QRectF(anchor, mouse).normalized()` has both points as corners, the absolute differences as its size, and their midpoint as its centre |
| Geometry.NormalizedWithin | graphics_items.py:122-133 | If the anchor and the clamped mouse point both lie in the bounds, the resized rectangle lies in the bounds |
| Geometry.Corner | graphics_items.py:57-60 | Handle i sits at a corner of the local rectangle `(0, 0, w, h)`: 0 top-left, 1 top-right, 2 bottom-right, 3 bottom-left |
| Geometry.Opposite | graphics_items.py:126-129 | The anchor handle for handle i is another of the four handles |
| Geometry.OppositeCornersSpan | graphics_items.py:126-129 | The corner a resize holds fixed is diagonally across from the dragged handle: the two differ by the full width and the full height |
| Interaction.LocalCorners | graphics_items.py:56-60 | There are exactly four handle positions |
| Interaction.UpdateHandles | graphics_items.py:46-60 | With a view attached, the handles move to the four corners in handle order; without a view the item is untouched; nothing but the handles ever changes |
| Interaction.NewItem | graphics_items.py:18-41 | A new item has four hidden handles, is not resizing, has no current handle, and sits at the given position and size |
| Interaction.PositionChange | graphics_items.py:75-86 | During a resize, or with no bounds, the proposal passes unchanged; a proposal inside the bounds is kept; otherwise an item that fits ends inside its bounds |
| Interaction.SetPos | graphics_items.py:75 | A position change is filtered only while the item is in a scene; nothing but the position changes |
| Interaction.SelectedChange | graphics_items_parts/_mixin_interaction_events.py:18-22 | Selection shows the handles and moves them to the corners; deselection hides them; geometry and gesture state are untouched |
| Interaction.FirstHit | graphics_items.py:94-97 | The scan returns the first handle, from the starting index on, whose square holds the mouse; no earlier handle is hit; `None` means none is hit |
| Interaction.HandleAt | graphics_items.py:108-113 | A handle is found exactly when some handle's square holds the mouse, and it is the lowest-numbered such handle |
| Interaction.CursorFor | graphics_items.py:99-103 | The arrow cursor is shown exactly when no handle is under the mouse; the `\` cursor exactly on handles 0 and 2 |
| Interaction.Hover | graphics_items_parts/_mixin_interaction_events.py:53-68 | Hovering changes only the cursor, and the cursor matches the handle under the mouse |
| Interaction.AnchorFor | graphics_items.py:126-129 | The anchor of a resize from handle i is a corner of the item's scene rectangle |
| Interaction.Press | graphics_items.py:106-115 | A press starts a resize exactly when it hits a handle; it then records that handle, the press-time size and the opposite corner; geometry and every other field are unchanged |
| Interaction.ResizeTarget | graphics_items.py:122-124 | The mouse point a resize uses lies inside the bounds when there are bounds, and is the raw mouse point otherwise |
| Interaction.Reshape | graphics_items.py:131-134 | The item becomes the normalised rectangle between the anchor and the clamped mouse point; the gesture state, bounds and scene membership are kept |
| Interaction.ResizeMove | graphics_items_parts/_mixin_interaction_events.py:95-104 | The corrected resize step keeps the press-time anchor as a corner of the item, so the anchor is fixed for the whole gesture |
| Interaction.ResizeMoveAsWritten | graphics_items.py:126-133 | The resize step as written takes the press-time corner through the item's current position, which earlier steps of the same gesture have already moved |
| Interaction.FirstMoveAgrees | graphics_items.py:106-133 | The first move after a press is the same written or corrected, since at the press the corner through the current position is the anchor |
| Interaction.MouseMoveAsWritten | graphics_items_parts/_mixin_interaction_events.py:84-114 | The move as the item handles it: outside a gesture a drag through the position filter; inside one the rectangle between the press-time corner taken through the current position and the clamped mouse point |
| Interaction.MouseMove | graphics_items_parts/_mixin_interaction_events.py:84-114 | Corrected: outside a gesture a move is a drag through the position filter; inside one it reshapes the item and keeps the press-time anchor as a corner |
| Interaction.Release | graphics_items_parts/_mixin_interaction_events.py:116-125 | Release always leaves the item not resizing. After a resize it clears the handle and restores the arrow cursor; otherwise it changes nothing. Geometry is never changed |
| Interaction.Gesture | graphics_items.py:117-138 | Corrected: any number of steps with the press-time anchor keeps the gesture going and keeps its anchor |
| Interaction.GestureAsWritten | graphics_items.py:117-138 | The moves of one gesture as the item makes them: each step is the as-written step applied to the result of the moves before it |
| Interaction.GestureKeepsAnchor | graphics_items.py:106-133 | Corrected: pressing a handle and dragging through any non-empty sequence of points ends with the rectangle spanned by the press-time opposite corner and the last clamped mouse point |
| Interaction.GestureEnds | graphics_items.py:117-133 | Corrected: after a gesture's moves, the item is determined by the anchor and the last mouse point only |
| Interaction.ResizeStaysInBounds | graphics_items.py:122-133 | Corrected: with the anchor inside the bounds, a resize step never takes the item outside them |
| Interaction.DragStaysInBounds | graphics_items.py:80-86 | A drag of an item that fits its bounds keeps it inside them |
| Interaction.DriftItemExists | graphics_items.py:18-41 | The 10 x 10 item at (100, 100) used in the drift example can be built |
| Interaction.DriftPress | graphics_items.py:106-115 | Pressing that item's top-left handle starts a resize from handle 0 with the anchor at (110, 110) |
| Interaction.DriftFirstMove | graphics_items.py:126-133 | The first step to (102, 102) shrinks the item to 8 x 8 at (102, 102) |
| Interaction.DriftSecondMoveAsWritten | graphics_items.py:126-133 | A second step to the same point, as written, grows the item back to 10 x 10, so its far corner moves to (112, 112) |
| Interaction.DriftSecondMoveCorrected | graphics_items_parts/_mixin_interaction_events.py:95-102 | The same second step with the press-time anchor leaves the item at 8 x 8 |
| Interaction.AsWrittenAnchorDrifts | graphics_items.py:126-133 | The resize as written moves the corner that should stay fixed when the mouse is held still; the corrected step does not |
| Interaction.EscapeItemExists | graphics_items.py:18-41 | The 100 x 100 item at (100, 100), in 200 x 200 bounds, used in the escape example can be built |
| Interaction.AsWrittenResizeLeavesBounds | graphics_items.py:122-133 | Although the mouse point is clamped into the bounds, two as-written moves to (150, 150) from the top-left handle leave the item 100 x 100 at (150, 150), reaching 250 on both axes; the corrected gesture stays 50 x 50 inside the bounds |
| Ids.NextHotspotId | image_editing_session.py:38-44 | The counter hands out its current value and moves on to a strictly larger one |
| Ids.IndexOf | main_window_parts/_mixin_generate_new_hotspot_id.py:38-42 | `list.index` finds a position exactly when the value is in the list, and it is the first such position |
| Ids.ContextFor | main_window_parts/_mixin_generate_new_hotspot_id.py:33-42 | A page index is known exactly when there is a session and it is in the page list, and then that index holds the session |
| Ids.GenerateId | main_window_parts/_mixin_generate_new_hotspot_id.py:32-48 | An identifier is made exactly when the project has an identifier and the page index is known. It is `{project}_p{page}_h{counter}` and it consumes one counter value. Otherwise the counter is untouched |
| Ids.GenerateNewHotspotId | main_window_parts/_mixin_generate_new_hotspot_id.py:13-48 | The whole generator: `None` with an empty project identifier, no session, or a session not among the pages, and the counter is not consumed then. Otherwise the page part is the session's position in the list |
| Ids.SplitAtSeparator | main_window_parts/_mixin_generate_new_hotspot_id.py:48 | A digit string, a separator that starts with a non-digit, and a tail split back uniquely; this is why the `_h` separator makes the format readable |
| Ids.FormatIdInjective | main_window_parts/_mixin_generate_new_hotspot_id.py:48 | Within one project, an identifier determines its page index and its counter value |
| Ids.Generated | image_editing_session.py:38-44 | The identifiers of k generations in a row, one per call |
| Ids.GeneratedIds | image_editing_session.py:42-44 | k generations in a row name counter values `counter`, `counter + 1`, ... on the session's page |
| Ids.GeneratedIdsDistinct | main_window_parts/_mixin_generate_new_hotspot_id.py:45-48 | Any two identifiers from one run of generations differ |
| Editing.NewSession | image_editing_session.py:13-36 | A new session has no hotspots, an empty undo stack, and its counter at `next_hotspot_id_start` |
| Editing.TakeId | image_editing_session.py:38-44 | `get_next_hotspot_id` returns the current counter value, leaves the counter one higher, and changes nothing else |
| Editing.RunCounterMonotone | image_editing_session.py:13-44 | No sequence of pushes, undos and redos of any commands ever lowers the hotspot counter |
| History.PrimaryStack | main_window_parts/_mixin_update_ui_for_active_session.py:24-26 | The menus act on the page's stack exactly when there is an active page whose stack can undo or redo; otherwise on the project's stack |
| History.PushMakesPagePrimary | main_window_parts/_mixin_update_ui_for_active_session.py:24-26 | After a push the page's stack is the primary one; an empty page stack leaves the project's stack primary |
| Pages.ActiveSession | main_window_parts/_mixin_active_session_property.py:26-30 | There is an active session exactly when the active index is a valid position, and it is the session at that position |
| Pages.ControlsOf | main_window_parts/_mixin_update_ui_for_active_session.py:59-79 | Previous is enabled iff the index is above 0, Next iff it is below n - 1. Page deletion and the page box are enabled iff there is an active page. The scrollbar is enabled iff n > 1 and its maximum is `max(0, n - 1)` |
| Pages.UpdateUi | main_window_parts/_mixin_update_ui_for_active_session.py:63-91 | With an active page, the scrollbar goes to its index and the page box shows its 1-based number; otherwise the scrollbar goes to 0 and the box is cleared; nothing else changes |
| Pages.LabelShowsPage | main_window_parts/_mixin_update_ui_for_active_session.py:64 | The label `i+1 / n` reads back as the active page number and the page count |
| Pages.ScrollInRange | main_window_parts/_mixin_update_ui_for_active_session.py:76-91 | After a refresh the scrollbar value lies within the range the refresh gives it |
| Pages.SetActiveSession | main_window_parts/_mixin_set_active_session.py:24-68 | A valid index becomes active, and the outline's default page becomes index + 1. An out-of-range index changes nothing, except that with no pages the index becomes -1. The page lists are never touched |
| Pages.OnScroll | main_window_parts/_mixin_on_scroll.py:24-34 | A programmatic scroll, an out-of-range value or the current index changes nothing; a user scroll to another valid page activates it |
| Pages.NextPage | main_window_parts/_mixin_next_page.py:16-17 | From any page before the last, Next moves one forward; from the last page it changes nothing |
| Pages.PreviousPage | main_window_parts/_mixin_previous_page.py:17-19 | From any page after the first, Previous moves one back; on the first page it changes nothing |
| Pages.ButtonsMatchNavigation | main_window_parts/_mixin_update_ui_for_active_session.py:59-60 | The Next and Previous buttons are enabled exactly when pressing them changes the page, and a change stays in range |
| Pages.GoToPageFromInput | main_window_parts/_mixin_go_to_page_from_input.py:18-40 | With no pages nothing happens. An integer p with 1 <= p <= n activates index p - 1. Any other text, or a number out of range, puts the current page number back in the box |
| Pages.GoToShownPage | main_window_parts/_mixin_go_to_page_from_input.py:25-30 | Typing the 1-based number of page k goes to page k |
| Pages.RemoveAt | commands_parts/_command_delete_page.py:52-53 | `list.pop(i)` keeps the elements before i and shifts those after it down by one |
| Pages.InsertAt | commands_parts/_command_delete_page.py:29-30 | `list.insert(i, x)` puts x at i, keeping the elements before and after it, and appends past the end |
| Pages.InsertRemoved | commands_parts/_command_delete_page.py:29-53 | Inserting a popped element back at its index restores the list |
| Pages.RemoveAtElements | commands_parts/_command_delete_page.py:48-53 | Popping from a list without repeats removes exactly the popped element and keeps it free of repeats |
| Pages.DeletePageRedo | commands_parts/_command_delete_page.py:41-74 | A session already gone changes nothing. Otherwise the session and its viewer are popped at the session's current index, so the lists stay parallel. The active index becomes min(index, n - 1), or -1 when no page is left. The project is marked dirty |
| Pages.DeletePageUndo | commands_parts/_command_delete_page.py:23-38 | Session and viewer go back in at the recorded index, that page becomes active, and the project is marked dirty |
| Pages.DeleteRequest | main_window_parts/_mixin_delete_current_page.py:23-39 | A deletion is built only after a "Yes" with an active page, and it captures that session, its viewer and its index at the time of asking |
| Pages.DeleteCurrentPage | main_window_parts/_mixin_delete_current_page.py:38-40 | A confirmed deletion is run and pushed onto the project's stack; otherwise nothing changes |
| Pages.DeletePageRoundTrip | commands_parts/_command_delete_page.py:23-74 | Deleting the active page and undoing it restores both lists and the active page |
| Placement.Snap | commands_parts/_command_batch_items_geometry.py:28-35 | At construction a command takes one snapshot per item, in order, holding that item's position and size at that time |
| Placement.PlaceAll | commands_parts/_command_batch_items_geometry.py:41-44 | Corrected placement: restoring snapshots changes only item geometry; no item is created or dropped, and membership, selection and the scene rectangle are kept |
| Placement.PlaceAllEffect | commands_parts/_command_batch_scale.py:42-45 | Corrected placement: with no item listed twice, each listed item ends at its own snapshot's geometry and every other item is untouched |
| Placement.PlaceAllOwnSnapshot | commands_parts/_command_batch_items_geometry.py:28-44 | Corrected placement: restoring snapshots taken from the scene as it is changes nothing |
| Placement.PlaceAllLast | commands_parts/_command_batch_items_geometry.py:41-67 | Corrected placement: a second placement of the same items overrides the first completely |
| Placement.PlaceAllAsWritten | commands_parts/_command_batch_items_geometry.py:41-44 | The placements as the code issues them, one clamped `setPos` and one `setRect` per snapshot: geometry changes only, with membership, selection and the scene rectangle kept |
| Placement.PlaceAllAsWrittenEffect | commands_parts/_command_batch_items_geometry.py:41-44 | With no item listed twice, each listed item takes its snapshot's size and the position the clamp makes of the snapshot's position against the item's size before the placement; other items are untouched |
| Placement.PlaceAllAsWrittenExact | commands_parts/_command_batch_items_geometry.py:41-44 | When the clamp engages for none of the items, the placements as written are the exact placements |
| Placement.GeometryRedo | commands_parts/_command_geometry_change.py:43-48 | Corrected redo: the item takes exactly the new position and size, and every other item is untouched |
| Placement.GeometryChangeRoundTrip | commands_parts/_command_geometry_change.py:32-48 | Corrected: redo, then undo with the item's own old geometry, restores the scene exactly |
| Scene.PlaceAsWritten | commands_parts/_command_geometry_change.py:36-37 | `setPos` then `setRect` as the commands issue them: the position lands where the clamp puts it against the item's old size, then the size is set; the result is the exact placement exactly when the clamp is idle |
| Scene.Landing | graphics_items.py:75-86 | Where `setPos` puts an item: unchanged outside a scene, through the move clamp with the item's current size inside one; the position is kept exactly when the clamp is idle |
| Placement.GeometryUndoAsWritten | commands_parts/_command_geometry_change.py:36-37 | The undo as written always restores the old size, and restores the old position whenever the item is outside a scene or has no bounds |
| Commands.AsWrittenUndoMisplaces | commands_parts/_command_geometry_change.py:36-37 | Growing a 50 x 50 item at (150, 150), in 200 x 200 bounds, to 100 x 100 at (10, 10) lands there; the undo as written brings it back at (100, 100), while the corrected undo restores the page |
| Commands.AsWrittenRedoMisplaces | commands_parts/_command_geometry_change.py:47-48 | Typing (180, 180), 10 x 10 for a 50 x 50 item at the origin in 200 x 200 bounds: the redo as written puts it at (150, 150), the corrected redo at (180, 180) |
| Commands.GeometryChangeAsWritten | commands_parts/_command_geometry_change.py:32-48 | The geometry change as the code runs it: redo sets the new size and the clamped new position and leaves other items alone; it equals the corrected redo exactly when the clamp is idle; with the undo's clamp idle as well, undo restores the page |
| Placement.Edited | commands_parts/_command_batch_items_geometry.py:61-64 | Each of x, y, w, h comes from the change set when it is present and from the item's own snapshot otherwise |
| Placement.EditAll | commands_parts/_command_batch_items_geometry.py:54-67 | The batch edit computes one new geometry per snapshot, for the same items in the same order |
| Placement.EditedIdempotent | commands_parts/_command_batch_items_geometry.py:61-64 | Applying the same change set twice is the same as applying it once |
| Placement.ScaledSize | commands_parts/_command_batch_scale.py:68-75 | `horizontal` scales only the width, `vertical` only the height, `overall` both; any other mode leaves the size unchanged |
| Placement.CenteredPos | commands_parts/_command_batch_scale.py:61-83 | The new top-left is the old centre minus half the new size, so the centre stays where it was |
| Placement.ScaleAll | commands_parts/_command_batch_scale.py:51-83 | Corrected scale: geometry changes only; no item is created or dropped, and membership and selection are kept |
| Placement.ScaleTargets | commands_parts/_command_batch_scale.py:55-83 | Each item's target is the scaled snapshot size, centred on the item's current centre, not on its snapshot position |
| Placement.ScaleAllIsPlaceAll | commands_parts/_command_batch_scale.py:55-83 | Corrected: with distinct items, scaling them one after another is the same as placing them all at targets computed up front |
| Placement.ScaleKeepsCenters | commands_parts/_command_batch_scale.py:12-83 | Corrected: scaling items recorded as they are keeps every centre, gives each item its scaled size, and leaves the other items alone |
| Placement.ScaleAllAsWritten | commands_parts/_command_batch_scale.py:55-83 | The scale as the code runs it: centres read from the current positions, then a clamped `setPos` against the unscaled size; geometry changes only |
| Placement.ScaleAllAsWrittenIsPlaceAll | commands_parts/_command_batch_scale.py:55-83 | With distinct items the scale as written is the clamped placement of targets computed up front |
| ItemSets.RemoveAll | commands_parts/_command_delete.py:38-45 | Redo of a delete removes the listed items from the scene and the selection; items are not destroyed, and a listed item outside the scene is skipped |
| ItemSets.RestoreAll | commands_parts/_command_delete.py:26-32 | Undo of a delete adds every listed item back and selects it; nothing else changes |
| ItemSets.DeleteRoundTrip | commands_parts/_command_delete.py:26-45 | Deleting items of the scene and undoing it shows the same items again, with the deleted ones selected as well |
| ItemSets.ShapeNamesRoundTrip | commands_parts/_command_paste.py:76 | A shape recorded as `rectangle` or `ellipse` comes back as the same shape under both the paste rule and the batch-add rule |
| ItemSets.IdAt | main_window_parts/_mixin_generate_new_hotspot_id.py:33-48 | The i-th identifier of a run exists exactly when the project and the session's page are known |
| ItemSets.AddDescribed | commands_parts/_command_batch_add_hotspots.py:76-100 | A batch add creates exactly one new item per descriptor, each one an item that did not exist before; the counter does not go down |
| ItemSets.AddDescribedKeeps | commands_parts/_command_batch_add_hotspots.py:76-100 | A batch add keeps every existing item and the selection, and makes exactly the new items members |
| ItemSets.AddDescribedKeepsItems | commands_parts/_command_batch_add_hotspots.py:76-100 | Existing items and the selection are untouched by a batch add |
| ItemSets.AddDescribedMembers | commands_parts/_command_batch_add_hotspots.py:99-100 | The scene gains exactly the added items |
| ItemSets.AddDescribedItemAt | commands_parts/_command_batch_add_hotspots.py:76-92 | The i-th new item comes from the i-th descriptor: an ellipse iff its type is `ellipse`, placed at its pos with its w and h, bounded by the scene rectangle, with the i-th identifier of the run written into its data |
| ItemSets.AddDescribedItems | commands_parts/_command_batch_add_hotspots.py:76-92 | The same fact for every index at once |
| ItemSets.AddDescribedCounter | commands_parts/_command_batch_add_hotspots.py:90 | A batch add uses one counter value per item when identifiers can be made, and none otherwise |
| ItemSets.PasteIdIsNext | commands_parts/_command_paste.py:83-85 | A paste step takes the next identifier of the run only when there is a session, and consumes a counter value exactly when one is made |
| ItemSets.PasteEntries | commands_parts/_command_paste.py:71-94 | A paste creates exactly one new item per clipboard entry, each one an item that did not exist before |
| ItemSets.PasteEntriesKeeps | commands_parts/_command_paste.py:71-94 | Pasting keeps every existing item and adds each new item to the scene and to the selection |
| ItemSets.PasteEntriesKeepsItems | commands_parts/_command_paste.py:71-94 | Existing items are untouched by a paste |
| ItemSets.PasteEntriesMembers | commands_parts/_command_paste.py:92-94 | Every pasted item ends up in the scene and selected |
| ItemSets.PasteEntriesItemAt | commands_parts/_command_paste.py:71-87 | The i-th pasted item comes from the i-th entry: a rectangle iff its type is `rectangle`, at position + (10i, 10i), with the entry's size. Its data is a copy, with the i-th identifier of the run when there is a session |
| ItemSets.PasteEntriesItems | commands_parts/_command_paste.py:71-87 | The same fact for every index at once |
| ItemSets.PasteEntriesCounter | commands_parts/_command_paste.py:83-85 | A paste uses one counter value per item when identifiers can be made, and none otherwise |
| Commands.Redo | commands_parts/_command_batch_add_hotspots.py:56-103 | Running any command forwards, with geometry set by clamped `setPos` then `setRect`, keeps the scene well formed, never drops an item, and never lowers the counter |
| Commands.AddBack | commands_parts/_command_batch_add_hotspots.py:63-68 | Redo of a batch add after its items were built adds those same items back without selecting them |
| Commands.Undo | commands_parts/_command_paste.py:40-46 | Running any command backwards, with geometry set by clamped `setPos` then `setRect`, keeps the scene well formed, keeps every item object, and never touches the counter |
| Placement.BatchGeometryRoundTrip | commands_parts/_command_batch_items_geometry.py:28-67 | Corrected placement: a batch edit built from the items' current geometry gives each listed item the edited coordinates and leaves the other items alone; restoring the snapshots restores the page exactly |
| Placement.BatchGeometryRedoIdempotent | commands_parts/_command_batch_items_geometry.py:54-67 | Corrected placement: the redo reads only the snapshots, so running it twice gives the same page as running it once |
| Placement.BatchScaleRoundTrip | commands_parts/_command_batch_scale.py:38-83 | Corrected placement: restoring the snapshots undoes a batch scale exactly, and scaling again repeats the first scale |
| Commands.BatchGeometryAsWritten | commands_parts/_command_batch_items_geometry.py:28-67 | The batch edit as the code runs it: each item takes its edited size and the clamped edited position, other items are untouched; with no clamp engaged it is the corrected edit, and with the undo's clamps idle too, undo restores the page |
| Commands.AsWrittenBatchUndoMisplaces | commands_parts/_command_batch_items_geometry.py:41-44 | Widening a 50 x 50 item at (150, 150), in 200 x 200 bounds, to 100 and undoing: the undo as written puts it at (100, 150); the corrected undo restores the page |
| Commands.BatchScaleAsWritten | commands_parts/_command_batch_scale.py:38-83 | The batch scale as the code runs it: each item takes its scaled size and the clamped centred position, and keeps its centre exactly when its clamp is idle; with no clamp engaged it is the corrected scale, and with the undo's clamps idle too, undo restores the page |
| Commands.AsWrittenScaleMovesCentre | commands_parts/_command_batch_scale.py:78-83 | Halving a 100 x 100 item at (100, 100), in 200 x 200 bounds: as written it ends 50 x 50 at (100, 100), its centre moved from (150, 150) to (125, 125); the corrected scale keeps (150, 150) |
| Commands.DataChangeRoundTrip | commands_parts/_command_data_change.py:23-45 | Redo sets the item's data to the new record and leaves geometry and the other items alone. Undo restores the page. Redo after undo repeats the first redo |
| Commands.DeleteCommandRoundTrip | commands_parts/_command_delete.py:24-45 | After a delete none of the listed items is in the scene, although the item objects remain; undo shows the page as it was, with the deleted items selected |
| Commands.BatchAddWithoutSession | commands_parts/_command_batch_add_hotspots.py:71-74 | With no session for the view, a batch add changes nothing |
| Commands.BatchAddRedo | commands_parts/_command_batch_add_hotspots.py:56-103 | The first redo with a session makes one new item per descriptor, each built from its descriptor with the next identifier. Existing items and the selection are kept. The counter rises by one per named item |
| Commands.BatchAddRoundTrip | commands_parts/_command_batch_add_hotspots.py:42-49 | Undo of a batch add shows the page as it was and forgets the added items, but leaves the counter where the redo left it |
| Commands.BatchAddRedoAfterUndoFreshIds | commands_parts/_command_batch_add_hotspots.py:62-92 | Because undo clears the added list, a redo after an undo builds new items whose identifiers differ from every identifier of the first redo |
| Commands.IdAtDistinct | image_editing_session.py:38-44 | Identifiers drawn from counter values that differ are different |
| Commands.PasteRedo | commands_parts/_command_paste.py:52-98 | The first redo clears the selection, then makes one new item per entry, placed and named as above. Existing items are kept and exactly the pasted items end up selected |
| Commands.PasteRoundTrip | commands_parts/_command_paste.py:40-68 | Undo of a paste shows the page's items as they were with nothing selected, forgets the pasted items, and keeps the counter where the redo left it |
| Controller.ParseGeometry | main_window_parts/_mixin_commit_geometry_change.py:42-52 | The four fields are accepted exactly when all four parse as floats and the width and height are positive, and then they are the parsed values |
| Controller.CommitGeometry | main_window_parts/_mixin_commit_geometry_change.py:32-68 | Nothing happens without an active page or unless exactly one item is selected. A parse error or a non-positive size is an input error. Typed geometry equal to the item's pushes nothing. Otherwise one geometry change from the item's geometry to the typed one is pushed; the controller applies no bounds of its own |
| Controller.CommitGeometryApplies | main_window_parts/_mixin_commit_geometry_change.py:55-68 | The pushed change gives the item the typed size and keeps its data and the other items; the item lands at the typed position exactly when the move clamp against its old size is idle; with the undo's clamp idle too, undo restores the page |
| Controller.ParseOptional | main_window_parts/_mixin_commit_batch_geometry_change.py:41-57 | An empty field means "leave as is". A filled field must parse, and a size field must be positive, or it is an error |
| Controller.BatchChanges | main_window_parts/_mixin_commit_batch_geometry_change.py:38-63 | The change set exists exactly when every field is valid, and it holds exactly the filled-in fields |
| Controller.CommitBatchGeometry | main_window_parts/_mixin_commit_batch_geometry_change.py:31-71 | Nothing happens without an active page or with one item or fewer. Any invalid field is an input error. No filled-in field pushes nothing. Otherwise one batch command over the selection, with snapshots taken now, is pushed |
| Controller.CommitBatchApplies | main_window_parts/_mixin_commit_batch_geometry_change.py:38-71 | After the push every selected item takes each filled-in size and keeps its own size for the empty fields, and keeps its data; it lands at the filled-in position exactly when its clamp against its old size is idle; with no clamp engaged on redo or undo, undo restores the page |
| Controller.OpenBatchScale | main_window_parts/_mixin_open_batch_scale_dialog.py:29-48 | No active page does nothing; one item or fewer gives the notice; a cancelled dialog or a factor of 1.0 pushes nothing; otherwise one batch scale over the selection is pushed |
| Controller.OpenBatchScaleApplies | main_window_parts/_mixin_open_batch_scale_dialog.py:45-48 | A pushed scale gives every selected item its scaled size and keeps its data; the item keeps its centre exactly when its clamp against the unscaled size is idle; with no clamp engaged on redo or undo, undo restores the page |
| Controller.TruncDiv | main_window_parts/_mixin_aspect_ratio_handler.py:63 | `int(a / b)` rounds the quotient toward zero: its magnitude is the floor of the magnitudes' quotient and its sign is the operands' combined sign |
| Controller.ParseRatio | main_window_parts/_mixin_aspect_ratio_handler.py:54 | A ratio text is accepted only when it splits at `:` into exactly two integers, and then it gives those integers |
| Controller.CalculateSize | main_window_parts/_mixin_aspect_ratio_handler.py:43-73 | A missing, empty or `free` ratio changes nothing, and at most one field ever changes. The height changes only after a width or ratio edit, to `int(w * rh / rw)`; the width changes only after a height edit, to `int(h * rw / rh)`. Invalid text or a zero ratio part changes nothing |
| Controller.RatioRoundTrip | main_window_parts/_mixin_aspect_ratio_handler.py:60-69 | Deriving the height from a width and then the width from that height never exceeds the first width, and gives it back exactly when the first division is exact |
| Toc.Insert | tools/tool_extract_toc.py:119 | Adding a page to a sorted, duplicate-free list keeps it sorted and duplicate-free, and the list then holds exactly the old pages plus the new one |
| Toc.InsertAll | tools/tool_extract_toc.py:119 | `sorted(set(p for p in pages if p >= 0))`: the result is strictly increasing and holds exactly the non-negative values given |
| Toc.Range | tools/tool_extract_toc.py:111 | `range(lo, hi)` lists lo, lo + 1, ..., hi - 1, and is empty when lo >= hi |
| Toc.PartPagesNames | tools/tool_extract_toc.py:107-118 | A part lists page p exactly when it is `a-b` with two integer ends and a - 1 <= p < b, or, without a dash, when it is the integer p + 1. So reversed or malformed parts list nothing |
| Toc.RemoveSpaces | tools/tool_extract_toc.py:104 | `replace(" ", "")` removes every space and keeps every other character |
| Toc.PartsPages | tools/tool_extract_toc.py:105-119 | Collecting the pages of several parts keeps the list strictly increasing |
| Toc.PartsPagesElems | tools/tool_extract_toc.py:105-119 | A page is collected exactly when it was there already, or it is non-negative and some non-empty part lists it |
| Toc.ParsePageRange | tools/tool_extract_toc.py:101-119 | The result is sorted, has no duplicates and no negative pages, and holds exactly the non-negative pages some non-empty comma-separated part names |
| Toc.PagesToProcess | tools/tool_extract_toc.py:58-64 | The stripped page range must name at least one page; otherwise the tool stops with an input error |
| Toc.ParseLine | tools/tool_extract_toc.py:175-182 | When the stripped line has more than one word and the last is all digits, the page is that number; otherwise there is no page and the title is the whole stripped line |
| Toc.ParseLineRoundTrip | tools/tool_extract_toc.py:175-182 | A title of words followed by a space and a page number reads back as that title and that page |
| Toc.ParseLineOneWord | tools/tool_extract_toc.py:179 | A line of a single word never has a page, even when the word is a number |
| Toc.AppendChildKeeps | tools/tool_extract_toc.py:196-199 | Adding a leaf under the current chapter makes it the last child of the last root and changes no other root. The tree stays at two levels and the list of chapter titles is kept |
| Toc.AppendRootKeeps | tools/tool_extract_toc.py:192-195 | Adding a chapter adds exactly its title to the chapter titles and keeps the tree at two levels |
| Toc.ParseTocLine | tools/tool_extract_toc.py:191-192 | A line's title and page are the parsed ones, and it is a chapter exactly when its title matches `^\s*(Unit|Module|第.*[单元章课])` ignoring ASCII case |
| Toc.KeywordStepTitles | tools/tool_extract_toc.py:192-199 | One line adds a root exactly when it is a chapter line, with its title; any other line adds no root |
| Toc.KeywordStepPages | tools/tool_extract_toc.py:196-199 | A non-chapter line without a page is dropped, so every child has a page |
| Toc.KeywordTreeTitles | tools/tool_extract_toc.py:184-199 | The roots the keyword pass builds are exactly the chapter lines, in order |
| Toc.KeywordTreePages | tools/tool_extract_toc.py:196-199 | Every child the keyword pass builds has a page |
| Toc.KeywordTreeTwoLevels | tools/tool_extract_toc.py:184-199 | The keyword pass builds chapters and their entries only: two levels |
| Toc.FirstChildPage | tools/tool_extract_toc.py:239-240 | The first child page that is given: it is the page of a child that every earlier child lacks a page before, and when there is none no child has a page |
| Toc.PostProcessKeeps | tools/tool_extract_toc.py:236-244 | The page pass keeps the shape and titles of the tree and every given page. A missing page takes the first given child page when that page is not 0 (which Python treats as false), and otherwise stays missing. Each node's children are the page pass of its old children |
| Toc.KeywordStrategyRoots | tools/tool_extract_toc.py:184-201 | The keyword strategy's roots are the chapter lines in order. Root k has exactly the children of `Toc.Chapters` root k: the lines with a page after its chapter line, up to the next chapter line. Its page is filled by the page pass |
| Toc.KeywordPassRoots | tools/tool_extract_toc.py:184-201 | The page pass after the keyword pass keeps the roots and their children, which are those of `Toc.Chapters`, and fills each root's page from its first child |
| Toc.MergeLines | tools/tool_extract_toc.py:205-221 | Each entry consumes one line or one line and a number line, so there are at most as many entries as lines and at least half as many |
| Toc.MergeLinesPlain | tools/tool_extract_toc.py:205-221 | With no line that is only digits, nothing merges: entry i is line i with its parsed title and page and its own indentation |
| Toc.LayoutNegativeIndentFails | tools/tool_extract_toc.py:224-229 | An entry at indentation -5 pops the root frame, whose indentation is -1, so the next `parent_stack[-1]` fails: the builder as written has no result |
| Toc.LayoutTree | tools/tool_extract_toc.py:222-232 | The corrected indentation tree never pops the root. It skips entries without a title or page, so every node has both, and depth never exceeds two. Where each entry goes is stated by `Toc.LayoutTreeIsRoots` |
| Toc.LayoutTreeAgrees | tools/tool_extract_toc.py:222-232 | Wherever the code as written does not fail, it builds the corrected tree |
| Toc.LayoutStrategy | tools/tool_extract_toc.py:203-234 | No lines give no tree. Otherwise the result is `Toc.LayoutRoots` of the merged entries that have a title and a page, and each appears once, in line order. Every node has a title and a page, and there are at most two levels |
| Toc.ChapterEntries | tools/tool_extract_toc.py:196-199 | The entries a chapter gets are leaves that have a page |
| Toc.Chapters | tools/tool_extract_toc.py:190-199 | The reference keyword tree, read off the lines: one root per chapter line, with the lines that have a page, up to the next chapter line, as its leaves. It has two levels, and every child has a page |
| Toc.KeywordTreeIsChapters | tools/tool_extract_toc.py:190-199 | Started on some roots, the keyword pass adds the lines with a page, up to the first chapter line, to the last root, and then builds `Toc.Chapters` of the lines |
| Toc.KeywordTreeChapters | tools/tool_extract_toc.py:184-199 | From no roots, the keyword pass builds exactly `Toc.Chapters` |
| Toc.ChaptersSkipPreamble | tools/tool_extract_toc.py:196 | Lines before the first chapter line contribute nothing to the tree |
| Toc.ChaptersAt | tools/tool_extract_toc.py:192-199 | The chapter line at position c is root number k, where k counts the chapter lines before it. Its children are the lines with a page after it, up to the next chapter line |
| Toc.PostProcessAllDepths | tools/tool_extract_toc.py:236-244 | The page pass fills pages as `Toc.PageFilled` says at every depth of the tree, not only at the top, and keeps every title |
| Toc.PassedFromUnique | tools/tool_extract_toc.py:236-244 | A tree whose pages are filled at every depth from the original is the page pass's result: the description determines the pass |
| Toc.MergeTitleWithNumber | tools/tool_extract_toc.py:210-217 | A line without a page followed, less than 20 apart vertically, by an all-digit line gives one entry: its title and indentation, with that number as its page. The number line gives no entry |
| Toc.MergeLineAlone | tools/tool_extract_toc.py:218-221 | Any other line is an entry on its own, with its parsed title and page and its indentation |
| Toc.LayoutTreeIsRoots | tools/tool_extract_toc.py:222-232 | The builder makes `Toc.LayoutRoots` of the kept entries. An entry joins the open root exactly when it is indented deeper than it; any other entry opens a root of its own |
| Toc.LayoutRootsInOrder | tools/tool_extract_toc.py:224-232 | Every kept entry appears in the tree once, roots followed by their children, in the order of the lines |
| Toc.LayoutPostProcess | tools/tool_extract_toc.py:233 | On the layout tree the page pass changes nothing |
| Toc.LeavesUnchanged | tools/tool_extract_toc.py:236-244 | Leaves with pages pass through the page pass unchanged |
| Toc.NodesWithPagesUnchanged | tools/tool_extract_toc.py:236-244 | Nodes with pages whose children pass unchanged pass unchanged |
| Toc.ExtractToc | tools/tool_extract_toc.py:74-84 | The keyword strategy is used when it finds anything; otherwise the layout strategy, whose every node has a title and a page |
| Tables.InsertCell | tools/tool_extract_tables.py:147 | Inserting a cell into a list sorted by the sort key keeps it sorted, and the result is a permutation of the list plus that cell |
| Tables.SortCells | tools/tool_extract_tables.py:147 | `sorted(cells, key=...)` yields a list sorted by the key that is a permutation of its input |
| Tables.RunLength | tools/tool_extract_tables.py:149-151 | The cells taken into the current group are exactly the leading cells whose grouping coordinate is within the tolerance of the group's first cell. The first cell after them is not |
| Tables.Groups | tools/tool_extract_tables.py:148-155 | The groups put back together are the sorted cells, and no group is empty |
| Tables.GroupsAreGrouping | tools/tool_extract_tables.py:148-155 | Every cell of a group is within tolerance of the group's first cell, and each later group's first cell is not within tolerance of the first cell of the group before it |
| Tables.GroupingUnique | tools/tool_extract_tables.py:148-155 | There is only one such grouping of a list: two groupings with the same cells in order are equal. So the loop's groups are fully fixed by that description |
| Tables.FirstGroupIsRun | tools/tool_extract_tables.py:148-154 | In any grouping, the first group is the first cell and the run of cells after it that are within tolerance of it |
| Tables.Chunks | tools/tool_extract_tables.py:158-172 | Slicing a group `k` at a time yields non-empty chunks of at most `k` cells, each exactly `k` except the last |
| Tables.ChunksFlatten | tools/tool_extract_tables.py:158-172 | The chunks, put back together, are the group: no cell is lost or repeated |
| Tables.RunCount | tools/tool_extract_tables.py:158-172 | ceil(n / k): a non-empty group gives at least one chunk |
| Tables.ChunksCount | tools/tool_extract_tables.py:158-172 | A group of n cells is cut into ceil(n / k) chunks |
| Tables.MinOf | tools/tool_extract_tables.py:162-163 | `min` is at most every value and is one of them |
| Tables.MaxOf | tools/tool_extract_tables.py:164-165 | `max` is at least every value and is one of them |
| Tables.MergeChunk | tools/tool_extract_tables.py:162-171 | The merged cell is the smallest box holding every cell of the chunk: it contains each one, and each side touches one. Its text is the chunk's non-empty texts joined by single spaces |
| Tables.MergeChunks | tools/tool_extract_tables.py:159-172 | One merged cell per chunk, in order |
| Tables.MergeGroup | tools/tool_extract_tables.py:157-172 | A group of n cells, ordered along the other axis, gives ceil(n / k) merged cells |
| Tables.MergeGroupCells | tools/tool_extract_tables.py:157-172 | Merged cell j of a group is the merge of cells j*k up to j*k + k (or the end) of the group in order along the other axis |
| Tables.MergedRunAt | tools/tool_extract_tables.py:159-172 | Chunk j is merged from the run starting at j*k |
| Tables.ChunkAt | tools/tool_extract_tables.py:158-172 | Chunk j of a group is the slice from j*k to j*k + k, cut at the end of the group |
| Tables.MergeAlong | tools/tool_extract_tables.py:146 | No cells give no merged cells |
| Tables.MergeGroupsCount | tools/tool_extract_tables.py:156-172 | Each group of n cells contributes ceil(n / k) merged cells |
| Tables.CountsBound | tools/tool_extract_tables.py:156-172 | Merging never yields more cells than there are, and with k = 1 the count is kept |
| Tables.RunCountAtMost | tools/tool_extract_tables.py:158-172 | ceil(n / k) <= n, with equality at k = 1 |
| Tables.MergeAlongCount | tools/tool_extract_tables.py:144-172 | The number of merged cells is the sum over the groups of ceil(n / k), and never more than the number of cells |
| Tables.MergeHotspots | tools/tool_extract_tables.py:140-202 | Both counts at most 0 return the cells unchanged. A positive vertical count merges down columns with the x tolerance, whatever the horizontal count. Otherwise a positive horizontal count merges along rows with the y tolerance |
| Tables.MergeGroupCovers | tools/tool_extract_tables.py:156-172 | Every cell of a group lies within one of the group's merged cells |
| Tables.MergeGroupsCovers | tools/tool_extract_tables.py:156-172 | Every cell of any group lies within one of the merged cells |
| Tables.MergeHotspotsCovers | tools/tool_extract_tables.py:140-202 | Merging loses no cell: every cell given lies within some cell of the result |
| Outline.MapPages | outline_editor_widget.py:94-105 | Changing every page keeps the number of entries at the top level. The partner lemmas show it keeps titles and shape at every depth |
| Outline.Rows | excel_processor_parts/_mixin_export_to_excel.py:35-40 | Every written row has three cells: level, title, page |
| Outline.ExportSheet | excel_processor_parts/_mixin_export_to_excel.py:28-45 | The sheet starts with the header row `Level, Title, Page` |
| Outline.RowsCount | excel_processor_parts/_mixin_export_to_excel.py:35-45 | One row per node of the tree, each with an `int` level at least the starting level |
| Outline.AppendAt | excel_processor_parts/_mixin_import_from_excel.py:43-48 | Appending a node at a depth along the last branch makes the last branch that depth plus the node's own depth |
| Outline.ImportRow | excel_processor_parts/_mixin_import_from_excel.py:29-52 | Reading one row keeps the parent stack consistent with the tree: its height is between 1 and one more than the depth of the last branch |
| Outline.ImportRows | excel_processor_parts/_mixin_import_from_excel.py:29-52 | Reading rows one after another keeps the stack consistent |
| Outline.ImportSheet | excel_processor_parts/_mixin_import_from_excel.py:24-54 | A sheet with only the header, or none, gives an empty outline |
| Outline.ImportRowsAppend | excel_processor_parts/_mixin_import_from_excel.py:29-52 | Reading rows a and then rows c is reading a followed by c, and a failure in a stops everything |
| Outline.ImportRowAt | excel_processor_parts/_mixin_import_from_excel.py:35-48 | A row with an `int` level of at least 1, a title and an `int` page appends that leaf. Its level is cut down to the stack height, and the stack is then one above it |
| Outline.ImportSkipsRow | excel_processor_parts/_mixin_import_from_excel.py:35-36 | A row whose level is not an `int` or is below 1, or whose title or page is empty, changes nothing |
| Outline.AppendNested | excel_processor_parts/_mixin_import_from_excel.py:43-48 | Appending a child just below a node that was just appended is the same as appending that node with the child already in it |
| Outline.AppendAllNested | excel_processor_parts/_mixin_import_from_excel.py:43-48 | The same holds for a whole list of children |
| Outline.AppendNode | excel_processor_parts/_mixin_import_from_excel.py:43-48 | Appending a node's leaf and then its children one level deeper appends the whole node |
| Outline.AppendAllDepth | excel_processor_parts/_mixin_import_from_excel.py:43-48 | After appending a list at some depth, the last branch is that depth plus the list's own last-branch depth |
| Outline.AfterNodes | excel_processor_parts/_mixin_import_from_excel.py:29-52 | After a subtree's rows, a node can again be appended at the same depth |
| Outline.NodeRows | excel_processor_parts/_mixin_export_to_excel.py:35-40 | A node's rows are those of the list holding only that node |
| Outline.ImportOfRowsThen | excel_processor_parts/_mixin_import_from_excel.py:29-52 | Reading the rows written for a list of subtrees at depth d + 1 appends those subtrees at depth d, whatever rows follow |
| Outline.ImportOfNodeThen | excel_processor_parts/_mixin_import_from_excel.py:29-52 | The same for a single subtree |
| Outline.ImportNodeRow | excel_processor_parts/_mixin_import_from_excel.py:35-48 | A node's own row at level d + 1, when the stack is high enough, appends its leaf at depth d and leaves the stack at d + 2 |
| Outline.ImportOfRows | excel_processor_parts/_mixin_import_from_excel.py:29-52 | Reading the rows of a list of subtrees never fails and appends them |
| Outline.AppendAllFrom | excel_processor_parts/_mixin_import_from_excel.py:46-47 | Appending at the top level adds the nodes at the end |
| Outline.ImportExportRoundTrip | excel_processor_parts/_mixin_export_to_excel.py:28-45 | Importing a sheet written by the export gives back exactly the outline |
| Outline.Populate | outline_editor_widget.py:117-132 | One view row per top-level entry |
| Outline.TreeData | outline_editor_widget.py:134-149 | One entry per view row at the top level |
| Outline.IntToStringDigits | outline_editor_widget.py:143 | `str(p)` is all digits exactly when p is not negative, and then it reads back as p |
| Outline.PopulateTreeData | outline_editor_widget.py:117-149 | Showing an outline and reading it back keeps titles and shape. A negative page comes back as 1, because its minus sign is not a digit; every other page comes back unchanged |
| Outline.MapPagesIdentity | outline_editor_widget.py:134-149 | A change that fixes every page of the tree leaves the tree alone |
| Outline.PopulateTreeDataIdentity | outline_editor_widget.py:117-149 | An outline without negative pages survives the tree view unchanged |
| Outline.OffsetView | outline_editor_widget.py:94-105 | Shifting the page cells keeps the number of rows |
| Outline.ApplyPageOffset | outline_editor_widget.py:84-91 | An empty offset field, one `int` rejects, or 0 leaves the view as it is |
| Outline.OffsetReadBack | outline_editor_widget.py:84-109 | After the shift, the outline reads back with every page p, at every depth, set to max(1, p + offset) |
| Outline.MapPagesCompose | outline_editor_widget.py:94-105 | Two page changes in a row are one change by their composition |
| Outline.OffsetUndo | outline_editor_widget.py:84-109 | When no page was pushed against page 1, the opposite offset undoes a shift |
| Outline.ValidatePageText | outline_editor_widget.py:155-166 | An edited page cell is kept exactly when it is all digits and at least 1; otherwise it becomes "1" |
| Outline.ValidatedPageReadsBack | outline_editor_widget.py:143-166 | A validated page cell reads back as the page it shows, at least 1, and validating again changes nothing |
| Outline.NewItemTitle | outline_editor_widget.py:180 | A new entry's title is the fixed prefix followed by the counter in decimal |
| Outline.PopulateEditor | outline_editor_widget.py:117-132 | Loading an outline shows it and resets the new-entry counter to 1 |
| Outline.AddItem | outline_editor_widget.py:177-190 | The counter always moves on by one. Row -1 or a row within the list inserts the new entry there, with the current page and the others kept around it. Any other row leaves the list unchanged |
| Outline.NewItemTitlesDistinct | outline_editor_widget.py:180-181 | Different counters give different titles |
| Outline.OutlineHtml | exporter_parts/_mixin_generate_outline_html.py:6 | An empty outline gives no HTML |
| Outline.FlipbookOutline | exporter_flip_parts/_mixin_generate_outline.py:22-23 | An empty outline gives no HTML |
| Outline.TagsTextAppend | exporter_parts/_mixin_generate_outline_html.py:5-14 | The text of two tag lists is the two texts one after the other |
| Outline.OutlineHtmlIsTags | exporter_parts/_mixin_generate_outline_html.py:5-14 | The HTML built by string concatenation is the text of the tag tree: `<ul>` per non-empty list and `<li>` per entry with its link to prefix + page, children inside their parent's `<li>` |
| Outline.FlipbookHtmlIsTags | exporter_flip_parts/_mixin_generate_outline.py:11-34 | The flipbook HTML is the same tag tree with `data-page` links |
| Outline.ParseList | exporter_parts/_mixin_generate_outline_html.py:5-14 | Reading one `<ul>` list back consumes at least one tag |
| Outline.TagsRoundTrip | exporter_parts/_mixin_generate_outline_html.py:5-14 | The tags written for a non-empty outline read back as exactly that outline, and the tags after them are left for the caller |
| Outline.ChildrenRoundTrip | exporter_parts/_mixin_generate_outline_html.py:11 | A child list, written only when there are children, reads back as those children |
| Outline.ItemsRoundTrip | exporter_parts/_mixin_generate_outline_html.py:8-12 | The `<li>` entries of a list read back as the entries |
| Outline.TagsNesting | exporter_parts/_mixin_generate_outline_html.py:5-14 | Scanning the tags of an outline raises the deepest `<ul>` nesting seen by the outline's depth |
| Outline.DepthIsItemsDepth | exporter_parts/_mixin_generate_outline_html.py:7-13 | The depth of a non-empty list is one more than its deepest entry's child lists |
| Outline.ItemsNesting | exporter_parts/_mixin_generate_outline_html.py:8-12 | The same for the `<li>` entries of a list |
| Outline.HtmlNestingIsDepth | exporter_parts/_mixin_generate_outline_html.py:5-14 | The HTML nests `<ul>` lists exactly as deep as the outline is deep |
| FileNames.JoinPathInjective | excel_processor_parts/_mixin_copy_file_with_conflict_resolution.py:33 | Joining two names onto one directory gives the same path only for the same name |
| FileNames.CandidateInjective | excel_processor_parts/_mixin_copy_file_with_conflict_resolution.py:33-39 | No two tries use the same name: the own name and `stem_k.ext` for k = 1, 2, ... are pairwise different |
| FileNames.CandidatePathInjective | excel_processor_parts/_mixin_copy_file_with_conflict_resolution.py:33-39 | No two tries use the same path |
| FileNames.CandidatesFit | excel_processor_parts/_mixin_copy_file_with_conflict_resolution.py:36-39 | If the first k tries all exist, there are at least k files. So the loop ends |
| FileNames.FirstFree | excel_processor_parts/_mixin_copy_file_with_conflict_resolution.py:35-39 | The try chosen does not exist, and every earlier try does |
| FileNames.TakenNext | excel_processor_parts/_mixin_copy_file_with_conflict_resolution.py:36-39 | Each taken try extends the run of taken tries and raises the lower bound on the number of files |
| FileNames.FirstFreeUnique | excel_processor_parts/_mixin_copy_file_with_conflict_resolution.py:35-39 | Any try that is free, with every earlier try taken, is the one chosen |
| FileNames.ResolveDestination | excel_processor_parts/_mixin_copy_file_with_conflict_resolution.py:33-39 | The loop as written ends on a path that does not exist: the first free try |
| FileNames.CopyWithConflictResolution | excel_processor_parts/_mixin_copy_file_with_conflict_resolution.py:27-46 | No result exactly when the source is empty or missing or the copy fails. Otherwise the result is a path that did not exist, the first free try for the source's base name |
| FileNames.OwnNameFirst | excel_processor_parts/_mixin_copy_file_with_conflict_resolution.py:33-36 | When the own name is free, the file keeps it |
| FileNames.TakenNameNumbered | excel_processor_parts/_mixin_copy_file_with_conflict_resolution.py:35-39 | When the own name and `_1` up to `_(k-1)` are taken and `_k` is free, the file is named `stem_k.ext` |
| HotspotImport.IconOfExt | excel_processor_parts/_mixin_import_hotspots_from_excel.py:56-70 | Each icon is chosen exactly for its own extensions. `link` is chosen for `.html`/`.htm`, and for an unlisted extension on a `url` row. `default` is chosen for an unlisted extension on any other row |
| HotspotImport.IconFor | excel_processor_parts/_mixin_import_hotspots_from_excel.py:56-58 | An empty link cell gets the default icon. The import stops exactly when the cell is neither empty nor text, since such a value has no `lower` |
| HotspotImport.AsciiLowerIdempotent | excel_processor_parts/_mixin_import_hotspots_from_excel.py:58 | Lower-casing twice is lower-casing once |
| HotspotImport.IconIgnoresCase | excel_processor_parts/_mixin_import_hotspots_from_excel.py:58 | The icon does not depend on the letter case of the link |
| HotspotImport.HeaderIndex | excel_processor_parts/_mixin_import_hotspots_from_excel.py:24-30 | `index` finds the first cell holding exactly the name, and finds nothing exactly when no cell holds it |
| HotspotImport.Index | excel_processor_parts/_mixin_import_hotspots_from_excel.py:24-30 | A present header's position holds that header |
| HotspotImport.ColumnsOf | excel_processor_parts/_mixin_import_hotspots_from_excel.py:22-33 | A column map exists exactly when all ten required headers are present, and each column sits under its header |
| HotspotImport.ImportRow | excel_processor_parts/_mixin_import_hotspots_from_excel.py:36-106 | A row adds at most one hotspot, after the ones before, and only ever adds files. An empty row changes nothing |
| HotspotImport.ImportHotspots | excel_processor_parts/_mixin_import_hotspots_from_excel.py:15-33 | The import reports a bad header exactly when a required header is missing |
| HotspotImport.ImportRowFields | excel_processor_parts/_mixin_import_hotspots_from_excel.py:40-102 | A kept row's hotspot has the row's four numbers as `float` reads them, and the row's shape, type and icon. Its link is URL settings exactly for a `url` row and file settings exactly for a `file` row. A URL link holds the link cell and the target cell; a file link holds the target cell as its display |
| HotspotImport.FileRowSkipped | excel_processor_parts/_mixin_import_hotspots_from_excel.py:79-95 | A `file` row with no path, or whose copy fails, adds nothing |
| HotspotImport.BadNumberSkipped | excel_processor_parts/_mixin_import_hotspots_from_excel.py:46-49 | A row whose x `float` rejects adds nothing |
| HotspotImport.ImportRowsAppend | excel_processor_parts/_mixin_import_hotspots_from_excel.py:36-106 | Importing rows a then b is importing a followed by b, and a stop in a stops everything |
| HotspotImport.ImportRowsOrder | excel_processor_parts/_mixin_import_hotspots_from_excel.py:36-108 | Hotspots come out in row order, at most one per row, after those already there, and files are only added |
| HotspotImport.ImportRowNewPath | excel_processor_parts/_mixin_import_hotspots_from_excel.py:86-92 | A file hotspot links to the path its copy just took, which did not exist before |
| HotspotImport.FreshExtend | excel_processor_parts/_mixin_import_hotspots_from_excel.py:86-102 | Adding a hotspot whose file path is newer than all before keeps every file path new and distinct |
| HotspotImport.ImportRowFresh | excel_processor_parts/_mixin_import_hotspots_from_excel.py:36-106 | One row keeps every imported file path new and pairwise distinct |
| HotspotImport.ImportRowsFresh | excel_processor_parts/_mixin_import_hotspots_from_excel.py:36-106 | So does any number of rows |
| HotspotImport.ImportedFilesFresh | excel_processor_parts/_mixin_import_hotspots_from_excel.py:15-108 | An import copies each linked file to its own path, one that did not exist before and does now. It yields fewer hotspots than the sheet has rows |
| Text.NatToString | outline_editor_widget.py:180 | `str(n)` of a non-negative number: digits only, reading back as n, with no leading zero |
| Text.NatToStringInjective | outline_editor_widget.py:180 | Different numbers are written differently |
| Text.StripLeft | tools/tool_extract_toc.py:176 | What is removed from the left is white space only, and the rest does not start with white space |
| Text.StripRight | tools/tool_extract_toc.py:176 | What is removed from the right is white space only, and the rest does not end with white space |
| Text.Strip | tools/tool_extract_toc.py:176 | A stripped text neither starts nor ends with white space |
| Text.ParseIntOfDigits | tools/tool_extract_toc.py:213 | `int` of a digit string is the number the digits spell |
| Text.ParseIntOfIntToString | outline_editor_widget.py:99-101 | `int(str(i)) == i` for every integer, negative ones included |
| Text.IndexOf | tools/tool_extract_toc.py:109 | The first position holding the character, or the length when there is none |
| Text.SplitOn | tools/tool_extract_toc.py:104 | `split(',')` gives at least one part, and no part holds the separator |
| Text.JoinOnSplitOn | tools/tool_extract_toc.py:104 | Joining the parts with the separator gives the text back |
| Text.FirstSpace | tools/tool_extract_toc.py:177 | The first white-space position, or the length; nothing before it is white space |
| Text.SkipSpaces | tools/tool_extract_toc.py:177 | Skipping a run of white space stops at the first other character or at the end |
| Text.SplitWs | tools/tool_extract_toc.py:177 | `re.split(r'\s+', ...)` gives at least one part |
| Text.SplitWsOfJoin | tools/tool_extract_toc.py:177-181 | Words joined by single spaces split back into the same words |
| Text.JoinStartsWithWord | tools/tool_extract_toc.py:181 | Words joined by single spaces neither start nor end with white space |
| Text.AfterLastSep | excel_processor_parts/_mixin_copy_file_with_conflict_resolution.py:30 | Where the last path component starts: just after the last separator, or at 0 |
| Text.Basename | excel_processor_parts/_mixin_copy_file_with_conflict_resolution.py:30 | `os.path.basename` has no separator in it |
| Text.LastDot | excel_processor_parts/_mixin_copy_file_with_conflict_resolution.py:31 | The position of the last dot, or -1 |
| Text.SplitExt | excel_processor_parts/_mixin_copy_file_with_conflict_resolution.py:31 | `os.path.splitext`: stem and extension put together are the name, and a non-empty extension starts with a dot |
| Cells.TruncReal | excel_processor_parts/_mixin_import_from_excel.py:38 | `int` of a float rounds toward zero: down for non-negative values, up for negative ones |
| Cells.FloatOf | excel_processor_parts/_mixin_import_hotspots_from_excel.py:46-49 | `float` of an empty cell fails, of an `int` is the same number, and of a float is itself |

## Left out

- Qt widgets, menus, dialogs, message boxes, painting and cursors on screen are left out: they are display only. The model keeps the values they show, such as the page label, button states, scrollbar range and hover cursor shape.
- Signals (`selectionChanged`, `outline_changed`) and the property-panel refresh they trigger are left out: they notify the UI and change no state of the model.
- `Interaction.HandleAt`: the handle hit area (handle size divided by the view zoom, plus the pen) is a parameter, because it comes from view transforms.
- PDF text extraction (`_process_pdf_pages_to_lines`) is left out because it calls a PDF library. So are the `run` methods of the TOC and table tools: file lookups, the error-string check, and appending the tree to the current outline. The extracted lines are an input.
- Workbook I/O (opening, saving, column widths, bold headers) is left out because it is library code. Sheets are lists of rows of cell values.
- `Cells.FloatOf`: `float()` of text accepts plain decimals only. Python also accepts exponents, `inf`, `nan` and underscores; in the model such rows are skipped, where the code would keep them.
- `Controller.ParseGeometry`: reads the four fields with the decimal-only `Text.ParseFloat`. Python's `float()` also accepts exponents (`1e2`), `inf`, `nan` and digit underscores (`1_0`). Such a field commits in the code but is an input error in the model. `inf` and `nan` have no counterpart among the reals.
- `Controller.ParseOptional`: the same decimal-only reading of a batch field. In the code `nan` even passes the `w <= 0` check, because every comparison with `nan` is false.
- `Controller.CommitGeometry`, `Controller.BatchChanges`, `Controller.CommitBatchGeometry`: they inherit the decimal-only reading of `Controller.ParseGeometry` and `Controller.ParseOptional`, so text with an exponent, `inf`, `nan` or underscores is an input error here.
- `Controller.CommitGeometry`: the no-change test compares positions and sizes as exact reals. Qt's `QPointF` and `QSizeF` `==` is fuzzy (`qFuzzyCompare`), so the code also ignores an edit that differs from the current geometry only by rounding noise.
- `Text.IsDigits` and `Text.ParseInt` accept ASCII digits only. Python's `isdigit` and `int` also accept other Unicode decimal digits. White space is Python's full `str.isspace` set (`Text.IsSpace`).
- `Toc.ParseTocLine`: case-insensitive matching of `Unit` and `Module` folds ASCII letters only.
- `Toc.LayoutStrategy`, `Toc.ExtractToc`: corrected. They use the corrected builder `Toc.LayoutTree`, which never pops the root frame. The code raises `IndexError` for an entry at indentation -1 or less (tools/tool_extract_toc.py:228-230). `Toc.LayoutTreeAsWritten` models that, and `Toc.LayoutTreeAgrees` says the two agree wherever the code does not fail (see Findings).
- `Toc.ExtractToc`: the layout branch is the corrected `Toc.LayoutStrategy`. An indentation of -1 or less gives a tree here, where the code raises.
- `Text.Basename` and `Text.JoinPath` follow Windows path rules for `X:` drives and both slashes. UNC paths and case-insensitive file names are not modelled; existing files are compared as exact strings.
- `FileNames.CopyWithConflictResolution`: whether a copy fails is a set of sources given by the caller, since it depends on the file system.
- The HTML round trip and nesting depth are proved over the tag sequence that the serialisers print (`Outline.OutlineHtmlIsTags`), not by parsing characters. Titles are inserted without escaping, as in the code, so a title containing markup would not read back.
- `HotspotData.DefaultData` has no contract. The default record is a constant whose fields are the literal values of `create_default_data`, and "a new dictionary per call" has no counterpart for immutable values.
- `HotspotImport.ImportRow`: a hotspot keeps the cells the row sets (shape, numbers, description, type, icon, link) and not the whole default record beneath them.
- `Controller.CalculateSize`: `int(w * rh / rw)` is computed exactly and then truncated. Python computes it in floating point, which can land on the other side of an integer for large values.
- `Placement.PlaceAll`, `Placement.PlaceAllEffect`, `Placement.PlaceAllOwnSnapshot`, `Placement.PlaceAllLast`: these state the corrected exact placement. The code clamps each `setPos` against the item's old size; `Placement.PlaceAllAsWritten` models that and `Placement.PlaceAllAsWrittenExact` says when the two agree.
- `Placement.GeometryRedo`, `Placement.GeometryChangeRoundTrip`: corrected. The code's redo and undo clamp the position against the old size, so neither promise holds of the code near the bounds; `Commands.GeometryChangeAsWritten` states what the code does (see Findings).
- `Placement.BatchGeometryRoundTrip`, `Placement.BatchGeometryRedoIdempotent`: corrected. In the code the redo and the undo are clamped, so undo restores the page, and a second redo repeats the first, only while no clamp engages; `Commands.BatchGeometryAsWritten` states what the code does (see Findings).
- `Placement.ScaleAll`, `Placement.ScaleAllIsPlaceAll`, `Placement.ScaleKeepsCenters`, `Placement.BatchScaleRoundTrip`: corrected. In the code the centred position is clamped against the unscaled size, so a centre near the bounds moves; `Commands.BatchScaleAsWritten` states what the code does (see Findings).
- `Controller.CommitGeometryApplies`, `Controller.CommitBatchApplies`, `Controller.OpenBatchScaleApplies`: these state the code's behaviour. The exact position, the kept centre and the undo that restores the page are promised only when the clamp is idle, because the code does not keep them otherwise.
- `Interaction.ResizeMove`, `Interaction.MouseMove`, `Interaction.Gesture`, `Interaction.GestureKeepsAnchor`, `Interaction.GestureEnds`, `Interaction.ResizeStaysInBounds`: corrected. They use the anchor taken at the press. The code takes the press-time corner through the current position, so its gesture drifts and can leave the bounds; `Interaction.ResizeMoveAsWritten`, `Interaction.MouseMoveAsWritten` and `Interaction.GestureAsWritten` model the code (see Findings).
- `Tables.SortCells`: the contract states a sorted permutation. The stability of Python's sort is kept by the definition (equal cells stay in arrival order) but is not stated as a property.
- The spin boxes of the table tool that reset one merge count when the other is set are left out. `Tables.MergeHotspots` covers both counts being positive by giving the vertical count precedence.
- The project's dirty flag derived from the clean state of the page undo stacks is left out. Only page deletion marks the project dirty here.
- Small controller glue is left out: copy, paste, delete-selected, committing a data edit, looking up the session of a viewer. Each pushes one of the modelled commands after a selection check.
- Project persistence, the HTML exporters, the preview server and the other PDF and speech tools are left out: they are I/O around the core.

## Findings

| source | as written | input that shows it | evidently intended | confidence | as-written member | corrected member |
|---|---|---|---|---|---|---|
| graphics_items.py:126-133 (and graphics_items_parts/_mixin_interaction_events.py:95-102) | Each move recomputes the anchor as the press rect's opposite corner mapped through the item's current position. The previous move already changed that position | A 10 x 10 item at (100, 100) without bounds, pressed on handle 0 at (100, 100), then moved twice to (102, 102). The first move gives 8 x 8 at (102, 102); the second gives 10 x 10 at (102, 102), so the bottom-right corner moves from (110, 110) to (112, 112) | The opposite corner stays where it was at the press for the whole gesture | high; not executed | Interaction.AsWrittenAnchorDrifts | Interaction.ResizeMove |
| graphics_items.py:122-133 | Only the mouse point is clamped into the bounds. The drifting anchor of the row above is not, so the resized item can leave its bounds | A 100 x 100 item at (100, 100) in bounds (0, 0, 200, 200), pressed on handle 0 at (100, 100), then moved twice to (150, 150). The anchor becomes (250, 250) and the item ends 100 x 100 at (150, 150), reaching 250 on both axes | A resize that starts inside the bounds stays inside them | high; not executed | Interaction.AsWrittenResizeLeavesBounds | Interaction.ResizeStaysInBounds |
| commands_parts/_command_geometry_change.py:47-48 | Redo calls `setPos` first, through the move clamp of `itemChange`, while the rect still has the old size | Bounds (0, 0, 200, 200) and an item at (0, 0), 50 x 50. Typing (180, 180), 10 x 10 puts the item at (150, 150) | A committed edit is taken as entered: the item goes to (180, 180) | medium; not executed | Commands.AsWrittenRedoMisplaces | Placement.GeometryRedo |
| commands_parts/_command_geometry_change.py:36-37 | Undo calls `setPos` first, through the move clamp of `itemChange`, while the rect still has the other size | Bounds (0, 0, 200, 200) and an item at (150, 150), 50 x 50. Redo to (10, 10), 100 x 100, then undo: the item comes back at (100, 100) | Undo restores the old position exactly, as a committed edit is taken as entered | medium; not executed | Commands.AsWrittenUndoMisplaces | Placement.GeometryChangeRoundTrip |
| commands_parts/_command_batch_items_geometry.py:41-44 | The batch undo calls `setPos` first, through the move clamp, while the rect still has the edited size | Bounds (0, 0, 200, 200) and an item at (150, 150), 50 x 50. A batch edit setting w = 100, then undo: the item comes back at (100, 150) | Undo restores each item's snapshot exactly | medium; not executed | Commands.AsWrittenBatchUndoMisplaces | Placement.BatchGeometryRoundTrip |
| commands_parts/_command_batch_scale.py:82-83 | The scale calls `setPos` with the centred top-left first, through the move clamp, while the rect still has the unscaled size | Bounds (0, 0, 200, 200) and an item at (100, 100), 100 x 100. Scaling by 0.5 overall leaves it 50 x 50 at (100, 100), its centre moved from (150, 150) to (125, 125) | The scale keeps every item's centre, as the command's own description says | medium; not executed | Commands.AsWrittenScaleMovesCentre | Placement.ScaleKeepsCenters |
| tools/tool_extract_toc.py:228-229 | The pop loop compares against the root frame's indentation -1 as well, so an entry at x <= -1 pops the root, and `parent_stack[-1]` then raises | One line "Intro 3" at x = -5 | The root frame is never popped; the entry becomes a top-level entry | low; not executed | Toc.LayoutNegativeIndentFails | Toc.LayoutTree |

