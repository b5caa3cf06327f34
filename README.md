# Pixelitor document core in Dafny

This project models the document core of the Pixelitor image editor:

- a **composition**: an ordered stack of layers with one active layer, an optional selection, a cached composite image and a counter for new layer names;
- the application-wide **history**: an undo manager, the number of edits undone since the last edit was added, and a suspend switch;
- the **multi-layer edit**: the bundle of child edits that resize, crop, flip and rotate record;
- the **boolean filter parameter**;
- the **tool-affected area**: a rectangle rebased from canvas to image coordinates.

Each Java class that updates its fields in place is a Dafny `class`. Its methods name what they modify and state their whole new state. `Composition` keeps the layer list, the active layer, the canvas, the selection, the composite cache (its up-to-date flag and the cached image) and the new-layer counter. It drops the name, the file, the dirty flag and the image component, which only GUI and file handling use. `BooleanParam` turns its listener and its Swing component into flags. `MultiLayerEdit` keeps the layer, the undoable flag and which child edits exist. It does not keep the composition. `History` and `ToolAffectedArea` keep all their fields. Pure list work, compositing and the undo manager are values with functions and lemmas.

Modules, one per file:

- `Wrappers` (`wrappers.dfy`): `Option`, `Result`, `Outcome` and the exceptions the operations throw.
- `LayerStack` (`layer_stack.dfy`): layers as values and the list operations of the stack, which are `indexOf`, `add(index)`, `remove` and moving a layer.
- `Compositing` (`compositing.dfy`): the layer-iteration skeleton of `calculateCompositeImage`. An image is a symbolic term that records which `applyLayer` calls built it.
- `Decimal` (`decimal.dfy`): the decimal spelling of the layer-name counter.
- `Compositions` (`composition.dfy`): class `Composition`. Every edit it hands to the history is appended to the ghost log `pushedEdits`.
- `UndoStacks` (`undo_stack.dfy`): the edits as the history sees them, and the undo manager as a value. The manager is a list with a cursor and a limit.
- `Histories` (`history.dfy`): class `History`. Its Java state is static, so here it is the fields of one object.
- `MultiLayerEdits` (`multi_layer_edit.dfy`): class `MultiLayerEdit`. Its children are opaque, so the model records in `calls` which child was told to undo, redo or die, and in what order.
- `BooleanParams` (`boolean_param.dfy`): class `BooleanParam`. The listener and the Swing component are flags, and their callbacks are ghost counters.
- `ToolAreas` (`tool_affected_area.dfy`): the mutable `Rectangle` and class `ToolAffectedArea`.

Layer identity is modelled by a layer `id`. `Distinct` says that no two entries of the stack share one. The list lookups (`indexOf`, `contains`, `remove(Object)`) compare whole layer values. Within a stack without repeated ids this is the same as comparing ids. `CacheCoherent` says that a set up-to-date flag means the cached image is the composite of the current stack. Java exceptions are the `Failure`/`Fail` cases of `Result` and `Outcome`.

## Model

| member | source | states |
|---|---|---|
| Compositions.Composition.CheckInvariantResult | src/main/java/pixelitor/Composition.java:944-955 | returns true exactly when there is a layer, an active layer and the active layer is in the list; otherwise the result is an IllegalStateException |
| Compositions.Composition.ActiveIndex | src/main/java/pixelitor/Composition.java:386-388 | the active layer's position in the stack; -1 when there is no active layer or it is not in the stack |
| Compositions.Composition.CreateEmpty | src/main/java/pixelitor/Composition.java:129-137 | a composition of the canvas with no layers, no active layer, no selection, a stale cache and the name counter at 1 |
| Compositions.Composition.ImageChanged | src/main/java/pixelitor/Composition.java:803-815 | the cache is marked stale whatever the notification |
| Compositions.Composition.SetActiveLayer | src/main/java/pixelitor/Composition.java:363-376 | the layer becomes active and the invariant holds; a selection-change edit (old, new) is recorded only when the layer was not already active and history is asked for |
| Compositions.Composition.AddLayerNoGUI | src/main/java/pixelitor/Composition.java:220-226 | the layer is put on top and made active; nothing is recorded |
| Compositions.Composition.AddLayerAt | src/main/java/pixelitor/Composition.java:255-270 | the layer is inserted at the index and made active; the cache is invalidated; a new-layer edit naming the previously active layer is recorded exactly when asked for; the cache is then coherent |
| Compositions.Composition.AddLayerRelative | src/main/java/pixelitor/Composition.java:233-253 | the insert index is 0 without an active layer, the active index when adding below, and the active index + 1 when adding above; then as AddLayerAt |
| Compositions.Composition.DeleteLayer | src/main/java/pixelitor/Composition.java:332-361 | with fewer than 2 layers: IllegalStateException, nothing changes; otherwise exactly that layer is removed; a deleted active layer at index i > 0 hands activity to the layer at i-1, at index 0 to the new bottom layer; the deletion (layer, index) is recorded when asked for; the cache is invalidated only when the GUI is updated; a coherent cache stays coherent when the GUI is updated, when fewer than 2 layers are left or when the layer is absent |
| Compositions.Composition.DeleteFromStack | src/main/java/pixelitor/Composition.java:337-360 | with at least 2 layers: the index is looked up, the deletion (layer, index) recorded when asked for, the layer removed with activity handed on as in DeleteLayer, and the cache invalidated only when the GUI is updated; coherence is kept when the GUI is updated or the layer is absent |
| Compositions.Composition.RemoveFound | src/main/java/pixelitor/Composition.java:341-349 | removing a layer that is not in the stack changes neither the stack nor the active layer; a present one is removed as in RemoveLayerAt |
| Compositions.Composition.RemoveLayerAt | src/main/java/pixelitor/Composition.java:341-349 | the layer at the index is removed; when it was active, the layer below it becomes active, or for the bottom one the new bottom layer; the stack stays free of repeats |
| Compositions.Composition.DeleteActiveLayer | src/main/java/pixelitor/Composition.java:328-330 | deleteLayer on the active layer: the same failure case; otherwise the active layer is removed and its lower neighbour (or the new bottom layer) becomes active; coherence is kept when the GUI is updated or fewer than 2 layers are left |
| Compositions.Composition.DeleteLayerAt | src/main/java/pixelitor/Composition.java:323-326 | deletes the layer at the index, recorded, with the GUI updated; a coherent cache stays coherent |
| Compositions.Composition.MergeDown | src/main/java/pixelitor/Composition.java:294-321 | only when the active layer is visible and has a visible image layer below it: the active layer is removed, the layer below becomes active, and one "Merge Down" compound edit (image edit of the layer below, deletion) is recorded; otherwise nothing changes; coherence is kept when the GUI is updated or nothing merges |
| Compositions.Composition.FlattenImage | src/main/java/pixelitor/Composition.java:538-562 | a no-op below 2 layers; otherwise the stack ends as just the new flattened layer, which is active; one deletion per old layer is recorded, top first; when the cache was coherent, the image the new layer is built from is the composite of the old stack; a not-undoable edit is recorded when the GUI is updated; a coherent cache stays coherent |
| Compositions.Composition.PutFlattenedOnTop | src/main/java/pixelitor/Composition.java:547-551 | the composite is brought up to date (and is the composite of the stack when the cache was coherent); the new layer is put on top, made active, not recorded |
| Compositions.Composition.DeleteAllBelowTop | src/main/java/pixelitor/Composition.java:553-555 | the loop deletes every layer below the active top one, top first, recording one deletion per layer with its index, until only the top layer is left |
| Compositions.Composition.DeleteBelowTop | src/main/java/pixelitor/Composition.java:554 | one step of that loop: the layer just below the active top layer is removed and its deletion recorded; the top layer stays active |
| Compositions.Composition.SwapLayers | src/main/java/pixelitor/Composition.java:593-613 | a no-op (no edit, cache untouched) when the new index is out of range or equals the old one; otherwise the layer moves from the old to the new index, the cache is invalidated and the order change is recorded when asked for; a coherent cache stays coherent |
| Compositions.Composition.MoveActiveLayerUp | src/main/java/pixelitor/Composition.java:564-569 | the active layer moves one up, recorded, unless it is the top layer; a coherent cache stays coherent |
| Compositions.Composition.MoveActiveLayerDown | src/main/java/pixelitor/Composition.java:571-576 | the active layer moves one down, recorded, unless it is the bottom layer; a coherent cache stays coherent |
| Compositions.Composition.MoveActiveLayerToTop | src/main/java/pixelitor/Composition.java:578-584 | the active layer moves to the top, recorded, unless it is already there; a coherent cache stays coherent |
| Compositions.Composition.MoveActiveLayerToBottom | src/main/java/pixelitor/Composition.java:586-591 | the active layer moves to the bottom, recorded, unless it is already there; a coherent cache stays coherent |
| Compositions.Composition.MoveLayerSelectionUp | src/main/java/pixelitor/Composition.java:615-625 | the layer above the active one becomes active, with a recorded selection change; nothing happens at the top |
| Compositions.Composition.MoveLayerSelectionDown | src/main/java/pixelitor/Composition.java:627-637 | the layer below the active one becomes active, with a recorded selection change; nothing happens at the bottom |
| Compositions.Composition.DragFinished | src/main/java/pixelitor/Composition.java:873-877 | the dragged layer is moved to the new index and the cache is invalidated, so it is coherent; nothing is recorded |
| Compositions.Composition.GetNrImageLayers | src/main/java/pixelitor/Composition.java:402-410 | the loop's count equals the number of image layers in the stack |
| Compositions.Composition.GetAnyImageLayer | src/main/java/pixelitor/Composition.java:447-455 | the loop returns the bottom-most image layer, or none when there is no image layer |
| Compositions.Composition.ActiveMaskOrImageLayerOrNull | src/main/java/pixelitor/Composition.java:467-477 | the active layer's mask while it is being edited, else the active layer when it is an image layer, else nothing |
| Compositions.Composition.ActiveMaskOrImageLayer | src/main/java/pixelitor/Composition.java:482-488 | the same lookup; an IllegalStateException exactly when it finds nothing |
| Compositions.Composition.CalculateCompositeImage | src/main/java/pixelitor/Composition.java:639-670 | the loop's accumulator equals the composite of the stack: visible layers applied bottom to top over a blank canvas-sized buffer, a non-null applyLayer result replacing the accumulator |
| Compositions.Composition.GetCompositeImage | src/main/java/pixelitor/Composition.java:788-797 | while the flag is set, the cached image is returned with no recomputation; otherwise the composite is recomputed once, cached and the flag set; a coherent cache stays coherent |
| Compositions.Composition.GenerateNewLayerName | src/main/java/pixelitor/Composition.java:672-676 | "layer n" for the current counter n, then the counter advances |
| Compositions.CompositesDiffer | src/main/java/pixelitor/Composition.java:648-665 | over the same canvas, the composite of two visible layers differs from the composite of the lower one alone |
| Compositions.StaleCacheAfterDeleteWithoutGUI | src/main/java/pixelitor/Composition.java:332-361 | a two-layer composition whose cache was just brought up to date, after deleting its top layer with the GUI not updated, still has the up-to-date flag set but a cache that is not the composite of its stack |
| Compositions.LayerNameInjective | src/main/java/pixelitor/Composition.java:672-676 | different counter values give different layer names |
| Compositions.Composition.Deselect | src/main/java/pixelitor/Composition.java:710-729 | the selection is dropped; a deselect edit with its shape is recorded only when asked for and the selection has a shape |
| Compositions.Composition.CreateSelectionFromShape | src/main/java/pixelitor/Composition.java:771-783 | IllegalStateException and no change while a selection exists; otherwise the shape becomes the selection |
| Compositing.ApplyLayer | src/main/java/pixelitor/Composition.java:655-657 | applyLayer returns a new image exactly for adjustment layers; other layers draw in place |
| Compositing.CompositeOfStack | src/main/java/pixelitor/Composition.java:648-665 | the composite consumes exactly the visible layers, in stack order, over the blank buffer; only the first of them is applied with the first-visible flag; adjustment layers transform and the others paint |
| Compositing.InvisibleLayersIgnored | src/main/java/pixelitor/Composition.java:653-654 | the composite depends only on the visible layers |
| Compositing.CompositeFromConsumed | src/main/java/pixelitor/Composition.java:653-665 | continuing the loop appends the visible rest of the stack to the layers the accumulator was built from |
| Compositing.CompositeFromFlags | src/main/java/pixelitor/Composition.java:652-663 | the first-visible flag is passed to the first applied layer only, and false afterwards |
| Compositing.VisibleMembers | src/main/java/pixelitor/Composition.java:653-654 | the layers the loop applies are exactly the visible layers of the stack |
| LayerStack.IndexOf | src/main/java/pixelitor/Composition.java:333-337 | List.indexOf: -1 exactly when absent, otherwise the first position of the layer |
| LayerStack.Insert | src/main/java/pixelitor/Composition.java:258 | List.add(index, x): one layer longer, with x at the index (InsertFacts and InsertDistinct say the rest) |
| LayerStack.RemoveAt | src/main/java/pixelitor/Composition.java:341 | List.remove: one layer shorter (RemoveAtFacts, RemoveAtMembers and RemoveAtDistinct say which layers remain, in what order) |
| LayerStack.Move | src/main/java/pixelitor/Composition.java:604-606 | take the layer out of the old index and insert it at the new one: the length stays (MoveFacts says the rest) |
| LayerStack.MoveFacts | src/main/java/pixelitor/Composition.java:593-612 | the moved layer lands at the new index; the same layers (as a multiset) stay; the others keep their relative order; no layer becomes repeated |
| LayerStack.MoveShape | src/main/java/pixelitor/Composition.java:593-612 | the moved layer lands at the new index; taking it out again gives the stack without it |
| LayerStack.MoveMultiset | src/main/java/pixelitor/Composition.java:593-612 | a move keeps every layer, as often as before |
| LayerStack.MoveBack | src/main/java/pixelitor/Composition.java:593-612 | moving a layer back to its old index restores the stack, which undoing an order change relies on |
| LayerStack.ReinsertAfterRemove | src/main/java/pixelitor/Composition.java:332-340 | re-inserting a deleted layer at its recorded index restores the stack |
| LayerStack.RemoveAfterInsert | src/main/java/pixelitor/Composition.java:255-258 | removing a just-inserted layer restores the stack |
| LayerStack.SingleImageLayer | src/main/java/pixelitor/history/MultiLayerEdit.java:48-52 | with exactly one image layer, the bottom-most image layer is that layer |
| Decimal.ParseNatToString | src/main/java/pixelitor/Composition.java:673 | the decimal spelling of the counter reads back to the counter |
| UndoStacks.UndoStack.LastEdit | src/main/java/pixelitor/history/History.java:234-237 | the newest stored edit whatever the cursor, none when nothing is stored |
| UndoStacks.UndoStack.DiscardAll | src/main/java/pixelitor/history/History.java:239-242 | no edits remain; nothing to undo or redo |
| UndoStacks.UndoStack.WithLimit | src/main/java/pixelitor/history/History.java:150-152 | the manager takes the new limit and keeps the newest edits within it |
| UndoStacks.UndoStack.CanUndo | src/main/java/pixelitor/history/History.java:138-140 | there is an edit before the cursor and it can be undone; Undone requires it |
| UndoStacks.UndoStack.CanRedo | src/main/java/pixelitor/history/History.java:142-144 | there is an edit at the cursor and it can be redone; Redone requires it |
| UndoStacks.UndoStack.Undone | src/main/java/pixelitor/history/History.java:118 | the cursor moves back by one; the stored edits and the limit stay, and the undone edit can be redone |
| UndoStacks.UndoStack.Redone | src/main/java/pixelitor/history/History.java:131 | the cursor moves forward by one; the stored edits and the limit stay, and the redone edit can be undone |
| UndoStacks.UndoStack.Add | src/main/java/pixelitor/history/History.java:88-89 | the manager stays valid with the same limit; the cursor is at the end, so nothing is left to redo; unless the limit is 0, the new edit is the last one |
| UndoStacks.AddFacts | src/main/java/pixelitor/history/History.java:88-92 | adding stays valid, leaves nothing to redo, makes the new edit the last one and the one to undo next (unless the limit is 0), and keeps only edits that were before the cursor |
| UndoStacks.AddAtEnd | src/main/java/pixelitor/history/History.java:88-92 | with nothing to redo and a limit of at least 0, one add keeps the newest limit edits of the old ones plus the new one, and leaves nothing to redo |
| UndoStacks.AddAllKeepsNewest | src/main/java/pixelitor/history/History.java:150-152 | with a limit of at least 0, a sequence of adds keeps exactly the newest limit edits in order |
| UndoStacks.UndoRedoRoundTrip | src/test/java/pixelitor/layers/TextLayerTest.java:66-118 | redo after undo, and undo after redo, restore the manager |
| UndoStacks.UndoExhausts | src/main/java/pixelitor/history/History.java:111-122 | undo is possible once for each edit before the cursor, and then no more |
| Histories.History.constructor | src/main/java/pixelitor/history/History.java:44-50 | an empty manager with the saved undo-level limit, counter 0, not suspended |
| Histories.History.AddEdit | src/main/java/pixelitor/history/History.java:82-101 | while suspended nothing changes; otherwise an undoable edit is added and any other edit discards all edits, the counter is reset to 0 and the edit is posted |
| Histories.History.AddEditIf | src/main/java/pixelitor/history/History.java:76-80 | the supplier is evaluated, and its edit added, only when asked for |
| Histories.History.Undo | src/main/java/pixelitor/history/History.java:111-122 | the counter goes up by one even when no undo is available; the manager undoes exactly when it can, otherwise it is unchanged |
| Histories.History.Redo | src/main/java/pixelitor/history/History.java:124-136 | the counter goes down by one first; the manager redoes exactly when it can |
| Histories.History.CanUndo | src/main/java/pixelitor/history/History.java:138-140 | the manager can undo; no contract of its own (the Undo row states what happens in each case) |
| Histories.History.CanRedo | src/main/java/pixelitor/history/History.java:142-144 | the manager can redo; no contract of its own (the Redo row states what happens in each case) |
| Histories.History.CanRepeatOperation | src/main/java/pixelitor/history/History.java:158-168 | false after an unredone undo or without a last edit; otherwise the last edit's canRepeat |
| Histories.History.PreviousEditForFade | src/main/java/pixelitor/history/History.java:185-207 | the last edit exactly when nothing is undone, there is a last edit, it is fadeable with its flag set, and it belongs to the composition; empty otherwise |
| Histories.History.SetUndoLevels | src/main/java/pixelitor/history/History.java:150-152 | the manager's limit becomes the new number of levels |
| Histories.History.OnAllImagesClosed | src/main/java/pixelitor/history/History.java:221-227 | counter 0 and no stored edits |
| Histories.History.Clear | src/main/java/pixelitor/history/History.java:239-243 | exactly 0 edits remain |
| Histories.History.SetSuspended | src/main/java/pixelitor/history/History.java:264-266 | the suspend switch takes the value |
| Histories.CanRepeatIn | src/main/java/pixelitor/history/History.java:158-168 | false after an unredone undo or without a last edit; otherwise the last edit's canRepeat |
| Histories.PreviousEditForFadeIn | src/main/java/pixelitor/history/History.java:185-207 | the last edit exactly when nothing is undone, there is a last edit, it is fadeable with its flag set, and it belongs to the composition; empty otherwise |
| Histories.FadeAfterAdd | src/main/java/pixelitor/history/History.java:94 | right after an undoable edit is added, it is the edit to fade (when fadeable for that composition) and decides repeatability |
| Histories.NoFadeAfterUndo | src/main/java/pixelitor/history/History.java:116-117 | after an undo, fading and repeating are unavailable although the last edit is unchanged |
| Histories.FadeAfterUndoRedo | src/main/java/pixelitor/history/History.java:129-130 | a redo that brings the counter back to 0 makes fading and repeating see the last edit again |
| MultiLayerEdits.MultiLayerEdit.constructor | src/main/java/pixelitor/history/MultiLayerEdit.java:43-69 | undoable and with an image child exactly when the composition has one image layer, which it remembers; a selection-change child exactly with a selection, otherwise a deselect child exactly when the backup saved a selection; never both |
| MultiLayerEdits.MultiLayerEdit.CanUndo | src/main/java/pixelitor/history/MultiLayerEdit.java:71-77 | false when not undoable; otherwise alive and done |
| MultiLayerEdits.MultiLayerEdit.CanRedo | src/main/java/pixelitor/history/MultiLayerEdit.java:79-85 | false when not undoable; otherwise alive and undone |
| MultiLayerEdits.MultiLayerEdit.CanRepeat | src/main/java/pixelitor/history/MultiLayerEdit.java:87-90 | always false |
| MultiLayerEdits.MultiLayerEdit.Undo | src/main/java/pixelitor/history/MultiLayerEdit.java:92-116 | CannotUndoException and no child touched when it cannot undo; otherwise it becomes undone and every existing child is undone in the fixed order |
| MultiLayerEdits.MultiLayerEdit.Redo | src/main/java/pixelitor/history/MultiLayerEdit.java:118-142 | CannotRedoException and no child touched when it cannot redo; otherwise done again and every existing child redone in the same (not reversed) order |
| MultiLayerEdits.MultiLayerEdit.Die | src/main/java/pixelitor/history/MultiLayerEdit.java:153-172 | killed, and every existing child told to die |
| MultiLayerEdits.MultiLayerEdit.ChildrenFacts | src/main/java/pixelitor/history/MultiLayerEdit.java:96-113 | the children called are exactly the existing ones, in the order image, translation, canvas, selection change, deselect |
| MultiLayerEdits.EachChildOnce | src/main/java/pixelitor/history/MultiLayerEdit.java:153-172 | each existing child gets the call exactly once, no other child gets it |
| MultiLayerEdits.CanvasAfterImageAndTranslation | src/main/java/pixelitor/history/MultiLayerEdit.java:102-107 | in that order the canvas change always comes after the image and translation children |
| MultiLayerEdits.RedoOrderIsUndoOrder | src/main/java/pixelitor/history/MultiLayerEdit.java:118-139 | redo calls the children in the same order as undo |
| MultiLayerEdits.InOrderOnce | src/main/java/pixelitor/history/MultiLayerEdit.java:153-172 | in the fixed order no child occurs twice |
| BooleanParams.BooleanParam.constructor | src/main/java/pixelitor/filters/gui/BooleanParam.java:36-49 | the parameter holds its default, so it is set to default; the shorter constructors default the policy and the button |
| BooleanParams.BooleanParam.CreateParamForHPSharpening | src/main/java/pixelitor/filters/gui/BooleanParam.java:60-62 | "High-Pass Sharpening", off, not randomised |
| BooleanParams.BooleanParam.CreateGUI | src/main/java/pixelitor/filters/gui/BooleanParam.java:51-58 | afterwards the component exists, so SetValue and Reset with the GUI updated refresh it |
| BooleanParams.BooleanParam.SetAdjustmentListener | src/main/java/pixelitor/filters/gui/BooleanParam.java:93-94 | afterwards a listener is set, so SetValue and Reset notify it whenever the value changes and the call asks for it |
| BooleanParams.BooleanParam.IsSetToDefault | src/main/java/pixelitor/filters/gui/BooleanParam.java:64-67 | true exactly when the current value is the default; no contract of its own (the constructor and Reset ensure it) |
| BooleanParams.BooleanParam.IsChecked | src/main/java/pixelitor/filters/gui/BooleanParam.java:86-88 | the current value; no contract of its own (SetValue ensures it is the new value) |
| BooleanParams.BooleanParam.SetValue | src/main/java/pixelitor/filters/gui/BooleanParam.java:90-100 | afterwards isChecked is the new value; the listener fires exactly when the value changed, trigger is set and a listener exists; setting the current value changes nothing and fires nothing |
| BooleanParams.BooleanParam.Reset | src/main/java/pixelitor/filters/gui/BooleanParam.java:69-72 | afterwards the parameter is set to default; the listener fires only if it was not |
| BooleanParams.BooleanParam.CanBeAnimated | src/main/java/pixelitor/filters/gui/BooleanParam.java:106-109 | always false |
| BooleanParams.BooleanParam.CopyState | src/main/java/pixelitor/filters/gui/BooleanParam.java:111-114 | always UnsupportedOperationException |
| BooleanParams.BooleanParam.SetState | src/main/java/pixelitor/filters/gui/BooleanParam.java:116-119 | always UnsupportedOperationException |
| ToolAreas.Rectangle.Translate | src/main/java/pixelitor/tools/ToolAffectedArea.java:44 | the corner moves by (dx, dy); the size stays |
| ToolAreas.ToolAffectedArea.GetRectangle | src/main/java/pixelitor/tools/ToolAffectedArea.java:51-53 | the area's own rectangle object, not a copy; no contract of its own (Create uses it to say the area holds the caller's rectangle) |
| ToolAreas.ToolAffectedArea.Create | src/main/java/pixelitor/tools/ToolAffectedArea.java:32-46 | needs a positive size; relative to the image the rectangle is kept as is; otherwise it is translated in place by minus the active mask or image layer's translation, or IllegalStateException with the rectangle untouched when there is none; the size never changes and the area holds the caller's very rectangle |

## Left out

- GUI and observer side effects are not modelled: layer buttons, icons, repaints, histograms, menu enabling, `AppLogic` notifications, `SelectionActions`, `UndoableEditSupport.postEdit` (only its argument is logged), debug events and consistency checks.
- `Messages.showInfo`/`showException` after a failed undo or redo: the model reports the failure as `ok == false`.
- Pixel work is not modelled: `applyLayer`'s painting, blending, opacity, masks, selection clipping, `mergeDownOn` and image copies. An image is a symbolic term.
- Shape geometry and the other selection operations (`startSelection`, `invertSelection`, `cropSelection`, `applySelectionClipping`) are not modelled, because they are geometry. A shape is an opaque id.
- `executeFilterWithBusyCursor`, serialization (`readObject`), `fromImage`, `addBaseLayer` and `duplicateLayer` are outside the modelled core.
- `BooleanParam.randomize` is not modelled, because it uses `Math.random`. `createGUI` only sets the component flag; the Swing component itself is not modelled. `getNrOfGridBagCols`, `considerImageSize` (empty) and `toString` carry no logic.
- Compositions.Composition.DeleteLayer: as in the source, with the GUI not updated it removes the layer but leaves the cache flag set. A cache that was coherent may then no longer be, and the contract promises coherence only in the other cases. StaleCacheAfterDeleteWithoutGUI exhibits a case. `mergeDown` and `deleteActiveLayer` share this. The model follows the source and does not call it a bug.
- Compositions.Composition.AddLayerNoGUI: as in the source, it changes the stack without touching the cache flag, so it promises no coherence. It is meant for compositions whose composite has not been computed yet.
- Compositions.Composition.AddLayerAt: it requires the index to be in range, where `List.add` would throw an `IndexOutOfBoundsException` (`Composition.java:258`).
- Compositions.Composition.SwapLayers: when the call is not a no-op it requires the old index to be in range, where `List.get` would throw (`Composition.java:604`).
- Compositions.Composition.DeleteLayerAt: it requires the index to be in range, where `List.get` would throw (`Composition.java:324`).
- Compositions.Composition.DragFinished: it requires the layer to be in the stack and the index in range. For an absent layer Java's `remove` does nothing and `add` inserts it (`Composition.java:874-875`); that case is not modelled.
- BooleanParams.BooleanParam.SetAdjustmentListener: the setter is inherited from `AbstractFilterParam`, which is not part of this model; it only records that a listener is set.
- Compositions.Composition.GenerateNewLayerName: the counter is unbounded; the 32-bit wrap of the Java `int` after 2^31-1 layers is not modelled.
- ToolAreas.Rectangle.Translate: coordinates are unbounded; the overflow clamping of `java.awt.Rectangle.translate` is not modelled.
- ToolAreas.ToolAffectedArea.Create: it requires the composition invariant when the rectangle is relative to the canvas, as the lookup asserts it (`Composition.java:468`); the Java `assert` on width and height becomes a precondition.
- UndoStacks.UndoStack.WithLimit: Swing's `setLimit` trims around the cursor, but the model evicts the oldest edits. `PixelitorUndoManager` and the Swing undo manager are not part of this model. The model follows the linear list-with-cursor contract: edits are neither absorbed nor "insignificant", and the `die` calls on discarded edits are not modelled.
- The edits' own undo/redo behaviour (`PixelitorEdit`, `NewLayerEdit`, `DeleteLayerEdit` and the rest) is not part of this model. Edits are records of what they capture, and `MultiLayerEdit` follows the base edit rule of `AbstractUndoableEdit` (alive and done/undone).
- MultiLayerEdits.MultiLayerEdit.Undo: the final `updateGUI`, which is `comp.imageChanged(FULL)`, is not modelled. The edit does not reach its composition, so neither the repaint nor the invalidation of the composition's cached composite is in the model.
- MultiLayerEdits.MultiLayerEdit.Redo: the same final `updateGUI` as in Undo is not modelled, for the same reason.
- MultiLayerEdits.MultiLayerEdit.constructor: the Java `assert` that the backup saved a selection when the composition has one (`MultiLayerEdit.java:59`) becomes a precondition.
- Histories.History.Undo: the manager's undo of the edit itself is not followed into the edit.
- History's `getUndoPresentationName`, `getLastEditName`, `canFade` (needs the active image component), `showHistory` and the test assertions are not modelled.
- `isActiveComp` assertions and `Build` checks are not modelled.
