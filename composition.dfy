/**
  An image composition: an ordered stack of layers with one active layer, an
  optional selection, a cached composite image with an up-to-date flag and a
  counter for the names of new layers. Every edit the composition hands to
  the history is appended to the ghost log `pushedEdits`; what the history
  does with it is modelled in module History.
 */
module Compositions {
  import opened Wrappers
  import opened LayerStack
  import opened Compositing
  import Decimal

  /** A selection outline; its geometry is not modelled. */
  datatype Shape = Shape(id: nat)

  /** A selection. Its shape is missing for a simple click without a previous selection. */
  datatype Selection = Selection(shape: Option<Shape>)

  /** The edits a composition records, with the state each one captures. */
  datatype EditRecord =
    | NewLayerEdit(layer: Layer, activeBefore: Option<Layer>, name: string)
    | DeleteLayerEdit(layer: Layer, index: int)
    | LayerSelectionChangeEdit(oldLayer: Option<Layer>, newLayer: Layer)
    | LayerOrderChangeEdit(oldIndex: int, newIndex: int)
    | ImageEdit(layer: Layer)
    | CompoundEdit(name: string, children: seq<EditRecord>)
    | DeselectEdit(shape: Shape)
    | NotUndoableEdit(name: string)

  /** The layer that flattening creates: a visible, untranslated image layer without a mask. */
  function FlattenedLayer(id: LayerId): Layer {
    Layer(id, ImageLayer, true, 0, 0, None)
  }

  /** The deletions flattening records: the layers at indices |s|-1 down to `from`, top first. */
  function FlattenDeletes(s: seq<Layer>, from: nat): seq<EditRecord>
    decreases |s| - from
  {
    if from >= |s| then [] else FlattenDeletes(s, from + 1) + [DeleteLayerEdit(s[from], from)]
  }

  /** The name `generateNewLayerName` returns for counter value `n`. */
  function LayerName(n: nat): string {
    "layer " + Decimal.NatToString(n)
  }

  /** Different counter values give different layer names. */
  lemma LayerNameInjective(a: nat, b: nat)
    ensures LayerName(a) == LayerName(b) ==> a == b
  {
    if LayerName(a) == LayerName(b) {
      var p := "layer ";
      assert LayerName(a)[|p|..] == Decimal.NatToString(a);
      assert LayerName(b)[|p|..] == Decimal.NatToString(b);
      Decimal.NatToStringInjective(a, b);
    }
  }

  class Composition {
    var layers: seq<Layer>
    var active: Option<Layer>
    var canvas: Canvas
    var selection: Option<Selection>
    var compositeUpToDate: bool
    var cachedComposite: Option<Image>
    var newLayerCount: nat
    ghost var pushedEdits: seq<EditRecord>
    ghost var recomputations: nat

    /** Everything but the active layer is consistent. */
    ghost predicate ValidExceptActive()
      reads this`layers, this`compositeUpToDate, this`cachedComposite
    {
      Distinct(layers) && (compositeUpToDate ==> cachedComposite.Some?)
    }

    /**
      The stack never repeats a layer; there is an active layer exactly when the
      stack is non-empty (the only empty composition is a fresh one), and it is
      in the stack.
     */
    ghost predicate Valid()
      reads this`layers, this`active, this`compositeUpToDate, this`cachedComposite
    {
      ValidExceptActive()
      && (active.None? <==> layers == [])
      && (active.Some? ==> active.value in layers)
    }

    /** `checkInvariant`: at least one layer, and the active layer is one of them. */
    predicate CheckInvariant()
      reads this`layers, this`active
    {
      layers != [] && active.Some? && active.value in layers
    }

    /** `checkInvariant` as called: true, or the exception naming the first violated condition. */
    function CheckInvariantResult(): (r: Result<bool>)
      reads this`layers, this`active
      ensures r.Ok? <==> CheckInvariant()
      ensures r.Ok? ==> r.value
      ensures r.Failure? ==> r.error == IllegalStateException
    {
      if layers == [] then Failure(IllegalStateException)
      else if active.None? then Failure(IllegalStateException)
      else if active.value !in layers then Failure(IllegalStateException)
      else Ok(true)
    }

    /** The cached composite, when marked up to date, is the composite of the current stack. */
    ghost predicate CacheCoherent()
      reads this`canvas, this`layers, this`compositeUpToDate, this`cachedComposite
    {
      compositeUpToDate ==> cachedComposite == Some(Composite(canvas, layers))
    }

    /** `getActiveLayerIndex`: the index of the active layer, -1 when there is none. */
    function ActiveIndex(): (r: int)
      reads this`layers, this`active
      ensures active.None? ==> r == -1
      ensures active.Some? && active.value in layers ==> 0 <= r < |layers| && layers[r] == active.value
      ensures active.Some? && active.value !in layers ==> r == -1
    {
      if active.None? then -1 else IndexOf(layers, active.value)
    }

    /** `createEmpty`: a composition without layers. */
    constructor CreateEmpty(canvas: Canvas)
      ensures Valid() && CacheCoherent()
      ensures this.canvas == canvas && layers == [] && active.None? && selection.None?
      ensures !compositeUpToDate && cachedComposite.None? && newLayerCount == 1
      ensures pushedEdits == [] && recomputations == 0
    {
      this.canvas := canvas;
      layers := [];
      active := None;
      selection := None;
      compositeUpToDate := false;
      cachedComposite := None;
      newLayerCount := 1;
      pushedEdits := [];
      recomputations := 0;
    }

    /** `imageChanged`: whatever the notification, the cached composite is no longer up to date. */
    method ImageChanged()
      modifies this`compositeUpToDate
      ensures !compositeUpToDate
    {
      compositeUpToDate := false;
    }

    /**
      `setActiveLayer`: a no-op when the layer is already active; otherwise it
      becomes active and, when asked to, a selection change (old, new) is recorded.
     */
    method SetActiveLayer(newActive: Layer, addToHistory: bool)
      requires ValidExceptActive() && newActive in layers
      modifies this`active, this`pushedEdits
      ensures Valid() && CheckInvariant()
      ensures active == Some(newActive)
      ensures pushedEdits == old(pushedEdits) +
        (if old(active) != Some(newActive) && addToHistory
         then [LayerSelectionChangeEdit(old(active), newActive)] else [])
    {
      if active != Some(newActive) {
        var oldLayer := active;
        active := Some(newActive);
        if addToHistory {
          pushedEdits := pushedEdits + [LayerSelectionChangeEdit(oldLayer, newActive)];
        }
      }
    }

    /** `addLayerNoGUI`: puts the layer on top and makes it active; records nothing, keeps the cache flag. */
    method AddLayerNoGUI(newLayer: Layer)
      requires Valid() && FreshIn(layers, newLayer)
      modifies this`layers, this`active, this`pushedEdits
      ensures Valid() && CheckInvariant()
      ensures layers == old(layers) + [newLayer] && active == Some(newLayer)
      ensures pushedEdits == old(pushedEdits)
    {
      InsertDistinct(layers, |layers|, newLayer);
      assert Insert(layers, |layers|, newLayer) == layers + [newLayer];
      layers := layers + [newLayer];
      SetActiveLayer(newLayer, false);
    }

    /**
      `addLayer` at a given position: the layer is inserted there and becomes
      active, a new-layer edit remembering the previously active layer is
      recorded when asked to, and the cached composite is invalidated.
     */
    method AddLayerAt(newLayer: Layer, addToHistory: bool, historyName: string,
                      updateHistogram: bool, newLayerIndex: int)
      requires Valid() && FreshIn(layers, newLayer) && 0 <= newLayerIndex <= |layers|
      modifies this`layers, this`active, this`pushedEdits, this`compositeUpToDate
      ensures Valid() && CheckInvariant()
      ensures layers == Insert(old(layers), newLayerIndex, newLayer) && active == Some(newLayer)
      ensures !compositeUpToDate && CacheCoherent()
      ensures pushedEdits == old(pushedEdits) +
        (if addToHistory then [NewLayerEdit(newLayer, old(active), historyName)] else [])
    {
      var activeLayerBefore := active;
      InsertDistinct(layers, newLayerIndex, newLayer);
      InsertFacts(layers, newLayerIndex, newLayer);
      layers := Insert(layers, newLayerIndex, newLayer);
      SetActiveLayer(newLayer, false);
      if addToHistory {
        pushedEdits := pushedEdits + [NewLayerEdit(newLayer, activeLayerBefore, historyName)];
      }
      // updateHistogram only chooses which views are refreshed
      ImageChanged();
    }

    /**
      `addLayer` relative to the active layer: at index 0 when there is no
      active layer yet, directly below the active layer (at its index) or
      directly above it (at its index + 1).
     */
    method AddLayerRelative(newLayer: Layer, addToHistory: bool, historyName: string,
                            updateHistogram: bool, belowActive: bool)
      requires Valid() && FreshIn(layers, newLayer)
      modifies this`layers, this`active, this`pushedEdits, this`compositeUpToDate
      ensures Valid() && CheckInvariant()
      ensures old(active).None? ==> layers == [newLayer]
      ensures old(active).Some? ==>
        var i := old(ActiveIndex());
        var at := if belowActive then i else i + 1;
        0 <= at <= |old(layers)| && layers == Insert(old(layers), at, newLayer)
      ensures active == Some(newLayer) && !compositeUpToDate && CacheCoherent()
      ensures pushedEdits == old(pushedEdits) +
        (if addToHistory then [NewLayerEdit(newLayer, old(active), historyName)] else [])
    {
      var activeLayerIndex := ActiveIndex();
      var newLayerIndex;
      if activeLayerIndex == -1 {
        newLayerIndex := 0;
      } else if belowActive {
        newLayerIndex := activeLayerIndex;
      } else {
        newLayerIndex := activeLayerIndex + 1;
      }
      AddLayerAt(newLayer, addToHistory, historyName, updateHistogram, newLayerIndex);
    }

    /**
      `deleteLayer`: throws and changes nothing when fewer than two layers are
      left. Otherwise it records the deletion (layer and index) when asked to,
      removes the layer, and when the active layer was deleted makes the layer
      below it active, or the new bottom layer when it was the bottom one. The
      cache is invalidated only when the views are updated.
     */
    method DeleteLayer(layer: Layer, addToHistory: bool, updateGUI: bool) returns (outcome: Outcome)
      requires Valid()
      modifies this`layers, this`active, this`pushedEdits, this`compositeUpToDate
      ensures Valid()
      ensures |old(layers)| < 2 ==>
        outcome == Fail(IllegalStateException) && layers == old(layers) && active == old(active)
        && pushedEdits == old(pushedEdits) && compositeUpToDate == old(compositeUpToDate)
      ensures |old(layers)| >= 2 ==>
        var i := IndexOf(old(layers), layer);
        && outcome == Pass && CheckInvariant()
        && layers == (if i >= 0 then RemoveAt(old(layers), i) else old(layers))
        && active == (if old(active) == Some(layer)
                      then Some(if i > 0 then old(layers)[i - 1] else old(layers)[1])
                      else old(active))
        && pushedEdits == old(pushedEdits) + (if addToHistory then [DeleteLayerEdit(layer, i)] else [])
        && compositeUpToDate == (old(compositeUpToDate) && !updateGUI)
      ensures old(CacheCoherent()) && (updateGUI || |old(layers)| < 2 || layer !in old(layers)) ==> CacheCoherent()
    {
      if |layers| < 2 {
        return Fail(IllegalStateException);
      }
      DeleteFromStack(layer, addToHistory, updateGUI);
      outcome := Pass;
    }

    /** The part of `deleteLayer` after the check that at least two layers are left. */
    method DeleteFromStack(layer: Layer, addToHistory: bool, updateGUI: bool)
      requires Valid() && |layers| >= 2
      modifies this`layers, this`active, this`pushedEdits, this`compositeUpToDate
      ensures Valid() && CheckInvariant()
      ensures
        var i := IndexOf(old(layers), layer);
        && layers == (if i >= 0 then RemoveAt(old(layers), i) else old(layers))
        && active == (if old(active) == Some(layer)
                      then Some(if i > 0 then old(layers)[i - 1] else old(layers)[1])
                      else old(active))
        && pushedEdits == old(pushedEdits) + (if addToHistory then [DeleteLayerEdit(layer, i)] else [])
        && compositeUpToDate == (old(compositeUpToDate) && !updateGUI)
      ensures old(CacheCoherent()) && (updateGUI || layer !in old(layers)) ==> CacheCoherent()
    {
      var layerIndex := IndexOf(layers, layer);
      ghost var before, activeBefore := layers, active;
      if addToHistory {
        pushedEdits := pushedEdits + [DeleteLayerEdit(layer, layerIndex)];
      }
      assert layers == before && active == activeBefore;
      RemoveFound(layer, layerIndex);
      if updateGUI {
        ImageChanged();
      }
    }

    /**
      The removal inside `deleteLayer`, given the layer's index: an absent
      layer leaves the stack and the active layer as they are.
     */
    method RemoveFound(layer: Layer, i: int)
      requires Valid() && |layers| >= 2 && i == IndexOf(layers, layer)
      modifies this`layers, this`active, this`pushedEdits
      ensures Valid() && CheckInvariant()
      ensures layers == (if i >= 0 then RemoveAt(old(layers), i) else old(layers))
      ensures active == (if old(active) == Some(layer)
                         then Some(if i > 0 then old(layers)[i - 1] else old(layers)[1])
                         else old(active))
      ensures pushedEdits == old(pushedEdits)
    {
      if i >= 0 {
        RemoveLayerAt(i);
      } else {
        // an absent layer is not the active one, which is in the stack
        assert active != Some(layer);
      }
    }

    /**
      The list removal inside `deleteLayer`: the layer at `i` goes; when it
      was active, the layer below it becomes active, or the new bottom layer
      when it was the bottom one. Nothing is recorded.
     */
    method RemoveLayerAt(i: int)
      requires Valid() && 0 <= i < |layers| && |layers| >= 2
      modifies this`layers, this`active, this`pushedEdits
      ensures Valid() && CheckInvariant()
      ensures layers == RemoveAt(old(layers), i)
      ensures active == (if old(active) == Some(old(layers)[i])
                         then Some(if i > 0 then old(layers)[i - 1] else old(layers)[1])
                         else old(active))
      ensures pushedEdits == old(pushedEdits)
    {
      var removed := layers[i];
      RemoveAtNeighbour(layers, i);
      RemoveAtDistinct(layers, i);
      if active != Some(removed) {
        RemoveAtKeeps(layers, i, active.value);
      }
      layers := RemoveAt(layers, i);
      if active == Some(removed) {
        if i > 0 {
          SetActiveLayer(layers[i - 1], false);
        } else {
          SetActiveLayer(layers[0], false);
        }
      }
    }

    /** `deleteActiveLayer`. */
    method DeleteActiveLayer(updateGUI: bool, addToHistory: bool) returns (outcome: Outcome)
      requires Valid() && CheckInvariant()
      modifies this`layers, this`active, this`pushedEdits, this`compositeUpToDate
      ensures Valid()
      ensures |old(layers)| < 2 ==>
        outcome == Fail(IllegalStateException) && layers == old(layers) && active == old(active)
        && pushedEdits == old(pushedEdits) && compositeUpToDate == old(compositeUpToDate)
      ensures |old(layers)| >= 2 ==>
        var i := old(ActiveIndex());
        && outcome == Pass && CheckInvariant()
        && layers == RemoveAt(old(layers), i)
        && active == Some(if i > 0 then old(layers)[i - 1] else old(layers)[1])
        && pushedEdits == old(pushedEdits) + (if addToHistory then [DeleteLayerEdit(old(active).value, i)] else [])
        && compositeUpToDate == (old(compositeUpToDate) && !updateGUI)
      ensures old(CacheCoherent()) && (updateGUI || |old(layers)| < 2) ==> CacheCoherent()
    {
      outcome := DeleteLayer(active.value, addToHistory, updateGUI);
    }

    /** The private `deleteLayer(int)`: deletes the layer at an index, recorded, with the views updated. */
    method DeleteLayerAt(layerIndex: int) returns (outcome: Outcome)
      requires Valid() && 0 <= layerIndex < |layers|
      modifies this`layers, this`active, this`pushedEdits, this`compositeUpToDate
      ensures Valid()
      ensures |old(layers)| < 2 ==>
        outcome == Fail(IllegalStateException) && layers == old(layers) && active == old(active)
        && pushedEdits == old(pushedEdits) && compositeUpToDate == old(compositeUpToDate)
      ensures |old(layers)| >= 2 ==>
        && outcome == Pass && CheckInvariant() && !compositeUpToDate
        && layers == RemoveAt(old(layers), layerIndex)
        && active == (if old(active) == Some(old(layers)[layerIndex])
                      then Some(if layerIndex > 0 then old(layers)[layerIndex - 1] else old(layers)[1])
                      else old(active))
        && pushedEdits == old(pushedEdits) + [DeleteLayerEdit(old(layers)[layerIndex], layerIndex)]
      ensures old(CacheCoherent()) ==> CacheCoherent()
    {
      IndexOfDistinct(layers, layerIndex);
      outcome := DeleteLayer(layers[layerIndex], true, true);
    }

    /**
      `mergeDown` at the structural level: only when the active layer is
      visible and the layer directly below it is a visible image layer. Then
      the active layer is deleted without its own edit (the layer below
      becomes active) and one compound edit is recorded: the image edit of the
      layer below followed by the deletion.
     */
    method MergeDown(updateGUI: bool)
      requires Valid() && CheckInvariant()
      modifies this`layers, this`active, this`pushedEdits, this`compositeUpToDate
      ensures Valid() && CheckInvariant()
      ensures
        var i := old(ActiveIndex());
        var merges := i > 0 && old(active).value.visible
                      && old(layers)[i - 1].kind == ImageLayer && old(layers)[i - 1].visible;
        && (merges ==>
              && layers == RemoveAt(old(layers), i)
              && active == Some(old(layers)[i - 1])
              && pushedEdits == old(pushedEdits) +
                   [CompoundEdit("Merge Down", [ImageEdit(old(layers)[i - 1]), DeleteLayerEdit(old(active).value, i)])]
              && compositeUpToDate == (old(compositeUpToDate) && !updateGUI))
        && (!merges ==>
              && layers == old(layers) && active == old(active)
              && pushedEdits == old(pushedEdits) && compositeUpToDate == old(compositeUpToDate))
      ensures
        var i := old(ActiveIndex());
        var merges := i > 0 && old(active).value.visible
                      && old(layers)[i - 1].kind == ImageLayer && old(layers)[i - 1].visible;
        old(CacheCoherent()) && (updateGUI || !merges) ==> CacheCoherent()
    {
      var activeIndex := ActiveIndex();
      if activeIndex > 0 && active.value.visible {
        var below := layers[activeIndex - 1];
        if below.kind == ImageLayer && below.visible {
          var mergedLayer := active.value;
          var _ := DeleteActiveLayer(updateGUI, false);
          pushedEdits := pushedEdits +
            [CompoundEdit("Merge Down", [ImageEdit(below), DeleteLayerEdit(mergedLayer, activeIndex)])];
        }
      }
    }

    /**
      `flattenImage` at the structural level: a no-op below two layers.
      Otherwise the composite is brought up to date, a new image layer is put
      on top and made active, and every other layer is deleted from the top
      down, each deletion recorded; with the views updated a not-undoable edit
      follows.
     */
    method FlattenImage(updateGUI: bool, flattenedId: LayerId)
      requires Valid()
      requires forall l :: l in layers ==> l.id != flattenedId
      modifies this`layers, this`active, this`pushedEdits, this`compositeUpToDate,
               this`cachedComposite, this`recomputations
      ensures Valid()
      ensures |old(layers)| < 2 ==>
        && layers == old(layers) && active == old(active) && pushedEdits == old(pushedEdits)
        && compositeUpToDate == old(compositeUpToDate) && cachedComposite == old(cachedComposite)
      ensures |old(layers)| >= 2 ==>
        && CheckInvariant()
        && layers == [FlattenedLayer(flattenedId)] && active == Some(FlattenedLayer(flattenedId))
        && !compositeUpToDate
        && (old(CacheCoherent()) ==> cachedComposite == Some(Composite(canvas, old(layers))))
        && pushedEdits == old(pushedEdits) + FlattenDeletes(old(layers), 0) +
             (if updateGUI then [NotUndoableEdit("Flatten Image")] else [])
      ensures old(CacheCoherent()) ==> CacheCoherent()
    {
      if |layers| < 2 {
        return;
      }
      var flattened := FlattenedLayer(flattenedId);
      var bi := PutFlattenedOnTop(flattened);
      DeleteAllBelowTop(old(layers), flattened);
      assert pushedEdits == old(pushedEdits) + FlattenDeletes(old(layers), 0);
      if updateGUI {
        pushedEdits := pushedEdits + [NotUndoableEdit("Flatten Image")];
      }
    }

    /**
      The loop of `flattenImage`: with `top` active above the layers `p`, the
      layers of `p` are deleted from the top down, each deletion recorded,
      until only `top` is left.
     */
    method DeleteAllBelowTop(ghost p: seq<Layer>, top: Layer)
      requires Valid() && layers == p + [top] && active == Some(top)
      modifies this`layers, this`active, this`pushedEdits, this`compositeUpToDate
      ensures Valid() && layers == [top] && active == Some(top)
      ensures pushedEdits == old(pushedEdits) + FlattenDeletes(p, 0)
      ensures compositeUpToDate == (old(compositeUpToDate) && p == [])
    {
      assert layers == p[..|p|] + [top];
      var i := |layers| - 2;
      while i >= 0
        invariant -1 <= i < |p|
        invariant layers == p[..i + 1] + [top]
        invariant active == Some(top)
        invariant pushedEdits == old(pushedEdits) + FlattenDeletes(p, i + 1)
        invariant Valid()
        invariant compositeUpToDate == (old(compositeUpToDate) && i == |p| - 1)
        decreases i
      {
        DropBelowTop(p, top, i);
        DeleteBelowTop(i);
        i := i - 1;
      }
    }

    /**
      The start of `flattenImage`: the composite is brought up to date, and
      the new layer is added on top and made active, unrecorded.
     */
    method PutFlattenedOnTop(flattened: Layer) returns (bi: Image)
      requires Valid() && FreshIn(layers, flattened)
      modifies this`layers, this`active, this`pushedEdits, this`compositeUpToDate,
               this`cachedComposite, this`recomputations
      ensures Valid() && !compositeUpToDate && cachedComposite == Some(bi)
      ensures old(CacheCoherent()) ==> bi == Composite(canvas, old(layers))
      ensures layers == old(layers) + [flattened] && active == Some(flattened)
      ensures pushedEdits == old(pushedEdits)
    {
      bi := GetCompositeImage();
      AddLayerAt(flattened, false, "", false, |layers|);
      assert Insert(old(layers), |old(layers)|, flattened) == old(layers) + [flattened];
    }

    /**
      One deletion of `flattenImage`'s loop: the layer just below the
      flattened top layer is deleted, recorded, and the active top layer stays.
     */
    method DeleteBelowTop(i: int)
      requires Valid() && 0 <= i && |layers| == i + 2 && active == Some(layers[i + 1])
      modifies this`layers, this`active, this`pushedEdits, this`compositeUpToDate
      ensures Valid() && !compositeUpToDate && active == old(active)
      ensures layers == RemoveAt(old(layers), i)
      ensures pushedEdits == old(pushedEdits) + [DeleteLayerEdit(old(layers)[i], i)]
    {
      assert IdAt(layers, i) != IdAt(layers, i + 1);
      var _ := DeleteLayerAt(i);
    }

    /**
      `swapLayers`: a no-op (nothing recorded, cache untouched) when the new
      index is outside the stack or equals the old one. Otherwise the layer at
      the old index is moved to the new one, the cache is invalidated and the
      order change is recorded when asked to.
     */
    method SwapLayers(oldIndex: int, newIndex: int, addHistory: bool)
      requires Valid()
      requires 0 <= newIndex < |layers| && oldIndex != newIndex ==> 0 <= oldIndex < |layers|
      modifies this`layers, this`compositeUpToDate, this`pushedEdits
      ensures Valid() && active == old(active)
      ensures newIndex < 0 || newIndex >= |old(layers)| || oldIndex == newIndex ==>
        layers == old(layers) && compositeUpToDate == old(compositeUpToDate) && pushedEdits == old(pushedEdits)
      ensures 0 <= newIndex < |old(layers)| && oldIndex != newIndex ==>
        && layers == Move(old(layers), oldIndex, newIndex) && !compositeUpToDate
        && pushedEdits == old(pushedEdits) + (if addHistory then [LayerOrderChangeEdit(oldIndex, newIndex)] else [])
      ensures old(CacheCoherent()) ==> CacheCoherent()
    {
      if newIndex < 0 {
        return;
      }
      if newIndex >= |layers| {
        return;
      }
      if oldIndex == newIndex {
        return;
      }
      MoveFacts(layers, oldIndex, newIndex);
      layers := Move(layers, oldIndex, newIndex);
      ImageChanged();
      if addHistory {
        pushedEdits := pushedEdits + [LayerOrderChangeEdit(oldIndex, newIndex)];
      }
    }

    /** `moveActiveLayerUp`: swaps the active layer with the one above it, if any. */
    method MoveActiveLayerUp()
      requires Valid() && CheckInvariant()
      modifies this`layers, this`compositeUpToDate, this`pushedEdits
      ensures Valid() && CheckInvariant() && active == old(active)
      ensures
        var i := old(ActiveIndex());
        if i + 1 < |old(layers)| then
          && layers == Move(old(layers), i, i + 1) && !compositeUpToDate
          && pushedEdits == old(pushedEdits) + [LayerOrderChangeEdit(i, i + 1)]
        else
          layers == old(layers) && compositeUpToDate == old(compositeUpToDate) && pushedEdits == old(pushedEdits)
      ensures old(CacheCoherent()) ==> CacheCoherent()
    {
      var oldIndex := ActiveIndex();
      SwapLayers(oldIndex, oldIndex + 1, true);
    }

    /** `moveActiveLayerDown`: swaps the active layer with the one below it, if any. */
    method MoveActiveLayerDown()
      requires Valid() && CheckInvariant()
      modifies this`layers, this`compositeUpToDate, this`pushedEdits
      ensures Valid() && CheckInvariant() && active == old(active)
      ensures
        var i := old(ActiveIndex());
        if i > 0 then
          && layers == Move(old(layers), i, i - 1) && !compositeUpToDate
          && pushedEdits == old(pushedEdits) + [LayerOrderChangeEdit(i, i - 1)]
        else
          layers == old(layers) && compositeUpToDate == old(compositeUpToDate) && pushedEdits == old(pushedEdits)
      ensures old(CacheCoherent()) ==> CacheCoherent()
    {
      var oldIndex := ActiveIndex();
      SwapLayers(oldIndex, oldIndex - 1, true);
    }

    /** `moveActiveLayerToTop`. */
    method MoveActiveLayerToTop()
      requires Valid() && CheckInvariant()
      modifies this`layers, this`compositeUpToDate, this`pushedEdits
      ensures Valid() && CheckInvariant() && active == old(active)
      ensures
        var i := old(ActiveIndex());
        var top := |old(layers)| - 1;
        if i != top then
          && layers == Move(old(layers), i, top) && !compositeUpToDate
          && pushedEdits == old(pushedEdits) + [LayerOrderChangeEdit(i, top)]
        else
          layers == old(layers) && compositeUpToDate == old(compositeUpToDate) && pushedEdits == old(pushedEdits)
      ensures old(CacheCoherent()) ==> CacheCoherent()
    {
      var oldIndex := ActiveIndex();
      var newIndex := |layers| - 1;
      SwapLayers(oldIndex, newIndex, true);
    }

    /** `moveActiveLayerToBottom`. */
    method MoveActiveLayerToBottom()
      requires Valid() && CheckInvariant()
      modifies this`layers, this`compositeUpToDate, this`pushedEdits
      ensures Valid() && CheckInvariant() && active == old(active)
      ensures
        var i := old(ActiveIndex());
        if i != 0 then
          && layers == Move(old(layers), i, 0) && !compositeUpToDate
          && pushedEdits == old(pushedEdits) + [LayerOrderChangeEdit(i, 0)]
        else
          layers == old(layers) && compositeUpToDate == old(compositeUpToDate) && pushedEdits == old(pushedEdits)
      ensures old(CacheCoherent()) ==> CacheCoherent()
    {
      var oldIndex := ActiveIndex();
      SwapLayers(oldIndex, 0, true);
    }

    /** `moveLayerSelectionUp`: makes the layer above the active one active, recorded, if there is one. */
    method MoveLayerSelectionUp()
      requires Valid()
      modifies this`active, this`pushedEdits
      ensures Valid()
      ensures
        var i := old(ActiveIndex());
        if i + 1 < |layers| then
          active == Some(layers[i + 1])
          && pushedEdits == old(pushedEdits) + [LayerSelectionChangeEdit(old(active), layers[i + 1])]
        else
          active == old(active) && pushedEdits == old(pushedEdits)
    {
      var oldIndex := ActiveIndex();
      var newIndex := oldIndex + 1;
      if newIndex >= |layers| {
        return;
      }
      assert IdAt(layers, oldIndex) != IdAt(layers, newIndex);
      SetActiveLayer(layers[newIndex], true);
    }

    /** `moveLayerSelectionDown`: makes the layer below the active one active, recorded, if there is one. */
    method MoveLayerSelectionDown()
      requires Valid()
      modifies this`active, this`pushedEdits
      ensures Valid()
      ensures
        var i := old(ActiveIndex());
        if i > 0 then
          active == Some(layers[i - 1])
          && pushedEdits == old(pushedEdits) + [LayerSelectionChangeEdit(old(active), layers[i - 1])]
        else
          active == old(active) && pushedEdits == old(pushedEdits)
    {
      var oldIndex := ActiveIndex();
      var newIndex := oldIndex - 1;
      if newIndex < 0 {
        return;
      }
      assert IdAt(layers, newIndex) != IdAt(layers, oldIndex);
      SetActiveLayer(layers[newIndex], true);
    }

    /** `dragFinished`: the dragged layer is moved to its new index; nothing is recorded. */
    method DragFinished(layer: Layer, newIndex: int)
      requires Valid() && layer in layers && 0 <= newIndex < |layers|
      modifies this`layers, this`compositeUpToDate
      ensures Valid()
      ensures layers == Move(old(layers), IndexOf(old(layers), layer), newIndex)
      ensures !compositeUpToDate && CacheCoherent()
    {
      var from := IndexOf(layers, layer);
      MoveFacts(layers, from, newIndex);
      layers := Move(layers, from, newIndex);
      ImageChanged();
    }

    /** `getNrImageLayers`. */
    method GetNrImageLayers() returns (sum: nat)
      ensures sum == ImageLayerCount(layers)
    {
      sum := 0;
      var i := 0;
      while i < |layers|
        invariant 0 <= i <= |layers|
        invariant sum + ImageLayerCount(layers[i..]) == ImageLayerCount(layers)
      {
        assert layers[i..][1..] == layers[i + 1..];
        if layers[i].kind == ImageLayer {
          sum := sum + 1;
        }
        i := i + 1;
      }
    }

    /** `getAnyImageLayer`: the bottom-most image layer, or none. */
    method GetAnyImageLayer() returns (r: Option<Layer>)
      ensures r == FirstImageLayer(layers)
    {
      var i := 0;
      while i < |layers|
        invariant 0 <= i <= |layers|
        invariant FirstImageLayer(layers[i..]) == FirstImageLayer(layers)
      {
        assert layers[i..][1..] == layers[i + 1..];
        if layers[i].kind == ImageLayer {
          return Some(layers[i]);
        }
        i := i + 1;
      }
      return None;
    }

    /**
      `getActiveMaskOrImageLayerOrNull`: the active layer's mask while the mask
      is being edited, else the active layer if it is an image layer, else nothing.
     */
    function ActiveMaskOrImageLayerOrNull(): (r: Option<Drawable>)
      reads this`layers, this`active
      requires CheckInvariant()
      ensures r.None? <==> !active.value.IsMaskEditing() && active.value.kind != ImageLayer
      ensures active.value.IsMaskEditing() ==> r == Some(LayerMaskOf(active.value, active.value.mask.value))
      ensures !active.value.IsMaskEditing() && active.value.kind == ImageLayer ==> r == Some(ImageLayerOf(active.value))
    {
      if active.value.IsMaskEditing() then Some(LayerMaskOf(active.value, active.value.mask.value))
      else if active.value.kind == ImageLayer then Some(ImageLayerOf(active.value))
      else None
    }

    /** `getActiveMaskOrImageLayer`: the same lookup, throwing when it finds nothing. */
    function ActiveMaskOrImageLayer(): (r: Result<Drawable>)
      reads this`layers, this`active
      requires CheckInvariant()
      ensures r.Failure? <==> ActiveMaskOrImageLayerOrNull().None?
      ensures r.Failure? ==> r.error == IllegalStateException
      ensures r.Ok? ==> ActiveMaskOrImageLayerOrNull() == Some(r.value)
    {
      match ActiveMaskOrImageLayerOrNull()
      case None => Failure(IllegalStateException)
      case Some(layer) => Ok(layer)
    }

    /**
      `calculateCompositeImage`: starting from a transparent canvas-sized
      buffer, applies each visible layer bottom to top, telling only the first
      of them that it is first; a non-null result replaces the accumulator.
     */
    method CalculateCompositeImage() returns (imageSoFar: Image)
      ensures imageSoFar == Composite(canvas, layers)
    {
      imageSoFar := Blank(canvas.width, canvas.height);
      var firstVisibleLayer := true;
      var i := 0;
      while i < |layers|
        invariant 0 <= i <= |layers|
        invariant CompositeFrom(imageSoFar, firstVisibleLayer, layers[i..]) == Composite(canvas, layers)
      {
        var layer := layers[i];
        assert layers[i..][0] == layer && layers[i..][1..] == layers[i + 1..];
        if layer.visible {
          var result := ApplyLayer(layer, firstVisibleLayer, imageSoFar);
          match result {
            case Returned(adjusted) => imageSoFar := adjusted;
            case DrawnInPlace(drawn) => imageSoFar := drawn;
          }
          firstVisibleLayer := false;
        }
        i := i + 1;
      }
    }

    /**
      `getCompositeImage`: returns the cached image without recomputing while
      it is marked up to date; otherwise recomputes, caches and marks it.
     */
    method GetCompositeImage() returns (img: Image)
      requires Valid()
      modifies this`compositeUpToDate, this`cachedComposite, this`recomputations
      ensures Valid() && compositeUpToDate && cachedComposite == Some(img)
      ensures old(compositeUpToDate) ==> img == old(cachedComposite).value && recomputations == old(recomputations)
      ensures !old(compositeUpToDate) ==> img == Composite(canvas, layers) && recomputations == old(recomputations) + 1
      ensures old(CacheCoherent()) ==> img == Composite(canvas, layers)
      ensures CacheCoherent() == old(CacheCoherent())
    {
      if compositeUpToDate {
        return cachedComposite.value;
      }
      img := CalculateCompositeImage();
      cachedComposite := Some(img);
      compositeUpToDate := true;
      recomputations := recomputations + 1;
    }

    /** `generateNewLayerName`: "layer n" for the current counter value n, then the counter advances. */
    method GenerateNewLayerName() returns (name: string)
      modifies this`newLayerCount
      ensures name == LayerName(old(newLayerCount)) && newLayerCount == old(newLayerCount) + 1
    {
      name := "layer " + Decimal.NatToString(newLayerCount);
      newLayerCount := newLayerCount + 1;
    }

    /**
      `deselect`: drops the selection; when asked to and the selection has a
      shape, a deselect edit holding that shape is recorded first.
     */
    method Deselect(addToHistory: bool)
      modifies this`selection, this`pushedEdits
      ensures selection.None?
      ensures pushedEdits == old(pushedEdits) +
        (if old(selection).Some? && addToHistory && old(selection).value.shape.Some?
         then [DeselectEdit(old(selection).value.shape.value)] else [])
    {
      if selection.Some? {
        if addToHistory {
          var shape := selection.value.shape;
          if shape.Some? {
            pushedEdits := pushedEdits + [DeselectEdit(shape.value)];
          }
        }
        selection := None;
      }
    }

    /** `createSelectionFromShape`: throws while a selection exists, otherwise the shape becomes the selection. */
    method CreateSelectionFromShape(shape: Shape) returns (outcome: Outcome)
      modifies this`selection
      ensures old(selection).Some? ==> outcome == Fail(IllegalStateException) && selection == old(selection)
      ensures old(selection).None? ==> outcome == Pass && selection == Some(Selection(Some(shape)))
    {
      if selection.Some? {
        return Fail(IllegalStateException);
      }
      selection := Some(Selection(Some(shape)));
      outcome := Pass;
    }
  }

  /** Over the same canvas, the composite of two visible layers is not that of the lower one alone. */
  lemma CompositesDiffer(canvas: Canvas, a: Layer, b: Layer)
    requires a.visible && b.visible
    ensures Composite(canvas, [a]) != Composite(canvas, [a, b])
  {
    CompositeOfStack(canvas, [a]);
    CompositeOfStack(canvas, [a, b]);
    assert Visible([a]) == [a];
    assert Visible([a, b]) == [a, b];
  }

  /**
    Deleting a visible layer with the views not updated (as `mergeDown` and
    the history's `UpdateGUI.NO` callers do) keeps the "composite up to date"
    flag set although the stack changed: on a two-layer composition whose
    cache was just brought up to date, the cache no longer is the composite.
   */
  method StaleCacheAfterDeleteWithoutGUI() returns (comp: Composition)
    ensures comp.Valid() && comp.compositeUpToDate && !comp.CacheCoherent()
  {
    var a := Layer(0, ImageLayer, true, 0, 0, None);
    var b := Layer(1, ImageLayer, true, 0, 0, None);
    comp := new Composition.CreateEmpty(Canvas(1, 1));
    comp.AddLayerNoGUI(a);
    comp.AddLayerNoGUI(b);
    assert comp.layers == [a, b] && !comp.compositeUpToDate;
    var cached := comp.GetCompositeImage();
    assert cached == Composite(Canvas(1, 1), [a, b]);
    var _ := comp.DeleteLayer(b, false, false);
    assert comp.layers == [a] && comp.cachedComposite == Some(cached);
    CompositesDiffer(Canvas(1, 1), a, b);
  }
}
