/**
  An edit for operations that can affect several layers (resize, crop, flip,
  rotation). It bundles optional child edits and is undoable only when the
  composition has a single image layer. The child edits are opaque: the
  model records, in order, which child was asked to undo, redo or die.
 */
module MultiLayerEdits {
  import opened Wrappers
  import opened LayerStack

  /** The kinds of child edit, one slot each. */
  datatype Child = ImageChild | TranslationChild | CanvasChangeChild | SelectionChangeChild | DeselectChild

  datatype Action = UndoAction | RedoAction | DieAction

  /** One call on a child edit. */
  datatype ChildCall = ChildCall(child: Child, action: Action)

  /** The position of a child in the fixed order in which children are undone, redone and killed. */
  function Rank(c: Child): nat {
    match c
    case ImageChild => 0
    case TranslationChild => 1
    case CanvasChangeChild => 2
    case SelectionChangeChild => 3
    case DeselectChild => 4
  }

  /** What the backup taken before the operation holds. */
  datatype MultiLayerBackup = MultiLayerBackup(hasCanvasChangeEdit: bool, hasTranslationEdit: bool, hasSavedSelection: bool)

  /** The same action on each child, in the given order. */
  function CallsOf(children: seq<Child>, a: Action): seq<ChildCall>
    decreases |children|
  {
    if children == [] then [] else [ChildCall(children[0], a)] + CallsOf(children[1..], a)
  }

  /** The i-th call is the action on the i-th child. */
  lemma {:induction false} CallsOfAt(children: seq<Child>, a: Action)
    ensures |CallsOf(children, a)| == |children|
    ensures forall i :: 0 <= i < |children| ==> CallsOf(children, a)[i] == ChildCall(children[i], a)
    decreases |children|
  {
    if children != [] {
      CallsOfAt(children[1..], a);
    }
  }

  /** The child `c` when it exists, else nothing. */
  function Slot(present: bool, c: Child): seq<Child> {
    if present then [c] else []
  }

  lemma CallsOfAppend(x: seq<Child>, y: seq<Child>, a: Action)
    ensures CallsOf(x + y, a) == CallsOf(x, a) + CallsOf(y, a)
  {
    CallsOfAt(x + y, a);
    CallsOfAt(x, a);
    CallsOfAt(y, a);
    forall i | 0 <= i < |x + y| ensures CallsOf(x + y, a)[i] == (CallsOf(x, a) + CallsOf(y, a))[i] {
      if i < |x| {
        assert (x + y)[i] == x[i];
      } else {
        assert (x + y)[i] == y[i - |x|];
      }
    }
  }

  /** Appending a slot appends its call. */
  lemma CallsOfSlot(p: seq<Child>, present: bool, c: Child, a: Action)
    ensures CallsOf(p + Slot(present, c), a) == CallsOf(p, a) + CallSlot(present, c, a)
  {
    CallsOfAppend(p, Slot(present, c), a);
    assert CallsOf(Slot(present, c), a) == CallSlot(present, c, a);
  }

  lemma AppendAssoc5(b: seq<ChildCall>, c1: seq<ChildCall>, c2: seq<ChildCall>, c3: seq<ChildCall>, c4: seq<ChildCall>, c5: seq<ChildCall>)
    ensures b + c1 + c2 + c3 + c4 + c5 == b + (c1 + c2 + c3 + c4 + c5)
  {
    assert b + c1 + c2 == b + (c1 + c2);
    assert b + c1 + c2 + c3 == b + (c1 + c2 + c3);
    assert b + c1 + c2 + c3 + c4 == b + (c1 + c2 + c3 + c4);
  }

  /** The call on child `c` when it exists, else nothing. */
  function CallSlot(present: bool, c: Child, a: Action): seq<ChildCall> {
    if present then [ChildCall(c, a)] else []
  }

  /** Strictly increasing ranks: the fixed order, each child at most once. */
  predicate InOrder(children: seq<Child>) {
    forall i, j :: 0 <= i < j < |children| ==> Rank(children[i]) < Rank(children[j])
  }

  /** In a sequence in the fixed order, every child present occurs exactly once. */
  lemma {:induction false} InOrderOnce(children: seq<Child>, c: Child)
    requires InOrder(children)
    ensures multiset(children)[c] == if c in children then 1 else 0
    decreases |children|
  {
    if children != [] {
      var rest := children[1..];
      assert InOrder(rest);
      InOrderOnce(rest, c);
      assert children == [children[0]] + rest;
      if c == children[0] {
        assert c !in rest by {
          forall k | 0 <= k < |rest| ensures rest[k] != c {
            assert Rank(children[0]) < Rank(children[k + 1]);
          }
        }
      }
    }
  }

  class MultiLayerEdit {
    const name: string
    /** The single image layer, when there is one. */
    const layer: Option<Layer>
    const hasImageEdit: bool
    const hasCanvasChangeEdit: bool
    const hasTranslationEdit: bool
    const hasSelectionChangeEdit: bool
    const hasDeselectEdit: bool
    const undoable: bool
    /** The state every undoable edit keeps: not yet killed, and done (not undone). */
    var alive: bool
    var hasBeenDone: bool
    /** The calls made on the child edits so far, oldest first. */
    var calls: seq<ChildCall>

    /**
      The constructor: the canvas and translation children come from the
      backup; with exactly one image layer the edit is undoable, remembers
      that layer and has an image child. With a selection there is a
      selection-change child (the backup must then have saved the selection);
      otherwise a saved selection means the operation deselected, and there
      is a deselect child.
     */
    constructor (comp: seq<Layer>, hasSelection: bool, name: string, backup: MultiLayerBackup)
      requires hasSelection ==> backup.hasSavedSelection
      ensures this.name == name
      ensures hasCanvasChangeEdit == backup.hasCanvasChangeEdit && hasTranslationEdit == backup.hasTranslationEdit
      ensures undoable <==> ImageLayerCount(comp) == 1
      ensures hasImageEdit == undoable
      ensures undoable ==> layer.Some? && layer.value in comp && layer.value.kind == ImageLayer
      ensures undoable ==> forall l :: l in comp && l.kind == ImageLayer ==> l == layer.value
      ensures !undoable ==> layer.None?
      ensures hasSelectionChangeEdit == hasSelection
      ensures hasDeselectEdit == (!hasSelection && backup.hasSavedSelection)
      ensures !(hasSelectionChangeEdit && hasDeselectEdit)
      ensures alive && hasBeenDone && calls == []
    {
      this.name := name;
      hasCanvasChangeEdit := backup.hasCanvasChangeEdit;
      hasTranslationEdit := backup.hasTranslationEdit;
      var nrLayers := ImageLayerCount(comp);
      if nrLayers == 1 {
        SingleImageLayer(comp);
        layer := FirstImageLayer(comp);
        hasImageEdit := true;
        undoable := true;
      } else {
        layer := None;
        hasImageEdit := false;
        undoable := false;
      }
      if hasSelection {
        hasSelectionChangeEdit := true;
        hasDeselectEdit := false;
      } else {
        hasSelectionChangeEdit := false;
        hasDeselectEdit := backup.hasSavedSelection;
      }
      alive := true;
      hasBeenDone := true;
      calls := [];
    }

    /** Whether a child edit of this kind was created. */
    predicate Has(c: Child) {
      match c
      case ImageChild => hasImageEdit
      case TranslationChild => hasTranslationEdit
      case CanvasChangeChild => hasCanvasChangeEdit
      case SelectionChangeChild => hasSelectionChangeEdit
      case DeselectChild => hasDeselectEdit
    }

    /** `p` holds, in the fixed order, exactly the existing children of rank below `bound`. */
    predicate ChildrenBelow(p: seq<Child>, bound: nat) {
      InOrder(p) && forall x :: x in p <==> Has(x) && Rank(x) < bound
    }

    /** Appending the child of rank `bound`, when it exists, extends such a prefix by one rank. */
    lemma Extend(p: seq<Child>, c: Child)
      requires ChildrenBelow(p, Rank(c))
      ensures ChildrenBelow(p + Slot(Has(c), c), Rank(c) + 1)
    {
      var r := p + Slot(Has(c), c);
      if Has(c) {
        forall i, j | 0 <= i < j < |r| ensures Rank(r[i]) < Rank(r[j]) {
          assert r[i] == p[i];
          assert r[i] in p;
          if j < |p| {
            assert r[j] == p[j];
          }
        }
      } else {
        assert r == p;
      }
    }

    /** The existing children among the first two kinds, then the first three, then the first four. */
    function UpToTranslation(): seq<Child> {
      Slot(hasImageEdit, ImageChild) + Slot(hasTranslationEdit, TranslationChild)
    }

    function UpToCanvas(): seq<Child> {
      UpToTranslation() + Slot(hasCanvasChangeEdit, CanvasChangeChild)
    }

    function UpToSelection(): seq<Child> {
      UpToCanvas() + Slot(hasSelectionChangeEdit, SelectionChangeChild)
    }

    /** The child edits that exist, in the fixed order. */
    function Children(): seq<Child> {
      UpToSelection() + Slot(hasDeselectEdit, DeselectChild)
    }

    lemma UpToTranslationFacts()
      ensures ChildrenBelow(UpToTranslation(), 2)
    {
      var p1 := Slot(hasImageEdit, ImageChild);
      assert ChildrenBelow(p1, 1);
      Extend(p1, TranslationChild);
    }

    lemma UpToCanvasFacts()
      ensures ChildrenBelow(UpToCanvas(), 3)
    {
      UpToTranslationFacts();
      Extend(UpToTranslation(), CanvasChangeChild);
    }

    lemma UpToSelectionFacts()
      ensures ChildrenBelow(UpToSelection(), 4)
    {
      UpToCanvasFacts();
      Extend(UpToCanvas(), SelectionChangeChild);
    }

    /** The children are exactly the existing child edits, each once, in the fixed order. */
    lemma ChildrenFacts()
      ensures forall c :: c in Children() <==> Has(c)
      ensures InOrder(Children())
    {
      UpToSelectionFacts();
      Extend(UpToSelection(), DeselectChild);
      assert ChildrenBelow(Children(), 5);
    }

    /** The calls after `undo`, `redo` or `die` has told the children, slot by slot, to perform `a`. */
    function Traced(before: seq<ChildCall>, a: Action): seq<ChildCall> {
      before
      + CallSlot(hasImageEdit, ImageChild, a)
      + CallSlot(hasTranslationEdit, TranslationChild, a)
      + CallSlot(hasCanvasChangeEdit, CanvasChangeChild, a)
      + CallSlot(hasSelectionChangeEdit, SelectionChangeChild, a)
      + CallSlot(hasDeselectEdit, DeselectChild, a)
    }

    /** The calls on the existing children among the first two, three and four kinds, and on all of them. */
    lemma CallsUpToTranslation(a: Action)
      ensures CallsOf(UpToTranslation(), a)
        == CallSlot(hasImageEdit, ImageChild, a) + CallSlot(hasTranslationEdit, TranslationChild, a)
    {
      CallsOfSlot([], hasImageEdit, ImageChild, a);
      assert [] + Slot(hasImageEdit, ImageChild) == Slot(hasImageEdit, ImageChild);
      CallsOfSlot(Slot(hasImageEdit, ImageChild), hasTranslationEdit, TranslationChild, a);
    }

    lemma CallsUpToCanvas(a: Action)
      ensures CallsOf(UpToCanvas(), a)
        == CallSlot(hasImageEdit, ImageChild, a) + CallSlot(hasTranslationEdit, TranslationChild, a)
        + CallSlot(hasCanvasChangeEdit, CanvasChangeChild, a)
    {
      CallsUpToTranslation(a);
      CallsOfSlot(UpToTranslation(), hasCanvasChangeEdit, CanvasChangeChild, a);
    }

    lemma CallsUpToSelection(a: Action)
      ensures CallsOf(UpToSelection(), a)
        == CallSlot(hasImageEdit, ImageChild, a) + CallSlot(hasTranslationEdit, TranslationChild, a)
        + CallSlot(hasCanvasChangeEdit, CanvasChangeChild, a) + CallSlot(hasSelectionChangeEdit, SelectionChangeChild, a)
    {
      CallsUpToCanvas(a);
      CallsOfSlot(UpToCanvas(), hasSelectionChangeEdit, SelectionChangeChild, a);
    }

    /** Those calls are the action on every existing child, in the fixed order. */
    lemma TracedIsChildren(before: seq<ChildCall>, a: Action)
      ensures Traced(before, a) == before + CallsOf(Children(), a)
    {
      CallsUpToSelection(a);
      CallsOfSlot(UpToSelection(), hasDeselectEdit, DeselectChild, a);
      AppendAssoc5(before, CallSlot(hasImageEdit, ImageChild, a), CallSlot(hasTranslationEdit, TranslationChild, a),
        CallSlot(hasCanvasChangeEdit, CanvasChangeChild, a), CallSlot(hasSelectionChangeEdit, SelectionChangeChild, a),
        CallSlot(hasDeselectEdit, DeselectChild, a));
    }

    /** Tells the child `c` to perform `a`, when that child exists. */
    method CallChild(present: bool, c: Child, a: Action)
      modifies this`calls
      ensures calls == old(calls) + CallSlot(present, c, a)
    {
      if present {
        calls := calls + [ChildCall(c, a)];
      }
    }

    /** `canUndo`: never when not undoable, otherwise the base rule (alive and done). */
    function CanUndo(): (r: bool)
      reads this
      ensures !undoable ==> !r
      ensures undoable ==> (r <==> alive && hasBeenDone)
    {
      if !undoable then false else alive && hasBeenDone
    }

    /** `canRedo`: never when not undoable, otherwise the base rule (alive and undone). */
    function CanRedo(): (r: bool)
      reads this
      ensures !undoable ==> !r
      ensures undoable ==> (r <==> alive && !hasBeenDone)
    {
      if !undoable then false else alive && !hasBeenDone
    }

    /** `canRepeat`: a multi-layer edit is never repeated. */
    function CanRepeat(): (r: bool)
      ensures !r
    {
      false
    }

    /**
      `undo`: the base check throws when the edit cannot be undone, and then
      no child is touched. Otherwise the edit becomes undone and every child
      edit is undone: image, translation, canvas, selection change, deselect.
     */
    method Undo() returns (outcome: Outcome)
      modifies this`hasBeenDone, this`calls
      ensures !old(CanUndo()) ==>
        outcome == Fail(CannotUndoException) && hasBeenDone == old(hasBeenDone) && calls == old(calls)
      ensures old(CanUndo()) ==>
        outcome == Pass && !hasBeenDone && calls == old(calls) + CallsOf(Children(), UndoAction)
    {
      if !CanUndo() {
        return Fail(CannotUndoException);
      }
      ghost var before := calls;
      hasBeenDone := false;
      CallChild(hasImageEdit, ImageChild, UndoAction);
      CallChild(hasTranslationEdit, TranslationChild, UndoAction);
      // the canvas change comes after the image and translation edits
      CallChild(hasCanvasChangeEdit, CanvasChangeChild, UndoAction);
      CallChild(hasSelectionChangeEdit, SelectionChangeChild, UndoAction);
      CallChild(hasDeselectEdit, DeselectChild, UndoAction);
      TracedIsChildren(before, UndoAction);
      outcome := Pass;
    }

    /** `redo`: like `undo`, in the same order (not reversed), after the base check for redo. */
    method Redo() returns (outcome: Outcome)
      modifies this`hasBeenDone, this`calls
      ensures !old(CanRedo()) ==>
        outcome == Fail(CannotRedoException) && hasBeenDone == old(hasBeenDone) && calls == old(calls)
      ensures old(CanRedo()) ==>
        outcome == Pass && hasBeenDone && calls == old(calls) + CallsOf(Children(), RedoAction)
    {
      if !CanRedo() {
        return Fail(CannotRedoException);
      }
      ghost var before := calls;
      hasBeenDone := true;
      CallChild(hasImageEdit, ImageChild, RedoAction);
      CallChild(hasTranslationEdit, TranslationChild, RedoAction);
      CallChild(hasCanvasChangeEdit, CanvasChangeChild, RedoAction);
      CallChild(hasSelectionChangeEdit, SelectionChangeChild, RedoAction);
      CallChild(hasDeselectEdit, DeselectChild, RedoAction);
      TracedIsChildren(before, RedoAction);
      outcome := Pass;
    }

    /** `die`: the edit is killed and every existing child is told to die. */
    method Die()
      modifies this`alive, this`calls
      ensures !alive && calls == old(calls) + CallsOf(Children(), DieAction)
    {
      ghost var before := calls;
      alive := false;
      CallChild(hasImageEdit, ImageChild, DieAction);
      CallChild(hasTranslationEdit, TranslationChild, DieAction);
      CallChild(hasCanvasChangeEdit, CanvasChangeChild, DieAction);
      CallChild(hasSelectionChangeEdit, SelectionChangeChild, DieAction);
      CallChild(hasDeselectEdit, DeselectChild, DieAction);
      TracedIsChildren(before, DieAction);
    }
  }

  /**
    The canvas change child always comes after the image and translation
    children, whichever of them exist.
   */
  lemma CanvasAfterImageAndTranslation(children: seq<Child>, i: int, j: int)
    requires InOrder(children) && 0 <= i < |children| && 0 <= j < |children|
    requires children[j] == CanvasChangeChild && children[i] in {ImageChild, TranslationChild}
    ensures i < j
  {
  }

  /**
    `undo`, `redo` and `die` tell every existing child of `e` exactly once,
    and no other child: a child appears in the trace exactly when it exists,
    and no child appears twice.
   */
  lemma EachChildOnce(e: MultiLayerEdit, a: Action)
    ensures forall c :: ChildCall(c, a) in CallsOf(e.Children(), a) <==> e.Has(c)
    ensures forall i, j :: 0 <= i < j < |CallsOf(e.Children(), a)| ==>
      CallsOf(e.Children(), a)[i].child != CallsOf(e.Children(), a)[j].child
  {
    e.ChildrenFacts();
    var cs := e.Children();
    var t := CallsOf(cs, a);
    CallsOfAt(cs, a);
    forall c ensures ChildCall(c, a) in t <==> e.Has(c) {
      if ChildCall(c, a) in t {
        var k :| 0 <= k < |t| && t[k] == ChildCall(c, a);
        assert cs[k] == c;
      }
      if e.Has(c) {
        var k :| 0 <= k < |cs| && cs[k] == c;
        assert t[k] == ChildCall(c, a);
      }
    }
    forall i, j | 0 <= i < j < |t| ensures t[i].child != t[j].child {
      assert Rank(cs[i]) < Rank(cs[j]);
    }
  }

  /** Redo calls the children in the same order as undo: the two traces differ only in the action. */
  lemma RedoOrderIsUndoOrder(children: seq<Child>)
    ensures |CallsOf(children, UndoAction)| == |CallsOf(children, RedoAction)|
    ensures forall i :: 0 <= i < |CallsOf(children, UndoAction)| ==>
      CallsOf(children, UndoAction)[i].child == CallsOf(children, RedoAction)[i].child
  {
    CallsOfAt(children, UndoAction);
    CallsOfAt(children, RedoAction);
  }
}
