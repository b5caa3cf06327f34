/**
  The application-wide history: one undo manager shared by all open images,
  the number of edits undone since the last edit was added (it decides
  whether the last edit may still be faded or repeated) and a switch that
  suspends recording. The static state of the original becomes the fields of
  one object.
 */
module Histories {
  import opened Wrappers
  import opened UndoStacks

  class History {
    var manager: UndoStack
    var numUndoneEdits: int
    var suspended: bool
    /** The edits posted to the menu listeners, oldest first. */
    ghost var posted: seq<Edit>
    /** How often an edit supplier has been evaluated. */
    ghost var suppliersCalled: nat

    /** The manager is consistent and stores only edits that could be undone when they were added. */
    ghost predicate Valid()
      reads this
    {
      manager.Valid() && forall i :: 0 <= i < |manager.edits| ==> manager.edits[i].canUndo
    }

    /** The class initialiser: an empty history whose limit is the saved undo-level preference. */
    constructor (undoLevels: int)
      ensures Valid()
      ensures manager == Empty(undoLevels) && numUndoneEdits == 0 && !suspended
      ensures posted == [] && suppliersCalled == 0
    {
      manager := Empty(undoLevels);
      numUndoneEdits := 0;
      suspended := false;
      posted := [];
      suppliersCalled := 0;
    }

    /**
      `addEdit`: nothing at all happens while suspended. Otherwise an
      undoable edit is added to the manager, any other edit discards the
      whole history; the undone count is reset and the edit is posted.
     */
    method AddEdit(edit: Edit)
      requires Valid()
      modifies this`manager, this`numUndoneEdits, this`posted
      ensures Valid()
      ensures old(suspended) ==>
        manager == old(manager) && numUndoneEdits == old(numUndoneEdits) && posted == old(posted)
      ensures !old(suspended) ==>
        && manager == (if edit.canUndo then old(manager).Add(edit) else old(manager).DiscardAll())
        && numUndoneEdits == 0 && posted == old(posted) + [edit]
    {
      if suspended {
        return;
      }
      if edit.canUndo {
        AddFacts(manager, edit);
        manager := manager.Add(edit);
      } else {
        manager := manager.DiscardAll();
      }
      numUndoneEdits := 0;
      posted := posted + [edit];
    }

    /** `addEdit` with a supplier: the supplier is evaluated, and its edit added, only when asked to. */
    method AddEditIf(addToHistory: bool, supplier: () -> Edit)
      requires Valid()
      modifies this`manager, this`numUndoneEdits, this`posted, this`suppliersCalled
      ensures Valid()
      ensures !addToHistory ==>
        && manager == old(manager) && numUndoneEdits == old(numUndoneEdits)
        && posted == old(posted) && suppliersCalled == old(suppliersCalled)
      ensures addToHistory ==> suppliersCalled == old(suppliersCalled) + 1
      ensures addToHistory && old(suspended) ==>
        manager == old(manager) && numUndoneEdits == old(numUndoneEdits) && posted == old(posted)
      ensures addToHistory && !old(suspended) ==>
        && manager == (if supplier().canUndo then old(manager).Add(supplier()) else old(manager).DiscardAll())
        && numUndoneEdits == 0 && posted == old(posted) + [supplier()]
    {
      if addToHistory {
        var edit := supplier();
        suppliersCalled := suppliersCalled + 1;
        AddEdit(edit);
      }
    }

    /**
      `undo`: the undone count goes up first, whether or not there is
      anything to undo; then the manager undoes, or reports that no undo is
      available (`ok` false) and stays as it was.
     */
    method Undo() returns (ok: bool)
      requires Valid()
      modifies this`manager, this`numUndoneEdits
      ensures Valid()
      ensures numUndoneEdits == old(numUndoneEdits) + 1
      ensures ok <==> old(manager).CanUndo()
      ensures ok ==> manager == old(manager).Undone()
      ensures !ok ==> manager == old(manager)
    {
      numUndoneEdits := numUndoneEdits + 1;
      if manager.CanUndo() {
        UndoRedoKeepEdits(manager);
        manager := manager.Undone();
        ok := true;
      } else {
        ok := false;
      }
    }

    /** `redo`: the undone count goes down first; then the manager redoes, or reports the failure. */
    method Redo() returns (ok: bool)
      requires Valid()
      modifies this`manager, this`numUndoneEdits
      ensures Valid()
      ensures numUndoneEdits == old(numUndoneEdits) - 1
      ensures ok <==> old(manager).CanRedo()
      ensures ok ==> manager == old(manager).Redone()
      ensures !ok ==> manager == old(manager)
    {
      numUndoneEdits := numUndoneEdits - 1;
      if manager.CanRedo() {
        UndoRedoKeepEdits(manager);
        manager := manager.Redone();
        ok := true;
      } else {
        ok := false;
      }
    }

    /** `canUndo`. */
    predicate CanUndo()
      reads this
    {
      manager.CanUndo()
    }

    /** `canRedo`. */
    predicate CanRedo()
      reads this
    {
      manager.CanRedo()
    }

    /** `setUndoLevels`: the manager's new limit. */
    method SetUndoLevels(undoLevels: int)
      requires Valid()
      modifies this`manager
      ensures Valid()
      ensures manager == old(manager).WithLimit(undoLevels)
      ensures manager.limit == undoLevels
    {
      manager := manager.WithLimit(undoLevels);
    }

    /** `canRepeatOperation`. */
    function CanRepeatOperation(): (r: bool)
      reads this
      ensures numUndoneEdits > 0 ==> !r
      ensures manager.LastEdit().None? ==> !r
      ensures numUndoneEdits <= 0 && manager.LastEdit().Some? ==> (r <==> manager.LastEdit().value.canRepeat)
    {
      CanRepeatIn(manager, numUndoneEdits)
    }

    /** `getPreviousEditForFade`. */
    function PreviousEditForFade(comp: CompId): (r: Option<Edit>)
      reads this
      ensures r.Some? <==>
        && numUndoneEdits <= 0 && manager.LastEdit().Some?
        && manager.LastEdit().value.fade == Fadeable(true)
        && manager.LastEdit().value.comp == comp
      ensures r.Some? ==> r == manager.LastEdit()
    {
      PreviousEditForFadeIn(manager, numUndoneEdits, comp)
    }

    /** `onAllImagesClosed`: the undone count is reset and the history emptied. */
    method OnAllImagesClosed()
      requires Valid()
      modifies this`manager, this`numUndoneEdits
      ensures Valid()
      ensures numUndoneEdits == 0 && manager == old(manager).DiscardAll() && manager.Size() == 0
    {
      numUndoneEdits := 0;
      manager := manager.DiscardAll();
    }

    /** `clear`: the history is emptied and then holds exactly no edits. */
    method Clear()
      requires Valid()
      modifies this`manager
      ensures Valid()
      ensures manager == old(manager).DiscardAll() && manager.Size() == 0
    {
      manager := manager.DiscardAll();
      assert manager.Size() == 0;
    }

    /** `setSuspended`. */
    method SetSuspended(suspended: bool)
      modifies this`suspended
      ensures this.suspended == suspended
    {
      this.suspended := suspended;
    }
  }

  /**
    `canRepeatOperation` of the history state (manager, undone count): false
    after an undo that was not redone, and when there is no edit; otherwise
    whether the last edit can be repeated.
   */
  function CanRepeatIn(m: UndoStack, numUndoneEdits: int): (r: bool)
    ensures numUndoneEdits > 0 ==> !r
    ensures m.LastEdit().None? ==> !r
    ensures numUndoneEdits <= 0 && m.LastEdit().Some? ==> (r <==> m.LastEdit().value.canRepeat)
  {
    if numUndoneEdits > 0 then false
    else
      match m.LastEdit()
      case None => false
      case Some(lastEdit) => lastEdit.canRepeat
  }

  /**
    `getPreviousEditForFade` of the history state (manager, undone count):
    the last edit, when no edit has been undone since it was added, it is a
    fadeable edit whose fade flag is set, and it belongs to `comp`; nothing
    otherwise.
   */
  function PreviousEditForFadeIn(m: UndoStack, numUndoneEdits: int, comp: CompId): (r: Option<Edit>)
    ensures r.Some? <==>
      && numUndoneEdits <= 0 && m.LastEdit().Some?
      && m.LastEdit().value.fade == Fadeable(true)
      && m.LastEdit().value.comp == comp
    ensures r.Some? ==> r == m.LastEdit()
  {
    if numUndoneEdits > 0 then None
    else
      match m.LastEdit()
      case None => None
      case Some(lastEdit) =>
        match lastEdit.fade
        case NotFadeable => None
        case Fadeable(isFadeable) =>
          if !isFadeable then None
          else if comp != lastEdit.comp then None
          else Some(lastEdit)
  }

  /**
    Right after an undoable edit is added to a history that is not suspended
    and whose limit is not 0, it is the last edit: the previous edit for
    fading when it is a fadeable edit of `comp` whose fade flag is set, and
    the last operation can be repeated exactly when the edit can.
   */
  lemma FadeAfterAdd(m: UndoStack, e: Edit, comp: CompId)
    requires m.Valid() && m.limit != 0 && e.canUndo
    ensures m.Add(e).LastEdit() == Some(e)
    ensures e.fade == Fadeable(true) && e.comp == comp ==> PreviousEditForFadeIn(m.Add(e), 0, comp) == Some(e)
    ensures CanRepeatIn(m.Add(e), 0) == e.canRepeat
  {
    AddFacts(m, e);
  }

  /**
    Undo keeps the last edit but, by raising a non-negative undone count
    above 0, disables fading and repeating until an edit is added or redone.
   */
  lemma NoFadeAfterUndo(m: UndoStack, n: int, comp: CompId)
    requires n >= 0 && m.CanUndo()
    ensures PreviousEditForFadeIn(m.Undone(), n + 1, comp).None?
    ensures !CanRepeatIn(m.Undone(), n + 1)
    ensures m.Undone().LastEdit() == m.LastEdit()
  {
    UndoRedoKeepEdits(m);
  }

  /** After a redo that brings the undone count back to 0, fading and repeating see the last edit again. */
  lemma FadeAfterUndoRedo(m: UndoStack, comp: CompId)
    requires m.CanUndo()
    ensures PreviousEditForFadeIn(m.Undone().Redone(), 0, comp) == PreviousEditForFadeIn(m, 0, comp)
    ensures CanRepeatIn(m.Undone().Redone(), 0) == CanRepeatIn(m, 0)
  {
    UndoRedoRoundTrip(m);
  }
}
