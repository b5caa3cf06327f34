/**
  The edits the history stores and the undo manager that stores them. The
  manager follows the linear contract of Swing's `UndoManager`: edits sit in
  a list with a cursor (`next`, the index where the next edit goes); adding
  an edit discards the edits after the cursor, appends it and, when the list
  outgrows a non-negative limit, evicts the oldest edits; a negative limit
  means no bound. Undo moves the cursor back over one edit, redo forward.
 */
module UndoStacks {
  import opened Wrappers

  type CompId = nat

  /** Whether an edit is a `FadeableEdit`, and if so its `isFadeable` flag. */
  datatype Fade = NotFadeable | Fadeable(isFadeable: bool)

  /**
    An edit as the history sees it: the composition it belongs to, its name,
    whether it can be undone (and redone), its fade status and `canRepeat`.
   */
  datatype Edit = Edit(id: nat, comp: CompId, name: string, canUndo: bool, fade: Fade, canRepeat: bool)

  datatype UndoStack = UndoStack(edits: seq<Edit>, next: nat, limit: int)
  {
    ghost predicate Valid() {
      next <= |edits| && (limit >= 0 ==> |edits| <= limit)
    }

    function Size(): nat {
      |edits|
    }

    /** `getLastEdit`: the newest stored edit, wherever the cursor is. */
    function LastEdit(): (r: Option<Edit>)
      ensures r.None? <==> edits == []
      ensures r.Some? ==> r.value == edits[|edits| - 1]
    {
      if edits == [] then None else Some(edits[|edits| - 1])
    }

    /** `canUndo`: there is an edit before the cursor and it can be undone. */
    predicate CanUndo() {
      0 < next <= |edits| && edits[next - 1].canUndo
    }

    /** `canRedo`: there is an edit at the cursor and it can be redone. */
    predicate CanRedo() {
      next < |edits| && edits[next].canUndo
    }

    /** `undo`: the cursor moves back over one edit; the stored edits stay. */
    function Undone(): (r: UndoStack)
      requires CanUndo()
      ensures r.edits == edits && r.limit == limit && r.next == next - 1 && r.CanRedo()
    {
      this.(next := next - 1)
    }

    /** `redo`: the cursor moves forward over one edit; the stored edits stay. */
    function Redone(): (r: UndoStack)
      requires CanRedo()
      ensures r.edits == edits && r.limit == limit && r.next == next + 1 && r.CanUndo()
    {
      this.(next := next + 1)
    }

    /** `discardAllEdits`. */
    function DiscardAll(): (r: UndoStack)
      ensures r.Valid() && r.Size() == 0 && r.limit == limit && !r.CanUndo() && !r.CanRedo()
    {
      UndoStack([], 0, limit)
    }

    /** `addEdit`: drops the redo tail, appends `e`, then evicts the oldest edits beyond the limit. */
    function Add(e: Edit): (r: UndoStack)
      requires Valid()
      ensures r.Valid() && r.limit == limit && r.next == |r.edits| && !r.CanRedo()
      ensures limit != 0 ==> r.LastEdit() == Some(e)
    {
      var kept := edits[..next] + [e];
      var trimmed := if limit >= 0 && |kept| > limit then kept[|kept| - limit..] else kept;
      UndoStack(trimmed, |trimmed|, limit)
    }

    /** `setLimit`: the new limit, with the oldest edits evicted until it is met; the cursor follows its edit. */
    function WithLimit(l: int): (r: UndoStack)
      requires Valid()
      ensures r.Valid() && r.limit == l
      ensures l < 0 || |edits| <= l ==> r.edits == edits && r.next == next
      ensures l >= 0 && |edits| > l ==> |r.edits| == l && r.edits == edits[|edits| - l..]
    {
      if l >= 0 && |edits| > l then
        var drop := |edits| - l;
        UndoStack(edits[drop..], if next >= drop then next - drop else 0, l)
      else UndoStack(edits, next, l)
    }
  }

  /** An empty manager with the given limit. */
  function Empty(limit: int): (r: UndoStack)
    ensures r.Valid() && r.Size() == 0 && r.LastEdit().None?
  {
    UndoStack([], 0, limit)
  }

  /**
    Adding keeps the manager valid; the added edit is the newest one and is
    the one to undo next, and nothing is left to redo, unless the limit is 0,
    in which case nothing is kept. Every stored edit was stored before or is
    the new one.
   */
  lemma AddFacts(u: UndoStack, e: Edit)
    requires u.Valid()
    ensures u.Add(e).Valid() && u.Add(e).limit == u.limit
    ensures !u.Add(e).CanRedo()
    ensures u.limit != 0 ==> u.Add(e).LastEdit() == Some(e) && u.Add(e).next >= 1 && u.Add(e).edits[u.Add(e).next - 1] == e
    ensures u.limit != 0 ==> (u.Add(e).CanUndo() <==> e.canUndo)
    ensures u.limit == 0 ==> u.Add(e).Size() == 0
    ensures forall x :: x in u.Add(e).edits ==> x in u.edits[..u.next] || x == e
    ensures u.limit < 0 || u.next < u.limit ==> u.Add(e).edits == u.edits[..u.next] + [e]
  {
    var kept := u.edits[..u.next] + [e];
    var r := u.Add(e);
    if u.limit >= 0 && |kept| > u.limit {
      assert r.edits == kept[|kept| - u.limit..];
      forall x | x in r.edits ensures x in u.edits[..u.next] || x == e {
        var k :| 0 <= k < |r.edits| && r.edits[k] == x;
        assert x == kept[k + |kept| - u.limit];
      }
    }
  }

  /** Undo and redo move only the cursor: the stored edits, the newest edit and the limit stay. */
  lemma UndoRedoKeepEdits(u: UndoStack)
    ensures u.CanUndo() ==> u.Undone().edits == u.edits && u.Undone().LastEdit() == u.LastEdit() && u.Undone().limit == u.limit
    ensures u.CanRedo() ==> u.Redone().edits == u.edits && u.Redone().LastEdit() == u.LastEdit() && u.Redone().limit == u.limit
    ensures u.Valid() && u.CanUndo() ==> u.Undone().Valid()
    ensures u.Valid() && u.CanRedo() ==> u.Redone().Valid()
  {
  }

  /** Redo after undo, and undo after redo, restore the manager. */
  lemma UndoRedoRoundTrip(u: UndoStack)
    ensures u.CanUndo() ==> u.Undone().CanRedo() && u.Undone().Redone() == u
    ensures u.CanRedo() ==> u.Redone().CanUndo() && u.Redone().Undone() == u
  {
  }

  /** Adding keeps the manager valid and its limit. */
  lemma AddValid(u: UndoStack, e: Edit)
    requires u.Valid()
    ensures u.Add(e).Valid() && u.Add(e).limit == u.limit
  {
  }

  /** Adds every edit of `es`, oldest first. */
  function AddAll(u: UndoStack, es: seq<Edit>): (r: UndoStack)
    requires u.Valid()
    ensures r.Valid() && r.limit == u.limit
    decreases |es|
  {
    if es == [] then u
    else
      AddValid(u, es[0]);
      AddAll(u.Add(es[0]), es[1..])
  }

  /** Adding to a manager with nothing to redo and a limit >= 0 keeps the newest `limit` of the old edits and the new one. */
  lemma AddAtEnd(u: UndoStack, e: Edit)
    requires u.Valid() && u.next == |u.edits| && u.limit >= 0
    ensures var kept := u.edits + [e];
      var m := if |kept| <= u.limit then |kept| else u.limit;
      u.Add(e).edits == kept[|kept| - m..] && u.Add(e).next == m
    ensures u.Add(e).Valid() && u.Add(e).limit == u.limit
  {
    assert u.edits[..u.next] == u.edits;
  }

  /** Appending the same `z` to `y` and to a suffix `x` of `y` gives the same last `n` elements, for `n` up to the shorter length. */
  lemma SuffixOfSuffix(y: seq<Edit>, x: seq<Edit>, z: seq<Edit>, n: nat)
    requires |x| <= |y| && x == y[|y| - |x|..] && n <= |x| + |z|
    ensures (x + z)[|x| + |z| - n..] == (y + z)[|y| + |z| - n..]
  {
    var l := (x + z)[|x| + |z| - n..];
    var r := (y + z)[|y| + |z| - n..];
    forall k | 0 <= k < n ensures l[k] == r[k] {
      var i := |x| + |z| - n + k;
      if i < |x| {
        assert l[k] == x[i] == y[|y| - |x| + i];
      } else {
        assert l[k] == z[i - |x|];
      }
    }
  }

  /** The newest `limit` elements of `all`, or all of them when there are fewer. */
  function Newest(all: seq<Edit>, limit: nat): (r: seq<Edit>)
    ensures |r| <= limit && |r| <= |all|
    ensures |all| <= limit ==> r == all
  {
    if |all| <= limit then all else all[|all| - limit..]
  }

  /** One step of the bounded-history argument: adding `es[0]`, then the rest. */
  lemma KeepNewestStep(u: UndoStack, es: seq<Edit>, r: UndoStack)
    requires u.Valid() && u.next == |u.edits| && u.limit >= 0 && es != []
    requires r.edits == Newest(u.Add(es[0]).edits + es[1..], u.limit)
    ensures r.edits == Newest(u.edits + es, u.limit)
  {
    var e := es[0];
    var z := es[1..];
    var kept := u.edits + [e];
    var v := u.Add(e);
    AddAtEnd(u, e);
    var all := kept + z;
    assert all == u.edits + es;
    var n := if |all| <= u.limit then |all| else u.limit;
    SuffixOfSuffix(kept, v.edits, z, n);
    assert all[|all| - n..] == all || |all| > u.limit;
  }

  /**
    Bounded history: adding edits one by one to a manager with nothing to
    redo and a limit >= 0 keeps exactly the newest `limit` of the old and new
    edits (all of them when there are fewer), in order, with the cursor after
    the newest.
   */
  lemma {:induction false} AddAllKeepsNewest(u: UndoStack, es: seq<Edit>)
    requires u.Valid() && u.next == |u.edits| && u.limit >= 0
    ensures AddAll(u, es).edits == Newest(u.edits + es, u.limit)
    ensures AddAll(u, es).next == |AddAll(u, es).edits|
    decreases |es|
  {
    if es == [] {
      assert u.edits + es == u.edits;
    } else {
      var v := u.Add(es[0]);
      AddAtEnd(u, es[0]);
      AddAllKeepsNewest(v, es[1..]);
      KeepNewestStep(u, es, AddAll(v, es[1..]));
    }
  }

  /** Undoes `k` times. */
  function UndoTimes(u: UndoStack, k: nat): (r: UndoStack)
    requires k <= u.next <= |u.edits|
    requires forall i :: u.next - k <= i < u.next ==> u.edits[i].canUndo
    ensures r.edits == u.edits && r.next == u.next - k && r.limit == u.limit
    decreases k
  {
    if k == 0 then u else UndoTimes(u.Undone(), k - 1)
  }

  /**
    When every stored edit can be undone, undo is possible exactly `next`
    times in a row: after that the cursor is at 0 and undo is no longer available.
   */
  lemma UndoExhausts(u: UndoStack)
    requires u.next <= |u.edits|
    requires forall i :: 0 <= i < |u.edits| ==> u.edits[i].canUndo
    ensures forall k :: 0 <= k < u.next ==> UndoTimes(u, k).CanUndo()
    ensures !UndoTimes(u, u.next).CanUndo()
  {
  }
}
