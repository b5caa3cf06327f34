/**
  Layers as values and the list operations a composition performs on its
  layer stack (index 0 is the bottom layer, the last index the top one).
  A layer's `id` stands for the identity of the Java object: two entries of
  a stack never share an id.
 */
module LayerStack {
  import opened Wrappers

  type LayerId = nat

  datatype LayerKind = ImageLayer | TextLayer | AdjustmentLayer

  /** A layer mask: its own translation and whether the user edits the mask instead of the layer. */
  datatype Mask = Mask(tx: int, ty: int, editing: bool)

  datatype Layer = Layer(id: LayerId, kind: LayerKind, visible: bool, tx: int, ty: int, mask: Option<Mask>)
  {
    predicate HasMask() {
      mask.Some?
    }

    predicate IsMaskEditing() {
      mask.Some? && mask.value.editing
    }
  }

  /** What the "active mask or image layer" lookup hands out: a mask or an image layer. */
  datatype Drawable = ImageLayerOf(layer: Layer) | LayerMaskOf(owner: Layer, mask: Mask)
  {
    function TX(): int {
      match this
      case ImageLayerOf(l) => l.tx
      case LayerMaskOf(_, m) => m.tx
    }

    function TY(): int {
      match this
      case ImageLayerOf(l) => l.ty
      case LayerMaskOf(_, m) => m.ty
    }
  }

  /** The id of the entry at position `i`. */
  function IdAt(s: seq<Layer>, i: int): LayerId
    requires 0 <= i < |s|
  {
    s[i].id
  }

  /** No two entries of the stack are the same layer. */
  predicate Distinct(s: seq<Layer>) {
    forall i, j :: 0 <= i < j < |s| ==> IdAt(s, i) != IdAt(s, j)
  }

  /** `x` is a layer that is not yet in the stack. */
  predicate FreshIn(s: seq<Layer>, x: Layer) {
    forall l :: l in s ==> l.id != x.id
  }

  /** `List.indexOf`: the first position of `x`, or -1. */
  function IndexOf(s: seq<Layer>, x: Layer): (r: int)
    ensures -1 <= r < |s|
    ensures r == -1 <==> x !in s
    ensures r >= 0 ==> s[r] == x && x !in s[..r]
  {
    if s == [] then -1
    else if s[0] == x then 0
    else
      var k := IndexOf(s[1..], x);
      assert s[1..][..if k < 0 then 0 else k] == s[1..if k < 0 then 1 else k + 1];
      if k == -1 then -1 else k + 1
  }

  /** In a stack without repeated layers, a layer's position is its only position. */
  lemma IndexOfDistinct(s: seq<Layer>, i: int)
    requires Distinct(s) && 0 <= i < |s|
    ensures IndexOf(s, s[i]) == i
  {
    var k := IndexOf(s, s[i]);
    assert IdAt(s, k) == IdAt(s, i);
  }

  /** `List.add(index, x)`. */
  function Insert(s: seq<Layer>, i: int, x: Layer): (r: seq<Layer>)
    requires 0 <= i <= |s|
    ensures |r| == |s| + 1 && r[i] == x
  {
    s[..i] + [x] + s[i..]
  }

  /** `List.remove(index)`. */
  function RemoveAt(s: seq<Layer>, i: int): (r: seq<Layer>)
    requires 0 <= i < |s|
    ensures |r| == |s| - 1
  {
    s[..i] + s[i + 1..]
  }

  /** Take the layer out of position `from` and put it back in at `to`. */
  function Move(s: seq<Layer>, from: int, to: int): (r: seq<Layer>)
    requires 0 <= from < |s| && 0 <= to < |s|
    ensures |r| == |s|
  {
    Insert(RemoveAt(s, from), to, s[from])
  }

  lemma InsertFacts(s: seq<Layer>, i: int, x: Layer)
    requires 0 <= i <= |s|
    ensures |Insert(s, i, x)| == |s| + 1 && Insert(s, i, x)[i] == x
    ensures forall k :: 0 <= k < i ==> Insert(s, i, x)[k] == s[k]
    ensures forall k :: i < k <= |s| ==> Insert(s, i, x)[k] == s[k - 1]
    ensures multiset(Insert(s, i, x)) == multiset(s) + multiset{x}
  {
    assert s == s[..i] + s[i..];
  }

  lemma InsertDistinct(s: seq<Layer>, i: int, x: Layer)
    requires 0 <= i <= |s| && FreshIn(s, x) && Distinct(s)
    ensures Distinct(Insert(s, i, x))
  {
    InsertFacts(s, i, x);
    var r := Insert(s, i, x);
    forall a, b | 0 <= a < b < |r| ensures IdAt(r, a) != IdAt(r, b) {
      if a == i {
        assert r[b] == s[b - 1];
      } else if b == i {
        assert r[a] == s[a];
      } else {
        assert IdAt(r, a) == IdAt(s, if a < i then a else a - 1);
        assert IdAt(r, b) == IdAt(s, if b < i then b else b - 1);
      }
    }
  }

  lemma RemoveAtFacts(s: seq<Layer>, i: int)
    requires 0 <= i < |s|
    ensures |RemoveAt(s, i)| == |s| - 1
    ensures forall k :: 0 <= k < i ==> RemoveAt(s, i)[k] == s[k]
    ensures forall k :: i <= k < |s| - 1 ==> RemoveAt(s, i)[k] == s[k + 1]
    ensures multiset(RemoveAt(s, i)) == multiset(s) - multiset{s[i]}
  {
    assert s == s[..i] + [s[i]] + s[i + 1..];
  }

  /**
    With `top` above the first `i + 1` layers of `p`, removing the layer just
    below `top` leaves the first `i` layers of `p` with `top` above them.
   */
  lemma DropBelowTop(p: seq<Layer>, top: Layer, i: int)
    requires 0 <= i < |p|
    ensures (p[..i + 1] + [top])[i] == p[i]
    ensures RemoveAt(p[..i + 1] + [top], i) == p[..i] + [top]
  {
    var s := p[..i + 1] + [top];
    assert s[..i] == p[..i];
    assert s[i + 1..] == [top];
  }

  /** After a removal, the layer below the removed one, or for the bottom one the next layer up, is at the position activity passes to. */
  lemma RemoveAtNeighbour(s: seq<Layer>, i: int)
    requires 0 <= i < |s|
    ensures |RemoveAt(s, i)| == |s| - 1
    ensures i > 0 ==> RemoveAt(s, i)[i - 1] == s[i - 1]
    ensures i == 0 && |s| >= 2 ==> RemoveAt(s, i)[0] == s[1]
  {
  }

  lemma RemoveAtMembers(s: seq<Layer>, i: int)
    requires 0 <= i < |s|
    ensures forall l :: l in RemoveAt(s, i) ==> l in s
    ensures forall l :: l in s && l != s[i] ==> l in RemoveAt(s, i)
    ensures Distinct(s) ==> Distinct(RemoveAt(s, i)) && FreshIn(RemoveAt(s, i), s[i]) && s[i] !in RemoveAt(s, i)
  {
    RemoveAtFacts(s, i);
    var r := RemoveAt(s, i);
    forall l | l in r ensures l in s {
      var k :| 0 <= k < |r| && r[k] == l;
      assert l == s[if k < i then k else k + 1];
    }
    forall l | l in s && l != s[i] ensures l in r {
      var k :| 0 <= k < |s| && s[k] == l;
      assert r[if k < i then k else k - 1] == l;
    }
    if Distinct(s) {
      forall a, b | 0 <= a < b < |r| ensures IdAt(r, a) != IdAt(r, b) {
        assert IdAt(r, a) == IdAt(s, if a < i then a else a + 1);
        assert IdAt(r, b) == IdAt(s, if b < i then b else b + 1);
      }
      forall k | 0 <= k < |r| ensures r[k].id != s[i].id {
        var m := if k < i then k else k + 1;
        assert r[k] == s[m] && IdAt(s, m) != IdAt(s, i);
      }
    }
  }

  /** A layer other than the removed one stays in the stack. */
  lemma RemoveAtKeeps(s: seq<Layer>, i: int, x: Layer)
    requires 0 <= i < |s| && x in s && x != s[i]
    ensures x in RemoveAt(s, i)
  {
    RemoveAtMembers(s, i);
  }

  /** Removing a layer keeps the stack free of repeats. */
  lemma RemoveAtDistinct(s: seq<Layer>, i: int)
    requires 0 <= i < |s| && Distinct(s)
    ensures Distinct(RemoveAt(s, i))
  {
    RemoveAtMembers(s, i);
  }

  /**
    A move takes the layer from `from` to `to`, keeps the same layers, and
    keeps the order of all the other layers: removing the moved layer from
    both stacks leaves the same list.
   */
  lemma MoveFacts(s: seq<Layer>, from: int, to: int)
    requires 0 <= from < |s| && 0 <= to < |s|
    ensures |Move(s, from, to)| == |s|
    ensures Move(s, from, to)[to] == s[from]
    ensures multiset(Move(s, from, to)) == multiset(s)
    ensures forall l :: l in Move(s, from, to) <==> l in s
    ensures RemoveAt(Move(s, from, to), to) == RemoveAt(s, from)
    ensures Distinct(s) ==> Distinct(Move(s, from, to))
  {
    MoveShape(s, from, to);
    MoveMultiset(s, from, to);
    if Distinct(s) {
      RemoveAtDistinct(s, from);
      RemoveAtMembers(s, from);
      InsertDistinct(RemoveAt(s, from), to, s[from]);
    }
  }

  /** The moved layer lands at `to`, and removing it again gives the stack without it. */
  lemma MoveShape(s: seq<Layer>, from: int, to: int)
    requires 0 <= from < |s| && 0 <= to < |s|
    ensures Move(s, from, to)[to] == s[from]
    ensures RemoveAt(Move(s, from, to), to) == RemoveAt(s, from)
  {
    var rest := RemoveAt(s, from);
    var r := Move(s, from, to);
    assert r[..to] == rest[..to];
    assert r[to + 1..] == rest[to..];
    assert rest == rest[..to] + rest[to..];
  }

  /** A move keeps the same layers, each as often as before, and so the same members. */
  lemma MoveMultiset(s: seq<Layer>, from: int, to: int)
    requires 0 <= from < |s| && 0 <= to < |s|
    ensures multiset(Move(s, from, to)) == multiset(s)
    ensures forall l :: l in Move(s, from, to) <==> l in s
  {
    var rest := RemoveAt(s, from);
    assert s == s[..from] + [s[from]] + s[from + 1..];
    InsertFacts(rest, to, s[from]);
    var r := Move(s, from, to);
    forall l ensures l in r <==> l in s {
      assert l in r <==> l in multiset(r);
      assert l in s <==> l in multiset(s);
    }
  }

  /** Moving a layer back to where it came from restores the stack. */
  lemma {:induction false} MoveBack(s: seq<Layer>, from: int, to: int)
    requires 0 <= from < |s| && 0 <= to < |s|
    ensures Move(Move(s, from, to), to, from) == s
  {
    MoveFacts(s, from, to);
    var r := Move(s, from, to);
    assert RemoveAt(r, to) == RemoveAt(s, from);
    assert r[to] == s[from];
    assert s == s[..from] + [s[from]] + s[from + 1..];
  }

  /** Removing a layer and inserting it again at its old index restores the stack. */
  lemma ReinsertAfterRemove(s: seq<Layer>, i: int)
    requires 0 <= i < |s|
    ensures Insert(RemoveAt(s, i), i, s[i]) == s
  {
    assert RemoveAt(s, i)[..i] == s[..i];
    assert RemoveAt(s, i)[i..] == s[i + 1..];
    assert s == s[..i] + [s[i]] + s[i + 1..];
  }

  /** Inserting a layer and removing it again restores the stack. */
  lemma RemoveAfterInsert(s: seq<Layer>, i: int, x: Layer)
    requires 0 <= i <= |s|
    ensures RemoveAt(Insert(s, i, x), i) == s
  {
    var r := Insert(s, i, x);
    assert r[..i] == s[..i];
    assert r[i + 1..] == s[i..];
    assert s == s[..i] + s[i..];
  }

  /** The number of image layers in the stack. */
  function ImageLayerCount(s: seq<Layer>): nat
  {
    if s == [] then 0
    else (if s[0].kind == ImageLayer then 1 else 0) + ImageLayerCount(s[1..])
  }

  /** The bottom-most image layer, if there is one. */
  function FirstImageLayer(s: seq<Layer>): (r: Option<Layer>)
    ensures r.None? <==> forall i :: 0 <= i < |s| ==> s[i].kind != ImageLayer
    ensures r.Some? ==> r.value in s && r.value.kind == ImageLayer
  {
    if s == [] then None
    else if s[0].kind == ImageLayer then Some(s[0])
    else
      var r := FirstImageLayer(s[1..]);
      assert forall i :: 1 <= i < |s| ==> s[i] == s[1..][i - 1];
      r
  }

  /** The count is bounded by the stack's size and is zero exactly when there are no image layers. */
  lemma {:induction false} ImageLayerCountBounds(s: seq<Layer>)
    ensures ImageLayerCount(s) <= |s|
    ensures ImageLayerCount(s) == 0 <==> forall i :: 0 <= i < |s| ==> s[i].kind != ImageLayer
  {
    if s != [] {
      ImageLayerCountBounds(s[1..]);
      assert forall i :: 1 <= i < |s| ==> s[i] == s[1..][i - 1];
    }
  }

  /**
    When the stack holds exactly one image layer, the bottom-most image layer
    is that layer: every image layer of the stack equals it.
   */
  lemma {:induction false} SingleImageLayer(s: seq<Layer>)
    requires ImageLayerCount(s) == 1
    ensures FirstImageLayer(s).Some?
    ensures forall i :: 0 <= i < |s| && s[i].kind == ImageLayer ==> s[i] == FirstImageLayer(s).value
  {
    if s[0].kind == ImageLayer {
      ImageLayerCountBounds(s[1..]);
      assert forall i :: 1 <= i < |s| ==> s[i] == s[1..][i - 1];
    } else {
      SingleImageLayer(s[1..]);
      assert forall i :: 1 <= i < |s| ==> s[i] == s[1..][i - 1];
    }
  }
}
