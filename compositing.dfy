/**
  The layer-iteration skeleton of compositing. Pixel work is not modelled: an
  image is a symbolic term that records, bottom to top, every call of a
  layer's `applyLayer` that produced it, so two images are equal exactly when
  the same layers were applied to the same blank buffer in the same order with
  the same "first visible layer" flags. Drawing layers paint onto the
  accumulator; adjustment layers return a transformed copy of it.
 */
module Compositing {
  import opened LayerStack

  datatype Canvas = Canvas(width: int, height: int)

  datatype Image =
    | Blank(width: int, height: int)
    | Painted(onto: Image, layer: Layer, firstVisible: bool)
    | Transformed(input: Image, layer: Layer, firstVisible: bool)

  /**
    What `applyLayer` gives back: `null` after drawing onto the accumulator in
    place (image and text layers), or a new image (adjustment layers).
   */
  datatype Applied = DrawnInPlace(drawn: Image) | Returned(result: Image)

  function ApplyLayer(layer: Layer, firstVisible: bool, soFar: Image): (r: Applied)
    ensures r.Returned? <==> layer.kind == AdjustmentLayer
  {
    if layer.kind == AdjustmentLayer then Returned(Transformed(soFar, layer, firstVisible))
    else DrawnInPlace(Painted(soFar, layer, firstVisible))
  }

  /** The accumulator after one `applyLayer` call: the returned image when non-null, else the drawn-on buffer. */
  function Accumulate(a: Applied): Image {
    match a
    case DrawnInPlace(d) => d
    case Returned(r) => r
  }

  /** Applies the visible layers of `layers`, bottom to top, to the accumulator `soFar`. */
  function CompositeFrom(soFar: Image, firstVisible: bool, layers: seq<Layer>): Image
    decreases |layers|
  {
    if layers == [] then soFar
    else if layers[0].visible then
      CompositeFrom(Accumulate(ApplyLayer(layers[0], firstVisible, soFar)), false, layers[1..])
    else CompositeFrom(soFar, firstVisible, layers[1..])
  }

  /** The composite of a layer stack over a fresh transparent buffer of the canvas's size. */
  function Composite(canvas: Canvas, layers: seq<Layer>): Image {
    CompositeFrom(Blank(canvas.width, canvas.height), true, layers)
  }

  /** The visible layers, in stack order. */
  function Visible(layers: seq<Layer>): (r: seq<Layer>)
    ensures |r| <= |layers|
  {
    if layers == [] then []
    else if layers[0].visible then [layers[0]] + Visible(layers[1..])
    else Visible(layers[1..])
  }

  /** The visible layers are layers of the stack, each of them visible, and every visible layer is among them. */
  lemma {:induction false} VisibleMembers(layers: seq<Layer>)
    ensures forall l :: l in Visible(layers) <==> l in layers && l.visible
    decreases |layers|
  {
    if layers != [] {
      VisibleMembers(layers[1..]);
      assert layers == [layers[0]] + layers[1..];
    }
  }

  /** The layers an image was built from, bottom to top. */
  function Consumed(img: Image): seq<Layer> {
    match img
    case Blank(_, _) => []
    case Painted(below, l, _) => Consumed(below) + [l]
    case Transformed(below, l, _) => Consumed(below) + [l]
  }

  /** The "first visible layer" flag each of those layers was applied with. */
  function FirstFlags(img: Image): seq<bool> {
    match img
    case Blank(_, _) => []
    case Painted(below, _, f) => FirstFlags(below) + [f]
    case Transformed(below, _, f) => FirstFlags(below) + [f]
  }

  /** The buffer compositing started from. */
  function Base(img: Image): Image {
    match img
    case Blank(_, _) => img
    case Painted(below, _, _) => Base(below)
    case Transformed(below, _, _) => Base(below)
  }

  /** Adjustment layers were applied as transforms, every other layer was painted. */
  predicate KindsRespected(img: Image) {
    match img
    case Blank(_, _) => true
    case Painted(below, l, _) => l.kind != AdjustmentLayer && KindsRespected(below)
    case Transformed(below, l, _) => l.kind == AdjustmentLayer && KindsRespected(below)
  }

  /** Flags for `n` further layers when the next one is applied with flag `f`. */
  function FlagRun(f: bool, n: nat): seq<bool> {
    seq(n, k => f && k == 0)
  }

  /** A run of flags starts with its own flag, followed by a run of false ones. */
  lemma FlagRunStep(f: bool, n: nat)
    ensures [f] + FlagRun(false, n) == FlagRun(f, n + 1)
  {
    assert forall k :: 0 <= k < n + 1 ==> ([f] + FlagRun(false, n))[k] == FlagRun(f, n + 1)[k];
  }

  lemma {:induction false} CompositeFromConsumed(soFar: Image, f: bool, layers: seq<Layer>)
    ensures Consumed(CompositeFrom(soFar, f, layers)) == Consumed(soFar) + Visible(layers)
    decreases |layers|
  {
    if layers == [] {
    } else if layers[0].visible {
      var next := Accumulate(ApplyLayer(layers[0], f, soFar));
      assert Consumed(next) == Consumed(soFar) + [layers[0]];
      CompositeFromConsumed(next, false, layers[1..]);
      assert Visible(layers) == [layers[0]] + Visible(layers[1..]);
      assert Consumed(soFar) + [layers[0]] + Visible(layers[1..]) == Consumed(soFar) + Visible(layers);
    } else {
      CompositeFromConsumed(soFar, f, layers[1..]);
    }
  }

  lemma {:induction false} CompositeFromFlags(soFar: Image, f: bool, layers: seq<Layer>)
    ensures FirstFlags(CompositeFrom(soFar, f, layers)) == FirstFlags(soFar) + FlagRun(f, |Visible(layers)|)
    decreases |layers|
  {
    if layers == [] {
    } else if layers[0].visible {
      var next := Accumulate(ApplyLayer(layers[0], f, soFar));
      assert FirstFlags(next) == FirstFlags(soFar) + [f];
      CompositeFromFlags(next, false, layers[1..]);
      var n := |Visible(layers[1..])|;
      FlagRunStep(f, n);
      assert FirstFlags(soFar) + [f] + FlagRun(false, n) == FirstFlags(soFar) + ([f] + FlagRun(false, n));
    } else {
      CompositeFromFlags(soFar, f, layers[1..]);
    }
  }

  lemma {:induction false} CompositeFromBase(soFar: Image, f: bool, layers: seq<Layer>)
    ensures Base(CompositeFrom(soFar, f, layers)) == Base(soFar)
    ensures KindsRespected(soFar) ==> KindsRespected(CompositeFrom(soFar, f, layers))
    decreases |layers|
  {
    if layers == [] {
    } else if layers[0].visible {
      var next := Accumulate(ApplyLayer(layers[0], f, soFar));
      assert Base(next) == Base(soFar);
      CompositeFromBase(next, false, layers[1..]);
    } else {
      CompositeFromBase(soFar, f, layers[1..]);
    }
  }

  /**
    Compositing consumes exactly the visible layers, bottom to top, starting
    from a blank canvas-sized buffer; only the first of them is applied with
    the "first visible layer" flag; adjustment layers transform the
    accumulator and every other visible layer paints onto it.
   */
  lemma CompositeOfStack(canvas: Canvas, layers: seq<Layer>)
    ensures Consumed(Composite(canvas, layers)) == Visible(layers)
    ensures Base(Composite(canvas, layers)) == Blank(canvas.width, canvas.height)
    ensures |FirstFlags(Composite(canvas, layers))| == |Visible(layers)|
    ensures forall k :: 0 <= k < |Visible(layers)| ==> FirstFlags(Composite(canvas, layers))[k] == (k == 0)
    ensures KindsRespected(Composite(canvas, layers))
  {
    var blank := Blank(canvas.width, canvas.height);
    CompositeFromConsumed(blank, true, layers);
    CompositeFromFlags(blank, true, layers);
    CompositeFromBase(blank, true, layers);
  }

  /** Invisible layers contribute nothing: the composite only depends on the visible ones. */
  lemma {:induction false} InvisibleLayersIgnored(soFar: Image, f: bool, layers: seq<Layer>)
    ensures CompositeFrom(soFar, f, layers) == CompositeFrom(soFar, f, Visible(layers))
    decreases |layers|
  {
    if layers != [] {
      var v := Visible(layers[1..]);
      if layers[0].visible {
        var next := Accumulate(ApplyLayer(layers[0], f, soFar));
        InvisibleLayersIgnored(next, false, layers[1..]);
        assert Visible(layers) == [layers[0]] + v;
        assert ([layers[0]] + v)[1..] == v;
      } else {
        InvisibleLayersIgnored(soFar, f, layers[1..]);
      }
    }
  }
}
