/**
  The area a tool affects, kept relative to the image. A rectangle given
  relative to the canvas is moved, in place, by the translation of the
  active mask or image layer.
 */
module ToolAreas {
  import opened Wrappers
  import opened LayerStack
  import opened Compositions

  /** `java.awt.Rectangle`, with unbounded coordinates. */
  class Rectangle {
    var x: int
    var y: int
    var width: int
    var height: int

    constructor (x: int, y: int, width: int, height: int)
      ensures this.x == x && this.y == y && this.width == width && this.height == height
    {
      this.x := x;
      this.y := y;
      this.width := width;
      this.height := height;
    }

    /** `translate`: moves the corner; the size stays. */
    method Translate(dx: int, dy: int)
      modifies this`x, this`y
      ensures x == old(x) + dx && y == old(y) + dy
    {
      x := x + dx;
      y := y + dy;
    }
  }

  class ToolAffectedArea {
    const comp: Composition
    const rectangle: Rectangle

    /** Stores the composition and the very rectangle object it is given. */
    constructor Init(comp: Composition, rectangle: Rectangle)
      ensures this.comp == comp && this.rectangle == rectangle
    {
      this.comp := comp;
      this.rectangle := rectangle;
    }

    /**
      The constructor: the rectangle must have a positive size. Relative to
      the image it is stored as it is; otherwise it is first translated by
      minus the translation of the active mask or image layer, and when there
      is no such layer the lookup throws and no area is made, with the
      rectangle untouched. The size never changes.
     */
    static method Create(comp: Composition, rectangle: Rectangle, relativeToImage: bool)
      returns (r: Result<ToolAffectedArea>)
      requires rectangle.width > 0 && rectangle.height > 0
      requires !relativeToImage ==> comp.CheckInvariant()
      modifies rectangle
      ensures r.Failure? <==> !relativeToImage && comp.ActiveMaskOrImageLayer().Failure?
      ensures r.Failure? ==> r.error == IllegalStateException
      ensures r.Failure? || relativeToImage ==> rectangle.x == old(rectangle.x) && rectangle.y == old(rectangle.y)
      ensures r.Ok? ==> fresh(r.value) && r.value.comp == comp && r.value.GetRectangle() == rectangle
      ensures r.Ok? && !relativeToImage ==>
        var layer := comp.ActiveMaskOrImageLayer().value;
        rectangle.x == old(rectangle.x) - layer.TX() && rectangle.y == old(rectangle.y) - layer.TY()
      ensures rectangle.width == old(rectangle.width) && rectangle.height == old(rectangle.height)
    {
      if !relativeToImage {
        var lookup := comp.ActiveMaskOrImageLayer();
        if lookup.Failure? {
          return Failure(lookup.error);
        }
        var layer := lookup.value;
        var dx := -layer.TX();
        var dy := -layer.TY();
        rectangle.Translate(dx, dy);
      }
      var area := new ToolAffectedArea.Init(comp, rectangle);
      return Ok(area);
    }

    /** `getRectangle`: the stored object itself, so later changes to it show through. */
    function GetRectangle(): Rectangle {
      rectangle
    }
  }
}
