/**
 * The camera: an affine map from world coordinates to screen coordinates that
 * moves the look-at point `pos` to the middle of the screen and scales
 * componentwise by `zoom`, its inverse, and zooming in and out by a fixed factor.
 */
module Cameras {
  import opened Vectors

  /** `zoom` with both components multiplied by `factor`. */
  function ZoomedIn(zoom: Vec2, factor: real): Vec2 {
    Vec2(zoom.x * factor, zoom.y * factor)
  }

  /** `zoom` with both components divided by a nonzero `factor`. */
  function ZoomedOut(zoom: Vec2, factor: real): Vec2
    requires factor != 0.0
  {
    Vec2(zoom.x / factor, zoom.y / factor)
  }

  lemma MulDivCancel(a: real, z: real)
    requires z != 0.0
    ensures (a * z) / z == a
    ensures (a / z) * z == a
  {
  }

  /** Zooming out undoes zooming in, and zooming in undoes zooming out, for a nonzero factor. */
  lemma ZoomInOutInverse(zoom: Vec2, factor: real)
    requires factor != 0.0
    ensures ZoomedOut(ZoomedIn(zoom, factor), factor) == zoom
    ensures ZoomedIn(ZoomedOut(zoom, factor), factor) == zoom
  {
    MulDivCancel(zoom.x, factor);
    MulDivCancel(zoom.y, factor);
  }

  class Camera {
    var screenDims: Vec2
    var pos: Vec2
    var zoom: Vec2
    /** The factor to multiply the zoom by when zooming in, and to divide it by when zooming out. */
    var zoomFactor: real

    constructor (screenDims: Vec2, pos: Vec2, zoom: Vec2, zoomFactor: real)
      ensures this.screenDims == screenDims && this.pos == pos
      ensures this.zoom == zoom && this.zoomFactor == zoomFactor
    {
      this.screenDims := screenDims;
      this.pos := pos;
      this.zoom := zoom;
      this.zoomFactor := zoomFactor;
    }

    method ZoomIn()
      modifies this
      ensures zoom == ZoomedIn(old(zoom), old(zoomFactor))
      ensures screenDims == old(screenDims) && pos == old(pos) && zoomFactor == old(zoomFactor)
    {
      zoom := zoom.(x := zoom.x * zoomFactor);
      zoom := zoom.(y := zoom.y * zoomFactor);
    }

    /** Zooming out divides by the zoom factor, which therefore must not be zero. */
    method ZoomOut()
      requires zoomFactor != 0.0
      modifies this
      ensures zoom == ZoomedOut(old(zoom), old(zoomFactor))
      ensures screenDims == old(screenDims) && pos == old(pos) && zoomFactor == old(zoomFactor)
    {
      zoom := zoom.(x := zoom.x / zoomFactor);
      zoom := zoom.(y := zoom.y / zoomFactor);
    }

    /** The middle of the screen: half the screen's dimensions. */
    function ScreenMiddle(): (r: Vec2)
      reads this
      ensures r.Scale(2.0) == screenDims
    {
      Vec2(screenDims.x / 2.0, screenDims.y / 2.0)
    }

    /**
     * `(worldPos - pos) * zoom` measured from the middle of the screen: the
     * look-at point lands in the middle, and offsets from it are scaled by the
     * zoom. `ScreenToWorldOfWorldToScreen` proves that `ScreenToWorld` undoes it.
     */
    function WorldToScreen(worldPos: Vec2): (r: Vec2)
      reads this
      ensures worldPos == pos ==> r == ScreenMiddle()
    {
      var relativePosition := worldPos.Sub(pos).Mul(zoom);
      ScreenMiddle().Add(relativePosition)
    }

    /**
     * `(screenPos - middle) / zoom` measured from the look-at point. The
     * division is componentwise, so both zoom components must be nonzero.
     */
    function ScreenToWorld(screenPos: Vec2): (r: Vec2)
      requires zoom.x != 0.0 && zoom.y != 0.0
      reads this
      ensures r.Sub(pos).Mul(zoom) == screenPos.Sub(ScreenMiddle())
      ensures screenPos == ScreenMiddle() ==> r == pos
    {
      var relativePosition := screenPos.Sub(ScreenMiddle()).Div(zoom);
      MulDivCancel(screenPos.x - ScreenMiddle().x, zoom.x);
      MulDivCancel(screenPos.y - ScreenMiddle().y, zoom.y);
      pos.Add(relativePosition)
    }
  }

  /** Mapping a world point to the screen and back gives the point itself. */
  lemma ScreenToWorldOfWorldToScreen(c: Camera, p: Vec2)
    requires c.zoom.x != 0.0 && c.zoom.y != 0.0
    ensures c.ScreenToWorld(c.WorldToScreen(p)) == p
  {
    MulDivCancel(p.x - c.pos.x, c.zoom.x);
    MulDivCancel(p.y - c.pos.y, c.zoom.y);
  }

  /** Mapping a screen point to the world and back gives the point itself. */
  lemma WorldToScreenOfScreenToWorld(c: Camera, s: Vec2)
    requires c.zoom.x != 0.0 && c.zoom.y != 0.0
    ensures c.WorldToScreen(c.ScreenToWorld(s)) == s
  {
    var m := c.ScreenMiddle();
    MulDivCancel(s.x - m.x, c.zoom.x);
    MulDivCancel(s.y - m.y, c.zoom.y);
  }

  /** Screen displacements are world displacements scaled componentwise by the zoom. */
  lemma WorldToScreenDisplacement(c: Camera, p: Vec2, q: Vec2)
    ensures c.WorldToScreen(p).Sub(c.WorldToScreen(q)) == p.Sub(q).Mul(c.zoom)
  {
    DisplacementScaled(p.x, q.x, c.pos.x, c.zoom.x);
    DisplacementScaled(p.y, q.y, c.pos.y, c.zoom.y);
  }

  lemma DisplacementScaled(p: real, q: real, pos: real, z: real)
    ensures (p - pos) * z - (q - pos) * z == (p - q) * z
  {
  }
}
