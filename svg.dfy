/** What the image provider needs to know about a vector sheet: which
    element ids exist and their bounding rectangles. The renderer itself,
    its painter and its pixmaps are outside the model; a rendered image is
    described by the element drawn and the pixel sizes involved. */
module Svg {
  import opened Options

  /** A rectangle in sheet coordinates (QRectF). */
  datatype RectF = RectF(x: real, y: real, width: real, height: real)

  /** An integer pixel size (QSize). */
  datatype Size = Size(width: int, height: int)

  /** An integer rectangle in a pixmap (QRect). */
  datatype Rect = Rect(x: int, y: int, width: int, height: int)

  /** A loaded sheet: the bounds of every element id it contains. */
  type Sheet = map<string, RectF>

  /** QSvgRenderer::elementExists. */
  predicate ElementExists(sheet: Sheet, id: string)
  {
    id in sheet
  }

  /** QSvgRenderer::boundsOnElement: the empty rectangle for an unknown id. */
  function BoundsOnElement(sheet: Sheet, id: string): (r: RectF)
    ensures !ElementExists(sheet, id) ==> r == RectF(0.0, 0.0, 0.0, 0.0)
    ensures ElementExists(sheet, id) ==> r == sheet[id]
  {
    if id in sheet then sheet[id] else RectF(0.0, 0.0, 0.0, 0.0)
  }

  /** qRound: the nearest integer, halves rounded up. */
  function Round(x: real): (n: int)
    ensures n as real - 0.5 <= x < n as real + 0.5
  {
    (x + 0.5).Floor
  }

  /** QSizeF::toSize. */
  function ToSize(r: RectF): Size
  {
    Size(Round(r.width), Round(r.height))
  }

  datatype AspectRatioMode = IgnoreAspectRatio | KeepAspectRatio | KeepAspectRatioByExpanding

  /** QSize::scale(requested, mode) of the toolkit, taken as given:
      `scale(size, requested, mode)` is the scaled size. */
  type Scaler = (Size, Size, AspectRatioMode) -> Size

  /** A rendered image: which element is drawn, the size reported back to
      the caller (the element's own size) and the pixel size of the pixmap.
      A null pixmap may still have reported a size before it was given up. */
  datatype Pixmap =
    | NullPixmap(reported: Option<Size>)
    | Pixmap(elementId: string, reportedSize: Size, size: Size)

  /** The id whose bounds size an element: its `_rect` companion when the
      sheet has one, otherwise the element itself. The bounds come from an
      element the sheet holds exactly when it holds either of the two. */
  function BoundsId(sheet: Sheet, elementId: string): (id: string)
    ensures id == elementId || id == elementId + "_rect"
    ensures ElementExists(sheet, id) <==>
              ElementExists(sheet, elementId) || ElementExists(sheet, elementId + "_rect")
    ensures ElementExists(sheet, elementId + "_rect") ==> id != elementId
  {
    if ElementExists(sheet, elementId + "_rect") then elementId + "_rect" else elementId
  }

  /** renderedSvgElement: an element rendered at its own size scaled to the
      requested one; null when its bounds or the scaled size is degenerate.
      The element's size is reported once its bounds are found proper, so a
      null pixmap for a degenerate scaled size still carries it. */
  function RenderedSvgElement(sheet: Sheet, elementId: string, mode: AspectRatioMode,
                              requested: Size, scale: Scaler): (p: Pixmap)
    ensures
      var rect := BoundsOnElement(sheet, BoundsId(sheet, elementId));
      var scaled := scale(ToSize(rect), requested, mode);
      && (p.NullPixmap? <==>
            rect.width < 1.0 || rect.height < 1.0 || scaled.width < 1 || scaled.height < 1)
      && (p.NullPixmap? ==>
            && (p.reported.Some? <==> rect.width >= 1.0 && rect.height >= 1.0)
            && (p.reported.Some? ==> p.reported.value == ToSize(rect)))
      && (p.Pixmap? ==>
            && p.elementId == elementId
            && p.reportedSize == ToSize(rect)
            && p.reportedSize.width >= 1 && p.reportedSize.height >= 1
            && p.size == scaled && p.size.width >= 1 && p.size.height >= 1)
  {
    var rect := BoundsOnElement(sheet, BoundsId(sheet, elementId));
    if rect.width < 1.0 || rect.height < 1.0 then NullPixmap(None)
    else
      var pixmapSize := ToSize(rect);
      var scaled := scale(pixmapSize, requested, mode);
      if scaled.width < 1 || scaled.height < 1 then NullPixmap(Some(pixmapSize))
      else Pixmap(elementId, pixmapSize, scaled)
  }
}
