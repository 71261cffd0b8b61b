/**
 * The draggable marker of src/components/ColorPoint.jsx: where a point is
 * drawn on the display, how a pointer position is mapped back to the logical
 * canvas and clamped into it, the press / move / release / click gesture that
 * tells a drag from a click, and the border colours derived from the point's
 * colour.
 */
module ColorPointMarker {
  import opened Wrappers
  import opened GradientMesh
  import opened HexCodec
  import opened MeshCanvas
  import opened Numeric

  /** Pointer movement, in pixels on either axis, beyond which a press becomes a drag. */
  const DragThreshold: real := 5.0

  /** A bounding client rectangle: left and top offsets and size. */
  datatype Rect = Rect(left: real, top: real, width: real, height: real)

  /** One coordinate of the marker's position: v scaled by displaySize / canvasSize. */
  function DisplayCoordinate(v: real, canvasSize: real, displaySize: real): (d: real)
    requires canvasSize > 0.0
    ensures d * canvasSize == v * displaySize
  {
    v * (displaySize / canvasSize)
  }

  /** Where the marker is drawn: the logical position scaled by displaySize / canvasSize. */
  function DisplayPosition(p: ControlPoint, canvasWidth: real, canvasHeight: real, displayWidth: real, displayHeight: real)
    : (d: (real, real))
    requires canvasWidth > 0.0 && canvasHeight > 0.0
  {
    (DisplayCoordinate(p.x, canvasWidth, displayWidth), DisplayCoordinate(p.y, canvasHeight, displayHeight))
  }

  /**
   * The marker sits exactly where the live preview draws its point when the
   * preview buffer has the display's size.
   */
  lemma MarkerOverRenderedPoint(p: ControlPoint, canvasWidth: real, canvasHeight: real, displayWidth: real, displayHeight: real)
    requires canvasWidth > 0.0 && canvasHeight > 0.0
    ensures var drawn := ScalePoints([p], canvasWidth, canvasHeight, displayWidth, displayHeight)[0];
      DisplayPosition(p, canvasWidth, canvasHeight, displayWidth, displayHeight) == (drawn.x, drawn.y)
  {
    var drawn := ScalePoints([p], canvasWidth, canvasHeight, displayWidth, displayHeight)[0];
    assert drawn.x == p.x / canvasWidth * displayWidth && drawn.y == p.y / canvasHeight * displayHeight;
    ScaleCommutes(p.x, canvasWidth, displayWidth);
    ScaleCommutes(p.y, canvasHeight, displayHeight);
    var d := DisplayPosition(p, canvasWidth, canvasHeight, displayWidth, displayHeight);
    assert d.0 == p.x * (displayWidth / canvasWidth);
    assert d.0 == drawn.x;
    assert d.1 == drawn.y;
  }

  lemma ScaleCommutes(v: real, from: real, to: real)
    requires from > 0.0
    ensures v * (to / from) == v / from * to
  {
  }

  /**
   * One coordinate of the drag handler's target: the pointer's offset in the
   * container, scaled by canvasSize / containerSize and clamped into the canvas.
   */
  function DragCoordinate(client: real, offset: real, containerSize: real, canvasSize: real): (t: real)
    requires containerSize > 0.0 && canvasSize >= 0.0
    ensures 0.0 <= t <= canvasSize
  {
    var local := client - offset;
    ClampTo(canvasSize, local / containerSize * canvasSize)
  }

  /** The drag handler's target in logical canvas coordinates. */
  function DragTarget(clientX: real, clientY: real, container: Rect, canvasWidth: real, canvasHeight: real)
    : (t: (real, real))
    requires container.width > 0.0 && container.height > 0.0
    requires canvasWidth >= 0.0 && canvasHeight >= 0.0
    ensures 0.0 <= t.0 <= canvasWidth && 0.0 <= t.1 <= canvasHeight
  {
    (DragCoordinate(clientX, container.left, container.width, canvasWidth),
     DragCoordinate(clientY, container.top, container.height, canvasHeight))
  }

  /**
   * Holding the pointer at the marker's drawn position (display and container
   * of the same size) drags the point onto its own logical position: the
   * drag mapping inverts the display mapping inside the canvas.
   */
  lemma DragInvertsDisplay(p: ControlPoint, canvasWidth: real, canvasHeight: real, container: Rect)
    requires canvasWidth > 0.0 && canvasHeight > 0.0 && container.width > 0.0 && container.height > 0.0
    requires 0.0 <= p.x <= canvasWidth && 0.0 <= p.y <= canvasHeight
    ensures var d := DisplayPosition(p, canvasWidth, canvasHeight, container.width, container.height);
      DragTarget(container.left + d.0, container.top + d.1, container, canvasWidth, canvasHeight) == (p.x, p.y)
  {
    AxisRoundTrip(p.x, container.left, canvasWidth, container.width);
    AxisRoundTrip(p.y, container.top, canvasHeight, container.height);
  }

  /** One axis of the drag mapping undoes the display scaling of a coordinate inside the canvas. */
  lemma AxisRoundTrip(v: real, offset: real, canvasSize: real, size: real)
    requires canvasSize > 0.0 && size > 0.0 && 0.0 <= v <= canvasSize
    ensures DragCoordinate(offset + DisplayCoordinate(v, canvasSize, size), offset, size, canvasSize) == v
  {
    ScaleThenUnscale(v, canvasSize, size);
    assert offset + v * (size / canvasSize) - offset == v * (size / canvasSize);
  }

  lemma ScaleThenUnscale(v: real, from: real, to: real)
    requires from > 0.0 && to > 0.0
    ensures v * (to / from) / to * from == v
  {
    assert v * (to / from) / to == v / from;
  }

  /** The pointer has left the 5-pixel square around the press position. */
  predicate MovedBeyondThreshold(startX: real, startY: real, clientX: real, clientY: real)
  {
    Abs(clientX - startX) > DragThreshold || Abs(clientY - startY) > DragThreshold
  }

  /**
   * A pointer that stays within 5 pixels of the press on both axes never
   * counts as moved, and one that leaves that square on some axis always does.
   */
  lemma ThresholdIsASquare(startX: real, startY: real, clientX: real, clientY: real)
    ensures !MovedBeyondThreshold(startX, startY, clientX, clientY) <==>
      startX - 5.0 <= clientX <= startX + 5.0 && startY - 5.0 <= clientY <= startY + 5.0
  {
  }

  /** The colour of the light border: each channel raised by 60, capped at 255. */
  function LightChannel(c: int): (l: int)
    ensures l <= c + 60 && l <= 255
    ensures IsChannel(c) ==> IsChannel(l) && c <= l
  {
    if 255 < c + 60 then 255 else c + 60
  }

  /** The colour of the dark border: each channel lowered by 30, floored at 0. */
  function DarkChannel(c: int): (d: int)
    ensures d >= c - 30 && d >= 0
    ensures IsChannel(c) ==> IsChannel(d) && d <= c
  {
    if 0 > c - 30 then 0 else c - 30
  }

  function LightBorder(c: Rgb): Rgb
  {
    Rgb(LightChannel(c.r), LightChannel(c.g), LightChannel(c.b))
  }

  function DarkBorder(c: Rgb): Rgb
  {
    Rgb(DarkChannel(c.r), DarkChannel(c.g), DarkChannel(c.b))
  }

  /** For a valid colour both borders are valid colours, darker and lighter than the point. */
  lemma BordersBracketColor(c: Rgb)
    requires IsColor(c)
    ensures IsColor(LightBorder(c)) && IsColor(DarkBorder(c))
    ensures DarkBorder(c).r <= c.r <= LightBorder(c).r
    ensures DarkBorder(c).g <= c.g <= LightBorder(c).g
    ensures DarkBorder(c).b <= c.b <= LightBorder(c).b
  {
  }

  /**
   * The marker's own rgbToHex is the utility's, token for token, so one
   * definition serves both: the hex string handed to the picker. For a valid
   * colour it is a well-formed "#rrggbb" that decodes back to the colour.
   */
  function MarkerColorHex(c: Rgb): (hex: string)
    ensures IsColor(c) ==> IsLowerHexColor(hex) && HexToRgb(hex) == c
  {
    var hex := RgbToHex(c.r as real, c.g as real, c.b as real);
    if IsColor(c) then
      RgbToHexShape(c.r, c.g, c.b);
      HexRoundTrip(c.r, c.g, c.b);
      hex
    else hex
  }

  /**
   * The gesture state of one marker: isDragging, the hasDragged ref and the
   * drag start position ref.
   */
  class DragGesture {
    var isDragging: bool
    var hasDragged: bool
    var startX: real
    var startY: real

    constructor()
      ensures !isDragging && !hasDragged && startX == 0.0 && startY == 0.0
    {
      isDragging := false;
      hasDragged := false;
      startX := 0.0;
      startY := 0.0;
    }

    /**
     * handleMouseDown: ignored while this marker's picker is open; otherwise
     * it clears the drag flag, records the press position and starts dragging.
     */
    method MouseDown(pickerOpen: bool, clientX: real, clientY: real)
      modifies this
      ensures pickerOpen ==>
        isDragging == old(isDragging) && hasDragged == old(hasDragged) && startX == old(startX) && startY == old(startY)
      ensures !pickerOpen ==> isDragging && !hasDragged && startX == clientX && startY == clientY
    {
      if pickerOpen {
        return;
      }
      hasDragged := false;
      startX, startY := clientX, clientY;
      isDragging := true;
    }

    /**
     * The window mousemove listener, registered only while dragging: a move
     * beyond the threshold marks the gesture as a drag, and the clamped
     * logical position is reported to the editor.
     */
    method MouseMove(clientX: real, clientY: real, container: Rect, canvasWidth: real, canvasHeight: real)
      returns (target: Option<(real, real)>)
      requires container.width > 0.0 && container.height > 0.0
      requires canvasWidth >= 0.0 && canvasHeight >= 0.0
      modifies this
      ensures !old(isDragging) ==> target == None && hasDragged == old(hasDragged)
      ensures old(isDragging) ==>
        target == Some(DragTarget(clientX, clientY, container, canvasWidth, canvasHeight)) &&
        hasDragged == (old(hasDragged) || MovedBeyondThreshold(startX, startY, clientX, clientY))
      ensures isDragging == old(isDragging) && startX == old(startX) && startY == old(startY)
    {
      if !isDragging {
        return None;
      }
      var deltaX := Abs(clientX - startX);
      var deltaY := Abs(clientY - startY);
      if deltaX > DragThreshold || deltaY > DragThreshold {
        hasDragged := true;
      }
      target := Some(DragTarget(clientX, clientY, container, canvasWidth, canvasHeight));
    }

    /** The window mouseup listener: dragging stops; the drag flag survives until the reset timer. */
    method MouseUp()
      modifies this
      ensures !isDragging
      ensures hasDragged == old(hasDragged) && startX == old(startX) && startY == old(startY)
    {
      isDragging := false;
    }

    /** The timer set on mouseup fires: the drag flag is cleared. */
    method DragFlagReset()
      modifies this
      ensures !hasDragged
      ensures isDragging == old(isDragging) && startX == old(startX) && startY == old(startY)
    {
      hasDragged := false;
    }

    /** A click on the colour area asks to open the picker only if no drag is on or just ended. */
    method ColorAreaClick() returns (opens: bool)
      ensures opens <==> !hasDragged && !isDragging
    {
      opens := !hasDragged && !isDragging;
    }
  }

  /**
   * Press, move the pointer beyond the threshold, release, then click before
   * the reset timer fires: the picker does not open.
   */
  method ClickAfterDragDoesNotOpen(x: real, y: real, dx: real, dy: real, container: Rect, canvasWidth: real, canvasHeight: real)
    returns (opens: bool)
    requires Abs(dx) > DragThreshold
    requires container.width > 0.0 && container.height > 0.0 && canvasWidth >= 0.0 && canvasHeight >= 0.0
    ensures !opens
  {
    var gesture := new DragGesture();
    gesture.MouseDown(false, x, y);
    var _ := gesture.MouseMove(x + dx, y + dy, container, canvasWidth, canvasHeight);
    assert x + dx - x == dx;
    gesture.MouseUp();
    opens := gesture.ColorAreaClick();
  }

  /**
   * Press, jitter within the threshold, release, click: the picker opens,
   * so a small tremor of the hand does not swallow the click.
   */
  method ClickAfterJitterOpens(x: real, y: real, dx: real, dy: real, container: Rect, canvasWidth: real, canvasHeight: real)
    returns (opens: bool)
    requires Abs(dx) <= DragThreshold && Abs(dy) <= DragThreshold
    requires container.width > 0.0 && container.height > 0.0 && canvasWidth >= 0.0 && canvasHeight >= 0.0
    ensures opens
  {
    var gesture := new DragGesture();
    gesture.MouseDown(false, x, y);
    var _ := gesture.MouseMove(x + dx, y + dy, container, canvasWidth, canvasHeight);
    assert x + dx - x == dx && y + dy - y == dy;
    gesture.MouseUp();
    opens := gesture.ColorAreaClick();
  }

  /**
   * With the picker open a press does not start a drag, so moving the pointer
   * reports no position and leaves the point where it is.
   */
  method PressWithPickerOpenDoesNotDrag(x: real, y: real, container: Rect, canvasWidth: real, canvasHeight: real)
    returns (target: Option<(real, real)>)
    requires container.width > 0.0 && container.height > 0.0 && canvasWidth >= 0.0 && canvasHeight >= 0.0
    ensures target == None
  {
    var gesture := new DragGesture();
    gesture.MouseDown(true, x, y);
    target := gesture.MouseMove(x + 100.0, y, container, canvasWidth, canvasHeight);
  }
}
