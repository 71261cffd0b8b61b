/**
 * The editor state of src/App.jsx: the list of control points, the selected
 * point, the point whose colour picker is open, the logical canvas size and
 * the viewport size, and the handlers that change them. Also the export,
 * which rasterizes the points at an arbitrary resolution.
 *
 * Point ids (Date.now()) and the palette choice (Math.random()) are passed in
 * as parameters.
 */
module MeshApp {
  import opened Wrappers
  import opened GradientMesh
  import opened HexCodec
  import opened MeshCanvas

  /** The logical canvas size a fresh editor starts with. */
  const DefaultWidth: real := 3840.0
  const DefaultHeight: real := 2160.0

  /** The six colours a new point may take. */
  const Palette: seq<Rgb> := [
    Rgb(255, 100, 150), Rgb(100, 200, 255), Rgb(150, 255, 100),
    Rgb(255, 200, 100), Rgb(200, 100, 255), Rgb(100, 255, 200)
  ]

  /** Every palette entry is a valid colour. */
  lemma PaletteColorsAreColors(pick: nat)
    requires pick < |Palette|
    ensures IsColor(Palette[pick])
  {
  }

  // ---------------------------------------------------------------------------
  // Sequence operations behind the handlers

  /** `s.filter((_, i) => i !== index)`, element by element from the front. */
  function RemoveAt<T>(s: seq<T>, index: int): (r: seq<T>)
    ensures |r| == if 0 <= index < |s| then |s| - 1 else |s|
  {
    if |s| == 0 then []
    else RemoveAt(s[..|s| - 1], index) + (if index == |s| - 1 then [] else [s[|s| - 1]])
  }

  /** The filter deletes exactly the element at index and keeps the rest in order. */
  lemma {:induction false} RemoveAtSplices<T>(s: seq<T>, index: int)
    ensures 0 <= index < |s| ==> RemoveAt(s, index) == s[..index] + s[index + 1..]
    ensures !(0 <= index < |s|) ==> RemoveAt(s, index) == s
  {
    if |s| > 0 {
      var front := s[..|s| - 1];
      RemoveAtSplices(front, index);
      if index == |s| - 1 {
        assert s[index + 1..] == [];
      } else if 0 <= index < |s| - 1 {
        assert s[..index] == front[..index];
        assert s[index + 1..] == front[index + 1..] + [s[|s| - 1]];
      } else {
        assert front + [s[|s| - 1]] == s;
      }
    }
  }

  /** Appending a point and removing it again gives the list back. */
  lemma RemoveLastAppended<T>(s: seq<T>, x: T)
    ensures RemoveAt(s + [x], |s|) == s
  {
    RemoveAtSplices(s + [x], |s|);
    assert (s + [x])[..|s|] == s;
  }

  /**
   * How handleRemovePoint updates an optional index into the list: the removed
   * index becomes null, a larger one moves down by one, a smaller one stays.
   * (A null index stays null: `null > index` is false for index >= 0.)
   */
  function Reindex(current: Option<int>, index: nat): Option<int>
  {
    match current
    case None => None
    case Some(i) => if i == index then None else if i > index then Some(i - 1) else Some(i)
  }

  /** An optional index that is null or designates an element of a list of length n. */
  predicate InRange(current: Option<int>, n: int)
  {
    current.Some? ==> 0 <= current.value < n
  }

  /**
   * After a removal the re-indexed selection is null exactly when the selected
   * point was the removed one, and otherwise still designates that same point.
   */
  lemma SelectionFollowsPoint<T>(points: seq<T>, current: Option<int>, index: nat)
    requires index < |points| && InRange(current, |points|)
    ensures Reindex(current, index).None? <==> current.None? || current.value == index
    ensures InRange(Reindex(current, index), |RemoveAt(points, index)|)
    ensures Reindex(current, index).Some? ==>
      RemoveAt(points, index)[Reindex(current, index).value] == points[current.value]
  {
    RemoveAtSplices(points, index);
  }

  /** Every position multiplied by (scaleX, scaleY); ids and colours kept. */
  function Rescale(points: seq<ControlPoint>, scaleX: real, scaleY: real): (r: seq<ControlPoint>)
    ensures |r| == |points|
    ensures forall i :: 0 <= i < |points| ==> r[i].id == points[i].id && r[i].color == points[i].color
  {
    seq(|points|, i requires 0 <= i < |points| =>
      points[i].(x := points[i].x * scaleX, y := points[i].y * scaleY))
  }

  /** Doubling the resolution doubles every coordinate. */
  lemma RescaleDoubles(points: seq<ControlPoint>, width: real, height: real)
    requires width > 0.0 && height > 0.0
    ensures forall i :: 0 <= i < |points| ==>
      var p := Rescale(points, 2.0 * width / width, 2.0 * height / height)[i];
      p.x == 2.0 * points[i].x && p.y == 2.0 * points[i].y
  {
    assert 2.0 * width / width == 2.0;
    assert 2.0 * height / height == 2.0;
  }

  /** Changing the resolution and changing it back restores every point. */
  lemma RescaleThereAndBack(points: seq<ControlPoint>, w1: real, h1: real, w2: real, h2: real)
    requires w1 > 0.0 && h1 > 0.0 && w2 > 0.0 && h2 > 0.0
    ensures Rescale(Rescale(points, w2 / w1, h2 / h1), w1 / w2, h1 / h2) == points
  {
    assert (w2 / w1) * (w1 / w2) == 1.0;
    assert (h2 / h1) * (h1 / h2) == 1.0;
    var back := Rescale(Rescale(points, w2 / w1, h2 / h1), w1 / w2, h1 / h2);
    forall i | 0 <= i < |points|
      ensures back[i] == points[i]
    {
      assert back[i].x == points[i].x * (w2 / w1) * (w1 / w2);
      assert back[i].y == points[i].y * (h2 / h1) * (h1 / h2);
    }
  }

  /**
   * Rescaling on a resolution change keeps every point at the same place
   * relative to the canvas, so any rendering of the new canvas, at any
   * output size, sees the same points as the old one.
   */
  lemma ResolutionChangeKeepsPicture(points: seq<ControlPoint>, w1: real, h1: real, w2: real, h2: real, outWidth: real, outHeight: real)
    requires w1 > 0.0 && h1 > 0.0 && w2 > 0.0 && h2 > 0.0
    ensures ScalePoints(Rescale(points, w2 / w1, h2 / h1), w2, h2, outWidth, outHeight) ==
            ScalePoints(points, w1, h1, outWidth, outHeight)
  {
    var after := ScalePoints(Rescale(points, w2 / w1, h2 / h1), w2, h2, outWidth, outHeight);
    var before := ScalePoints(points, w1, h1, outWidth, outHeight);
    forall i | 0 <= i < |points|
      ensures after[i] == before[i]
    {
      RatioCancels(points[i].x, w1, w2, outWidth);
      RatioCancels(points[i].y, h1, h2, outHeight);
    }
  }

  lemma RatioCancels(v: real, from: real, to: real, out: real)
    requires from > 0.0 && to > 0.0
    ensures v * (to / from) / to * out == v / from * out
  {
    assert v * (to / from) / to == v / from;
  }

  // ---------------------------------------------------------------------------
  // Export file name

  /** Number.prototype.toString() of a non-negative integer: decimal, no leading zeros. */
  function NatToDecimal(n: nat): (s: string)
    ensures |s| >= 1
    ensures forall i :: 0 <= i < |s| ==> '0' <= s[i] <= '9'
  {
    if n < 10 then [DecimalDigit(n)] else NatToDecimal(n / 10) + [DecimalDigit(n % 10)]
  }

  function DecimalDigit(d: nat): (c: char)
    requires d < 10
    ensures '0' <= c <= '9' && (c as int) - ('0' as int) == d
  {
    (('0' as int) + d) as char
  }

  /** The number a string of decimal digits denotes. */
  function DecimalValue(s: string): nat
    requires forall i :: 0 <= i < |s| ==> '0' <= s[i] <= '9'
  {
    if |s| == 0 then 0
    else 10 * DecimalValue(s[..|s| - 1]) + ((s[|s| - 1] as int) - ('0' as int))
  }

  /** Printing a number in decimal and reading it back gives the number. */
  lemma {:induction false} DecimalRoundTrip(n: nat)
    ensures DecimalValue(NatToDecimal(n)) == n
  {
    if n >= 10 {
      DecimalRoundTrip(n / 10);
      var s := NatToDecimal(n);
      assert s[..|s| - 1] == NatToDecimal(n / 10);
    }
  }

  /** The name of the downloaded file: `gradient-mesh-{W}x{H}.png`. */
  function ExportFileName(width: nat, height: nat): string
  {
    "gradient-mesh-" + NatToDecimal(width) + "x" + NatToDecimal(height) + ".png"
  }

  /** The file name of the fixed 3840 by 2160 export. */
  lemma DefaultExportFileName()
    ensures ExportFileName(3840, 2160) == "gradient-mesh-3840x2160.png"
  {
    assert NatToDecimal(3840) == "3840" by {
      assert NatToDecimal(384) == "384" by {
        assert NatToDecimal(38) == "38";
      }
    }
    assert NatToDecimal(2160) == "2160" by {
      assert NatToDecimal(216) == "216" by {
        assert NatToDecimal(21) == "21";
      }
    }
  }

  /** Distinct export sizes get distinct file names: the name determines width and height. */
  lemma ExportFileNameDeterminesSize(w1: nat, h1: nat, w2: nat, h2: nat)
    requires ExportFileName(w1, h1) == ExportFileName(w2, h2)
    ensures w1 == w2 && h1 == h2
  {
    var prefix := "gradient-mesh-";
    var n1, n2 := ExportFileName(w1, h1), ExportFileName(w2, h2);
    var m1 := NatToDecimal(w1) + "x" + NatToDecimal(h1);
    var m2 := NatToDecimal(w2) + "x" + NatToDecimal(h2);
    assert n1 == prefix + m1 + ".png";
    assert n2 == prefix + m2 + ".png";
    assert |m1| == |m2|;
    assert m1 == n1[|prefix|..|n1| - 4];
    assert m2 == n2[|prefix|..|n2| - 4];
    SplitAtX(NatToDecimal(w1), NatToDecimal(h1), NatToDecimal(w2), NatToDecimal(h2));
    DecimalRoundTrip(w1);
    DecimalRoundTrip(w2);
    DecimalRoundTrip(h1);
    DecimalRoundTrip(h2);
  }

  /** A digit string, "x", a digit string: the "x" separates the two unambiguously. */
  lemma SplitAtX(a: string, b: string, c: string, d: string)
    requires forall i :: 0 <= i < |a| ==> '0' <= a[i] <= '9'
    requires forall i :: 0 <= i < |c| ==> '0' <= c[i] <= '9'
    requires a + "x" + b == c + "x" + d
    ensures a == c && b == d
  {
    var s := a + "x" + b;
    FirstX(a, b);
    FirstX(c, d);
    assert |a| == |c|;
    assert a == s[..|a|];
    assert c == (c + "x" + d)[..|c|];
    assert b == s[|a| + 1..];
    assert d == (c + "x" + d)[|c| + 1..];
  }

  /** In digits + "x" + rest, the first "x" is the one after the digits. */
  lemma FirstX(digits: string, rest: string)
    requires forall i :: 0 <= i < |digits| ==> '0' <= digits[i] <= '9'
    ensures (digits + "x" + rest)[|digits|] == 'x'
    ensures forall j :: 0 <= j < |digits| ==> (digits + "x" + rest)[j] != 'x'
  {
  }

  // ---------------------------------------------------------------------------
  // The Delete-key handler as written

  /**
   * The Delete/Backspace listener is registered again only when the selected
   * index changes, so the handleRemovePoint it calls filters the point list of
   * the render in which that listener was registered. This is the list the
   * key press actually writes back.
   */
  function DeleteWithCapturedPoints(captured: seq<ControlPoint>, selectedIndex: nat): (r: seq<ControlPoint>)
    ensures |r| == if selectedIndex < |captured| then |captured| - 1 else |captured|
  {
    RemoveAt(captured, selectedIndex)
  }

  /**
   * Add two points (the second stays selected), drag the first, press Delete:
   * the list written back is built from the points captured before the drag,
   * so the first point jumps back to where it was instead of staying where it
   * was dragged.
   */
  lemma DeleteAfterDragRevertsDrag()
    ensures var a, b := ControlPoint(1, 10.0, 10.0, Palette[0]), ControlPoint(2, 20.0, 20.0, Palette[1]);
      var dragged := [a.(x := 500.0, y := 400.0), b];
      DeleteWithCapturedPoints([a, b], 1) == [a] &&
      RemoveAt(dragged, 1) == [a.(x := 500.0, y := 400.0)] &&
      DeleteWithCapturedPoints([a, b], 1) != RemoveAt(dragged, 1)
  {
    var a, b := ControlPoint(1, 10.0, 10.0, Palette[0]), ControlPoint(2, 20.0, 20.0, Palette[1]);
    RemoveAtSplices([a, b], 1);
    RemoveAtSplices([a.(x := 500.0, y := 400.0), b], 1);
  }

  // ---------------------------------------------------------------------------
  // The editor

  class MeshEditor {
    /** The control points, in insertion order; index i is drawn by the i-th marker. */
    var points: seq<ControlPoint>
    /** selectedPointIndex. */
    var selected: Option<int>
    /** activeColorPickerIndex: the point whose picker is open, if any. */
    var activePicker: Option<int>
    /** The logical canvas size that point coordinates refer to. */
    var canvasWidth: real
    var canvasHeight: real
    /** The viewport size the canvas is shown at. */
    var displayWidth: real
    var displayHeight: real

    /** Positive sizes, and both optional indices designate an existing point. */
    predicate Valid()
      reads this
    {
      canvasWidth > 0.0 && canvasHeight > 0.0 && displayWidth > 0.0 && displayHeight > 0.0 &&
      InRange(selected, |points|) && InRange(activePicker, |points|)
    }

    /** The initial state: no points, nothing selected, a 3840 by 2160 canvas. */
    constructor(innerWidth: real, innerHeight: real)
      requires innerWidth > 0.0 && innerHeight > 0.0
      ensures Valid()
      ensures points == [] && selected == None && activePicker == None
      ensures canvasWidth == DefaultWidth && canvasHeight == DefaultHeight
      ensures displayWidth == innerWidth && displayHeight == innerHeight
    {
      points := [];
      selected := None;
      activePicker := None;
      canvasWidth := DefaultWidth;
      canvasHeight := DefaultHeight;
      displayWidth := innerWidth;
      displayHeight := innerHeight;
    }

    /**
     * handleCanvasClick: with a picker open the click only closes it;
     * otherwise a point of palette colour `pick` is appended at (x, y) and
     * becomes the selection.
     */
    method CanvasClick(x: real, y: real, id: int, pick: nat)
      requires Valid() && pick < |Palette|
      modifies this
      ensures Valid()
      ensures activePicker == None
      ensures old(activePicker).Some? ==> points == old(points) && selected == old(selected)
      ensures old(activePicker).None? ==>
        points == old(points) + [ControlPoint(id, x, y, Palette[pick])] && selected == Some(|old(points)|)
      ensures canvasWidth == old(canvasWidth) && canvasHeight == old(canvasHeight)
      ensures displayWidth == old(displayWidth) && displayHeight == old(displayHeight)
    {
      if activePicker != None {
        activePicker := None;
        return;
      }
      var newPoint := ControlPoint(id, x, y, Palette[pick]);
      selected := Some(|points|);
      points := points + [newPoint];
    }

    /** handleAddPoint: a point of palette colour `pick` appended at the canvas centre and selected. */
    method AddPoint(id: int, pick: nat)
      requires Valid() && pick < |Palette|
      modifies this
      ensures Valid()
      ensures points == old(points) + [ControlPoint(id, old(canvasWidth) / 2.0, old(canvasHeight) / 2.0, Palette[pick])]
      ensures selected == Some(|old(points)|) && activePicker == old(activePicker)
      ensures canvasWidth == old(canvasWidth) && canvasHeight == old(canvasHeight)
      ensures displayWidth == old(displayWidth) && displayHeight == old(displayHeight)
    {
      var newPoint := ControlPoint(id, canvasWidth / 2.0, canvasHeight / 2.0, Palette[pick]);
      selected := Some(|points|);
      points := points + [newPoint];
    }

    /** handlePointDrag: only the position of points[index] changes. */
    method PointDrag(index: nat, x: real, y: real)
      requires Valid() && index < |points|
      modifies this
      ensures Valid()
      ensures |points| == |old(points)|
      ensures points[index] == old(points)[index].(x := x, y := y)
      ensures forall i :: 0 <= i < |points| && i != index ==> points[i] == old(points)[i]
      ensures selected == old(selected) && activePicker == old(activePicker)
      ensures canvasWidth == old(canvasWidth) && canvasHeight == old(canvasHeight)
      ensures displayWidth == old(displayWidth) && displayHeight == old(displayHeight)
    {
      var updatedPoints := points;
      updatedPoints := updatedPoints[index := updatedPoints[index].(x := x, y := y)];
      points := updatedPoints;
    }

    /** handlePointColorChange: only the colour of points[index] changes. */
    method PointColorChange(index: nat, r: int, g: int, b: int)
      requires Valid() && index < |points|
      modifies this
      ensures Valid()
      ensures |points| == |old(points)|
      ensures points[index] == old(points)[index].(color := Rgb(r, g, b))
      ensures forall i :: 0 <= i < |points| && i != index ==> points[i] == old(points)[i]
      ensures selected == old(selected) && activePicker == old(activePicker)
      ensures canvasWidth == old(canvasWidth) && canvasHeight == old(canvasHeight)
      ensures displayWidth == old(displayWidth) && displayHeight == old(displayHeight)
    {
      var updatedPoints := points;
      updatedPoints := updatedPoints[index := updatedPoints[index].(color := Rgb(r, g, b))];
      points := updatedPoints;
    }

    /**
     * The marker's onColorChange: the picker's hex string decoded by hexToRgb
     * becomes the point's colour, so the stored colour is always valid.
     */
    method PickerColorChange(index: nat, hex: string)
      requires Valid() && index < |points|
      modifies this
      ensures Valid()
      ensures |points| == |old(points)| && IsColor(points[index].color)
      ensures points[index] == old(points)[index].(color := HexToRgb(hex))
      ensures forall i :: 0 <= i < |points| && i != index ==> points[i] == old(points)[i]
      ensures selected == old(selected) && activePicker == old(activePicker)
      ensures canvasWidth == old(canvasWidth) && canvasHeight == old(canvasHeight)
      ensures displayWidth == old(displayWidth) && displayHeight == old(displayHeight)
    {
      var rgb := HexToRgb(hex);
      PointColorChange(index, rgb.r, rgb.g, rgb.b);
    }

    /**
     * handleRemovePoint: the point at index is filtered out, and the selection
     * and the open picker are re-indexed so they keep designating the same
     * points (or become null if theirs was removed).
     */
    method RemovePoint(index: nat)
      requires Valid()
      modifies this
      ensures Valid()
      ensures points == RemoveAt(old(points), index)
      ensures selected == Reindex(old(selected), index)
      ensures activePicker == Reindex(old(activePicker), index)
      ensures canvasWidth == old(canvasWidth) && canvasHeight == old(canvasHeight)
      ensures displayWidth == old(displayWidth) && displayHeight == old(displayHeight)
    {
      RemoveAtSplices(points, index);
      if index < |points| {
        SelectionFollowsPoint(points, selected, index);
        SelectionFollowsPoint(points, activePicker, index);
      }
      points := RemoveAt(points, index);
      selected := Reindex(selected, index);
      activePicker := Reindex(activePicker, index);
    }

    /** handleSelectPoint: choosing the selected point clears the selection, any other point becomes selected. */
    method SelectPoint(index: nat)
      requires Valid() && index < |points|
      modifies this
      ensures Valid()
      ensures selected == if old(selected) == Some(index as int) then None else Some(index as int)
      ensures points == old(points) && activePicker == old(activePicker)
      ensures canvasWidth == old(canvasWidth) && canvasHeight == old(canvasHeight)
      ensures displayWidth == old(displayWidth) && displayHeight == old(displayHeight)
    {
      selected := if selected == Some(index as int) then None else Some(index as int);
    }

    /** The marker's onColorPickerToggle: opening a point's picker also selects that point. */
    method ColorPickerToggle(index: nat, isOpen: bool)
      requires Valid() && index < |points|
      modifies this
      ensures Valid()
      ensures activePicker == if isOpen then Some(index as int) else None
      ensures selected == if isOpen then Some(index as int) else old(selected)
      ensures points == old(points)
      ensures canvasWidth == old(canvasWidth) && canvasHeight == old(canvasHeight)
      ensures displayWidth == old(displayWidth) && displayHeight == old(displayHeight)
    {
      activePicker := if isOpen then Some(index) else None;
      if isOpen {
        selected := Some(index);
      }
    }

    /**
     * handleResolutionChange: the canvas takes the new size and every point is
     * scaled by newSize / oldSize, so it keeps its place relative to the canvas.
     */
    method ResolutionChange(width: real, height: real)
      requires Valid() && width > 0.0 && height > 0.0
      modifies this
      ensures Valid()
      ensures points == Rescale(old(points), width / old(canvasWidth), height / old(canvasHeight))
      ensures canvasWidth == width && canvasHeight == height
      ensures selected == old(selected) && activePicker == old(activePicker)
      ensures displayWidth == old(displayWidth) && displayHeight == old(displayHeight)
    {
      var scaleX := width / canvasWidth;
      var scaleY := height / canvasHeight;
      points := Rescale(points, scaleX, scaleY);
      canvasWidth := width;
      canvasHeight := height;
    }

    /** The resize listener: the display size follows the window. */
    method DisplayResize(innerWidth: real, innerHeight: real)
      requires Valid() && innerWidth > 0.0 && innerHeight > 0.0
      modifies this
      ensures Valid()
      ensures displayWidth == innerWidth && displayHeight == innerHeight
      ensures points == old(points) && selected == old(selected) && activePicker == old(activePicker)
      ensures canvasWidth == old(canvasWidth) && canvasHeight == old(canvasHeight)
    {
      displayWidth := innerWidth;
      displayHeight := innerHeight;
    }

    /**
     * The keydown listener with the current point list: Delete or Backspace
     * removes the selected point, if any; other keys change nothing.
     */
    method DeleteKey(key: string)
      requires Valid()
      modifies this
      ensures Valid()
      ensures (key == "Delete" || key == "Backspace") && old(selected).Some? ==>
        points == RemoveAt(old(points), old(selected).value) && selected == None &&
        activePicker == Reindex(old(activePicker), old(selected).value) &&
        |points| == |old(points)| - 1
      ensures !((key == "Delete" || key == "Backspace") && old(selected).Some?) ==>
        points == old(points) && selected == old(selected) && activePicker == old(activePicker)
      ensures canvasWidth == old(canvasWidth) && canvasHeight == old(canvasHeight)
      ensures displayWidth == old(displayWidth) && displayHeight == old(displayHeight)
    {
      if (key == "Delete" || key == "Backspace") && selected != None {
        RemovePoint(selected.value);
      }
    }

    /**
     * The pixels and file name of handleExport: the points are scaled from
     * the logical canvas size (not the display size) to the export size, and
     * the pixel loop fills a fresh exportWidth-by-exportHeight buffer. With no
     * points the image is white: unlike the preview there is no dark fallback.
     */
    method Export(exportWidth: nat, exportHeight: nat) returns (data: array<byte>, fileName: string)
      requires Valid()
      ensures fresh(data)
      ensures data.Length == exportWidth * exportHeight * 4
      ensures forall i :: 0 <= i < data.Length ==>
        data[i] == ImageByte(exportWidth, ScalePoints(points, canvasWidth, canvasHeight, exportWidth as real, exportHeight as real), i)
      ensures fileName == ExportFileName(exportWidth, exportHeight)
    {
      var scaledPoints := ScalePoints(points, canvasWidth, canvasHeight, exportWidth as real, exportHeight as real);
      data := new byte[exportWidth * exportHeight * 4];
      Rasterize(data, exportWidth, exportHeight, scaledPoints);
      fileName := ExportFileName(exportWidth, exportHeight);
    }
  }

  /** With no points every exported pixel is opaque white. */
  lemma EmptyExportIsWhite(width: nat, i: nat)
    requires width > 0
    ensures ImageByte(width, [], i) == PixelByte(White, i % 4)
  {
  }
}
