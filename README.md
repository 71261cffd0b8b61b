# Gradient mesh editor, modelled in Dafny

The modelled program is a browser editor for gradient meshes. The user places coloured control points on a
logical canvas (3840 by 2160 by default), drags them, recolours them with an HSL colour picker and
deletes them. Every pixel of the picture is the inverse-distance-weighted average of the point
colours, with weight 1 / d² (or 10⁶ when a point lies closer than 0.001). The picture is drawn
live at the window's size. It can be exported as a PNG at 3840 by 2160, the only size the controls
panel requests. The model's export takes any size.

The model covers:

- `GradientMesh` (`gradient_mesh.dfy`): the colour field. It is stated as a recursive
  specification over the point list, `Field`. The accumulating loop of `calculateColorAtPoint`
  is proved equal to it, and the field is proved to stay within the range of the point colours.
- `HexCodec` (`hex_codec.dfy`): `hexToRgb` and `rgbToHex`. This covers the accepted pattern,
  the white fallback, the output shape and both round trips.
- `MeshCanvas` (`mesh_canvas.dfy`): the pixel loop shared by the live preview and the export.
  It is a method over an `array` of bytes, proved against a function giving every byte of the
  image. The module also holds the empty-canvas fallback, the point scaling and the mapping from
  a click to a logical position.
- `MeshApp` (`mesh_app.dfy`): the editor state as a class `MeshEditor`. Its fields are the
  points, the selected point, the point whose picker is open, the canvas size and the display
  size. There is one method per handler, each stating its whole new state. `DeleteKey` is the
  corrected Delete-key handler; the handler as written is `DeleteWithCapturedPoints`, see
  "## Findings". Removal and re-indexing, rescaling and the export file name come with their
  lemmas.
- `ColorPointMarker` (`color_point.dfy`): the marker of one point. This covers where it is
  drawn, the mapping from a drag back to the canvas with its clamp, and the press / move /
  release / click gesture as a class. It also covers the light and dark border colours.
- `ColorPicker` (`color_picker.dfy`): `hexToHsl`, `hslToHex` and the slider clamps of the
  colour picker.
- `Numeric` (`numeric.dfy`): `Math.abs` and the `Math.max(0, Math.min(hi, v))` clamp.
- `Wrappers` (`wrappers.dfy`): `Option`.

Numbers are exact reals, not IEEE doubles. `Math.round(v)` is `(v + 0.5).Floor`. JavaScript's
`%` by 2 is written out as truncating division. Bytes stored into the canvas buffer saturate
to [0, 255], as a `Uint8ClampedArray` does.

## Model

| member | source | states |
|---|---|---|
| GradientMesh.Round | asingoat-cursor/src/utils/gradientMesh.js:33-35 | Math.round gives the integer n with n - 0.5 <= v < n + 0.5 (halves round up) |
| GradientMesh.RoundInteger | asingoat-cursor/src/utils/gradientMesh.js:64 | rounding an integer gives it back |
| GradientMesh.RoundWithin | asingoat-cursor/src/utils/gradientMesh.js:33-35 | a value between two integers rounds to a value between them |
| GradientMesh.Weight | asingoat-cursor/src/utils/gradientMesh.js:18-23 | every weight is strictly positive; it is 10⁶ when the squared distance is below 10⁻⁶, and otherwise the reciprocal of the squared distance |
| GradientMesh.TotalWeight | asingoat-cursor/src/utils/gradientMesh.js:25 | the total weight is never negative, and strictly positive for a non-empty list, so the normalising branch always runs |
| GradientMesh.DistanceSquared | asingoat-cursor/src/utils/gradientMesh.js:18-20 | the squared distance dx² + dy² is never negative |
| GradientMesh.Field | asingoat-cursor/src/utils/gradientMesh.js:9-39 | the specification of the colour at a location: white for no points, else the rounded weighted average per channel; its properties are EmptyFieldIsWhite, SinglePointInvariance, ChannelWithinBounds, FieldIsColor and EquidistantAverage, and CalculateColorAtPoint is proved equal to it |
| GradientMesh.CalculateColorAtPoint | asingoat-cursor/src/utils/gradientMesh.js:9-39 | the one-pass loop accumulating total weight and three channel sums returns exactly the field specification `Field` |
| GradientMesh.EmptyFieldIsWhite | asingoat-cursor/src/utils/gradientMesh.js:10-12 | with no points the colour is (255,255,255) at every location |
| GradientMesh.SinglePointInvariance | asingoat-cursor/src/utils/gradientMesh.js:17-36 | with exactly one point the field is that point's colour everywhere, because the weight cancels |
| GradientMesh.WeightedSumBounds | asingoat-cursor/src/utils/gradientMesh.js:25-28 | if every point's channel lies in [lo, hi], the weighted channel sum lies between lo and hi times the total weight (by induction over the list) |
| GradientMesh.QuotientBounds | asingoat-cursor/src/utils/gradientMesh.js:33-35 | dividing such a sum by the positive total gives a value in [lo, hi] |
| GradientMesh.ChannelWithinBounds | asingoat-cursor/src/utils/gradientMesh.js:25-36 | each output channel lies between any bounds that all the points' values of that channel respect, in particular their minimum and maximum |
| GradientMesh.FieldIsColor | asingoat-cursor/src/utils/gradientMesh.js:25-36 | if every point colour has channels in [0,255], so does the field at every location |
| GradientMesh.EquidistantAverage | asingoat-cursor/src/utils/gradientMesh.js:18-35 | two points at equal distance give round((c1 + c2) / 2) per channel |
| GradientMesh.MidpointOfRedAndBlue | asingoat-cursor/src/utils/gradientMesh.js:18-35 | red at (0,0) and blue at (100,0), sampled at (50,0), give (128,0,128) |
| HexCodec.DigitValue | asingoat-cursor/src/utils/gradientMesh.js:49-51 | a hex digit of either case is worth 0..15 |
| HexCodec.Digit | asingoat-cursor/src/utils/gradientMesh.js:64 | the digit toString(16) prints for a value below 16 is lower-case and parses back to that value |
| HexCodec.DigitOfValue | asingoat-cursor/src/utils/gradientMesh.js:64 | printing a lower-case digit's value gives the digit back |
| HexCodec.ParseByte | asingoat-cursor/src/utils/gradientMesh.js:49-51 | parseInt of two hex digits is a channel value in [0,255] |
| HexCodec.AllHexDigitsAt | asingoat-cursor/src/utils/gradientMesh.js:47 | the character-by-character digit check holds exactly when every position holds a hex digit |
| HexCodec.Captured | asingoat-cursor/src/utils/gradientMesh.js:47 | a matched string yields exactly six hex digits |
| HexCodec.MatchIffPattern | asingoat-cursor/src/utils/gradientMesh.js:47 | the matcher succeeds exactly on an optional "#" followed by six hex digits of either case, and then yields those six digits |
| HexCodec.MatchHexColor | asingoat-cursor/src/utils/gradientMesh.js:47 | the regular-expression match; MatchIffPattern states that it succeeds exactly on an optional "#" and six hex digits and then yields those digits |
| HexCodec.HexToRgb | asingoat-cursor/src/utils/gradientMesh.js:46-53 | hexToRgb always returns channels in [0,255] |
| HexCodec.HexToRgbAcceptsExactly | asingoat-cursor/src/utils/gradientMesh.js:47-52 | an accepted string decodes its three digit pairs in order; any other string decodes to white |
| HexCodec.NatToHex | asingoat-cursor/src/utils/gradientMesh.js:64 | toString(16) of a non-negative integer has at least one digit, and every digit is a lower-case hex digit |
| HexCodec.IntToHex | asingoat-cursor/src/utils/gradientMesh.js:64 | toString(16) of an integer is non-empty and starts with "-" exactly for a negative number |
| HexCodec.ChannelHex | asingoat-cursor/src/utils/gradientMesh.js:64-65 | one padded channel has at least two characters; ChannelHexOfByte states it is exactly the two nibbles for a channel in [0,255] |
| HexCodec.RgbToHex | asingoat-cursor/src/utils/gradientMesh.js:62-67 | rgbToHex starts with "#" and has at least seven characters; RgbToHexShape, HexRoundTrip and HexRoundTripFromString state its exact output and both round trips |
| HexCodec.ChannelHexOfByte | asingoat-cursor/src/utils/gradientMesh.js:63-66 | a channel in [0,255] prints as exactly two lower-case digits, high nibble then low nibble, with a leading "0" below 16 |
| HexCodec.ChannelHexOfRounded | asingoat-cursor/src/utils/gradientMesh.js:64-65 | a channel in [0,255] passed through Math.round prints as its two nibbles |
| HexCodec.RgbToHexShape | asingoat-cursor/src/utils/gradientMesh.js:62-67 | for integer channels in [0,255], rgbToHex is "#" and six lower-case hex digits, two per channel |
| HexCodec.ParseByteOfNibbles | asingoat-cursor/src/utils/gradientMesh.js:49-51 | parsing the two printed nibbles of a channel in [0,255] gives the channel back |
| HexCodec.DecodeNibbles | asingoat-cursor/src/utils/gradientMesh.js:46-53 | "#" followed by the six nibbles of three channels decodes to those channels |
| HexCodec.HexRoundTrip | asingoat-cursor/src/utils/gradientMesh.js:46-67 | hexToRgb(rgbToHex(r, g, b)) == (r, g, b) for integer channels in [0,255] |
| HexCodec.ChannelHexOfParsed | asingoat-cursor/src/utils/gradientMesh.js:49-65 | a lower-case digit pair prints back unchanged from its parsed value |
| HexCodec.HexRoundTripFromString | asingoat-cursor/src/utils/gradientMesh.js:46-67 | rgbToHex(hexToRgb(s)) == s for every lower-case "#rrggbb" string |
| MeshCanvas.ClampToByte | asingoat-cursor/src/components/GradientMeshCanvas.jsx:62-64 | a store into the clamped byte buffer keeps a value in [0,255] and saturates one outside it |
| MeshCanvas.PixelByte | asingoat-cursor/src/components/GradientMeshCanvas.jsx:62-65 | the four bytes of one pixel, red, green, blue and alpha 255; PixelBytesAtRowOffset and AlphaIsOpaque state them at a pixel's offset |
| MeshCanvas.ImageByte | asingoat-cursor/src/components/GradientMeshCanvas.jsx:57-67 | the specification of the whole image, byte by byte; PixelHoldsField states that byte k of pixel (x, y) is byte k of the field at (x, y), and Rasterize is proved to fill the buffer with it |
| MeshCanvas.ScalePoints | asingoat-cursor/src/components/GradientMeshCanvas.jsx:45-51 | the scaled list has the same length and colours, and each position satisfies x' * fromWidth == x * toWidth (likewise for y) |
| MeshCanvas.ScaleToSameSize | asingoat-cursor/src/components/GradientMeshCanvas.jsx:45-51 | scaling into a space of the same size leaves every point in place |
| MeshCanvas.RowStartIsProduct | asingoat-cursor/src/components/GradientMeshCanvas.jsx:60 | row y begins at byte y * width * 4 |
| MeshCanvas.PixelOffset | asingoat-cursor/src/components/GradientMeshCanvas.jsx:60 | the offset (y * w + x) * 4 is the start of row y plus four bytes per column |
| MeshCanvas.RowInBounds | asingoat-cursor/src/components/GradientMeshCanvas.jsx:57-60 | every row below the height ends inside the w * h * 4 buffer |
| MeshCanvas.PixelDecode | asingoat-cursor/src/components/GradientMeshCanvas.jsx:60 | byte k of pixel (x, y) decodes back to column x, row y and offset k |
| MeshCanvas.PixelHoldsField | asingoat-cursor/src/components/GradientMeshCanvas.jsx:59-64 | byte k of pixel (x, y) of the image is byte k of the field's colour at the integer corner (x, y) |
| MeshCanvas.PixelBytesAtRowOffset | asingoat-cursor/src/components/GradientMeshCanvas.jsx:60-65 | the four bytes of a pixel hold its red, green and blue and then 255 |
| MeshCanvas.AlphaIsOpaque | asingoat-cursor/src/components/GradientMeshCanvas.jsx:65 | every fourth byte (the alpha) is 255 |
| MeshCanvas.EveryByteHasOnePixel | asingoat-cursor/src/components/GradientMeshCanvas.jsx:57-67 | every byte of the w * h * 4 buffer belongs to exactly one pixel with column, row and offset in range, so the loop covers each byte once |
| MeshCanvas.Rasterize | asingoat-cursor/src/components/GradientMeshCanvas.jsx:57-67 | after the nested loop every byte of the buffer is the image byte of the field at its pixel |
| MeshCanvas.RasterizeRow | asingoat-cursor/src/components/GradientMeshCanvas.jsx:58-66 | the inner loop extends the correctly written prefix by one full row |
| MeshCanvas.RenderGradientMesh | asingoat-cursor/src/components/GradientMeshCanvas.jsx:36-70 | a fresh buffer of w * h * 4 bytes; with no points every pixel is opaque #1f1f1f, otherwise every byte is the field of the points scaled from the logical canvas to the buffer |
| MeshCanvas.ClickToCanvas | asingoat-cursor/src/components/GradientMeshCanvas.jsx:80-87 | the logical position p of a click at (x, y) satisfies p.x * innerWidth == x * width and p.y * innerHeight == y * height (click and touch alike, lines 101-108); ClickStaysOnCanvas and ClickInvertsRender state where it lands |
| MeshCanvas.ClickStaysOnCanvas | asingoat-cursor/src/components/GradientMeshCanvas.jsx:80-87 | a click inside the viewport maps into [0, width] × [0, height] of the logical canvas |
| MeshCanvas.ScaleWithin | asingoat-cursor/src/components/GradientMeshCanvas.jsx:84-87 | scaling a coordinate inside one extent by target / extent lands inside the target |
| MeshCanvas.ScaleThereAndBack | asingoat-cursor/src/components/GradientMeshCanvas.jsx:84-87 | scaling from one extent to another and back by the inverse ratio is the identity |
| MeshCanvas.ClickInvertsRender | asingoat-cursor/src/components/GradientMeshCanvas.jsx:84-108 | with the buffer sized to the viewport, clicking where a point is drawn maps back to its logical position (click and touch alike) |
| MeshApp.PaletteColorsAreColors | asingoat-cursor/src/App.jsx:67-75 | every palette entry has channels in [0,255] |
| MeshApp.RemoveAt | asingoat-cursor/src/App.jsx:123 | the filter drops one element exactly when the index is in range |
| MeshApp.RemoveAtSplices | asingoat-cursor/src/App.jsx:123 | the filter deletes exactly the element at the index and keeps the rest in order; an out-of-range index changes nothing |
| MeshApp.RemoveLastAppended | asingoat-cursor/src/App.jsx:118-123 | appending a point and removing it again gives the list back |
| MeshApp.Reindex | asingoat-cursor/src/App.jsx:125-135 | the update of an optional index on removal; SelectionFollowsPoint states that the result is null exactly when its point was removed and otherwise designates the same point |
| MeshApp.SelectionFollowsPoint | asingoat-cursor/src/App.jsx:122-136 | after a removal the re-indexed selection is null exactly when its point was removed, is in range otherwise, and designates the same point as before |
| MeshApp.Rescale | asingoat-cursor/src/App.jsx:147-151 | rescaling keeps the length and every id and colour |
| MeshApp.RescaleDoubles | asingoat-cursor/src/App.jsx:142-156 | doubling both canvas sides maps every (x, y) to (2x, 2y) |
| MeshApp.RescaleThereAndBack | asingoat-cursor/src/App.jsx:142-156 | changing the resolution and changing it back restores every point |
| MeshApp.ResolutionChangeKeepsPicture | asingoat-cursor/src/App.jsx:142-172 | after a resolution change, rendering or exporting at any size sees exactly the points it saw before |
| MeshApp.NatToDecimal | asingoat-cursor/src/App.jsx:197 | a number prints as at least one decimal digit |
| MeshApp.DecimalDigit | asingoat-cursor/src/App.jsx:197 | the printed digit is worth the value it prints |
| MeshApp.DecimalRoundTrip | asingoat-cursor/src/App.jsx:197 | reading the printed decimal back gives the number |
| MeshApp.ExportFileName | asingoat-cursor/src/App.jsx:197 | the download name gradient-mesh-{W}x{H}.png; DefaultExportFileName gives the 3840 by 2160 name and ExportFileNameDeterminesSize states that the name determines both sizes |
| MeshApp.DefaultExportFileName | asingoat-cursor/src/App.jsx:197 | the 3840 by 2160 export is named "gradient-mesh-3840x2160.png" |
| MeshApp.ExportFileNameDeterminesSize | asingoat-cursor/src/App.jsx:197 | two exports with the same file name have the same width and height |
| MeshApp.SplitAtX | asingoat-cursor/src/App.jsx:197 | in digits "x" rest, the "x" splits the name unambiguously |
| MeshApp.FirstX | asingoat-cursor/src/App.jsx:197 | the first "x" in digits "x" rest is the one after the digits |
| MeshApp.DeleteWithCapturedPoints | asingoat-cursor/src/App.jsx:44-57 | the Delete listener as registered removes one point from the list captured when it was registered |
| MeshApp.DeleteAfterDragRevertsDrag | asingoat-cursor/src/App.jsx:44-57 | add two points, drag the first, press Delete: the list written back has the first point at its pre-drag position, not the dragged one |
| MeshApp.MeshEditor.Valid | asingoat-cursor/src/App.jsx:11-17 | the editor invariant: positive canvas and display sizes, and the selected and open-picker indices are null or designate an existing point; every handler method ensures it |
| MeshApp.MeshEditor.constructor | asingoat-cursor/src/App.jsx:11-17 | the editor starts with no points, nothing selected, no picker open, a 3840 by 2160 canvas and the window's size |
| MeshApp.MeshEditor.CanvasClick | asingoat-cursor/src/App.jsx:59-86 | with a picker open the click only closes it; otherwise one palette-coloured point is appended at the click and becomes the selection; the editor invariant is kept |
| MeshApp.MeshEditor.AddPoint | asingoat-cursor/src/App.jsx:100-120 | one palette-coloured point is appended at the canvas centre and selected; nothing else changes |
| MeshApp.MeshEditor.PointDrag | asingoat-cursor/src/App.jsx:88-92 | only x and y of the dragged point change; the length and all other points stay the same |
| MeshApp.MeshEditor.PointColorChange | asingoat-cursor/src/App.jsx:94-98 | only the colour of the point changes; the length and all other points stay the same |
| MeshApp.MeshEditor.PickerColorChange | asingoat-cursor/src/App.jsx:249-252 | the picker's hex string is decoded by hexToRgb into the point's colour, which is therefore always valid |
| MeshApp.MeshEditor.RemovePoint | asingoat-cursor/src/App.jsx:122-136 | the point at the index is filtered out, and the selection and the open picker are re-indexed so that they keep designating the same points or become null |
| MeshApp.MeshEditor.SelectPoint | asingoat-cursor/src/App.jsx:138-140 | choosing the selected point clears the selection; any other point becomes selected |
| MeshApp.MeshEditor.ColorPickerToggle | asingoat-cursor/src/App.jsx:254-260 | opening a point's picker records it and selects the point; closing clears the picker and keeps the selection |
| MeshApp.MeshEditor.ResolutionChange | asingoat-cursor/src/App.jsx:142-156 | the canvas takes the new size and every point is scaled by new size / old size |
| MeshApp.MeshEditor.DisplayResize | asingoat-cursor/src/App.jsx:22-31 | the display size follows the window; nothing else changes |
| MeshApp.MeshEditor.DeleteKey | asingoat-cursor/src/App.jsx:45-57 | the CORRECTED Delete-key handler (second row of "## Findings"): Delete or Backspace with a selection removes the selected point from the current list and clears the selection; any other key, or no selection, changes nothing. The handler as written filters a stale list instead; that is `MeshApp.DeleteWithCapturedPoints` |
| MeshApp.MeshEditor.Export | asingoat-cursor/src/App.jsx:158-197 | a fresh export buffer holds the field of the points scaled from the logical canvas size (not the display size) to the export size, and the file name is gradient-mesh-{W}x{H}.png |
| MeshApp.EmptyExportIsWhite | asingoat-cursor/src/App.jsx:178-188 | exporting with no points gives opaque white pixels: the export has no dark fallback |
| ColorPointMarker.DisplayCoordinate | asingoat-cursor/src/components/ColorPoint.jsx:15-18 | the marker coordinate d satisfies d * canvasSize == v * displaySize |
| ColorPointMarker.DisplayPosition | asingoat-cursor/src/components/ColorPoint.jsx:15-18 | both display coordinates of the marker; MarkerOverRenderedPoint and DragInvertsDisplay state where it lies and that dragging undoes it |
| ColorPointMarker.MarkerOverRenderedPoint | asingoat-cursor/src/components/ColorPoint.jsx:15-18 | the marker sits exactly where the preview draws its point when the buffer has the display's size |
| ColorPointMarker.DragCoordinate | asingoat-cursor/src/components/ColorPoint.jsx:35-46 | a drag coordinate always lies in [0, canvasSize] |
| ColorPointMarker.DragTarget | asingoat-cursor/src/components/ColorPoint.jsx:35-46 | the drag target always lies in [0, canvasWidth] × [0, canvasHeight] |
| ColorPointMarker.AxisRoundTrip | asingoat-cursor/src/components/ColorPoint.jsx:35-46 | on one axis, dragging to a coordinate's display position gives that coordinate back |
| ColorPointMarker.DragInvertsDisplay | asingoat-cursor/src/components/ColorPoint.jsx:15-46 | holding the pointer at the marker's drawn position drags the point onto its own position: the drag mapping inverts the display mapping inside the canvas |
| ColorPointMarker.MovedBeyondThreshold | asingoat-cursor/src/components/ColorPoint.jsx:27-29 | the test deltaX > 5 or deltaY > 5; ThresholdIsASquare states it in both directions |
| ColorPointMarker.ThresholdIsASquare | asingoat-cursor/src/components/ColorPoint.jsx:27-31 | the pointer counts as moved exactly when it leaves the square of half-side 5 px around the press |
| ColorPointMarker.LightChannel | asingoat-cursor/src/components/ColorPoint.jsx:116 | min(255, c + 60) lies in [c, 255] for a channel c |
| ColorPointMarker.DarkChannel | asingoat-cursor/src/components/ColorPoint.jsx:117 | max(0, c - 30) lies in [0, c] for a channel c |
| ColorPointMarker.LightBorder | asingoat-cursor/src/components/ColorPoint.jsx:116 | the light border colour, channel by channel; BordersBracketColor states it is valid and not darker than the point |
| ColorPointMarker.DarkBorder | asingoat-cursor/src/components/ColorPoint.jsx:117 | the dark border colour, channel by channel; BordersBracketColor states it is valid and not lighter than the point |
| ColorPointMarker.BordersBracketColor | asingoat-cursor/src/components/ColorPoint.jsx:116-117 | both border colours are valid, the dark one below and the light one above the point's colour |
| ColorPointMarker.MarkerColorHex | asingoat-cursor/src/components/ColorPoint.jsx:105-112 | the marker's rgbToHex is the utility's; for a valid colour it is a lower-case "#rrggbb" that decodes back to the colour |
| ColorPointMarker.DragGesture.constructor | asingoat-cursor/src/components/ColorPoint.jsx:5-9 | a gesture starts not dragging, not dragged, at (0, 0) |
| ColorPointMarker.DragGesture.MouseDown | asingoat-cursor/src/components/ColorPoint.jsx:68-78 | with this point's picker open a press changes nothing; otherwise it clears the drag flag, records the position and starts dragging |
| ColorPointMarker.DragGesture.MouseMove | asingoat-cursor/src/components/ColorPoint.jsx:20-49 | while dragging, a move reports the clamped target and sets the drag flag once the pointer has left the threshold square; when not dragging nothing is reported |
| ColorPointMarker.DragGesture.MouseUp | asingoat-cursor/src/components/ColorPoint.jsx:51-52 | release stops dragging and keeps the drag flag |
| ColorPointMarker.DragGesture.DragFlagReset | asingoat-cursor/src/components/ColorPoint.jsx:54-56 | the reset timer clears the drag flag only |
| ColorPointMarker.DragGesture.ColorAreaClick | asingoat-cursor/src/components/ColorPoint.jsx:273-277 | a click opens the picker exactly when no drag is in progress and none has just happened |
| ColorPointMarker.ClickAfterDragDoesNotOpen | asingoat-cursor/src/components/ColorPoint.jsx:27-31 | press, move more than 5 px, release, click: the picker does not open |
| ColorPointMarker.ClickAfterJitterOpens | asingoat-cursor/src/components/ColorPoint.jsx:27-31 | press, move at most 5 px on each axis, release, click: the picker opens |
| ColorPointMarker.PressWithPickerOpenDoesNotDrag | asingoat-cursor/src/components/ColorPoint.jsx:68-72 | with the picker open, pressing and moving reports no position |
| Numeric.Abs | asingoat-cursor/src/components/ColorPoint.jsx:27-28 | Math.abs is non-negative and equals v or -v |
| Numeric.ClampTo | asingoat-cursor/src/components/ColorPoint.jsx:45-46 | the clamp lands in [0, hi], keeps a value inside, and gives 0 below and hi above |
| Numeric.ClampIdempotent | asingoat-cursor/src/components/ColorPoint.jsx:45-46 | clamping twice is clamping once |
| Numeric.ClampIsNearest | asingoat-cursor/src/components/ColorPoint.jsx:45-46 | the clamped value is at least as close as the raw one to every point of [0, hi] |
| ColorPicker.Max3 | asingoat-cursor/src/components/LiquidGlassColorPicker.jsx:32 | Math.max of three is an upper bound that equals one of them |
| ColorPicker.Min3 | asingoat-cursor/src/components/LiquidGlassColorPicker.jsx:33 | Math.min of three is a lower bound that equals one of them |
| ColorPicker.UnitHue | asingoat-cursor/src/components/LiquidGlassColorPicker.jsx:41-46 | the unit hue chosen by the largest channel; UnitHueBounds states it lies in [0, 1] |
| ColorPicker.UnitSaturation | asingoat-cursor/src/components/LiquidGlassColorPicker.jsx:40 | the unit saturation chosen by the lightness; UnitSaturationBounds states it lies in [0, 1] |
| ColorPicker.HexToHsl | asingoat-cursor/src/components/LiquidGlassColorPicker.jsx:27-54 | hexToHsl; HexToHslRanges, GreyHasNoHue, PrimaryHexToHsl and AlmostRedHasFullHue state its ranges and values |
| ColorPicker.UnitHueBounds | asingoat-cursor/src/components/LiquidGlassColorPicker.jsx:41-46 | for a non-grey colour the unit hue lies in [0, 1] |
| ColorPicker.UnitSaturationBounds | asingoat-cursor/src/components/LiquidGlassColorPicker.jsx:40 | for a non-grey colour the unit saturation lies in [0, 1] |
| ColorPicker.UnitChannelsToHslRanges | asingoat-cursor/src/components/LiquidGlassColorPicker.jsx:32-53 | for channels in [0,1] the hue lies in [0,360] and saturation and lightness in [0,100] |
| ColorPicker.HexToHslRanges | asingoat-cursor/src/components/LiquidGlassColorPicker.jsx:27-54 | for six hex digits the hue is in [0, 360] and saturation and lightness are in [0, 100] |
| ColorPicker.GreyHasNoHue | asingoat-cursor/src/components/LiquidGlassColorPicker.jsx:34-52 | a grey gives hue and saturation 0 and lightness round(100 * channel / 255) |
| ColorPicker.PrimaryHexToHsl | asingoat-cursor/src/components/LiquidGlassColorPicker.jsx:27-54 | #ff0000, #00ff00 and #0000ff give hues 0, 120 and 240 at saturation 100 and lightness 50 |
| ColorPicker.AlmostRedHasFullHue | asingoat-cursor/src/components/LiquidGlassColorPicker.jsx:41-52 | "#ff0001" has unit hue 1529/1530, which rounds to hue 360 |
| ColorPicker.RemainderTwo | asingoat-cursor/src/components/LiquidGlassColorPicker.jsx:61 | `% 2` of a non-negative number lies in [0, 2), and of a negative one in (-2, 0] |
| ColorPicker.Sector | asingoat-cursor/src/components/LiquidGlassColorPicker.jsx:63-77 | a hue outside [0, 360) matches no branch and leaves all three components 0 |
| ColorPicker.NoSaturationIsGrey | asingoat-cursor/src/components/LiquidGlassColorPicker.jsx:58-81 | with saturation 0 all three channels equal round(255 * l / 100), whatever the hue |
| ColorPicker.HueOutsideSectorsIsGrey | asingoat-cursor/src/components/LiquidGlassColorPicker.jsx:65-81 | a hue outside [0, 360), 360 included, gives r = g = b whatever the saturation |
| ColorPicker.Chroma | asingoat-cursor/src/components/LiquidGlassColorPicker.jsx:60 | the chroma (1 - abs(2l - 1)) * s; ChromaBounds states it lies in [0, min(2l, 2 - 2l)] |
| ColorPicker.Middle | asingoat-cursor/src/components/LiquidGlassColorPicker.jsx:61 | the middle component; MiddleBounds states it lies in [0, c] and MiddleVanishesAtPrimaries that it is 0 at multiples of 120 degrees |
| ColorPicker.HslChannels | asingoat-cursor/src/components/LiquidGlassColorPicker.jsx:58-81 | the three rounded channels of hslToHex; HslChannelsAreColor states they lie in [0, 255] and NoSaturationIsGrey and HueOutsideSectorsIsGrey when they are equal |
| ColorPicker.HslToHex | asingoat-cursor/src/components/LiquidGlassColorPicker.jsx:57-87 | hslToHex as written; HslToHexIsWellFormed, HslToHexIsRgbToHex, PrimaryHues and FullHueTurnsBlack state its output |
| ColorPicker.ChromaBounds | asingoat-cursor/src/components/LiquidGlassColorPicker.jsx:60 | for s and l in [0, 1] the chroma lies in [0, min(2l, 2 - 2l)] |
| ColorPicker.MiddleBounds | asingoat-cursor/src/components/LiquidGlassColorPicker.jsx:61 | for a hue of at least 0 the middle component lies in [0, c] |
| ColorPicker.ShiftedComponentIsChannel | asingoat-cursor/src/components/LiquidGlassColorPicker.jsx:62-81 | a component in [0, c] shifted by m = l - c/2 rounds to a channel in [0, 255] |
| ColorPicker.HslChannelsAreColor | asingoat-cursor/src/components/LiquidGlassColorPicker.jsx:57-81 | for s and l in [0, 100] every channel is in [0, 255], for every hue |
| ColorPicker.HslToHexIsRgbToHex | asingoat-cursor/src/components/LiquidGlassColorPicker.jsx:79-86 | hslToHex prints its rounded channels exactly as rgbToHex does |
| ColorPicker.HslToHexIsWellFormed | asingoat-cursor/src/components/LiquidGlassColorPicker.jsx:57-87 | for s and l in [0, 100] the result is "#" and six lower-case hex digits, and it decodes back to the computed channels |
| ColorPicker.FullSaturationHalfLightness | asingoat-cursor/src/components/LiquidGlassColorPicker.jsx:58-62 | at s = 100 and l = 50 the chroma is 1 and the shift is 0 |
| ColorPicker.MiddleVanishesAtPrimaries | asingoat-cursor/src/components/LiquidGlassColorPicker.jsx:61 | at multiples of 120 degrees the middle component is 0 |
| ColorPicker.ChannelHexOfExtremes | asingoat-cursor/src/components/LiquidGlassColorPicker.jsx:83-86 | channels 0 and 255 print as "00" and "ff" |
| ColorPicker.PrimaryHues | asingoat-cursor/src/components/LiquidGlassColorPicker.jsx:57-87 | hues 0, 120 and 240 at saturation 100 and lightness 50 print #ff0000, #00ff00 and #0000ff, the inverse of PrimaryHexToHsl |
| ColorPicker.BlackAtFullHue | asingoat-cursor/src/components/LiquidGlassColorPicker.jsx:63-81 | at hue 360, full saturation and half lightness no sector matches, so the channels are (0,0,0) and the hex is "#000000" |
| ColorPicker.FullHueTurnsBlack | asingoat-cursor/src/components/LiquidGlassColorPicker.jsx:65-77 | the slider's right end and hexToHsl("#ff0001") both give hue 360, and hslToHex(360, 100, 50) is "#000000" while hslToHex(0, 100, 50) is "#ff0000" |
| ColorPicker.WrapHue | asingoat-cursor/src/components/LiquidGlassColorPicker.jsx:65-77 | the wrapped hue lies in [0, 360) and equals the hue when it is already there |
| ColorPicker.HslToHexWrapped | asingoat-cursor/src/components/LiquidGlassColorPicker.jsx:57-87 | the corrected hslToHex (first row of "## Findings"): WrappedAgreesInRange states it equals the written conversion on [0, 360), WrappedIsPeriodic that it has period 360, and WrappedFullHueIsRed that hue 360 is red |
| ColorPicker.WrappedAgreesInRange | asingoat-cursor/src/components/LiquidGlassColorPicker.jsx:57-87 | for hues in [0, 360) the corrected conversion equals hslToHex as written |
| ColorPicker.WrapHuePeriodic | asingoat-cursor/src/components/LiquidGlassColorPicker.jsx:65-77 | wrapping is periodic with period 360 |
| ColorPicker.WrappedIsPeriodic | asingoat-cursor/src/components/LiquidGlassColorPicker.jsx:57-87 | the corrected conversion gives the same colour for h and h + 360 |
| ColorPicker.WrappedFullHueIsRed | asingoat-cursor/src/components/LiquidGlassColorPicker.jsx:65-77 | under the corrected conversion hue 360 is red, as hue 0 is |
| ColorPicker.ColorOnOpen | asingoat-cursor/src/components/LiquidGlassColorPicker.jsx:89-106 | the colour written back when the picker opens on a hex string (to HSL and back, corrected conversion) is always "#" and six lower-case hex digits |
| ColorPicker.OpeningOnAlmostRedStaysRed | asingoat-cursor/src/components/LiquidGlassColorPicker.jsx:89-106 | with the corrected conversion, opening the picker on "#ff0001" writes back "#ff0000" rather than black |
| ColorPicker.HueFromPointer | asingoat-cursor/src/components/LiquidGlassColorPicker.jsx:126-132 | the hue slider value always lies in [0, 360] |
| ColorPicker.HueFollowsPointer | asingoat-cursor/src/components/LiquidGlassColorPicker.jsx:129-130 | inside the slider the hue is proportional to the pointer's offset; left of it the hue is 0, right of it 360 |
| ColorPicker.SaturationLightnessFromPointer | asingoat-cursor/src/components/LiquidGlassColorPicker.jsx:152-161 | saturation and lightness from the pad always lie in [0, 100] |
| ColorPicker.LightnessFollowsPointer | asingoat-cursor/src/components/LiquidGlassColorPicker.jsx:156-158 | inside the pad the lightness falls linearly, from 100 at the top edge to 0 at the bottom edge |

## Left out

- Browser and canvas plumbing is not modelled: `getContext`, `createImageData` and `putImageData`, the `toBlob` download with its object URL, and the `onComplete` callback. Buffers are `array`s that the methods return.
- Event-listener registration, `setTimeout` and the `pointRef` / `hueRef` null checks are not modelled. The listeners become methods: `MouseMove` stands for the window mousemove listener that exists only while dragging, and `DragFlagReset` stands for the 100 ms timer.
- `Date.now()` ids and the `Math.random()` palette choice are parameters (`id`, `pick`).
- Arithmetic is exact, not IEEE-754. Claims about float rounding or summation order are out of scope, and `calculateColorAtPoint` is modelled only at the power 2 that every call site uses.
- NaN and infinities are not modelled. Divisions by a canvas, display, container or slider size require that size to be positive.
- MeshCanvas.ClickToCanvas: requires a positive viewport, where a zero size in the source would give Infinity or NaN.
- ColorPointMarker.DisplayCoordinate: requires a positive canvas size, for the same reason.
- ColorPointMarker.DragCoordinate: requires a positive container size, for the same reason.
- ColorPicker.HueFromPointer: requires a positive slider width, for the same reason.
- ColorPicker.HexToHsl: requires hex digits at positions 1 to 6. For other strings `parseInt` yields NaN or reads a partial pair, which exact reals cannot represent. The picker is only ever opened on colours printed by rgbToHex.
- MeshApp.MeshEditor.PointDrag: requires an index of an existing point. An index past the end would make the JavaScript array sparse; the markers only ever pass their own index.
- MeshApp.MeshEditor.PointColorChange: requires an index of an existing point, for the same reason.
- The picker's `hue`, `saturation` and `lightness` state and its initialisation flag are not modelled as fields. `ColorPicker.ColorOnOpen` composes the two effects that run when it opens.
- The picker's own window dragging and the mobile layout switch are not modelled.
- The fade of the instructions (App.jsx lines 34-42), the controls panel and the React bootstrap are presentation only and not modelled.
- MeshApp.MeshEditor.ResolutionChange, MeshApp.MeshEditor.AddPoint and MeshApp.MeshEditor.SelectPoint model `handleResolutionChange`, `handleAddPoint` and `handleSelectPoint`, which are defined in App.jsx (lines 100, 138 and 142) but never called anywhere in the source.
- MeshApp.MeshEditor.SelectPoint: requires an index of an existing point. The source accepts any index, and an index past the end would leave the selection designating no point, which the editor invariant excludes.
- MeshApp.MeshEditor.ColorPickerToggle: requires an index of an existing point; the markers only ever pass their own index.
- MeshCanvas.RenderGradientMesh: with points and a zero side it returns an empty buffer, which is what the pixel loop would do, but in the source `createImageData` throws an IndexSizeError when a side is 0 (GradientMeshCanvas.jsx line 54, App.jsx line 175), so the program never reaches the loop. MeshApp.MeshEditor.Export inherits this.
- MeshApp.MeshEditor.CanvasClick: adds a point for every click. The guards of `handleClick` and `handleTouchEnd` are not modelled: a click on the controls panel (GradientMeshCanvas.jsx lines 76 and 94) and a touch end without a touch (line 97) add no point in the source. The model covers only the clicks that reach `onCanvasClick`.
- The Delete listener's stale view of `activeColorPickerIndex` is covered only through the point list, in the findings below.

## Findings

| source | as written | input that shows it | evidently intended | confidence | as-written member | corrected member |
|---|---|---|---|---|---|---|
| asingoat-cursor/src/components/LiquidGlassColorPicker.jsx:75 | the last hue sector tests `h < 360`, so hue 360 matches no branch and all three channels become the grey m | the hue slider at its right end, or opening the picker on #ff0001 (unit hue 1529/1530, rounded to 360): hslToHex(360, 100, 50) is "#000000" and the point turns black | hue 360 is the same angle as hue 0: "#ff0000" | high, not executed | ColorPicker.FullHueTurnsBlack | ColorPicker.HslToHexWrapped |
| asingoat-cursor/src/App.jsx:57 | the keydown effect depends only on `selectedPointIndex`, so its `handleRemovePoint` filters the point list of the render in which the listener was registered | add two points (the second stays selected), drag the first, press Delete: the first point jumps back to its pre-drag position | remove the selected point from the current list | high, not executed | MeshApp.DeleteAfterDragRevertsDrag | MeshApp.MeshEditor.DeleteKey |
