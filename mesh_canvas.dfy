/**
 * The rasterizer of src/components/GradientMeshCanvas.jsx: points are scaled
 * from logical canvas space into a buffer's space, then a row-major loop
 * writes one RGBA sample per pixel. The same loop serves the export in
 * src/App.jsx. Also the click and touch mapping from viewport back to
 * logical coordinates.
 */
module MeshCanvas {
  import opened GradientMesh

  /** One element of the canvas's Uint8ClampedArray. */
  newtype byte = x: int | 0 <= x < 256

  /** The colour of the live preview when there are no points: #1f1f1f. */
  const EmptyBackground := Rgb(31, 31, 31)

  const OpaqueAlpha: byte := 255

  /** A store into a Uint8ClampedArray: values outside [0, 255] saturate. */
  function ClampToByte(v: int): (b: byte)
    ensures IsChannel(v) ==> b as int == v
    ensures v < 0 ==> b == 0
    ensures v > 255 ==> b == 255
  {
    if v < 0 then 0 else if v > 255 then 255 else v as byte
  }

  /** Byte k of a pixel of colour c: red, green, blue, then opaque alpha. */
  function PixelByte(c: Rgb, k: int): byte
    requires 0 <= k < 4
  {
    if k == 0 then ClampToByte(c.r)
    else if k == 1 then ClampToByte(c.g)
    else if k == 2 then ClampToByte(c.b)
    else OpaqueAlpha
  }

  /**
   * The byte at offset i of a row-major RGBA image of the given width whose
   * pixel (x, y) is the field sampled at the integer corner (x, y).
   */
  function ImageByte(width: nat, points: seq<MeshPoint>, i: nat): byte
  {
    if width == 0 then 0
    else
      var pixel := i / 4;
      PixelByte(Field((pixel % width) as real, (pixel / width) as real, points), i % 4)
  }

  /**
   * Points mapped from a (fromWidth, fromHeight) space into a (toWidth, toHeight)
   * one as `(x / fromWidth) * toWidth`, colours copied and ids dropped.
   */
  function ScalePoints(points: seq<ControlPoint>, fromWidth: real, fromHeight: real, toWidth: real, toHeight: real)
    : (scaled: seq<MeshPoint>)
    requires fromWidth > 0.0 && fromHeight > 0.0
    ensures |scaled| == |points|
    ensures forall i :: 0 <= i < |points| ==> scaled[i].color == points[i].color
    ensures forall i :: 0 <= i < |points| ==>
      scaled[i].x * fromWidth == points[i].x * toWidth && scaled[i].y * fromHeight == points[i].y * toHeight
  {
    seq(|points|, i requires 0 <= i < |points| =>
      MeshPoint(points[i].x / fromWidth * toWidth, points[i].y / fromHeight * toHeight, points[i].color))
  }

  /** Scaling into a space of the same size leaves every position where it was. */
  lemma ScaleToSameSize(points: seq<ControlPoint>, width: real, height: real)
    requires width > 0.0 && height > 0.0
    ensures forall i :: 0 <= i < |points| ==>
      ScalePoints(points, width, height, width, height)[i] == MeshPoint(points[i].x, points[i].y, points[i].color)
  {
  }

  // ---------------------------------------------------------------------------
  // Pixel layout

  /** Offset of the first byte of row y, counted up row by row. */
  function RowStart(width: nat, y: nat): nat
  {
    if y == 0 then 0 else RowStart(width, y - 1) + 4 * width
  }

  /** Row y starts after y full rows of width four-byte pixels. */
  lemma {:induction false} RowStartIsProduct(width: nat, y: nat)
    ensures RowStart(width, y) == y * width * 4
  {
    if y > 0 {
      RowStartIsProduct(width, y - 1);
      assert (y - 1) * width * 4 + 4 * width == y * width * 4;
    }
  }

  /** The byte offset of pixel (x, y) is the start of row y plus four bytes per column. */
  lemma PixelOffset(width: nat, x: nat, y: nat)
    ensures (y * width + x) * 4 == RowStart(width, y) + 4 * x
  {
    RowStartIsProduct(width, y);
  }

  /** Row y < height of a width-by-height image ends inside the buffer. */
  lemma RowInBounds(width: nat, height: nat, y: nat)
    requires y < height
    ensures RowStart(width, y) + 4 * width <= width * height * 4
  {
    RowStartIsProduct(width, y + 1);
    MulMonotone(y + 1, height, width * 4);
    assert (y + 1) * width * 4 == (y + 1) * (width * 4);
    assert width * height * 4 == height * (width * 4);
  }

  lemma MulMonotone(a: nat, b: nat, c: nat)
    requires a <= b
    ensures a * c <= b * c
  {
  }

  /** Byte k of pixel (x, y) decodes back to column x, row y and offset k. */
  lemma PixelDecode(width: nat, x: nat, y: nat, k: nat)
    requires x < width && k < 4
    ensures ((y * width + x) * 4 + k) / 4 == y * width + x
    ensures ((y * width + x) * 4 + k) % 4 == k
    ensures (y * width + x) % width == x && (y * width + x) / width == y
  {
    var n := y * width + x;
    assert n * 4 + k == 4 * n + k;
    Euclid(n * 4 + k, 4, n, k);
    Euclid(n, width, y, x);
  }

  /** Quotient and remainder are determined by any decomposition with a remainder in range. */
  lemma Euclid(a: int, d: int, q: int, r: int)
    requires d > 0 && 0 <= r < d && a == q * d + r
    ensures a / d == q && a % d == r
  {
    var k := a / d - q;
    assert k * d == r - a % d;
    if k >= 1 {
      AtLeastOneMultiple(k, d);
    } else if k <= -1 {
      AtLeastOneMultiple(-k, d);
    }
  }

  lemma AtLeastOneMultiple(k: int, d: int)
    requires k >= 1 && d > 0
    ensures k * d >= d
  {
  }

  /** Byte k of pixel (x, y) of the image is byte k of the field's colour at (x, y). */
  lemma PixelHoldsField(width: nat, points: seq<MeshPoint>, x: nat, y: nat, k: nat)
    requires x < width && k < 4
    ensures ImageByte(width, points, (y * width + x) * 4 + k) == PixelByte(Field(x as real, y as real, points), k)
  {
    PixelDecode(width, x, y, k);
  }

  /** The four bytes of pixel (x, y), counted from the start of its row, hold its colour and 255. */
  lemma PixelBytesAtRowOffset(width: nat, points: seq<MeshPoint>, x: nat, y: nat)
    requires x < width
    ensures var c, at := Field(x as real, y as real, points), RowStart(width, y) + 4 * x;
      ImageByte(width, points, at) == ClampToByte(c.r) &&
      ImageByte(width, points, at + 1) == ClampToByte(c.g) &&
      ImageByte(width, points, at + 2) == ClampToByte(c.b) &&
      ImageByte(width, points, at + 3) == OpaqueAlpha
  {
    PixelOffset(width, x, y);
    PixelHoldsField(width, points, x, y, 0);
    PixelHoldsField(width, points, x, y, 1);
    PixelHoldsField(width, points, x, y, 2);
    PixelHoldsField(width, points, x, y, 3);
  }

  /** Every pixel's alpha byte is 255. */
  lemma AlphaIsOpaque(width: nat, points: seq<MeshPoint>, i: nat)
    requires width > 0 && i % 4 == 3
    ensures ImageByte(width, points, i) == OpaqueAlpha
  {
  }

  /**
   * Every byte of a width-by-height RGBA buffer belongs to exactly one pixel:
   * it is byte i % 4 of pixel ((i / 4) % width, (i / 4) / width), and that
   * decomposition is the only one with column, row and offset in range.
   */
  lemma EveryByteHasOnePixel(width: nat, height: nat, i: nat, x: nat, y: nat, k: nat)
    requires i < width * height * 4
    ensures width > 0
    ensures (i / 4) % width < width && (i / 4) / width < height
    ensures i == ((i / 4) / width * width + (i / 4) % width) * 4 + i % 4
    ensures x < width && k < 4 && i == (y * width + x) * 4 + k ==>
      x == (i / 4) % width && y == (i / 4) / width && k == i % 4
  {
    var p := i / 4;
    assert p < width * height;
    Euclid(p, width, p / width, p % width);
    if x < width && k < 4 && i == (y * width + x) * 4 + k {
      PixelDecode(width, x, y, k);
    }
  }

  // ---------------------------------------------------------------------------
  // The pixel loop

  /**
   * The nested loop of the live preview and of the export: for every row y
   * and column x, in row-major order, write the field's colour at (x, y) into
   * bytes (y * width + x) * 4 .. + 2 and 255 into the alpha byte.
   */
  method Rasterize(data: array<byte>, width: nat, height: nat, points: seq<MeshPoint>)
    requires data.Length == width * height * 4
    modifies data
    ensures forall i :: 0 <= i < data.Length ==> data[i] == ImageByte(width, points, i)
  {
    for y := 0 to height
      invariant RowStart(width, y) <= data.Length
      invariant forall i :: 0 <= i < RowStart(width, y) ==> data[i] == ImageByte(width, points, i)
    {
      RowInBounds(width, height, y);
      RasterizeRow(data, width, y, points);
    }
    RowStartIsProduct(width, height);
  }

  /** One pass of the inner loop: row y, column by column, after the rows above it. */
  method RasterizeRow(data: array<byte>, width: nat, y: nat, points: seq<MeshPoint>)
    requires RowStart(width, y) + 4 * width <= data.Length
    requires forall i :: 0 <= i < RowStart(width, y) ==> data[i] == ImageByte(width, points, i)
    modifies data
    ensures forall i :: 0 <= i < RowStart(width, y + 1) ==> data[i] == ImageByte(width, points, i)
  {
    for x := 0 to width
      invariant forall i :: 0 <= i < RowStart(width, y) + 4 * x ==> data[i] == ImageByte(width, points, i)
    {
      var color := CalculateColorAtPoint(x as real, y as real, points);
      var index := (y * width + x) * 4;
      PixelOffset(width, x, y);
      PixelBytesAtRowOffset(width, points, x, y);
      data[index] := ClampToByte(color.r);
      data[index + 1] := ClampToByte(color.g);
      data[index + 2] := ClampToByte(color.b);
      data[index + 3] := OpaqueAlpha;
    }
  }

  /**
   * renderGradientMesh for a canvasWidth-by-canvasHeight viewport buffer: a
   * uniform #1f1f1f fill when there are no points, otherwise the pixel loop
   * over the points scaled from the logical (width, height) canvas.
   */
  method RenderGradientMesh(canvasWidth: nat, canvasHeight: nat, colorPoints: seq<ControlPoint>, width: real, height: real)
    returns (data: array<byte>)
    requires width > 0.0 && height > 0.0
    ensures fresh(data)
    ensures data.Length == canvasWidth * canvasHeight * 4
    ensures |colorPoints| == 0 ==>
      forall i :: 0 <= i < data.Length ==> data[i] == PixelByte(EmptyBackground, i % 4)
    ensures |colorPoints| > 0 ==>
      var scaled := ScalePoints(colorPoints, width, height, canvasWidth as real, canvasHeight as real);
      forall i :: 0 <= i < data.Length ==> data[i] == ImageByte(canvasWidth, scaled, i)
  {
    if |colorPoints| == 0 {
      data := new byte[canvasWidth * canvasHeight * 4](i => PixelByte(EmptyBackground, i % 4));
      return;
    }
    var scaledPoints := ScalePoints(colorPoints, width, height, canvasWidth as real, canvasHeight as real);
    data := new byte[canvasWidth * canvasHeight * 4];
    Rasterize(data, canvasWidth, canvasHeight, scaledPoints);
  }

  // ---------------------------------------------------------------------------
  // Pointer mapping

  /** handleClick / handleTouchEnd: a viewport position scaled by width / innerWidth and height / innerHeight. */
  function ClickToCanvas(x: real, y: real, width: real, height: real, innerWidth: real, innerHeight: real)
    : (p: (real, real))
    requires innerWidth > 0.0 && innerHeight > 0.0
    ensures p.0 * innerWidth == x * width && p.1 * innerHeight == y * height
  {
    (x * (width / innerWidth), y * (height / innerHeight))
  }

  /** A click inside the viewport lands inside the logical canvas. */
  lemma ClickStaysOnCanvas(x: real, y: real, width: real, height: real, innerWidth: real, innerHeight: real)
    requires innerWidth > 0.0 && innerHeight > 0.0 && width >= 0.0 && height >= 0.0
    requires 0.0 <= x <= innerWidth && 0.0 <= y <= innerHeight
    ensures var p := ClickToCanvas(x, y, width, height, innerWidth, innerHeight);
      0.0 <= p.0 <= width && 0.0 <= p.1 <= height
  {
    ScaleWithin(x, innerWidth, width);
    ScaleWithin(y, innerHeight, height);
  }

  lemma ScaleWithin(v: real, extent: real, target: real)
    requires extent > 0.0 && target >= 0.0 && 0.0 <= v <= extent
    ensures 0.0 <= v * (target / extent) <= target
  {
    var f := target / extent;
    assert f >= 0.0;
    assert v * f <= extent * f;
    assert extent * f == target;
  }

  /** Scaling from one extent to another and back by the inverse ratio is the identity. */
  lemma ScaleThereAndBack(v: real, from: real, to: real)
    requires from > 0.0 && to > 0.0
    ensures v / from * to * (from / to) == v
  {
    var there := v / from * to;
    assert there * from == v * to;
    var f := from / to;
    assert f * to == from;
    assert there * f * to == v * to;
  }

  /**
   * With the preview buffer sized to the viewport, clicking where a point is
   * drawn maps back to that point's logical position.
   */
  lemma ClickInvertsRender(p: ControlPoint, width: real, height: real, innerWidth: real, innerHeight: real)
    requires width > 0.0 && height > 0.0 && innerWidth > 0.0 && innerHeight > 0.0
    ensures var drawn := ScalePoints([p], width, height, innerWidth, innerHeight)[0];
      ClickToCanvas(drawn.x, drawn.y, width, height, innerWidth, innerHeight) == (p.x, p.y)
  {
    var drawn := ScalePoints([p], width, height, innerWidth, innerHeight)[0];
    assert drawn.x == p.x / width * innerWidth && drawn.y == p.y / height * innerHeight;
    ScaleThereAndBack(p.x, width, innerWidth);
    ScaleThereAndBack(p.y, height, innerHeight);
    var back := ClickToCanvas(drawn.x, drawn.y, width, height, innerWidth, innerHeight);
    assert back.0 == drawn.x * (width / innerWidth) == p.x;
    assert back.1 == drawn.y * (height / innerHeight) == p.y;
  }
}
