/**
 * The inverse-distance-weighted colour field of src/utils/gradientMesh.js.
 *
 * Positions and weights are exact reals standing in for IEEE doubles. Every
 * call site uses the default power 2, so the weight 1 / pow(sqrt(d2), 2) is
 * 1 / d2 with d2 = dx*dx + dy*dy, and the test `distance < 0.001` is
 * `d2 < 0.000001`; no square root is needed.
 */
module GradientMesh {

  /** An RGB triple as the source's `{ r, g, b }` objects carry it. */
  datatype Rgb = Rgb(r: int, g: int, b: int)

  /** A point as the field reads it: a position and a colour. */
  datatype MeshPoint = MeshPoint(x: real, y: real, color: Rgb)

  /** A point as the application stores it: the field's data plus a stable id. */
  datatype ControlPoint = ControlPoint(id: int, x: real, y: real, color: Rgb)

  datatype Channel = Red | Green | Blue

  /** The colour returned for an empty point list. */
  const White := Rgb(255, 255, 255)

  /** Weight given to a point closer than 0.001 to the query. */
  const NearWeight: real := 1000000.0

  /** Square of the 0.001 near-distance threshold. */
  const NearDistanceSquared: real := 0.000001

  predicate IsChannel(v: int) { 0 <= v <= 255 }

  predicate IsColor(c: Rgb) { IsChannel(c.r) && IsChannel(c.g) && IsChannel(c.b) }

  function Component(c: Rgb, ch: Channel): int {
    match ch
    case Red => c.r
    case Green => c.g
    case Blue => c.b
  }

  /** JavaScript's Math.round: round half up. */
  function Round(v: real): (n: int)
    ensures n as real - 0.5 <= v < n as real + 0.5
  {
    (v + 0.5).Floor
  }

  lemma RoundInteger(n: int)
    ensures Round(n as real) == n
  {
  }

  /** Rounding a value that lies between two integers stays between them. */
  lemma RoundWithin(v: real, lo: int, hi: int)
    requires lo as real <= v <= hi as real
    ensures lo <= Round(v) <= hi
  {
  }

  function DistanceSquared(x: real, y: real, p: MeshPoint): (d2: real)
    ensures d2 >= 0.0
  {
    (x - p.x) * (x - p.x) + (y - p.y) * (y - p.y)
  }

  /** The inverse-square weight of point p seen from (x, y). */
  function Weight(x: real, y: real, p: MeshPoint): (w: real)
    ensures w > 0.0
    ensures DistanceSquared(x, y, p) < NearDistanceSquared ==> w == NearWeight
    ensures DistanceSquared(x, y, p) >= NearDistanceSquared ==> w * DistanceSquared(x, y, p) == 1.0
  {
    var d2 := DistanceSquared(x, y, p);
    if d2 < NearDistanceSquared then NearWeight else 1.0 / d2
  }

  /** Sum of the weights of the points, accumulated in list order. */
  function TotalWeight(x: real, y: real, points: seq<MeshPoint>): (t: real)
    ensures t >= 0.0
    ensures |points| > 0 ==> t > 0.0
  {
    if |points| == 0 then 0.0
    else TotalWeight(x, y, points[..|points| - 1]) + Weight(x, y, points[|points| - 1])
  }

  /**
   * Real multiplication behind a function name, so that the solver only sees
   * the product where a proof unfolds it.
   */
  function Product(a: real, b: real): real
  {
    a * b
  }

  /** Sum over the points of weight times the chosen colour channel. */
  function WeightedSum(x: real, y: real, points: seq<MeshPoint>, ch: Channel): real
  {
    if |points| == 0 then 0.0
    else
      var p := points[|points| - 1];
      WeightedSum(x, y, points[..|points| - 1], ch) + Product(Component(p.color, ch) as real, Weight(x, y, p))
  }

  /** One rounded channel of the normalised weighted average. */
  function Normalised(x: real, y: real, points: seq<MeshPoint>, ch: Channel): int
    requires |points| > 0
  {
    Round(WeightedSum(x, y, points, ch) / TotalWeight(x, y, points))
  }

  /** The colour the field takes at (x, y): white for no points, else the rounded weighted average. */
  function Field(x: real, y: real, points: seq<MeshPoint>): Rgb
  {
    if |points| == 0 then White
    else Rgb(Normalised(x, y, points, Red), Normalised(x, y, points, Green), Normalised(x, y, points, Blue))
  }

  /**
   * calculateColorAtPoint with power 2: accumulates the total weight and the
   * three weighted channel sums in one pass, then normalises and rounds.
   */
  method CalculateColorAtPoint(x: real, y: real, points: seq<MeshPoint>) returns (c: Rgb)
    ensures c == Field(x, y, points)
  {
    if |points| == 0 {
      return White;
    }
    var totalWeight, r, g, b := 0.0, 0.0, 0.0, 0.0;
    for i := 0 to |points|
      invariant totalWeight == TotalWeight(x, y, points[..i])
      invariant r == WeightedSum(x, y, points[..i], Red)
      invariant g == WeightedSum(x, y, points[..i], Green)
      invariant b == WeightedSum(x, y, points[..i], Blue)
    {
      var point := points[i];
      var weight := Weight(x, y, point);
      assert points[..i + 1][..i] == points[..i];
      totalWeight := totalWeight + weight;
      r := r + Product(point.color.r as real, weight);
      g := g + Product(point.color.g as real, weight);
      b := b + Product(point.color.b as real, weight);
    }
    assert points[..|points|] == points;
    if totalWeight > 0.0 {
      c := Rgb(Round(r / totalWeight), Round(g / totalWeight), Round(b / totalWeight));
    } else {
      assert false;
      c := White;
    }
  }

  // ---------------------------------------------------------------------------
  // Properties of the field

  /** With no points the field is white at every location. */
  lemma EmptyFieldIsWhite(x: real, y: real)
    ensures Field(x, y, []) == White
  {
  }

  /** With exactly one point the weight cancels: the field is that point's colour everywhere. */
  lemma SinglePointInvariance(x: real, y: real, p: MeshPoint)
    ensures Field(x, y, [p]) == p.color
  {
    var w := Weight(x, y, p);
    assert [p][..0] == [];
    forall ch: Channel
      ensures Normalised(x, y, [p], ch) == Component(p.color, ch)
    {
      var c := Component(p.color, ch) as real;
      assert WeightedSum(x, y, [p], ch) == c * w;
      assert TotalWeight(x, y, [p]) == w;
      assert c * w / w == c;
      RoundInteger(Component(p.color, ch));
    }
    assert Normalised(x, y, [p], Red) == p.color.r;
    assert Normalised(x, y, [p], Green) == p.color.g;
    assert Normalised(x, y, [p], Blue) == p.color.b;
  }

  /** Scaling both sides of a comparison by a positive weight keeps it. */
  lemma ScaleByWeight(a: real, b: real, w: real)
    requires a <= b && w > 0.0
    ensures a * w <= b * w
  {
  }

  /** A quotient by a positive total lies between the bounds its numerator was scaled from. */
  lemma QuotientBounds(s: real, t: real, lo: real, hi: real)
    requires t > 0.0 && Product(lo, t) <= s <= Product(hi, t)
    ensures lo <= s / t <= hi
  {
    var q := s / t;
    assert q * t == s;
    if q < lo { ScaleByWeight(q, lo, t); }
    if q > hi { ScaleByWeight(hi, q, t); }
  }

  /** Adding one weighted value keeps the running sum between the scaled bounds. */
  lemma AccumulateBounds(lo: real, hi: real, t: real, sum: real, c: real, w: real)
    requires Product(lo, t) <= sum <= Product(hi, t) && lo <= c <= hi && w > 0.0
    ensures Product(lo, t + w) <= sum + Product(c, w) <= Product(hi, t + w)
  {
    ScaleByWeight(lo, c, w);
    ScaleByWeight(c, hi, w);
  }

  /** The weighted sum of a channel lies between lo and hi times the total weight. */
  lemma {:induction false} WeightedSumBounds(x: real, y: real, points: seq<MeshPoint>, ch: Channel, lo: real, hi: real)
    requires forall i :: 0 <= i < |points| ==> lo <= Component(points[i].color, ch) as real <= hi
    ensures Product(lo, TotalWeight(x, y, points)) <= WeightedSum(x, y, points, ch) <= Product(hi, TotalWeight(x, y, points))
  {
    if |points| > 0 {
      var n := |points| - 1;
      var prefix := points[..n];
      WeightedSumBounds(x, y, prefix, ch, lo, hi);
      var p := points[n];
      AccumulateBounds(lo, hi, TotalWeight(x, y, prefix), WeightedSum(x, y, prefix, ch),
                       Component(p.color, ch) as real, Weight(x, y, p));
    }
  }

  /**
   * Every output channel lies between any bounds that all the points' values
   * of that channel respect; in particular between their minimum and maximum.
   */
  lemma ChannelWithinBounds(x: real, y: real, points: seq<MeshPoint>, ch: Channel, lo: int, hi: int)
    requires |points| > 0
    requires forall i :: 0 <= i < |points| ==> lo <= Component(points[i].color, ch) <= hi
    ensures lo <= Component(Field(x, y, points), ch) <= hi
  {
    var t := TotalWeight(x, y, points);
    var s := WeightedSum(x, y, points, ch);
    WeightedSumBounds(x, y, points, ch, lo as real, hi as real);
    QuotientBounds(s, t, lo as real, hi as real);
    RoundWithin(s / t, lo, hi);
    assert Component(Field(x, y, points), ch) == Normalised(x, y, points, ch);
  }

  /** If every point has channels in [0, 255], so does the field everywhere. */
  lemma FieldIsColor(x: real, y: real, points: seq<MeshPoint>)
    requires forall i :: 0 <= i < |points| ==> IsColor(points[i].color)
    ensures IsColor(Field(x, y, points))
  {
    if |points| > 0 {
      ChannelWithinBounds(x, y, points, Red, 0, 255);
      ChannelWithinBounds(x, y, points, Green, 0, 255);
      ChannelWithinBounds(x, y, points, Blue, 0, 255);
    }
  }

  /** Two points of equal weight give the rounded per-channel average. */
  lemma EquidistantAverage(x: real, y: real, p1: MeshPoint, p2: MeshPoint)
    requires DistanceSquared(x, y, p1) == DistanceSquared(x, y, p2)
    ensures Field(x, y, [p1, p2]) ==
      Rgb(Round((p1.color.r + p2.color.r) as real / 2.0),
          Round((p1.color.g + p2.color.g) as real / 2.0),
          Round((p1.color.b + p2.color.b) as real / 2.0))
  {
    var w := Weight(x, y, p1);
    assert Weight(x, y, p2) == w;
    var s := [p1, p2];
    assert s[..1] == [p1];
    assert [p1][..0] == [];
    assert TotalWeight(x, y, [p1]) == w;
    assert TotalWeight(x, y, s) == w + w;
    forall ch: Channel
      ensures Normalised(x, y, s, ch) == Round((Component(p1.color, ch) + Component(p2.color, ch)) as real / 2.0)
    {
      var c1 := Component(p1.color, ch) as real;
      var c2 := Component(p2.color, ch) as real;
      assert WeightedSum(x, y, [p1], ch) == c1 * w;
      assert WeightedSum(x, y, s, ch) == c1 * w + c2 * w;
      assert (c1 * w + c2 * w) / (w + w) == (c1 + c2) / 2.0;
    }
    assert Normalised(x, y, s, Red) == Round((p1.color.r + p2.color.r) as real / 2.0);
    assert Normalised(x, y, s, Green) == Round((p1.color.g + p2.color.g) as real / 2.0);
    assert Normalised(x, y, s, Blue) == Round((p1.color.b + p2.color.b) as real / 2.0);
  }

  /** Red at (0,0) and blue at (100,0), sampled at the midpoint (50,0), give (128,0,128). */
  lemma MidpointOfRedAndBlue()
    ensures Field(50.0, 0.0, [MeshPoint(0.0, 0.0, Rgb(255, 0, 0)), MeshPoint(100.0, 0.0, Rgb(0, 0, 255))])
            == Rgb(128, 0, 128)
  {
    var p1 := MeshPoint(0.0, 0.0, Rgb(255, 0, 0));
    var p2 := MeshPoint(100.0, 0.0, Rgb(0, 0, 255));
    assert DistanceSquared(50.0, 0.0, p1) == 2500.0;
    assert DistanceSquared(50.0, 0.0, p2) == 2500.0;
    EquidistantAverage(50.0, 0.0, p1, p2);
    assert Round(255.0 / 2.0) == 128;
    assert Round(0.0 / 2.0) == 0;
  }
}
