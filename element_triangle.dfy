/**
 * Triangle geometry and its 4-point quadrature rule (element/triangle.hpp,
 * Triangle<0>).  The vertices are nodes; the area, centroid and barycentric
 * map follow the constructor and accessors of the source.
 */
module ElementTriangle {
  import opened Geometry
  import opened Wrappers

  datatype Triangle = Triangle(id: nat, a: Node, b: Node, c: Node) {
    /** |(b - a) x (c - a)| / 2, as GetMeasure computes it. */
    function Measure(): real {
      Abs(Cross(a.Pos(), b.Pos(), c.Pos())) * 0.5
    }
    function Center(): Point {
      a.Pos().Add(b.Pos()).Add(c.Pos()).Scale(1.0 / 3.0)
    }
  }

  datatype TriangleError = OutOfRange

  /** The area is the same whichever orientation the vertices are given in. */
  lemma MeasureOrientationFree(t: Triangle)
    ensures t.Measure() >= 0.0
    ensures Triangle(t.id, t.c, t.b, t.a).Measure() == t.Measure()
  {
    CrossSwapFirstThird(t.a.Pos(), t.b.Pos(), t.c.Pos());
  }

  /** The centroid is the vertex average: 3 * centre == a + b + c. */
  lemma CenterIsAverage(t: Triangle)
    ensures t.Center().x * 3.0 == t.a.x + t.b.x + t.c.x
    ensures t.Center().y * 3.0 == t.a.y + t.b.y + t.c.y
  {
  }

  /** The unit right triangle of the unit test has area one half. */
  lemma UnitTriangleMeasure()
    ensures Triangle(0, Node(0, 0.0, 0.0), Node(1, 1.0, 0.0), Node(2, 0.0, 1.0)).Measure() == 0.5
  {
  }

  /** GetNode(i): vertex A, B or C, and out_of_range for any other index. */
  function GetNode(t: Triangle, i: int): (r: Result<Node, TriangleError>)
    ensures r.Ok? <==> 0 <= i <= 2
    ensures i == 0 ==> r == Ok(t.a)
    ensures i == 1 ==> r == Ok(t.b)
    ensures i == 2 ==> r == Ok(t.c)
  {
    match i
    case 0 => Ok(t.a)
    case 1 => Ok(t.b)
    case 2 => Ok(t.c)
    case _ => Err(OutOfRange)
  }

  /**
   * GetGlobalXY(alpha, beta, gamma): the transform matrix
   * [1 1 1; ax bx cx; ay by cy] applied to (alpha, beta, gamma); rows 1 and 2
   * of the product are the point, row 0 (the weight sum) is dropped.
   */
  function GetGlobalXY(t: Triangle, alpha: real, beta: real, gamma: real): Point {
    Point(alpha * t.a.x + beta * t.b.x + gamma * t.c.x,
          alpha * t.a.y + beta * t.b.y + gamma * t.c.y)
  }

  /** The barycentric map sends the unit vectors to the vertices and equal weights to the centroid. */
  lemma GlobalXYReproducesVertices(t: Triangle)
    ensures GetGlobalXY(t, 1.0, 0.0, 0.0) == t.a.Pos()
    ensures GetGlobalXY(t, 0.0, 1.0, 0.0) == t.b.Pos()
    ensures GetGlobalXY(t, 0.0, 0.0, 1.0) == t.c.Pos()
    ensures GetGlobalXY(t, 1.0 / 3.0, 1.0 / 3.0, 1.0 / 3.0) == t.Center()
  {
  }

  // The 4-point rule, exactly as its decimal literals are written.
  const LocalA: seq<real> := [0.3333333333333333, 0.6, 0.2, 0.2]
  const LocalB: seq<real> := [0.3333333333333333, 0.2, 0.2, 0.6]
  const LocalC: seq<real> := [0.3333333333333333, 0.2, 0.6, 0.2]
  const Weights: seq<real> := [-0.5624999999999998, 0.5208333333333332, 0.5208333333333332, 0.5208333333333332]

  function QuadPoint(t: Triangle, i: nat): Point
    requires i < 4
  {
    GetGlobalXY(t, LocalA[i], LocalB[i], LocalC[i])
  }

  /** Sum over the first k quadrature points of f(p_i) * w_i. */
  function QuadSum(t: Triangle, f: Point -> real, k: nat): real
    requires k <= 4
  {
    if k == 0 then 0.0 else QuadSum(t, f, k - 1) + f(QuadPoint(t, k - 1)) * Weights[k - 1]
  }

  /**
   * Integrate(f, value): adds f(p_i) * w_i to the accumulator for the four
   * points, then multiplies the whole accumulator, prior content included,
   * by the area.
   */
  method Integrate(t: Triangle, f: Point -> real, value: real) returns (result: real)
    ensures result == (value + QuadSum(t, f, 4)) * t.Measure()
  {
    result := value;
    var i := 0;
    while i < 4
      invariant 0 <= i <= 4
      invariant result == value + QuadSum(t, f, i)
    {
      result := result + f(QuadPoint(t, i)) * Weights[i];
      i := i + 1;
    }
    result := result * t.Measure();
  }

  /** The rule's weights, as written, sum to 1 - 2e-16 rather than to 1. */
  lemma WeightsSum()
    ensures Weights[0] + Weights[1] + Weights[2] + Weights[3] == 0.9999999999999998
  {
  }

  /** A constant integrand c, from an empty accumulator, gives c * area * (sum of weights). */
  lemma IntegrateConstant(t: Triangle, c: real)
    ensures (0.0 + QuadSum(t, _ => c, 4)) * t.Measure() == c * 0.9999999999999998 * t.Measure()
  {
    var f: Point -> real := _ => c;
    assert QuadSum(t, f, 1) == c * Weights[0];
    assert QuadSum(t, f, 2) == c * (Weights[0] + Weights[1]);
    assert QuadSum(t, f, 3) == c * (Weights[0] + Weights[1] + Weights[2]);
    assert QuadSum(t, f, 4) == c * (Weights[0] + Weights[1] + Weights[2] + Weights[3]);
    WeightsSum();
  }

  function WeightPrefix(k: nat): real
    requires k <= 4
  {
    if k == 0 then 0.0 else WeightPrefix(k - 1) + Weights[k - 1]
  }

  /** Shifting the integrand by a constant c shifts the quadrature sum by c times the weights. */
  lemma {:induction false} QuadSumShift(t: Triangle, f: Point -> real, g: Point -> real, c: real, k: nat)
    requires k <= 4
    requires forall p :: g(p) == f(p) - c
    ensures QuadSum(t, g, k) == QuadSum(t, f, k) - c * WeightPrefix(k)
  {
    if k > 0 {
      QuadSumShift(t, f, g, c, k - 1);
    }
  }

  /** n! for n >= 0, and 1 for negative n (the loop does not run). */
  function Fact(p: int): nat {
    if p <= 0 then 1 else p * Fact(p - 1)
  }

  const IntMax: int := 0x7FFF_FFFF

  /**
   * Factorial(p) with the source's `int` accumulator.  Signed overflow is
   * undefined behaviour in C++, so callers must keep p! within 32 bits: p <= 12.
   */
  method Factorial(p: int) returns (r: real)
    requires p <= 12
    ensures r == Fact(p) as real
  {
    var fac := 1;
    var i := 1;
    while i <= p
      invariant 1 <= i
      invariant p >= 0 ==> i <= p + 1
      invariant p < 1 ==> i == 1
      invariant fac == Fact(i - 1)
      invariant fac <= IntMax
    {
      FactBound(i);
      fac := fac * i;
      i := i + 1;
    }
    r := fac as real;
  }

  /** Every product the loop forms stays within a 32-bit signed int. */
  lemma FactBound(i: int)
    requires 1 <= i <= 12
    ensures Fact(i) <= IntMax
  {
    assert Fact(12) == 479001600;
    FactMonotone(i, 12);
  }

  lemma {:induction false} FactMonotone(i: int, j: int)
    requires 0 <= i <= j
    ensures Fact(i) <= Fact(j)
  {
    if i < j {
      FactMonotone(i, j - 1);
      assert Fact(j) == j * Fact(j - 1);
    }
  }

  function Max3(a: real, b: real, c: real): real {
    var ab := if a >= b then a else b;
    if ab >= c then ab else c
  }

  function Min3(a: real, b: real, c: real): real {
    var ab := if a <= b then a else b;
    if ab <= c then ab else c
  }

  /** GetDelta: the inverse of half the extent of three coordinates. */
  function GetDelta(a: real, b: real, c: real): (d: real)
    requires Max3(a, b, c) > Min3(a, b, c)
    ensures d > 0.0
    ensures d * (Max3(a, b, c) - Min3(a, b, c)) == 2.0
  {
    1.0 / ((Max3(a, b, c) - Min3(a, b, c)) * 0.5)
  }

  /** A triangle of positive area has a positive extent in x and in y, so both GetDelta calls are defined. */
  lemma PositiveAreaHasExtent(t: Triangle)
    requires t.Measure() > 0.0
    ensures Max3(t.a.x, t.b.x, t.c.x) > Min3(t.a.x, t.b.x, t.c.x)
    ensures Max3(t.a.y, t.b.y, t.c.y) > Min3(t.a.y, t.b.y, t.c.y)
  {
    FlatHasNoArea(t.a.Pos(), t.b.Pos(), t.c.Pos());
  }

  /** Three points on one vertical or one horizontal line span no area. */
  lemma FlatHasNoArea(a: Point, b: Point, c: Point)
    ensures Max3(a.x, b.x, c.x) <= Min3(a.x, b.x, c.x) ==> Cross(a, b, c) == 0.0
    ensures Max3(a.y, b.y, c.y) <= Min3(a.y, b.y, c.y) ==> Cross(a, b, c) == 0.0
  {
    if Max3(a.y, b.y, c.y) <= Min3(a.y, b.y, c.y) {
      assert b.y - a.y == 0.0 && c.y - a.y == 0.0;
    }
    if Max3(a.x, b.x, c.x) <= Min3(a.x, b.x, c.x) {
      assert b.x - a.x == 0.0 && c.x - a.x == 0.0;
    }
  }
}
