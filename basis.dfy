/**
 * The polynomial basis of a cell (element/triangle.hpp, Triangle<1..3>, and
 * mesh/basis.hpp, Basis<1..3>).  With X = (x - xc) * DxInv and
 * Y = (y - yc) * DyInv, basis k is the monomial X^px * Y^py of exponents
 * (px, py) = (1,0), (0,1), (2,0), (1,1), (0,2), (3,0), (2,1), (1,2), (0,3)
 * minus its stored cell average (none for the two linear ones).  The source
 * writes every derivative F_k_i_j and every normal derivative F_k_N_m out by
 * hand; here each is checked against the general derivative of the monomial.
 */
module Basis {
  import opened Geometry
  import opened ElementTriangle

  /** Centre, inverse half-extents and the cell averages of the monomials of order 2 and 3. */
  datatype BasisData = BasisData(center: Point, dxInv: real, dyInv: real,
                                 xx: real, xy: real, yy: real,
                                 xxx: real, xxy: real, xyy: real, yyy: real)

  /** (Order + 1)(Order + 2)/2 - 1: the number of basis functions up to that order. */
  function CountCoefficients(order: nat): (n: nat)
    ensures order == 1 ==> n == 2
    ensures order == 2 ==> n == 5
    ensures order == 3 ==> n == 9
  {
    (order + 1) * (order + 2) / 2 - 1
  }

  /** Going up one order adds order + 2 basis functions, one per monomial of the new order. */
  lemma CountCoefficientsStep(order: nat)
    ensures CountCoefficients(order + 1) == CountCoefficients(order) + order + 2
  {
    TriangleNumber(order + 1);
    TriangleNumber(order + 2);
  }

  function Tri(n: nat): nat { if n == 0 then 0 else n + Tri(n - 1) }

  lemma {:induction false} TriangleNumber(n: nat)
    ensures n * (n + 1) == 2 * Tri(n)
  {
    if n > 0 {
      TriangleNumber(n - 1);
      assert n * (n + 1) == (n - 1) * n + 2 * n;
    }
  }

  function Sq(r: real): real { r * r }
  function Cube(r: real): real { r * r * r }

  function Pow(r: real, n: nat): real {
    if n == 0 then 1.0 else r * Pow(r, n - 1)
  }

  /** n (n - 1) ... (n - i + 1): the coefficient the i-th derivative of t^n brings down. */
  function Falling(n: nat, i: nat): nat {
    if i == 0 then 1 else if n == 0 then 0 else n * Falling(n - 1, i - 1)
  }

  function Binom(m: nat, i: nat): nat {
    if i == 0 || i == m then 1 else if i > m then 0 else Binom(m - 1, i - 1) + Binom(m - 1, i)
  }

  /** Exponents of X and of Y in basis k. */
  function PX(k: nat): nat requires k < 9 { [1, 0, 2, 1, 0, 3, 2, 1, 0][k] }
  function PY(k: nat): nat requires k < 9 { [0, 1, 0, 1, 2, 0, 1, 2, 3][k] }
  function Order(k: nat): nat requires k < 9 { PX(k) + PY(k) }

  /** F_0_0_0 and F_1_0_0: the centred, scaled coordinates. */
  function X(b: BasisData, p: Point): real { (p.x - b.center.x) * b.dxInv }
  function Y(b: BasisData, p: Point): real { (p.y - b.center.y) * b.dyInv }

  function Monomial(b: BasisData, k: nat, p: Point): real
    requires k < 9
  {
    Pow(X(b, p), PX(k)) * Pow(Y(b, p), PY(k))
  }

  /** The stored average subtracted from basis k (XX(), XY(), ...; none for the linear ones). */
  function Average(b: BasisData, k: nat): real
    requires k < 9
  {
    match k
    case 2 => b.xx
    case 3 => b.xy
    case 4 => b.yy
    case 5 => b.xxx
    case 6 => b.xxy
    case 7 => b.xyy
    case 8 => b.yyy
    case _ => 0.0
  }

  /** i-th derivative of t^e when t has slope s: the power rule with the chain rule. */
  function PowerDerivative(t: real, s: real, e: nat, i: nat): real {
    if i > e then 0.0 else (Falling(e, i) as real) * Pow(t, e - i) * Pow(s, i)
  }

  /**
   * Reference definition: d^i/dx^i d^j/dy^j of (Monomial - Average), with
   * dX/dx = DxInv and dY/dy = DyInv.
   */
  function RefDerivative(b: BasisData, k: nat, i: nat, j: nat, p: Point): real
    requires k < 9
  {
    RefAt(b, X(b, p), Y(b, p), k, i, j)
  }

  /** RefDerivative at the scaled coordinates (x, y) = (X, Y). */
  function RefAt(b: BasisData, x: real, y: real, k: nat, i: nat, j: nat): real
    requires k < 9
  {
    var term := PowerDerivative(x, b.dxInv, PX(k), i) * PowerDerivative(y, b.dyInv, PY(k), j);
    if i == 0 && j == 0 then term - Average(b, k) else term
  }

  /**
   * F_k_i_j as the source writes it, case by case; every derivative the source
   * does not define is 0.
   */
  function SourceDerivative(b: BasisData, k: nat, i: nat, j: nat, p: Point): real {
    SourceAt(b, X(b, p), Y(b, p), k, i, j)
  }

  /** SourceDerivative at the scaled coordinates (x, y) = (X, Y). */
  function SourceAt(b: BasisData, x: real, y: real, k: nat, i: nat, j: nat): real {
    match (k, i, j)
    case (0, 0, 0) => x
    case (0, 1, 0) => b.dxInv
    case (1, 0, 0) => y
    case (1, 0, 1) => b.dyInv
    case (2, 0, 0) => Sq(x) - b.xx
    case (2, 1, 0) => x * b.dxInv * 2.0
    case (2, 2, 0) => Sq(b.dxInv) * 2.0
    case (3, 0, 0) => x * y - b.xy
    case (3, 1, 0) => b.dxInv * y
    case (3, 0, 1) => x * b.dyInv
    case (3, 1, 1) => b.dxInv * b.dyInv
    case (4, 0, 0) => Sq(y) - b.yy
    case (4, 0, 1) => y * b.dyInv * 2.0
    case (4, 0, 2) => Sq(b.dyInv) * 2.0
    case (5, 0, 0) => Cube(x) - b.xxx
    case (5, 1, 0) => Sq(x) * b.dxInv * 3.0
    case (5, 2, 0) => x * Sq(b.dxInv) * 6.0
    case (5, 3, 0) => Cube(b.dxInv) * 6.0
    case (6, 0, 0) => Sq(x) * y - b.xxy
    case (6, 1, 0) => x * y * b.dxInv * 2.0
    case (6, 2, 0) => y * Sq(b.dxInv) * 2.0
    case (6, 0, 1) => Sq(x) * b.dyInv
    case (6, 1, 1) => x * b.dxInv * b.dyInv * 2.0
    case (6, 2, 1) => Sq(b.dxInv) * b.dyInv * 2.0
    case (7, 0, 0) => x * Sq(y) - b.xyy
    case (7, 1, 0) => Sq(y) * b.dxInv
    case (7, 0, 1) => x * y * b.dyInv * 2.0
    case (7, 0, 2) => x * Sq(b.dyInv) * 2.0
    case (7, 1, 1) => y * b.dxInv * b.dyInv * 2.0
    case (7, 1, 2) => b.dxInv * Sq(b.dyInv) * 2.0
    case (8, 0, 0) => Cube(y) - b.yyy
    case (8, 0, 1) => Sq(y) * b.dyInv * 3.0
    case (8, 0, 2) => y * Sq(b.dyInv) * 6.0
    case (8, 0, 3) => Cube(b.dyInv) * 6.0
    case _ => 0.0
  }

  /** The power rule for the exponents the basis uses, in closed form. */
  lemma PowerDerivativeTable(t: real, s: real)
    ensures PowerDerivative(t, s, 0, 0) == 1.0
    ensures PowerDerivative(t, s, 1, 0) == t && PowerDerivative(t, s, 1, 1) == s
    ensures PowerDerivative(t, s, 2, 0) == Sq(t) && PowerDerivative(t, s, 2, 1) == 2.0 * t * s
    ensures PowerDerivative(t, s, 2, 2) == 2.0 * Sq(s)
    ensures PowerDerivative(t, s, 3, 0) == Cube(t) && PowerDerivative(t, s, 3, 1) == 3.0 * Sq(t) * s
    ensures PowerDerivative(t, s, 3, 2) == 6.0 * t * Sq(s) && PowerDerivative(t, s, 3, 3) == 6.0 * Cube(s)
  {
    assert Falling(3, 2) == 6 && Falling(3, 3) == 6 && Falling(2, 2) == 2;
  }

  /** Every hand-written F_k_i_j is the (i, j)-th derivative of basis k. */
  lemma SourceDerivativeCorrect(b: BasisData, k: nat, i: nat, j: nat, p: Point)
    requires k < 9
    ensures SourceDerivative(b, k, i, j, p) == RefDerivative(b, k, i, j, p)
  {
    SourceAtCorrect(b, X(b, p), Y(b, p), k, i, j);
  }

  lemma SourceAtCorrect(b: BasisData, x: real, y: real, k: nat, i: nat, j: nat)
    requires k < 9
    ensures SourceAt(b, x, y, k, i, j) == RefAt(b, x, y, k, i, j)
  {
    if i > PX(k) || j > PY(k) {
      assert PowerDerivative(x, b.dxInv, PX(k), i) == 0.0 || PowerDerivative(y, b.dyInv, PY(k), j) == 0.0;
      assert SourceAt(b, x, y, k, i, j) == 0.0;
    } else {
      match k
      case 0 => DerivativeOf0(b, x, y, i, j);
      case 1 => DerivativeOf1(b, x, y, i, j);
      case 2 => DerivativeOf2(b, x, y, i, j);
      case 3 => DerivativeOf3(b, x, y, i, j);
      case 4 => DerivativeOf4(b, x, y, i, j);
      case 5 => DerivativeOf5(b, x, y, i, j);
      case 6 => DerivativeOf6(b, x, y, i, j);
      case 7 => DerivativeOf7(b, x, y, i, j);
      case 8 => DerivativeOf8(b, x, y, i, j);
    }
  }

  lemma DerivativeOf0(b: BasisData, x: real, y: real, i: nat, j: nat)
    requires i <= 1 && j <= 0
    ensures SourceAt(b, x, y, 0, i, j) == RefAt(b, x, y, 0, i, j)
  {
    PowerDerivativeTable(x, b.dxInv);
    PowerDerivativeTable(y, b.dyInv);
  }

  lemma DerivativeOf1(b: BasisData, x: real, y: real, i: nat, j: nat)
    requires i <= 0 && j <= 1
    ensures SourceAt(b, x, y, 1, i, j) == RefAt(b, x, y, 1, i, j)
  {
    PowerDerivativeTable(x, b.dxInv);
    PowerDerivativeTable(y, b.dyInv);
  }

  lemma DerivativeOf2(b: BasisData, x: real, y: real, i: nat, j: nat)
    requires i <= 2 && j <= 0
    ensures SourceAt(b, x, y, 2, i, j) == RefAt(b, x, y, 2, i, j)
  {
    PowerDerivativeTable(x, b.dxInv);
    PowerDerivativeTable(y, b.dyInv);
  }

  lemma DerivativeOf3(b: BasisData, x: real, y: real, i: nat, j: nat)
    requires i <= 1 && j <= 1
    ensures SourceAt(b, x, y, 3, i, j) == RefAt(b, x, y, 3, i, j)
  {
    PowerDerivativeTable(x, b.dxInv);
    PowerDerivativeTable(y, b.dyInv);
  }

  lemma DerivativeOf4(b: BasisData, x: real, y: real, i: nat, j: nat)
    requires i <= 0 && j <= 2
    ensures SourceAt(b, x, y, 4, i, j) == RefAt(b, x, y, 4, i, j)
  {
    PowerDerivativeTable(x, b.dxInv);
    PowerDerivativeTable(y, b.dyInv);
  }

  lemma DerivativeOf5(b: BasisData, x: real, y: real, i: nat, j: nat)
    requires i <= 3 && j <= 0
    ensures SourceAt(b, x, y, 5, i, j) == RefAt(b, x, y, 5, i, j)
  {
    PowerDerivativeTable(x, b.dxInv);
    PowerDerivativeTable(y, b.dyInv);
  }

  lemma DerivativeOf6(b: BasisData, x: real, y: real, i: nat, j: nat)
    requires i <= 2 && j <= 1
    ensures SourceAt(b, x, y, 6, i, j) == RefAt(b, x, y, 6, i, j)
  {
    PowerDerivativeTable(x, b.dxInv);
    PowerDerivativeTable(y, b.dyInv);
  }

  lemma DerivativeOf7(b: BasisData, x: real, y: real, i: nat, j: nat)
    requires i <= 1 && j <= 2
    ensures SourceAt(b, x, y, 7, i, j) == RefAt(b, x, y, 7, i, j)
  {
    PowerDerivativeTable(x, b.dxInv);
    PowerDerivativeTable(y, b.dyInv);
  }

  lemma DerivativeOf8(b: BasisData, x: real, y: real, i: nat, j: nat)
    requires i <= 0 && j <= 3
    ensures SourceAt(b, x, y, 8, i, j) == RefAt(b, x, y, 8, i, j)
  {
    PowerDerivativeTable(x, b.dxInv);
    PowerDerivativeTable(y, b.dyInv);
  }

  /**
   * F_k_N_m as the source writes it: the m-th derivative of basis k along the
   * unit normal n, one line per (k, m); the table pads the orders a basis does
   * not reach with 0.
   */
  function SourceNormal(b: BasisData, k: nat, m: nat, p: Point, n: Point): real {
    SourceNormalAt(b, X(b, p), Y(b, p), k, m, n)
  }

  /** SourceNormal at the scaled coordinates (x, y) = (X, Y). */
  function SourceNormalAt(b: BasisData, x: real, y: real, k: nat, m: nat, n: Point): real {
    var n0 := n.x;
    var n1 := n.y;
    match (k, m)
    case (0, 1) => SourceAt(b, x, y, 0, 1, 0) * n0
    case (1, 1) => SourceAt(b, x, y, 1, 0, 1) * n1
    case (2, 1) => SourceAt(b, x, y, 2, 1, 0) * n0
    case (2, 2) => SourceAt(b, x, y, 2, 2, 0) * n0 * n0
    case (3, 1) => SourceAt(b, x, y, 3, 1, 0) * n0 + SourceAt(b, x, y, 3, 0, 1) * n1
    case (3, 2) => SourceAt(b, x, y, 3, 1, 1) * n0 * n1 * 2.0
    case (4, 1) => SourceAt(b, x, y, 4, 0, 1) * n1
    case (4, 2) => SourceAt(b, x, y, 4, 0, 2) * n1 * n1
    case (5, 1) => SourceAt(b, x, y, 5, 1, 0) * n0
    case (5, 2) => SourceAt(b, x, y, 5, 2, 0) * Sq(n0)
    case (5, 3) => SourceAt(b, x, y, 5, 3, 0) * Cube(n0)
    case (6, 1) => SourceAt(b, x, y, 6, 1, 0) * n0 + SourceAt(b, x, y, 6, 0, 1) * n1
    case (6, 2) => SourceAt(b, x, y, 6, 2, 0) * Sq(n0) + SourceAt(b, x, y, 6, 1, 1) * n0 * n1 * 2.0
    case (6, 3) => SourceAt(b, x, y, 6, 2, 1) * Sq(n0) * n1 * 3.0
    case (7, 1) => SourceAt(b, x, y, 7, 1, 0) * n0 + SourceAt(b, x, y, 7, 0, 1) * n1
    case (7, 2) => SourceAt(b, x, y, 7, 1, 1) * n0 * n1 * 2.0 + SourceAt(b, x, y, 7, 0, 2) * Sq(n1)
    case (7, 3) => SourceAt(b, x, y, 7, 1, 2) * n0 * Sq(n1) * 3.0
    case (8, 1) => SourceAt(b, x, y, 8, 0, 1) * n1
    case (8, 2) => SourceAt(b, x, y, 8, 0, 2) * Sq(n1)
    case (8, 3) => SourceAt(b, x, y, 8, 0, 3) * Cube(n1)
    case _ => 0.0
  }

  /** Sum over l <= upTo of C(m, l) n0^l n1^(m-l) d^l/dx^l d^(m-l)/dy^(m-l) of basis k. */
  function NormalSum(b: BasisData, x: real, y: real, k: nat, m: nat, upTo: nat, n: Point): real
    requires k < 9 && upTo <= m
  {
    var term := (Binom(m, upTo) as real) * Pow(n.x, upTo) * Pow(n.y, m - upTo)
                * RefAt(b, x, y, k, upTo, m - upTo);
    if upTo == 0 then term else NormalSum(b, x, y, k, m, upTo - 1, n) + term
  }

  /** Reference definition of the m-th directional derivative along n (the multinomial expansion). */
  function RefNormal(b: BasisData, k: nat, m: nat, p: Point, n: Point): real
    requires k < 9
  {
    RefNormalAt(b, X(b, p), Y(b, p), k, m, n)
  }

  /** RefNormal at the scaled coordinates (x, y) = (X, Y). */
  function RefNormalAt(b: BasisData, x: real, y: real, k: nat, m: nat, n: Point): real
    requires k < 9
  {
    NormalSum(b, x, y, k, m, m, n)
  }

  lemma PowSmall(r: real)
    ensures Pow(r, 1) == r && Pow(r, 2) == Sq(r) && Pow(r, 3) == Cube(r)
  {
    assert Pow(r, 1) == r * Pow(r, 0);
    assert Pow(r, 2) == r * Pow(r, 1);
    assert Pow(r, 3) == r * Pow(r, 2);
  }

  lemma RefNormalFirst(b: BasisData, x: real, y: real, k: nat, n: Point)
    requires k < 9
    ensures RefNormalAt(b, x, y, k, 1, n)
            == n.y * RefAt(b, x, y, k, 0, 1) + n.x * RefAt(b, x, y, k, 1, 0)
  {
    PowSmall(n.x);
    PowSmall(n.y);
    assert NormalSum(b, x, y, k, 1, 0, n) == n.y * RefAt(b, x, y, k, 0, 1);
  }

  lemma RefNormalSecond(b: BasisData, x: real, y: real, k: nat, n: Point)
    requires k < 9
    ensures RefNormalAt(b, x, y, k, 2, n)
            == Sq(n.y) * RefAt(b, x, y, k, 0, 2) + 2.0 * n.x * n.y * RefAt(b, x, y, k, 1, 1)
               + Sq(n.x) * RefAt(b, x, y, k, 2, 0)
  {
    PowSmall(n.x);
    PowSmall(n.y);
    assert Binom(2, 1) == 2;
    assert NormalSum(b, x, y, k, 2, 0, n) == Sq(n.y) * RefAt(b, x, y, k, 0, 2);
    assert NormalSum(b, x, y, k, 2, 1, n) == NormalSum(b, x, y, k, 2, 0, n) + 2.0 * n.x * n.y * RefAt(b, x, y, k, 1, 1);
  }

  lemma RefNormalThird(b: BasisData, x: real, y: real, k: nat, n: Point)
    requires k < 9
    ensures RefNormalAt(b, x, y, k, 3, n)
            == Cube(n.y) * RefAt(b, x, y, k, 0, 3) + 3.0 * n.x * Sq(n.y) * RefAt(b, x, y, k, 1, 2)
               + 3.0 * Sq(n.x) * n.y * RefAt(b, x, y, k, 2, 1) + Cube(n.x) * RefAt(b, x, y, k, 3, 0)
  {
    PowSmall(n.x);
    PowSmall(n.y);
    assert Binom(3, 1) == 3 && Binom(3, 2) == 3;
    assert NormalSum(b, x, y, k, 3, 0, n) == Cube(n.y) * RefAt(b, x, y, k, 0, 3);
    assert NormalSum(b, x, y, k, 3, 1, n) == NormalSum(b, x, y, k, 3, 0, n) + 3.0 * n.x * Sq(n.y) * RefAt(b, x, y, k, 1, 2);
    assert NormalSum(b, x, y, k, 3, 2, n) == NormalSum(b, x, y, k, 3, 1, n) + 3.0 * Sq(n.x) * n.y * RefAt(b, x, y, k, 2, 1);
  }

  /** Every hand-written F_k_N_m is the m-th derivative of basis k along n. */
  lemma SourceNormalCorrect(b: BasisData, k: nat, m: nat, p: Point, n: Point)
    requires k < 9 && 1 <= m <= 3
    ensures SourceNormal(b, k, m, p, n) == RefNormal(b, k, m, p, n)
  {
    SourceNormalAtCorrect(b, X(b, p), Y(b, p), k, m, n);
  }

  lemma SourceNormalAtCorrect(b: BasisData, x: real, y: real, k: nat, m: nat, n: Point)
    requires k < 9 && 1 <= m <= 3
    ensures SourceNormalAt(b, x, y, k, m, n) == RefNormalAt(b, x, y, k, m, n)
  {
    match k
    case 0 => NormalOf0(b, x, y, m, n);
    case 1 => NormalOf1(b, x, y, m, n);
    case 2 => NormalOf2(b, x, y, m, n);
    case 3 => NormalOf3(b, x, y, m, n);
    case 4 => NormalOf4(b, x, y, m, n);
    case 5 => NormalOf5(b, x, y, m, n);
    case 6 => NormalOf6(b, x, y, m, n);
    case 7 => NormalOf7(b, x, y, m, n);
    case 8 => NormalOf8(b, x, y, m, n);
  }

  lemma NormalOf0(b: BasisData, x: real, y: real, m: nat, n: Point)
    requires 1 <= m <= 3
    ensures SourceNormalAt(b, x, y, 0, m, n) == RefNormalAt(b, x, y, 0, m, n)
  {
    if m == 1 {
      RefNormalFirst(b, x, y, 0, n);
      SourceAtCorrect(b, x, y, 0, 0, 1);
      SourceAtCorrect(b, x, y, 0, 1, 0);
    } else if m == 2 {
      RefNormalSecond(b, x, y, 0, n);
      SourceAtCorrect(b, x, y, 0, 0, 2);
      SourceAtCorrect(b, x, y, 0, 1, 1);
      SourceAtCorrect(b, x, y, 0, 2, 0);
    } else {
      RefNormalThird(b, x, y, 0, n);
      SourceAtCorrect(b, x, y, 0, 0, 3);
      SourceAtCorrect(b, x, y, 0, 1, 2);
      SourceAtCorrect(b, x, y, 0, 2, 1);
      SourceAtCorrect(b, x, y, 0, 3, 0);
    }
  }

  lemma NormalOf1(b: BasisData, x: real, y: real, m: nat, n: Point)
    requires 1 <= m <= 3
    ensures SourceNormalAt(b, x, y, 1, m, n) == RefNormalAt(b, x, y, 1, m, n)
  {
    if m == 1 {
      RefNormalFirst(b, x, y, 1, n);
      SourceAtCorrect(b, x, y, 1, 0, 1);
      SourceAtCorrect(b, x, y, 1, 1, 0);
    } else if m == 2 {
      RefNormalSecond(b, x, y, 1, n);
      SourceAtCorrect(b, x, y, 1, 0, 2);
      SourceAtCorrect(b, x, y, 1, 1, 1);
      SourceAtCorrect(b, x, y, 1, 2, 0);
    } else {
      RefNormalThird(b, x, y, 1, n);
      SourceAtCorrect(b, x, y, 1, 0, 3);
      SourceAtCorrect(b, x, y, 1, 1, 2);
      SourceAtCorrect(b, x, y, 1, 2, 1);
      SourceAtCorrect(b, x, y, 1, 3, 0);
    }
  }

  lemma NormalOf2(b: BasisData, x: real, y: real, m: nat, n: Point)
    requires 1 <= m <= 3
    ensures SourceNormalAt(b, x, y, 2, m, n) == RefNormalAt(b, x, y, 2, m, n)
  {
    if m == 1 {
      RefNormalFirst(b, x, y, 2, n);
      SourceAtCorrect(b, x, y, 2, 0, 1);
      SourceAtCorrect(b, x, y, 2, 1, 0);
    } else if m == 2 {
      RefNormalSecond(b, x, y, 2, n);
      SourceAtCorrect(b, x, y, 2, 0, 2);
      SourceAtCorrect(b, x, y, 2, 1, 1);
      SourceAtCorrect(b, x, y, 2, 2, 0);
    } else {
      RefNormalThird(b, x, y, 2, n);
      SourceAtCorrect(b, x, y, 2, 0, 3);
      SourceAtCorrect(b, x, y, 2, 1, 2);
      SourceAtCorrect(b, x, y, 2, 2, 1);
      SourceAtCorrect(b, x, y, 2, 3, 0);
    }
  }

  lemma NormalOf3(b: BasisData, x: real, y: real, m: nat, n: Point)
    requires 1 <= m <= 3
    ensures SourceNormalAt(b, x, y, 3, m, n) == RefNormalAt(b, x, y, 3, m, n)
  {
    if m == 1 {
      RefNormalFirst(b, x, y, 3, n);
      SourceAtCorrect(b, x, y, 3, 0, 1);
      SourceAtCorrect(b, x, y, 3, 1, 0);
    } else if m == 2 {
      RefNormalSecond(b, x, y, 3, n);
      SourceAtCorrect(b, x, y, 3, 0, 2);
      SourceAtCorrect(b, x, y, 3, 1, 1);
      SourceAtCorrect(b, x, y, 3, 2, 0);
    } else {
      RefNormalThird(b, x, y, 3, n);
      SourceAtCorrect(b, x, y, 3, 0, 3);
      SourceAtCorrect(b, x, y, 3, 1, 2);
      SourceAtCorrect(b, x, y, 3, 2, 1);
      SourceAtCorrect(b, x, y, 3, 3, 0);
    }
  }

  lemma NormalOf4(b: BasisData, x: real, y: real, m: nat, n: Point)
    requires 1 <= m <= 3
    ensures SourceNormalAt(b, x, y, 4, m, n) == RefNormalAt(b, x, y, 4, m, n)
  {
    if m == 1 {
      RefNormalFirst(b, x, y, 4, n);
      SourceAtCorrect(b, x, y, 4, 0, 1);
      SourceAtCorrect(b, x, y, 4, 1, 0);
    } else if m == 2 {
      RefNormalSecond(b, x, y, 4, n);
      SourceAtCorrect(b, x, y, 4, 0, 2);
      SourceAtCorrect(b, x, y, 4, 1, 1);
      SourceAtCorrect(b, x, y, 4, 2, 0);
    } else {
      RefNormalThird(b, x, y, 4, n);
      SourceAtCorrect(b, x, y, 4, 0, 3);
      SourceAtCorrect(b, x, y, 4, 1, 2);
      SourceAtCorrect(b, x, y, 4, 2, 1);
      SourceAtCorrect(b, x, y, 4, 3, 0);
    }
  }

  lemma NormalOf5(b: BasisData, x: real, y: real, m: nat, n: Point)
    requires 1 <= m <= 3
    ensures SourceNormalAt(b, x, y, 5, m, n) == RefNormalAt(b, x, y, 5, m, n)
  {
    if m == 1 {
      RefNormalFirst(b, x, y, 5, n);
      SourceAtCorrect(b, x, y, 5, 0, 1);
      SourceAtCorrect(b, x, y, 5, 1, 0);
    } else if m == 2 {
      RefNormalSecond(b, x, y, 5, n);
      SourceAtCorrect(b, x, y, 5, 0, 2);
      SourceAtCorrect(b, x, y, 5, 1, 1);
      SourceAtCorrect(b, x, y, 5, 2, 0);
    } else {
      RefNormalThird(b, x, y, 5, n);
      SourceAtCorrect(b, x, y, 5, 0, 3);
      SourceAtCorrect(b, x, y, 5, 1, 2);
      SourceAtCorrect(b, x, y, 5, 2, 1);
      SourceAtCorrect(b, x, y, 5, 3, 0);
    }
  }

  lemma NormalOf6(b: BasisData, x: real, y: real, m: nat, n: Point)
    requires 1 <= m <= 3
    ensures SourceNormalAt(b, x, y, 6, m, n) == RefNormalAt(b, x, y, 6, m, n)
  {
    if m == 1 {
      RefNormalFirst(b, x, y, 6, n);
      SourceAtCorrect(b, x, y, 6, 0, 1);
      SourceAtCorrect(b, x, y, 6, 1, 0);
    } else if m == 2 {
      RefNormalSecond(b, x, y, 6, n);
      SourceAtCorrect(b, x, y, 6, 0, 2);
      SourceAtCorrect(b, x, y, 6, 1, 1);
      SourceAtCorrect(b, x, y, 6, 2, 0);
    } else {
      RefNormalThird(b, x, y, 6, n);
      SourceAtCorrect(b, x, y, 6, 0, 3);
      SourceAtCorrect(b, x, y, 6, 1, 2);
      SourceAtCorrect(b, x, y, 6, 2, 1);
      SourceAtCorrect(b, x, y, 6, 3, 0);
    }
  }

  lemma NormalOf7(b: BasisData, x: real, y: real, m: nat, n: Point)
    requires 1 <= m <= 3
    ensures SourceNormalAt(b, x, y, 7, m, n) == RefNormalAt(b, x, y, 7, m, n)
  {
    if m == 1 {
      RefNormalFirst(b, x, y, 7, n);
      SourceAtCorrect(b, x, y, 7, 0, 1);
      SourceAtCorrect(b, x, y, 7, 1, 0);
    } else if m == 2 {
      RefNormalSecond(b, x, y, 7, n);
      SourceAtCorrect(b, x, y, 7, 0, 2);
      SourceAtCorrect(b, x, y, 7, 1, 1);
      SourceAtCorrect(b, x, y, 7, 2, 0);
    } else {
      RefNormalThird(b, x, y, 7, n);
      SourceAtCorrect(b, x, y, 7, 0, 3);
      SourceAtCorrect(b, x, y, 7, 1, 2);
      SourceAtCorrect(b, x, y, 7, 2, 1);
      SourceAtCorrect(b, x, y, 7, 3, 0);
    }
  }

  lemma NormalOf8(b: BasisData, x: real, y: real, m: nat, n: Point)
    requires 1 <= m <= 3
    ensures SourceNormalAt(b, x, y, 8, m, n) == RefNormalAt(b, x, y, 8, m, n)
  {
    if m == 1 {
      RefNormalFirst(b, x, y, 8, n);
      SourceAtCorrect(b, x, y, 8, 0, 1);
      SourceAtCorrect(b, x, y, 8, 1, 0);
    } else if m == 2 {
      RefNormalSecond(b, x, y, 8, n);
      SourceAtCorrect(b, x, y, 8, 0, 2);
      SourceAtCorrect(b, x, y, 8, 1, 1);
      SourceAtCorrect(b, x, y, 8, 2, 0);
    } else {
      RefNormalThird(b, x, y, 8, n);
      SourceAtCorrect(b, x, y, 8, 0, 3);
      SourceAtCorrect(b, x, y, 8, 1, 2);
      SourceAtCorrect(b, x, y, 8, 2, 1);
      SourceAtCorrect(b, x, y, 8, 3, 0);
    }
  }

  /** Directional derivatives of an order the basis does not reach vanish. */
  lemma RefNormalBeyondOrder(b: BasisData, k: nat, m: nat, p: Point, n: Point)
    requires k < 9 && Order(k) < m <= 3
    ensures RefNormal(b, k, m, p, n) == 0.0
  {
    var x, y := X(b, p), Y(b, p);
    forall i: nat, j: nat | i + j == m
      ensures RefAt(b, x, y, k, i, j) == 0.0
    {
      assert i > PX(k) || j > PY(k);
    }
    if m == 1 { RefNormalFirst(b, x, y, k, n); }
    else if m == 2 { RefNormalSecond(b, x, y, k, n); }
    else { RefNormalThird(b, x, y, k, n); }
  }

  /** The value row of the table: F_k_0_0 is the monomial minus its average. */
  lemma SourceValueCorrect(b: BasisData, k: nat, p: Point)
    requires k < 9
    ensures SourceDerivative(b, k, 0, 0, p) == Monomial(b, k, p) - Average(b, k)
  {
    SourceDerivativeCorrect(b, k, 0, 0, p);
    assert Pow(b.dxInv, 0) == 1.0 && Pow(b.dyInv, 0) == 1.0;
  }

  /** Every basis function takes the value -average at the cell centre (0 for the linear ones). */
  lemma ValueAtCenter(b: BasisData, k: nat)
    requires k < 9
    ensures SourceDerivative(b, k, 0, 0, b.center) == -Average(b, k)
  {
    SourceValueCorrect(b, k, b.center);
    assert X(b, b.center) == 0.0 && Y(b, b.center) == 0.0;
    assert PX(k) >= 1 || PY(k) >= 1;
    if PX(k) >= 1 {
      assert Pow(0.0, PX(k)) == 0.0 * Pow(0.0, PX(k) - 1);
    } else {
      assert Pow(0.0, PY(k)) == 0.0 * Pow(0.0, PY(k) - 1);
    }
  }

  /** Functions(x, y): the values of the first CountCoefficients(degree) basis functions. */
  function Functions(b: BasisData, degree: nat, p: Point): (values: seq<real>)
    requires 1 <= degree <= 3
    ensures |values| == CountCoefficients(degree)
    ensures forall k :: 0 <= k < |values| ==> values[k] == Monomial(b, k, p) - Average(b, k)
  {
    var values := seq(CountCoefficients(degree), k requires 0 <= k < 9 => SourceDerivative(b, k, 0, 0, p));
    forall k | 0 <= k < |values|
      ensures values[k] == Monomial(b, k, p) - Average(b, k)
    {
      SourceValueCorrect(b, k, p);
    }
    values
  }

  /** Entry (k, m) of GetFuncTable as the source fills it: value, normal derivatives up to basis k's order, else 0. */
  function TableEntry(b: BasisData, k: nat, m: nat, p: Point, n: Point): real
    requires k < 9
  {
    if m == 0 then SourceDerivative(b, k, 0, 0, p)
    else if m <= Order(k) then SourceNormal(b, k, m, p, n)
    else 0.0
  }

  /**
   * GetFuncTable(coord, normal): a CountCoefficients(degree) x (degree + 1)
   * table whose row k holds basis k's value at the point and its normal
   * derivatives of orders 1..degree; orders above basis k's own are 0.
   */
  function GetFuncTable(b: BasisData, degree: nat, p: Point, n: Point): (table: seq<seq<real>>)
    requires 1 <= degree <= 3
    ensures |table| == CountCoefficients(degree)
    ensures forall k :: 0 <= k < |table| ==> |table[k]| == degree + 1
    ensures forall k :: 0 <= k < |table| ==> table[k][0] == Monomial(b, k, p) - Average(b, k)
    ensures forall k, m :: 0 <= k < |table| && 1 <= m <= degree ==> table[k][m] == RefNormal(b, k, m, p, n)
    ensures forall k, m :: 0 <= k < |table| && Order(k) < m <= degree ==> table[k][m] == 0.0
  {
    var table := seq(CountCoefficients(degree), k requires 0 <= k < 9 =>
                   seq(degree + 1, m requires 0 <= m => TableEntry(b, k, m, p, n)));
    forall k, m | 0 <= k < |table| && 0 <= m <= degree
      ensures m == 0 ==> table[k][m] == Monomial(b, k, p) - Average(b, k)
      ensures m >= 1 ==> table[k][m] == RefNormal(b, k, m, p, n)
    {
      if m == 0 {
        SourceValueCorrect(b, k, p);
      } else if m <= Order(k) {
        SourceNormalCorrect(b, k, m, p, n);
      } else {
        RefNormalBeyondOrder(b, k, m, p, n);
      }
    }
    table
  }

  function MonomialOf(b: BasisData, k: nat): Point -> real
    requires k < 9
  {
    p => Monomial(b, k, p)
  }

  /** Basis k as an integrand: the F_k_0_0 the moment integrals and tests integrate. */
  function BasisOf(b: BasisData, k: nat): Point -> real {
    p => SourceDerivative(b, k, 0, 0, p)
  }

  /**
   * b is the basis of cell t up to degree: centred at the centroid, scaled by
   * the inverse half-extents, and every stored average of a monomial the
   * degree reaches is its quadrature integral divided by the area (the
   * others are not computed and stay 0).
   */
  predicate IsBasisOf(t: Triangle, b: BasisData, degree: nat)
    requires t.Measure() > 0.0
  {
    PositiveAreaHasExtent(t);
    && b.center == t.Center()
    && b.dxInv == GetDelta(t.a.x, t.b.x, t.c.x)
    && b.dyInv == GetDelta(t.a.y, t.b.y, t.c.y)
    && forall k :: 2 <= k < 9 ==>
         Average(b, k) == (if Order(k) <= degree then QuadSum(t, MonomialOf(b, k), 4) else 0.0)
  }

  /** The monomials depend only on centre and scales, not on the stored averages. */
  lemma SameFrameSameIntegral(t: Triangle, b1: BasisData, b2: BasisData, k: nat)
    requires k < 9
    requires b1.center == b2.center && b1.dxInv == b2.dxInv && b1.dyInv == b2.dyInv
    ensures QuadSum(t, MonomialOf(b1, k), 4) == QuadSum(t, MonomialOf(b2, k), 4)
  {
    forall p ensures MonomialOf(b2, k)(p) == MonomialOf(b1, k)(p) - 0.0 {
      assert X(b1, p) == X(b2, p) && Y(b1, p) == Y(b2, p);
    }
    QuadSumShift(t, MonomialOf(b1, k), MonomialOf(b2, k), 0.0, 4);
  }

  /** The average the constructor stores: Integrate from zero, then times 1 / Measure. */
  method CellAverage(t: Triangle, f: Point -> real) returns (avg: real)
    requires t.Measure() > 0.0
    ensures avg == QuadSum(t, f, 4)
  {
    var measureInv := 1.0 / t.Measure();
    var integral := Integrate(t, f, 0.0);
    avg := integral * measureInv;
  }

  /**
   * The constructors of Triangle<1..3> and Basis<1..3>: DxInv/DyInv from the
   * vertex extents, then (degree 2) XX, XY, YY and (degree 3) XXX, XXY, XYY, YYY
   * as cell averages of the monomials.
   */
  method NewBasis(t: Triangle, degree: nat) returns (b: BasisData)
    requires 1 <= degree <= 3
    requires t.Measure() > 0.0
    ensures IsBasisOf(t, b, degree)
  {
    PositiveAreaHasExtent(t);
    var frame := BasisData(t.Center(), GetDelta(t.a.x, t.b.x, t.c.x), GetDelta(t.a.y, t.b.y, t.c.y),
                           0.0, 0.0, 0.0, 0.0, 0.0, 0.0, 0.0);
    var xx, xy, yy, xxx, xxy, xyy, yyy := 0.0, 0.0, 0.0, 0.0, 0.0, 0.0, 0.0;
    if degree >= 2 {
      xx := CellAverage(t, MonomialOf(frame, 2));
      xy := CellAverage(t, MonomialOf(frame, 3));
      yy := CellAverage(t, MonomialOf(frame, 4));
    }
    if degree >= 3 {
      xxx := CellAverage(t, MonomialOf(frame, 5));
      xxy := CellAverage(t, MonomialOf(frame, 6));
      xyy := CellAverage(t, MonomialOf(frame, 7));
      yyy := CellAverage(t, MonomialOf(frame, 8));
    }
    b := frame.(xx := xx, xy := xy, yy := yy, xxx := xxx, xxy := xxy, xyy := xyy, yyy := yyy);
    forall k | 2 <= k < 9
      ensures QuadSum(t, MonomialOf(b, k), 4) == QuadSum(t, MonomialOf(frame, k), 4)
    {
      SameFrameSameIntegral(t, b, frame, k);
    }
  }

  /**
   * Each basis function of order >= 2 integrates, under the 4-point rule, to
   * its average times the rule's weight defect 1 - 0.9999999999999998: it
   * would be exactly mean-free if the weights summed to 1.
   */
  lemma BasisMeanNearZero(t: Triangle, b: BasisData, degree: nat, k: nat)
    requires 1 <= degree <= 3 && t.Measure() > 0.0
    requires IsBasisOf(t, b, degree)
    requires 2 <= k < CountCoefficients(degree)
    ensures QuadSum(t, BasisOf(b, k), 4) == Average(b, k) * (1.0 - 0.9999999999999998)
    ensures Average(b, k) == QuadSum(t, MonomialOf(b, k), 4)
  {
    forall p ensures BasisOf(b, k)(p) == MonomialOf(b, k)(p) - Average(b, k) {
      SourceValueCorrect(b, k, p);
    }
    QuadSumShift(t, MonomialOf(b, k), BasisOf(b, k), Average(b, k), 4);
    assert WeightPrefix(4) == 0.9999999999999998;
  }

  /** The test cell (0,0), (1,0), (0,2) has area 1 and centre (1/3, 2/3). */
  lemma TestCellGeometry()
    ensures var t := Triangle(1, Node(0, 0.0, 0.0), Node(1, 1.0, 0.0), Node(2, 0.0, 2.0));
      && t.Measure() == 1.0
      && t.Center().x * 3.0 == 1.0 && t.Center().y * 3.0 == 2.0
  {
    var t := Triangle(1, Node(0, 0.0, 0.0), Node(1, 1.0, 0.0), Node(2, 0.0, 2.0));
    assert Cross(t.a.Pos(), t.b.Pos(), t.c.Pos()) == 2.0;
    CenterIsAverage(t);
  }

  /** Its inverse half-extents are DxInv = 2 and DyInv = 1. */
  lemma TestCellScales()
    ensures GetDelta(0.0, 1.0, 0.0) == 2.0 && GetDelta(0.0, 0.0, 2.0) == 1.0
  {
    assert Max3(0.0, 1.0, 0.0) == 1.0 && Min3(0.0, 1.0, 0.0) == 0.0;
    assert Max3(0.0, 0.0, 2.0) == 2.0 && Min3(0.0, 0.0, 2.0) == 0.0;
    assert GetDelta(0.0, 1.0, 0.0) * 1.0 == 2.0;
    assert GetDelta(0.0, 0.0, 2.0) * 2.0 == 2.0;
  }

  /** With DxInv = 2 and DyInv = 1 the constant derivatives are 2, 1, 8, 2, 2, 48, 8, 4, 6. */
  lemma TestCellConstantDerivatives(b: BasisData, p: Point)
    requires b.dxInv == 2.0 && b.dyInv == 1.0
    ensures SourceDerivative(b, 0, 1, 0, p) == 2.0 && SourceDerivative(b, 1, 0, 1, p) == 1.0
    ensures SourceDerivative(b, 2, 2, 0, p) == 8.0 && SourceDerivative(b, 3, 1, 1, p) == 2.0
    ensures SourceDerivative(b, 4, 0, 2, p) == 2.0
    ensures SourceDerivative(b, 5, 3, 0, p) == 48.0 && SourceDerivative(b, 6, 2, 1, p) == 8.0
    ensures SourceDerivative(b, 7, 1, 2, p) == 4.0 && SourceDerivative(b, 8, 0, 3, p) == 6.0
  {
  }

  /**
   * mesh::Basis<Order>::Degree(): declared only in Basis<1>, so every order
   * reports 1 (unlike element::Triangle<k>::Degree(), which reports k).
   */
  function MeshBasisDegree(order: nat): (d: nat)
    requires 1 <= order <= 3
    ensures d == 1 && (order > 1 ==> d < order)
  {
    1
  }
}
