/**
 * The rotated solvers of riemann/rotated.hpp: Simple turns a scalar
 * advection problem into one along an edge normal, RotatedEuler rotates
 * velocities into the (normal, tangential) frame and back.
 */
module RiemannRotated {
  import opened Geometry
  import opened Wrappers
  import RiemannLinear
  import RiemannTypes

  /** Simple::Rotate: the speed along n is the global coefficient projected on n. */
  function NormalSpeed(coefficient: Point, n1: real, n2: real): real {
    coefficient.x * n1 + coefficient.y * n2
  }

  /** Simple<Linear>: the wrapped scalar solver keeps the normal speed set by Rotate. */
  class Simple {
    var speed: real

    constructor ()
      ensures speed == 0.0
    {
      speed := 0.0;
    }

    /** Rotate(n1, n2) against the shared global coefficient (a static of the source, a parameter here). */
    method Rotate(coefficient: Point, n1: real, n2: real)
      modifies this
      ensures speed == NormalSpeed(coefficient, n1, n2)
    {
      var aNormal := coefficient.x * n1;
      aNormal := aNormal + coefficient.y * n2;
      speed := aNormal;
    }

    function GetFluxOnTimeAxis(left: real, right: real): (f: real)
      reads this
      ensures f == RiemannLinear.GetSingleFlux(RiemannLinear.Upwind(left, right, speed), speed)
    {
      RiemannLinear.UpwindFlux(left, right, speed);
      RiemannLinear.GetFlux(left, right, speed)
    }

    /** A solid wall lets nothing through: the default (zero) flux. */
    function GetFluxOnSolidWall(state: real): (f: real)
      ensures f == 0.0
    {
      0.0
    }

    function GetFluxOnFreeWall(state: real): (f: real)
      reads this
      ensures f == RiemannLinear.GetFlux(state, state, speed)
    {
      RiemannLinear.FluxConsistent(state, speed);
      RiemannLinear.GetSingleFlux(state, speed)
    }
  }

  /** The speed is linear in the normal: reversing the normal reverses the speed. */
  lemma NormalSpeedOdd(coefficient: Point, n1: real, n2: real)
    ensures NormalSpeed(coefficient, -n1, -n2) == -NormalSpeed(coefficient, n1, n2)
  {
  }

  /** GlobalToNormal: v becomes (v . n, n0 v1 - n1 v0), its components along n and t = (-n1, n0). */
  function GlobalToNormal(n: Point, v: Point): (w: Point)
    ensures w.x == v.x * n.x + v.y * n.y
    ensures w.y == v.x * (-n.y) + v.y * n.x
  {
    Point(v.x * n.x + v.y * n.y, n.x * v.y - n.y * v.x)
  }

  /** NormalToGlobal: (vn, vt) becomes vn n + vt t. */
  function NormalToGlobal(n: Point, v: Point): (w: Point)
    ensures w.x == v.x * n.x + v.y * (-n.y)
    ensures w.y == v.x * n.y + v.y * n.x
  {
    Point(v.x * n.x - v.y * n.y, v.x * n.y + v.y * n.x)
  }

  predicate IsUnit(n: Point) { n.x * n.x + n.y * n.y == 1.0 }

  /** For a unit normal the two rotations are inverse to each other, in both orders. */
  lemma RotationRoundTrip(n: Point, v: Point)
    requires IsUnit(n)
    ensures NormalToGlobal(n, GlobalToNormal(n, v)) == v
    ensures GlobalToNormal(n, NormalToGlobal(n, v)) == v
  {
    BackAndForth(n.x, n.y, v.x, v.y);
    BackAndForth(n.x, -n.y, v.x, v.y);
  }

  /** The algebra behind both round trips: rotating by (a, b) and then by (a, -b) scales by a^2 + b^2. */
  lemma BackAndForth(a: real, b: real, x: real, y: real)
    requires a * a + b * b == 1.0
    ensures (x * a + y * b) * a - (a * y - b * x) * b == x
    ensures (x * a + y * b) * b + (a * y - b * x) * a == y
  {
    assert (x * a + y * b) * a - (a * y - b * x) * b == x * (a * a + b * b);
    assert (x * a + y * b) * b + (a * y - b * x) * a == y * (a * a + b * b);
  }

  /** The rotation test: n = (0.6, 0.8) sends (3, 4) to (5, 0) and back. */
  lemma TestVectorConverter()
    ensures GlobalToNormal(Point(0.6, 0.8), Point(3.0, 4.0)) == Point(5.0, 0.0)
    ensures NormalToGlobal(Point(0.6, 0.8), Point(5.0, 0.0)) == Point(3.0, 4.0)
  {
  }

  /** RotatedEuler: keeps the normal set by Rotate. */
  class RotatedEuler {
    var normal: Point

    constructor ()
      ensures normal == Point(0.0, 0.0)
    {
      normal := Point(0.0, 0.0);
    }

    method Rotate(n1: real, n2: real)
      modifies this
      ensures normal == Point(n1, n2)
    {
      normal := normal.(x := n1);
      normal := normal.(y := n2);
    }

    method RotateVector(n: Point)
      modifies this
      ensures normal == n
    {
      normal := n;
    }

    /**
     * GetFluxOnSolidWall: no mass or energy crosses the wall and the momentum
     * flux is the pressure pushing along the normal; a state
     * ConservativeToPrimitive rejects yields its error.
     */
    function GetFluxOnSolidWall(conservative: RiemannTypes.Tuple): (r: Result<RiemannTypes.Tuple, RiemannTypes.ConversionError>)
      reads this
      ensures r.Ok? <==> RiemannTypes.ConservativeToPrimitive(conservative).Ok?
      ensures r.Ok? ==> var p := RiemannTypes.ConservativeToPrimitive(conservative).value.energy;
        r.value == RiemannTypes.Tuple(0.0, p * normal.x, p * normal.y, 0.0)
    {
      match RiemannTypes.ConservativeToPrimitive(conservative)
      case Err(e) => Err(e)
      case Ok(primitive) =>
        var m := NormalToGlobal(normal, Point(primitive.energy, 0.0));
        Ok(RiemannTypes.Tuple(0.0, m.x, m.y, 0.0))
    }
  }
}
