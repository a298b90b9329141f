/**
 * The state algebra of riemann/types.hpp for two space dimensions: a tuple
 * (mass, momentum, energy), the ideal-gas constants and the conversions
 * between primitive (rho, u, v, p) and conservative (rho, rho u, rho v, E)
 * variables.
 */
module RiemannTypes {
  import opened Wrappers

  /** Tuple<2>: mass, the two momentum components and energy. */
  datatype Tuple = Tuple(mass: real, mx: real, my: real, energy: real)

  function Add(a: Tuple, b: Tuple): Tuple {
    Tuple(a.mass + b.mass, a.mx + b.mx, a.my + b.my, a.energy + b.energy)
  }

  function Sub(a: Tuple, b: Tuple): Tuple {
    Tuple(a.mass - b.mass, a.mx - b.mx, a.my - b.my, a.energy - b.energy)
  }

  /** operator* and *=: every component scaled by s. */
  function Scale(a: Tuple, s: real): Tuple {
    Tuple(a.mass * s, a.mx * s, a.my * s, a.energy * s)
  }

  /** /=: every component divided by s (a zero s is not modelled). */
  function Div(a: Tuple, s: real): Tuple
    requires s != 0.0
  {
    Tuple(a.mass / s, a.mx / s, a.my / s, a.energy / s)
  }

  /** operator==: equal mass, energy and momentum, i.e. the same tuple. */
  function Equal(a: Tuple, b: Tuple): (r: bool)
    ensures r <==> a == b
  {
    a.mass == b.mass && a.energy == b.energy && a.mx == b.mx && a.my == b.my
  }

  /** -= undoes +=. */
  lemma SubUndoesAdd(a: Tuple, b: Tuple)
    ensures Sub(Add(a, b), b) == a
  {
  }

  /** /= s undoes *= s. */
  lemma DivUndoesScale(a: Tuple, s: real)
    requires s != 0.0
    ensures Div(Scale(a, s), s) == a
  {
  }

  /** x += x * s gives x * (1 + s); with s = 2 this is the test's x + 2x = 3x. */
  lemma AddScaledCopy(x: Tuple, s: real)
    ensures Add(x, Scale(x, s)) == Scale(x, 1.0 + s)
  {
  }

  /** The compound operators act on a tuple in place. */
  class TupleVar {
    var mass: real
    var mx: real
    var my: real
    var energy: real

    constructor (t: Tuple)
      ensures Value() == t
    {
      mass, mx, my, energy := t.mass, t.mx, t.my, t.energy;
    }

    function Value(): Tuple
      reads this
    {
      Tuple(mass, mx, my, energy)
    }

    method AddAssign(that: Tuple)
      modifies this
      ensures Value() == Add(old(Value()), that)
    {
      mass := mass + that.mass;
      energy := energy + that.energy;
      mx, my := mx + that.mx, my + that.my;
    }

    method SubAssign(that: Tuple)
      modifies this
      ensures Value() == Sub(old(Value()), that)
    {
      mass := mass - that.mass;
      energy := energy - that.energy;
      mx, my := mx - that.mx, my - that.my;
    }

    method ScaleAssign(s: real)
      modifies this
      ensures Value() == Scale(old(Value()), s)
    {
      mass := mass * s;
      energy := energy * s;
      mx, my := mx * s, my * s;
    }

    method DivAssign(s: real)
      requires s != 0.0
      modifies this
      ensures Value() == Div(old(Value()), s)
    {
      mass := mass / s;
      energy := energy / s;
      mx, my := mx / s, my / s;
    }

    /** The overload of ConservativeToPrimitive taking an address: the same steps, in place. */
    method ToPrimitive()
      requires ConservativeToPrimitive(Value()).Ok?
      modifies this
      ensures Value() == ConservativeToPrimitive(old(Value())).value
    {
      if mass > 0.0 {
        mx, my := mx / mass, my / mass;
        energy := energy - 0.5 * mass * (mx * mx + my * my);
        energy := energy * GammaMinusOne;
        if energy < 0.0 {
          energy := 0.0;
        }
      } else {
        mx, my := mx * 0.0, my * 0.0;
        energy := 0.0;
      }
    }

    /** The overload of PrimitiveToConservative taking an address: the same steps, in place. */
    method ToConservative()
      modifies this
      ensures Value() == PrimitiveToConservative(old(Value()))
    {
      energy := energy * OneOverGammaMinusOne;
      energy := energy + 0.5 * mass * (mx * mx + my * my);
      mx, my := mx * mass, my * mass;
    }
  }

  // IdealGas with gamma = 1.4 and the constants derived from it.
  const Gamma: real := 1.4
  const OneOverGamma: real := 1.0 / Gamma
  const GammaPlusOne: real := Gamma + 1.0
  const GammaPlusOneOverTwo: real := GammaPlusOne / 2.0
  const GammaPlusOneOverFour: real := GammaPlusOne / 4.0
  const GammaMinusOne: real := Gamma - 1.0
  const OneOverGammaMinusOne: real := 1.0 / GammaMinusOne
  const GammaOverGammaMinusOne: real := Gamma / GammaMinusOne
  const GammaMinusOneOverTwo: real := GammaMinusOne / 2.0
  const GammaMinusOneUnderTwo: real := 2.0 / GammaMinusOne

  /** The derived constants evaluate to the values gamma = 1.4 gives them, and are mutually consistent. */
  lemma GasConstants()
    ensures OneOverGamma * Gamma == 1.0
    ensures GammaPlusOne == 2.4 && GammaPlusOneOverTwo == 1.2 && GammaPlusOneOverFour == 0.6
    ensures GammaMinusOne == 0.4 && OneOverGammaMinusOne == 2.5 && GammaOverGammaMinusOne == 3.5
    ensures GammaMinusOneOverTwo == 0.2 && GammaMinusOneUnderTwo == 5.0
    ensures GammaOverGammaMinusOne == Gamma * OneOverGammaMinusOne
    ensures GammaMinusOneUnderTwo * GammaMinusOneOverTwo == 1.0
  {
  }

  /** The assertions of ConservativeToPrimitive, as errors. */
  datatype ConversionError = NegativeDensity | NegativePressure

  /** E - rho |u|^2 / 2 with u = momentum / rho, times gamma - 1: the pressure before clamping. */
  function RecoveredPressure(c: Tuple): real
    requires c.mass > 0.0
  {
    var u := c.mx / c.mass;
    var v := c.my / c.mass;
    (c.energy - 0.5 * c.mass * (u * u + v * v)) * GammaMinusOne
  }

  /**
   * ConservativeToPrimitive: for rho > 0 divides the momentum by rho and
   * recovers the pressure, clamping a negative one to 0 when it lies above
   * -1e-4 and failing otherwise; rho = 0 zeroes velocity and pressure;
   * rho < 0 fails.
   */
  function ConservativeToPrimitive(c: Tuple): (r: Result<Tuple, ConversionError>)
    ensures r.Ok? <==> c.mass == 0.0 || (c.mass > 0.0 && RecoveredPressure(c) > -0.0001)
    ensures c.mass < 0.0 ==> r == Err(NegativeDensity)
    ensures r.Ok? ==> r.value.mass == c.mass && r.value.energy >= 0.0
    ensures r.Ok? && c.mass > 0.0 ==> r.value.mx * c.mass == c.mx && r.value.my * c.mass == c.my
    ensures r.Ok? && c.mass > 0.0 && RecoveredPressure(c) >= 0.0 ==> r.value.energy == RecoveredPressure(c)
    ensures r.Ok? && c.mass > 0.0 && RecoveredPressure(c) < 0.0 ==> r.value.energy == 0.0
    ensures r.Ok? && c.mass == 0.0 ==> r.value == Tuple(0.0, 0.0, 0.0, 0.0)
  {
    if c.mass > 0.0 then
      var p := RecoveredPressure(c);
      if p < 0.0 && p <= -0.0001 then Err(NegativePressure)
      else Ok(Tuple(c.mass, c.mx / c.mass, c.my / c.mass, if p < 0.0 then 0.0 else p))
    else if c.mass == 0.0 then Ok(Tuple(0.0, 0.0, 0.0, 0.0))
    else Err(NegativeDensity)
  }

  /** PrimitiveToConservative: momentum rho u, energy p / (gamma - 1) + rho |u|^2 / 2. */
  function PrimitiveToConservative(w: Tuple): (c: Tuple)
    ensures c.mass == w.mass
  {
    Tuple(w.mass, w.mx * w.mass, w.my * w.mass,
          w.energy * OneOverGammaMinusOne + 0.5 * w.mass * (w.mx * w.mx + w.my * w.my))
  }

  /** For rho > 0 and p >= 0, converting to conservative and back recovers the primitive state. */
  lemma PrimitiveRoundTrip(w: Tuple)
    requires w.mass > 0.0 && w.energy >= 0.0
    ensures ConservativeToPrimitive(PrimitiveToConservative(w)) == Ok(w)
  {
    var c := PrimitiveToConservative(w);
    assert c.mx / c.mass == w.mx;
    assert c.my / c.mass == w.my;
    assert RecoveredPressure(c) == w.energy;
  }

  /** For rho > 0 and a non-negative recovered pressure, converting back recovers the conservative state. */
  lemma ConservativeRoundTrip(c: Tuple)
    requires c.mass > 0.0 && RecoveredPressure(c) >= 0.0
    ensures ConservativeToPrimitive(c).Ok?
    ensures PrimitiveToConservative(ConservativeToPrimitive(c).value) == c
  {
    var w := ConservativeToPrimitive(c).value;
    assert w.mx * w.mass == c.mx;
    assert w.my * w.mass == c.my;
    var u := c.mx / c.mass;
    var v := c.my / c.mass;
    assert w.energy * OneOverGammaMinusOne == c.energy - 0.5 * c.mass * (u * u + v * v);
  }

  /** The converter test: (0.1, 0.2, -0.2, 0.3) becomes (0.1, 0.02, -0.02, 0.754). */
  lemma TestConverters()
    ensures PrimitiveToConservative(Tuple(0.1, 0.2, -0.2, 0.3)) == Tuple(0.1, 0.02, -0.02, 0.754)
  {
  }
}
