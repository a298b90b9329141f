/**
 * Gauss-Legendre point and weight tables on the reference segment [-1, 1]
 * (element/gauss.hpp).  Only the one- and two-point rules exist.
 */
module Gauss {

  datatype Rule = Rule(xLocal: seq<real>, weights: seq<real>)

  /** The rule with `n` points; the source specialises n = 1 and n = 2 only. */
  function GaussRule(n: nat): (r: Rule)
    requires n == 1 || n == 2
    ensures |r.xLocal| == n && |r.weights| == n
  {
    if n == 1 then Rule([0.0], [2.0])
    else Rule([-0.5773502691896250, 0.5773502691896250], [1.0, 1.0])
  }

  /** CountPoint() of the n-point rule: the literal the source returns. */
  function CountPoint(n: nat): (c: nat)
    requires n == 1 || n == 2
    ensures c == |GaussRule(n).xLocal| == |GaussRule(n).weights|
  {
    if n == 1 then 1 else 2
  }

  function Sum(s: seq<real>): real {
    if s == [] then 0.0 else Sum(s[..|s| - 1]) + s[|s| - 1]
  }

  /** Both rules integrate the constant 1 exactly over [-1, 1]: their weights sum to 2. */
  lemma WeightsSumToTwo(n: nat)
    requires n == 1 || n == 2
    ensures Sum(GaussRule(n).weights) == 2.0
  {
    var w := GaussRule(n).weights;
    if n == 2 {
      assert w[..1] == [1.0];
      assert w[..1][..0] == [];
    } else {
      assert w[..0] == [];
    }
  }

  /** Both rules are symmetric about the midpoint of the segment. */
  lemma PointsSymmetric(n: nat, i: nat)
    requires n == 1 || n == 2
    requires i < n
    ensures GaussRule(n).xLocal[i] == -GaussRule(n).xLocal[n - 1 - i]
    ensures GaussRule(n).weights[i] == GaussRule(n).weights[n - 1 - i]
  {
  }
}
