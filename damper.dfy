/** The mechanical damper: a linear damping force `F = c * v`. */
module Damper {

  /** `ConstantDamper`: its coefficient is set once by the constructor and
      never changed. */
  datatype ConstantDamper = ConstantDamper(dampingCoefficient: real)
  {
    /** `get_force`: the damping force at the given velocity. For a
        non-negative coefficient the force has the sign of the velocity
        (`F v = c v^2 >= 0`). */
    function GetForce(velocity: real): (force: real)
      ensures velocity == 0.0 ==> force == 0.0
      ensures dampingCoefficient >= 0.0 ==> force * velocity >= 0.0
      ensures force * velocity == dampingCoefficient * (velocity * velocity)
    {
      var f := dampingCoefficient * velocity;
      assert f * velocity == dampingCoefficient * (velocity * velocity);
      assert velocity * velocity >= 0.0;
      f
    }
  }

  /** The force is additive, homogeneous and odd in the velocity, and scales
      with the coefficient. */
  lemma ForceIsLinear(d: ConstantDamper, v1: real, v2: real, k: real)
    ensures d.GetForce(v1 + v2) == d.GetForce(v1) + d.GetForce(v2)
    ensures d.GetForce(k * v1) == k * d.GetForce(v1)
    ensures d.GetForce(-v1) == -d.GetForce(v1)
    ensures ConstantDamper(k * d.dampingCoefficient).GetForce(v1) == k * d.GetForce(v1)
  {
    assert d.dampingCoefficient * (v1 + v2) == d.dampingCoefficient * v1 + d.dampingCoefficient * v2;
    assert d.dampingCoefficient * (k * v1) == k * (d.dampingCoefficient * v1);
  }
}
