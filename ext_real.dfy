/** Floating-point values as the core sees them: exact reals extended with the
    two infinities and NaN, with the IEEE 754 rules for how those propagate
    through `+`, `-`, `*` and `/`. Rounding is not modelled, and zero is
    unsigned (division of a non-zero number by zero yields the infinity of the
    numerator's sign). */
module ExtReal {

  datatype Ext = Finite(r: real) | PosInf | NegInf | NaN

  /** `np.isinf`. */
  predicate IsInf(e: Ext) {
    e.PosInf? || e.NegInf?
  }

  /** -1, 0 or +1: the sign of a value that is not NaN. */
  function Sign(e: Ext): (s: int)
    requires !e.NaN?
    ensures -1 <= s <= 1
    ensures s == 0 <==> e == Finite(0.0)
  {
    match e
    case PosInf => 1
    case NegInf => -1
    case Finite(x) => if x > 0.0 then 1 else if x < 0.0 then -1 else 0
  }

  /** The infinity of the given (non-zero) sign. */
  function InfOfSign(s: int): (e: Ext)
    requires s != 0
    ensures IsInf(e)
  {
    if s > 0 then PosInf else NegInf
  }

  /** `-a`. */
  function Neg(a: Ext): (r: Ext)
    ensures a.Finite? ==> r == Finite(-a.r)
    ensures IsInf(a) <==> IsInf(r)
    ensures a.NaN? <==> r.NaN?
  {
    match a
    case Finite(x) => Finite(-x)
    case PosInf => NegInf
    case NegInf => PosInf
    case NaN => NaN
  }

  /** `a + b`: exact on finite values; opposite infinities and NaN give NaN;
      otherwise an infinity wins. */
  function Add(a: Ext, b: Ext): (r: Ext)
    ensures a.Finite? && b.Finite? ==> r == Finite(a.r + b.r)
    ensures r.NaN? <==> a.NaN? || b.NaN? || (a.PosInf? && b.NegInf?) || (a.NegInf? && b.PosInf?)
    ensures IsInf(a) && !r.NaN? ==> r == a
    ensures IsInf(b) && !r.NaN? ==> r == b
  {
    match (a, b)
    case (NaN, _) => NaN
    case (_, NaN) => NaN
    case (PosInf, NegInf) => NaN
    case (NegInf, PosInf) => NaN
    case (PosInf, _) => PosInf
    case (_, PosInf) => PosInf
    case (NegInf, _) => NegInf
    case (_, NegInf) => NegInf
    case (Finite(x), Finite(y)) => Finite(x + y)
  }

  /** `a - b`: the same infinity on both sides gives NaN. */
  function Sub(a: Ext, b: Ext): (r: Ext)
    ensures a.Finite? && b.Finite? ==> r == Finite(a.r - b.r)
    ensures r.NaN? <==> a.NaN? || b.NaN? || (a.PosInf? && b.PosInf?) || (a.NegInf? && b.NegInf?)
    ensures IsInf(a) && !r.NaN? ==> r == a
  {
    Add(a, Neg(b))
  }

  /** `a * b`: exact on finite values; infinity times zero is NaN; otherwise
      an infinite factor gives the infinity of the product's sign. */
  function Mul(a: Ext, b: Ext): (r: Ext)
    ensures a.Finite? && b.Finite? ==> r == Finite(a.r * b.r)
    ensures r.NaN? <==> a.NaN? || b.NaN? || (IsInf(a) && b == Finite(0.0)) || (a == Finite(0.0) && IsInf(b))
    ensures !r.NaN? && (IsInf(a) || IsInf(b)) ==> IsInf(r)
  {
    if a.NaN? || b.NaN? then NaN
    else if a.Finite? && b.Finite? then Finite(a.r * b.r)
    else if Sign(a) == 0 || Sign(b) == 0 then NaN        // infinity times zero
    else InfOfSign(Sign(a) * Sign(b))
  }

  /** `a / b` with numpy semantics: exact for a finite non-zero divisor; a
      finite value over an infinity is 0.0; a non-zero value over zero is an
      infinity; zero over zero, infinity over infinity and NaN give NaN. */
  function Div(a: Ext, b: Ext): (r: Ext)
    ensures a.Finite? && b.Finite? && b.r != 0.0 ==> r == Finite(a.r / b.r)
    ensures a.Finite? && IsInf(b) ==> r == Finite(0.0)
    ensures a.Finite? && a.r != 0.0 && b == Finite(0.0) ==> IsInf(r)
    ensures r.NaN? <==> a.NaN? || b.NaN? || (IsInf(a) && IsInf(b)) || (a == Finite(0.0) && b == Finite(0.0))
  {
    if a.NaN? || b.NaN? then NaN
    else if IsInf(a) && IsInf(b) then NaN
    else if b.Finite? && b.r != 0.0 then
      (if a.Finite? then Finite(a.r / b.r) else InfOfSign(Sign(a) * Sign(b)))
    else if IsInf(b) then Finite(0.0)                     // finite over infinite
    else if Sign(a) == 0 then NaN                         // zero over zero
    else InfOfSign(Sign(a))                               // non-zero over zero
  }

  /** Scaling by a finite value distributes over a finite sum. */
  lemma MulAdditive(a: Ext, v1: real, v2: real)
    requires a.Finite?
    ensures Mul(a, Finite(v1 + v2)) == Add(Mul(a, Finite(v1)), Mul(a, Finite(v2)))
  {
    assert a.r * (v1 + v2) == a.r * v1 + a.r * v2;
  }

  /** Scaling by a finite value commutes with scaling by `k`. */
  lemma MulHomogeneous(a: Ext, v: real, k: real)
    requires a.Finite?
    ensures Mul(a, Finite(k * v)) == Mul(Finite(k), Mul(a, Finite(v)))
  {
    assert a.r * (k * v) == k * (a.r * v);
  }

  /** Scaling by a finite value commutes with negation. */
  lemma MulOdd(a: Ext, v: real)
    requires a.Finite?
    ensures Mul(a, Finite(-v)) == Neg(Mul(a, Finite(v)))
  {
    assert a.r * -v == -(a.r * v);
  }
}
