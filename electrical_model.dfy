/** The electrical side of the energy harvester: the finite-difference flux
    gradient with its guard against infinities, and the `ElectricalModel`
    object that holds a flux model, a coil resistance and an optional load and
    from them computes the flux gradient, the open-circuit EMF and the load
    current. Flux samples, resistances, EMFs and currents are floating-point
    values (`Ext`), because the coil resistance defaults to infinity. */
module Electrical {
  import opened Common
  import opened ExtReal

  /** The default step of the central difference (`delta_x=1e-3`). */
  const DefaultDeltaX: real := 0.001

  /** `(f(x + delta_x) - f(x - delta_x)) / (2 * delta_x)`, before the guard. */
  function CentralDifference(f: real -> Ext, x: real, dx: real): (q: Ext)
    ensures dx != 0.0 && f(x + dx).Finite? && f(x - dx).Finite? ==>
              q == Finite((f(x + dx).r - f(x - dx).r) / (2.0 * dx))
    ensures f(x + dx).NaN? || f(x - dx).NaN? ==> q.NaN?
  {
    Div(Sub(f(x + dx), f(x - dx)), Finite(2.0 * dx))
  }

  /** `_gradient`: the central difference, with an infinite result replaced by
      0.0 and any other result (NaN included) returned unchanged. */
  function Gradient(f: real -> Ext, x: real, dx: real): (g: Ext)
    ensures !IsInf(g)
    ensures IsInf(CentralDifference(f, x, dx)) ==> g == Finite(0.0)
    ensures !IsInf(CentralDifference(f, x, dx)) ==> g == CentralDifference(f, x, dx)
  {
    var gradient := CentralDifference(f, x, dx);
    if IsInf(gradient) then Finite(0.0) else gradient
  }

  /** On finite samples and a non-zero step the gradient is the exact
      difference quotient. */
  lemma GradientOfFiniteSamples(f: real -> Ext, x: real, dx: real)
    requires dx != 0.0 && f(x + dx).Finite? && f(x - dx).Finite?
    ensures Gradient(f, x, dx) == Finite((f(x + dx).r - f(x - dx).r) / (2.0 * dx))
  {
  }

  /** The central difference is exact on quadratics: for
      `f(z) = a z^2 + b z + c` the gradient at `x` is `2 a x + b`, whatever
      the (non-zero) step. */
  lemma GradientOfQuadratic(f: real -> Ext, a: real, b: real, c: real, x: real, dx: real)
    requires dx != 0.0
    requires forall z :: f(z) == Finite(a * z * z + b * z + c)
    ensures Gradient(f, x, dx) == Finite(2.0 * a * x + b)
  {
    var hi := a * (x + dx) * (x + dx) + b * (x + dx) + c;
    var lo := a * (x - dx) * (x - dx) + b * (x - dx) + c;
    assert f(x + dx) == Finite(hi) && f(x - dx) == Finite(lo);
    assert (x + dx) * (x + dx) - (x - dx) * (x - dx) == 4.0 * x * dx;
    assert hi - lo == a * (4.0 * x * dx) + b * (2.0 * dx);
    assert hi - lo == (2.0 * a * x + b) * (2.0 * dx);
    GradientOfFiniteSamples(f, x, dx);
  }

  /** A difference with exactly one infinite sample is infinite (with a
      positive step, the same infinity as the sample), so the guard turns it
      into 0.0. */
  lemma GradientOneInfiniteSample(f: real -> Ext, x: real, dx: real)
    requires dx != 0.0
    requires IsInf(f(x + dx)) && f(x - dx).Finite?
    ensures IsInf(CentralDifference(f, x, dx))
    ensures dx > 0.0 ==> CentralDifference(f, x, dx) == f(x + dx)
    ensures Gradient(f, x, dx) == Finite(0.0)
  {
  }

  /** The guard does not rule out NaN: when both samples are the same
      infinity their difference is NaN, `np.isinf` is false for it, and NaN is
      returned. */
  lemma GradientCanBeNaN(x: real, dx: real)
    ensures Gradient(_ => PosInf, x, dx) == NaN
  {
    assert Sub(PosInf, PosInf) == NaN;
  }

  /** A load model; only its resistance `R` is used. */
  datatype Load = Load(R: real)

  /** `ElectricalModel`. `dfluxModel` is None until `set_flux_model` assigns
      it (reading it earlier is an AttributeError); `fluxModel` and
      `fluxGradient` are None until assigned (calling them then is a
      TypeError). `fluxGradient` and `precomputeGradient` are assigned
      directly by the model's users: no method of the class sets them. */
  class ElectricalModel {
    var name: string
    var fluxModel: Option<real -> Ext>
    var dfluxModel: Option<real -> Ext>
    var coilResistance: Ext
    var loadModel: Option<Load>
    var fluxGradient: Option<real -> Ext>
    var precomputeGradient: bool

    /** `__init__`: an open circuit (infinite coil resistance), no flux model,
        no load, gradients computed on demand. */
    constructor (name: string)
      ensures this.name == name
      ensures fluxModel == None && dfluxModel == None
      ensures coilResistance == PosInf
      ensures loadModel == None
      ensures fluxGradient == None && !precomputeGradient
    {
      this.name := name;
      fluxModel := None;
      dfluxModel := None;
      coilResistance := PosInf;
      loadModel := None;
      fluxGradient := None;
      precomputeGradient := false;
    }

    /** `set_flux_model`: stores both the flux model and its derivative. */
    method SetFluxModel(f: real -> Ext, df: real -> Ext)
      modifies this
      ensures fluxModel == Some(f) && dfluxModel == Some(df)
      ensures name == old(name) && coilResistance == old(coilResistance) && loadModel == old(loadModel)
      ensures fluxGradient == old(fluxGradient) && precomputeGradient == old(precomputeGradient)
    {
      fluxModel := Some(f);
      dfluxModel := Some(df);
    }

    /** `set_coil_resistance`. */
    method SetCoilResistance(R: Ext)
      modifies this
      ensures coilResistance == R
      ensures name == old(name) && fluxModel == old(fluxModel) && dfluxModel == old(dfluxModel)
      ensures loadModel == old(loadModel)
      ensures fluxGradient == old(fluxGradient) && precomputeGradient == old(precomputeGradient)
    {
      coilResistance := R;
    }

    /** `set_load_model`; None removes the load. */
    method SetLoadModel(load: Option<Load>)
      modifies this
      ensures loadModel == load
      ensures name == old(name) && fluxModel == old(fluxModel) && dfluxModel == old(dfluxModel)
      ensures coilResistance == old(coilResistance)
      ensures fluxGradient == old(fluxGradient) && precomputeGradient == old(precomputeGradient)
    {
      loadModel := load;
    }

    /** `get_flux_gradient(y)`: the gradient at the magnet's position relative
        to the tube, `x3 - x1`, from the precomputed gradient or by central
        difference of the flux model. A state of other than five entries
        cannot be unpacked (ValueError). */
    function GetFluxGradient(y: seq<real>): (r: Result<Ext>)
      reads this
      ensures |y| != 5 <==> r == Err(WrongStateLength(|y|))
      ensures r.Err? ==> r.error.Kind() in {ValueError, TypeError}
      ensures |y| == 5 && precomputeGradient ==>
                r == (if fluxGradient.Some? then Ok(fluxGradient.value(y[2] - y[0])) else Err(NotCallable("flux_gradient")))
      ensures |y| == 5 && !precomputeGradient ==>
                r == (if fluxModel.Some? then Ok(Gradient(fluxModel.value, y[2] - y[0], DefaultDeltaX))
                      else Err(NotCallable("flux_model")))
      ensures r.Ok? && !precomputeGradient ==> !IsInf(r.value)
    {
      if |y| != 5 then Err(WrongStateLength(|y|))
      else
        var x1, x3 := y[0], y[2];
        if precomputeGradient then
          match fluxGradient
          case None => Err(NotCallable("flux_gradient"))
          case Some(g) => Ok(g(x3 - x1))
        else
          match fluxModel
          case None => Err(NotCallable("flux_model"))
          case Some(f) => Ok(Gradient(f, x3 - x1, DefaultDeltaX))
    }

    /** The flux gradient depends on the state only through `x3 - x1`. */
    lemma FluxGradientRelative(y: seq<real>, y': seq<real>)
      requires |y| == 5 && |y'| == 5 && y[2] - y[0] == y'[2] - y'[0]
      ensures GetFluxGradient(y) == GetFluxGradient(y')
    {
    }

    /** `get_emf`: `dflux_model(mag_pos) * mag_vel`, the open-circuit EMF. */
    function GetEmf(magPos: real, magVel: real): (r: Result<Ext>)
      reads this
      ensures r.Err? <==> dfluxModel.None?
      ensures r.Err? ==> r.error == MissingAttribute("dflux_model") && r.error.Kind() == AttributeError
      ensures r.Ok? && dfluxModel.value(magPos).Finite? ==> r.value == Finite(dfluxModel.value(magPos).r * magVel)
      ensures r.Ok? && magVel == 0.0 && dfluxModel.value(magPos).Finite? ==> r.value == Finite(0.0)
      ensures r.Ok? && dfluxModel.value(magPos).NaN? ==> r.value.NaN?
    {
      match dfluxModel
      case None => Err(MissingAttribute("dflux_model"))
      case Some(dphi) =>
        var dphiDz := dphi(magPos);
        assert dphiDz.Finite? ==> Mul(dphiDz, Finite(magVel)) == Finite(dphiDz.r * magVel);
        Ok(Mul(dphiDz, Finite(magVel)))
    }

    /** With a finite flux derivative the EMF is linear in the velocity:
        additive, homogeneous and odd. */
    lemma EmfLinearInVelocity(magPos: real, v1: real, v2: real, k: real)
      requires dfluxModel.Some? && dfluxModel.value(magPos).Finite?
      ensures GetEmf(magPos, v1 + v2) == Ok(Add(GetEmf(magPos, v1).value, GetEmf(magPos, v2).value))
      ensures GetEmf(magPos, k * v1) == Ok(Mul(Finite(k), GetEmf(magPos, v1).value))
      ensures GetEmf(magPos, -v1) == Ok(Neg(GetEmf(magPos, v1).value))
    {
      var dphi := dfluxModel.value(magPos);
      assert GetEmf(magPos, v1) == Ok(Mul(dphi, Finite(v1)));
      assert GetEmf(magPos, v2) == Ok(Mul(dphi, Finite(v2)));
      assert GetEmf(magPos, v1 + v2) == Ok(Mul(dphi, Finite(v1 + v2)));
      assert GetEmf(magPos, k * v1) == Ok(Mul(dphi, Finite(k * v1)));
      assert GetEmf(magPos, -v1) == Ok(Mul(dphi, Finite(-v1)));
      MulAdditive(dphi, v1, v2);
      MulHomogeneous(dphi, v1, k);
      MulOdd(dphi, v1);
    }

    /** `get_current`: zero without a load; otherwise the load voltage
        `emf * R / (R + R_coil)` divided by `R`, which is Ohm's law
        `emf / (R + R_coil)` for a non-zero load, and zero for an open circuit. */
    function GetCurrent(emfOc: Ext): (i: Ext)
      reads this
      ensures loadModel.None? ==> i == Finite(0.0)
      ensures loadModel.Some? && emfOc.Finite? && coilResistance.Finite? &&
              loadModel.value.R != 0.0 && loadModel.value.R + coilResistance.r != 0.0 ==>
                i == Finite(emfOc.r / (loadModel.value.R + coilResistance.r))
      ensures loadModel.Some? && emfOc.Finite? && IsInf(coilResistance) && loadModel.value.R != 0.0 ==>
                i == Finite(0.0)
      ensures emfOc.NaN? && loadModel.Some? ==> i.NaN?
    {
      match loadModel
      case None => Finite(0.0)
      case Some(load) =>
        LoadCurrentCases(emfOc, load.R, coilResistance);
        LoadCurrent(emfOc, load.R, coilResistance)
    }

    /** With a finite load resistance, an open circuit draws no current for
        any finite EMF; with a finite coil resistance the current times the
        total resistance is the EMF. */
    lemma OhmsLaw(emf: real)
      requires loadModel.Some? && loadModel.value.R != 0.0
      ensures IsInf(coilResistance) ==> GetCurrent(Finite(emf)) == Finite(0.0)
      ensures coilResistance.Finite? && loadModel.value.R + coilResistance.r != 0.0 ==>
                GetCurrent(Finite(emf)).r * (loadModel.value.R + coilResistance.r) == emf
    {
    }
  }

  /** The current through a load `R` in series with the coil `rCoil`, computed
      as `get_current` does: the load voltage `emf * R / (R + rCoil)` divided
      by `R`. */
  function LoadCurrent(emf: Ext, R: real, rCoil: Ext): (i: Ext)
    ensures emf.NaN? || rCoil.NaN? ==> i.NaN?
    ensures emf.Finite? && IsInf(rCoil) && R != 0.0 ==> i == Finite(0.0)
  {
    var rLoad := Finite(R);
    var vLoad := Div(Mul(emf, rLoad), Add(rLoad, rCoil));
    assert emf.Finite? && IsInf(rCoil) ==> vLoad == Finite(0.0);
    Div(vLoad, rLoad)
  }

  /** For finite values and non-zero resistances the load current is Ohm's law
      `emf / (R + rCoil)`; an open circuit carries none; NaN propagates. */
  lemma LoadCurrentCases(emf: Ext, R: real, rCoil: Ext)
    ensures emf.Finite? && rCoil.Finite? && R != 0.0 && R + rCoil.r != 0.0 ==>
              LoadCurrent(emf, R, rCoil) == Finite(emf.r / (R + rCoil.r))
    ensures emf.Finite? && IsInf(rCoil) && R != 0.0 ==> LoadCurrent(emf, R, rCoil) == Finite(0.0)
    ensures emf.NaN? ==> LoadCurrent(emf, R, rCoil).NaN?
  {
    if emf.Finite? && rCoil.Finite? && R != 0.0 && R + rCoil.r != 0.0 {
      var t := R + rCoil.r;
      assert Add(Finite(R), rCoil) == Finite(t);
      assert Mul(emf, Finite(R)) == Finite(emf.r * R);
      DivScale(emf.r, R, t);
      assert Div(Finite(emf.r * R), Finite(t)) == Finite(emf.r / t * R);
      ScaleCancels(emf.r / t, R);
    } else if emf.Finite? && IsInf(rCoil) && R != 0.0 {
      assert IsInf(Add(Finite(R), rCoil));
      assert Div(Mul(emf, Finite(R)), Add(Finite(R), rCoil)) == Finite(0.0);
    }
  }

  /** `e * R / t == e * (R / t) == (e / t) * R`. */
  lemma DivScale(e: real, R: real, t: real)
    requires t != 0.0
    ensures e * R / t == e / t * R
    ensures e * (R / t) == e / t * R
  {
  }

  /** `x * R / R == x`. */
  lemma ScaleCancels(x: real, R: real)
    requires R != 0.0
    ensures x * R / R == x
  {
  }

  /** A freshly built model with a finite, non-zero load draws no current,
      whatever the (finite) EMF: the default coil resistance is infinite. */
  method FreshModelIsOpenCircuit(name: string, load: Load, emf: real) returns (current: Ext)
    requires load.R != 0.0
    ensures current == Finite(0.0)
  {
    var model := new ElectricalModel(name);
    model.SetLoadModel(Some(load));
    current := model.GetCurrent(Finite(emf));
  }
}
