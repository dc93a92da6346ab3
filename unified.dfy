/** The unified model: a container that composes a mechanical model, an
    electrical model, an electro-mechanical coupling and a set of governing
    equations, stores the solution of those equations (one row per state
    component, one column per time step), and runs named post-processing
    pipelines over every time step of the solution in the order in which they
    were registered. */
module Unified {
  import opened Common
  import opened ExtReal
  import opened OrderedDict
  import opened Electrical

  // ---------------------------------------------------------------------
  // Trajectories as row-major matrices
  // ---------------------------------------------------------------------

  /** The function returns a vector as long as its argument. */
  ghost predicate KeepsLength(p: seq<real> -> seq<real>) {
    forall v :: |p(v)| == |v|
  }

  /** A post-processing pipeline: a function on the state vector of one time
      step that keeps its length. */
  type Pipeline = p: seq<real> -> seq<real> | KeepsLength(p) witness (v: seq<real>) => v

  /** The number of columns (time steps) of a row-major matrix. */
  function Width(m: seq<seq<real>>): nat {
    if |m| == 0 then 0 else |m[0]|
  }

  /** A rectangular matrix: every row has the same length. */
  ghost predicate IsMatrix(m: seq<seq<real>>) {
    forall i :: 0 <= i < |m| ==> |m[i]| == Width(m)
  }

  /** Column `j`: the state vector at time step `j`. */
  function Column(m: seq<seq<real>>, j: nat): (c: seq<real>)
    requires IsMatrix(m) && j < Width(m)
    ensures |c| == |m|
    ensures forall i :: 0 <= i < |m| ==> c[i] == m[i][j]
  {
    seq(|m|, i requires 0 <= i < |m| => m[i][j])
  }

  /** `.T`: the rows of the transpose are the columns of `m`. */
  function Transpose(m: seq<seq<real>>): (t: seq<seq<real>>)
    requires IsMatrix(m)
    ensures IsMatrix(t)
    ensures |t| == Width(m)
    ensures |t| > 0 ==> Width(t) == |m|
    ensures forall j :: 0 <= j < |t| ==> t[j] == Column(m, j)
  {
    seq(Width(m), j requires 0 <= j < Width(m) => Column(m, j))
  }

  /** One pass of `_apply_pipeline`: `np.array([p(y) for y in m.T]).T`. A
      trajectory with at least one row and one time step keeps its shape, and
      each time step's state vector goes through the pipeline. */
  function PassOf(p: Pipeline, m: seq<seq<real>>): (r: seq<seq<real>>)
    requires IsMatrix(m)
    ensures IsMatrix(r)
    ensures |m| > 0 && Width(m) > 0 ==> |r| == |m| && Width(r) == Width(m)
    ensures |m| > 0 && Width(m) > 0 ==> forall j :: 0 <= j < Width(m) ==> Column(r, j) == p(Column(m, j))
  {
    var cols := Transpose(m);
    var processed := seq(|cols|, k requires 0 <= k < |cols| => p(cols[k]));
    assert forall k :: 0 <= k < |processed| ==> |processed[k]| == |cols[k]| == |m|;
    var r := Transpose(processed);
    assert |m| > 0 && Width(m) > 0 ==> forall j :: 0 <= j < Width(m) ==> Column(r, j) == p(Column(m, j)) by {
      if |m| > 0 && Width(m) > 0 {
        assert |processed| == Width(m) && |processed[0]| == |m|;
        assert |r| == |m| && |r[0]| == |processed|;
        forall j | 0 <= j < Width(m) ensures Column(r, j) == p(Column(m, j)) {
          assert processed[j] == p(Column(m, j));
          forall i | 0 <= i < |m| ensures Column(r, j)[i] == processed[j][i] {
            assert r[i] == Column(processed, i);
          }
        }
      }
    }
    r
  }

  /** A trajectory with no time steps comes out of a pass empty, like the
      one-dimensional empty array numpy builds from an empty list. */
  lemma PassWithoutTimeSteps(p: Pipeline, m: seq<seq<real>>)
    requires IsMatrix(m) && Width(m) == 0
    ensures PassOf(p, m) == []
  {
  }

  /** Transposing twice gives back a matrix with at least one column, so a
      pass of the identity pipeline changes nothing. */
  lemma IdentityPass(m: seq<seq<real>>)
    requires IsMatrix(m) && Width(m) > 0
    ensures PassOf((v: seq<real>) => v, m) == m
  {
    var r := PassOf((v: seq<real>) => v, m);
    forall i | 0 <= i < |m| ensures r[i] == m[i] {
      forall j | 0 <= j < Width(m) ensures r[i][j] == m[i][j] {
        assert Column(r, j)[i] == Column(m, j)[i];
      }
    }
  }

  /** Every pipeline in order, each pass reading the result of the one
      before. */
  function ApplyAll(ps: seq<Pipeline>, m: seq<seq<real>>): (r: seq<seq<real>>)
    requires IsMatrix(m)
    ensures IsMatrix(r)
    ensures |m| > 0 && Width(m) > 0 ==> |r| == |m| && Width(r) == Width(m)
    decreases |ps|
  {
    if ps == [] then m
    else PassOf(ps[|ps| - 1], ApplyAll(ps[..|ps| - 1], m))
  }

  /** The pipelines applied in order to one state vector. */
  function RunColumn(ps: seq<Pipeline>, c: seq<real>): (r: seq<real>)
    ensures |r| == |c|
    decreases |ps|
  {
    if ps == [] then c
    else ps[|ps| - 1](RunColumn(ps[..|ps| - 1], c))
  }

  /** Column `j` of the post-processed trajectory is column `j` of the input
      run through every pipeline in order: it depends on no other column. */
  lemma {:induction false} ApplyAllColumns(ps: seq<Pipeline>, m: seq<seq<real>>)
    requires IsMatrix(m) && |m| > 0 && Width(m) > 0
    ensures forall j :: 0 <= j < Width(m) ==> Column(ApplyAll(ps, m), j) == RunColumn(ps, Column(m, j))
    decreases |ps|
  {
    if ps != [] {
      var n := |ps| - 1;
      ApplyAllColumns(ps[..n], m);
    }
  }

  /** Two pipelines registered as `p1` then `p2` turn each state vector `c`
      into `p2(p1(c))`. */
  lemma PipelinesInOrder(p1: Pipeline, p2: Pipeline, m: seq<seq<real>>, j: nat)
    requires IsMatrix(m) && |m| > 0 && j < Width(m)
    ensures Column(ApplyAll([p1, p2], m), j) == p2(p1(Column(m, j)))
  {
    ApplyAllColumns([p1, p2], m);
    RunTwo(p1, p2, Column(m, j));
  }

  lemma RunTwo(p1: Pipeline, p2: Pipeline, c: seq<real>)
    ensures RunColumn([p1, p2], c) == p2(p1(c))
  {
    var ps := [p1, p2];
    assert ps[..1] == [p1] && ps[1] == p2;
    assert [p1][..0] == [] && [p1][0] == p1;
    assert RunColumn([p1], c) == p1(c);
    assert RunColumn(ps, c) == p2(RunColumn([p1], c));
  }

  /** Two trajectories of the same shape that agree on time step `j` agree
      on it after post-processing, whatever their other columns hold. */
  lemma ColumnLocality(ps: seq<Pipeline>, m: seq<seq<real>>, m': seq<seq<real>>, j: nat)
    requires IsMatrix(m) && IsMatrix(m') && |m| > 0 && |m'| == |m| && Width(m') == Width(m)
    requires j < Width(m) && Column(m, j) == Column(m', j)
    ensures Column(ApplyAll(ps, m), j) == Column(ApplyAll(ps, m'), j)
  {
    ApplyAllColumns(ps, m);
    ApplyAllColumns(ps, m');
  }

  /** Registering more pipelines after others runs them on the earlier
      result. */
  lemma {:induction false} ApplyAllAppend(ps: seq<Pipeline>, qs: seq<Pipeline>, m: seq<seq<real>>)
    requires IsMatrix(m)
    ensures ApplyAll(ps + qs, m) == ApplyAll(qs, ApplyAll(ps, m))
    decreases |qs|
  {
    if qs == [] {
      assert ps + qs == ps;
    } else {
      var n := |qs| - 1;
      assert (ps + qs)[..|ps + qs| - 1] == ps + qs[..n];
      assert (ps + qs)[|ps + qs| - 1] == qs[n];
      ApplyAllAppend(ps, qs[..n], m);
    }
  }

  // ---------------------------------------------------------------------
  // The UnifiedModel object
  // ---------------------------------------------------------------------

  /** `UnifiedModel`. The mechanical model, the coupling and the governing
      equations are only stored here, so their types are parameters. */
  class UnifiedModel<Mechanical, Coupling, Equations> {
    var mechanicalModel: Option<Mechanical>
    var electricalModel: Option<ElectricalModel>
    var couplingModel: Option<Coupling>
    var governingEquations: Option<Equations>
    var rawSolution: Option<seq<seq<real>>>
    var postProcessingPipeline: seq<(string, Pipeline)>
    var time: Option<seq<real>>

    /** The stored solution, like the array it stands for, is rectangular,
        and every pipeline name is registered once. */
    ghost predicate Valid()
      reads this
    {
      && (rawSolution.Some? ==> IsMatrix(rawSolution.value))
      && DistinctKeys(postProcessingPipeline)
    }

    /** `__init__`: no components, no solution, no pipelines. */
    constructor ()
      ensures Valid()
      ensures mechanicalModel == None && electricalModel == None && couplingModel == None
      ensures governingEquations == None
      ensures rawSolution == None && time == None
      ensures postProcessingPipeline == []
    {
      mechanicalModel := None;
      electricalModel := None;
      couplingModel := None;
      governingEquations := None;
      rawSolution := None;
      postProcessingPipeline := [];
      time := None;
    }

    /** `set_mechanical_model`. */
    method SetMechanicalModel(model: Mechanical) returns (self: UnifiedModel<Mechanical, Coupling, Equations>)
      modifies this`mechanicalModel
      ensures self == this && mechanicalModel == Some(model)
    {
      mechanicalModel := Some(model);
      self := this;
    }

    /** `set_electrical_model`. */
    method SetElectricalModel(model: ElectricalModel) returns (self: UnifiedModel<Mechanical, Coupling, Equations>)
      modifies this`electricalModel
      ensures self == this && electricalModel == Some(model)
    {
      electricalModel := Some(model);
      self := this;
    }

    /** `set_coupling_model`. */
    method SetCouplingModel(model: Coupling) returns (self: UnifiedModel<Mechanical, Coupling, Equations>)
      modifies this`couplingModel
      ensures self == this && couplingModel == Some(model)
    {
      couplingModel := Some(model);
      self := this;
    }

    /** `set_governing_equations`. */
    method SetGoverningEquations(equations: Equations) returns (self: UnifiedModel<Mechanical, Coupling, Equations>)
      modifies this`governingEquations
      ensures self == this && governingEquations == Some(equations)
    {
      governingEquations := Some(equations);
      self := this;
    }

    /** `set_post_processing_pipeline(pipeline, name)`: binds `name` to the
        pipeline. A new name runs after every pipeline registered before it;
        a name registered before is rebound where it stands. */
    method SetPostProcessingPipeline(pipeline: Pipeline, name: string) returns (self: UnifiedModel<Mechanical, Coupling, Equations>)
      requires Valid()
      modifies this`postProcessingPipeline
      ensures self == this && Valid()
      ensures postProcessingPipeline == Put(old(postProcessingPipeline), name, pipeline)
      ensures Get(postProcessingPipeline, name) == Some(pipeline)
      ensures name !in Keys(old(postProcessingPipeline)) ==>
                Values(postProcessingPipeline) == Values(old(postProcessingPipeline)) + [pipeline]
      ensures forall i :: 0 <= i < |old(postProcessingPipeline)| && old(postProcessingPipeline)[i].0 == name ==>
                Values(postProcessingPipeline) == Values(old(postProcessingPipeline))[i := pipeline]
    {
      ghost var before := postProcessingPipeline;
      postProcessingPipeline := Put(postProcessingPipeline, name, pipeline);
      if name !in Keys(before) {
        PutNew(before, name, pipeline);
      }
      forall i | 0 <= i < |before| && before[i].0 == name
        ensures Values(postProcessingPipeline) == Values(before)[i := pipeline]
      {
        PutValuesAt(before, name, pipeline, i);
      }
      self := this;
    }

    /** `_apply_pipeline`: every registered pipeline, in registration order,
        replaces the solution with its pass over it. With pipelines registered
        and no solution, the first pass reads `.T` of None (AttributeError). */
    method ApplyPipeline() returns (outcome: Outcome)
      requires Valid()
      modifies this`rawSolution
      ensures Valid()
      ensures old(rawSolution).None? && postProcessingPipeline != [] ==>
                outcome == Fail(MissingAttribute("T")) && rawSolution == None
      ensures old(rawSolution).None? && postProcessingPipeline == [] ==> outcome == Pass && rawSolution == None
      ensures old(rawSolution).Some? ==>
                outcome == Pass && rawSolution == Some(ApplyAll(Values(postProcessingPipeline), old(rawSolution).value))
    {
      var pipelines := Values(postProcessingPipeline);
      if rawSolution.None? {
        if pipelines != [] {
          return Fail(MissingAttribute("T"));
        }
        return Pass;
      }
      ghost var start := rawSolution.value;
      for i := 0 to |pipelines|
        invariant rawSolution == Some(ApplyAll(pipelines[..i], start))
      {
        assert pipelines[..i + 1][..i] == pipelines[..i];
        rawSolution := Some(PassOf(pipelines[i], rawSolution.value));
      }
      assert pipelines[..|pipelines|] == pipelines;
      outcome := Pass;
    }

    /** The tail of `solve`: store the time steps `t` and the solution `y`
        that the integrator returned, then post-process the solution. */
    method StoreSolution(t: seq<real>, y: seq<seq<real>>) returns (outcome: Outcome)
      requires Valid() && IsMatrix(y)
      modifies this`time, this`rawSolution
      ensures Valid()
      ensures time == Some(t)
      ensures outcome == Pass && rawSolution == Some(ApplyAll(Values(postProcessingPipeline), y))
    {
      time := Some(t);
      rawSolution := Some(y);
      outcome := ApplyPipeline();
    }

    /** The predicted EMF that `score_electrical_model` scores: unchanged in
        open-circuit mode; in closed-circuit mode each sample is scaled by
        `R_load / (R_load + R_coil)`, the voltage across the load. Without an
        electrical model, or one without a load, the attributes cannot be
        read (AttributeError). */
    function ScoredEmf(emfPredict: seq<Ext>, closedCircuit: bool): (r: Result<seq<Ext>>)
      reads this, if electricalModel.Some? then {electricalModel.value} else {}
      ensures !closedCircuit ==> r == Ok(emfPredict)
      ensures closedCircuit && electricalModel.None? ==> r == Err(MissingAttribute("coil_resistance"))
      ensures closedCircuit && electricalModel.Some? && electricalModel.value.loadModel.None? ==>
                r == Err(MissingAttribute("R"))
      ensures r.Err? ==> r.error.Kind() == AttributeError
      ensures r.Ok? ==> |r.value| == |emfPredict|
      ensures r.Ok? && closedCircuit ==>
                forall i :: 0 <= i < |emfPredict| ==>
                  r.value[i] == Mul(emfPredict[i], Div(Finite(electricalModel.value.loadModel.value.R),
                                                      Add(Finite(electricalModel.value.loadModel.value.R),
                                                          electricalModel.value.coilResistance)))
    {
      if !closedCircuit then Ok(emfPredict)
      else if electricalModel.None? then Err(MissingAttribute("coil_resistance"))
      else
        var rCoil := electricalModel.value.coilResistance;
        match electricalModel.value.loadModel
        case None => Err(MissingAttribute("R"))
        case Some(load) =>
          var ratio := Div(Finite(load.R), Add(Finite(load.R), rCoil));
          Ok(seq(|emfPredict|, i requires 0 <= i < |emfPredict| => Mul(emfPredict[i], ratio)))
    }

    /** In closed-circuit mode each scored sample is the load voltage: the
        load current of the electrical model times the load resistance, for
        finite values and non-zero resistances. With the default, infinite
        coil resistance every finite sample scores as zero. */
    lemma ScoredEmfIsLoadVoltage(emfPredict: seq<Ext>, i: nat)
      requires electricalModel.Some? && electricalModel.value.loadModel.Some?
      requires i < |emfPredict| && emfPredict[i].Finite?
      requires electricalModel.value.loadModel.value.R != 0.0
      ensures ScoredEmf(emfPredict, true).Ok?
      ensures electricalModel.value.coilResistance.Finite? &&
              electricalModel.value.loadModel.value.R + electricalModel.value.coilResistance.r != 0.0 ==>
                ScoredEmf(emfPredict, true).value[i] ==
                  Mul(electricalModel.value.GetCurrent(emfPredict[i]), Finite(electricalModel.value.loadModel.value.R))
      ensures IsInf(electricalModel.value.coilResistance) ==> ScoredEmf(emfPredict, true).value[i] == Finite(0.0)
    {
      var e := emfPredict[i].r;
      var R := electricalModel.value.loadModel.value.R;
      var rc := electricalModel.value.coilResistance;
      if rc.Finite? && R + rc.r != 0.0 {
        var t := R + rc.r;
        assert ScoredEmf(emfPredict, true).value[i] == Finite(e * (R / t));
        assert electricalModel.value.GetCurrent(emfPredict[i]) == Finite(e / t);
        DivScale(e, R, t);
      }
    }
  }

  /** A fresh model, configured by chained setters and given a solution, holds
      each component, and with no pipelines registered keeps the solution as
      the integrator returned it. */
  method BuildAndSolve<M, C, G>(mech: M, elec: ElectricalModel, coupling: C, equations: G,
                                t: seq<real>, y: seq<seq<real>>)
    returns (model: UnifiedModel<M, C, G>)
    requires IsMatrix(y)
    ensures model.mechanicalModel == Some(mech) && model.electricalModel == Some(elec)
    ensures model.couplingModel == Some(coupling) && model.governingEquations == Some(equations)
    ensures model.time == Some(t) && model.rawSolution == Some(y)
  {
    model := new UnifiedModel<M, C, G>();
    var self := model.SetMechanicalModel(mech);
    self := self.SetElectricalModel(elec);
    self := self.SetCouplingModel(coupling);
    self := self.SetGoverningEquations(equations);
    var outcome := self.StoreSolution(t, y);
  }
}
