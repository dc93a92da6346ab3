# Unified-Model core in Dafny

This project models the core of Unified-Model, a simulator of an
electromagnetic vibration energy harvester: a magnet assembly moves through a
coil inside a tube, and a set of governing equations couples the mechanical
system to the electrical one. The model covers four parts of the Python code
and proves properties about them.

- **The flux database** (`flux_utils.dfy`, module `FluxUtils`),
  `unified_model/electrical_system/flux/utils.py`. ANSYS Maxwell runs a
  parametric sweep and exports one flux curve per column, with the sweep
  parameters written into the heading, for example
  `Flux [Wb] - h_coil='2mm' r='5mm'`. `FluxDatabase` does the following:
  - parses each heading into an ordered name→value dict;
  - builds a name→position lookup table (`lut`) once, from the heading of
    column 1;
  - turns keyword arguments into a tuple key with each value at its name's
    position;
  - stores and retrieves curves under those keys.

  The object is a class with fields `lut: Option<map<string, nat>>` and
  `database: map<seq<string>, V>`. Each method is proved against a pure
  specification function, and the lemmas are proved about those functions:
  - `ExtractParameterFromStr` against `HeaderParams`;
  - `CreateIndex` against `Enumerate`;
  - `MakeDbKey` against `MakeKey`;
  - `Query` against `QueryIn`;
  - `ProduceDatabase` against `StoreAll` over `ColumnKeys`.
- **The electrical model** (`electrical_model.dfy`, module `Electrical`),
  `unified_model/electrical_model.py`. It covers:
  - the central-difference gradient `_gradient` and its guard that turns an
    infinite result into 0.0;
  - the `ElectricalModel` object: its constructor and setters as methods, and
    `get_flux_gradient`, `get_emf` and `get_current` as functions that read
    the object.
- **The damper** (`damper.dfy`, module `Damper`),
  `unified_model/mechanical_components/damper.py`: `F = c * v`.
- **The unified model** (`unified.dfy`, module `Unified`),
  `unified_model/unified.py`. It covers:
  - the container and its fluent setters, each returning the object itself;
  - the insertion-ordered pipeline registry;
  - `_apply_pipeline`, which runs every pipeline in order over every time
    step of the `d x n` solution and writes the result back;
  - the closed-circuit rescaling of the predicted EMF in
    `score_electrical_model`.

Three modules are shared by the others:
- `Common` holds `Option`, `Result` and `Outcome`, and an `Error` type. Each
  error knows the Python exception class that the original raises (`KeyError`,
  `ValueError`, `TypeError`, `IndexError` or `AttributeError`). Every raise
  of the core becomes an `Err`/`Fail` value.
- `OrderedDict` models a Python `dict` whose iteration order matters: a
  sequence of (key, value) pairs. `Put` is `d[k] = v`: a new key goes to the
  end, and an existing key keeps its place.
- `ExtReal` models floating-point values as exact reals plus `PosInf`,
  `NegInf` and `NaN`, with the IEEE 754 rules for propagating them through
  `+`, `-`, `*` and `/`. This matters because the coil resistance defaults to
  infinity, and because `_gradient` tests `np.isinf`.

Two records that the core only reads are datatypes. `Electrical.Load` has no
operation of its own: it is the load object whose `R` `get_current` reads
(`unified_model/electrical_model.py:151`). `Damper.ConstantDamper` is the
damper, whose constructor only stores the coefficient
(`unified_model/mechanical_components/damper.py:13-22`); its one operation is
`GetForce`.

Notes on where the code and its documentation differ. The model follows the
code in each case.
- `set_flux_model` stores `flux_model` and `dflux_model` and never assigns
  `flux_gradient` (`unified_model/electrical_model.py:70-71`), although the
  class documentation says it does. In the model, `fluxGradient` and
  `precomputeGradient` are plain public fields that the model's users assign.
  No setter was invented for them.
- `dflux_model` is not set by `__init__`. Calling `get_emf` before
  `set_flux_model` is therefore an `AttributeError`, which the model keeps
  apart from calling a `None` attribute (`TypeError`).
- `_gradient` is meant to guard the flux gradient against non-finite values.
  It still returns NaN in two cases, and `GradientCanBeNaN` shows the first:
  - both samples are the same infinity, because `inf - inf` is NaN and
    `np.isinf(nan)` is false;
  - a sample is NaN.
- `set_post_processing_pipeline` documents a pipeline as taking the whole
  `(N, d)` array. `_apply_pipeline` actually calls it once per time step, on
  one state vector (`unified.py:194`). The model follows the code.
- `_make_db_key` indexes the key list by the table's positions. A table built
  from a key list that repeats a name keeps that name's last index, so a key
  can fail with `IndexError` (`PositionOutOfRange`). This cannot happen with a
  table built from a dict's keys, and `KeyUnderOwnIndex` proves it.

Inputs that the Python code gets from I/O or from code that is not modelled
become parameters:
- `ProduceDatabase` takes the column headings and column data that
  `pd.read_csv` would produce.
- `StoreSolution` takes the time grid and trajectory that
  `scipy.integrate.solve_ivp` returns.
- `ScoredEmf` takes the predicted EMF samples that `get_result` would
  compute.

## Model

| member | source | states |
|---|---|---|
| FluxUtils.Words | unified_model/electrical_system/flux/utils.py:87 | `str.split()`: every piece is a non-empty run of non-whitespace characters |
| FluxUtils.WordsOfUnwords | unified_model/electrical_system/flux/utils.py:87 | splitting words that were joined by single spaces gives back exactly those words |
| FluxUtils.WordsOfWord | unified_model/electrical_system/flux/utils.py:87 | a single run of non-whitespace characters splits into exactly itself |
| FluxUtils.WordsAtSpace | unified_model/electrical_system/flux/utils.py:87 | splitting at a whitespace character splits the two sides separately and concatenates the results in order |
| FluxUtils.SplitOn | unified_model/electrical_system/flux/utils.py:89-90 | `str.split('=')`: no piece contains the separator; there is at least one piece, and at least two when the separator occurs |
| FluxUtils.JoinOnSplitOn | unified_model/electrical_system/flux/utils.py:89-90 | rejoining the pieces of a split with the separator gives back the string |
| FluxUtils.SplitOnJoinOn | unified_model/electrical_system/flux/utils.py:89-90 | splitting separator-free pieces that were joined gives back the pieces |
| FluxUtils.RemoveQuotes | unified_model/electrical_system/flux/utils.py:90 | `replace("'", '')`: no quote is left in the result |
| FluxUtils.RemoveQuotesCounts | unified_model/electrical_system/flux/utils.py:90 | every character other than the quote is kept exactly as often as it occurred, and the quotes are gone |
| FluxUtils.RemoveQuotesAppend | unified_model/electrical_system/flux/utils.py:90 | removing quotes works piece by piece: it maps `a + b` to the result for `a` followed by the result for `b`, so the order is kept |
| FluxUtils.RemoveQuotesNoQuote | unified_model/electrical_system/flux/utils.py:90 | a string without quotes is returned unchanged |
| FluxUtils.TokenFields | unified_model/electrical_system/flux/utils.py:89-90 | `ParameterName` (`split('=')[0]`) and `ParameterValue` (`split('=')[1].replace("'", '')`): a token's name is the text before its first `=`; its value is the text between the first and second `=` (or the end), without quotes |
| FluxUtils.Kept | unified_model/electrical_system/flux/utils.py:88 | exactly the tokens that contain `=` are kept; all others are dropped |
| FluxUtils.KeptAppend | unified_model/electrical_system/flux/utils.py:88 | the filter works piece by piece: the tokens kept from `a + b` are those kept from `a` followed by those kept from `b` |
| FluxUtils.KeptSingle | unified_model/electrical_system/flux/utils.py:88 | a single token is kept exactly when it contains `=` |
| FluxUtils.Names | unified_model/electrical_system/flux/utils.py:89 | one name per token, in token order |
| FluxUtils.ParamValues | unified_model/electrical_system/flux/utils.py:90 | one value per token, in token order |
| FluxUtils.Fill | unified_model/electrical_system/flux/utils.py:92-94 | filling a dict name by name leaves no name repeated |
| FluxUtils.FillNames | unified_model/electrical_system/flux/utils.py:92-94 | the filled dict has an entry for exactly the names in the list |
| FluxUtils.FillLastWins | unified_model/electrical_system/flux/utils.py:93-94 | a name's entry is the value paired with its last occurrence in the list |
| FluxUtils.ParamDict | unified_model/electrical_system/flux/utils.py:88-94 | the dict filled from the tokens' names and values has no repeated name |
| FluxUtils.ParamDictNames | unified_model/electrical_system/flux/utils.py:88-94 | a name is in the parsed dict if and only if some kept token carries that name |
| FluxUtils.ParamDictLastWins | unified_model/electrical_system/flux/utils.py:93-94 | a name's value is that of the last token carrying the name: later tokens overwrite earlier ones |
| FluxUtils.HeaderParams | unified_model/electrical_system/flux/utils.py:87-95 | the dict parsed from a heading never repeats a name |
| FluxUtils.FluxDatabase.ExtractParameterFromStr | unified_model/electrical_system/flux/utils.py:87-95 | the dict-filling loop yields exactly the parsed parameters of the heading, with distinct names |
| FluxUtils.Enumerate | unified_model/electrical_system/flux/utils.py:244-245 | the table's names are exactly the listed keys; each maps to a position holding that key, and never to a position before any occurrence of it |
| FluxUtils.EnumerateDistinct | unified_model/electrical_system/flux/utils.py:242-245 | from distinct keys, the table maps the i-th key to i: an injection onto 0 .. len-1 |
| FluxUtils.FluxDatabase.CreateIndex | unified_model/electrical_system/flux/utils.py:242-247 | with no table yet, it builds the enumeration table; when a table exists, it fails with `ValueError` and leaves the table unchanged |
| FluxUtils.FillSlots | unified_model/electrical_system/flux/utils.py:114-115 | a successful fill has one slot per table entry; a failure is an unknown name (not in the table) or a position past the end of the key list |
| FluxUtils.FillSlotsErrSticks | unified_model/electrical_system/flux/utils.py:114-115 | the first failing keyword argument ends the fill: later arguments do not change the error |
| FluxUtils.FillSlotsSpec | unified_model/electrical_system/flux/utils.py:113-115 | filling succeeds if and only if every name is known; then a slot is filled if and only if some name sits at its position; failures are unknown names or out-of-range positions |
| FluxUtils.FillSlotsValues | unified_model/electrical_system/flux/utils.py:113-115 | each name's slot holds that name's value |
| FluxUtils.MakeKey | unified_model/electrical_system/flux/utils.py:111-118 | no table is a `TypeError`, and the only failure without a table; a key has the table's length; every failure is a `KeyError` (unknown name, missing name), an `IndexError` (position past the end, possible when the table came from a key list that repeats a name) or that `TypeError` |
| FluxUtils.MakeKeySpec | unified_model/electrical_system/flux/utils.py:113-118 | a key is made if and only if every name is known and every position is filled; the key has the table's length; a missing position is `KeyError('Not all keys specified')`; an unknown name is `KeyError` |
| FluxUtils.MakeKeyValues | unified_model/electrical_system/flux/utils.py:113-118 | the key holds each keyword argument's value at the position the table gives its name |
| FluxUtils.MakeKeyOrderIndependent | unified_model/electrical_system/flux/utils.py:113-118 | keyword arguments that give every name the same value make the same key, in any order, or both fail |
| FluxUtils.KeyUnderOwnIndex | unified_model/electrical_system/flux/utils.py:113-118 | under the table built from a dict's own names, the dict's key is its values in order |
| FluxUtils.FluxDatabase.MakeDbKey | unified_model/electrical_system/flux/utils.py:111-118 | the loop over `[None] * len(lut)` returns the key of the specification, or its error; with no table it is a `TypeError` |
| FluxUtils.FluxDatabase.Add | unified_model/electrical_system/flux/utils.py:152-153 | stores the value under the key made from the dict and changes no other entry, or fails with the key's error and changes nothing |
| FluxUtils.QueryIn | unified_model/electrical_system/flux/utils.py:229-230 | succeeds exactly when the key can be made and is stored, and then returns the stored entry; a key that cannot be made is that key's error; a key never stored is a `KeyError`; every failure is a `KeyError`, `IndexError` or `TypeError` |
| FluxUtils.FluxDatabase.Query | unified_model/electrical_system/flux/utils.py:229-230 | returns the entry under the key of the keyword arguments, or that key's error, or `KeyError` for a key not stored; the object is not changed |
| FluxUtils.AddThenQuery | unified_model/electrical_system/flux/utils.py:152-153 | after `add(d, v)`, a query with any ordering of the same arguments returns exactly `v`; re-adding overwrites; queries with other keys are unaffected |
| FluxUtils.ColumnKeys | unified_model/electrical_system/flux/utils.py:104-109 | one key (or key error) per flux column |
| FluxUtils.StoreAll | unified_model/electrical_system/flux/utils.py:107-109 | the column loop never removes a key, and an entry whose key no column produces keeps its value |
| FluxUtils.StoreAllFailSticks | unified_model/electrical_system/flux/utils.py:107-109 | a failing `add` ends the column loop: the remaining columns change nothing |
| FluxUtils.StoreAllOutcome | unified_model/electrical_system/flux/utils.py:107-109 | the column loop succeeds if and only if every column's key can be made; otherwise it fails with the error of the first column whose key cannot be made |
| FluxUtils.StoreAllStores | unified_model/electrical_system/flux/utils.py:107-109 | after a successful loop, each column's data is stored under its key (unless a later column has the same key), and a query that makes that key returns it |
| FluxUtils.StoreAllMisses | unified_model/electrical_system/flux/utils.py:229-230 | a key that neither the starting database nor any column holds is absent afterwards; querying it is a `KeyError`, not a default value |
| FluxUtils.FluxDatabase.ProduceDatabase | unified_model/electrical_system/flux/utils.py:97-109 | fewer than two columns is an `IndexError`; an existing table is a `ValueError`; otherwise the table is built from column 1's parameters and then every later column is added in order, as `StoreAll` states |
| FluxUtils.FluxDatabase.AddColumns | unified_model/electrical_system/flux/utils.py:107-109 | adds every flux column under the key made from its heading, in order, stopping at the first column that cannot be added, as `StoreAll` states |
| FluxUtils.FluxDatabase.IterValues | unified_model/electrical_system/flux/utils.py:249-252 | yields every stored (key, value) pair exactly once and nothing else |
| FluxUtils.FluxDatabase.constructor | unified_model/electrical_system/flux/utils.py:64-66 | stores the velocity and starts with no table and an empty database |
| OrderedDict.Put | unified_model/electrical_system/flux/utils.py:94 | `d[k] = v`: `k` now maps to `v`; other keys keep their values; a new key is appended to the key order, and an existing key keeps the order unchanged |
| OrderedDict.PutNew | unified_model/unified.py:187 | assigning a name that is not registered appends it at the end |
| OrderedDict.PutAt | unified_model/unified.py:187 | assigning a registered name replaces its value where it stands |
| OrderedDict.PutValuesAt | unified_model/unified.py:187 | with distinct names, rebinding the name at position `i` replaces the pipeline at position `i` and no other |
| OrderedDict.GetAbsent | unified_model/electrical_system/flux/utils.py:94 | a lookup in the dict that `param_dict[name] = value` builds misses exactly the keys it does not hold, and a hit returns the value of an entry for that key |
| Electrical.Gradient | unified_model/electrical_model.py:6-11 | the result is never infinite; an infinite difference quotient becomes exactly 0.0; any other result is returned unchanged |
| Electrical.CentralDifference | unified_model/electrical_model.py:8 | with finite samples and a non-zero step, the quotient is `(f(x+dx) - f(x-dx)) / (2 dx)`; a NaN sample makes it NaN |
| Electrical.GradientOfFiniteSamples | unified_model/electrical_model.py:8 | on finite samples with a non-zero step, the gradient is `(f(x+dx) - f(x-dx)) / (2 dx)` |
| Electrical.GradientOfQuadratic | unified_model/electrical_model.py:6-8 | for `f(z) = a z^2 + b z + c`, the gradient at `x` is exactly `2 a x + b`, for any non-zero step |
| Electrical.GradientOneInfiniteSample | unified_model/electrical_model.py:8-10 | one infinite sample makes the difference quotient infinite, equal to the upper sample for a positive step, and the guard returns 0.0 |
| Electrical.GradientCanBeNaN | unified_model/electrical_model.py:9-11 | two equal infinite samples give NaN, which the `np.isinf` guard lets through |
| Electrical.ElectricalModel.constructor | unified_model/electrical_model.py:45-50 | stores the name; infinite coil resistance (open circuit); no flux model, no load, no precomputed gradient, `precompute_gradient` false |
| Electrical.ElectricalModel.SetFluxModel | unified_model/electrical_model.py:70-71 | stores both the flux model and its derivative and changes no other field |
| Electrical.ElectricalModel.SetCoilResistance | unified_model/electrical_model.py:75 | stores the coil resistance and changes no other field |
| Electrical.ElectricalModel.SetLoadModel | unified_model/electrical_model.py:86 | stores the load (or none) and changes no other field |
| Electrical.ElectricalModel.GetFluxGradient | unified_model/electrical_model.py:104-107 | a state that is not five long is a `ValueError`; otherwise it evaluates at `x3 - x1`, using `flux_gradient` in precompute mode and `_gradient(flux_model, ·)` otherwise; an unset function is a `TypeError`; computed gradients are never infinite |
| Electrical.ElectricalModel.FluxGradientRelative | unified_model/electrical_model.py:104-107 | two states with the same `x3 - x1` have the same flux gradient |
| Electrical.ElectricalModel.GetEmf | unified_model/electrical_model.py:128-130 | `dflux_model(pos) * vel`; `AttributeError` if no flux derivative was set; zero at zero velocity for a finite derivative; a NaN derivative gives NaN |
| Electrical.ElectricalModel.EmfLinearInVelocity | unified_model/electrical_model.py:128-130 | with a finite flux derivative, the EMF is additive, homogeneous and odd in the velocity |
| ExtReal.MulAdditive | unified_model/electrical_model.py:129 | multiplying by a finite value distributes over a sum of finite values |
| ExtReal.MulHomogeneous | unified_model/electrical_model.py:129 | multiplying by a finite value commutes with scaling by a constant |
| ExtReal.MulOdd | unified_model/electrical_model.py:129 | multiplying by a finite value commutes with negation |
| Electrical.ElectricalModel.GetCurrent | unified_model/electrical_model.py:148-155 | zero for any EMF without a load; `e / (R_load + R_coil)` for finite values and non-zero resistances; zero for an open circuit with a finite EMF and a non-zero load; a NaN EMF with a load gives NaN |
| Electrical.LoadCurrentCases | unified_model/electrical_model.py:151-155 | the load voltage divided by the load resistance is `emf / (R + R_coil)` for finite values and non-zero resistances; it is zero for an infinite coil; NaN propagates |
| Electrical.LoadCurrent | unified_model/electrical_model.py:151-155 | a NaN EMF or coil resistance gives NaN; an infinite coil resistance with a finite EMF and a non-zero load gives zero current |
| Electrical.ElectricalModel.OhmsLaw | unified_model/electrical_model.py:151-155 | current times total resistance is the EMF; an infinite coil resistance draws no current |
| Electrical.FreshModelIsOpenCircuit | unified_model/electrical_model.py:47 | a freshly built model with a finite, non-zero load draws no current, whatever the finite EMF |
| Damper.ConstantDamper.GetForce | unified_model/mechanical_components/damper.py:38 | zero velocity gives zero force; `F v = c v^2`, so for a non-negative coefficient the force has the sign of the velocity |
| Damper.ForceIsLinear | unified_model/mechanical_components/damper.py:38 | the force is additive, homogeneous and odd in the velocity, and proportional to the coefficient |
| ExtReal.Neg | unified_model/electrical_model.py:8 | negation, on which the subtraction is built: exact on finite values, an infinity stays infinite and NaN stays NaN |
| ExtReal.Add | unified_model/electrical_model.py:154 | exact on finite values; NaN exactly when an operand is NaN or the operands are opposite infinities; any other sum with an infinite operand is that infinity |
| ExtReal.Sub | unified_model/electrical_model.py:8 | exact on finite values; NaN exactly when an operand is NaN or the operands are the same infinity; any other difference with an infinite left operand is that infinity |
| ExtReal.Mul | unified_model/electrical_model.py:129 | exact on finite values; NaN exactly when an operand is NaN or an infinity meets zero; any other product with an infinite operand is infinite |
| ExtReal.Div | unified_model/unified.py:468 | exact for a finite non-zero divisor; a finite value over an infinity is 0.0; a non-zero value over zero is infinite; NaN exactly when an operand is NaN, both are infinite, or both are zero |
| Common.Error.Kind | unified_model/electrical_system/flux/utils.py:111-118 | each error carries the Python exception class the code raises for it: unknown name, missing names and missing entry are `KeyError`; a position past the end and a missing column are `IndexError`; a second index and a wrong state length are `ValueError`; a missing table and a `None` callable are `TypeError`; an unset attribute is `AttributeError` |
| Unified.Transpose | unified_model/unified.py:194 | `.T`: the rows of the result are the columns of the input, and the result is rectangular |
| Unified.PassOf | unified_model/unified.py:194 | one pipeline pass keeps the trajectory rectangular and its `d x n` shape, and maps time step `j`'s state vector to the pipeline's output |
| Unified.PassWithoutTimeSteps | unified_model/unified.py:194 | a trajectory with no time steps comes out empty |
| Unified.IdentityPass | unified_model/unified.py:194 | the identity pipeline leaves a trajectory unchanged (transposing twice is the identity) |
| Unified.ApplyAll | unified_model/unified.py:192-194 | running all pipelines keeps the trajectory rectangular and its shape |
| Unified.RunColumn | unified_model/unified.py:192-194 | running the pipelines in order on one state vector keeps its length |
| Unified.ApplyAllColumns | unified_model/unified.py:192-194 | column `j` of the result is column `j` of the input run through every pipeline in registration order |
| Unified.PipelinesInOrder | unified_model/unified.py:192-194 | with `p1` registered before `p2`, each state vector `c` becomes `p2(p1(c))` |
| Unified.RunTwo | unified_model/unified.py:192-194 | two pipelines applied in order to one state vector give `p2(p1(c))` |
| Unified.ColumnLocality | unified_model/unified.py:194 | a time step's result depends only on that time step's input |
| Unified.ApplyAllAppend | unified_model/unified.py:192-194 | running `ps` then `qs` equals running `qs` on the result of `ps` |
| Unified.UnifiedModel.constructor | unified_model/unified.py:48-54 | every component, the solution and the time grid are unset, and no pipeline is registered |
| Unified.UnifiedModel.SetMechanicalModel | unified_model/unified.py:103-104 | stores the mechanical model, changes no other field, and returns the object itself |
| Unified.UnifiedModel.SetElectricalModel | unified_model/unified.py:117-118 | stores the electrical model, changes no other field, and returns the object itself |
| Unified.UnifiedModel.SetCouplingModel | unified_model/unified.py:131-132 | stores the coupling model, changes no other field, and returns the object itself |
| Unified.UnifiedModel.SetGoverningEquations | unified_model/unified.py:159-160 | stores the governing equations, changes no other field, and returns the object itself |
| Unified.UnifiedModel.SetPostProcessingPipeline | unified_model/unified.py:187-188 | binds the name to the pipeline; a new name runs after all earlier pipelines; an existing name is rebound in place; names stay distinct; returns the object itself |
| Unified.UnifiedModel.ApplyPipeline | unified_model/unified.py:190-194 | replaces the solution with all registered pipelines applied in registration order; with no pipelines the solution is unchanged; pipelines over an unset solution are an `AttributeError` |
| Unified.UnifiedModel.StoreSolution | unified_model/unified.py:233-235 | stores the time grid, then the integrator's trajectory post-processed by every registered pipeline |
| Unified.UnifiedModel.ScoredEmf | unified_model/unified.py:465-468 | unchanged in open-circuit mode; in closed-circuit mode every sample is multiplied by `R_load / (R_load + R_coil)` and the length is kept; a missing electrical model or load is an `AttributeError` |
| Unified.UnifiedModel.ScoredEmfIsLoadVoltage | unified_model/unified.py:465-468 | each closed-circuit sample is the electrical model's load current times `R_load`; with an infinite coil resistance every finite sample scores zero |
| Unified.BuildAndSolve | unified_model/unified.py:92-160 | a fresh model configured by chained setters holds each component; with no pipelines, the stored solution is the integrator's own |

## Left out

- `FluxDatabase.__init__` reads the CSV with `pd.read_csv`
  (`utils.py:63`), and `_produce_database` converts the time column and
  `z = time * velocity` (`utils.py:101-102`). These are file I/O and float
  bookkeeping. `ProduceDatabase` receives the headings and columns instead.
- `FluxDatabase.query_to_model` and `_parse_raw_flux_input` build
  interpolating flux models with code that is not part of this model.
- FluxUtils.FluxDatabase.IterValues: yields the pairs in an unspecified order
  rather than the dict's insertion order, because `database` is a Dafny
  `map`.
- `UnifiedModel.solve` calls `scipy.integrate.solve_ivp`, which is
  floating-point ODE integration in a foreign library. Only its last three
  lines are modelled (`StoreSolution`).
- `UnifiedModel.get_result`, the `prediction_expr` evaluation, and the
  evaluator calls of `score_mechanical_model` and `score_electrical_model`
  delegate to `parse_output_expression` and to the evaluators, which are not
  part of this model. Only the closed-circuit rescaling is modelled.
- `save_to_disk` and `load_from_disk` are filesystem and pickling I/O.
  `load_from_disk` also calls `UnifiedModel(name=None)`, which does not match
  the constructor.
- `MagneticSpring` is curve fitting and spline interpolation in foreign
  libraries.
- `__str__`, `__repr__` and `pretty_str` are presentation only.
- Floating point:
  - no rounding is modelled, and neither is overflow to an infinity: huge
    finite samples whose difference in `_gradient` would overflow, so that
    the guard returns 0.0 (`electrical_model.py:8-10`), give the exact
    quotient in the model;
  - zero is unsigned, so a non-zero number divided by zero gives the infinity
    of the numerator's sign;
  - division follows numpy semantics and never raises `ZeroDivisionError`
    (where the operands are numpy values; with Python floats the code raises
    it, see ScoredEmf and GetCurrent below);
  - `Electrical.Load` and the damper use exact reals.
- Unified.UnifiedModel.ScoredEmf: when `R_load + R_coil` is zero, the
  Python float division `R_load/(R_load+R_coil)` (`unified.py:468`) raises
  `ZeroDivisionError`. The model divides with numpy semantics instead, so
  every scaled sample is NaN or infinite there (`0/0` is NaN, a non-zero load
  over zero is infinite). The error is not modelled.
- Electrical.ElectricalModel.GetCurrent: when the EMF is a Python float
  rather than a numpy value, `emf_oc * r_load / (r_load + r_coil)` and
  `v_load / r_load` (`electrical_model.py:154-155`) raise `ZeroDivisionError`
  for a zero resistance sum or a zero load. The model follows numpy and gives
  NaN or an infinity there.
- FluxUtils.MakeKey and FluxUtils.QueryIn: a parameter named `self` is
  accepted as a key name, whereas `self._make_db_key(**key_dict)` and
  `self._make_db_key(**kwargs)` (`utils.py:153`, `utils.py:230`) raise
  `TypeError` for it, because it clashes with the method's own `self`
  argument. Python's keyword-argument binding is not modelled.
- Unified.Pipeline: pipelines are assumed to keep the length of a state
  vector. Otherwise numpy would build a ragged array, which a `d x n`
  trajectory cannot represent.
- Unified.UnifiedModel.ApplyPipeline: requires the stored solution to be
  rectangular (`Valid`), as a numpy array always is. A trajectory with no
  rows carries no time-step count, unlike an empty `(0, n)` array.
- Electrical.ElectricalModel.SetFluxModel: takes the two functions
  themselves. Passing `None` to `set_flux_model` is not modelled.
- The UnifiedModel setters take a component, not `None`. The types of the
  mechanical model, coupling model and governing equations are type
  parameters, because the container only stores them.
