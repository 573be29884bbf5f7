# Xolotl core handlers in Dafny

Xolotl is a cluster-dynamics simulator of plasma-surface interaction and of
nuclear fuel. This project models a small set of its numerical handlers as
pure Dafny functions, and proves what each one computes.

- **Heat equation handler** (`HeatEquation`). Covers four routines:
  - construction from the options, including the material dispatch and its error message;
  - the temperature query;
  - the flux routine `computeTemperature`;
  - the Jacobian routine `computePartialsForTemperature`.
  
  The flux is a finite-difference stencil along the depth: a heat-flux
  boundary condition at the surface and a midpoint stencil elsewhere, plus
  the transverse second differences. The Jacobian row is modelled as
  written. The model proves the following when the conductivity does not
  depend on temperature at the point:
  - away from the surface, and at the surface of a 1-D grid, the row applied
    to the stencil temperatures gives back the flux change (less the imposed
    flux term at the surface);
  - at a surface point of a 2-D or 3-D grid, the row falls short by the sum
    of 2 * coef * s[d] over the transverse dimensions, times the point's
    temperature (see Findings).
- **Soret diffusion handler** (`SoretDiffusion`). Set-up selects the clusters
  with a nonzero diffusion factor. It registers the temperature degree of
  freedom (DOF) in their rows of both sparse fill maps. The handler's
  setters are also modelled.
- **NE reaction validator** (`NEReaction`). For a pair of Xe tiles (i, j) it
  computes the product amount range and scans every tile. Each accepted tile
  is written into the two-slot production entry and, under the
  simplex/unit-size conditions, into the dissociation entry.
- **PSI network parameter checks** (`PSINetwork`). A non-positive lattice
  parameter or impurity radius falls back to a material constant.
- **Growth-factor step sequence** (`GrowthFactor`). `start` and a capped
  geometric `step`.
- **2-D and 3-D PETSc solver handlers** (`Solver2D`, `Solver3D`, sharing
  `SolverGrid`). Surface-position accessors, and `getNetworkTemperature`,
  which copies the temperatures and appends the depth of each local grid
  point below the surface.

Three things come in from outside:
- Material constants from `Constants.h` enter as a record (`PhysicalConstants.Constants`).
- The conductivity fits, which use `log` and `exp`, enter as opaque function values (`HeatEquation.HeatFits`). The conductivity is the product of its position factor alpha and its temperature factor beta (HeatEquationHandler.cpp:295-319); `HeatEquation.FactoredFits` states that relation, and the counterexample below satisfies it.
- `util::equal` is modelled as exact equality (`MathUtils.Equal`).

## Model

| member | source | states |
|---|---|---|
| GrowthFactor.Construct | xolotl/util/src/GrowthFactorStepSequence.cpp:12-19 | the four parameters are stored as given; the cursor is left as the base class set it |
| GrowthFactor.Start | xolotl/util/src/GrowthFactorStepSequence.cpp:25-30 | the cursor is at the initial step and initial value; the parameters are unchanged |
| GrowthFactor.StartIdempotent | xolotl/util/src/GrowthFactorStepSequence.cpp:25-30 | starting twice is the same as starting once |
| GrowthFactor.Step | xolotl/util/src/GrowthFactorStepSequence.cpp:32-39 | the new value is at most the final value and at most the grown value, and equals one of the two; the counter advances by one; the parameters are unchanged |
| GrowthFactor.RunParameters | xolotl/util/src/GrowthFactorStepSequence.cpp:32-39 | no number of steps changes the parameters |
| GrowthFactor.RunStepCount | xolotl/util/src/GrowthFactorStepSequence.cpp:25-39 | n steps after start the counter reads initialStep + n |
| GrowthFactor.RunCapped | xolotl/util/src/GrowthFactorStepSequence.cpp:35-37 | after at least one step the value never exceeds the final value |
| GrowthFactor.CapIsAbsorbing | xolotl/util/src/GrowthFactorStepSequence.cpp:35-37 | with a factor of at least 1 and a non-negative cap, a value at the cap stays there forever |
| GrowthFactor.CapCommutesWithGrowth | xolotl/util/src/GrowthFactorStepSequence.cpp:35-36 | capping before growing and then capping again equals growing and then capping |
| GrowthFactor.RunClosedForm | xolotl/util/src/GrowthFactorStepSequence.cpp:25-39 | n >= 1 steps after start, the value is min(initial * g^n, final) |
| PSINetwork.PositiveOr | xolotl/xolotlCore/reactants/experimental/PSIReactionNetwork.h:37-53 | a non-positive input gives the fallback, a positive input is kept, and the result is positive when the fallback is |
| PSINetwork.PositiveOrIdempotent | xolotl/xolotlCore/reactants/experimental/PSIReactionNetwork.h:37-53 | with a positive fallback, applying the check twice is applying it once |
| PSINetwork.CheckLatticeParameter | xolotl/xolotlCore/reactants/experimental/PSIReactionNetwork.h:37-44 | a non-positive lattice parameter becomes the tungsten lattice constant; a positive one is kept |
| PSINetwork.CheckImpurityRadius | xolotl/xolotlCore/reactants/experimental/PSIReactionNetwork.h:46-53 | a non-positive impurity radius becomes the helium radius; a positive one is kept |
| PSINetwork.ChecksIdempotent | xolotl/xolotlCore/reactants/experimental/PSIReactionNetwork.h:37-53 | with positive material constants, both checks are idempotent |
| NEReaction.ProductBounds | xolotl/xolotlCore/reactants/experimental/NEReactionNetwork.inl:27-39 | low is the sum of the two origins and high is the sum of the two largest amounts; every sum of one amount from each tile lies within [low, high] |
| NEReaction.AcceptsIffOverlap | xolotl/xolotlCore/reactants/experimental/NEReactionNetwork.inl:46-53 | the bounds test accepts a tile exactly when the tile holds an amount in [low, high] |
| NEReaction.ProductIffReachableSum | xolotl/xolotlCore/reactants/experimental/NEReactionNetwork.inl:35-53 | tile k is accepted exactly when it holds a1 + a2 for some amount a1 of tile i and a2 of tile j |
| NEReaction.AcceptedBelowSucc | xolotl/xolotlCore/reactants/experimental/NEReactionNetwork.inl:43-55 | the accepted set grows by tile n exactly when tile n passes the bounds test |
| NEReaction.ScanSimplex | xolotl/xolotlCore/reactants/experimental/NEReactionNetwork.inl:43-70 | when a reactant is a simplex: the counter equals the number of accepted tiles; the first slot holds the first accepted tile and the second slot the last; dissociation triples {k, i, j} mirror this only when a reactant starts at one Xe atom |
| NEReaction.ScanGrouped | xolotl/xolotlCore/reactants/experimental/NEReactionNetwork.inl:55-62 | when neither reactant is a simplex: the counter stays 0; the first production slot ends with the last accepted tile; the second slot and the dissociation entry are untouched |
| NEReaction.Validate | xolotl/xolotlCore/reactants/experimental/NEReactionNetwork.inl:11-71 | the loop writes only the (i, j) entries of the two tables, and they end in the scan outcome above |
| SoretDiffusion.NewHandler | xolotl/core/include/xolotl/core/modified/SoretDiffusionHandler.h:68-76 | the handler starts with DOF 0, surface position 0, zero conductivity, flux and beta, J = 1000 and empty lists |
| SoretDiffusion.DiffusingBelow | xolotl/core/include/xolotl/core/modified/SoretDiffusionHandler.h:102-113 | the selected clusters are exactly those with a nonzero diffusion factor, in increasing order |
| SoretDiffusion.AppendColumn | xolotl/core/include/xolotl/core/modified/SoretDiffusionHandler.h:115-117 | each selected row gains the DOF column at its end (a missing row starts empty); other rows are unchanged |
| SoretDiffusion.Initialize | xolotl/core/include/xolotl/core/modified/SoretDiffusionHandler.h:86-121 | set-up sets the DOF and grid and recomputes the diffusing list from scratch; it appends the DOF column to both fill maps for exactly those clusters; no other field changes |
| SoretDiffusion.IncreasingUnique | xolotl/core/include/xolotl/core/modified/SoretDiffusionHandler.h:102-113 | two strictly increasing lists with the same elements are equal |
| SoretDiffusion.DiffusingClustersCanonical | xolotl/core/include/xolotl/core/modified/SoretDiffusionHandler.h:92-113 | the diffusing list after set-up is the only increasing list of the clusters with a nonzero factor |
| SoretDiffusion.InitializeForgetsPriorSetup | xolotl/core/include/xolotl/core/modified/SoretDiffusionHandler.h:92-99 | the outcome of set-up does not depend on the earlier list, DOF or grid |
| SoretDiffusion.SetHeatFlux | xolotl/core/include/xolotl/core/modified/SoretDiffusionHandler.h:126-130 | the flux is stored; nothing else changes |
| SoretDiffusion.SetHeatConductivity | xolotl/core/include/xolotl/core/modified/SoretDiffusionHandler.h:135-139 | the conductivity is stored; nothing else changes |
| SoretDiffusion.UpdateSurfacePosition | xolotl/core/include/xolotl/core/modified/SoretDiffusionHandler.h:144-148 | the surface position is stored; nothing else changes |
| SolverGrid.NetworkTemperature | xolotl/solver/include/xolotl/solver/handler/PetscSolver2DHandler.h:112-126 | the temperatures are replaced by the handler's; the depths keep what was passed, plus one entry per local point: the node depth at the boundary node, the midpoint depth elsewhere |
| SolverGrid.DepthsIncrease | xolotl/solver/include/xolotl/solver/handler/PetscSolver2DHandler.h:117-125 | on an increasing grid, consecutive local points have strictly increasing depths |
| SolverGrid.DepthBelowSurface | xolotl/solver/include/xolotl/solver/handler/PetscSolver2DHandler.h:117-125 | points at or past the surface node have non-negative depth, and strictly positive depth inside a cell |
| Solver2D.GetSurfacePosition | xolotl/solver/include/xolotl/solver/handler/PetscSolver2DHandler.h:92-96 | the result is a stored surface position |
| Solver2D.SetSurfacePosition | xolotl/solver/include/xolotl/solver/handler/PetscSolver2DHandler.h:101-107 | only row j changes, to pos |
| Solver2D.GetAfterSet | xolotl/solver/include/xolotl/solver/handler/PetscSolver2DHandler.h:92-107 | a get after a set returns pos on row j, and the old value on every other row |
| Solver2D.GetNetworkTemperature | xolotl/solver/include/xolotl/solver/handler/PetscSolver2DHandler.h:112-126 | the depths are measured from the surface of the first local row |
| Solver3D.GetSurfacePosition | xolotl/solver/include/xolotl/solver/handler/PetscSolver3DHandler.h:93-97 | the result is a stored surface position of row j |
| Solver3D.SetSurfacePosition | xolotl/solver/include/xolotl/solver/handler/PetscSolver3DHandler.h:102-108 | only column (j, k) changes, to pos; the shape is unchanged |
| Solver3D.GetAfterSet | xolotl/solver/include/xolotl/solver/handler/PetscSolver3DHandler.h:93-108 | a get after a set returns pos at (j, k), and the old value at every other column |
| Solver3D.SetSurfaceOffset | xolotl/solver/include/xolotl/solver/handler/PetscSolver3DHandler.h:132-136 | the handler is unchanged |
| Solver3D.GetNetworkTemperature | xolotl/solver/include/xolotl/solver/handler/PetscSolver3DHandler.h:113-127 | the depths are measured from the surface of the first local column |
| HeatEquation.MaterialFromName | xolotl/core/src/temperature/HeatEquationHandler.cpp:49-72 | the five tungsten names give tungsten, "Fuel" gives UO2 and "Fe" gives iron, each if and only if; any other name is an error carrying the source's message |
| HeatEquation.NewHeatHandler | xolotl/core/src/temperature/HeatEquationHandler.cpp:20-32 | the flux, bulk temperature and dimension are stored; the zero-flux flag is set exactly when the flux is zero; the other fields are zero |
| HeatEquation.FromOptions | xolotl/core/src/temperature/HeatEquationHandler.cpp:45-75 | the constructor fails exactly for an unknown material; otherwise it stores the material's coefficient and conductivity, the two temperature parameters, the dimension and the interface location |
| HeatEquation.ZeroFluxFixedAtConstruction | xolotl/core/src/temperature/HeatEquationHandler.cpp:45-48 | a handler built from options has a zero flux exactly when the first temperature parameter is zero |
| HeatEquation.GetTemperature | xolotl/core/src/temperature/HeatEquationHandler.cpp:81-90 | the position is ignored; the result is the bulk temperature with a zero flux or at time 0, otherwise the local temperature |
| HeatEquation.LocalAt | xolotl/core/src/temperature/HeatEquationHandler.cpp:348-352 | the local heat coefficient is the heat coefficient times the local conductivity |
| HeatEquation.ReadStencil | xolotl/core/src/temperature/HeatEquationHandler.cpp:105-110 | the point is row 0 of the concentration stencil; the neighbours along dimension d are rows 2d+1 and 2d+2 |
| HeatEquation.PointOf | xolotl/core/src/temperature/HeatEquationHandler.cpp:102-119 | the point is a surface point exactly when xi is the surface position; it carries the handler's flux, dimension and spacings, and the local coefficient at the point's temperature |
| HeatEquation.ComputeTemperature | xolotl/core/src/temperature/HeatEquationHandler.cpp:92-179 | with a zero flux nothing changes; otherwise only the temperature entry changes, by the depth rate plus the transverse rate |
| HeatEquation.AddTransverse | xolotl/core/src/temperature/HeatEquationHandler.cpp:251-256 | the loop subtracts 2 * coef * s[d] from the diagonal for each transverse d, and sets both neighbour entries of d to coef * s[d]; nothing else changes |
| HeatEquation.StencilRow | xolotl/core/src/temperature/HeatEquationHandler.cpp:232-256 | the depth entries are written first, then the transverse loop; the diagonal keeps the loop's share |
| HeatEquation.AsWrittenRow | xolotl/core/src/temperature/HeatEquationHandler.cpp:232-290 | away from the surface the row is the row built in order; at the surface the three depth entries are the surface entries, written over the loop's diagonal; the transverse entries stay |
| HeatEquation.ComputePartialsForTemperature | xolotl/core/src/temperature/HeatEquationHandler.cpp:181-293 | with a zero flux it reports false and writes nothing; otherwise it reports true, stores the DOF in indices[0], and writes the as-written row |
| HeatEquation.ComputePartialsCorrected | xolotl/core/src/temperature/HeatEquationHandler.cpp:181-293 | the same routine with the surface entries written before the transverse loop, so every row is built in order |
| HeatEquation.TransverseSplit | xolotl/core/src/temperature/HeatEquationHandler.cpp:174-178 | the transverse rate equals the row's transverse entries applied to the neighbours, minus their diagonal share times the point's temperature |
| HeatEquation.RowAgainstRate | xolotl/core/src/temperature/HeatEquationHandler.cpp:251-256 | a row with the diagonal share applied to the stencil gives the rate less its constant term; without the share it falls short by share times temperature |
| HeatEquation.StencilRowMatches | xolotl/core/src/temperature/HeatEquationHandler.cpp:251-256 | a row built in order is the derivative of a rate that is affine in the depth temperatures |
| HeatEquation.OverrideMissesTransverse | xolotl/core/src/temperature/HeatEquationHandler.cpp:275-290 | writing the depth entries after the loop loses the transverse diagonal share |
| HeatEquation.MidpointStencil | xolotl/core/src/temperature/HeatEquationHandler.cpp:160-163 | the midpoint stencil is -2c/(hl hr) at the point, 2c/(hl(hl+hr)) at the left neighbour and 2c/(hr(hl+hr)) at the right |
| HeatEquation.FluxBoundary | xolotl/core/src/temperature/HeatEquationHandler.cpp:150-151 | the flux boundary term is 2c/hl * q/k, plus -2c/(hl hr) at the point and 2c/(hl hr) at the right neighbour |
| HeatEquation.InteriorRateConstant | xolotl/core/src/temperature/HeatEquationHandler.cpp:158-171 | with dBeta = 0 the interior depth rate is the midpoint stencil plus a gradient term linear in (up - lo) |
| HeatEquation.InteriorEntriesConstant | xolotl/core/src/temperature/HeatEquationHandler.cpp:232-249 | with dBeta = ddBeta = 0 the interior entries reduce to the midpoint weights plus and minus the gradient coefficient |
| HeatEquation.InteriorAffine | xolotl/core/src/temperature/HeatEquationHandler.cpp:158-171 | with constant conductivity the interior depth rate is the interior Jacobian entries applied to the three temperatures |
| HeatEquation.SurfaceRateConstant | xolotl/core/src/temperature/HeatEquationHandler.cpp:148-157 | with dBeta = 0 the surface depth rate is the flux boundary term plus the beta * dAlpha term |
| HeatEquation.SurfaceDiagonalConstant | xolotl/core/src/temperature/HeatEquationHandler.cpp:276-287 | with dBeta = ddBeta = 0 the surface diagonal is -2c/(hl hr) |
| HeatEquation.SurfaceAffine | xolotl/core/src/temperature/HeatEquationHandler.cpp:148-157 | with constant conductivity the surface depth rate is the surface entries applied, plus the flux source term |
| HeatEquation.SurfaceDepthAffine | xolotl/core/src/temperature/HeatEquationHandler.cpp:148-157 | the same, stated for a grid point with the surface entries |
| HeatEquation.InteriorDepthAffine | xolotl/core/src/temperature/HeatEquationHandler.cpp:158-171 | the same, stated for a grid point with the interior entries |
| HeatEquation.RateSplit | xolotl/core/src/temperature/HeatEquationHandler.cpp:148-178 | the rate is the surface or interior depth rate, by kind of point, plus the transverse rate |
| HeatEquation.SurfaceRowMatchesRate | xolotl/core/src/temperature/HeatEquationHandler.cpp:148-178 | at a surface point, the row built in order applied to the stencil is the rate less the flux term |
| HeatEquation.InteriorRowMatchesRate | xolotl/core/src/temperature/HeatEquationHandler.cpp:158-178 | away from the surface, the row built in order applied to the stencil is the rate |
| HeatEquation.SurfaceRowMissesTransverse | xolotl/core/src/temperature/HeatEquationHandler.cpp:275-290 | at a surface point, the as-written row falls short of the rate by the transverse diagonal share times the temperature |
| HeatEquation.CorrectedPartialsMatchFlux | xolotl/core/src/temperature/HeatEquationHandler.cpp:148-256 | with constant conductivity, the change made by computeTemperature equals the corrected Jacobian row applied to the stencil, plus the flux term at the surface |
| HeatEquation.InteriorPartialsMatchFlux | xolotl/core/src/temperature/HeatEquationHandler.cpp:158-256 | away from the surface, the as-written Jacobian row applied to the stencil equals the change made by computeTemperature |
| HeatEquation.SurfacePartialsMissTransverse | xolotl/core/src/temperature/HeatEquationHandler.cpp:252-290 | at the surface, the as-written row falls short of the flux change by the sum of 2 * coef * s[d] times the temperature |
| HeatEquation.SurfacePartialsOneDimensional | xolotl/core/src/temperature/HeatEquationHandler.cpp:252-290 | with constant conductivity (dBeta = ddBeta = 0 at the point), on a 1-D grid the transverse loop does not run, so the as-written surface row applied to the stencil gives back the flux change less the flux term |
| HeatEquation.SurfacePartialsCounterexample | xolotl/core/src/temperature/HeatEquationHandler.cpp:252-290 | a concrete 2-D surface point (sy = 1, fits alpha = beta = 1 so the conductivity is their product as the source builds it, unit values elsewhere) where the as-written row is off by 2 and the corrected row matches |

## Left out

- The PETSc, MPI and Kokkos plumbing is not modelled: vectors, matrices, communicators, the start-up log line and device views. Arrays become sequences and tables become maps.
- The factory registration of the heat handler is not modelled.
- The other handler methods in the solver headers are not modelled.
- The conductivity fit functions (`getLocalHeatConductivity`, `getLocalHeatAlpha`, `getLocalHeatBeta`, their derivatives, lines 295-346) use `log` and `exp`. They are not modelled; their values at the point are opaque parameters (`HeatFits`).
- Floating point is modelled as exact real arithmetic, and `util::equal` as exact equality. IEEE results of a zero divisor are not modelled: the routines require the spacings to be positive and the local conductivity to be nonzero.
- The heat handler's `oldConcBox` scratch storage is not modelled. The stencil is read into a value instead.
- `_dof` and the two setters of the heat handler come from its header, which is not part of this model. The DOF index is a constructor parameter.
- The base-class cursor of the growth-factor sequence comes from `StepSequence.h`, which is not part of this model. It is passed to `GrowthFactor.Construct`.
- The values in `Constants.h` are not part of this model. They are a record, and lemmas that need signs state them as hypotheses.
- The Soret handler's `computeDiffusion`, `computePartialsForDiffusion` and `getLocalHeatFactor` are not modelled. Only set-up and the setters are.
- The NE validator's other species axes are not modelled. Only the Xe axis of each tile is, which is the only axis the validator reads.
- The default arguments `j = -1, k = -1` of the solver surface accessors are not modelled. They would index out of range; the model requires valid indices.
- The surface diagonal of the heat Jacobian keeps the source's multiplication by k^4 (HeatEquationHandler.cpp:281-283), where the other terms divide by powers of the conductivity. That term carries dBeta squared, so it vanishes in every lemma here.
- HeatEquation.CorrectedPartialsMatchFlux, HeatEquation.InteriorPartialsMatchFlux, HeatEquation.SurfacePartialsMissTransverse, HeatEquation.SurfacePartialsOneDimensional: proved only when the conductivity does not depend on temperature at the point (dBeta = ddBeta = 0). Otherwise the rate is not affine in the temperatures, and the Jacobian is a derivative rather than a linear identity.
- HeatEquation.SurfaceRowMatchesRate, HeatEquation.InteriorRowMatchesRate, HeatEquation.SurfaceRowMissesTransverse: proved under the same constant-conductivity hypothesis, for the same reason.
- NEReaction.ProductBounds: the unsigned additions lo1 + lo2 and hi1 + hi2 of the amount type (NEReactionNetwork.inl:37-38) are modelled without wrap-around; Xe amounts are assumed far below the type's maximum, as the network's cluster sizes are.
- HeatEquation.ComputeTemperature: transverse dimensions are limited to at most three, matching the source's `s[3]` array.

## Findings

| source | as written | input that shows it | evidently intended | confidence | as-written member | corrected member |
|---|---|---|---|---|---|---|
| xolotl/core/src/temperature/HeatEquationHandler.cpp:252-290 | At the surface point, val[0], val[1] and val[2] are assigned after the transverse loop. On a 2-D or 3-D grid this discards the loop's subtraction of 2 * coef * s[d] from val[0], although computeTemperature keeps the transverse terms there; on a 1-D grid the loop does not run, and with constant conductivity the row is consistent. | A 2-D handler with flux 1, unit heat coefficient and spacings, conductivity fit factors alpha = beta = 1 (conductivity 1), constant conductivity in temperature, sy = 1, and a uniform temperature of 1 at the surface point. The Jacobian row applied to the temperatures, plus the flux term, exceeds the flux change by 2. | The surface depth entries are written before the transverse loop, so the diagonal keeps its transverse share, as in the interior rows. | not executed; high (proved in the model) | HeatEquation.SurfacePartialsCounterexample | HeatEquation.CorrectedPartialsMatchFlux |
