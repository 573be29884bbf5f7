/**
 * Control structure of the heat-equation temperature handler: the material
 * dispatch at construction, the temperature query, and which entries the
 * flux and Jacobian routines write, with the finite-difference stencil
 * values they write there.
 *
 * The temperature- and position-dependent conductivity fits (built from log
 * and exp) are not modelled; their values at the grid point enter through a
 * record of opaque functions.
 */
module HeatEquation {
  import opened Wrappers
  import PhysicalConstants
  import MathUtils

  // ---------------------------------------------------------------------------
  // Construction

  /** The materials that have heat parameters. */
  datatype Material = Tungsten | UO2 | Iron

  /** The tungsten problem types, all sharing the tungsten parameters. */
  const TungstenNames: set<string> := {"W100", "W110", "W111", "W211", "TRIDYN"}

  function UnknownMaterialMessage(name: string): string {
    "\nThe requested material: " + name
      + " does not have heat parameters defined for it, cannot use the temperature option!"
  }

  /** The material dispatch of the options constructor; any other name is an error. */
  function MaterialFromName(name: string): (r: Result<Material, string>)
    ensures r == Success(Tungsten) <==> name in TungstenNames
    ensures r == Success(UO2) <==> name == "Fuel"
    ensures r == Success(Iron) <==> name == "Fe"
    ensures r.Failure? <==> name !in TungstenNames && name != "Fuel" && name != "Fe"
    ensures r.Failure? ==> r.error == UnknownMaterialMessage(name)
  {
    if name == "W100" || name == "W110" || name == "W111" || name == "W211" || name == "TRIDYN" then
      Success(Tungsten)
    else if name == "Fuel" then Success(UO2)
    else if name == "Fe" then Success(Iron)
    else Failure(UnknownMaterialMessage(name))
  }

  function HeatCoefficientOf(m: Material, c: PhysicalConstants.Constants): real {
    match m
    case Tungsten => c.tungstenHeatCoefficient
    case UO2 => c.uo2HeatCoefficient
    case Iron => c.feHeatCoefficient
  }

  function HeatConductivityOf(m: Material, c: PhysicalConstants.Constants): real {
    match m
    case Tungsten => c.tungstenHeatConductivity
    case UO2 => c.uo2HeatConductivity
    case Iron => c.feHeatConductivity
  }

  datatype HeatHandler = HeatHandler(
    heatFlux: real,
    bulkTemperature: real,
    localTemperature: real,
    surfacePosition: int,
    heatCoef: real,
    heatConductivity: real,
    zeroFlux: bool,
    dimension: int,
    interfaceLoc: real,
    dof: int)   // index of the temperature degree of freedom

  /**
   * The (flux, bulk temperature, dimension) constructor. The temperature DOF
   * index is assigned by code in the class header, which is not part of this
   * model, so it is passed in.
   */
  function NewHeatHandler(flux: real, bulkTemp: real, dim: int, dof: int): (h: HeatHandler)
    ensures h.zeroFlux <==> flux == 0.0
    ensures h.heatFlux == flux && h.bulkTemperature == bulkTemp && h.dimension == dim && h.dof == dof
    ensures h.localTemperature == 0.0 && h.surfacePosition == 0 && h.interfaceLoc == 0.0
    ensures h.heatCoef == 0.0 && h.heatConductivity == 0.0
  {
    HeatHandler(flux, bulkTemp, 0.0, 0, 0.0, 0.0, MathUtils.Equal(flux, 0.0), dim, 0.0, dof)
  }

  function SetHeatCoefficient(h: HeatHandler, coef: real): (r: HeatHandler)
    ensures r.heatCoef == coef && r.(heatCoef := h.heatCoef) == h
  {
    h.(heatCoef := coef)
  }

  function SetHeatConductivity(h: HeatHandler, cond: real): (r: HeatHandler)
    ensures r.heatConductivity == cond && r.(heatConductivity := h.heatConductivity) == h
  {
    h.(heatConductivity := cond)
  }

  /** The option values the options constructor reads. */
  datatype Options = Options(
    tempParam0: real,   // heat flux
    tempParam1: real,   // bulk temperature
    dimensionNumber: int,
    material: string,
    interfaceLocation: real)

  /**
   * The options constructor: the flux and bulk temperature come from the two
   * temperature parameters, the material selects the heat coefficient and
   * conductivity, and an unknown material is an error.
   */
  function FromOptions(opts: Options, c: PhysicalConstants.Constants, dof: int): (r: Result<HeatHandler, string>)
    ensures r.Failure? <==> MaterialFromName(opts.material).Failure?
    ensures r.Failure? ==> r.error == UnknownMaterialMessage(opts.material)
    ensures r.Success? ==>
              var m := MaterialFromName(opts.material).value;
              && r.value.heatCoef == HeatCoefficientOf(m, c)
              && r.value.heatConductivity == HeatConductivityOf(m, c)
              && r.value.heatFlux == opts.tempParam0
              && r.value.bulkTemperature == opts.tempParam1
              && r.value.dimension == opts.dimensionNumber
              && r.value.interfaceLoc == opts.interfaceLocation
              && (r.value.zeroFlux <==> opts.tempParam0 == 0.0)
  {
    var base := NewHeatHandler(opts.tempParam0, opts.tempParam1, opts.dimensionNumber, dof);
    var m :- MaterialFromName(opts.material);
    var h := SetHeatConductivity(SetHeatCoefficient(base, HeatCoefficientOf(m, c)), HeatConductivityOf(m, c));
    Success(h.(interfaceLoc := opts.interfaceLocation))
  }

  /** The zero-flux flag is fixed at construction and is set exactly when the flux parameter is zero. */
  lemma ZeroFluxFixedAtConstruction(opts: Options, c: PhysicalConstants.Constants, dof: int)
    requires FromOptions(opts, c, dof).Success?
    ensures FromOptions(opts, c, dof).value.zeroFlux <==> opts.tempParam0 == 0.0
  {
  }

  // ---------------------------------------------------------------------------
  // Temperature query

  function Indicator(b: bool): real {
    if b then 1.0 else 0.0
  }

  /**
   * getTemperature ignores the position: the bulk temperature with a zero
   * flux or at time zero, the local temperature otherwise.
   */
  function GetTemperature(h: HeatHandler, position: (real, real, real), time: real): (t: real)
    ensures h.zeroFlux || time == 0.0 ==> t == h.bulkTemperature
    ensures !h.zeroFlux && time != 0.0 ==> t == h.localTemperature
  {
    if h.zeroFlux then h.bulkTemperature
    else Indicator(MathUtils.Equal(time, 0.0)) * h.bulkTemperature + Indicator(!MathUtils.Equal(time, 0.0)) * h.localTemperature
  }

  // ---------------------------------------------------------------------------
  // Stencil inputs

  /** Values of the conductivity fit and its derivatives, as functions of position index and temperature. */
  datatype HeatFits = HeatFits(
    conductivity: (int, real) -> real,
    alpha: int -> real,
    beta: real -> real,
    dAlpha: int -> real,
    dBeta: real -> real,
    ddBeta: real -> real)

  /**
   * The conductivity fit is the product of its position factor alpha and its
   * temperature factor beta, as the source's fits are built.
   */
  ghost predicate FactoredFits(fits: HeatFits) {
    forall xi: int, temp: real :: fits.conductivity(xi, temp) == fits.alpha(xi) * fits.beta(temp)
  }

  /** The fit values at one grid point and temperature. */
  datatype LocalHeat = LocalHeat(coef: real, cond: real, alpha: real, beta: real, dAlpha: real, dBeta: real, ddBeta: real)

  /** The local values; the local heat coefficient is the heat coefficient times the local conductivity. */
  function LocalAt(h: HeatHandler, fits: HeatFits, xi: int, temp: real): (lv: LocalHeat)
    ensures lv.coef == h.heatCoef * lv.cond
  {
    var cond := fits.conductivity(xi, temp);
    LocalHeat(h.heatCoef * cond, cond, fits.alpha(xi), fits.beta(temp),
              fits.dAlpha(xi), fits.dBeta(temp), fits.ddBeta(temp))
  }

  /** The temperature at the point and at its two neighbours along each dimension. */
  datatype Stencil = Stencil(center: real, lower: seq<real>, upper: seq<real>)

  /** Row 0 of the concentration stencil is the point, rows 2d+1 and 2d+2 its neighbours along dimension d. */
  predicate StencilShape(conc: seq<seq<real>>, dof: int, dim: int) {
    && 1 <= dim <= 3
    && |conc| >= 2 * dim + 1
    && 0 <= dof < |conc[0]|
    && forall row :: 0 <= row < 2 * dim + 1 ==> 0 <= dof < |conc[row]|
  }

  function ReadStencil(conc: seq<seq<real>>, dof: int, dim: int): (st: Stencil)
    requires StencilShape(conc, dof, dim)
    ensures |st.lower| == dim && |st.upper| == dim
    ensures st.center == conc[0][dof]
    ensures forall d :: 0 <= d < dim ==> st.lower[d] == conc[2 * d + 1][dof] && st.upper[d] == conc[2 * d + 2][dof]
  {
    Stencil(conc[0][dof],
            seq(dim, d requires 0 <= d < dim => conc[2 * d + 1][dof]),
            seq(dim, d requires 0 <= d < dim => conc[2 * d + 2][dof]))
  }

  /** The transverse scaling factors, {0, sy, sz}. */
  function Scales(sy: real, sz: real): (s: seq<real>)
    ensures |s| == 3
  {
    [0.0, sy, sz]
  }

  /** Everything the non-zero-flux path reads is in range and every divisor is nonzero. */
  predicate Evaluable(h: HeatHandler, conc: seq<seq<real>>, hxLeft: real, hxRight: real, xi: int, fits: HeatFits) {
    && StencilShape(conc, h.dof, h.dimension)
    && hxLeft > 0.0 && hxRight > 0.0
    && fits.conductivity(xi, conc[0][h.dof]) != 0.0
  }

  /** Everything the rate and the Jacobian row at one grid point depend on. */
  datatype GridPoint = GridPoint(
    q: real,            // heat flux
    lv: LocalHeat,
    st: Stencil,
    hl: real,           // spacing to the left neighbour along the depth
    hr: real,           // spacing to the right neighbour along the depth
    s: seq<real>,       // transverse scaling factors
    dim: int,
    atSurface: bool)

  /** A stencil with one lower and one upper neighbour per dimension. */
  predicate WellShaped(st: Stencil, dim: int) {
    1 <= dim <= 3 && |st.lower| == dim && |st.upper| == dim
  }

  predicate ValidPoint(p: GridPoint) {
    && WellShaped(p.st, p.dim)
    && |p.s| == 3
    && p.lv.cond != 0.0 && p.hl > 0.0 && p.hr > 0.0
  }

  /** The grid point the handler's routines read for the temperature DOF at depth index xi. */
  function PointOf(h: HeatHandler, conc: seq<seq<real>>, hxLeft: real, hxRight: real, xi: int,
                   sy: real, sz: real, fits: HeatFits): (p: GridPoint)
    requires Evaluable(h, conc, hxLeft, hxRight, xi, fits)
    ensures ValidPoint(p)
    ensures p.atSurface <==> xi == h.surfacePosition
    ensures p.dim == h.dimension && p.q == h.heatFlux && p.hl == hxLeft && p.hr == hxRight
    ensures p.st.center == conc[0][h.dof]
    ensures p.lv.coef == h.heatCoef * fits.conductivity(xi, conc[0][h.dof])
  {
    var st := ReadStencil(conc, h.dof, h.dimension);
    GridPoint(h.heatFlux, LocalAt(h, fits, xi, st.center), st, hxLeft, hxRight, Scales(sy, sz),
              h.dimension, xi == h.surfacePosition)
  }

  // ---------------------------------------------------------------------------
  // Flux

  /** The depth second difference on a non-uniform grid, scaled by the local heat coefficient c. */
  function Midpoint(c: real, hl: real, hr: real, lo: real, up: real, o: real): real
    requires hl > 0.0 && hr > 0.0
  {
    c * (2.0 / hl) * (lo + (hl / hr) * up - (1.0 + (hl / hr)) * o) / (hl + hr)
  }

  /** The depth term at the surface, where the imposed flux qk replaces the missing left neighbour. */
  function FluxStencil(c: real, hl: real, hr: real, qk: real, up: real, o: real): real
    requires hl > 0.0 && hr > 0.0
  {
    c * (2.0 / hl) * (qk + (up - o) / hr)
  }

  /*
   * The depth formulas are stated over plain values: c the local heat
   * coefficient, k the local conductivity, q the heat flux, a, b, da, db, ddb
   * the fit values alpha, beta, dAlpha, dBeta and ddBeta, hl and hr the
   * spacings, and lo, up, o the temperatures at the left neighbour, the right
   * neighbour and the point.
   */

  function SurfaceRateOf(c: real, k: real, q: real, a: real, b: real, da: real, db: real,
                         hl: real, hr: real, up: real, o: real): real
    requires k != 0.0 && hl > 0.0 && hr > 0.0
  {
    FluxStencil(c, hl, hr, q / k, up, o) + (-c * q * b * da / (k * k) + c * q * q * a * db / (k * k * k))
  }

  function InteriorRateOf(c: real, k: real, a: real, b: real, da: real, db: real,
                          hl: real, hr: real, lo: real, up: real, o: real): real
    requires k != 0.0 && hl > 0.0 && hr > 0.0
  {
    Midpoint(c, hl, hr, lo, up, o)
      + (c * (up - lo) * b * da / (k * (hl + hr)) + c * a * db * (up - lo) * (up - lo) / (k * (hl + hr) * (hl + hr)))
  }

  /** Depth part of the rate at the surface: the flux boundary condition plus the conductivity-gradient terms. */
  function SurfaceRate(p: GridPoint): real
    requires ValidPoint(p)
  {
    SurfaceRateOf(p.lv.coef, p.lv.cond, p.q, p.lv.alpha, p.lv.beta, p.lv.dAlpha, p.lv.dBeta,
                  p.hl, p.hr, p.st.upper[0], p.st.center)
  }

  /** Depth part of the rate away from the surface: a midpoint stencil plus the conductivity-gradient terms. */
  function InteriorRate(p: GridPoint): real
    requires ValidPoint(p)
  {
    InteriorRateOf(p.lv.coef, p.lv.cond, p.lv.alpha, p.lv.beta, p.lv.dAlpha, p.lv.dBeta,
                   p.hl, p.hr, p.st.lower[0], p.st.upper[0], p.st.center)
  }

  /** Transverse part of the rate, summed over the dimensions d .. dim-1, with local heat coefficient c. */
  function TransverseRate(c: real, s: seq<real>, st: Stencil, d: nat, dim: int): real
    requires WellShaped(st, dim) && |s| == 3
    decreases dim - d
  {
    if d >= dim then 0.0
    else c * s[d] * (st.lower[d] + st.upper[d] - 2.0 * st.center) + TransverseRate(c, s, st, d + 1, dim)
  }

  /** Depth part of the rate: the flux boundary condition at the surface, the midpoint stencil elsewhere. */
  function DepthRate(p: GridPoint): real
    requires ValidPoint(p)
  {
    if p.atSurface then SurfaceRate(p) else InteriorRate(p)
  }

  /** The rate of change of the temperature at the point. */
  function Rate(p: GridPoint): real
    requires ValidPoint(p)
  {
    DepthRate(p) + TransverseRate(p.lv.coef, p.s, p.st, 1, p.dim)
  }

  /**
   * computeTemperature: with a zero flux nothing is written; otherwise only
   * the temperature entry of the offset vector changes, by the rate at the point.
   */
  function ComputeTemperature(h: HeatHandler, conc: seq<seq<real>>, updatedConcOffset: seq<real>,
                              hxLeft: real, hxRight: real, xi: int, sy: real, sz: real, fits: HeatFits)
    : (r: seq<real>)
    requires !h.zeroFlux ==> Evaluable(h, conc, hxLeft, hxRight, xi, fits) && 0 <= h.dof < |updatedConcOffset|
    ensures |r| == |updatedConcOffset|
    ensures h.zeroFlux ==> r == updatedConcOffset
    ensures forall k :: 0 <= k < |r| && k != h.dof ==> r[k] == updatedConcOffset[k]
    ensures !h.zeroFlux ==>
              r[h.dof] == updatedConcOffset[h.dof] + Rate(PointOf(h, conc, hxLeft, hxRight, xi, sy, sz, fits))
  {
    if h.zeroFlux then updatedConcOffset
    else
      var rate := Rate(PointOf(h, conc, hxLeft, hxRight, xi, sy, sz, fits));
      updatedConcOffset[h.dof := updatedConcOffset[h.dof] + rate]
  }

  // ---------------------------------------------------------------------------
  // Jacobian row

  function InteriorDiagonalOf(c: real, k: real, a: real, da: real, db: real, ddb: real,
                              hl: real, hr: real, lo: real, up: real, o: real): real
    requires k != 0.0 && hl > 0.0 && hr > 0.0
  {
    -2.0 * c / (hl * hr)
      + c * a * ddb * (up - lo) * (up - lo) / (k * (hl + hr) * (hl + hr))
      + c * (2.0 / hl) * a * db * (lo + (hl / hr) * up - (1.0 + (hl / hr)) * o) / ((hl + hr) * k)
      + c * db * da * (up - lo) / ((hl + hr) * k)
  }

  function InteriorLowerOf(c: real, k: real, a: real, b: real, da: real, db: real,
                           hl: real, hr: real, lo: real, up: real): real
    requires k != 0.0 && hl > 0.0 && hr > 0.0
  {
    2.0 * c / (hl * (hl + hr)) - c * b * da / (k * (hl + hr))
      + 2.0 * c * (lo - up) * a * db / (k * (hl + hr) * (hl + hr))
  }

  function InteriorUpperOf(c: real, k: real, a: real, b: real, da: real, db: real,
                           hl: real, hr: real, lo: real, up: real): real
    requires k != 0.0 && hl > 0.0 && hr > 0.0
  {
    2.0 * c / (hr * (hl + hr)) + c * b * da / (k * (hl + hr))
      + 2.0 * c * (up - lo) * a * db / (k * (hl + hr) * (hl + hr))
  }

  function SurfaceDiagonalOf(c: real, k: real, q: real, a: real, b: real, da: real, db: real, ddb: real,
                             hl: real, hr: real, up: real, o: real): real
    requires k != 0.0 && hl > 0.0 && hr > 0.0
  {
    -2.0 * c / (hl * hr)
      + 2.0 * c * a * db * (up - o) / (k * hl * hr)
      + q * q * c * a * ddb / (k * k * k)
      - 2.0 * q * q * c * a * a * db * db * (k * k * k * k)
      + c * q * b * a * da * db / (k * k * k)
      - c * q * db * da / (k * k)
  }

  /** The three depth entries of a Jacobian row: the point, its left neighbour and its right neighbour. */
  datatype Entries = Entries(diag: real, lower: real, upper: real)

  /**
   * A depth rate that is affine in the three depth temperatures, with the
   * entries e as coefficients and src as constant term.
   */
  predicate AffineDepth(depth: real, e: Entries, st: Stencil, src: real)
    requires |st.lower| >= 1 && |st.upper| >= 1
  {
    depth == e.diag * st.center + e.lower * st.lower[0] + e.upper * st.upper[0] + src
  }

  /** The depth entries away from the surface. */
  function InteriorEntries(p: GridPoint): Entries
    requires ValidPoint(p)
  {
    Entries(InteriorDiagonalOf(p.lv.coef, p.lv.cond, p.lv.alpha, p.lv.dAlpha, p.lv.dBeta, p.lv.ddBeta,
                               p.hl, p.hr, p.st.lower[0], p.st.upper[0], p.st.center),
            InteriorLowerOf(p.lv.coef, p.lv.cond, p.lv.alpha, p.lv.beta, p.lv.dAlpha, p.lv.dBeta,
                            p.hl, p.hr, p.st.lower[0], p.st.upper[0]),
            InteriorUpperOf(p.lv.coef, p.lv.cond, p.lv.alpha, p.lv.beta, p.lv.dAlpha, p.lv.dBeta,
                            p.hl, p.hr, p.st.lower[0], p.st.upper[0]))
  }

  /** The depth entries at the surface, where the flux replaces the left neighbour. */
  function SurfaceEntries(p: GridPoint): Entries
    requires ValidPoint(p)
  {
    Entries(SurfaceDiagonalOf(p.lv.coef, p.lv.cond, p.q, p.lv.alpha, p.lv.beta, p.lv.dAlpha, p.lv.dBeta, p.lv.ddBeta,
                              p.hl, p.hr, p.st.upper[0], p.st.center),
            0.0,
            2.0 * p.lv.coef / (p.hl * p.hr))
  }

  /** Sum of 2 * c * s[e] over e = d .. dim-1: what the transverse loop subtracts from the diagonal. */
  function TransverseDiagonal(c: real, s: seq<real>, d: nat, dim: int): real
    requires |s| == 3 && dim <= 3
    decreases dim - d
  {
    if d >= dim then 0.0 else 2.0 * c * s[d] + TransverseDiagonal(c, s, d + 1, dim)
  }

  /** The transverse loop of the Jacobian, for d = d0 .. dim-1. */
  function AddTransverse(v: seq<real>, c: real, s: seq<real>, d: nat, dim: int): (r: seq<real>)
    requires 1 <= d && 1 <= dim <= 3 && |s| == 3 && |v| >= 2 * dim + 1
    ensures |r| == |v|
    ensures r[0] == v[0] - TransverseDiagonal(c, s, d, dim)
    ensures d <= 1 < dim ==> r[3] == c * s[1] && r[4] == c * s[1]
    ensures d <= 2 < dim ==> r[5] == c * s[2] && r[6] == c * s[2]
    ensures forall k :: 0 < k < |v| && (k < 2 * d + 1 || k >= 2 * dim + 1) ==> r[k] == v[k]
    decreases dim - d
  {
    if d >= dim then v
    else
      var w := v[0 := v[0] - 2.0 * c * s[d]][2 * d + 1 := c * s[d]][2 * d + 2 := c * s[d]];
      AddTransverse(w, c, s, d + 1, dim)
  }

  /**
   * The transverse entries of a row: c * s[d] for both neighbours along each
   * transverse dimension d (at most two, as the grid has at most three dimensions).
   */
  predicate TransverseEntries(r: seq<real>, c: real, s: seq<real>, dim: int)
    requires |s| == 3 && |r| >= 2 * dim + 1
  {
    && (dim >= 2 ==> r[3] == c * s[1] && r[4] == c * s[1])
    && (dim >= 3 ==> r[5] == c * s[2] && r[6] == c * s[2])
  }

  /** Writing the three depth entries into the first three slots of the row. */
  function WithEntries(v: seq<real>, e: Entries): (r: seq<real>)
    requires |v| >= 3
    ensures |r| == |v|
    ensures r[0] == e.diag && r[1] == e.lower && r[2] == e.upper
    ensures forall k :: 3 <= k < |v| ==> r[k] == v[k]
  {
    v[0 := e.diag][1 := e.lower][2 := e.upper]
  }

  /** A row built in order: the depth entries first, then the transverse loop. */
  function StencilRow(v: seq<real>, e: Entries, c: real, s: seq<real>, dim: int): (r: seq<real>)
    requires 1 <= dim <= 3 && |s| == 3 && |v| >= 2 * dim + 1
    ensures |r| == |v|
    ensures r[0] == e.diag - TransverseDiagonal(c, s, 1, dim) && r[1] == e.lower && r[2] == e.upper
    ensures TransverseEntries(r, c, s, dim)
    ensures forall k :: 2 * dim + 1 <= k < |v| ==> r[k] == v[k]
  {
    AddTransverse(WithEntries(v, e), c, s, 1, dim)
  }

  /**
   * The row as the handler writes it: the interior entries and the transverse
   * loop, and then, at the surface, the surface entries written over the first
   * three slots, which discards the transverse loop's share of the diagonal.
   */
  function AsWrittenRow(v: seq<real>, atSurface: bool, interior: Entries, surface: Entries,
                        c: real, s: seq<real>, dim: int): (r: seq<real>)
    requires 1 <= dim <= 3 && |s| == 3 && |v| >= 2 * dim + 1
    ensures |r| == |v|
    ensures !atSurface ==> r == StencilRow(v, interior, c, s, dim)
    ensures atSurface ==> r[0] == surface.diag && r[1] == surface.lower && r[2] == surface.upper
    ensures TransverseEntries(r, c, s, dim)
    ensures forall k :: 2 * dim + 1 <= k < |v| ==> r[k] == v[k]
  {
    var row := StencilRow(v, interior, c, s, dim);
    if atSurface then WithEntries(row, surface) else row
  }

  /** The depth entries the corrected routine writes before its transverse loop. */
  function RowEntries(p: GridPoint): Entries
    requires ValidPoint(p)
  {
    if p.atSurface then SurfaceEntries(p) else InteriorEntries(p)
  }

  /** The result of computePartialsForTemperature: whether anything was written, and the two output arrays. */
  datatype Partials = Partials(written: bool, val: seq<real>, indices: seq<int>)

  /** Preconditions of the non-zero-flux Jacobian path. */
  predicate PartialsEvaluable(h: HeatHandler, conc: seq<seq<real>>, val: seq<real>, indices: seq<int>,
                              hxLeft: real, hxRight: real, xi: int, fits: HeatFits) {
    Evaluable(h, conc, hxLeft, hxRight, xi, fits) && |val| >= 2 * h.dimension + 1 && |indices| >= 1
  }

  /**
   * computePartialsForTemperature as written: with a zero flux it reports
   * false and writes nothing; otherwise it stores the temperature DOF in
   * indices[0], writes the Jacobian row into val[0 .. 2*dim] and reports true.
   */
  function ComputePartialsForTemperature(h: HeatHandler, conc: seq<seq<real>>, val: seq<real>, indices: seq<int>,
                                         hxLeft: real, hxRight: real, xi: int, sy: real, sz: real, fits: HeatFits)
    : (r: Partials)
    requires !h.zeroFlux ==> PartialsEvaluable(h, conc, val, indices, hxLeft, hxRight, xi, fits)
    ensures h.zeroFlux ==> r == Partials(false, val, indices)
    ensures !h.zeroFlux ==> r.written && r.indices == indices[0 := h.dof]
    ensures !h.zeroFlux ==>
              var p := PointOf(h, conc, hxLeft, hxRight, xi, sy, sz, fits);
              r.val == AsWrittenRow(val, p.atSurface, InteriorEntries(p), SurfaceEntries(p), p.lv.coef, p.s, p.dim)
  {
    if h.zeroFlux then Partials(false, val, indices)
    else
      var p := PointOf(h, conc, hxLeft, hxRight, xi, sy, sz, fits);
      Partials(true, AsWrittenRow(val, p.atSurface, InteriorEntries(p), SurfaceEntries(p), p.lv.coef, p.s, p.dim),
               indices[0 := h.dof])
  }

  /** The Jacobian routine with the surface entries written before the transverse loop rather than after it. */
  function ComputePartialsCorrected(h: HeatHandler, conc: seq<seq<real>>, val: seq<real>, indices: seq<int>,
                                    hxLeft: real, hxRight: real, xi: int, sy: real, sz: real, fits: HeatFits)
    : (r: Partials)
    requires !h.zeroFlux ==> PartialsEvaluable(h, conc, val, indices, hxLeft, hxRight, xi, fits)
    ensures h.zeroFlux ==> r == Partials(false, val, indices)
    ensures !h.zeroFlux ==> r.written && r.indices == indices[0 := h.dof]
    ensures !h.zeroFlux ==>
              var p := PointOf(h, conc, hxLeft, hxRight, xi, sy, sz, fits);
              r.val == StencilRow(val, RowEntries(p), p.lv.coef, p.s, p.dim)
  {
    if h.zeroFlux then Partials(false, val, indices)
    else
      var p := PointOf(h, conc, hxLeft, hxRight, xi, sy, sz, fits);
      Partials(true, StencilRow(val, RowEntries(p), p.lv.coef, p.s, p.dim), indices[0 := h.dof])
  }

  // ---------------------------------------------------------------------------
  // Consistency of the Jacobian row with the rate

  /** Row entries for dimensions d .. dim-1 applied to the neighbour temperatures. */
  function NeighbourSum(v: seq<real>, st: Stencil, d: nat, dim: int): real
    requires WellShaped(st, dim) && |v| >= 2 * dim + 1
    decreases dim - d
  {
    if d >= dim then 0.0
    else v[2 * d + 1] * st.lower[d] + v[2 * d + 2] * st.upper[d] + NeighbourSum(v, st, d + 1, dim)
  }

  /** A Jacobian row applied to the stencil temperatures. */
  function ApplyRow(v: seq<real>, st: Stencil, dim: int): real
    requires WellShaped(st, dim) && |v| >= 2 * dim + 1
  {
    v[0] * st.center + NeighbourSum(v, st, 0, dim)
  }

  /** Splitting off the depth entries of a row applied to the stencil. */
  lemma ApplyRowSplit(v: seq<real>, st: Stencil, dim: int)
    requires WellShaped(st, dim) && |v| >= 2 * dim + 1
    ensures ApplyRow(v, st, dim) == v[0] * st.center + v[1] * st.lower[0] + v[2] * st.upper[0] + NeighbourSum(v, st, 1, dim)
  {
  }

  /** The transverse rate is the transverse row entries applied, less their share of the diagonal. */
  lemma {:induction false} TransverseSplit(v: seq<real>, c: real, s: seq<real>, st: Stencil, d: nat, dim: int)
    requires WellShaped(st, dim) && |s| == 3 && |v| >= 2 * dim + 1
    requires 1 <= d && TransverseEntries(v, c, s, dim)
    ensures TransverseRate(c, s, st, d, dim) == NeighbourSum(v, st, d, dim) - TransverseDiagonal(c, s, d, dim) * st.center
    decreases dim - d
  {
    if d < dim {
      TransverseSplit(v, c, s, st, d + 1, dim);
      var sd, lo, up, o := s[d], st.lower[d], st.upper[d], st.center;
      var rest := TransverseDiagonal(c, s, d + 1, dim);
      assert c * sd * (lo + up - 2.0 * o) == (c * sd) * lo + (c * sd) * up - (2.0 * c * sd) * o;
      assert (2.0 * c * sd + rest) * o == (2.0 * c * sd) * o + rest * o;
    }
  }

  /**
   * Collecting a row applied to the stencil against the rate: the depth part
   * and the transverse part of the rate against the depth entries and the
   * transverse entries of the row.
   */
  lemma RowCombination(depth: real, trans: real, apply: real, src: real,
                       r0: real, r1: real, r2: real, ns: real,
                       d0: real, l: real, u: real, td: real, o: real, lo: real, up: real)
    requires depth == d0 * o + l * lo + u * up + src
    requires trans == ns - td * o
    requires apply == r0 * o + r1 * lo + r2 * up + ns
    requires r1 == l && r2 == u
    ensures r0 == d0 - td ==> depth + trans == apply + src
    ensures r0 == d0 ==> depth + trans == apply + src - td * o
  {
  }

  /**
   * A row whose depth entries are e and whose transverse entries are c * s[d],
   * applied to the stencil, against a rate whose depth part is affine with
   * coefficients e and constant term src: with the transverse share taken off
   * the diagonal the two agree; without it the row falls short by that share
   * times the point's temperature.
   */
  lemma RowAgainstRate(r: seq<real>, e: Entries, c: real, s: seq<real>, st: Stencil, dim: int,
                       depth: real, src: real)
    requires WellShaped(st, dim) && |s| == 3 && |r| >= 2 * dim + 1
    requires r[1] == e.lower && r[2] == e.upper
    requires TransverseEntries(r, c, s, dim)
    requires AffineDepth(depth, e, st, src)
    ensures r[0] == e.diag - TransverseDiagonal(c, s, 1, dim) ==>
              depth + TransverseRate(c, s, st, 1, dim) == ApplyRow(r, st, dim) + src
    ensures r[0] == e.diag ==>
              depth + TransverseRate(c, s, st, 1, dim)
              == ApplyRow(r, st, dim) + src - TransverseDiagonal(c, s, 1, dim) * st.center
  {
    hide TransverseRate, NeighbourSum, TransverseDiagonal, ApplyRow;
    TransverseSplit(r, c, s, st, 1, dim);
    ApplyRowSplit(r, st, dim);
    RowCombination(depth, TransverseRate(c, s, st, 1, dim), ApplyRow(r, st, dim), src,
                   r[0], r[1], r[2], NeighbourSum(r, st, 1, dim),
                   e.diag, e.lower, e.upper, TransverseDiagonal(c, s, 1, dim), st.center, st.lower[0], st.upper[0]);
  }

  /**
   * A row built in order, depth entries e then the transverse loop, is the
   * derivative of a rate whose depth part is affine with coefficients e: applied
   * to the stencil it gives the rate less the constant term src.
   */
  lemma StencilRowMatches(v: seq<real>, e: Entries, c: real, s: seq<real>, st: Stencil, dim: int,
                          depth: real, src: real)
    requires WellShaped(st, dim) && |s| == 3 && |v| >= 2 * dim + 1
    requires AffineDepth(depth, e, st, src)
    ensures depth + TransverseRate(c, s, st, 1, dim) == ApplyRow(StencilRow(v, e, c, s, dim), st, dim) + src
  {
    RowAgainstRate(StencilRow(v, e, c, s, dim), e, c, s, st, dim, depth, src);
  }

  /**
   * Writing the depth entries after the transverse loop instead loses the
   * transverse share of the diagonal: the row then falls short of the rate by
   * the sum of 2 * c * s[d] times the point's temperature.
   */
  lemma OverrideMissesTransverse(v: seq<real>, interior: Entries, surface: Entries, c: real, s: seq<real>,
                                 st: Stencil, dim: int, depth: real, src: real)
    requires WellShaped(st, dim) && |s| == 3 && |v| >= 2 * dim + 1
    requires AffineDepth(depth, surface, st, src)
    ensures depth + TransverseRate(c, s, st, 1, dim)
            == ApplyRow(AsWrittenRow(v, true, interior, surface, c, s, dim), st, dim) + src
               - TransverseDiagonal(c, s, 1, dim) * st.center
  {
    RowAgainstRate(AsWrittenRow(v, true, interior, surface, c, s, dim), surface, c, s, st, dim, depth, src);
  }

  // ---------------------------------------------------------------------------
  // The depth algebra under constant conductivity

  /** The conductivity does not depend on temperature at the point, so the rate is affine in the stencil. */
  predicate ConstantConductivity(p: GridPoint) {
    p.lv.dBeta == 0.0 && p.lv.ddBeta == 0.0
  }

  function SurfaceSourceOf(c: real, k: real, q: real, b: real, da: real, hl: real): real
    requires k != 0.0 && hl > 0.0
  {
    c * (2.0 / hl) * (q / k) + -c * q * b * da / (k * k)
  }

  /** The part of the depth rate that does not depend on the temperatures: the imposed flux at the surface. */
  function Source(p: GridPoint): real
    requires ValidPoint(p)
  {
    if p.atSurface then SurfaceSourceOf(p.lv.coef, p.lv.cond, p.q, p.lv.beta, p.lv.dAlpha, p.hl) else 0.0
  }

  /** Expanding the midpoint stencil of the depth direction into its three coefficients. */
  lemma MidpointStencil(c: real, hl: real, hr: real, lo: real, up: real, o: real)
    requires hl > 0.0 && hr > 0.0
    ensures Midpoint(c, hl, hr, lo, up, o)
            == (-2.0 * c / (hl * hr)) * o + (2.0 * c / (hl * (hl + hr))) * lo + (2.0 * c / (hr * (hl + hr))) * up
  {
    hide Midpoint;
    MidpointAsProduct(c, hl, hr, lo, up, o);
    MidpointCoefficients(c, hl, hr, lo, up, o);
  }

  /** The midpoint stencil is one coefficient times the weighted difference of the neighbours. */
  lemma MidpointAsProduct(c: real, hl: real, hr: real, lo: real, up: real, o: real)
    requires hl > 0.0 && hr > 0.0
    ensures Midpoint(c, hl, hr, lo, up, o)
            == (2.0 * c / (hl * (hl + hr))) * (lo + (hl / hr) * up - (1.0 + (hl / hr)) * o)
  {
    Regroup(c, hl, lo + (hl / hr) * up - (1.0 + (hl / hr)) * o, hl + hr);
  }

  /** Distributing that coefficient gives the three stencil weights. */
  lemma MidpointCoefficients(c: real, hl: real, hr: real, lo: real, up: real, o: real)
    requires hl > 0.0 && hr > 0.0
    ensures (2.0 * c / (hl * (hl + hr))) * (lo + (hl / hr) * up - (1.0 + (hl / hr)) * o)
            == (-2.0 * c / (hl * hr)) * o + (2.0 * c / (hl * (hl + hr))) * lo + (2.0 * c / (hr * (hl + hr))) * up
  {
    CancelFactor(2.0 * c, hl, hr, hl + hr);
    CancelSum(2.0 * c, hl, hr);
    NegQuotient(c, hl * hr);
    Collect(2.0 * c / (hl * (hl + hr)), lo, hl / hr, up, 1.0 + (hl / hr), o,
            2.0 * c / (hl * (hl + hr)), 2.0 * c / (hr * (hl + hr)), -2.0 * c / (hl * hr), 2.0 * c / (hl * hr));
  }

  lemma Regroup(c: real, hl: real, x: real, d: real)
    requires hl != 0.0 && d != 0.0
    ensures c * (2.0 / hl) * x / d == (2.0 * c / (hl * d)) * x
  {
  }

  lemma CancelFactor(n: real, a: real, b: real, d: real)
    requires a != 0.0 && b != 0.0 && d != 0.0
    ensures (n / (a * d)) * (a / b) == n / (b * d)
  {
  }

  lemma CancelSum(n: real, a: real, b: real)
    requires a > 0.0 && b > 0.0
    ensures (n / (a * (a + b))) * (1.0 + (a / b)) == n / (a * b)
  {
    PositiveProduct(a, a + b);
    PositiveProduct(a, b);
    assert 1.0 + (a / b) == (a + b) / b by {
      assert (a + b) / b == a / b + b / b;
      assert b / b == 1.0;
    }
    MulEqual(n / (a * (a + b)), 1.0 + (a / b), (a + b) / b);
    assert (n / (a * (a + b))) * ((a + b) / b) == n / (a * b) by {
      assert (a * (a + b)) * b == (a * b) * (a + b);
    }
  }

  lemma PositiveProduct(a: real, b: real)
    requires a > 0.0 && b > 0.0
    ensures a * b > 0.0
  {
  }

  lemma MulEqual(x: real, y1: real, y2: real)
    requires y1 == y2
    ensures x * y1 == x * y2
  {
  }

  lemma NegQuotient(c: real, d: real)
    requires d != 0.0
    ensures -2.0 * c / d == -(2.0 * c / d)
  {
  }

  /** Distributing a coefficient over a three-term combination and naming the resulting coefficients. */
  lemma Collect(kk: real, x: real, p: real, y: real, q: real, z: real, cx: real, cy: real, cz: real, m: real)
    requires kk == cx && kk * p == cy && kk * q == m && cz == -m
    ensures kk * (x + p * y - q * z) == cz * z + cx * x + cy * y
  {
  }

  /** Expanding the flux boundary condition into its temperature coefficients and the flux term. */
  lemma FluxBoundary(c: real, hl: real, hr: real, qk: real, up: real, o: real)
    requires hl > 0.0 && hr > 0.0
    ensures FluxStencil(c, hl, hr, qk, up, o)
            == c * (2.0 / hl) * qk + (-2.0 * c / (hl * hr)) * o + (2.0 * c / (hl * hr)) * up
  {
    var kk := c * (2.0 / hl);
    assert kk * ((up - o) / hr) == (kk / hr) * up - (kk / hr) * o;
    assert kk / hr == 2.0 * c / (hl * hr);
  }

  /** The gradient term of the interior rate, factored by the neighbour difference. */
  lemma GradientFactor(c: real, d: real, b: real, da: real, den: real)
    requires den != 0.0
    ensures c * d * b * da / den == (c * b * da / den) * d
  {
  }

  lemma InteriorRateConstant(c: real, k: real, a: real, b: real, da: real, db: real,
                             hl: real, hr: real, lo: real, up: real, o: real)
    requires k != 0.0 && hl > 0.0 && hr > 0.0 && db == 0.0
    ensures InteriorRateOf(c, k, a, b, da, db, hl, hr, lo, up, o)
            == Midpoint(c, hl, hr, lo, up, o) + (c * b * da / (k * (hl + hr))) * (up - lo)
  {
    assert c * a * db == 0.0;
    GradientFactor(c, up - lo, b, da, k * (hl + hr));
  }

  lemma InteriorEntriesConstant(c: real, k: real, a: real, b: real, da: real, db: real, ddb: real,
                                hl: real, hr: real, lo: real, up: real, o: real)
    requires k != 0.0 && hl > 0.0 && hr > 0.0 && db == 0.0 && ddb == 0.0
    ensures InteriorDiagonalOf(c, k, a, da, db, ddb, hl, hr, lo, up, o) == -2.0 * c / (hl * hr)
    ensures InteriorLowerOf(c, k, a, b, da, db, hl, hr, lo, up) == 2.0 * c / (hl * (hl + hr)) - c * b * da / (k * (hl + hr))
    ensures InteriorUpperOf(c, k, a, b, da, db, hl, hr, lo, up) == 2.0 * c / (hr * (hl + hr)) + c * b * da / (k * (hl + hr))
  {
    assert c * a * ddb == 0.0;
    assert c * (2.0 / hl) * a * db == 0.0;
    assert c * db == 0.0;
    assert 2.0 * c * (lo - up) * a * db == 0.0;
    assert 2.0 * c * (up - lo) * a * db == 0.0;
  }

  /** Collecting the midpoint stencil and a gradient term into the three coefficients of the row. */
  lemma AffineCombination(rate: real, diag: real, lower: real, upper: real,
                          c: real, hl: real, hr: real, g: real, o: real, lo: real, up: real)
    requires hl > 0.0 && hr > 0.0
    requires rate == Midpoint(c, hl, hr, lo, up, o) + g * (up - lo)
    requires diag == -2.0 * c / (hl * hr)
    requires lower == 2.0 * c / (hl * (hl + hr)) - g && upper == 2.0 * c / (hr * (hl + hr)) + g
    ensures rate == diag * o + lower * lo + upper * up
  {
    MidpointStencil(c, hl, hr, lo, up, o);
  }

  /**
   * With constant conductivity (db = ddb = 0) the interior depth rate is the
   * interior Jacobian entries applied to the three temperatures.
   */
  lemma InteriorAffine(c: real, k: real, a: real, b: real, da: real, db: real, ddb: real,
                       hl: real, hr: real, lo: real, up: real, o: real)
    requires k != 0.0 && hl > 0.0 && hr > 0.0 && db == 0.0 && ddb == 0.0
    ensures InteriorRateOf(c, k, a, b, da, db, hl, hr, lo, up, o)
            == InteriorDiagonalOf(c, k, a, da, db, ddb, hl, hr, lo, up, o) * o
               + InteriorLowerOf(c, k, a, b, da, db, hl, hr, lo, up) * lo
               + InteriorUpperOf(c, k, a, b, da, db, hl, hr, lo, up) * up
  {
    hide Midpoint, InteriorRateOf, InteriorDiagonalOf, InteriorLowerOf, InteriorUpperOf;
    InteriorRateConstant(c, k, a, b, da, db, hl, hr, lo, up, o);
    InteriorEntriesConstant(c, k, a, b, da, db, ddb, hl, hr, lo, up, o);
    AffineCombination(InteriorRateOf(c, k, a, b, da, db, hl, hr, lo, up, o),
                      InteriorDiagonalOf(c, k, a, da, db, ddb, hl, hr, lo, up, o),
                      InteriorLowerOf(c, k, a, b, da, db, hl, hr, lo, up),
                      InteriorUpperOf(c, k, a, b, da, db, hl, hr, lo, up),
                      c, hl, hr, c * b * da / (k * (hl + hr)), o, lo, up);
  }

  /** A term with a zero factor over a nonzero denominator vanishes. */
  lemma ZeroQuotient(x: real, z: real, d: real)
    requires z == 0.0 && d != 0.0
    ensures x * z / d == 0.0
  {
  }

  lemma SurfaceRateConstant(c: real, k: real, q: real, a: real, b: real, da: real, db: real,
                            hl: real, hr: real, up: real, o: real)
    requires k != 0.0 && hl > 0.0 && hr > 0.0 && db == 0.0
    ensures SurfaceRateOf(c, k, q, a, b, da, db, hl, hr, up, o)
            == FluxStencil(c, hl, hr, q / k, up, o) + -c * q * b * da / (k * k)
  {
    assert k * k * k != 0.0;
    ZeroQuotient(c * q * q * a, db, k * k * k);
  }

  lemma SurfaceDiagonalConstant(c: real, k: real, q: real, a: real, b: real, da: real, db: real, ddb: real,
                                hl: real, hr: real, up: real, o: real)
    requires k != 0.0 && hl > 0.0 && hr > 0.0 && db == 0.0 && ddb == 0.0
    ensures SurfaceDiagonalOf(c, k, q, a, b, da, db, ddb, hl, hr, up, o) == -2.0 * c / (hl * hr)
  {
    assert 2.0 * c * a * db == 0.0;
    assert q * q * c * a * ddb == 0.0;
    assert 2.0 * q * q * c * a * a * db == 0.0;
    assert c * q * b * a * da * db == 0.0;
    assert c * q * db == 0.0;
  }

  /** Collecting the flux stencil into the two coefficients of the surface row and the flux term. */
  lemma SurfaceCombination(rate: real, diag: real, upper: real, source: real,
                           c: real, hl: real, hr: real, qk: real, t: real, o: real, up: real)
    requires hl > 0.0 && hr > 0.0
    requires rate == FluxStencil(c, hl, hr, qk, up, o) + t
    requires diag == -2.0 * c / (hl * hr) && upper == 2.0 * c / (hl * hr)
    requires source == c * (2.0 / hl) * qk + t
    ensures rate == diag * o + upper * up + source
  {
    FluxBoundary(c, hl, hr, qk, up, o);
  }

  /**
   * With constant conductivity the surface depth rate is the surface Jacobian
   * entries applied to the temperatures, plus the flux term.
   */
  lemma SurfaceAffine(c: real, k: real, q: real, a: real, b: real, da: real, db: real, ddb: real,
                      hl: real, hr: real, up: real, o: real)
    requires k != 0.0 && hl > 0.0 && hr > 0.0 && db == 0.0 && ddb == 0.0
    ensures SurfaceRateOf(c, k, q, a, b, da, db, hl, hr, up, o)
            == SurfaceDiagonalOf(c, k, q, a, b, da, db, ddb, hl, hr, up, o) * o
               + (2.0 * c / (hl * hr)) * up + SurfaceSourceOf(c, k, q, b, da, hl)
  {
    hide FluxStencil, SurfaceRateOf, SurfaceDiagonalOf;
    SurfaceRateConstant(c, k, q, a, b, da, db, hl, hr, up, o);
    SurfaceDiagonalConstant(c, k, q, a, b, da, db, ddb, hl, hr, up, o);
    SurfaceCombination(SurfaceRateOf(c, k, q, a, b, da, db, hl, hr, up, o),
                       SurfaceDiagonalOf(c, k, q, a, b, da, db, ddb, hl, hr, up, o),
                       2.0 * c / (hl * hr), SurfaceSourceOf(c, k, q, b, da, hl),
                       c, hl, hr, q / k, -c * q * b * da / (k * k), o, up);
  }

  /** The surface row has no left-neighbour entry, so the left neighbour drops out of the affine form. */
  lemma NoLeftNeighbour(rate: real, diag: real, lower: real, upper: real, src: real, o: real, lo: real, up: real)
    requires rate == diag * o + upper * up + src && lower == 0.0
    ensures rate == diag * o + lower * lo + upper * up + src
  {
  }

  /** With constant conductivity the surface depth rate is the surface entries applied, plus the flux term. */
  lemma SurfaceDepthAffine(p: GridPoint)
    requires ValidPoint(p) && ConstantConductivity(p) && p.atSurface
    ensures AffineDepth(SurfaceRate(p), SurfaceEntries(p), p.st, Source(p))
  {
    hide Midpoint, FluxStencil, SurfaceRateOf, InteriorRateOf, SurfaceSourceOf;
    hide InteriorDiagonalOf, InteriorLowerOf, InteriorUpperOf, SurfaceDiagonalOf;
    SurfaceAffine(p.lv.coef, p.lv.cond, p.q, p.lv.alpha, p.lv.beta, p.lv.dAlpha, p.lv.dBeta, p.lv.ddBeta,
                  p.hl, p.hr, p.st.upper[0], p.st.center);
    NoLeftNeighbour(SurfaceRate(p), SurfaceEntries(p).diag, SurfaceEntries(p).lower, SurfaceEntries(p).upper,
                    Source(p), p.st.center, p.st.lower[0], p.st.upper[0]);
  }

  /** With constant conductivity the interior depth rate is the interior entries applied. */
  lemma InteriorDepthAffine(p: GridPoint)
    requires ValidPoint(p) && ConstantConductivity(p)
    ensures AffineDepth(InteriorRate(p), InteriorEntries(p), p.st, 0.0)
  {
    hide Midpoint, FluxStencil, SurfaceRateOf, InteriorRateOf, SurfaceSourceOf;
    hide InteriorDiagonalOf, InteriorLowerOf, InteriorUpperOf, SurfaceDiagonalOf;
    InteriorAffine(p.lv.coef, p.lv.cond, p.lv.alpha, p.lv.beta, p.lv.dAlpha, p.lv.dBeta, p.lv.ddBeta,
                   p.hl, p.hr, p.st.lower[0], p.st.upper[0], p.st.center);
  }

  /** The rate at the point split into the depth part of its kind of point and the transverse part. */
  lemma RateSplit(p: GridPoint)
    requires ValidPoint(p)
    ensures p.atSurface ==> Rate(p) == SurfaceRate(p) + TransverseRate(p.lv.coef, p.s, p.st, 1, p.dim)
    ensures !p.atSurface ==> Rate(p) == InteriorRate(p) + TransverseRate(p.lv.coef, p.s, p.st, 1, p.dim)
  {
  }

  /** Chaining the rate split with a row identity. */
  lemma Chain(rate: real, depth: real, trans: real, apply: real, src: real, miss: real)
    requires rate == depth + trans && depth + trans == apply + src - miss
    ensures rate == apply + src - miss
  {
  }

  /**
   * At a surface point with constant conductivity, the corrected row applied
   * to the stencil is the rate less the flux term.
   */
  lemma SurfaceRowMatchesRate(p: GridPoint, v: seq<real>)
    requires ValidPoint(p) && ConstantConductivity(p) && |v| >= 2 * p.dim + 1 && p.atSurface
    ensures Rate(p) == ApplyRow(StencilRow(v, SurfaceEntries(p), p.lv.coef, p.s, p.dim), p.st, p.dim) + Source(p)
  {
    hide Midpoint, FluxStencil, SurfaceRateOf, InteriorRateOf, SurfaceSourceOf;
    hide InteriorDiagonalOf, InteriorLowerOf, InteriorUpperOf, SurfaceDiagonalOf;
    hide TransverseRate, NeighbourSum, TransverseDiagonal, ApplyRow;
    RateSplit(p);
    SurfaceDepthAffine(p);
    StencilRowMatches(v, SurfaceEntries(p), p.lv.coef, p.s, p.st, p.dim, SurfaceRate(p), Source(p));
    Chain(Rate(p), SurfaceRate(p), TransverseRate(p.lv.coef, p.s, p.st, 1, p.dim),
          ApplyRow(StencilRow(v, SurfaceEntries(p), p.lv.coef, p.s, p.dim), p.st, p.dim), Source(p), 0.0);
  }

  /** Away from the surface the row built in order is the rate's derivative. */
  lemma InteriorRowMatchesRate(p: GridPoint, v: seq<real>)
    requires ValidPoint(p) && ConstantConductivity(p) && |v| >= 2 * p.dim + 1 && !p.atSurface
    ensures Rate(p) == ApplyRow(StencilRow(v, InteriorEntries(p), p.lv.coef, p.s, p.dim), p.st, p.dim)
  {
    hide Midpoint, FluxStencil, SurfaceRateOf, InteriorRateOf, SurfaceSourceOf;
    hide InteriorDiagonalOf, InteriorLowerOf, InteriorUpperOf, SurfaceDiagonalOf;
    hide TransverseRate, NeighbourSum, TransverseDiagonal, ApplyRow;
    RateSplit(p);
    InteriorDepthAffine(p);
    StencilRowMatches(v, InteriorEntries(p), p.lv.coef, p.s, p.st, p.dim, InteriorRate(p), 0.0);
    Chain(Rate(p), InteriorRate(p), TransverseRate(p.lv.coef, p.s, p.st, 1, p.dim),
          ApplyRow(StencilRow(v, InteriorEntries(p), p.lv.coef, p.s, p.dim), p.st, p.dim), 0.0, 0.0);
  }

  /** At the surface the as-written row misses the transverse share of the diagonal. */
  lemma SurfaceRowMissesTransverse(p: GridPoint, v: seq<real>)
    requires ValidPoint(p) && ConstantConductivity(p) && |v| >= 2 * p.dim + 1 && p.atSurface
    ensures Rate(p) == ApplyRow(AsWrittenRow(v, true, InteriorEntries(p), SurfaceEntries(p), p.lv.coef, p.s, p.dim),
                                p.st, p.dim) + Source(p) - TransverseDiagonal(p.lv.coef, p.s, 1, p.dim) * p.st.center
  {
    hide Midpoint, FluxStencil, SurfaceRateOf, InteriorRateOf, SurfaceSourceOf;
    hide InteriorDiagonalOf, InteriorLowerOf, InteriorUpperOf, SurfaceDiagonalOf;
    hide TransverseRate, NeighbourSum, TransverseDiagonal, ApplyRow;
    RateSplit(p);
    SurfaceDepthAffine(p);
    OverrideMissesTransverse(v, InteriorEntries(p), SurfaceEntries(p), p.lv.coef, p.s, p.st, p.dim,
                             SurfaceRate(p), Source(p));
    Chain(Rate(p), SurfaceRate(p), TransverseRate(p.lv.coef, p.s, p.st, 1, p.dim),
          ApplyRow(AsWrittenRow(v, true, InteriorEntries(p), SurfaceEntries(p), p.lv.coef, p.s, p.dim), p.st, p.dim),
          Source(p), TransverseDiagonal(p.lv.coef, p.s, 1, p.dim) * p.st.center);
  }

  // ---------------------------------------------------------------------------
  // The two handler routines against each other

  /**
   * With constant conductivity at the point, the change computeTemperature
   * makes is the corrected Jacobian row applied to the stencil, plus the flux
   * term at the surface: the corrected row is the derivative of the rate.
   */
  lemma CorrectedPartialsMatchFlux(h: HeatHandler, conc: seq<seq<real>>, offset: seq<real>, val: seq<real>,
                                   indices: seq<int>, hxLeft: real, hxRight: real, xi: int, sy: real, sz: real,
                                   fits: HeatFits)
    requires !h.zeroFlux && PartialsEvaluable(h, conc, val, indices, hxLeft, hxRight, xi, fits)
    requires 0 <= h.dof < |offset|
    requires fits.dBeta(conc[0][h.dof]) == 0.0 && fits.ddBeta(conc[0][h.dof]) == 0.0
    ensures var p := PointOf(h, conc, hxLeft, hxRight, xi, sy, sz, fits);
            ComputeTemperature(h, conc, offset, hxLeft, hxRight, xi, sy, sz, fits)[h.dof] - offset[h.dof]
            == ApplyRow(ComputePartialsCorrected(h, conc, val, indices, hxLeft, hxRight, xi, sy, sz, fits).val,
                        p.st, p.dim) + Source(p)
  {
    hide Midpoint, FluxStencil, SurfaceRateOf, InteriorRateOf, SurfaceSourceOf;
    hide InteriorDiagonalOf, InteriorLowerOf, InteriorUpperOf, SurfaceDiagonalOf;
    hide TransverseRate, NeighbourSum, TransverseDiagonal, ApplyRow;
    var p := PointOf(h, conc, hxLeft, hxRight, xi, sy, sz, fits);
    if p.atSurface {
      SurfaceRowMatchesRate(p, val);
    } else {
      InteriorRowMatchesRate(p, val);
    }
  }

  /** Away from the surface the as-written routines agree the same way. */
  lemma InteriorPartialsMatchFlux(h: HeatHandler, conc: seq<seq<real>>, offset: seq<real>, val: seq<real>,
                                  indices: seq<int>, hxLeft: real, hxRight: real, xi: int, sy: real, sz: real,
                                  fits: HeatFits)
    requires !h.zeroFlux && PartialsEvaluable(h, conc, val, indices, hxLeft, hxRight, xi, fits)
    requires 0 <= h.dof < |offset| && xi != h.surfacePosition
    requires fits.dBeta(conc[0][h.dof]) == 0.0 && fits.ddBeta(conc[0][h.dof]) == 0.0
    ensures var p := PointOf(h, conc, hxLeft, hxRight, xi, sy, sz, fits);
            ComputeTemperature(h, conc, offset, hxLeft, hxRight, xi, sy, sz, fits)[h.dof] - offset[h.dof]
            == ApplyRow(ComputePartialsForTemperature(h, conc, val, indices, hxLeft, hxRight, xi, sy, sz, fits).val,
                        p.st, p.dim)
  {
    hide Midpoint, FluxStencil, SurfaceRateOf, InteriorRateOf, SurfaceSourceOf;
    hide InteriorDiagonalOf, InteriorLowerOf, InteriorUpperOf, SurfaceDiagonalOf;
    hide TransverseRate, NeighbourSum, TransverseDiagonal, ApplyRow;
    InteriorRowMatchesRate(PointOf(h, conc, hxLeft, hxRight, xi, sy, sz, fits), val);
  }

  /**
   * At the surface the as-written row falls short of the derivative of the
   * rate by the transverse share of the diagonal times the point's
   * temperature, which vanishes when there are no transverse terms.
   */
  lemma SurfacePartialsMissTransverse(h: HeatHandler, conc: seq<seq<real>>, offset: seq<real>, val: seq<real>,
                                      indices: seq<int>, hxLeft: real, hxRight: real, xi: int, sy: real, sz: real,
                                      fits: HeatFits)
    requires !h.zeroFlux && PartialsEvaluable(h, conc, val, indices, hxLeft, hxRight, xi, fits)
    requires 0 <= h.dof < |offset| && xi == h.surfacePosition
    requires fits.dBeta(conc[0][h.dof]) == 0.0 && fits.ddBeta(conc[0][h.dof]) == 0.0
    ensures var p := PointOf(h, conc, hxLeft, hxRight, xi, sy, sz, fits);
            ComputeTemperature(h, conc, offset, hxLeft, hxRight, xi, sy, sz, fits)[h.dof] - offset[h.dof]
            == ApplyRow(ComputePartialsForTemperature(h, conc, val, indices, hxLeft, hxRight, xi, sy, sz, fits).val,
                        p.st, p.dim) + Source(p) - TransverseDiagonal(p.lv.coef, p.s, 1, p.dim) * p.st.center
  {
    hide Midpoint, FluxStencil, SurfaceRateOf, InteriorRateOf, SurfaceSourceOf;
    hide InteriorDiagonalOf, InteriorLowerOf, InteriorUpperOf, SurfaceDiagonalOf;
    hide TransverseRate, NeighbourSum, TransverseDiagonal, ApplyRow;
    SurfaceRowMissesTransverse(PointOf(h, conc, hxLeft, hxRight, xi, sy, sz, fits), val);
  }

  /**
   * On a one-dimensional grid there is no transverse loop, so with constant
   * conductivity at the point the as-written surface row is consistent.
   */
  lemma SurfacePartialsOneDimensional(h: HeatHandler, conc: seq<seq<real>>, offset: seq<real>, val: seq<real>,
                                      indices: seq<int>, hxLeft: real, hxRight: real, xi: int, sy: real, sz: real,
                                      fits: HeatFits)
    requires !h.zeroFlux && PartialsEvaluable(h, conc, val, indices, hxLeft, hxRight, xi, fits)
    requires 0 <= h.dof < |offset| && xi == h.surfacePosition && h.dimension == 1
    requires fits.dBeta(conc[0][h.dof]) == 0.0 && fits.ddBeta(conc[0][h.dof]) == 0.0
    ensures var p := PointOf(h, conc, hxLeft, hxRight, xi, sy, sz, fits);
            ComputeTemperature(h, conc, offset, hxLeft, hxRight, xi, sy, sz, fits)[h.dof] - offset[h.dof]
            == ApplyRow(ComputePartialsForTemperature(h, conc, val, indices, hxLeft, hxRight, xi, sy, sz, fits).val,
                        p.st, p.dim) + Source(p)
  {
    hide Midpoint, FluxStencil, SurfaceRateOf, InteriorRateOf, SurfaceSourceOf;
    hide InteriorDiagonalOf, InteriorLowerOf, InteriorUpperOf, SurfaceDiagonalOf;
    hide TransverseRate, NeighbourSum, ApplyRow;
    var p := PointOf(h, conc, hxLeft, hxRight, xi, sy, sz, fits);
    SurfacePartialsMissTransverse(h, conc, offset, val, indices, hxLeft, hxRight, xi, sy, sz, fits);
    assert TransverseDiagonal(p.lv.coef, p.s, 1, p.dim) == 0.0;
  }

  /**
   * A two-dimensional surface point where the as-written Jacobian row is not
   * the derivative of the flux: unit heat coefficient, spacing and fit
   * factors alpha = beta = 1 (so a unit conductivity, factored as the source
   * builds it), sy = 1 and a uniform unit temperature. The as-written row misses
   * 2 * coef * sy * T = 2; the corrected row matches.
   */
  lemma SurfacePartialsCounterexample()
    ensures var h := NewHeatHandler(1.0, 0.0, 2, 0).(heatCoef := 1.0);
            var conc := [[1.0], [1.0], [1.0], [1.0], [1.0]];
            var fits := HeatFits((i: int, t: real) => 1.0, (i: int) => 1.0, (t: real) => 1.0,
                                 (i: int) => 0.0, (t: real) => 0.0, (t: real) => 0.0);
            var val := [0.0, 0.0, 0.0, 0.0, 0.0];
            var p := PointOf(h, conc, 1.0, 1.0, 0, 1.0, 0.0, fits);
            var change := ComputeTemperature(h, conc, [0.0], 1.0, 1.0, 0, 1.0, 0.0, fits)[0] - 0.0;
            && FactoredFits(fits)
            && change == ApplyRow(ComputePartialsForTemperature(h, conc, val, [0], 1.0, 1.0, 0, 1.0, 0.0, fits).val,
                                  p.st, p.dim) + Source(p) - 2.0
            && change == ApplyRow(ComputePartialsCorrected(h, conc, val, [0], 1.0, 1.0, 0, 1.0, 0.0, fits).val,
                                  p.st, p.dim) + Source(p)
  {
    hide Midpoint, FluxStencil, SurfaceRateOf, InteriorRateOf, SurfaceSourceOf;
    hide InteriorDiagonalOf, InteriorLowerOf, InteriorUpperOf, SurfaceDiagonalOf;
    var h := NewHeatHandler(1.0, 0.0, 2, 0).(heatCoef := 1.0);
    var conc := [[1.0], [1.0], [1.0], [1.0], [1.0]];
    var fits := HeatFits((i: int, t: real) => 1.0, (i: int) => 1.0, (t: real) => 1.0,
                         (i: int) => 0.0, (t: real) => 0.0, (t: real) => 0.0);
    var val := [0.0, 0.0, 0.0, 0.0, 0.0];
    var p := PointOf(h, conc, 1.0, 1.0, 0, 1.0, 0.0, fits);
    assert p.lv.coef == 1.0 && p.st.center == 1.0 && p.s == [0.0, 1.0, 0.0];
    assert TransverseDiagonal(1.0, [0.0, 1.0, 0.0], 1, 2) == 2.0;
    SurfacePartialsMissTransverse(h, conc, [0.0], val, [0], 1.0, 1.0, 0, 1.0, 0.0, fits);
    CorrectedPartialsMatchFlux(h, conc, [0.0], val, [0], 1.0, 1.0, 0, 1.0, 0.0, fits);
  }
}
