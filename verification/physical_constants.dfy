/**
 * The material constants the modelled code reads from the project's
 * Constants.h. That header is not part of this model, so its values enter
 * as a record; lemmas that need a sign state it as a hypothesis.
 */
module PhysicalConstants {

  datatype Constants = Constants(
    tungstenLatticeConstant: real,
    heliumRadius: real,
    tungstenHeatCoefficient: real,
    tungstenHeatConductivity: real,
    uo2HeatCoefficient: real,
    uo2HeatConductivity: real,
    feHeatCoefficient: real,
    feHeatConductivity: real)

  /** The two geometric fallbacks are physical lengths, hence positive. */
  predicate PositiveFallbacks(c: Constants) {
    c.tungstenLatticeConstant > 0.0 && c.heliumRadius > 0.0
  }
}
