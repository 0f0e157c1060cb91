/** The energy and carbon units of a declaration, and conversion between them, over exact numbers. */
module Units {

  datatype EnergyUnit = Wh | KWh | MWh | GWh

  datatype CarbonUnit = G | Kg | T

  function WattHours(unit: EnergyUnit): (r: real)
    ensures r > 0.0
  {
    match unit
    case Wh => 1.0
    case KWh => 1000.0
    case MWh => 1_000_000.0
    case GWh => 1_000_000_000.0
  }

  function Grams(unit: CarbonUnit): (r: real)
    ensures r > 0.0
  {
    match unit
    case G => 1.0
    case Kg => 1000.0
    case T => 1_000_000.0
  }

  function ConvertEnergy(value: real, from: EnergyUnit, to: EnergyUnit): real {
    value * WattHours(from) / WattHours(to)
  }

  function ConvertCarbon(value: real, from: CarbonUnit, to: CarbonUnit): real {
    value * Grams(from) / Grams(to)
  }

  lemma Cancel(x: real, b: real)
    requires b > 0.0
    ensures x / b * b == x
  {
  }

  /** Converting by way of another unit changes nothing, so a figure may be restated in any unit. */
  lemma EnergyByWayOf(value: real, from: EnergyUnit, via: EnergyUnit, to: EnergyUnit)
    ensures ConvertEnergy(ConvertEnergy(value, from, via), via, to) == ConvertEnergy(value, from, to)
  {
    hide WattHours;
    Cancel(value * WattHours(from), WattHours(via));
  }

  lemma CarbonByWayOf(value: real, from: CarbonUnit, via: CarbonUnit, to: CarbonUnit)
    ensures ConvertCarbon(ConvertCarbon(value, from, via), via, to) == ConvertCarbon(value, from, to)
  {
    hide Grams;
    Cancel(value * Grams(from), Grams(via));
  }
}
