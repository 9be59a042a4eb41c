/** What the dew-point sensor sees of its host platform: the state objects it
    reads, the Python exceptions its code can raise, and the library calls it
    makes (float parsing, the host's unit conversion, the natural logarithm),
    which are passed in as functions rather than modelled. */
module Host {

  datatype Option<+T> = None | Some(value: T)

  /** The Python exceptions that escape from the sensor's code paths. */
  datatype Failure =
    | AttributeError     // `state.entity_id` read on a missing state object
    | NameError          // `math` used without being imported
    | ZeroDivisionError  // float division by zero
    | MathDomainError    // `math.log` of a negative number (a ValueError)

  /** How a Python call ends: it returns a value or raises. */
  datatype Outcome<+T> = Returned(value: T) | Raised(failure: Failure)

  /** The unit tags of the host platform. */
  const Celsius: string := "°C"
  const Fahrenheit: string := "°F"
  const Percent: string := "%"

  /** The sentinel state string the sensor treats as "no reading". */
  const Unknown: string := "unknown"

  /** A state object of the host's state store: its state value and the
      `unit_of_measurement` attribute, either of which may be missing. */
  datatype EntityState = EntityState(state: Option<string>, unit: Option<string>)

  /** The foreign calls the sensor makes.
      - `parse`: `util.convert(s, float)`, a number or None when `float(s)` fails;
      - `convertTemperature`: `hass.config.units.temperature(v, unit)`, a
        number or None when it raises ValueError;
      - `ln`: `math.log`, on positive arguments. */
  datatype Services = Services(
    parse: string -> Option<real>,
    convertTemperature: (real, Option<string>) -> Option<real>,
    ln: real -> real)

  /** `hass.states.get(entity)`: the entity's state, or None when the store has none. */
  function Lookup(states: map<string, EntityState>, entity: string): Option<EntityState>
  {
    if entity in states then Some(states[entity]) else None
  }
}
