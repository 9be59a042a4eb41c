/** The reading normalisers of the dew-point sensor: each turns the state
    object of a source entity into a number or into "absent" (Python's
    None). Humidity comes out in percent. Temperature comes out in degrees
    Celsius for °C and °F readings; for any other unit it is whatever the
    host's unit-system conversion returns, which need not be Celsius. */
module Normalise {
  import opened Host

  /** The number a state object carries: its state value when that is
      present, not "unknown", and parses as a float. */
  function StateNumber(e: EntityState, parse: string -> Option<real>): Option<real> {
    if e.state.Some? && e.state.value != Unknown then parse(e.state.value) else None
  }

  /** `util.temperature.fahrenheit_to_celsius`. */
  function FahrenheitToCelsius(f: real): (c: real)
    ensures c * 9.0 / 5.0 + 32.0 == f
    ensures f < 32.0 <==> c < 0.0
  {
    (f - 32.0) * 5.0 / 9.0
  }

  /** `get_dry_temp`: the dry-bulb temperature (degrees Celsius for °C and
      °F readings), None when it cannot be read. A missing state object makes the error message
      itself raise. A unit other than Celsius or Fahrenheit is reported but
      not rejected: the value then goes through the host's own conversion,
      which yields None only when that conversion raises ValueError. */
  function GetDryTemp(entry: Option<EntityState>, services: Services): (r: Outcome<Option<real>>)
    ensures r.Raised? <==> entry.None?
    ensures r.Raised? ==> r.failure == AttributeError
    ensures entry.Some? && StateNumber(entry.value, services.parse).None? ==> r == Returned(None)
    ensures entry.Some? && StateNumber(entry.value, services.parse).Some? ==>
      var t := StateNumber(entry.value, services.parse).value;
      var unit := entry.value.unit;
      && (unit == Some(Celsius) ==> r == Returned(Some(t)))
      && (unit == Some(Fahrenheit) ==> r == Returned(Some(FahrenheitToCelsius(t))))
      && (unit != Some(Celsius) && unit != Some(Fahrenheit) ==>
            r == Returned(services.convertTemperature(t, unit)))
  {
    if entry.None? then Raised(AttributeError)
    else
      var e := entry.value;
      if e.state.None? || e.state.value == Unknown then Returned(None)
      else
        match services.parse(e.state.value)
        case None => Returned(None)
        case Some(temp) =>
          if e.unit == Some(Fahrenheit) then Returned(Some(FahrenheitToCelsius(temp)))
          else if e.unit == Some(Celsius) then Returned(Some(temp))
          else Returned(services.convertTemperature(temp, e.unit))
  }

  /** `get_rel_hum`: the relative humidity in percent, None unless the state
      parses, carries the unit "%" and lies in [0, 100]. The value is not
      scaled. A missing state object makes the error message itself raise. */
  function GetRelHum(entry: Option<EntityState>, parse: string -> Option<real>): (r: Outcome<Option<real>>)
    ensures r.Raised? <==> entry.None?
    ensures r.Raised? ==> r.failure == AttributeError
    ensures r.Returned? && r.value.Some? ==>
      && 0.0 <= r.value.value <= 100.0
      && entry.value.unit == Some(Percent)
      && r.value == StateNumber(entry.value, parse)
    ensures entry.Some? && StateNumber(entry.value, parse).Some? && entry.value.unit == Some(Percent)
            && 0.0 <= StateNumber(entry.value, parse).value <= 100.0
            ==> r == Returned(StateNumber(entry.value, parse))
  {
    if entry.None? then Raised(AttributeError)
    else
      var e := entry.value;
      if e.state.None? || e.state.value == Unknown then Returned(None)
      else
        match parse(e.state.value)
        case None => Returned(None)
        case Some(hum) =>
          if e.unit != Some(Percent) then Returned(None)
          else if hum > 100.0 || hum < 0.0 then Returned(None)
          else Returned(Some(hum))
  }
}
