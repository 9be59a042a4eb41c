# Dew-point sensor for Home Assistant, modelled in Dafny

The component is a derived Home Assistant sensor. It reads two source
entities from the host's state store, a dry-bulb temperature and a relative
humidity, and publishes their dew point. The model covers the logic of
`DewPointSensor` that belongs to this component:

- **Reading normalisers** (`Normalise`). `get_dry_temp` and `get_rel_hum`
  turn a host state object into a number or into None. Humidity comes out
  in percent. Temperature comes out in °C for °C and °F readings; for any
  other unit it is whatever the host's unit-system conversion returns.
  They check, in order: the state is present and not `'unknown'`, the state
  parses as a float, the unit, and (for humidity) the range [0, 100].
- **Dew-point calculator** (`Dewpoint`). `calc_dewpoint` is the Magnus
  approximation with K2 = 17.62 and K3 = 243.12. It returns −50 for zero
  humidity and rounds to one decimal place (`Rounding`).
- **Update rule** (`Sensor`). `async_update` runs one computation pass. It
  overwrites `_attr_native_value` only when both readings are present.
  `Sensor.Pass` is the pass as a function. `Sensor.DewPointSensor.Update`
  is the method that changes the field.

Python exceptions are values of `Host.Outcome` (`Returned` or `Raised`).
The library calls the code makes are fields of `Host.Services`:
`util.convert(s, float)`, `hass.config.units.temperature` and `math.log`.
They are passed in as functions and are not modelled. The one exception is
`util.temperature.fahrenheit_to_celsius`, which is written out as the
formula (F − 32)·5/9 in `Normalise.FahrenheitToCelsius`. The host's state store
is a `map` from entity id to state object, and `hass.states.get` is
`Host.Lookup`. Numbers are exact reals.

Three behaviours of the code are easy to miss:

- A temperature with a unit other than °C or °F is not always absent. The
  code logs the unsupported unit and does not return. It then goes on to
  the host's unit conversion, and returns None only when that conversion
  raises ValueError (sensor.py:142-150). That conversion targets the host's
  configured unit system, so on a host set to US customary units a Kelvin
  reading comes back in °F and is then used as if it were °C.
- A source entity with no state object is not absent either. The error
  message reads `state.entity_id` on None, which raises AttributeError
  (sensor.py:125-126 and 156-157). The pass then ends by raising, and the
  published value is kept.
- Computing `alpha` divides by K3 + t before the humidity is looked at. So
  at t = −243.12 even zero humidity raises ZeroDivisionError, and the −50
  sentinel holds for every other temperature.

## Model

| member | source | states |
|---|---|---|
| `Rounding.Round1` | custom_components/dewpoint/sensor.py:195 | `round(x, 1)`: the result has one decimal place and lies within 0.05 of `x` |
| `Rounding.Round1OfTenth` | custom_components/dewpoint/sensor.py:195 | a value that already has one decimal place is returned unchanged |
| `Rounding.Round1Monotone` | custom_components/dewpoint/sensor.py:195 | rounding preserves order |
| `Rounding.Round1Near` | custom_components/dewpoint/sensor.py:195 | a value strictly within half a tenth of k/10 rounds to k/10 |
| `Normalise.FahrenheitToCelsius` | custom_components/dewpoint/sensor.py:138-139 | (F − 32)·5/9: converting back with C·9/5 + 32 gives F again, and F is below freezing exactly when C is below 0 |
| `Normalise.GetDryTemp` | custom_components/dewpoint/sensor.py:121-150 | raises exactly when the entity has no state object. A None, `'unknown'` or unparseable state is absent whatever the unit. Otherwise °C is returned unchanged, °F as (F − 32)·5/9, and any other unit gives the host conversion's result (absent only if it raises ValueError) |
| `Normalise.GetRelHum` | custom_components/dewpoint/sensor.py:152-178 | raises exactly when the entity has no state object. Returns a value exactly when the state parses, the unit is `'%'` and 0 ≤ value ≤ 100 (both ends included), over real numbers (NaN is under Left out). The value is returned unscaled |
| `Dewpoint.Magnus` | custom_components/dewpoint/sensor.py:180-193 | the unrounded dew point. t = −K3 raises ZeroDivisionError before anything else. Zero humidity gives −50, and a negative humidity raises the `math.log` domain error. No other exception is raised |
| `Dewpoint.CalcDewpoint` | custom_components/dewpoint/sensor.py:180-197 | returns exactly when `Dewpoint.Magnus` returns, and then gives that dew point rounded: a value with one decimal place within 0.05 of it. Otherwise it raises the same exception as `Dewpoint.Magnus` |
| `Dewpoint.CalcDewpointAsWritten` | custom_components/dewpoint/sensor.py:186-193 | the code without `import math`: t = −K3 raises ZeroDivisionError, zero humidity returns −50 for every other t, and every nonzero humidity raises NameError |
| `Dewpoint.ZeroHumiditySentinel` | custom_components/dewpoint/sensor.py:183-187 | `calc_dewpoint(t, 0)` is −50 for every t ≠ −K3. At t = −K3 it raises ZeroDivisionError |
| `Dewpoint.MagnusNotAboveTemperature` | custom_components/dewpoint/sensor.py:183-193 | for t > −K3, h > 0 and ln(h/100) ≤ 0, the unrounded dew point exists and is at most t |
| `Dewpoint.DewPointNotAboveTemperature` | custom_components/dewpoint/sensor.py:183-195 | under the same conditions, the published dew point exists and is at most t rounded to one decimal |
| `Dewpoint.SaturatedDewPoint` | custom_components/dewpoint/sensor.py:183-195 | at 100 % humidity with ln 1 = 0 and any t ≠ −K3, the unrounded dew point is exactly t, so the result is t rounded |
| `Dewpoint.TwentyDegreesHalfSaturated` | custom_components/dewpoint/sensor.py:180-197 | 20 °C at 50 % gives 9.3 whenever ln 0.5 is known to four decimals |
| `Dewpoint.MissingImportRaisesOnTypicalAir` | custom_components/dewpoint/sensor.py:189-193 | at 20 °C and 50 % the code as written raises NameError, where the intended formula gives 9.3 |
| `Sensor.Pass` | custom_components/dewpoint/sensor.py:199-209 | the published value changes only to the dew point of two present readings, and always does when both are present and the formula returns. An absent reading keeps the value and raises nothing. The pass raises exactly when a source has no state object (AttributeError) or the formula raises (the formula's own exception), and then the value is kept. A new value has one decimal place. The pass uses the intended `Dewpoint.CalcDewpoint`: with `Dewpoint.CalcDewpointAsWritten` every pass with a nonzero humidity and t ≠ −K3 would end in NameError and publish nothing (see Findings) |
| `Sensor.PassIdempotent` | custom_components/dewpoint/sensor.py:199-209 | a second pass over unchanged sources changes nothing |
| `Sensor.ZeroHumidityPublishesSentinel` | custom_components/dewpoint/sensor.py:199-209 | a 0 % humidity reading with a valid °C temperature (≠ −K3) publishes −50 |
| `Sensor.DewPointSensor.constructor` | custom_components/dewpoint/sensor.py:77-91 | a new sensor keeps its two source entity ids and has nothing published yet |
| `Sensor.DewPointSensor.Update` | custom_components/dewpoint/sensor.py:199-209 | `async_update` reads both entities from the state store. It sets `nativeValue` to what `Sensor.Pass` publishes, returns the exception that ended the pass (if any), changes no other field, and keeps every published value at one decimal place |

## Left out

- Platform setup, configuration schemas, entity-id generation, the fixed display attributes, the `name`/`unique_id` properties, and the startup and state-change subscriptions (sensor.py:53-72, 81-119). These are host registration and event-bus plumbing.
- Logging, including the debug line at sensor.py:196, which logs `self._state` rather than the result. Logging is a side effect only, so the log messages of each error case are not modelled.
- `util.convert`, `hass.config.units.temperature` and `math.log` are foreign calls. They appear as functions in `Host.Services`. The host conversion may raise exceptions other than ValueError, and those are not modelled. In the fallback branch the code parses the state a second time with `float(state.state)`. The model assumes this gives the same number that `util.convert` gave.
- `Dewpoint.CalcDewpoint`: the numeric value of the logarithmic branch is not computed, because `ln` is a parameter. The dew point ≤ temperature property is therefore proved only under the hypothesis ln(h/100) ≤ 0, and the 9.3 example only under bounds on ln 0.5.
- Normalise.GetRelHum: NaN and the infinities that `float()` accepts ("nan", "inf", "-inf") are not modelled, because numbers are exact reals. In Python a NaN humidity passes the range check at sensor.py:173, since both comparisons are false, and is returned as a valid reading.
- Normalise.GetDryTemp: NaN and infinite temperatures that `float()` accepts are not modelled either, for the same reason; in Python they pass through °C, °F and the host conversion.
- Floating point is not modelled. Numbers are exact reals, so there is no overflow, no underflow and no representation error. `round(x, 1)` is modelled as half-to-even rounding of the exact value to a multiple of 0.1. The float nearest to that multiple is not modelled.
- Python's `%` formatting, the host's event loop, and the host catching the exception an update raises are not modelled. The pass only reports which exception ended it.

## Findings

| source | as written | input that shows it | evidently intended | confidence | as-written member | corrected member |
|---|---|---|---|---|---|---|
| custom_components/dewpoint/sensor.py:189-193 | `math.log` is called, but `math` is never imported (sensor.py:11-43). Every nonzero humidity raises NameError for t ≠ −K3 | t = 20 °C, h = 50 % | the Magnus formula with the natural logarithm, giving 9.3 here | high (not executed) | `Dewpoint.CalcDewpointAsWritten`, `Dewpoint.MissingImportRaisesOnTypicalAir` | `Dewpoint.CalcDewpoint`, `Dewpoint.DewPointNotAboveTemperature` |
