/** `DewPointSensor.async_update`: one computation pass reads both source
    entities, normalises them, and publishes a new dew point only when both
    readings are present; otherwise the published value stays as it was. */
module Sensor {
  import opened Host
  import opened Rounding
  import opened Normalise
  import opened Dewpoint

  /** What a computation pass leaves behind: the published value and the
      exception, if any, that ended the pass early. */
  datatype PassResult = PassResult(published: Option<real>, raised: Option<Failure>)

  /** Both readings normalised to a number. */
  predicate BothPresent(t: Outcome<Option<real>>, h: Outcome<Option<real>>) {
    t.Returned? && t.value.Some? && h.Returned? && h.value.Some?
  }

  /** One computation pass over the readings of the two source entities,
      starting from the value `published`. The temperature is read first:
      if reading it raises, the humidity is never read. */
  function Pass(published: Option<real>, tempEntry: Option<EntityState>, humEntry: Option<EntityState>,
                services: Services): (r: PassResult)
    // the value changes only to the dew point of two present readings ...
    ensures var t, h := GetDryTemp(tempEntry, services), GetRelHum(humEntry, services.parse);
      r.published != published ==>
        && BothPresent(t, h)
        && CalcDewpoint(t.value.value, h.value.value, services.ln).Returned?
        && r.published == Some(CalcDewpoint(t.value.value, h.value.value, services.ln).value)
    // ... and always does when both are present and the formula returns
    ensures var t, h := GetDryTemp(tempEntry, services), GetRelHum(humEntry, services.parse);
      BothPresent(t, h) && CalcDewpoint(t.value.value, h.value.value, services.ln).Returned? ==>
        r == PassResult(Some(CalcDewpoint(t.value.value, h.value.value, services.ln).value), None)
    // an exception leaves the published value as it was
    ensures r.raised.Some? ==> r.published == published
    // an absent reading ends the pass quietly
    ensures var t, h := GetDryTemp(tempEntry, services), GetRelHum(humEntry, services.parse);
      t.Returned? && h.Returned? && !BothPresent(t, h) ==> r == PassResult(published, None)
    // the pass raises exactly when a source entity has no state object or the formula raises
    ensures r.raised.Some? <==>
      || tempEntry.None? || humEntry.None?
      || (var t, h := GetDryTemp(tempEntry, services), GetRelHum(humEntry, services.parse);
          BothPresent(t, h) && CalcDewpoint(t.value.value, h.value.value, services.ln).Raised?)
    // which exception: AttributeError for a missing state object, else the formula's own
    ensures tempEntry.None? || humEntry.None? ==> r.raised == Some(AttributeError)
    ensures var t, h := GetDryTemp(tempEntry, services), GetRelHum(humEntry, services.parse);
      BothPresent(t, h) && CalcDewpoint(t.value.value, h.value.value, services.ln).Raised? ==>
        r.raised == Some(CalcDewpoint(t.value.value, h.value.value, services.ln).failure)
    // whatever is newly published has one decimal place
    ensures r.published != published ==> r.published.Some? && IsTenth(r.published.value)
  {
    match GetDryTemp(tempEntry, services)
    case Raised(e) => PassResult(published, Some(e))
    case Returned(dryTemp) =>
      match GetRelHum(humEntry, services.parse)
      case Raised(e) => PassResult(published, Some(e))
      case Returned(relHum) =>
        if dryTemp.Some? && relHum.Some? then
          match CalcDewpoint(dryTemp.value, relHum.value, services.ln)
          case Raised(e) => PassResult(published, Some(e))
          case Returned(d) => PassResult(Some(d), None)
        else PassResult(published, None)
  }

  /** A second pass over unchanged sources publishes nothing new. */
  lemma PassIdempotent(published: Option<real>, tempEntry: Option<EntityState>,
                        humEntry: Option<EntityState>, services: Services)
    ensures var once := Pass(published, tempEntry, humEntry, services);
      Pass(once.published, tempEntry, humEntry, services) == once
  {
  }

  /** Relative humidity at exactly 0 % is accepted and publishes the
      sentinel −50 whatever the temperature, as long as the temperature is
      not −K3 (where the formula divides by zero). */
  lemma ZeroHumidityPublishesSentinel(published: Option<real>, tempEntry: Option<EntityState>,
                                      humEntry: Option<EntityState>, services: Services)
    requires tempEntry.Some? && StateNumber(tempEntry.value, services.parse).Some?
    requires tempEntry.value.unit == Some(Celsius)
    requires StateNumber(tempEntry.value, services.parse).value != -K3
    requires humEntry.Some? && humEntry.value.unit == Some(Percent)
    requires StateNumber(humEntry.value, services.parse) == Some(0.0)
    ensures Pass(published, tempEntry, humEntry, services) == PassResult(Some(ZeroHumidityDewPoint), None)
  {
    ZeroHumiditySentinel(StateNumber(tempEntry.value, services.parse).value, services.ln);
  }

  /** The derived sensor. Its published value `_attr_native_value` starts
      unset and is only ever replaced by a dew point. */
  class DewPointSensor {
    const entityDryTemp: string
    const entityRelHum: string
    var nativeValue: Option<real>

    /** Whatever has been published has one decimal place. */
    ghost predicate Valid()
      reads this
    {
      nativeValue.Some? ==> IsTenth(nativeValue.value)
    }

    constructor (entityDryTemp: string, entityRelHum: string)
      ensures Valid()
      ensures this.entityDryTemp == entityDryTemp && this.entityRelHum == entityRelHum
      ensures nativeValue == None
    {
      this.entityDryTemp := entityDryTemp;
      this.entityRelHum := entityRelHum;
      nativeValue := None;
    }

    /** `async_update`, reading the host's state store `states`. Returns the
        exception that ended the pass, if any; only `nativeValue` changes. */
    method Update(states: map<string, EntityState>, services: Services) returns (raised: Option<Failure>)
      requires Valid()
      modifies this`nativeValue
      ensures Valid()
      ensures var p := Pass(old(nativeValue), Lookup(states, entityDryTemp), Lookup(states, entityRelHum), services);
        nativeValue == p.published && raised == p.raised
    {
      var dryTemp := GetDryTemp(Lookup(states, entityDryTemp), services);
      if dryTemp.Raised? {
        return Some(dryTemp.failure);
      }
      var relHum := GetRelHum(Lookup(states, entityRelHum), services.parse);
      if relHum.Raised? {
        return Some(relHum.failure);
      }
      if dryTemp.value.Some? && relHum.value.Some? {
        var dewPoint := CalcDewpoint(dryTemp.value.value, relHum.value.value, services.ln);
        if dewPoint.Raised? {
          return Some(dewPoint.failure);
        }
        nativeValue := Some(dewPoint.value);
      }
      return None;
    }
  }
}
