/** `calc_dewpoint`: the Magnus approximation of the dew point,
      alpha = K2·t / (K3 + t),  beta = K2·K3 / (K3 + t),
      dew point = K3·(alpha + ln(h/100)) / (beta − ln(h/100)),
    with −50 for zero humidity, rounded to one decimal place. The natural
    logarithm is a parameter: only the branch structure, the error cases and
    what follows from ln(h/100) ≤ 0 are stated here. */
module Dewpoint {
  import opened Host
  import opened Rounding

  const K2: real := 17.62
  const K3: real := 243.12

  /** The value used when the relative humidity is zero, where the formula
      has no value. */
  const ZeroHumidityDewPoint: real := -50.0

  /** The dew point before rounding, with the exceptions Python raises on the
      way: a zero divisor K3 + t (before the humidity is even looked at), the
      logarithm of a negative humidity, and a zero divisor beta − ln(h/100). */
  function Magnus(tempC: real, relHum: real, ln: real -> real): (r: Outcome<real>)
    ensures tempC == -K3 ==> r == Raised(ZeroDivisionError)
    ensures tempC != -K3 && relHum == 0.0 ==> r == Returned(ZeroHumidityDewPoint)
    ensures tempC != -K3 && relHum < 0.0 ==> r == Raised(MathDomainError)
    ensures r.Raised? ==> r.failure == ZeroDivisionError || r.failure == MathDomainError
  {
    if K3 + tempC == 0.0 then Raised(ZeroDivisionError)
    else
      var alpha := K2 * tempC / (K3 + tempC);
      var beta := K2 * K3 / (K3 + tempC);
      if relHum == 0.0 then Returned(ZeroHumidityDewPoint)
      else if relHum < 0.0 then Raised(MathDomainError)
      else
        var l := ln(relHum / 100.0);
        if beta - l == 0.0 then Raised(ZeroDivisionError)
        else Returned(K3 * (alpha + l) / (beta - l))
  }

  /** `calc_dewpoint` as intended: the Magnus dew point rounded to one decimal. */
  function CalcDewpoint(tempC: real, relHum: real, ln: real -> real): (r: Outcome<real>)
    ensures r.Returned? ==> IsTenth(r.value)
    ensures r.Returned? <==> Magnus(tempC, relHum, ln).Returned?
    ensures r.Returned? ==> -0.05 <= r.value - Magnus(tempC, relHum, ln).value <= 0.05
    ensures r.Raised? ==> r == Magnus(tempC, relHum, ln)
  {
    match Magnus(tempC, relHum, ln)
    case Raised(e) => Raised(e)
    case Returned(d) => Returned(Round1(d))
  }

  /** `calc_dewpoint` as the source has it: `math` is never imported, so
      every call that reaches `math.log` raises NameError, and only the
      zero-humidity branch returns. */
  function CalcDewpointAsWritten(tempC: real, relHum: real): (r: Outcome<real>)
    ensures tempC == -K3 ==> r == Raised(ZeroDivisionError)
    ensures tempC != -K3 && relHum == 0.0 ==> r == Returned(ZeroHumidityDewPoint)
    ensures tempC != -K3 && relHum != 0.0 ==> r == Raised(NameError)
  {
    if K3 + tempC == 0.0 then Raised(ZeroDivisionError)
    else if relHum == 0.0 then
      Round1OfTenth(ZeroHumidityDewPoint);
      Returned(Round1(ZeroHumidityDewPoint))
    else Raised(NameError)
  }

  /** Zero humidity gives the sentinel −50 at every temperature except
      t = −K3, where computing alpha already divides by zero. */
  lemma ZeroHumiditySentinel(tempC: real, ln: real -> real)
    ensures CalcDewpoint(tempC, 0.0, ln) ==
      if tempC == -K3 then Raised(ZeroDivisionError) else Returned(ZeroHumidityDewPoint)
  {
    Round1OfTenth(ZeroHumidityDewPoint);
  }

  /** Where the logarithm behaves as ln does on (0, 1] (ln(h/100) ≤ 0), the
      Magnus dew point is defined and never exceeds the temperature, for
      every temperature above −K3. */
  lemma MagnusNotAboveTemperature(tempC: real, relHum: real, ln: real -> real)
    requires tempC > -K3 && relHum > 0.0
    requires ln(relHum / 100.0) <= 0.0
    ensures Magnus(tempC, relHum, ln).Returned?
    ensures Magnus(tempC, relHum, ln).value <= tempC
  {
    var s := K3 + tempC;
    var alpha := K2 * tempC / s;
    var beta := K2 * K3 / s;
    var l := ln(relHum / 100.0);
    assert alpha * s == K2 * tempC;
    assert beta * s == K2 * K3;
    assert beta > 0.0;
    var den := beta - l;
    assert den > 0.0;
    // K3·alpha = t·beta, so K3·(alpha + l) ≤ t·(beta − l) reduces to (K3 + t)·l ≤ 0.
    assert K3 * alpha * s == tempC * beta * s;
    assert K3 * alpha == tempC * beta;
    assert s * l <= 0.0;
    assert K3 * (alpha + l) <= tempC * den;
    var d := K3 * (alpha + l) / den;
    assert d * den == K3 * (alpha + l);
    assert Magnus(tempC, relHum, ln) == Returned(d);
  }

  /** The published dew point is never above the temperature rounded the same way. */
  lemma DewPointNotAboveTemperature(tempC: real, relHum: real, ln: real -> real)
    requires tempC > -K3 && relHum > 0.0
    requires ln(relHum / 100.0) <= 0.0
    ensures CalcDewpoint(tempC, relHum, ln).Returned?
    ensures CalcDewpoint(tempC, relHum, ln).value <= Round1(tempC)
  {
    MagnusNotAboveTemperature(tempC, relHum, ln);
    Round1Monotone(Magnus(tempC, relHum, ln).value, tempC);
  }

  /** At saturation (100 % humidity, ln 1 = 0) the dew point is the
      temperature, at every temperature where the formula is defined. */
  lemma SaturatedDewPoint(tempC: real, ln: real -> real)
    requires tempC != -K3
    requires ln(1.0) == 0.0
    ensures Magnus(tempC, 100.0, ln) == Returned(tempC)
    ensures CalcDewpoint(tempC, 100.0, ln) == Returned(Round1(tempC))
  {
    var s := K3 + tempC;
    var alpha := K2 * tempC / s;
    var beta := K2 * K3 / s;
    assert alpha * s == K2 * tempC;
    assert beta * s == K2 * K3;
    assert beta != 0.0;
    assert K3 * alpha * s == tempC * beta * s;
    assert K3 * alpha == tempC * beta;
    assert K3 * (alpha + 0.0) / (beta - 0.0) == tempC;
  }

  /** 20 °C at 50 % relative humidity: with ln 0.5 known to four decimals
      (−0.69315 rounded), the published dew point is 9.3 °C. */
  lemma TwentyDegreesHalfSaturated(ln: real -> real)
    requires -0.6932 <= ln(0.5) <= -0.6931
    ensures CalcDewpoint(20.0, 50.0, ln) == Returned(9.3)
  {
    var s := K3 + 20.0;
    var alpha := K2 * 20.0 / s;
    var beta := K2 * K3 / s;
    var l := ln(50.0 / 100.0);
    assert alpha * s == K2 * 20.0;
    assert beta * s == K2 * K3;
    var den := beta - l;
    assert den > 0.0;
    var d := K3 * (alpha + l) / den;
    assert d * den == K3 * (alpha + l);
    assert 92.5 < d * 10.0 < 93.5;
    Round1Near(d, 93);
  }

  /** The missing import at work: on the same input where the intended
      formula publishes 9.3, the code as written raises NameError. */
  lemma MissingImportRaisesOnTypicalAir(ln: real -> real)
    requires -0.6932 <= ln(0.5) <= -0.6931
    ensures CalcDewpointAsWritten(20.0, 50.0) == Raised(NameError)
    ensures CalcDewpoint(20.0, 50.0, ln) == Returned(9.3)
  {
    TwentyDegreesHalfSaturated(ln);
  }
}
