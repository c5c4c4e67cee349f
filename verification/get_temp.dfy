/** The module-level `get_temp(sensor_num, _template=SENSOR_TPL)`: a second,
    self-contained implementation of the same read-and-scale path, with the
    precision written out as ".000" and 1000. */
module GetTemp {
  import opened Results
  import opened Text
  import opened Numerals
  import opened Decimals
  import opened Templates
  import Sensors

  /** `SENSOR_TPL`, the default `_template`. */
  const SENSOR_TPL: Template := THERMAL_ZONE

  /** `get_temp(sensor_num, _template=template)` against the files `fs`:
      the index is coerced before any path is built or file opened, the
      file must exist, and its stripped first line must be an integer
      literal; the result is that integer / 1000, held with three places. */
  function GetTemp(num: Arg, template: Template, fs: Sensors.FileSystem): (r: Result<Decimal>)
    ensures ToInt(num).None? ==> r == Err(ConfigurationError)
    ensures ToInt(num).Some? && Format(template, ToInt(num).value) !in fs ==> r == Err(IOError)
    ensures ToInt(num).Some? && Format(template, ToInt(num).value) in fs ==>
      var reading := Sensors.Reading(fs[Format(template, ToInt(num).value)]);
      && (r.Ok? <==> reading.Some?)
      && (r.Err? ==> r.error == ParseError)
      && (r.Ok? ==> r.value == Decimal(reading.value, -3) && IsQuotient(r.value, Decimal(reading.value, 0), 3))
  {
    match ToInt(num)
    case None => Err(ConfigurationError)
    case Some(n) =>
      var fname := Format(template, n);
      if fname !in fs then Err(IOError)
      else
        var val := StrippedFirstLine(fs[fname]);
        Sensors.RawReading(fs[fname], val);
        match ParseInt(val)
        case None => Err(ParseError)
        case Some(v) =>
          Thousandths(v);
          Ok(Divide(ParseDecimal(IntToString(v) + ".000").value, 1000))
  }

  /** `Decimal(f'{v}.000') / 1000` is `v` with three places. */
  lemma Thousandths(v: int)
    ensures ParseDecimal(IntToString(v) + ".000") == Some(Decimal(v * 1000, -3))
    ensures IsPowerOfTen(1000) && Log10(1000) == 3
    ensures Divide(Decimal(v * 1000, -3), 1000) == Decimal(v, -3)
    ensures IsQuotient(Decimal(v, -3), Decimal(v, 0), 3)
  {
    ThousandthsText(v);
    DivideScaled(v, -3, 3);
    PowerOfTen(3);
    assert Pow10(3) == 1000 && Pow10(0) == 1;
  }

  lemma ThousandthsText(v: int)
    ensures ParseDecimal(IntToString(v) + ".000") == Some(Decimal(v * 1000, -3))
  {
    var t := IntToString(v);
    assert t + "." + Zeros(3) == t + ".000" by {
      assert Zeros(3) == "000";
    }
    assert v * Pow10(3) == v * 1000 by {
      assert Pow10(3) == 1000;
    }
    FixedPointText(v, 3);
  }

  /** `get_temp(n, _template=t)` and `Sensor(n, _tpl=t).get_temperature()`
      agree on every input: the same value, or the same failure. */
  lemma GetTempIsSensorRead(num: Arg, template: Template, fs: Sensors.FileSystem)
    ensures GetTemp(num, template, fs) ==
      match Sensors.New(Sensors.Thermal, num, Some(template))
      case Err(e) => Err(e)
      case Ok(s) => Sensors.GetTemperature(s, fs)
  {
  }

  /** With both defaults, `get_temp()` and `Sensor().get_temperature()`
      read the same file. */
  lemma DefaultsAgree(num: Arg, fs: Sensors.FileSystem)
    ensures GetTemp(num, SENSOR_TPL, fs) ==
      match Sensors.New(Sensors.Thermal, num, None)
      case Err(e) => Err(e)
      case Ok(s) => Sensors.GetTemperature(s, fs)
  {
    GetTempIsSensorRead(num, SENSOR_TPL, fs);
  }
}
