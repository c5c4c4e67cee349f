/** The `Sensor` class and its two subclasses: construction from an index
    and a template, reading the raw first line, fixed-point conversion, and
    the write-once `temp` cache. The file system is a map from path to
    content, read afresh on every uncached call. */
module Sensors {
  import opened Results
  import opened Text
  import opened Numerals
  import opened Decimals
  import opened Templates

  /** `Sensor._PREC`: readings are the measured quantity × 10^PREC. Neither
      subclass overrides it. */
  const PREC: nat := 3

  /** Which class an instance belongs to: `Sensor`,
      `MicrophoneNoiseSensor` or `CameraColorSensor`. */
  datatype Kind = Thermal | MicrophoneNoise | CameraColor

  /** The class-level `_TEMPLATE`, the only thing the subclasses change. */
  function DefaultTemplate(kind: Kind): Template {
    match kind
    case Thermal => THERMAL_ZONE
    case MicrophoneNoise => MICROPHONE_NOISE
    case CameraColor => CAMERA_COLOR
  }

  /** Path to content of every readable file; a path that is absent cannot
      be opened. */
  type FileSystem = map<string, string>

  /** An instance: its class, the resolved path `self.sensor`, and the
      `_temp` slot, which is absent until the first successful `temp`. */
  datatype Sensor = Sensor(kind: Kind, path: string, cache: Option<Decimal>)

  /** `__init__(sensor_num, _tpl=...)`: the index goes through `int()`
      first, then the caller's template, or the class template when none is
      given, is filled in with it. Nothing is read. */
  function New(kind: Kind, num: Arg, tpl: Option<Template>): (r: Result<Sensor>)
    ensures r.Err? <==> ToInt(num).None?
    ensures r.Err? ==> r.error == ConfigurationError
    ensures r.Ok? ==> r.value.kind == kind && r.value.cache.None?
    ensures r.Ok? && tpl.None? ==> r.value.path == Format(DefaultTemplate(kind), ToInt(num).value)
    ensures r.Ok? && tpl.Some? ==> r.value.path == Format(tpl.value, ToInt(num).value)
  {
    match ToInt(num)
    case None => Err(ConfigurationError)
    case Some(n) =>
      var template := if tpl.None? then DefaultTemplate(kind) else tpl.value;
      Ok(Sensor(kind, Format(template, n), None))
  }

  /** `convert_temperature(value)`: `int(value)` first, so text that is
      not an integer literal fails before any decimal arithmetic; then the
      text `f'{value}.' + '0' * PREC` as a `Decimal`, divided by
      `10 ** PREC`. The result is the reading scaled down exactly, held with
      PREC places: "35500" gives 35.500. */
  function ConvertTemperature(value: string): (r: Result<Decimal>)
    ensures r.Ok? <==> IsIntLiteral(IntStrip(value))
    ensures r.Err? ==> r.error == ParseError
    ensures r.Ok? ==> IsQuotient(r.value, Decimal(ParseInt(value).value, 0), PREC)
    ensures r.Ok? ==> r.value == Decimal(ParseInt(value).value, -(PREC as int))
    ensures r.Ok? ==> (r.value.coefficient < 0 <==> ParseInt(value).value < 0)
  {
    match ParseInt(value)
    case None => Err(ParseError)
    case Some(n) =>
      var text := IntToString(n) + "." + Zeros(PREC);
      FixedPointText(n, PREC);
      DivideScaled(n, -(PREC as int), PREC);
      var r := Divide(ParseDecimal(text).value, Pow10(PREC));
      assert Pow10(0) == 1;
      Ok(r)
  }

  /** `get_temperature_raw()`: open the path, read one line, strip it. */
  function GetTemperatureRaw(s: Sensor, fs: FileSystem): (r: Result<string>)
    ensures r.Err? <==> s.path !in fs
    ensures r.Err? ==> r.error == IOError
    ensures r.Ok? ==> StripsTo(FirstLine(fs[s.path]), r.value) && NoLineBreak(r.value)
  {
    if s.path !in fs then Err(IOError) else Ok(StrippedFirstLine(fs[s.path]))
  }

  /** The integer on the first line of `content`, as `int()` reads it once
      `strip()` has removed the whitespace around it. */
  function Reading(content: string): Option<int> {
    ParseInt(Strip(FirstLine(content)))
  }

  /** `get_temperature()`: an uncached read followed by the conversion. A
      missing file fails before anything is parsed. */
  function GetTemperature(s: Sensor, fs: FileSystem): (r: Result<Decimal>)
    ensures s.path !in fs ==> r == Err(IOError)
    ensures s.path in fs ==> (r.Ok? <==> Reading(fs[s.path]).Some?)
    ensures s.path in fs && r.Err? ==> r.error == ParseError
    ensures r.Ok? ==> IsQuotient(r.value, Decimal(Reading(fs[s.path]).value, 0), PREC)
    ensures r.Ok? ==> r.value == Decimal(Reading(fs[s.path]).value, -(PREC as int))
  {
    var raw :- GetTemperatureRaw(s, fs);
    RawReading(fs[s.path], raw);
    ConvertTemperature(raw)
  }

  /** Whatever `strip()` leaves of the first line, `int()` reads it as the
      reading. */
  lemma RawReading(content: string, raw: string)
    requires StripsTo(FirstLine(content), raw)
    ensures ParseInt(raw) == Reading(content)
  {
    StripSplits(FirstLine(content));
    StripUnique(FirstLine(content), raw, Strip(FirstLine(content)));
  }

  /** The `temp` property: the stored value when there is one, otherwise a
      fresh `get_temperature()`, which is stored when it succeeds. A failed
      read leaves the slot empty and the error goes to the caller. */
  function CachedTemp(s: Sensor, fs: FileSystem): (out: (Result<Decimal>, Sensor))
    ensures s.cache.Some? ==> out == (Ok(s.cache.value), s)
    ensures s.cache.None? ==> out.0 == GetTemperature(s, fs)
    ensures out.1.kind == s.kind && out.1.path == s.path
    ensures out.0.Ok? ==> out.1.cache == Some(out.0.value)
    ensures out.0.Err? ==> out.1 == s
  {
    if s.cache.Some? then (Ok(s.cache.value), s)
    else
      match GetTemperature(s, fs)
      case Ok(v) => (Ok(v), s.(cache := Some(v)))
      case Err(e) => (Err(e), s)
  }

  /** Successive `temp` accesses on one instance, the files being in state
      `states[i]` at the i-th access: the results, and the instance after. */
  function Accesses(s: Sensor, states: seq<FileSystem>): (out: (seq<Result<Decimal>>, Sensor))
    ensures |out.0| == |states|
    decreases |states|
  {
    if |states| == 0 then ([], s)
    else
      var (first, next) := CachedTemp(s, states[0]);
      var (rest, last) := Accesses(next, states[1..]);
      ([first] + rest, last)
  }

  /** Indexing into a sequence with one element put in front. */
  lemma ConsIndex<T>(a: seq<T>, x: T, rest: seq<T>)
    requires a == [x] + rest
    ensures |a| == |rest| + 1 && a[0] == x
    ensures forall k :: 0 <= k < |rest| ==> a[k + 1] == rest[k]
  {
  }

  /** Once the slot is filled, every access returns the stored value,
      whatever the files say, and the instance never changes again. */
  lemma {:induction false} CachedIsStale(s: Sensor, states: seq<FileSystem>)
    requires s.cache.Some?
    ensures forall i :: 0 <= i < |states| ==> Accesses(s, states).0[i] == Ok(s.cache.value)
    ensures Accesses(s, states).1 == s
  {
    if |states| > 0 {
      CachedIsStale(s, states[1..]);
    }
  }

  /** Over any run of accesses, the first success is stored and every
      later access returns that same value, even if the files have changed
      since. */
  lemma {:induction false} TempComputedOnce(s: Sensor, states: seq<FileSystem>)
    ensures var results := Accesses(s, states).0;
      forall i, j :: 0 <= i < j < |results| && results[i].Ok? ==> results[j] == results[i]
    decreases |states|
  {
    if |states| > 0 {
      var (first, next) := CachedTemp(s, states[0]);
      var rest := Accesses(next, states[1..]).0;
      var results := Accesses(s, states).0;
      TempComputedOnce(next, states[1..]);
      if first.Ok? {
        CachedIsStale(next, states[1..]);
      }
      FirstSuccessKept(results, first, rest);
    }
  }

  /** A run of results where each success repeats to the end stays so with
      one more result in front, if a success there repeats to the end too. */
  lemma FirstSuccessKept<T>(results: seq<Result<T>>, first: Result<T>, rest: seq<Result<T>>)
    requires results == [first] + rest
    requires forall i, j :: 0 <= i < j < |rest| && rest[i].Ok? ==> rest[j] == rest[i]
    requires first.Ok? ==> forall k :: 0 <= k < |rest| ==> rest[k] == first
    ensures forall i, j :: 0 <= i < j < |results| && results[i].Ok? ==> results[j] == results[i]
  {
    ConsIndex(results, first, rest);
    forall i, j | 0 <= i < j < |results| && results[i].Ok?
      ensures results[j] == results[i]
    {
      assert results[j] == rest[j - 1];
      if i > 0 {
        assert results[i] == rest[i - 1];
      }
    }
  }

  /** While the slot is empty, each access reads the files afresh: up to
      and including the first success, the i-th result is
      `get_temperature()` on the i-th state of the files. */
  lemma {:induction false} TempReadsUntilStored(s: Sensor, states: seq<FileSystem>)
    requires s.cache.None?
    ensures var results := Accesses(s, states).0;
      forall i :: 0 <= i < |results| && (forall k :: 0 <= k < i ==> results[k].Err?) ==>
        results[i] == GetTemperature(s, states[i])
    decreases |states|
  {
    if |states| > 0 {
      var (first, next) := CachedTemp(s, states[0]);
      var rest := Accesses(next, states[1..]).0;
      var results := Accesses(s, states).0;
      assert results == [first] + rest;
      ConsIndex(results, first, rest);
      if first.Err? {
        TempReadsUntilStored(s, states[1..]);
        forall i | 0 < i < |results| && (forall k :: 0 <= k < i ==> results[k].Err?)
          ensures results[i] == GetTemperature(s, states[i])
        {
          assert results[i] == rest[i - 1];
          assert states[1..][i - 1] == states[i];
        }
      }
    }
  }

  /** A worked reading: "35500" is 35.500. */
  lemma ConvertPositiveExample()
    ensures ConvertTemperature("35500") == Ok(Decimal(35500, -3))
  {
    ParsePositiveExample();
  }

  /** A negative reading keeps its sign: "-1000" is -1.000. */
  lemma ConvertNegativeExample()
    ensures ConvertTemperature("-1000") == Ok(Decimal(-1000, -3))
  {
    ParseNegativeExample();
  }

  /** Text that is not an integer, such as "abc", fails with a parse error. */
  lemma ConvertRejectsLetters()
    ensures ConvertTemperature("abc") == Err(ParseError)
  {
    ParseIntRejectsLetters();
  }

  /** `MicrophoneNoiseSensor.get_noise_level()`: a pass-through to
      `get_temperature()`; the noise-specific reading is a placeholder in
      the source; only the pass-through is modelled. */
  function GetNoiseLevel(s: Sensor, fs: FileSystem): (r: Result<Decimal>)
    requires s.kind == MicrophoneNoise
    ensures r == GetTemperature(s, fs)
    ensures s.path !in fs ==> r == Err(IOError)
    ensures r.Ok? ==> r.value == Decimal(Reading(fs[s.path]).value, -(PREC as int))
  {
    GetTemperature(s, fs)
  }

  /** `CameraColorSensor.get_camera_color()`: likewise a pass-through. */
  function GetCameraColor(s: Sensor, fs: FileSystem): (r: Result<Decimal>)
    requires s.kind == CameraColor
    ensures r == GetTemperature(s, fs)
    ensures s.path !in fs ==> r == Err(IOError)
    ensures r.Ok? ==> r.value == Decimal(Reading(fs[s.path]).value, -(PREC as int))
  {
    GetTemperature(s, fs)
  }

  /** The subclasses differ from `Sensor` only in the class template: given
      the same explicit template, instances of any two classes read the same
      file and return the same values. */
  lemma KindOnlyPicksTemplate(k1: Kind, k2: Kind, num: Arg, t: Template, fs: FileSystem)
    ensures New(k1, num, Some(t)).Ok? <==> New(k2, num, Some(t)).Ok?
    ensures New(k1, num, Some(t)).Ok? ==>
      && New(k1, num, Some(t)).value.path == New(k2, num, Some(t)).value.path
      && GetTemperature(New(k1, num, Some(t)).value, fs) == GetTemperature(New(k2, num, Some(t)).value, fs)
  {
    if New(k1, num, Some(t)).Ok? {
      ReadDependsOnPathOnly(New(k1, num, Some(t)).value, New(k2, num, Some(t)).value, fs);
    }
  }

  /** What an uncached read returns depends on the path and the files
      alone. */
  lemma ReadDependsOnPathOnly(s1: Sensor, s2: Sensor, fs: FileSystem)
    requires s1.path == s2.path
    ensures GetTemperature(s1, fs) == GetTemperature(s2, fs)
  {
    assert GetTemperatureRaw(s1, fs) == GetTemperatureRaw(s2, fs);
  }

  /** After `strip()`, `int()` has no whitespace left to skip: the reading
      is the stripped first line read as an integer literal exactly. */
  lemma ReadingIsLiteral(content: string)
    ensures Reading(content) == ParseIntLiteral(Strip(FirstLine(content)))
  {
    StripThenIntStrip(FirstLine(content));
  }

  /** An instance as an object: its `_temp` slot is the only mutable part,
      so reading `temp` on one instance leaves every other instance's slot
      alone. */
  class SensorObject {
    const kind: Kind
    const path: string
    var cache: Option<Decimal>

    constructor (s: Sensor)
      requires s.cache.None?
      ensures State() == s
    {
      kind := s.kind;
      path := s.path;
      cache := None;
    }

    function State(): Sensor
      reads this
    {
      Sensor(kind, path, cache)
    }

    method Temp(fs: FileSystem) returns (r: Result<Decimal>)
      modifies this
      ensures (r, State()) == CachedTemp(old(State()), fs)
      ensures old(cache).Some? ==> r == Ok(old(cache).value) && cache == old(cache)
    {
      var (result, next) := CachedTemp(State(), fs);
      cache := next.cache;
      r := result;
    }
  }

  /** Two instances built independently, both with empty slots. Reading
      `temp` on the first fills only the first one's slot (when it
      succeeds): the second's slot is still empty, and its own `temp` then
      reads its file afresh. */
  method IndependentSlots(a: Sensor, b: Sensor, fs: FileSystem, later: FileSystem)
    returns (r1: Result<Decimal>, between: Option<Decimal>, r2: Result<Decimal>)
    requires a.cache.None? && b.cache.None?
    ensures r1 == GetTemperature(a, fs)
    ensures between == None
    ensures r2 == GetTemperature(b, later)
  {
    var x := new SensorObject(a);
    var y := new SensorObject(b);
    r1 := x.Temp(fs);
    between := y.cache;
    r2 := y.Temp(later);
  }
}
