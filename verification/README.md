# get_temp.py in Dafny

A model of `get_temp.py`, a small reader for sysfs-style sensor files. It
builds a file path from a template and a sensor index. It reads the first
line of that file and parses it as an integer. It divides the integer by
10^3 with exact decimal arithmetic, giving a `decimal.Decimal` with three
places. The `Sensor` class stores the first successful result in a
per-instance slot and returns it from then on. `MicrophoneNoiseSensor` and
`CameraColorSensor` change only the path template. The module-level
`get_temp()` does the same read and scaling on its own.

The model is written in terms of Python's own behaviour:

- `Text`: `str.isspace`, `str.strip()`, and `readline()` on a text-mode
  file with universal newlines.
- `Numerals`: `int()` on text and on `int`, and `str()` on `int`.
- `Decimals`: a `Decimal` is a coefficient and an exponent. The module
  covers `Decimal(text)` for fixed-point text and exact division by a power
  of ten. As Python's `decimal` does for an exact result, the quotient
  takes the exponent closest to the ideal one.
- `Templates`: `str.format(num=...)` on templates with a single `{num}`
  field.
- `Sensors`: construction, `get_temperature_raw`, `convert_temperature`,
  `get_temperature`, the cached `temp` property and the two subclasses.
- `GetTemp`: the module-level `get_temp()`, and its agreement with the
  class.

The file system is a map from path to file content. Opening a path absent
from the map fails. Errors are modelled as three kinds:

- `ConfigurationError`: `int(sensor_num)` fails.
- `IOError`: `open()` fails.
- `ParseError`: `int()` fails on the file's line.

Python raises `ValueError`, `OSError` and `ValueError` in these three cases.

Four points of the code shape the model:

- Any integer index is accepted. `int()` is the only check, so
  `Sensor(-1)` builds the path `.../thermal_zone-1/temp`, and the model
  takes negative indices too.
- Both subclasses inherit `_PREC = 3`, so `PREC` is one constant.
- `temp` writes the slot only when `get_temperature()` returns. A failed
  read leaves the slot empty, and the next access reads the file again.
  `CachedTemp` models this.
- `int()` does not skip the same characters as `strip()`. It skips tab,
  line feed, vertical tab, form feed, carriage return, space and
  non-ASCII whitespace. It does not skip the ASCII separators U+001C to
  U+001F, which `str.isspace()` counts as whitespace. `Text.IntStrip`
  models what `int()` skips, and `Text.Strip` models `strip()`.

## Model

| member | source | states |
|---|---|---|
| `Sensors.New` | get_temp.py:35-43 | Construction fails with a configuration error exactly when `int(sensor_num)` fails. Otherwise the instance has the given class and an empty slot. Its path is the caller's template, or the class template when none is given, filled in with the coerced index. |
| `Numerals.ToInt` | get_temp.py:36 | `int()` returns an `int` argument unchanged. Text succeeds exactly when, once the characters `int()` skips are removed from both ends, it is an optional sign followed by ASCII digits. |
| `Templates.Format` | get_temp.py:43 | The formatted path keeps the template's text before and after the field. Between them is a rendering of the index that reads back as that index. |
| `Templates.FormatInjective` | get_temp.py:43 | Two indices that give the same path under one template are equal. |
| `Templates.FormatIsSubstitution` | get_temp.py:18 | Replacing `{num}` in a template with `str(n)` gives the path `Format` builds, for templates with no other braces. |
| `Templates.ThermalZoneTemplate` | get_temp.py:32 | The thermal template is `/sys/class/thermal/thermal_zone{num}/temp`, with no brace outside the field. |
| `Templates.MicrophoneNoiseTemplate` | get_temp.py:75 | The microphone template is `/path/to/microphone_noise{num}`, with no brace outside the field. |
| `Templates.CameraColorTemplate` | get_temp.py:96 | The camera template is `/path/to/camera_color{num}`, with no brace outside the field. |
| `Text.FirstLine` | get_temp.py:57-58 | The first line is a prefix of the content with no `\n` or `\r` in it. It stops either at the end of the content or just before a line break. |
| `Text.ReadLine` | get_temp.py:57-58 | `readline()` returns the first line, plus one `\n` exactly when the content has a line break after it. |
| `Text.Strip` | get_temp.py:58 | `strip()` never lengthens its argument, and its result has no whitespace at either end. |
| `Text.StripSplits` | get_temp.py:58 | `strip()` leaves `s` minus whitespace on both sides, and the result has no whitespace at either end. |
| `Text.StripUnique` | get_temp.py:58 | At most one string is `s` minus its surrounding whitespace with no whitespace at either end. So that condition pins down `strip()`. |
| `Text.StripIdempotent` | get_temp.py:58 | Stripping twice gives the same as stripping once. |
| `Text.StripKeepsTrimmed` | get_temp.py:58 | `strip()` leaves unchanged text that has no whitespace at either end. |
| `Text.StripDropsNewline` | get_temp.py:58 | A trailing `\n` from `readline()` makes no difference once the line is stripped. |
| `Text.StrippedFirstLine` | get_temp.py:57-58 | `readline().strip()` is the first line of the content with its surrounding whitespace removed, and holds no line break. |
| `Text.IntStrip` | get_temp.py:48 | What `int()` ignores of its text: the result is never longer, has no character `int()` skips at either end, and leaves text with none there unchanged. |
| `Text.IntStripSplits` | get_temp.py:48 | `IntStrip` removes only characters `int()` skips, and only from the two ends. The rest of the text stays in place. |
| `Text.StripThenIntStrip` | get_temp.py:58 | After `strip()`, `int()` has nothing more to skip. |
| `Numerals.ParseInt` | get_temp.py:48 | `int(text)` succeeds exactly when, once the characters `int()` skips are removed from both ends, the text is an optional sign followed by one or more ASCII digits. Text with none of those characters at either end is read as it stands. |
| `Numerals.IntKeepsSeparators` | get_temp.py:48 | `int()` does not skip U+001C to U+001F: such a character before digits makes `int()` fail, though `strip()` would remove it. |
| `Numerals.IntToString` | get_temp.py:52 | `str(n)` is an integer literal with no whitespace at either end and no leading zero. It is all digits when `n` is not negative, and `-` followed by digits, the first non-zero, when `n` is negative. |
| `Numerals.IntRoundTrip` | get_temp.py:52 | `int(str(n)) == n` for every integer `n`. |
| `Numerals.IntToStringInjective` | get_temp.py:52 | Distinct integers have distinct `str()` renderings. |
| `Numerals.ParseIntRejectsLeading` | get_temp.py:48 | Text with no character `int()` skips at either end is refused when it starts with neither a sign nor a digit. |
| `Numerals.ParseIntRejectsLetters` | get_temp.py:48 | `int("abc")` fails. |
| `Numerals.ParseUnsigned` | get_temp.py:48 | A bare run of digits reads as its decimal value. |
| `Numerals.ParseNegative` | get_temp.py:48 | `-` followed by digits reads as minus their value. |
| `Numerals.ParsePositiveExample` | get_temp.py:48 | `int("35500") == 35500`. |
| `Numerals.ParseNegativeExample` | get_temp.py:48 | `int("-1000") == -1000`. |
| `Numerals.DigitsValueZeros` | get_temp.py:52 | Appending `k` zero digits, as `'0' * PREC` does, multiplies the value of a digit string by 10^k. |
| `Numerals.NatToDigits` | get_temp.py:52 | `str()` on a natural number gives ASCII digits with no leading zero, and they read back as the number. |
| `Decimals.ParseDecimal` | get_temp.py:53 | `Decimal(text)` on an integer literal is that integer with exponent 0. Every result has a non-positive exponent. |
| `Decimals.FixedPointText` | get_temp.py:52-53 | `Decimal(f'{v}.' + '0' * p)` is `v`·10^p with exponent −p, numerically equal to `v`. |
| `Decimals.Divide` | get_temp.py:53 | Dividing by 10^k gives the exact quotient. The ideal exponent is the dividend's, because `Decimal(10 ** k)` has exponent 0. The result's exponent lies between the dividend's exponent minus k and the ideal. It falls below the ideal only when the coefficient has no trailing zero left to drop. |
| `Decimals.DivideUnique` | get_temp.py:53 | Any decimal meeting the conditions `Divide` states is `Divide`'s result, so those conditions fix the quotient. |
| `Decimals.DivideScaled` | get_temp.py:53 | Dividing `v`·10^k with exponent `e` by 10^k gives exactly `v` with exponent `e`. No place is lost and no trailing zero is added. |
| `Sensors.ConvertTemperature` | get_temp.py:46-54 | Conversion succeeds exactly when `int(value)` does, and fails with a parse error otherwise. The result is the reading with exponent −3: exactly the reading divided by 1000, negative exactly when the reading is. |
| `Sensors.ConvertPositiveExample` | get_temp.py:46-54 | `"35500"` converts to 35.500. |
| `Sensors.ConvertNegativeExample` | get_temp.py:46-54 | `"-1000"` converts to -1.000. |
| `Sensors.ConvertRejectsLetters` | get_temp.py:48 | `"abc"` fails with a parse error. |
| `Sensors.GetTemperatureRaw` | get_temp.py:56-60 | The raw read fails with an I/O error exactly when the path cannot be opened. Otherwise it is the stripped first line, free of line breaks. |
| `Sensors.RawReading` | get_temp.py:62-65 | Whatever string is the first line minus its surrounding whitespace, `int()` reads the reading from it. |
| `Sensors.ReadingIsLiteral` | get_temp.py:58-65 | The reading is the stripped first line read as an integer literal exactly. `int()` has nothing more to skip. |
| `Sensors.GetTemperature` | get_temp.py:62-65 | A missing file fails with an I/O error before any parsing. Otherwise the read succeeds exactly when `int()` accepts the stripped first line, and fails with a parse error when it does not. On success the value is that integer with exponent −3, the integer divided by 1000. |
| `Sensors.ReadDependsOnPathOnly` | get_temp.py:62-65 | Two instances with the same path give the same uncached result on the same files. |
| `Sensors.CachedTemp` | get_temp.py:67-71 | A filled slot is returned as is. An empty slot gives a fresh `get_temperature()`, stored on success and left empty on failure. Class and path never change. |
| `Sensors.CachedIsStale` | get_temp.py:67-71 | Once the slot is filled, every later access returns the stored value whatever the files hold, and the instance stays unchanged. |
| `Sensors.TempComputedOnce` | get_temp.py:67-71 | In any run of accesses, every access after the first success returns that success's value. |
| `Sensors.SensorObject.Temp` | get_temp.py:67-71 | On an instance object, `temp` returns and stores what `CachedTemp` gives for the object's state. A filled slot is returned unchanged and stays as it was. |
| `Sensors.IndependentSlots` | get_temp.py:67-71 | The slot belongs to the instance. For two fresh instances, reading `temp` on one leaves the other's slot empty. The other's own `temp` then reads its file as it is at that time. |
| `Sensors.TempReadsUntilStored` | get_temp.py:67-71 | Starting from an empty slot, every access up to and including the first success reads the files as they are at that access. |
| `Sensors.GetNoiseLevel` | get_temp.py:86-92 | `get_noise_level()` is `get_temperature()` on the instance's path, so it shares the same error cases and scaling. |
| `Sensors.GetCameraColor` | get_temp.py:107-113 | `get_camera_color()` is `get_temperature()` on the instance's path, so it shares the same error cases and scaling. |
| `Sensors.KindOnlyPicksTemplate` | get_temp.py:74-84 | Given the same explicit template, instances of any two classes build the same path and read the same value. Only the default template tells the classes apart. |
| `GetTemp.GetTemp` | get_temp.py:9-27 | A failed index coercion gives a configuration error. A missing file gives an I/O error. A first line that is not an integer literal once stripped gives a parse error. Otherwise the result is the integer with exponent −3, the integer divided by 1000. |
| `GetTemp.Thousandths` | get_temp.py:26 | `Decimal(f'{v}.000') / 1000` is `v` with exponent −3. |
| `GetTemp.GetTempIsSensorRead` | get_temp.py:9-27 | `get_temp(n, _template=t)` equals `Sensor(n, _tpl=t).get_temperature()`: the same value or the same failure, on every input. |
| `GetTemp.DefaultsAgree` | get_temp.py:7-9 | With both defaults, `get_temp(n)` equals `Sensor(n).get_temperature()`. |

## Left out

- The `__main__` block (lines 116-131) prints results and is not modelled.
- Real file I/O, encodings and decoding errors are not modelled: a file is
  its decoded text, and any path in the map can be opened and read.
- `Decimals.Divide`: only divisors that are powers of ten are modelled, the
  only divisors the source uses. The model has no 28-digit context
  precision, rounding or signals, so it covers only results that fit in the
  context's precision.
- `Sensors.ConvertTemperature`: the model does not apply the `decimal`
  context's 28-digit precision. A reading with more than 28 digits would be
  rounded by Python, but the model keeps it exact.
- `Numerals.ParseInt`: underscores between digits (`int("1_000")`) and
  non-ASCII decimal digits are not modelled. Such text is refused.
- Python's limit of 4300 digits on `int()`/`str()` conversions is not
  modelled.
- `Numerals.ToInt`: only `int` and `str` arguments are modelled. A `float`,
  `bool` or other object passed as `sensor_num` is out of scope.
- `Templates.Format`: only templates with a single `{num}` field and no
  other braces are modelled, not the whole `str.format` language. That
  covers all three templates in the source.
- `Decimals.ParseDecimal`: only fixed-point text is modelled: an optional
  sign, digits and an optional fraction. Exponent notation, `NaN` and
  `Infinity` are not modelled; the source never produces them. A
  `Decimal` has no sign of its own, so negative zero is not represented:
  `Decimal("-0.000")`, negative zero in Python, comes out as plain zero.
  The source never builds such text: it formats `str(int)`, and
  `Numerals.IntToString` puts a non-zero digit after every `-`.
- The noise-level and colour readings are placeholders in the source that
  return the temperature path's result. They are modelled as exactly that.
- File-handle release and blocking behaviour are left out, because the model
  has no resources or time.
