/** Sensor path templates: a format string holding one `{num}` field,
    filled in with `str.format(num=...)`. */
module Templates {
  import opened Results
  import opened Numerals

  /** A template with a single `{num}` field: the text before and after it. */
  datatype Template = Template(prefix: string, suffix: string)

  /** The field name the source's templates use. */
  const FIELD: string := "{num}"

  /** `Thermal` sensors: `Sensor._TEMPLATE`, and `SENSOR_TPL` of the
      module-level reader. */
  const THERMAL_ZONE := Template("/sys/class/thermal/thermal_zone", "/temp")
  const MICROPHONE_NOISE := Template("/path/to/microphone_noise", "")
  const CAMERA_COLOR := Template("/path/to/camera_color", "")

  predicate NoBrace(s: string) {
    forall k :: 0 <= k < |s| ==> s[k] != '{' && s[k] != '}'
  }

  /** A template whose text outside the field has no other braces, so that
      `str.format` treats it as literal text. */
  predicate WellFormed(t: Template) {
    NoBrace(t.prefix) && NoBrace(t.suffix)
  }

  /** The template as a format string. */
  function Spelling(t: Template): string {
    t.prefix + FIELD + t.suffix
  }

  /** `s.format(num=...)` with `value` the field's rendering, for format
      strings whose only replacement fields are `{num}`. */
  function Substitute(s: string, value: string): string {
    if |s| == 0 then ""
    else if FIELD <= s then value + Substitute(s[|FIELD|..], value)
    else [s[0]] + Substitute(s[1..], value)
  }

  /** `t.format(num=n)` for an integer `n`: the path holds the template's
      text on both sides and, between them, a rendering of `n` that reads
      back as `n`. */
  function Format(t: Template, n: int): (path: string)
    ensures |path| >= |t.prefix| + |t.suffix|
    ensures path[..|t.prefix|] == t.prefix
    ensures path[|path| - |t.suffix|..] == t.suffix
    ensures ParseInt(path[|t.prefix|..|path| - |t.suffix|]) == Some(n)
  {
    var digits := IntToString(n);
    var path := t.prefix + digits + t.suffix;
    ThreeParts(t.prefix, digits, t.suffix);
    IntRoundTrip(n);
    path
  }

  /** The three pieces of a concatenation can be sliced back out of it. */
  lemma ThreeParts(p: string, d: string, q: string)
    ensures (p + d + q)[..|p|] == p
    ensures (p + d + q)[|p + d + q| - |q|..] == q
    ensures (p + d + q)[|p|..|p + d + q| - |q|] == d
  {
    var s := p + d + q;
    assert s[|p|..|s| - |q|] == d;
  }

  /** Distinct indices give distinct paths under one template. */
  lemma FormatInjective(t: Template, a: int, b: int)
    requires Format(t, a) == Format(t, b)
    ensures a == b
  {
  }

  lemma {:induction false} SubstituteLiteral(s: string, value: string)
    requires NoBrace(s)
    ensures Substitute(s, value) == s
  {
    if |s| > 0 {
      assert !(FIELD <= s) by {
        assert s[0] != '{';
      }
      SubstituteLiteral(s[1..], value);
    }
  }

  lemma {:induction false} SubstituteField(p: string, q: string, value: string)
    requires NoBrace(p)
    ensures Substitute(p + FIELD + q, value) == p + value + Substitute(q, value)
  {
    var s := p + FIELD + q;
    if |p| == 0 {
      assert s == FIELD + q;
      assert FIELD <= s;
      assert s[|FIELD|..] == q;
    } else {
      assert !(FIELD <= s) by {
        assert s[0] == p[0];
      }
      assert s[1..] == p[1..] + FIELD + q;
      SubstituteField(p[1..], q, value);
      assert [p[0]] + p[1..] == p;
    }
  }

  /** Filling the field of a well-formed template's format string with
      `str(n)` is `Format(t, n)`. */
  lemma FormatIsSubstitution(t: Template, n: int)
    requires WellFormed(t)
    ensures Substitute(Spelling(t), IntToString(n)) == Format(t, n)
  {
    SubstituteField(t.prefix, t.suffix, IntToString(n));
    SubstituteLiteral(t.suffix, IntToString(n));
  }

  /** `Sensor._TEMPLATE` and `SENSOR_TPL`: one field, no other braces. */
  lemma ThermalZoneTemplate()
    ensures Spelling(THERMAL_ZONE) == "/sys/class/thermal/thermal_zone{num}/temp"
    ensures WellFormed(THERMAL_ZONE)
  {
  }

  /** `MicrophoneNoiseSensor._TEMPLATE`. */
  lemma MicrophoneNoiseTemplate()
    ensures Spelling(MICROPHONE_NOISE) == "/path/to/microphone_noise{num}"
    ensures WellFormed(MICROPHONE_NOISE)
  {
  }

  /** `CameraColorSensor._TEMPLATE`. */
  lemma CameraColorTemplate()
    ensures Spelling(CAMERA_COLOR) == "/path/to/camera_color{num}"
    ensures WellFormed(CAMERA_COLOR)
  {
  }
}
