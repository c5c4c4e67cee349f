/** Python's `int()` on text and `str()` on integers, restricted to ASCII
    decimal digits. */
module Numerals {
  import opened Results
  import Text

  predicate IsDigit(c: char) {
    '0' <= c <= '9'
  }

  predicate IsSign(c: char) {
    c == '+' || c == '-'
  }

  predicate AllDigits(s: string) {
    forall k :: 0 <= k < |s| ==> IsDigit(s[k])
  }

  function Pow10(k: nat): (p: nat)
    ensures p >= 1
  {
    if k == 0 then 1 else 10 * Pow10(k - 1)
  }

  /** The value of a run of decimal digits, most significant first. */
  function DigitsValue(s: string): nat
    requires AllDigits(s)
  {
    if |s| == 0 then 0
    else DigitsValue(s[..|s| - 1]) * 10 + (s[|s| - 1] as int - '0' as int)
  }

  function DigitChar(d: nat): (c: char)
    requires d < 10
    ensures IsDigit(c) && c as int - '0' as int == d
  {
    ('0' as int + d) as char
  }

  /** `k` copies of '0': the source's `'0' * PREC`. */
  function Zeros(k: nat): (s: string)
    ensures |s| == k && AllDigits(s)
    ensures forall j :: 0 <= j < k ==> s[j] == '0'
  {
    seq(k, _ => '0')
  }

  /** The decimal digits of `n` with no leading zero. */
  function NatToDigits(n: nat): (s: string)
    ensures |s| > 0 && AllDigits(s)
    ensures |s| > 1 ==> s[0] != '0'
    ensures DigitsValue(s) == n
  {
    if n < 10 then [DigitChar(n)]
    else
      var p := NatToDigits(n / 10);
      var s := p + [DigitChar(n % 10)];
      assert s[..|s| - 1] == p;
      s
  }

  /** The integer grammar `int()` accepts once surrounding whitespace is
      gone: an optional sign, then one or more ASCII digits. */
  predicate IsIntLiteral(s: string) {
    && |s| > 0
    && (IsDigit(s[0]) || (IsSign(s[0]) && |s| > 1))
    && AllDigits(s[1..])
  }

  /** Splits off a leading sign: whether it was '-', and the rest. */
  function SplitSign(s: string): (bool, string) {
    if |s| > 0 && IsSign(s[0]) then (s[0] == '-', s[1..]) else (false, s)
  }

  function Signed(negative: bool, magnitude: nat): int {
    if negative then -(magnitude as int) else magnitude
  }

  /** `int(s)` on text without surrounding whitespace. */
  function ParseIntLiteral(s: string): (r: Option<int>)
    ensures r.Some? <==> IsIntLiteral(s)
    ensures r.Some? && r.value < 0 ==> s[0] == '-'
    ensures r.Some? && s[0] == '-' ==> r.value <= 0
  {
    var (negative, digits) := SplitSign(s);
    if |digits| > 0 && AllDigits(digits) then
      Some(Signed(negative, DigitsValue(digits)))
    else
      None
  }

  /** Python's `int(s)` for a `str` argument: the whitespace `int()`
      skips is ignored at either end, anything else that is not an integer
      literal is refused. */
  function ParseInt(s: string): (r: Option<int>)
    ensures r.Some? <==> IsIntLiteral(Text.IntStrip(s))
    ensures Text.NoOuterIntSpace(s) ==> r == ParseIntLiteral(s)
  {
    ParseIntLiteral(Text.IntStrip(s))
  }

  /** No zero leads the digits of `s`, after its sign if it has one,
      unless that zero is the only digit; so no `-` is followed by a zero. */
  predicate NoLeadingZero(s: string) {
    && (|s| > 1 && s[0] != '-' ==> s[0] != '0')
    && (|s| > 0 && s[0] == '-' ==> |s| > 1 && s[1] != '0')
  }

  /** Python's `str(n)` for an `int`. */
  function IntToString(n: int): (s: string)
    ensures IsIntLiteral(s) && Text.NoOuterSpace(s) && NoLeadingZero(s)
    ensures n >= 0 ==> AllDigits(s)
    ensures n < 0 ==> s[0] == '-' && AllDigits(s[1..])
  {
    if n < 0 then
      var d := NatToDigits(-n);
      assert |d| == 1 ==> DigitsValue(d) == d[0] as int - '0' as int by {
        if |d| == 1 { assert d[..0] == []; }
      }
      "-" + d
    else NatToDigits(n)
  }

  /** `int(str(n)) == n`: reading back a rendered integer gives it back. */
  lemma IntRoundTrip(n: int)
    ensures ParseInt(IntToString(n)) == Some(n)
  {
    var s := IntToString(n);
    if n < 0 {
      assert SplitSign(s) == (true, NatToDigits(-n));
    } else {
      assert SplitSign(s) == (false, NatToDigits(n));
    }
  }

  /** `str` is injective on integers. */
  lemma IntToStringInjective(a: int, b: int)
    requires IntToString(a) == IntToString(b)
    ensures a == b
  {
    IntRoundTrip(a);
    IntRoundTrip(b);
  }

  /** Text that starts, once stripped, with neither a sign nor a digit is
      refused. */
  lemma ParseIntRejectsLeading(s: string)
    requires |s| > 0 && Text.NoOuterIntSpace(s) && !IsDigit(s[0]) && !IsSign(s[0])
    ensures ParseInt(s) == None
  {
  }

  /** Text that is not an integer literal, such as "abc", is refused. */
  lemma ParseIntRejectsLetters()
    ensures ParseInt("abc") == None
  {
    var s := "abc";
    assert s[0] == 'a' && s[|s| - 1] == 'c';
    ParseIntRejectsLeading(s);
  }

  /** `int()` does not skip the ASCII separators U+001C to U+001F, though
      `strip()` does: `int("\x1c0")` fails where `int("\x1c0".strip())`
      is 0. */
  lemma IntKeepsSeparators(c: char, ds: string)
    requires '\U{1c}' <= c <= '\U{1f}'
    requires |ds| > 0 && AllDigits(ds)
    ensures Text.Strip([c] + ds) == ds
    ensures ParseInt([c] + ds) == None
  {
    var s := [c] + ds;
    assert !Text.IsIntSpace(s[0]) && !Text.IsIntSpace(s[|s| - 1]);
    assert !IsDigit(s[0]) && !IsSign(s[0]);
    assert Text.SplitsAt(s, 1, ds) by {
      assert s[1..1 + |ds|] == ds;
      assert s[..1] == [c];
    }
    assert !Text.IsSpace(ds[0]) && !Text.IsSpace(ds[|ds| - 1]);
    Text.StripSplits(s);
    Text.StripUnique(s, ds, Text.Strip(s));
  }

  /** Digits with no sign read as their value. */
  lemma DigitsLiteral(ds: string)
    requires |ds| > 0 && AllDigits(ds)
    ensures ParseIntLiteral(ds) == Some(DigitsValue(ds))
  {
    assert SplitSign(ds) == (false, ds);
  }

  /** Digits after a '-' read as minus their value. */
  lemma NegativeLiteral(ds: string)
    requires |ds| > 0 && AllDigits(ds)
    ensures ParseIntLiteral("-" + ds) == Some(-(DigitsValue(ds) as int))
  {
    assert SplitSign("-" + ds) == (true, ds);
  }

  /** `int()` skips no decimal digit. */
  lemma DigitNotIntSpace(c: char)
    requires IsDigit(c)
    ensures !Text.IsIntSpace(c)
  {
  }

  /** A bare run of digits reads as its value. */
  lemma ParseUnsigned(ds: string)
    requires |ds| > 0 && AllDigits(ds)
    ensures ParseInt(ds) == Some(DigitsValue(ds))
  {
    DigitsLiteral(ds);
    DigitNotIntSpace(ds[0]);
    DigitNotIntSpace(ds[|ds| - 1]);
  }

  /** A '-' followed by digits reads as minus their value. */
  lemma ParseNegative(ds: string)
    requires |ds| > 0 && AllDigits(ds)
    ensures ParseInt("-" + ds) == Some(-(DigitsValue(ds) as int))
  {
    var s := "-" + ds;
    NegativeLiteral(ds);
    assert s[0] == '-' && s[|s| - 1] == ds[|ds| - 1];
    DigitNotIntSpace(ds[|ds| - 1]);
  }

  /** Appending one digit shifts the value one place and adds the digit. */
  lemma DigitsValueSnoc(ds: string, c: char)
    requires AllDigits(ds) && IsDigit(c)
    ensures AllDigits(ds + [c])
    ensures DigitsValue(ds + [c]) == DigitsValue(ds) * 10 + (c as int - '0' as int)
  {
    assert (ds + [c])[..|ds|] == ds;
  }

  /** `int("35500")` is 35500. */
  lemma ParsePositiveExample()
    ensures ParseInt("35500") == Some(35500)
  {
    assert AllDigits("35500") && DigitsValue("35500") == 35500 by {
      DigitsValueSnoc("", '3');
      assert "" + ['3'] == "3";
      DigitsValueSnoc("3", '5');
      assert "3" + ['5'] == "35";
      DigitsValueSnoc("35", '5');
      assert "35" + ['5'] == "355";
      DigitsValueSnoc("355", '0');
      assert "355" + ['0'] == "3550";
      DigitsValueSnoc("3550", '0');
      assert "3550" + ['0'] == "35500";
    }
    ParseUnsigned("35500");
  }

  /** `int("-1000")` is -1000. */
  lemma ParseNegativeExample()
    ensures ParseInt("-1000") == Some(-1000)
  {
    DigitsValueSnoc("", '1');
    assert "" + ['1'] == "1";
    DigitsValueSnoc("1", '0');
    assert "1" + ['0'] == "10";
    DigitsValueSnoc("10", '0');
    assert "10" + ['0'] == "100";
    DigitsValueSnoc("100", '0');
    assert "100" + ['0'] == "1000";
    ParseNegative("1000");
    assert "-" + "1000" == "-1000";
  }

  /** Appending `k` zero digits multiplies the value by 10^k. */
  lemma {:induction false} DigitsValueZeros(ds: string, k: nat)
    requires AllDigits(ds)
    ensures AllDigits(ds + Zeros(k))
    ensures DigitsValue(ds + Zeros(k)) == DigitsValue(ds) * Pow10(k)
  {
    var s := ds + Zeros(k);
    if k == 0 {
      assert s == ds;
    } else {
      DigitsValueZeros(ds, k - 1);
      assert s[..|s| - 1] == ds + Zeros(k - 1);
      assert s[|s| - 1] == '0';
    }
  }

  /** A value handed to one of the source's `int(...)` calls: an `int`
      already, or text to parse. */
  datatype Arg = IntArg(i: int) | TextArg(s: string)

  /** Python's `int(a)`. */
  function ToInt(a: Arg): (r: Option<int>)
    ensures a.IntArg? ==> r == Some(a.i)
    ensures a.TextArg? ==> (r.Some? <==> IsIntLiteral(Text.IntStrip(a.s)))
  {
    match a
    case IntArg(i) => Some(i)
    case TextArg(s) => ParseInt(s)
  }
}
